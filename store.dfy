/**
 * The fact store and its writer, `save_scraped_data`, with the scrape
 * endpoint `ScrapeWikipediaView.post` that drives it. The three tables are
 * sequences in insertion order; ids come from one counter (standing for
 * fresh UUIDs) and page timestamps from a clock that advances at each
 * page creation.
 */
module Store {
  import opened Wrappers
  import opened Seqs
  import opened Models
  import opened Scraper
  import opened Responses

  /** One (name, value) pair of one scraped record, with that record's page key. */
  datatype Fact = Fact(title: string, url: string, name: string, value: string)

  function EntryFacts(e: Entry): seq<Fact>
  {
    seq(|e.fields|, k requires 0 <= k < |e.fields| => Fact(e.title, e.url, e.fields[k].0, e.fields[k].1))
  }

  /** The pairs of a batch of records, flattened in the order the writer visits them. */
  function Facts(data: seq<Entry>): seq<Fact>
  {
    if |data| == 0 then [] else Facts(data[..|data| - 1]) + EntryFacts(data[|data| - 1])
  }

  function PageKey(p: WikiPage): (string, string) { (p.title, p.url) }

  function PageKeys(pages: seq<WikiPage>): set<(string, string)>
  {
    set p | p in pages :: PageKey(p)
  }

  function EntryKeys(data: seq<Entry>): set<(string, string)>
  {
    set e | e in data :: (e.title, e.url)
  }

  function FieldNames(fields: seq<InfoBoxField>): set<string>
  {
    set f | f in fields :: f.name
  }

  function FactNames(facts: seq<Fact>): set<string>
  {
    set f | f in facts :: f.name
  }

  /** Value row `r` records fact `f`: its value, the page of `f`'s key and the field of `f`'s name. */
  ghost predicate Links(t: Tables, r: InfoBoxValue, f: Fact)
  {
    && r.value == f.value
    && FindPage(t.pages, f.title, f.url).Some? && FindPage(t.pages, f.title, f.url).value.id == r.page
    && FindField(t.fields, f.name).Some? && FindField(t.fields, f.name).value.id == r.field
  }

  /**
   * `t1` is what saving `data` into `t0` yields: no existing row is changed or
   * removed; the page keys are the old ones plus the records' keys; the field
   * names are the old ones plus every pair's name; and exactly one new value
   * row is appended per pair, in order, linked to that pair's page and field.
   */
  ghost predicate Saved(t0: Tables, t1: Tables, data: seq<Entry>)
  {
    var facts := Facts(data);
    && t0.pages <= t1.pages && t0.fields <= t1.fields && t0.values <= t1.values
    && PageKeys(t1.pages) == PageKeys(t0.pages) + EntryKeys(data)
    && FieldNames(t1.fields) == FieldNames(t0.fields) + FactNames(facts)
    && |t1.values| == |t0.values| + |facts|
    && forall k :: 0 <= k < |facts| ==> Links(t1, t1.values[|t0.values| + k], facts[k])
  }

  lemma FactsOfSnoc(data: seq<Entry>, e: Entry)
    ensures Facts(data + [e]) == Facts(data) + EntryFacts(e)
  {
    assert (data + [e])[..|data|] == data;
  }

  /** Links only look rows up by first match, so appending page or field rows keeps them. */
  lemma LinksExtend(t: Tables, t': Tables, r: InfoBoxValue, f: Fact)
    requires t.pages <= t'.pages && t.fields <= t'.fields
    requires Links(t, r, f)
    ensures Links(t', r, f)
  {
    FindPageExtend(t.pages, t'.pages, f.title, f.url);
    FindFieldExtend(t.fields, t'.fields, f.name);
  }

  /** The writer's step for a record: its page is got or created, no pair yet. */
  lemma SavedAddPage(t0: Tables, t1: Tables, t2: Tables, data: seq<Entry>, title: string, url: string)
    requires Saved(t0, t1, data)
    requires t1.pages <= t2.pages && t2.fields == t1.fields && t2.values == t1.values
    requires PageKeys(t2.pages) == PageKeys(t1.pages) + {(title, url)}
    ensures Saved(t0, t2, data + [Entry(title, url, [])])
  {
    var e := Entry(title, url, []);
    FactsOfSnoc(data, e);
    assert EntryFacts(e) == [];
    assert EntryKeys(data + [e]) == EntryKeys(data) + {(title, url)};
    var facts := Facts(data);
    forall k | 0 <= k < |facts| ensures Links(t2, t2.values[|t0.values| + k], facts[k]) {
      LinksExtend(t1, t2, t1.values[|t0.values| + k], facts[k]);
    }
  }

  /** Adding a pair to the last record adds one fact at the end, with that pair's name. */
  lemma FactsAddPair(data: seq<Entry>, e: Entry, name: string, value: string)
    ensures var e' := Entry(e.title, e.url, e.fields + [(name, value)]);
      && Facts(data + [e']) == Facts(data + [e]) + [Fact(e.title, e.url, name, value)]
      && FactNames(Facts(data + [e'])) == FactNames(Facts(data + [e])) + {name}
      && EntryKeys(data + [e']) == EntryKeys(data + [e])
  {
    var e' := Entry(e.title, e.url, e.fields + [(name, value)]);
    FactsOfSnoc(data, e);
    FactsOfSnoc(data, e');
    assert EntryFacts(e') == EntryFacts(e) + [Fact(e.title, e.url, name, value)];
    assert EntryKeys(data + [e']) == EntryKeys(data) + {(e.title, e.url)};
    assert EntryKeys(data + [e]) == EntryKeys(data) + {(e.title, e.url)};
  }

  /** Appending one value row that links to `f` extends the linked rows by `f`. */
  lemma LinkedRowsAddOne(t0: Tables, t1: Tables, t2: Tables, before: seq<Fact>, f: Fact, row: InfoBoxValue)
    requires t2.pages == t1.pages && t1.fields <= t2.fields && t2.values == t1.values + [row]
    requires |t1.values| == |t0.values| + |before|
    requires forall k :: 0 <= k < |before| ==> Links(t1, t1.values[|t0.values| + k], before[k])
    requires Links(t2, row, f)
    ensures forall k :: 0 <= k < |before + [f]| ==> Links(t2, t2.values[|t0.values| + k], (before + [f])[k])
  {
    forall k | 0 <= k < |before| + 1 ensures Links(t2, t2.values[|t0.values| + k], (before + [f])[k]) {
      if k < |before| {
        assert t2.values[|t0.values| + k] == t1.values[|t0.values| + k];
        LinksExtend(t1, t2, t1.values[|t0.values| + k], before[k]);
      }
    }
  }

  /** The writer's step for a pair: its field is got or created and one value row is appended. */
  lemma SavedAddFact(t0: Tables, t1: Tables, t2: Tables, data: seq<Entry>, e: Entry, name: string, value: string, row: InfoBoxValue)
    requires Saved(t0, t1, data + [e])
    requires t2.pages == t1.pages && t1.fields <= t2.fields && t2.values == t1.values + [row]
    requires FieldNames(t2.fields) == FieldNames(t1.fields) + {name}
    requires Links(t2, row, Fact(e.title, e.url, name, value))
    ensures Saved(t0, t2, data + [Entry(e.title, e.url, e.fields + [(name, value)])])
  {
    FactsAddPair(data, e, name, value);
    LinkedRowsAddOne(t0, t1, t2, Facts(data + [e]), Fact(e.title, e.url, name, value), row);
  }

  /** Every saved record's (title, url) has a page afterwards. */
  lemma SavedEntriesHavePages(t0: Tables, t1: Tables, data: seq<Entry>)
    requires Saved(t0, t1, data)
    ensures forall e :: e in data ==> FindPage(t1.pages, e.title, e.url).Some?
  {
    forall e | e in data ensures FindPage(t1.pages, e.title, e.url).Some? {
      assert (e.title, e.url) in PageKeys(t1.pages);
    }
  }

  /** A field name resolves to the same field row before and after a save. */
  lemma SavedKeepsFieldIdentity(t0: Tables, t1: Tables, data: seq<Entry>, name: string)
    requires Saved(t0, t1, data)
    requires FindField(t0.fields, name).Some?
    ensures FindField(t1.fields, name) == FindField(t0.fields, name)
  {
    FindFieldExtend(t0.fields, t1.fields, name);
  }

  /**
   * Saving the same records again creates no page, but appends one more value row
   * per pair: value rows are not deduplicated.
   */
  lemma SavingTwiceAddsNoPages(t0: Tables, t1: Tables, t2: Tables, data: seq<Entry>)
    requires Saved(t0, t1, data) && Saved(t1, t2, data)
    requires UniqueBy(t2.pages, PageKey)
    ensures t2.pages == t1.pages
    ensures |t2.values| == |t1.values| + |Facts(data)|
    ensures forall k :: 0 <= k < |Facts(data)| ==> t2.values[|t1.values| + k].value == Facts(data)[k].value
  {
    if |t2.pages| > |t1.pages| {
      NewPageRepeatsKey(t1, t2, data, |t1.pages|);
      assert false;
    }
    var facts := Facts(data);
    forall k | 0 <= k < |facts| ensures t2.values[|t1.values| + k].value == facts[k].value {
      assert Links(t2, t2.values[|t1.values| + k], facts[k]);
    }
  }

  /** A page added by saving records whose keys all had pages repeats an existing key. */
  lemma NewPageRepeatsKey(t1: Tables, t2: Tables, data: seq<Entry>, j: nat)
    requires Saved(t1, t2, data)
    requires EntryKeys(data) <= PageKeys(t1.pages)
    requires |t1.pages| <= j < |t2.pages|
    ensures exists i :: 0 <= i < |t1.pages| && PageKey(t2.pages[i]) == PageKey(t2.pages[j])
  {
    var p := t2.pages[j];
    assert PageKey(p) in PageKeys(t2.pages);
    var q :| q in t1.pages && PageKey(q) == PageKey(p);
    var i :| 0 <= i < |t1.pages| && t1.pages[i] == q;
    assert t2.pages[i] == q;
  }

  /**
   * The store's invariant on plain values: the schema's constraints, page keys
   * kept unique by get-or-create, and every id issued below the counter and
   * every timestamp below the clock (so the next id is fresh in every table).
   */
  ghost predicate StoreValid(t: Tables, nextId: nat, clock: nat)
  {
    && Models.Valid(t)
    && UniqueBy(t.pages, PageKey)
    && (forall p :: p in t.pages ==> p.id < nextId && p.timestamp < clock)
    && (forall f :: f in t.fields ==> f.id < nextId)
    && (forall r :: r in t.values ==> r.id < nextId)
  }

  /** Creating a page for a new key, with the next id and the current time, keeps the invariant. */
  lemma AddPageKeepsValid(t: Tables, nextId: nat, clock: nat, title: string, url: string)
    requires StoreValid(t, nextId, clock) && FindPage(t.pages, title, url).None?
    ensures var page := WikiPage(nextId, title, url, clock);
      && StoreValid(Tables(t.pages + [page], t.fields, t.values), nextId + 1, clock + 1)
      && FindPage(t.pages + [page], title, url) == Some(page)
      && PageKeys(t.pages + [page]) == PageKeys(t.pages) + {(title, url)}
  {
    var page := WikiPage(nextId, title, url, clock);
    var pages := t.pages + [page];
    assert forall p :: p in pages <==> p in t.pages || p == page;
    UniqueBySnoc(t.pages, page, PageKey);
    UniqueBySnoc(t.pages, page, PageId);
    forall r | r in t.values ensures HasPage(pages, r.page) {
      var p :| p in t.pages && p.id == r.page;
      assert p in pages;
    }
    FindPageAppended(t.pages, page);
  }

  /** Creating a field for a new name, with the next id, keeps the invariant. */
  lemma AddFieldKeepsValid(t: Tables, nextId: nat, clock: nat, name: string)
    requires StoreValid(t, nextId, clock) && FindField(t.fields, name).None?
    ensures var field := InfoBoxField(nextId, name);
      && StoreValid(Tables(t.pages, t.fields + [field], t.values), nextId + 1, clock)
      && FindField(t.fields + [field], name) == Some(field)
      && FieldNames(t.fields + [field]) == FieldNames(t.fields) + {name}
  {
    var field := InfoBoxField(nextId, name);
    var fields := t.fields + [field];
    assert forall f :: f in fields <==> f in t.fields || f == field;
    UniqueBySnoc(t.fields, field, FieldId);
    UniqueBySnoc(t.fields, field, FieldName);
    forall r | r in t.values ensures HasField(fields, r.field) {
      var f :| f in t.fields && f.id == r.field;
      assert f in fields;
    }
    FindFieldAppended(t.fields, field);
  }

  /** Creating a value row with the next id, for an existing field and page, keeps the invariant. */
  lemma AddValueKeepsValid(t: Tables, nextId: nat, clock: nat, value: string, field: InfoBoxField, page: WikiPage)
    requires StoreValid(t, nextId, clock) && field in t.fields && page in t.pages
    ensures StoreValid(Tables(t.pages, t.fields, t.values + [InfoBoxValue(nextId, value, field.id, page.id)]), nextId + 1, clock)
  {
    var row := InfoBoxValue(nextId, value, field.id, page.id);
    assert forall r :: r in t.values + [row] <==> r in t.values || r == row;
    UniqueBySnoc(t.values, row, ValueId);
  }

  /** The database tables with the state the writer needs: the id counter and the clock. */
  class FactStore {
    var pages: seq<WikiPage>
    var fields: seq<InfoBoxField>
    var values: seq<InfoBoxValue>
    var nextId: nat
    var clock: nat

    function Contents(): Tables
      reads this
    {
      Tables(pages, fields, values)
    }

    ghost predicate Valid()
      reads this
    {
      StoreValid(Contents(), nextId, clock)
    }

    constructor ()
      ensures Valid() && Contents() == Tables([], [], [])
    {
      pages, fields, values := [], [], [];
      nextId, clock := 0, 0;
    }

    /** `WikiPage.objects.get_or_create(title=title, url=url)`. */
    method GetOrCreatePage(title: string, url: string) returns (page: WikiPage)
      requires Valid()
      modifies this
      ensures Valid()
      ensures fields == old(fields) && values == old(values) && old(pages) <= pages
      ensures old(FindPage(pages, title, url)).Some? ==>
        page == old(FindPage(pages, title, url)).value && pages == old(pages)
        && nextId == old(nextId) && clock == old(clock)
      ensures old(FindPage(pages, title, url)).None? ==>
        page == WikiPage(old(nextId), title, url, old(clock)) && pages == old(pages) + [page]
      ensures old(FindPage(pages, title, url)).None? ==>
        forall p :: p in old(pages) ==> p.id != page.id && p.timestamp < page.timestamp
      ensures FindPage(pages, title, url) == Some(page)
      ensures PageKeys(pages) == old(PageKeys(pages)) + {(title, url)}
    {
      var found := FindPage(pages, title, url);
      if found.Some? {
        page := found.value;
        assert PageKey(page) in PageKeys(pages);
        return;
      }
      AddPageKeepsValid(Contents(), nextId, clock, title, url);
      page := WikiPage(nextId, title, url, clock);
      pages := pages + [page];
      nextId, clock := nextId + 1, clock + 1;
    }

    /** `InfoBoxField.objects.get_or_create(name=name)`. */
    method GetOrCreateField(name: string) returns (field: InfoBoxField)
      requires Valid()
      modifies this
      ensures Valid() && clock == old(clock)
      ensures pages == old(pages) && values == old(values) && old(fields) <= fields
      ensures old(FindField(fields, name)).Some? ==>
        field == old(FindField(fields, name)).value && fields == old(fields) && nextId == old(nextId)
      ensures old(FindField(fields, name)).None? ==>
        field == InfoBoxField(old(nextId), name) && fields == old(fields) + [field]
      ensures old(FindField(fields, name)).None? ==> forall f :: f in old(fields) ==> f.id != field.id
      ensures FindField(fields, name) == Some(field)
      ensures FieldNames(fields) == old(FieldNames(fields)) + {name}
    {
      var found := FindField(fields, name);
      if found.Some? {
        field := found.value;
        return;
      }
      AddFieldKeepsValid(Contents(), nextId, clock, name);
      field := InfoBoxField(nextId, name);
      fields := fields + [field];
      nextId := nextId + 1;
    }

    /** `InfoBoxValue.objects.create(value=value, field=field, page=page)`. */
    method CreateValue(value: string, field: InfoBoxField, page: WikiPage) returns (row: InfoBoxValue)
      requires Valid() && field in fields && page in pages
      modifies this
      ensures Valid()
      ensures pages == old(pages) && fields == old(fields)
      ensures row == InfoBoxValue(old(nextId), value, field.id, page.id)
      ensures values == old(values) + [row]
      ensures forall r :: r in old(values) ==> r.id != row.id
      ensures nextId == old(nextId) + 1 && clock == old(clock)
    {
      AddValueKeepsValid(Contents(), nextId, clock, value, field, page);
      row := InfoBoxValue(nextId, value, field.id, page.id);
      values := values + [row];
      nextId := nextId + 1;
    }

    /** `save_scraped_data(data)`. */
    method SaveScrapedData(data: seq<Entry>)
      requires Valid()
      modifies this
      ensures Valid()
      ensures Saved(old(Contents()), Contents(), data)
    {
      ghost var t0 := Contents();
      assert Facts(data[..0]) == [];
      for i := 0 to |data|
        invariant Valid()
        invariant Saved(t0, Contents(), data[..i])
      {
        PrefixSnoc(data, i);
        SaveEntry(data[i], t0, data[..i]);
      }
      assert data[..|data|] == data;
    }

    /** The body of the writer's loop for one record: get or create its page, then one value row per pair. */
    method SaveEntry(entry: Entry, ghost t0: Tables, ghost done: seq<Entry>)
      requires Valid() && Saved(t0, Contents(), done)
      modifies this
      ensures Valid() && Saved(t0, Contents(), done + [entry])
    {
      ghost var t1 := Contents();
      var page := GetOrCreatePage(entry.title, entry.url);
      SavedAddPage(t0, t1, Contents(), done, entry.title, entry.url);
      SavePairs(page, entry, t0, done);
    }

    /** The writer's inner loop over the pairs of one record, once its page exists. */
    method SavePairs(page: WikiPage, entry: Entry, ghost t0: Tables, ghost done: seq<Entry>)
      requires Valid() && Saved(t0, Contents(), done + [Entry(entry.title, entry.url, [])])
      requires FindPage(pages, entry.title, entry.url) == Some(page)
      modifies this
      ensures Valid() && Saved(t0, Contents(), done + [entry])
    {
      PartialEntryEnds(entry);
      for j := 0 to |entry.fields|
        invariant Valid() && FindPage(pages, entry.title, entry.url) == Some(page)
        invariant Saved(t0, Contents(), done + [PartialEntry(entry, j)])
      {
        SavePair(page, entry, j, t0, done);
      }
    }

    /** The body of the writer's inner loop: get or create the field of pair `j`, then append one value row. */
    method SavePair(page: WikiPage, entry: Entry, j: nat, ghost t0: Tables, ghost done: seq<Entry>)
      requires j < |entry.fields|
      requires Valid() && Saved(t0, Contents(), done + [PartialEntry(entry, j)])
      requires FindPage(pages, entry.title, entry.url) == Some(page)
      modifies this
      ensures Valid() && Saved(t0, Contents(), done + [PartialEntry(entry, j + 1)])
      ensures pages == old(pages)
    {
      var (name, value) := entry.fields[j];
      ghost var t1 := Contents();
      var field := GetOrCreateField(name);
      var row := CreateValue(value, field, page);
      PartialEntryStep(entry, j);
      SavedAddFact(t0, t1, Contents(), done, PartialEntry(entry, j), name, value, row);
    }
  }

  /** A record cut down to its first `j` pairs: what the writer has saved of it so far. */
  function PartialEntry(e: Entry, j: nat): Entry
    requires j <= |e.fields|
  {
    Entry(e.title, e.url, e.fields[..j])
  }

  lemma PartialEntryStep(e: Entry, j: nat)
    requires j < |e.fields|
    ensures PartialEntry(e, j + 1) == Entry(e.title, e.url, PartialEntry(e, j).fields + [e.fields[j]])
  {
    PrefixSnoc(e.fields, j);
  }

  lemma PartialEntryEnds(e: Entry)
    ensures PartialEntry(e, 0) == Entry(e.title, e.url, [])
    ensures PartialEntry(e, |e.fields|) == e
  {
    assert e.fields[..|e.fields|] == e.fields;
  }

  lemma {:induction false} FindPageAppended(pages: seq<WikiPage>, page: WikiPage)
    requires FindPage(pages, page.title, page.url).None?
    ensures FindPage(pages + [page], page.title, page.url) == Some(page)
  {
    if |pages| > 0 {
      assert (pages + [page])[1..] == pages[1..] + [page];
      FindPageAppended(pages[1..], page);
    }
  }

  lemma {:induction false} FindFieldAppended(fields: seq<InfoBoxField>, field: InfoBoxField)
    requires FindField(fields, field.name).None?
    ensures FindField(fields + [field], field.name) == Some(field)
  {
    if |fields| > 0 {
      assert (fields + [field])[1..] == fields[1..] + [field];
      FindFieldAppended(fields[1..], field);
    }
  }

  const MaxUrls: nat := 50
  const ScrapeSucceeded: string := "Scraping completed successfully."

  /**
   * `ScrapeWikipediaView.post`: a batch of more than 50 URLs is refused before
   * anything is fetched or saved; otherwise the batch is scraped and saved.
   */
  method ScrapeWikipedia(store: FactStore, urls: seq<string>, fetch: string -> FetchOutcome) returns (r: Result<string, ApiError>)
    requires store.Valid()
    modifies store
    ensures store.Valid()
    ensures r.Err? <==> |urls| > 50
    ensures r.Err? ==> r.error == TooManyUrls && unchanged(store)
    ensures r.Ok? ==> r.value == "Scraping completed successfully." && Saved(old(store.Contents()), store.Contents(), Scraped(urls, fetch))
  {
    if |urls| > MaxUrls {
      return Err(TooManyUrls);
    }
    var scraped := ScrapeWikipediaPages(urls, fetch);
    store.SaveScrapedData(scraped);
    return Ok(ScrapeSucceeded);
  }
}
