/**
 * `FilteredResultsView.get`: read the constraints `filters[i][field]` /
 * `filters[i][value]` from the query parameters, narrow the pages by each
 * constraint in turn (failing on the first field name that does not
 * resolve), then make the pages distinct and cut out one page of ten.
 */
module Filters {
  import opened Wrappers
  import opened Seqs
  import opened Text
  import opened Models
  import opened Paging
  import opened Responses

  /** One constraint: the field name and the exact value it must have. */
  datatype Constraint = Constraint(field: string, value: string)

  /** One entry of the response: `{'title': ..., 'url': ..., 'timestamp': ...}`. */
  datatype PageSummary = PageSummary(title: string, url: string, timestamp: nat)

  /** The response body: the entries of the requested page and `total_pages`. */
  datatype FilteredPage = FilteredPage(pages: seq<PageSummary>, totalPages: nat)

  /** `f'filters[{index}][field]'` */
  function FieldKey(index: nat): string
  {
    "filters[" + NatToString(index) + "][field]"
  }

  /** `f'filters[{index}][value]'` */
  function ValueKey(index: nat): string
  {
    "filters[" + NatToString(index) + "][value]"
  }

  lemma FieldKeyInjective(i: nat, j: nat)
    requires FieldKey(i) == FieldKey(j)
    ensures i == j
  {
    var a, b := FieldKey(i), FieldKey(j);
    assert a[8..|a| - 8] == NatToString(i);
    assert b[8..|b| - 8] == NatToString(j);
    NatToStringInjective(i, j);
  }

  /** The keys `filters[0][field]`, ..., `filters[n-1][field]` are `n` distinct strings. */
  lemma {:induction false} FieldKeysCount(n: nat)
    ensures |set j | 0 <= j < n :: FieldKey(j)| == n
  {
    if n > 0 {
      FieldKeysCount(n - 1);
      var s := set j | 0 <= j < n - 1 :: FieldKey(j);
      assert (set j | 0 <= j < n :: FieldKey(j)) == s + {FieldKey(n - 1)};
      assert FieldKey(n - 1) !in s by {
        if FieldKey(n - 1) in s {
          var j :| 0 <= j < n - 1 && FieldKey(j) == FieldKey(n - 1);
          FieldKeyInjective(j, n - 1);
        }
      }
    }
  }

  /** Both keys of index `i` are present. */
  predicate Present(params: map<string, string>, i: nat)
  {
    FieldKey(i) in params && ValueKey(i) in params
  }

  /** A finite map holds the field keys of at most as many indices as it has keys. */
  lemma KeysBound(params: map<string, string>, n: nat)
    requires forall j :: 0 <= j < n ==> Present(params, j)
    ensures n <= |params.Keys|
  {
    var keys := set j | 0 <= j < n :: FieldKey(j);
    FieldKeysCount(n);
    assert keys <= params.Keys by {
      forall key | key in keys ensures key in params.Keys {
        var j :| 0 <= j < n && FieldKey(j) == key;
        assert Present(params, j);
      }
    }
    SubsetCardinality(keys, params.Keys);
  }

  lemma SubsetCardinality<T>(a: set<T>, b: set<T>)
    requires a <= b
    ensures |a| <= |b|
  {
    assert b == a + (b - a);
  }

  function ConstraintAt(params: map<string, string>, i: nat): Constraint
    requires Present(params, i)
  {
    Constraint(params[FieldKey(i)], params[ValueKey(i)])
  }

  /** `fs` holds the constraints of indices 0, 1, ..., |fs|-1, and index |fs| is incomplete. */
  ghost predicate IsParse(params: map<string, string>, fs: seq<Constraint>)
  {
    && (forall k :: 0 <= k < |fs| ==> Present(params, k) && fs[k] == ConstraintAt(params, k))
    && !Present(params, |fs|)
  }

  /** The constraints of indices i, i+1, ... up to the first incomplete index. */
  ghost function ParsedFrom(params: map<string, string>, i: nat): (fs: seq<Constraint>)
    requires forall j :: 0 <= j < i ==> Present(params, j)
    ensures forall j :: i <= j < i + |fs| ==> Present(params, j) && fs[j - i] == ConstraintAt(params, j)
    ensures !Present(params, i + |fs|)
    decreases |params.Keys| - i
  {
    KeysBound(params, i);
    if Present(params, i) then
      KeysBound(params, i + 1);
      var rest := ParsedFrom(params, i + 1);
      var fs := [ConstraintAt(params, i)] + rest;
      assert forall j :: i + 1 <= j < i + |fs| ==> Present(params, j) && fs[j - i] == rest[j - (i + 1)];
      fs
    else []
  }

  /** The parsed constraint list: the longest run of complete indices from 0, in index order. */
  ghost function ParsedFilters(params: map<string, string>): (fs: seq<Constraint>)
    ensures IsParse(params, fs)
  {
    ParsedFrom(params, 0)
  }

  /** There is only one such list. */
  lemma ParseUnique(params: map<string, string>, a: seq<Constraint>, b: seq<Constraint>)
    requires IsParse(params, a) && IsParse(params, b)
    ensures a == b
  {
  }

  lemma ParsedFromStep(params: map<string, string>, i: nat)
    requires forall j :: 0 <= j <= i ==> Present(params, j)
    ensures ParsedFrom(params, i) == [ConstraintAt(params, i)] + ParsedFrom(params, i + 1)
  {
  }

  /** Taking the constraint of a complete index keeps the loop's account of what is left to parse. */
  lemma ParseAdvance(params: map<string, string>, filters: seq<Constraint>, index: nat)
    requires forall j :: 0 <= j < index ==> Present(params, j)
    requires Present(params, index)
    requires filters + ParsedFrom(params, index) == ParsedFilters(params)
    ensures forall j :: 0 <= j < index + 1 ==> Present(params, j)
    ensures index + 1 <= |params.Keys|
    ensures (filters + [ConstraintAt(params, index)]) + ParsedFrom(params, index + 1) == ParsedFilters(params)
  {
    ParsedFromStep(params, index);
    KeysBound(params, index + 1);
    assert (filters + [ConstraintAt(params, index)]) + ParsedFrom(params, index + 1)
        == filters + ([ConstraintAt(params, index)] + ParsedFrom(params, index + 1));
  }

  /** At the first incomplete index nothing is left to parse. */
  lemma ParseStop(params: map<string, string>, filters: seq<Constraint>, index: nat)
    requires forall j :: 0 <= j < index ==> Present(params, j)
    requires !Present(params, index)
    requires filters + ParsedFrom(params, index) == ParsedFilters(params)
    ensures filters == ParsedFilters(params)
  {
    assert ParsedFrom(params, index) == [];
    assert filters + [] == filters;
  }

  /** The `while True` loop that collects the filters. */
  method ParseFilters(params: map<string, string>) returns (filters: seq<Constraint>)
    ensures filters == ParsedFilters(params)
  {
    filters := [];
    var index := 0;
    while true
      invariant forall j :: 0 <= j < index ==> Present(params, j)
      invariant index <= |params.Keys|
      invariant filters + ParsedFrom(params, index) == ParsedFilters(params)
      decreases |params.Keys| - index
    {
      var fieldKey := FieldKey(index);
      var valueKey := ValueKey(index);
      if fieldKey in params && valueKey in params {
        var c := Constraint(params[fieldKey], params[valueKey]);
        ParseAdvance(params, filters, index);
        filters := filters + [c];
        index := index + 1;
      } else {
        ParseStop(params, filters, index);
        break;
      }
    }
  }

  /** The index of the first constraint whose field name has no field row, if any. */
  function FirstUnresolved(fields: seq<InfoBoxField>, fs: seq<Constraint>): (k: Option<nat>)
    ensures k.Some? ==> k.value < |fs| && FindField(fields, fs[k.value].field).None?
    ensures k.Some? ==> forall j :: 0 <= j < k.value ==> FindField(fields, fs[j].field).Some?
    ensures k.None? ==> forall j :: 0 <= j < |fs| ==> FindField(fields, fs[j].field).Some?
  {
    if |fs| == 0 then None
    else if FindField(fields, fs[0].field).None? then Some(0)
    else
      var rest := FirstUnresolved(fields, fs[1..]);
      assert forall j :: 1 <= j < |fs| ==> fs[j] == fs[1..][j - 1];
      match rest
      case Some(k) => Some(k + 1)
      case None => None
  }

  /** Some value row of page `p` has the constraint's field and exactly its value. */
  ghost predicate Satisfies(t: Tables, p: WikiPage, c: Constraint)
  {
    exists r :: r in t.values && r.page == p.id && r.value == c.value && HasFieldNamed(t.fields, r.field, c.field)
  }

  /** Page `p` meets every constraint, each possibly through a different value row. */
  ghost predicate SatisfiesAll(t: Tables, p: WikiPage, fs: seq<Constraint>)
  {
    forall k :: 0 <= k < |fs| ==> Satisfies(t, p, fs[k])
  }

  /** `n` copies of `p`. */
  function Repeat(p: WikiPage, n: nat): (r: seq<WikiPage>)
    ensures forall x :: x in r <==> n > 0 && x == p
  {
    if n == 0 then [] else [p] + Repeat(p, n - 1)
  }

  /** The value rows of page `pageId` with field `fieldId` and value `value`. */
  function MatchingRows(values: seq<InfoBoxValue>, pageId: Id, fieldId: Id, value: string): seq<InfoBoxValue>
  {
    Filter(values, (r: InfoBoxValue) => r.page == pageId && r.field == fieldId && r.value == value)
  }

  /**
   * `pages.filter(infoboxvalue__field=field, infoboxvalue__value=value)`: the join
   * yields a page once per matching value row, so a page can occur several times.
   */
  function Join(pages: seq<WikiPage>, values: seq<InfoBoxValue>, fieldId: Id, value: string): (r: seq<WikiPage>)
    ensures forall p :: p in r <==> p in pages && exists row :: row in values && row.page == p.id && row.field == fieldId && row.value == value
  {
    if |pages| == 0 then []
    else
      var p := pages[|pages| - 1];
      var init := pages[..|pages| - 1];
      var rows := MatchingRows(values, p.id, fieldId, value);
      assert |rows| > 0 <==> exists row :: row in values && row.page == p.id && row.field == fieldId && row.value == value by {
        if |rows| > 0 {
          assert rows[0] in rows;
        }
      }
      assert forall x :: x in pages <==> x in init || x == p by {
        assert pages == init + [p];
      }
      Join(init, values, fieldId, value) + Repeat(p, |rows|)
  }

  /** Every constraint's field name resolves. */
  predicate AllResolved(fields: seq<InfoBoxField>, fs: seq<Constraint>)
  {
    forall k :: 0 <= k < |fs| ==> FindField(fields, fs[k].field).Some?
  }

  /** The page list after narrowing by each constraint in turn, starting from all pages. */
  function Narrowed(t: Tables, fs: seq<Constraint>): (ps: seq<WikiPage>)
    requires AllResolved(t.fields, fs)
    ensures forall p :: p in ps ==> p in t.pages
  {
    if |fs| == 0 then t.pages
    else
      var last := fs[|fs| - 1];
      Join(Narrowed(t, fs[..|fs| - 1]), t.values, FindField(t.fields, last.field).value.id, last.value)
  }

  /** Meeting every constraint of a longer list: the shorter list's, and the last one. */
  lemma SatisfiesAllSnoc(t: Tables, p: WikiPage, fs: seq<Constraint>)
    requires |fs| > 0
    ensures SatisfiesAll(t, p, fs) <==> SatisfiesAll(t, p, fs[..|fs| - 1]) && Satisfies(t, p, fs[|fs| - 1])
  {
    assert forall k :: 0 <= k < |fs| - 1 ==> fs[..|fs| - 1][k] == fs[k];
  }

  /** Under unique field names, a constraint is met exactly through rows of the field its name resolves to. */
  lemma SatisfiesResolved(t: Tables, p: WikiPage, c: Constraint, f: InfoBoxField)
    requires Valid(t) && FindField(t.fields, c.field) == Some(f)
    ensures Satisfies(t, p, c) <==> exists row :: row in t.values && row.page == p.id && row.field == f.id && row.value == c.value
  {
    if Satisfies(t, p, c) {
      var r :| r in t.values && r.page == p.id && r.value == c.value && HasFieldNamed(t.fields, r.field, c.field);
      var g :| g in t.fields && g.id == r.field && g.name == c.field;
      FindFieldUnique(t.fields, c.field, g);
    }
  }

  /** Narrowing is intersection: a page survives iff it meets every constraint. */
  lemma {:induction false} NarrowedMembership(t: Tables, fs: seq<Constraint>, p: WikiPage)
    requires Valid(t) && AllResolved(t.fields, fs)
    ensures p in Narrowed(t, fs) <==> p in t.pages && SatisfiesAll(t, p, fs)
  {
    if |fs| > 0 {
      var init := fs[..|fs| - 1];
      var last := fs[|fs| - 1];
      NarrowedMembership(t, init, p);
      SatisfiesAllSnoc(t, p, fs);
      SatisfiesResolved(t, p, last, FindField(t.fields, last.field).value);
    }
  }

  /** The narrowed pages made distinct: what `pages.distinct()` holds. */
  function MatchingPages(t: Tables, fs: seq<Constraint>): (ps: seq<WikiPage>)
    requires Valid(t) && AllResolved(t.fields, fs)
    ensures NoDuplicates(ps)
    ensures forall p :: p in ps <==> p in t.pages && SatisfiesAll(t, p, fs)
  {
    var ps := Distinct(Narrowed(t, fs));
    assert forall p :: p in ps <==> p in t.pages && SatisfiesAll(t, p, fs) by {
      forall p ensures p in ps <==> p in t.pages && SatisfiesAll(t, p, fs) {
        NarrowedMembership(t, fs, p);
      }
    }
    ps
  }

  function Summary(p: WikiPage): PageSummary
  {
    PageSummary(p.title, p.url, p.timestamp)
  }

  /** The response for the distinct matching pages `ps` and the requested page parameter. */
  function Response(ps: seq<WikiPage>, page: PageParam): (r: FilteredPage)
    ensures |r.pages| <= PageSize && r.totalPages == NumPages(|ps|)
    ensures forall q :: q in r.pages ==> exists p :: p in ps && q == Summary(p)
  {
    var total := NumPages(|ps|);
    var served := PageOf(ps, PageNumber(page, total));
    FilteredPage(seq(|served|, i requires 0 <= i < |served| => Summary(served[i])), total)
  }

  lemma FirstUnresolvedAt(fields: seq<InfoBoxField>, fs: seq<Constraint>, k: nat)
    requires k < |fs| && AllResolved(fields, fs[..k]) && FindField(fields, fs[k].field).None?
    ensures FirstUnresolved(fields, fs) == Some(k)
  {
    assert forall j :: 0 <= j < k ==> fs[..k][j] == fs[j];
  }

  lemma NarrowedStep(t: Tables, fs: seq<Constraint>, k: nat)
    requires k < |fs| && AllResolved(t.fields, fs[..k]) && FindField(t.fields, fs[k].field).Some?
    ensures AllResolved(t.fields, fs[..k + 1])
    ensures Narrowed(t, fs[..k + 1]) == Join(Narrowed(t, fs[..k]), t.values, FindField(t.fields, fs[k].field).value.id, fs[k].value)
  {
    PrefixSnoc(fs, k);
    assert fs[..k + 1][..k] == fs[..k];
  }

  /** `FilteredResultsView.get` on the current tables. */
  method FilteredResults(t: Tables, params: map<string, string>, page: PageParam) returns (r: Result<FilteredPage, ApiError>)
    requires Valid(t)
    ensures var fs := ParsedFilters(params);
      && (fs == [] ==> r == Err(NoFiltersProvided))
      && (fs != [] && FirstUnresolved(t.fields, fs).Some? ==>
            r == Err(FilterFieldNotFound(fs[FirstUnresolved(t.fields, fs).value].field)))
      && (fs != [] && FirstUnresolved(t.fields, fs).None? ==>
            r == Ok(Response(MatchingPages(t, fs), page)))
  {
    var filters := ParseFilters(params);
    if |filters| == 0 {
      return Err(NoFiltersProvided);
    }
    var pages := t.pages;
    for k := 0 to |filters|
      invariant AllResolved(t.fields, filters[..k])
      invariant pages == Narrowed(t, filters[..k])
    {
      var c := filters[k];
      var field := FindField(t.fields, c.field);
      if field.None? {
        FirstUnresolvedAt(t.fields, filters, k);
        return Err(FilterFieldNotFound(c.field));
      }
      NarrowedStep(t, filters, k);
      pages := Join(pages, t.values, field.value.id, c.value);
    }
    assert filters[..|filters|] == filters;
    var distinctPages := Distinct(pages);
    return Ok(Response(distinctPages, page));
  }

  /**
   * The entries served for a successful query: at most ten, no page twice,
   * and each one a page that meets every constraint.
   */
  lemma ServedPagesMatch(t: Tables, fs: seq<Constraint>, page: PageParam)
    requires Valid(t) && AllResolved(t.fields, fs)
    ensures var ps := MatchingPages(t, fs);
      var served := PageOf(ps, PageNumber(page, NumPages(|ps|)));
      && |served| <= 10
      && NoDuplicates(served)
      && (forall p :: p in served ==> p in t.pages && SatisfiesAll(t, p, fs))
      && Response(ps, page).pages == seq(|served|, i requires 0 <= i < |served| => Summary(served[i]))
      && Response(ps, page).totalPages == NumPages(|ps|)
  {
    var ps := MatchingPages(t, fs);
    PageOfDistinct(ps, PageNumber(page, NumPages(|ps|)));
  }
}
