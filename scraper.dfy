/**
 * `scrape_wikipedia_pages`: for each URL, in order, fetch and parse the page
 * and shape what was found into a record (title, url, infobox pairs).
 * Fetching and HTML parsing are external; the model receives, for each URL,
 * the outcome of both as an abstract `FetchOutcome`.
 */
module Scraper {
  import opened Wrappers
  import opened Seqs
  import opened Text

  /** A `<tr>` of the infobox: the text of its first `<th>` and of its first `<td>`, when present. */
  datatype Row = Row(th: Option<string>, td: Option<string>)

  /** What the parser finds: the text of the first `<h1>`, and the rows of the first `table.infobox`. */
  datatype Document = Document(h1: Option<string>, infobox: Option<seq<Row>>)

  /** A fetch (or its status check, or the parse) raised, or it produced a document. */
  datatype FetchOutcome = FetchFailed | Fetched(doc: Document)

  /** One scraped record: `{'title': ..., 'url': ..., 'fields': [(name, value), ...]}`. */
  datatype Entry = Entry(title: string, url: string, fields: seq<(string, string)>)

  const NoTitle: string := "No Title"
  const SecureMarker: string := "https"

  /** The page title: the first heading's text, or the placeholder when there is none. */
  function Title(doc: Document): string
  {
    match doc.h1
    case Some(text) => text
    case None => NoTitle
  }

  /** A row yields a pair exactly when it has both cells; both texts are stripped. */
  function RowField(row: Row): Option<(string, string)>
  {
    if row.th.Some? && row.td.Some? then Some((Strip(row.th.value), Strip(row.td.value))) else None
  }

  /** The pairs of an infobox, in row order. */
  function InfoboxFields(rows: seq<Row>): seq<(string, string)>
  {
    FilterMap(rows, RowField)
  }

  /** The record built for one fetched document. */
  function Extract(url: string, doc: Document): (e: Entry)
    ensures e.url == url
    ensures |e.fields| <= match doc.infobox case Some(rows) => |rows| case None => 0
  {
    Entry(Title(doc), url, match doc.infobox case Some(rows) => InfoboxFields(rows) case None => [])
  }

  /** The record for one URL, or None when the URL is skipped or its fetch fails. */
  function ScrapeOne(url: string, outcome: FetchOutcome): (r: Option<Entry>)
    ensures r.Some? <==> Contains(url, SecureMarker) && outcome.Fetched?
    ensures r.Some? ==> r.value == Extract(url, outcome.doc)
  {
    if !Contains(url, SecureMarker) then None
    else match outcome
      case FetchFailed => None
      case Fetched(doc) => Some(Extract(url, doc))
  }

  /** What `scrape_wikipedia_pages(urls)` returns when `fetch` gives each URL's outcome. */
  function Scraped(urls: seq<string>, fetch: string -> FetchOutcome): (r: seq<Entry>)
    ensures |r| <= |urls|
    ensures forall e :: e in r ==> e.url in urls && Contains(e.url, SecureMarker)
  {
    FilterMap(urls, (u: string) => ScrapeOne(u, fetch(u)))
  }

  /**
   * Extraction: the title is the first heading or "No Title", the url is the one fetched,
   * and the fields are exactly the rows with both cells, as stripped (header, data) pairs;
   * without an infobox there are no fields.
   */
  lemma ExtractSpec(url: string, doc: Document)
    ensures var e := Extract(url, doc);
      && e.url == url
      && (doc.h1.Some? ==> e.title == doc.h1.value)
      && (doc.h1.None? ==> e.title == "No Title")
      && (doc.infobox.None? ==> e.fields == [])
      && (doc.infobox.Some? ==> forall name, value :: (name, value) in e.fields <==>
            exists i :: 0 <= i < |doc.infobox.value| && doc.infobox.value[i].th.Some? && doc.infobox.value[i].td.Some?
              && name == Strip(doc.infobox.value[i].th.value) && value == Strip(doc.infobox.value[i].td.value))
  {
    if doc.infobox.Some? {
      var rows := doc.infobox.value;
      forall name, value ensures (name, value) in InfoboxFields(rows) <==>
        exists i :: 0 <= i < |rows| && rows[i].th.Some? && rows[i].td.Some?
          && name == Strip(rows[i].th.value) && value == Strip(rows[i].td.value)
      {
        if (name, value) in InfoboxFields(rows) {
          var i :| 0 <= i < |rows| && RowField(rows[i]) == Some((name, value));
        }
        if i :| (0 <= i < |rows| && rows[i].th.Some? && rows[i].td.Some?
                 && name == Strip(rows[i].th.value) && value == Strip(rows[i].td.value)) {
          assert RowField(rows[i]) == Some((name, value));
        }
      }
    }
  }

  /** The pairs keep the row order: the pairs of consecutive row runs are concatenated. */
  lemma InfoboxFieldsInRowOrder(a: seq<Row>, b: seq<Row>)
    ensures InfoboxFields(a + b) == InfoboxFields(a) + InfoboxFields(b)
  {
    FilterMapAppend(a, b, RowField);
  }

  /** One row contributes its stripped pair when it has both cells, and nothing otherwise. */
  lemma InfoboxFieldsOfRow(row: Row)
    ensures InfoboxFields([row]) == if row.th.Some? && row.td.Some? then [(Strip(row.th.value), Strip(row.td.value))] else []
  {
    FilterMapSingle(row, RowField);
  }

  /**
   * Output records: one per URL that contains "https" and whose fetch succeeded,
   * built from that URL's document; nothing else.
   */
  lemma ScrapedMembership(urls: seq<string>, fetch: string -> FetchOutcome, e: Entry)
    ensures e in Scraped(urls, fetch) <==>
      exists i :: 0 <= i < |urls| && Contains(urls[i], "https") && fetch(urls[i]).Fetched?
        && e == Extract(urls[i], fetch(urls[i]).doc)
  {
    var f := (u: string) => ScrapeOne(u, fetch(u));
    if e in Scraped(urls, fetch) {
      var i :| 0 <= i < |urls| && f(urls[i]) == Some(e);
    }
    if i :| (0 <= i < |urls| && Contains(urls[i], "https") && fetch(urls[i]).Fetched?
             && e == Extract(urls[i], fetch(urls[i]).doc)) {
      assert f(urls[i]) == Some(e);
    }
  }

  /** Records come out in input order: the output for a split batch is the concatenation. */
  lemma ScrapedInInputOrder(a: seq<string>, b: seq<string>, fetch: string -> FetchOutcome)
    ensures Scraped(a + b, fetch) == Scraped(a, fetch) + Scraped(b, fetch)
  {
    FilterMapAppend(a, b, (u: string) => ScrapeOne(u, fetch(u)));
  }

  /** A single URL: skipped without "https", dropped when its fetch fails, one record otherwise. */
  lemma ScrapedOfOne(url: string, fetch: string -> FetchOutcome)
    ensures !Contains(url, "https") ==> Scraped([url], fetch) == []
    ensures Contains(url, "https") && fetch(url).FetchFailed? ==> Scraped([url], fetch) == []
    ensures Contains(url, "https") && fetch(url).Fetched? ==> Scraped([url], fetch) == [Extract(url, fetch(url).doc)]
  {
    FilterMapSingle(url, (u: string) => ScrapeOne(u, fetch(u)));
  }

  /**
   * URLs without "https" are never fetched: the result does not depend on what the
   * fetcher would have answered for them.
   */
  lemma {:induction false} ScrapedIgnoresInsecureUrls(urls: seq<string>, fetch: string -> FetchOutcome, fetch': string -> FetchOutcome)
    requires forall u :: u in urls && Contains(u, "https") ==> fetch(u) == fetch'(u)
    ensures Scraped(urls, fetch) == Scraped(urls, fetch')
  {
    if |urls| > 0 {
      var init := urls[..|urls| - 1];
      var last := urls[|urls| - 1];
      assert urls == init + [last];
      ScrapedIgnoresInsecureUrls(init, fetch, fetch');
      ScrapedInInputOrder(init, [last], fetch);
      ScrapedInInputOrder(init, [last], fetch');
      ScrapedOfOne(last, fetch);
      ScrapedOfOne(last, fetch');
    }
  }

  /** Scraping one more URL appends that URL's record, if it has one. */
  lemma ScrapedStep(urls: seq<string>, n: nat, fetch: string -> FetchOutcome)
    requires n < |urls|
    ensures Contains(urls[n], SecureMarker) && fetch(urls[n]).Fetched? ==>
      Scraped(urls[..n + 1], fetch) == Scraped(urls[..n], fetch) + [Extract(urls[n], fetch(urls[n]).doc)]
    ensures !(Contains(urls[n], SecureMarker) && fetch(urls[n]).Fetched?) ==> Scraped(urls[..n + 1], fetch) == Scraped(urls[..n], fetch)
  {
    PrefixSnoc(urls, n);
    ScrapedInInputOrder(urls[..n], [urls[n]], fetch);
    ScrapedOfOne(urls[n], fetch);
  }

  /** One more row appends that row's pair, if it has both cells. */
  lemma InfoboxFieldsStep(rows: seq<Row>, k: nat)
    requires k < |rows|
    ensures rows[k].th.Some? && rows[k].td.Some? ==>
      InfoboxFields(rows[..k + 1]) == InfoboxFields(rows[..k]) + [(Strip(rows[k].th.value), Strip(rows[k].td.value))]
    ensures !(rows[k].th.Some? && rows[k].td.Some?) ==> InfoboxFields(rows[..k + 1]) == InfoboxFields(rows[..k])
  {
    PrefixSnoc(rows, k);
    InfoboxFieldsInRowOrder(rows[..k], [rows[k]]);
    InfoboxFieldsOfRow(rows[k]);
  }

  /** The inner loop of `scrape_wikipedia_pages`, over the rows of the infobox. */
  method ScrapeInfobox(rows: seq<Row>) returns (fields: seq<(string, string)>)
    ensures fields == InfoboxFields(rows)
  {
    fields := [];
    for k := 0 to |rows|
      invariant fields == InfoboxFields(rows[..k])
    {
      var row := rows[k];
      InfoboxFieldsStep(rows, k);
      if row.th.Some? && row.td.Some? {
        fields := fields + [(Strip(row.th.value), Strip(row.td.value))];
      }
    }
    assert rows[..|rows|] == rows;
  }

  /** The loop of `scrape_wikipedia_pages` over the URLs. */
  method ScrapeWikipediaPages(urls: seq<string>, fetch: string -> FetchOutcome) returns (scraped: seq<Entry>)
    ensures scraped == Scraped(urls, fetch)
  {
    scraped := [];
    for n := 0 to |urls|
      invariant scraped == Scraped(urls[..n], fetch)
    {
      var url := urls[n];
      ScrapedStep(urls, n, fetch);
      if !Contains(url, SecureMarker) {
        continue;
      }
      match fetch(url)
      case FetchFailed =>
      case Fetched(doc) =>
        var title := if doc.h1.Some? then doc.h1.value else NoTitle;
        var fields := [];
        if doc.infobox.Some? {
          fields := ScrapeInfobox(doc.infobox.value);
        }
        scraped := scraped + [Entry(title, url, fields)];
    }
    assert urls[..|urls|] == urls;
  }
}
