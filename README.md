# Wikipedia infobox scraper backend, modelled in Dafny

The system is a small Django REST backend. It scrapes Wikipedia pages and
stores each page's infobox as (field, value) facts in three tables:
`WikiPage`, `InfoBoxField` and `InfoBoxValue`. It then serves queries over
those facts. This project models its core and proves properties of the model:

- **Scraping** (`scrape_wikipedia_pages`). URLs are read in order. A URL without
  the substring `https` is skipped, and a failed fetch is dropped. The title
  defaults to "No Title". An infobox row becomes a stripped (header, data)
  pair only when it has both cells.
- **The scrape endpoint** (`ScrapeWikipediaView.post`). A batch of more than 50
  URLs is refused before anything is fetched or saved.
- **The writer** (`save_scraped_data`). It gets or creates the page by (title, url)
  and the field by name. Then it appends one value row per pair and never
  deduplicates value rows.
- **The filtered query** (`FilteredResultsView.get`):
  - it parses `filters[i][field]` / `filters[i][value]` parameters up to the
    first incomplete index;
  - it fails on the first field name that does not resolve;
  - otherwise it narrows the pages by each constraint (an SQL join), makes them
    distinct and serves one page of ten.
- **The catalog** (`FilterView.get`, `AllValuesForFieldView.get`). It lists the
  distinct field names, or the distinct values of one field, paged by ten or
  all at once.
- **The schema** (`app/models.py`). It has unique ids, unique field names, two
  foreign keys with cascading deletes, and a timestamp fixed at creation.

Layout, one module per file:

- `wrappers.dfy`: Option and Result.
- `seqs.dfy`: filter, filter-map, `distinct` and column uniqueness.
- `text.dfy`: Python's `str.strip()`, the substring test `in`, and integer
  rendering inside an f-string.
- `models.dfy`: the three tables, the schema invariant and deletes.
- `scraper.dfy`: the scraper.
- `store.dfy`: the store class `FactStore`, the writer and the scrape endpoint.
- `paging.dfy`: Django's `Paginator`.
- `filters.dfy`: the filtered query.
- `catalog.dfy`: the two listing views.
- `responses.dfy`: the error responses.

The database is the class `FactStore`. Its three tables are sequences in
insertion order that the writer's methods extend in place. One counter,
`nextId`, stands in for `uuid4` and hands out fresh ids. A `clock` counter
stands in for `now` and gives each new page a later timestamp. The writer is
specified by the relation `Store.Saved(before, after, records)`, which every
save establishes. The queries are functions of the tables (`Models.Tables`).
The two loops of `FilteredResultsView.get` are methods proved equal to those
functions.

Fetching and HTML parsing are foreign code. For each URL the model is given
their combined outcome as a parameter `fetch: string -> FetchOutcome`. The
outcome is either a failure, or the first `<h1>` text and the rows of the
first infobox table, each row with its optional `<th>` and `<td>` text.

Errors are the variants of `Responses.ApiError`, one per error response of
the views.

## Model

| member | source | states |
|---|---|---|
| Text.Strip | app/views.py:36 | `text.strip()` removes exactly a leading and a trailing run of Python whitespace. The result is a slice of the input, and a non-empty result starts and ends with a non-whitespace character. |
| Text.StripIdempotent | app/views.py:36 | Stripping an already stripped cell changes nothing. |
| Text.Contains | app/views.py:18 | `'https' in url` holds iff `https` occurs at some position of the url. |
| Text.ContainsIsNotPrefix | app/views.py:18 | The test matches `https` anywhere, not only as the scheme (`http://example.org/https` passes). It is case-sensitive (`HTTPS://...` fails). |
| Text.NatToStringRoundTrip | app/views.py:105-106 | The index rendered into a parameter key reads back as the same number, so distinct indices give distinct keys. |
| Filters.FieldKeyInjective | app/views.py:105 | Distinct indices name distinct `filters[i][field]` keys. |
| Filters.FieldKey | app/views.py:105 | The parameter key `filters[i][field]` for index i, with i in decimal. |
| Filters.ValueKey | app/views.py:106 | The parameter key `filters[i][value]` for index i, with i in decimal. |
| Filters.Present | app/views.py:109 | Index i is complete: both its `filters[i][field]` and `filters[i][value]` keys are in the query parameters. |
| Filters.ConstraintAt | app/views.py:110-113 | The constraint of a complete index: the field name and the value read from its two keys. |
| Scraper.ExtractSpec | app/views.py:26-36 | The title is the first heading's text, or "No Title" without one. The url is the fetched one. The pairs are exactly (stripped th, stripped td) of the rows having both cells. There are no pairs without an infobox. |
| Scraper.Title | app/views.py:26 | The page title: the first heading's text, or "No Title" when there is none. |
| Scraper.RowField | app/views.py:33-36 | One infobox row's pair: the stripped header and data texts when the row has both cells, and nothing otherwise. |
| Scraper.InfoboxFields | app/views.py:30-36 | The row loop as a function: the pairs of the rows, in row order. |
| Scraper.Extract | app/views.py:26-42 | The record built from one fetched document: its title, the fetched url, and the pairs of its infobox rows (at most one per row). |
| Scraper.ScrapeOne | app/views.py:18-44 | The record one URL contributes: one exactly when the URL contains `https` and its fetch succeeded, and then the extraction of its document. |
| Scraper.Scraped | app/views.py:15-46 | `scrape_wikipedia_pages` as a function: the records of the URLs in input order, at most one per URL, each for a URL that contains `https`. |
| Scraper.InfoboxFieldsInRowOrder | app/views.py:31-36 | Pairs keep row order: the pairs of consecutive row runs concatenate. |
| Scraper.InfoboxFieldsOfRow | app/views.py:33-36 | A single row yields its stripped pair when it has both cells, and nothing otherwise. |
| Scraper.ScrapedMembership | app/views.py:17-45 | A record is in the output iff it is the extraction of some input URL that contains `https` and whose fetch succeeded. |
| Scraper.ScrapedInInputOrder | app/views.py:17-42 | The output for a concatenated batch is the concatenation of the outputs, so records come out in input order. |
| Scraper.ScrapedOfOne | app/views.py:18-44 | One URL: no record without `https`, no record when its fetch fails, otherwise exactly its extracted record. |
| Scraper.ScrapedIgnoresInsecureUrls | app/views.py:18-22 | URLs without `https` are never fetched: two fetchers that agree on the other URLs give the same output. |
| Scraper.ScrapeInfobox | app/views.py:30-36 | The row loop appends exactly the pairs of the infobox, in row order. |
| Scraper.ScrapeWikipediaPages | app/views.py:15-46 | The URL loop returns exactly the scraped records described above. |
| Models.FindField | app/views.py:81 | `filter(name=...).first()` returns a field with that name, or None iff no field has that name. |
| Models.FindPage | app/views.py:52 | The lookup half of get-or-create returns a page with that (title, url), or None iff there is none. |
| Models.Valid | app/models.py:4-18 | The schema's constraints as a predicate on the tables: unique ids in each table, unique field names, and every value row's field and page present. |
| Models.DeletePage | app/models.py:18 | Deleting a page row together with, by `on_delete=CASCADE`, the value rows pointing at it. |
| Models.DeleteField | app/models.py:17 | Deleting a field row together with, by `on_delete=CASCADE`, the value rows pointing at it. |
| Models.FindFieldUnique | app/models.py:12 | With unique names, the field a name resolves to is the only field with that name. |
| Models.ValueReferencesOneFieldAndOnePage | app/models.py:17-18 | In a valid store each value row has exactly one field row and exactly one page row. |
| Models.DeletePageCascades | app/models.py:18 | Deleting a page removes that page and exactly the value rows referencing it. The fields are unchanged and the store stays valid. |
| Models.DeleteFieldCascades | app/models.py:17 | Deleting a field removes that field and exactly the value rows referencing it. The pages are unchanged and the store stays valid. |
| Store.AddPageKeepsValid | app/models.py:4-8 | A page created for a new key, with the next id and the current time, keeps ids and keys unique and foreign keys intact. It becomes what the key resolves to. |
| Store.AddFieldKeepsValid | app/models.py:10-12 | A field created for a new name with the next id keeps ids and names unique. The name now resolves to it. |
| Store.AddValueKeepsValid | app/models.py:14-18 | A value row with the next id, for an existing field and page, keeps the store valid. |
| Store.StoreValid | app/models.py:4-18 | The store invariant: the schema's constraints, at most one page per (title, url), every id below the id counter and every page timestamp below the clock. |
| Store.FactStore.Valid | app/views.py:52 | The store object's tables and counters satisfy that invariant; the (title, url) uniqueness is kept only by the writer's get-or-create. |
| Store.FactStore.constructor | app/models.py:4-18 | The empty database satisfies the invariant. |
| Store.FactStore.GetOrCreatePage | app/views.py:52 | An existing page for (title, url) is returned and nothing changes. Otherwise one page is appended with a fresh id and a timestamp later than every existing one. Either way the key now resolves to the returned page. |
| Store.FactStore.GetOrCreateField | app/views.py:54 | An existing field of that name is reused. Otherwise one field with a fresh id is appended. The name set grows by exactly that name. |
| Store.FactStore.CreateValue | app/views.py:55 | Appends exactly one value row with a fresh id, linking the given field and page. Nothing else changes. |
| Store.FactStore.SaveScrapedData | app/views.py:49-57 | Saving keeps the invariant: unique ids, unique field names, at most one page per (title, url), valid foreign keys. It establishes `Saved`: existing rows untouched, including timestamps; page keys = old keys + record keys; field names = old names + pair names; one new linked value row per pair, in order. |
| Store.Saved | app/views.py:49-57 | The writer's specification relating the tables before and after saving a batch: old rows unchanged; page keys = old keys + record keys; field names = old names + pair names; one new value row per pair, in order, linked to that pair's page and field. |
| Store.FactStore.SaveEntry | app/views.py:50-55 | One record's page is got or created, then all its pairs are saved, extending `Saved` by that record. |
| Store.FactStore.SavePairs | app/views.py:53-55 | The pair loop extends `Saved` from the record with no pairs to the whole record. |
| Store.FactStore.SavePair | app/views.py:54-55 | One pair: get or create its field and append one linked value row. |
| Store.SavedEntriesHavePages | app/views.py:52 | After a save, every record's (title, url) has a page. |
| Store.SavedKeepsFieldIdentity | app/views.py:54 | An existing field is reused: its name resolves to the same row after a save. |
| Store.SavingTwiceAddsNoPages | app/views.py:52-55 | Saving the same records again adds no page. It still appends one value row per pair with the pair's value: value rows are not deduplicated. |
| Store.ScrapeWikipedia | app/views.py:64-71 | An error iff there are more than 50 URLs (so exactly 50 is accepted). On error it is the too-many-URLs error and the store is unchanged. Otherwise the success message, with the scraped records saved. |
| Seqs.Distinct | app/views.py:138 | `distinct()` yields no duplicates and exactly the same elements. |
| Paging.NumPages | app/views.py:151 | `num_pages` is the least number of pages of ten holding all items, and at least 1. |
| Paging.PageNumber | app/views.py:142-143 | `get_page` serves an existing page: the requested one when it is in range, page 1 for a missing or non-integer parameter, otherwise the last page. |
| Paging.PageOf | app/views.py:143 | A page holds at most ten items, a full ten before the last page, and these are the items at positions (number-1)*10 onward. |
| Paging.PageOfDistinct | app/views.py:84 | A page of a duplicate-free list is duplicate-free and holds only items of the list. |
| Paging.ItemOnItsPage | app/views.py:141-143 | Every item is served, at position i % 10 of page i / 10 + 1. |
| Paging.AllPagesAreTheItems | app/views.py:141-143 | Reading all pages in order gives back the item list. |
| Filters.ParsedFilters | app/views.py:102-116 | The parsed constraints are, in index order, those of indices 0 to n-1 with both keys present. Index n lacks one of its keys. |
| Filters.ParseUnique | app/views.py:102-116 | Only one constraint list has that property. |
| Filters.ParseFilters | app/views.py:102-116 | The `while True` loop produces exactly that list. |
| Filters.FirstUnresolved | app/views.py:126-135 | It gives the first constraint, in order, whose field name has no field row. Every earlier one resolves, and None means all resolve. |
| Filters.Join | app/views.py:133 | A page survives one narrowing step iff some value row of it has that field and exactly that value. |
| Filters.Narrowed | app/views.py:123-135 | All pages, narrowed by the join of each constraint in turn; only pages of the store remain. |
| Filters.NarrowedMembership | app/views.py:123-135 | After all steps a page remains iff it meets every constraint, each possibly through a different value row. |
| Filters.MatchingPages | app/views.py:138 | The distinct pages meeting every constraint, each exactly once. |
| Filters.Response | app/views.py:141-151 | The response body for the distinct matching pages: at most ten summaries, each of a matching page, and `total_pages` = the page count. |
| Filters.Summary | app/views.py:148 | The entry for one page: its title, url and timestamp. |
| Filters.FilteredResults | app/views.py:98-151 | No constraints: "No filters provided". An unresolved field name: the not-found error naming the first one, regardless of what earlier constraints matched. Otherwise the requested page of the distinct matching pages, and the page count. |
| Filters.ServedPagesMatch | app/views.py:138-151 | A served page holds at most ten entries, no page twice, each meeting every constraint, with `total_pages` = the page count. |
| Catalog.FieldNameList | app/views.py:89 | The distinct field names, each name of a field row exactly once. |
| Catalog.FieldNameListIsEveryField | app/views.py:89 | Names are unique, so the listing is every field's name in storage order. |
| Catalog.FieldValues | app/views.py:83 | The distinct values of one field's value rows, each exactly once. |
| Catalog.FilterView | app/views.py:76-92 | A missing or empty `field` gives the requested page of field names. An unknown field gives "Field not found". A known field gives the requested page of its distinct values. |
| Catalog.Given | app/views.py:80 | Python's truthiness test on the `field` parameter, present and non-empty; `AllValuesForFieldView` applies the same test, negated. |
| Catalog.FilterViewListing | app/views.py:83-92 | A listing page holds at most ten items, none twice. They are names of existing fields, or values carried by that field's value rows. |
| Catalog.AllValuesForField | app/views.py:159-171 | A missing or empty `field` gives "Field parameter is required" and an unknown one gives "Field not found". Otherwise the result is all distinct values of value rows whose field has that name, each once. |

## Left out

- Network fetching, status checks and HTML parsing are foreign libraries: their combined result per URL is the parameter `fetch`.
- Logging with `print` (on scrape and save errors) has no effect on the result and is not modelled.
- URL routing (`app/urls.py`) is not part of this model. The `Response` envelopes and HTTP status codes are replaced by `Result` values with one `ApiError` variant per error response.
- The catch-all `except` of each view, which turns an arbitrary exception into a 500 response, is not modelled: the modelled operations do not fail.
- The writer's per-record `except`, which can leave a record partly saved because there is no transaction: the modelled save never fails.
- Concurrent requests, and the race between lookup and create in `get_or_create`, are database behaviour and are not modelled.
- Scraper.Scraped: `fetch` gives a URL the same outcome every time it occurs in a batch, whereas the source fetches again for each occurrence; a transient failure on one occurrence and success on another is not expressible.
- `uuid4` is modelled as a single counter shared by the three tables; ids are fresh by construction rather than with high probability.
- `now` (through `auto_now_add`) is modelled as a counter advanced at each page creation; timestamps are natural numbers, not datetimes.
- `max_length=255` and `URLField` validation are enforced by the database layer and are not modelled.
- The request body's shape: the model takes `urls` as a list of strings; a missing key (the empty list) is covered, a non-list value is not.
- The `page` query parameter is modelled as absent, an integer, or not an integer, not as its raw string; the `current_page` echo in the filtered response is left out.
- `Paginator` and `get_page` are modelled from Django's documented behaviour (at least one page; non-integer gives page 1; out of range gives the last page); this is library code not visible in this repository.
- Storage order: queries without `order_by` have no guaranteed order; the model uses insertion order, which fixes which items land on which page.
- Uniqueness of a page's (title, url) is not a database constraint; the model keeps it as an invariant of the writer, which is the only code creating pages.
- No view deletes rows; the cascading deletes are modelled from the schema's `on_delete=CASCADE` only.
