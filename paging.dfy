/**
 * Django's `Paginator(items, 10)` with `get_page(number)`, as the views use
 * it: at least one page even when there are no items, and a requested page
 * number that is missing or not an integer gives page 1, while one below 1
 * or past the end gives the last page.
 */
module Paging {
  import opened Seqs

  const PageSize: nat := 10

  /** The `page` query parameter: absent, an integer, or a value that is not an integer. */
  datatype PageParam = Absent | Number(n: int) | NotAnInteger

  /** `Paginator.num_pages`: enough pages of ten for all items, and never fewer than one. */
  function NumPages(count: nat): (n: nat)
    ensures n >= 1
    ensures count == 0 ==> n == 1
    ensures count > 0 ==> (n - 1) * PageSize < count <= n * PageSize
  {
    if count == 0 then 1 else (count + PageSize - 1) / PageSize
  }

  /** The page `get_page` serves for the requested parameter; always an existing page. */
  function PageNumber(p: PageParam, numPages: nat): (k: nat)
    requires numPages >= 1
    ensures 1 <= k <= numPages
    ensures p.Number? && 1 <= p.n <= numPages ==> k == p.n
    ensures !p.Number? ==> k == 1
    ensures p.Number? && !(1 <= p.n <= numPages) ==> k == numPages
  {
    match p
    case Absent => 1
    case NotAnInteger => 1
    case Number(n) => if 1 <= n <= numPages then n else numPages
  }

  /** `Paginator(items, 10).page(number).object_list`. */
  function PageOf<T>(items: seq<T>, number: nat): (r: seq<T>)
    requires 1 <= number <= NumPages(|items|)
    ensures |r| <= PageSize && (number - 1) * PageSize + |r| <= |items|
    ensures number < NumPages(|items|) ==> |r| == PageSize
    ensures forall i :: 0 <= i < |r| ==> r[i] == items[(number - 1) * PageSize + i]
  {
    var lo := (number - 1) * PageSize;
    var hi := if lo + PageSize <= |items| then lo + PageSize else |items|;
    items[lo..hi]
  }

  /** A page of a list without duplicates has no duplicates, and holds only items of the list. */
  lemma PageOfDistinct<T>(items: seq<T>, number: nat)
    requires 1 <= number <= NumPages(|items|)
    requires NoDuplicates(items)
    ensures NoDuplicates(PageOf(items, number))
    ensures forall x :: x in PageOf(items, number) ==> x in items
  {
    var r := PageOf(items, number);
    var lo := (number - 1) * PageSize;
    forall i, j | 0 <= i < j < |r| ensures r[i] != r[j] {
      assert r[i] == items[lo + i] && r[j] == items[lo + j];
    }
  }

  /** Every item is served, on page `i / 10 + 1` at position `i % 10`. */
  lemma ItemOnItsPage<T>(items: seq<T>, i: nat)
    requires i < |items|
    ensures 1 <= i / PageSize + 1 <= NumPages(|items|)
    ensures i % PageSize < |PageOf(items, i / PageSize + 1)|
    ensures PageOf(items, i / PageSize + 1)[i % PageSize] == items[i]
  {
  }

  /** The pages, read in order, give back every item exactly once. */
  function AllPages<T>(items: seq<T>, upTo: nat): seq<T>
    requires upTo <= NumPages(|items|)
  {
    if upTo == 0 then [] else AllPages(items, upTo - 1) + PageOf(items, upTo)
  }

  lemma {:induction false} PagesConcatenate<T>(items: seq<T>, upTo: nat)
    requires upTo <= NumPages(|items|)
    ensures var end := if upTo * PageSize <= |items| then upTo * PageSize else |items|;
      AllPages(items, upTo) == items[..end]
  {
    if upTo > 0 {
      PagesConcatenate(items, upTo - 1);
      var lo := (upTo - 1) * PageSize;
      assert lo <= |items| || |items| == 0;
    }
  }

  lemma AllPagesAreTheItems<T>(items: seq<T>)
    ensures AllPages(items, NumPages(|items|)) == items
  {
    PagesConcatenate(items, NumPages(|items|));
    assert items[..|items|] == items;
  }

  /** Page 2 of fifteen items holds the last five. */
  lemma SecondPageOfFifteen<T>(items: seq<T>)
    requires |items| == 15
    ensures PageOf(items, 2) == items[10..]
  {
  }
}
