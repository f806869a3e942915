/** The search page: one window of rows is fetched around the current page, with one row more than the bar needs
    to know whether there is another page. */
module Paging {
  import opened Basics

  /** The page a request asks for: page 1 if it names none, or one that is no number or too small. */
  function PageAsked(page: Option<int>): int { if page.Some? then Max(page.value, 1) else 1 }

  class PaginationStats {
    var currentPage: int
    var paginationBarStartIndex: int
    var paginationBarEndIndex: int
    const pageLength: int
    const pageBarLength: int

    constructor (pageLength: int, pageBarLength: int)
      ensures this.pageLength == pageLength && this.pageBarLength == pageBarLength
      ensures currentPage == paginationBarStartIndex == paginationBarEndIndex == 1
    {
      this.pageLength, this.pageBarLength := pageLength, pageBarLength;
      currentPage, paginationBarStartIndex, paginationBarEndIndex := 1, 1, 1;
    }

    method SetCurrentPage(page: int)
      modifies this`currentPage
      ensures currentPage == Max(page, 1)
    {
      if page < 1 {
        currentPage := 1;
      } else {
        currentPage := page;
      }
    }

    /** The bar starts so that the current page is in its middle. */
    method GetPaginationBarStartIndex() returns (start: int)
      requires pageBarLength >= 0
      modifies this`paginationBarStartIndex
      ensures start == paginationBarStartIndex == Max(currentPage - pageBarLength / 2, 1)
    {
      paginationBarStartIndex := Max(currentPage - pageBarLength / 2, 1);
      start := paginationBarStartIndex;
    }

    /** Java's division agrees with this one as long as there is a result. */
    method ComputePaginationBarEndIndex(resultSize: int) returns (end: int)
      requires resultSize > 0 && pageLength > 0
      modifies this`paginationBarEndIndex
      ensures end == paginationBarEndIndex == paginationBarStartIndex + (resultSize - 1) / pageLength
    {
      paginationBarEndIndex := paginationBarStartIndex + (resultSize - 1) / pageLength;
      end := paginationBarEndIndex;
    }
  }

  /** What the database returns for a first row and a limit. */
  function Window<T>(rows: seq<T>, first: nat, limit: nat): (window: seq<T>)
    ensures |window| == Max(Min(|rows| - first, limit), 0)
  {
    if first >= |rows| then [] else rows[first..Min(|rows|, first + limit)]
  }

  /** The rows of a page, counted from the first of all rows. */
  function PageRows<T>(rows: seq<T>, page: int, length: int): seq<T>
    requires page >= 1 && length >= 1
  {
    var from := Times(page - 1, length);
    if from >= |rows| then [] else rows[from..Min(|rows|, from + length)]
  }

  function Times(a: nat, b: nat): nat { a * b }

  /** The last page that has a row; 0 if there is none. */
  function LastPage(total: nat, length: int): nat
    requires length >= 1
  {
    (total + length - 1) / length
  }

  // ---------------------------------------------------------------- arithmetic

  lemma Distribute(a: int, b: int, c: int)
    ensures (a + b) * c == a * c + b * c
    ensures (a - b) * c == a * c - b * c
  {
  }

  lemma Ordered(a: int, b: int, c: int)
    requires a <= b && c >= 0
    ensures a * c <= b * c
  {
  }

  lemma Quotient(a: int, c: int, q: int)
    requires c >= 1
    ensures a / c >= q <==> a >= q * c
  {
    assert a == (a / c) * c + a % c;
    if a / c >= q {
      Ordered(q, a / c, c);
    } else {
      Ordered(a / c + 1, q, c);
      Distribute(a / c, 1, c);
    }
  }

  lemma QuotientShift(a: int, k: int, c: int)
    requires c >= 1
    ensures (a - k * c) / c == a / c - k
  {
    var q := a / c;
    Quotient(a - k * c, c, q - k);
    Quotient(a - k * c, c, q - k + 1);
    Quotient(a, c, q);
    Quotient(a, c, q + 1);
    Distribute(q, k, c);
    Distribute(q + 1, k, c);
  }

  // ---------------------------------------------------------------- the page that is shown

  function Start(page: int, bar: int): (start: int)
    requires bar >= 1
    ensures start >= 1 && (page >= 1 ==> start <= page)
  {
    Max(page - bar / 2, 1)
  }

  /** The rows fetched: the pages of the bar but the last, and one row more. */
  function Fetched<T>(rows: seq<T>, page: int, length: int, bar: int): seq<T>
    requires page >= 1 && length >= 1 && bar >= 1
  {
    Window(rows, Times(Start(page, bar) - 1, length), Times(bar - 1, length) + 1)
  }

  function BarEnd(size: nat, page: int, length: int, bar: int): int
    requires size > 0 && length >= 1 && bar >= 1
  {
    Start(page, bar) + (size - 1) / length
  }

  /** What the search shows; nothing if there is no such page. */
  function Shown<T>(rows: seq<T>, page: int, length: int, bar: int): Option<seq<T>>
    requires page >= 1 && length >= 1 && bar >= 1
  {
    var window, before := Fetched(rows, page, length, bar), Times(page - Start(page, bar), length);
    if window == [] || page > BarEnd(|window|, page, length, bar) then None
    else
      BeforeEnd(|window|, page, length, bar);
      Some(window[before..Min(|window|, before + length)])
  }

  lemma BeforeEnd(size: nat, page: int, length: int, bar: int)
    requires size > 0 && page >= 1 && length >= 1 && bar >= 1
    ensures page > BarEnd(size, page, length, bar) <==> size <= Times(page - Start(page, bar), length)
  {
    Quotient(size - 1, length, page - Start(page, bar));
  }

  /** The position of the page within all rows, and room for it in what is fetched. */
  lemma Room(page: int, length: int, bar: int)
    requires page >= 1 && length >= 1 && bar >= 1
    ensures var start := Start(page, bar);
            Times(page - 1, length) == Times(start - 1, length) + Times(page - start, length)
    ensures bar >= 3 || length == 1 ==> Times(page - Start(page, bar), length) + length <= Times(bar - 1, length) + 1
  {
    var start := Start(page, bar);
    Distribute(start - 1, page - start, length);
    Distribute(page - start, 1, length);
    if bar >= 3 { Ordered(page - start + 1, bar - 1, length); }
  }

  /** What is right to show: the rows of the page, and nothing if there are none. */
  predicate ShowsPage<T(==)>(rows: seq<T>, page: int, length: int, bar: int)
    requires page >= 1 && length >= 1 && bar >= 1
  {
    var right := PageRows(rows, page, length);
    Shown(rows, page, length, bar) == if right == [] then None else Some(right)
  }

  lemma SliceOfSlice<T>(s: seq<T>, a: nat, b: nat, c: nat, d: nat)
    requires a <= b <= |s| && c <= d <= b - a
    ensures s[a..b][c..d] == s[a + c..a + d]
  {
    var x, y := s[a..b][c..d], s[a + c..a + d];
    assert forall i :: 0 <= i < d - c ==> x[i] == s[a..b][c + i] == y[i];
  }

  /** With a bar of three pages or more the search shows the rows of the page asked for. */
  lemma SearchShowsPage<T>(rows: seq<T>, page: int, length: int, bar: int)
    requires page >= 1 && length >= 1 && bar >= 1 && (bar >= 3 || length == 1)
    ensures ShowsPage(rows, page, length, bar)
  {
    hide Times, Start, BarEnd;
    Room(page, length, bar);
    var window, before := Fetched(rows, page, length, bar), Times(page - Start(page, bar), length);
    if window != [] {
      BeforeEnd(|window|, page, length, bar);
      var first := Times(Start(page, bar) - 1, length);
      assert window == rows[first..first + |window|];
      if |window| > before {
        var to := Min(|window|, before + length);
        SliceOfSlice(rows, first, first + |window|, before, to);
      }
    }
  }

  /** The end of the bar is the last page that has rows, as far as the bar reaches. */
  lemma BarEndsAtLastPage<T>(rows: seq<T>, page: int, length: int, bar: int)
    requires page >= 1 && length >= 1 && bar >= 1
    requires Fetched(rows, page, length, bar) != []
    ensures BarEnd(|Fetched(rows, page, length, bar)|, page, length, bar) ==
            Min(LastPage(|rows|, length), Start(page, bar) + bar - 1)
  {
    var start := Start(page, bar);
    var size := |Fetched(rows, page, length, bar)|;
    var left := |rows| - Times(start - 1, length);
    QuotientShift(|rows| - 1, start - 1, length);
    QuotientShift(|rows| + length - 1, 1, length);
    Quotient(left - 1, length, bar - 1);
    Quotient(size - 1, length, bar - 1);
    Quotient(size - 1, length, bar);
    Distribute(bar - 1, 1, length);
  }

  /** A shorter bar does not fetch enough, unless a page has one row only: then a page is cut off after its
      first row. */
  lemma ShortBar(length: int, bar: int) returns (rows: seq<int>, page: int)
    requires length >= 2 && 1 <= bar <= 2
    ensures page >= 1 && !ShowsPage(rows, page, length, bar)
  {
    page := bar;
    var total := if bar == 1 then length else length + length;
    rows := seq(total, i => i);
    TimesOne(length);
    CutOff(rows, page, length, bar);
  }

  lemma ShownLength<T>(rows: seq<T>, page: int, length: int, bar: int)
    requires page >= 1 && length >= 1 && bar >= 1 && Shown(rows, page, length, bar).Some?
    ensures var before := Times(page - Start(page, bar), length);
            |Shown(rows, page, length, bar).value| == Min(|Fetched(rows, page, length, bar)| - before, length)
  {
    BeforeEnd(|Fetched(rows, page, length, bar)|, page, length, bar);
  }

  lemma PageRowsLength<T>(rows: seq<T>, page: int, length: int)
    requires page >= 1 && length >= 1 && |rows| == Times(page - 1, length) + length
    ensures |PageRows(rows, page, length)| == length
  {
  }

  lemma CutOff(rows: seq<int>, page: int, length: int, bar: int)
    requires length >= 2 && 1 <= bar <= 2 && page == bar && |rows| == Times(page - 1, length) + length
    ensures !ShowsPage(rows, page, length, bar)
  {
    assert Start(page, bar) == 1;
    TimesOne(length);
    PageRowsLength(rows, page, length);
    hide Times, BarEnd, PageRows, Shown;
    assert |Fetched(rows, page, length, bar)| == Times(page - 1, length) + 1;
    if Shown(rows, page, length, bar).Some? { ShownLength(rows, page, length, bar); }
  }

  lemma TimesOne(length: nat)
    ensures Times(0, length) == 0 && Times(1, length) == length
  {
  }

  /** The search is right for every page of every result exactly if the bar has three pages or a page one row. */
  lemma RightBars(length: int, bar: int)
    requires length >= 1 && bar >= 1
    ensures (forall rows: seq<int>, page: int :: page >= 1 ==> ShowsPage(rows, page, length, bar)) <==>
              bar >= 3 || length == 1
  {
    if bar >= 3 || length == 1 {
      forall rows: seq<int>, page: int | page >= 1 ensures ShowsPage(rows, page, length, bar) {
        SearchShowsPage(rows, page, length, bar);
      }
    } else {
      var rows, page := ShortBar(length, bar);
    }
  }

  /** The last part of `search`, behind the query. */
  method Render<T(==)>(stats: PaginationStats, ghost rows: seq<T>, results: seq<T>) returns (shown: Option<seq<T>>)
    requires stats.pageLength >= 1 && stats.pageBarLength >= 1 && stats.currentPage >= 1
    requires stats.paginationBarStartIndex == Start(stats.currentPage, stats.pageBarLength)
    requires results == Fetched(rows, stats.currentPage, stats.pageLength, stats.pageBarLength)
    modifies stats`paginationBarEndIndex
    ensures shown == Shown(rows, stats.currentPage, stats.pageLength, stats.pageBarLength)
    ensures shown.Some? ==> stats.paginationBarEndIndex ==
                            Min(LastPage(|rows|, stats.pageLength),
                                stats.paginationBarStartIndex + stats.pageBarLength - 1)
  {
    hide Times, LastPage, Fetched, Start;
    if results == [] {
      return None;
    }
    var end := stats.ComputePaginationBarEndIndex(|results|);
    BeforeEnd(|results|, stats.currentPage, stats.pageLength, stats.pageBarLength);
    if stats.currentPage > end {
      return None;
    }
    BarEndsAtLastPage(rows, stats.currentPage, stats.pageLength, stats.pageBarLength);
    var before := stats.currentPage - stats.paginationBarStartIndex;
    After(before, stats.pageLength);
    shown := Some(results[Times(before, stats.pageLength)..Min(|results|, Times(before + 1, stats.pageLength))]);
  }

  /** The part of `search` that turns the pages; the rows are those of the query, in its order. */
  method Search<T(==)>(stats: PaginationStats, rows: seq<T>, page: Option<int>) returns (shown: Option<seq<T>>)
    requires stats.pageLength >= 1 && stats.pageBarLength >= 1
    modifies stats
    ensures stats.currentPage == PageAsked(page)
    ensures stats.paginationBarStartIndex == Start(stats.currentPage, stats.pageBarLength)
    ensures Centred(stats.currentPage, stats.paginationBarStartIndex, stats.pageBarLength)
    ensures stats.pageBarLength >= 3 || stats.pageLength == 1 ==>
              var right := PageRows(rows, stats.currentPage, stats.pageLength);
              shown == if right == [] then None else Some(right)
    ensures shown.Some? ==> stats.paginationBarEndIndex ==
                            Min(LastPage(|rows|, stats.pageLength),
                                stats.paginationBarStartIndex + stats.pageBarLength - 1)
  {
    hide Times, LastPage, Window, Start, PageRows, Shown;
    stats.SetCurrentPage(1);
    if page.Some? {
      stats.SetCurrentPage(page.value);
    }
    var start := stats.GetPaginationBarStartIndex();
    StartIs(stats.currentPage, stats.pageBarLength);
    var results := Window(rows, Times(start - 1, stats.pageLength),
                          Times(stats.pageBarLength - 1, stats.pageLength) + 1);
    shown := Render(stats, rows, results);
    if stats.pageBarLength >= 3 || stats.pageLength == 1 {
      SearchShowsPage(rows, stats.currentPage, stats.pageLength, stats.pageBarLength);
    }
  }

  /** The current page is in the middle of the bar, or the later of the two in the middle, unless the bar would start
      before the first page. */
  predicate Centred(page: int, start: int, bar: int) {
    start >= 1 && 2 * (page - start) <= bar && (start > 1 ==> 2 * (page - start) >= bar - 1)
  }

  lemma StartIs(page: int, bar: int)
    requires bar >= 1
    ensures Start(page, bar) == Max(page - bar / 2, 1) && Centred(page, Start(page, bar), bar)
  {
  }

  lemma After(pages: nat, length: nat)
    ensures Times(pages + 1, length) == Times(pages, length) + length
  {
    Distribute(pages, 1, length);
  }
}
