/**
 * The page window every list view shows, `rows.slice(page * rowsPerPage,
 * page * rowsPerPage + rowsPerPage)`, and the `emptyRows` padding that keeps the
 * table height steady on a short last page.
 */
module Pager {

  /** The page sizes TablePagination offers. */
  predicate RowsPerPageOption(n: int)
  {
    n == 5 || n == 10 || n == 25
  }

  /**
   * Array.prototype.slice(start, end) for non-negative bounds: both bounds are
   * clamped to the length, and an empty range gives the empty array.
   */
  function Slice<T>(s: seq<T>, start: nat, end: nat): (r: seq<T>)
    ensures start >= |s| || end <= start ==> r == []
    ensures start < end && start < |s| ==> |r| == (if end < |s| then end else |s|) - start
    ensures forall k :: 0 <= k < |r| ==> start + k < |s| && r[k] == s[start + k]
  {
    var lo := if start < |s| then start else |s|;
    var hi := if end < |s| then end else |s|;
    if lo < hi then s[lo..hi] else []
  }

  /** The rows shown on page `page`. */
  function Window<T>(rows: seq<T>, page: nat, rowsPerPage: nat): (w: seq<T>)
    ensures page * rowsPerPage >= |rows| ==> w == []
    ensures page * rowsPerPage < |rows| ==>
              |w| == (if |rows| - page * rowsPerPage < rowsPerPage then |rows| - page * rowsPerPage else rowsPerPage)
    ensures |w| <= rowsPerPage
    ensures forall k :: 0 <= k < |w| ==> page * rowsPerPage + k < |rows| && w[k] == rows[page * rowsPerPage + k]
  {
    Slice(rows, page * rowsPerPage, page * rowsPerPage + rowsPerPage)
  }

  /** `emptyRows`: how many blank rows pad the page so that it is as tall as a full one. */
  function EmptyRows(page: nat, rowsPerPage: nat, count: nat): nat
  {
    if page > 0 then
      var missing := (1 + page) * rowsPerPage - count;
      if missing > 0 then missing else 0
    else 0
  }

  /**
   * On any page after the first that starts within the rows, the visible rows
   * and the padding together fill exactly one page.
   */
  lemma PaddingCompletesPage<T>(rows: seq<T>, page: nat, rowsPerPage: nat)
    requires page > 0 && page * rowsPerPage < |rows|
    ensures |Window(rows, page, rowsPerPage)| + EmptyRows(page, rowsPerPage, |rows|) == rowsPerPage
  {
    assert (1 + page) * rowsPerPage == page * rowsPerPage + rowsPerPage;
  }

  /** A page that lies completely within the rows needs no padding. */
  lemma FullPageHasNoPadding<T>(rows: seq<T>, page: nat, rowsPerPage: nat)
    requires (page + 1) * rowsPerPage <= |rows|
    ensures |Window(rows, page, rowsPerPage)| == rowsPerPage
    ensures EmptyRows(page, rowsPerPage, |rows|) == 0
  {
    assert (page + 1) * rowsPerPage == page * rowsPerPage + rowsPerPage;
  }

  /**
   * A page past the end shows no rows, and on every page but the first the
   * padding is then a full page or more: `emptyRows` is not capped at rowsPerPage.
   */
  lemma PageBeyondEnd<T>(rows: seq<T>, page: nat, rowsPerPage: nat)
    requires page > 0 && page * rowsPerPage >= |rows|
    ensures Window(rows, page, rowsPerPage) == []
    ensures EmptyRows(page, rowsPerPage, |rows|) == (page + 1) * rowsPerPage - |rows| >= rowsPerPage
  {
    assert (page + 1) * rowsPerPage == page * rowsPerPage + rowsPerPage;
  }

  /** The first page is never padded, however few rows there are. */
  lemma FirstPageNeverPadded<T>(rows: seq<T>, rowsPerPage: nat)
    ensures EmptyRows(0, rowsPerPage, |rows|) == 0
    ensures |Window(rows, 0, rowsPerPage)| == (if |rows| < rowsPerPage then |rows| else rowsPerPage)
  {
  }

  /** The pages partition the rows: consecutive windows concatenate to the rows in order. */
  lemma {:induction false} WindowsCoverRows<T>(rows: seq<T>, rowsPerPage: nat, pages: nat)
    requires rowsPerPage > 0
    ensures Concat(rows, rowsPerPage, pages) == Slice(rows, 0, pages * rowsPerPage)
  {
    if pages > 0 {
      WindowsCoverRows(rows, rowsPerPage, pages - 1);
      var lo := (pages - 1) * rowsPerPage;
      assert pages * rowsPerPage == lo + rowsPerPage;
      var a := Slice(rows, 0, lo);
      var b := Window(rows, pages - 1, rowsPerPage);
      var c := Slice(rows, 0, pages * rowsPerPage);
      assert |a + b| == |c|;
      forall k | 0 <= k < |c|
        ensures (a + b)[k] == c[k]
      {
        if k >= |a| {
          assert (a + b)[k] == b[k - |a|];
        }
      }
    }
  }

  /** The first `pages` windows, one after the other. */
  function Concat<T>(rows: seq<T>, rowsPerPage: nat, pages: nat): seq<T>
  {
    if pages == 0 then [] else Concat(rows, rowsPerPage, pages - 1) + Window(rows, pages - 1, rowsPerPage)
  }
}
