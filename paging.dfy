/**
 The paging arithmetic of the table view: which rows the current page shows,
 how many pages the pagination bar offers, and the default page size.
 */
module Paging {

  datatype Option<T> = None | Some(value: T)

  function Min(a: int, b: int): int { if a <= b then a else b }

  function Max(a: int, b: int): int { if a <= b then b else a }

  /** The index at which `Array.prototype.splice(start, ...)` starts on an array of length `n`:
      a negative start counts from the end, and the result is clamped to `[0, n]`. */
  function SpliceStart(n: nat, start: int): (s: nat)
    ensures s <= n
    ensures 0 <= start ==> s == Min(start, n)
    ensures start < 0 ==> s == Max(n + start, 0)
  {
    if start < 0 then (if n + start < 0 then 0 else n + start)
    else if start < n then start
    else n
  }

  /** The number of elements `splice(s, deleteCount)` removes: clamped to `[0, n - s]`. */
  function SpliceCount(n: nat, s: nat, deleteCount: int): (c: nat)
    requires s <= n
    ensures s + c <= n
    ensures c <= Max(deleteCount, 0)
    ensures c == Min(Max(deleteCount, 0), n - s)
  {
    if deleteCount < 0 then 0
    else if deleteCount < n - s then deleteCount
    else n - s
  }

  /** The elements that `[...rows].splice(start, deleteCount)` removes and returns.
      `rows` is a value, so splicing its copy leaves it unchanged. */
  function Splice<T>(rows: seq<T>, start: int, deleteCount: int): (r: seq<T>)
    ensures |r| <= Max(deleteCount, 0)
    ensures |r| == Min(Max(deleteCount, 0), |rows| - SpliceStart(|rows|, start))
    ensures forall i :: 0 <= i < |r| ==> r[i] == rows[SpliceStart(|rows|, start) + i]
  {
    var s := SpliceStart(|rows|, start);
    rows[s .. s + SpliceCount(|rows|, s, deleteCount)]
  }

  /** From a non-negative start, `splice` takes the next `count` rows, or what is left. */
  lemma SpliceFrom<T>(rows: seq<T>, start: int, count: int)
    requires 0 <= start && 0 <= count
    ensures Splice(rows, start, count) == rows[Min(start, |rows|) .. Min(start + count, |rows|)]
    ensures |Splice(rows, start, count)| == Min(count, Max(0, |rows| - start))
  {
  }

  lemma MulStep(p: int, k: int)
    ensures (p - 1) * k + k == p * k
  {
  }

  lemma MulMonotone(a: int, b: int, k: int)
    requires a <= b && 0 <= k
    ensures a * k <= b * k
  {
    assert b * k - a * k == (b - a) * k;
  }

  /** The rows shown on page `page` when `perPage` rows fit on a page:
      `[...rowData].splice((currentPage - 1) * rowPerPage, rowPerPage)`. */
  function Window<T>(rows: seq<T>, page: int, perPage: int): (r: seq<T>)
    ensures |r| <= Max(perPage, 0)
    ensures 1 <= page && 1 <= perPage ==>
      && 0 <= (page - 1) * perPage < page * perPage
      && r == rows[Min((page - 1) * perPage, |rows|) .. Min(page * perPage, |rows|)]
      && |r| == Min(perPage, Max(0, |rows| - (page - 1) * perPage))
  {
    var start := (page - 1) * perPage;
    if 1 <= page && 1 <= perPage then
      MulStep(page, perPage);
      MulMonotone(0, page - 1, perPage);
      SpliceFrom(rows, start, perPage);
      Splice(rows, start, perPage)
    else
      Splice(rows, start, perPage)
  }

  /** `Math.ceil(n / rowPerPage)`, the page count given to the pagination bar. */
  function PageCount(n: nat, perPage: int): (r: nat)
    requires 0 < perPage
    ensures n == 0 <==> r == 0
    ensures 0 < n ==> (r - 1) * perPage < n <= r * perPage
  {
    var r := (n + perPage - 1) / perPage;
    assert r * perPage + (n + perPage - 1) % perPage == n + perPage - 1;
    MulStep(r, perPage);
    r
  }

  /** The default page size: `options.rowsPerPage` when it is truthy, 10 otherwise. */
  function DefaultRowsPerPage(rowsPerPage: Option<int>): (r: int)
    ensures r != 0
    ensures rowsPerPage.None? || rowsPerPage == Some(0) ==> r == 10
    ensures rowsPerPage.Some? && rowsPerPage.value != 0 ==> r == rowsPerPage.value
  {
    if rowsPerPage.Some? && rowsPerPage.value != 0 then rowsPerPage.value else 10
  }

  /** The windows of pages 1..m, in order, concatenated. */
  function Pages<T>(rows: seq<T>, perPage: int, m: nat): seq<T>
  {
    if m == 0 then [] else Pages(rows, perPage, m - 1) + Window(rows, m, perPage)
  }

  /** The first m pages together are the first m * perPage rows (or all of them). */
  lemma {:induction false} PagesArePrefix<T>(rows: seq<T>, perPage: int, m: nat)
    requires 0 < perPage
    ensures 0 <= m * perPage && Pages(rows, perPage, m) == rows[..Min(m * perPage, |rows|)]
  {
    MulMonotone(0, m, perPage);
    if m > 0 {
      PagesArePrefix(rows, perPage, m - 1);
      var a, b := Min((m - 1) * perPage, |rows|), Min(m * perPage, |rows|);
      assert Window(rows, m, perPage) == rows[a..b];
      PrefixThenSlice(rows, a, b);
    }
  }

  lemma PrefixThenSlice<T>(rows: seq<T>, a: int, b: int)
    requires 0 <= a <= b <= |rows|
    ensures rows[..a] + rows[a..b] == rows[..b]
  {
  }

  /** Reading pages 1..PageCount in order gives back every row, once, in order. */
  lemma PagesCoverRows<T>(rows: seq<T>, perPage: int)
    requires 0 < perPage
    ensures Pages(rows, perPage, PageCount(|rows|, perPage)) == rows
  {
    var pc := PageCount(|rows|, perPage);
    PagesArePrefix(rows, perPage, pc);
    assert Min(pc * perPage, |rows|) == |rows|;
  }

  /** Every page the pagination bar offers shows at least one row, and no more than perPage. */
  lemma PageNonEmpty<T>(rows: seq<T>, perPage: int, page: int)
    requires 0 < perPage && 1 <= page <= PageCount(|rows|, perPage)
    ensures 0 < |Window(rows, page, perPage)| <= perPage
  {
    var pc := PageCount(|rows|, perPage);
    MulMonotone(page - 1, pc - 1, perPage);
  }

  /** A page past the last one shows nothing. */
  lemma PageBeyondLastEmpty<T>(rows: seq<T>, perPage: int, page: int)
    requires 0 < perPage && PageCount(|rows|, perPage) < page
    ensures Window(rows, page, perPage) == []
  {
    var pc := PageCount(|rows|, perPage);
    MulMonotone(pc, page - 1, perPage);
  }

  /** The last page holds n - (PageCount - 1) * perPage rows, which is n mod perPage,
      or a full page when perPage divides n. */
  lemma LastPageSize<T>(rows: seq<T>, perPage: int)
    requires 0 < perPage && 0 < |rows|
    ensures var last := Window(rows, PageCount(|rows|, perPage), perPage);
      |last| == |rows| - (PageCount(|rows|, perPage) - 1) * perPage &&
      |last| == if |rows| % perPage == 0 then perPage else |rows| % perPage
  {
    var n, pc := |rows|, PageCount(|rows|, perPage);
    var q, m := n / perPage, n % perPage;
    assert n == q * perPage + m;
    if m == 0 {
      CeilUnique(n, perPage, pc, q);
    } else {
      MulStep(q + 1, perPage);
      CeilUnique(n, perPage, pc, q + 1);
    }
    MulStep(pc, perPage);
  }

  /** Two numbers that both bracket n as the ceiling of n / k are equal. */
  lemma CeilUnique(n: nat, k: int, a: int, b: int)
    requires 0 < k
    requires (a - 1) * k < n <= a * k
    requires (b - 1) * k < n <= b * k
    ensures a == b
  {
    if a < b {
      MulMonotone(a, b - 1, k);
    } else if b < a {
      MulMonotone(b, a - 1, k);
    }
  }
}
