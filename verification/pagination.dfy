/** The table's page window: which rows are shown, and under which index
    each row's controls address the table. */
module Pagination {
  import opened Rows

  /** The pager state: current page and rows per page (10 at start). */
  datatype Pager = Pager(page: nat, rowsPerPage: nat)

  const InitialPager := Pager(0, 10)

  /** A displayed row with `actualIndex`, the table index its controls use. */
  datatype PageEntry = PageEntry(actualIndex: nat, row: Row)

  function Min(a: nat, b: nat): nat {
    if a <= b then a else b
  }

  /** `Array.prototype.slice(start, end)` for non-negative bounds: both are
      clamped to the length, and a window that is empty after clamping
      yields nothing. */
  function Slice<T>(s: seq<T>, start: nat, end: nat): (r: seq<T>)
    ensures |r| == if Min(end, |s|) <= start then 0 else Min(end, |s|) - start
    ensures forall i | 0 <= i < |r| :: start + i < |s| && r[i] == s[start + i]
  {
    var from := Min(start, |s|);
    var to := Min(end, |s|);
    if to <= from then [] else s[from..to]
  }

  /** The rows the table body renders:
      `rows.slice(page * rpp, page * rpp + rpp)` with
      `actualIndex = i + page * rpp`. Each entry carries the table row at its
      actual index, entries are consecutive from the page start, and there
      are at most `rowsPerPage` of them. */
  function PageView(rows: seq<Row>, pager: Pager): (view: seq<PageEntry>)
    ensures |view| <= pager.rowsPerPage
    ensures var start := pager.page * pager.rowsPerPage;
      |view| == if |rows| <= start then 0 else Min(pager.rowsPerPage, |rows| - start)
    ensures forall i | 0 <= i < |view| ::
      && view[i].actualIndex == pager.page * pager.rowsPerPage + i
      && view[i].actualIndex < |rows|
      && view[i].row == rows[view[i].actualIndex]
  {
    var start := pager.page * pager.rowsPerPage;
    var visible := Slice(rows, start, start + pager.rowsPerPage);
    seq(|visible|, i requires 0 <= i < |visible| => PageEntry(i + start, visible[i]))
  }

  /** The page arrows. */
  function ChangePage(pager: Pager, newPage: nat): (p: Pager)
    ensures p.rowsPerPage == pager.rowsPerPage && p.page == newPage
  {
    pager.(page := newPage)
  }

  /** The rows-per-page selector: the new size, and back to the first page. */
  function ChangeRowsPerPage(pager: Pager, rowsPerPage: nat): (p: Pager)
    ensures p.rowsPerPage == rowsPerPage && p.page == 0
  {
    Pager(0, rowsPerPage)
  }

  /** Every row is shown on page `k / rpp`, in position `k % rpp`, under its own index. */
  lemma RowOnItsPage(rows: seq<Row>, rowsPerPage: nat, k: nat)
    requires rowsPerPage > 0 && k < |rows|
    ensures var view := PageView(rows, Pager(k / rowsPerPage, rowsPerPage));
      k % rowsPerPage < |view| && view[k % rowsPerPage] == PageEntry(k, rows[k])
  {
    var p := k / rowsPerPage;
    assert p * rowsPerPage + k % rowsPerPage == k;
  }

  /** No row shows on any page but its own. */
  lemma RowOnlyOnItsPage(rows: seq<Row>, pager: Pager, i: nat)
    requires pager.rowsPerPage > 0
    requires i < |PageView(rows, pager)|
    ensures PageView(rows, pager)[i].actualIndex / pager.rowsPerPage == pager.page
  {
    var k := PageView(rows, pager)[i].actualIndex;
    var start := pager.page * pager.rowsPerPage;
    assert k == start + i && i < pager.rowsPerPage;
    DivOfPageIndex(pager.page, pager.rowsPerPage, i);
  }

  lemma DivOfPageIndex(page: nat, rowsPerPage: nat, i: nat)
    requires i < rowsPerPage
    ensures (page * rowsPerPage + i) / rowsPerPage == page
  {
    var n := page * rowsPerPage + i;
    var q, r := n / rowsPerPage, n % rowsPerPage;
    QuotientBelow(q, r, page, i, rowsPerPage);
    QuotientBelow(page, i, q, r, rowsPerPage);
  }

  /** Of two quotient-remainder splittings of one number, neither quotient
      exceeds the other. */
  lemma QuotientBelow(q: int, r: int, q': int, r': int, m: int)
    requires m > 0 && 0 <= r < m && 0 <= r' < m
    requires q * m + r == q' * m + r'
    ensures q <= q'
  {
    if q > q' {
      Distribute(q, q', m);
      MulAtLeast(q - q', m);
    }
  }

  lemma Distribute(a: int, b: int, m: int)
    ensures (a - b) * m == a * m - b * m
  {
  }

  lemma MulAtLeast(d: int, m: nat)
    requires d >= 1
    ensures d * m >= m
  {
  }

  /** After a new page size is chosen the table shows the first rows again. */
  lemma ResizeShowsFirstRows(rows: seq<Row>, pager: Pager, rowsPerPage: nat)
    ensures var view := PageView(rows, ChangeRowsPerPage(pager, rowsPerPage));
      |view| == Min(rowsPerPage, |rows|)
      && forall i | 0 <= i < |view| :: view[i] == PageEntry(i, rows[i])
  {
  }

  /** The page starts on page 0 with ten rows per page: the first ten
      rows, under their own indices. */
  lemma InitialViewShowsFirstRows(rows: seq<Row>)
    ensures var view := PageView(rows, InitialPager);
      |view| == Min(10, |rows|)
      && forall i | 0 <= i < |view| :: view[i] == PageEntry(i, rows[i])
  {
    assert ChangeRowsPerPage(InitialPager, 10) == InitialPager;
    ResizeShowsFirstRows(rows, InitialPager, 10);
  }
}
