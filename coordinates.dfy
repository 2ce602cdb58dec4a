/**
  Sites of an n-by-n grid, addressed 1-indexed by (row, col), and the mapping of
  a site to the linear index the disjoint-set structure uses for it.
 */
module Coordinates {

  /** A site as (row, col), both 1-indexed. */
  type Site = (int, int)

  /** (row, col) lies inside the n-by-n grid. */
  predicate InGrid(n: int, row: int, col: int) {
    1 <= row <= n && 1 <= col <= n
  }

  /** Row-major linear index of a site: the top row takes 0 .. n-1. */
  function XyTo1D(n: int, row: int, col: int): (i: int)
    ensures InGrid(n, row, col) ==> 0 <= i < n * n
    ensures InGrid(n, row, col) ==> (i < n <==> row == 1)
  {
    if InGrid(n, row, col) then RowMajorBounds(n, row - 1, col - 1); (row - 1) * n + (col - 1)
    else (row - 1) * n + (col - 1)
  }

  lemma RowMajorBounds(n: int, r: int, c: int)
    requires 0 <= r < n && 0 <= c < n
    ensures 0 <= r * n + c < n * n
    ensures r * n + c < n <==> r == 0
  {
    assert r * n <= (n - 1) * n;
    if r > 0 {
      assert r * n >= n;
    }
  }

  /** The site whose linear index is i: the inverse of XyTo1D. */
  function SiteOf(n: nat, i: int): (s: Site)
    requires 0 <= i < n * n
    ensures InGrid(n, s.0, s.1) && XyTo1D(n, s.0, s.1) == i
  {
    SplitIndex(n, i);
    (i / n + 1, i % n + 1)
  }

  lemma SplitIndex(n: nat, i: int)
    requires 0 <= i < n * n
    ensures n > 0 && 0 <= i / n < n && 0 <= i % n < n && (i / n) * n + i % n == i
  {
    assert n != 0;
    assert (i / n) * n + i % n == i;
    assert (i / n - n) * n < 0;
  }

  lemma DivModUnique(n: int, q: int, r: int)
    requires n > 0 && 0 <= r < n
    ensures (q * n + r) / n == q && (q * n + r) % n == r
  {
    var i := q * n + r;
    var d := i / n - q;
    assert d * n == r - i % n by {
      assert i == (i / n) * n + i % n;
      assert (i / n) * n == d * n + q * n;
    }
  }

  /** XyTo1D and SiteOf are inverse bijections between the grid and 0 .. n*n-1. */
  lemma XyTo1DRoundTrip(n: nat, row: int, col: int)
    requires InGrid(n, row, col)
    ensures SiteOf(n, XyTo1D(n, row, col)) == (row, col)
  {
    DivModUnique(n, row - 1, col - 1);
  }

  /** Two sites of the grid share a linear index exactly when they are the same site. */
  lemma XyTo1DInjective(n: nat, a: Site, b: Site)
    requires InGrid(n, a.0, a.1) && InGrid(n, b.0, b.1)
    ensures XyTo1D(n, a.0, a.1) == XyTo1D(n, b.0, b.1) <==> a == b
  {
    XyTo1DRoundTrip(n, a.0, a.1);
    XyTo1DRoundTrip(n, b.0, b.1);
  }

  /** The sites of rows 1 .. k, for n columns, built row by row. */
  function FirstRows(k: int, n: int): (rows: set<Site>)
    decreases k
  {
    if k <= 0 then {} else FirstRows(k - 1, n) + RowPrefix(k, n)
  }

  /** The sites of row `row`, columns 1 .. m, built column by column. */
  function RowPrefix(row: int, m: int): (prefix: set<Site>)
    decreases m
  {
    if m <= 0 then {} else RowPrefix(row, m - 1) + {(row, m)}
  }

  lemma {:induction false} RowPrefixMembers(row: int, m: int, s: Site)
    ensures s in RowPrefix(row, m) <==> s.0 == row && 1 <= s.1 <= m
    decreases m
  {
    if m > 0 {
      RowPrefixMembers(row, m - 1, s);
    }
  }

  lemma {:induction false} RowPrefixSize(row: int, m: nat)
    ensures |RowPrefix(row, m)| == m
  {
    if m > 0 {
      RowPrefixSize(row, m - 1);
      RowPrefixMembers(row, m - 1, (row, m));
    }
  }

  lemma {:induction false} FirstRowsMembers(k: int, n: int, s: Site)
    ensures s in FirstRows(k, n) <==> 1 <= s.0 <= k && 1 <= s.1 <= n
    decreases k
  {
    if k > 0 {
      FirstRowsMembers(k - 1, n, s);
      RowPrefixMembers(k, n, s);
    }
  }

  lemma {:induction false} FirstRowsSize(k: nat, n: nat)
    ensures |FirstRows(k, n)| == k * n
  {
    if k > 0 {
      FirstRowsSize(k - 1, n);
      RowPrefixSize(k, n);
      forall s | s in RowPrefix(k, n)
        ensures s !in FirstRows(k - 1, n)
      {
        RowPrefixMembers(k, n, s);
        FirstRowsMembers(k - 1, n, s);
      }
      assert FirstRows(k - 1, n) !! RowPrefix(k, n);
      assert (k - 1) * n + n == k * n;
    }
  }

  /** The grid has n*n sites, so no set of its sites holds more. */
  lemma GridSitesBound(n: nat, sites: set<Site>)
    requires forall s :: s in sites ==> InGrid(n, s.0, s.1)
    ensures |sites| <= n * n
  {
    FirstRowsSize(n, n);
    forall s | s in sites
      ensures s in FirstRows(n, n)
    {
      FirstRowsMembers(n, n, s);
    }
    assert sites <= FirstRows(n, n);
    SubsetSize(sites, FirstRows(n, n));
  }

  lemma {:induction false} SubsetSize<T>(a: set<T>, b: set<T>)
    requires a <= b
    ensures |a| <= |b|
  {
    if a != {} {
      var x :| x in a;
      SubsetSize(a - {x}, b - {x});
    }
  }

  /** The exception checkBounds throws: which coordinate was out of range. */
  datatype IndexOutOfBounds = RowIndex(row: int) | ColIndex(col: int)

  /** Pass, or the exception a bounds check throws. */
  datatype Outcome = Pass | Fail(error: IndexOutOfBounds)

  /** The row is checked before the column; Pass exactly when the site is in the grid. */
  function CheckBounds(n: int, row: int, col: int): (r: Outcome)
    ensures r == Pass <==> InGrid(n, row, col)
    ensures r == Fail(RowIndex(row)) <==> row <= 0 || row > n
    ensures r == Fail(ColIndex(col)) <==> 1 <= row <= n && (col <= 0 || col > n)
  {
    if row <= 0 || row > n then Fail(RowIndex(row))
    else if col <= 0 || col > n then Fail(ColIndex(col))
    else Pass
  }
}
