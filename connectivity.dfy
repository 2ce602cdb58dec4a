/**
  What the percolation grid's state means, stated on values: the set of open
  sites and the component labelling of the disjoint-set structure over the
  n*n linear indices. `Consistent` is the invariant the grid keeps; `Full` and
  `Percolates` are what its two queries compute.
 */
module Connectivity {
  import opened UnionFind
  import opened Coordinates

  /** a and b are 4-neighbours: they differ by one in exactly one coordinate. */
  predicate Adjacent(a: Site, b: Site) {
    (a.0 == b.0 && (a.1 + 1 == b.1 || b.1 + 1 == a.1)) ||
    (a.1 == b.1 && (a.0 + 1 == b.0 || b.0 + 1 == a.0))
  }

  /**
    The linear indices that opening (row, col) unions together: the site itself
    and each in-bounds 4-neighbour that is already open, in the order open
    visits them (row + 1, col + 1, row - 1, col - 1).
   */
  function Neighbourhood(n: int, open: set<Site>, row: int, col: int): (nb: set<int>) {
    {XyTo1D(n, row, col)}
    + (if row + 1 <= n && (row + 1, col) in open then {XyTo1D(n, row + 1, col)} else {})
    + (if col + 1 <= n && (row, col + 1) in open then {XyTo1D(n, row, col + 1)} else {})
    + (if row - 1 >= 1 && (row - 1, col) in open then {XyTo1D(n, row - 1, col)} else {})
    + (if col - 1 >= 1 && (row, col - 1) in open then {XyTo1D(n, row, col - 1)} else {})
  }

  /**
    The four neighbour steps of open compose: if each step merges the new
    site's component with that of one in-bounds open neighbour (or with
    nothing), the whole neighbourhood is joined.
   */
  lemma {:induction false} NeighbourStepsJoin(n: nat, open: set<Site>, row: int, col: int,
                                              l0: seq<int>, l1: seq<int>, l2: seq<int>, l3: seq<int>, l4: seq<int>)
    requires InGrid(n, row, col) && |l0| == n * n
    requires Joined(l0, l1, {XyTo1D(n, row, col)} + (if row + 1 <= n && (row + 1, col) in open then {XyTo1D(n, row + 1, col)} else {}))
    requires Joined(l1, l2, {XyTo1D(n, row, col)} + (if col + 1 <= n && (row, col + 1) in open then {XyTo1D(n, row, col + 1)} else {}))
    requires Joined(l2, l3, {XyTo1D(n, row, col)} + (if row - 1 >= 1 && (row - 1, col) in open then {XyTo1D(n, row - 1, col)} else {}))
    requires Joined(l3, l4, {XyTo1D(n, row, col)} + (if col - 1 >= 1 && (row, col - 1) in open then {XyTo1D(n, row, col - 1)} else {}))
    ensures Joined(l0, l4, Neighbourhood(n, open, row, col))
  {
    var site := XyTo1D(n, row, col);
    JoinedSelf(l0, site);
    var s := {site};
    JoinedThen(l0, l0, l1, s, site, row + 1 <= n && (row + 1, col) in open, XyTo1D(n, row + 1, col));
    s := s + (if row + 1 <= n && (row + 1, col) in open then {XyTo1D(n, row + 1, col)} else {});
    JoinedThen(l0, l1, l2, s, site, col + 1 <= n && (row, col + 1) in open, XyTo1D(n, row, col + 1));
    s := s + (if col + 1 <= n && (row, col + 1) in open then {XyTo1D(n, row, col + 1)} else {});
    JoinedThen(l0, l2, l3, s, site, row - 1 >= 1 && (row - 1, col) in open, XyTo1D(n, row - 1, col));
    s := s + (if row - 1 >= 1 && (row - 1, col) in open then {XyTo1D(n, row - 1, col)} else {});
    JoinedThen(l0, l3, l4, s, site, col - 1 >= 1 && (row, col - 1) in open, XyTo1D(n, row, col - 1));
  }

  /** The neighbourhood of a site holds exactly the site and its open 4-neighbours. */
  lemma NeighbourhoodExactly(n: nat, open: set<Site>, row: int, col: int, a: Site)
    requires InGrid(n, row, col) && InGrid(n, a.0, a.1)
    ensures XyTo1D(n, a.0, a.1) in Neighbourhood(n, open, row, col)
            <==> a == (row, col) || (a in open && Adjacent(a, (row, col)))
  {
    XyTo1DInjective(n, a, (row, col));
    if row + 1 <= n {
      XyTo1DInjective(n, a, (row + 1, col));
    }
    if col + 1 <= n {
      XyTo1DInjective(n, a, (row, col + 1));
    }
    if row - 1 >= 1 {
      XyTo1DInjective(n, a, (row - 1, col));
    }
    if col - 1 >= 1 {
      XyTo1DInjective(n, a, (row, col - 1));
    }
  }

  /** Every open site lies inside the grid. */
  ghost predicate OpenInGrid(n: int, open: set<Site>) {
    forall a :: a in open ==> InGrid(n, a.0, a.1)
  }

  /** A blocked site has never been unioned: it is alone in its component. */
  ghost predicate BlockedAlone(n: int, open: set<Site>, ids: seq<int>) {
    forall a: Site, j: int :: InGrid(n, a.0, a.1) && a !in open && Same(ids, XyTo1D(n, a.0, a.1), j) ==> j == XyTo1D(n, a.0, a.1)
  }

  /** Every two open 4-neighbours are in the same component. */
  ghost predicate OpenNeighboursJoined(n: int, open: set<Site>, ids: seq<int>) {
    forall a, b :: a in open && b in open && Adjacent(a, b) ==> Same(ids, XyTo1D(n, a.0, a.1), XyTo1D(n, b.0, b.1))
  }

  /** The invariant relating the open sites of an n-by-n grid to its labelling. */
  ghost predicate Consistent(n: nat, open: set<Site>, ids: seq<int>) {
    |ids| == n * n && OpenInGrid(n, open) && BlockedAlone(n, open, ids) && OpenNeighboursJoined(n, open, ids)
  }

  /** An open site in a component that holds a top-row index 0 .. n-1. */
  ghost predicate Full(n: int, open: set<Site>, ids: seq<int>, row: int, col: int) {
    (row, col) in open && exists k :: 0 <= k < n && Same(ids, XyTo1D(n, row, col), k)
  }

  /** Some bottom-row site is full. */
  ghost predicate Percolates(n: int, open: set<Site>, ids: seq<int>) {
    exists col :: 1 <= col <= n && Full(n, open, ids, n, col)
  }

  /** A fresh grid: every site blocked, every index alone. */
  lemma InitiallyConsistent(n: nat, ids: seq<int>)
    requires |ids| == n * n && Singletons(ids)
    ensures Consistent(n, {}, ids)
    ensures !Percolates(n, {}, ids)
  {
  }

  /**
    Opening a blocked site and joining its neighbourhood keeps the invariant:
    the new site joins its open neighbours, and every site still blocked stays
    alone.
   */
  lemma OpenKeepsConsistent(n: nat, open: set<Site>, ids: seq<int>, ids': seq<int>, row: int, col: int)
    requires Consistent(n, open, ids) && InGrid(n, row, col) && (row, col) !in open
    requires Joined(ids, ids', Neighbourhood(n, open, row, col))
    ensures Consistent(n, open + {(row, col)}, ids')
  {
    var open' := open + {(row, col)};
    var nb := Neighbourhood(n, open, row, col);
    var site := XyTo1D(n, row, col);
    assert Reaches(ids, site, nb) by { assert Same(ids, site, site); }
    forall a: Site, j: int | InGrid(n, a.0, a.1) && a !in open' && Same(ids', XyTo1D(n, a.0, a.1), j)
      ensures j == XyTo1D(n, a.0, a.1)
    {
      var x := XyTo1D(n, a.0, a.1);
      if Reaches(ids, x, nb) {
        var m :| m in nb && Same(ids, x, m);
        assert m == x;
        NeighbourhoodExactly(n, open, row, col, a);
        assert false;
      }
    }
    forall a, b | a in open' && b in open' && Adjacent(a, b)
      ensures Same(ids', XyTo1D(n, a.0, a.1), XyTo1D(n, b.0, b.1))
    {
      var x, y := XyTo1D(n, a.0, a.1), XyTo1D(n, b.0, b.1);
      if a in open && b in open {
        assert Same(ids, x, y);
      } else {
        NeighbourhoodExactly(n, open, row, col, a);
        NeighbourhoodExactly(n, open, row, col, b);
        assert Same(ids, x, x) && Same(ids, y, y);
        assert Reaches(ids, x, nb) && Reaches(ids, y, nb);
      }
    }
  }

  /** A site opened with no open 4-neighbour is alone in its component afterwards. */
  lemma OpenedAloneStaysAlone(n: nat, open: set<Site>, ids: seq<int>, ids': seq<int>, row: int, col: int)
    requires Consistent(n, open, ids) && InGrid(n, row, col) && (row, col) !in open
    requires Neighbourhood(n, open, row, col) == {XyTo1D(n, row, col)}
    requires Joined(ids, ids', Neighbourhood(n, open, row, col))
    ensures forall j :: Same(ids', XyTo1D(n, row, col), j) ==> j == XyTo1D(n, row, col)
  {
    var x := XyTo1D(n, row, col);
    forall j | Same(ids', x, j)
      ensures j == x
    {
      assert Reaches(ids, j, {x}) ==> Same(ids, x, j);
    }
  }

  /** On a consistent grid an open top-row site is full, a blocked one is not. */
  lemma TopRowFull(n: nat, open: set<Site>, ids: seq<int>, col: int)
    requires Consistent(n, open, ids) && InGrid(n, 1, col)
    ensures Full(n, open, ids, 1, col) <==> (1, col) in open
  {
    var x := XyTo1D(n, 1, col);
    assert Same(ids, x, x);
  }

  /** A 1-by-1 grid percolates exactly when its only site is open. */
  lemma SingleSitePercolates(open: set<Site>, ids: seq<int>)
    requires Consistent(1, open, ids)
    ensures Percolates(1, open, ids) <==> (1, 1) in open
  {
    TopRowFull(1, open, ids, 1);
  }

  /** Opening only ever adds fullness: a full site stays full, a percolating grid keeps percolating. */
  lemma OpenKeepsFull(n: nat, open: set<Site>, ids: seq<int>, ids': seq<int>, row: int, col: int)
    requires Consistent(n, open, ids) && InGrid(n, row, col)
    requires Joined(ids, ids', Neighbourhood(n, open, row, col))
    ensures forall r, c :: Full(n, open, ids, r, c) ==> Full(n, open + {(row, col)}, ids', r, c)
    ensures Percolates(n, open, ids) ==> Percolates(n, open + {(row, col)}, ids')
  {
    forall r, c | Full(n, open, ids, r, c)
      ensures Full(n, open + {(row, col)}, ids', r, c)
    {
      var k :| 0 <= k < n && Same(ids, XyTo1D(n, r, c), k);
      assert Same(ids', XyTo1D(n, r, c), k);
    }
    if Percolates(n, open, ids) {
      var c :| 1 <= c <= n && Full(n, open, ids, n, c);
      assert Full(n, open + {(row, col)}, ids', n, c);
    }
  }

  /**
    Opening the left column of a fresh 3-by-3 grid from the top joins the
    bottom-left site (3, 1), index 6, to the top-left site (1, 1), index 0.
   */
  lemma LeftColumnConnects(open0: set<Site>, open1: set<Site>, open2: set<Site>, open3: set<Site>,
                           ids0: seq<int>, ids1: seq<int>, ids2: seq<int>, ids3: seq<int>)
    requires open0 == {} && |ids0| == 9 && Singletons(ids0)
    requires open1 == open0 + {(1, 1)} && Joined(ids0, ids1, Neighbourhood(3, open0, 1, 1))
    requires open2 == open1 + {(2, 1)} && Joined(ids1, ids2, Neighbourhood(3, open1, 2, 1))
    requires open3 == open2 + {(3, 1)} && Joined(ids2, ids3, Neighbourhood(3, open2, 3, 1))
    ensures Consistent(3, open3, ids3) && open3 == {(1, 1), (2, 1), (3, 1)}
    ensures Same(ids3, 6, 0)
  {
    InitiallyConsistent(3, ids0);
    OpenKeepsConsistent(3, open0, ids0, ids1, 1, 1);
    OpenKeepsConsistent(3, open1, ids1, ids2, 2, 1);
    OpenKeepsConsistent(3, open2, ids2, ids3, 3, 1);
    assert Same(ids2, 3, 0) by {
      assert Adjacent((2, 1), (1, 1));
    }
    assert Adjacent((3, 1), (2, 1));
    assert Same(ids3, 6, 3) && Same(ids3, 3, 0);
  }

  /**
    No backwash, on values: once the left column of a 3-by-3 grid connects
    top to bottom, opening the corner (3, 3), whose neighbours are blocked,
    leaves the system percolating through the left column while the corner
    itself is not full.
   */
  lemma NoBackwashCorner(open3: set<Site>, ids3: seq<int>, ids4: seq<int>)
    requires Consistent(3, open3, ids3) && open3 == {(1, 1), (2, 1), (3, 1)} && Same(ids3, 6, 0)
    requires Joined(ids3, ids4, Neighbourhood(3, open3, 3, 3))
    ensures Percolates(3, open3 + {(3, 3)}, ids4)
    ensures !Full(3, open3 + {(3, 3)}, ids4, 3, 3)
  {
    assert Neighbourhood(3, open3, 3, 3) == {XyTo1D(3, 3, 3)};
    assert Full(3, open3 + {(3, 3)}, ids4, 3, 1) by {
      assert Same(ids4, 6, 0);
    }
    OpenedAloneStaysAlone(3, open3, ids3, ids4, 3, 3);
  }
}
