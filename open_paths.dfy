/**
  What the components mean: two open sites share a component of the
  disjoint-set structure exactly when a path of open 4-neighbours links them.
  With it, a full site is one an open path links to the top row, and the system
  percolates when an open path links the top row to the bottom row.
 */
module OpenPaths {
  import opened UnionFind
  import opened Coordinates
  import opened Connectivity

  /** A non-empty walk through open sites, each step to a 4-neighbour. */
  ghost predicate IsPath(open: set<Site>, p: seq<Site>) {
    |p| >= 1 &&
    (forall i :: 0 <= i < |p| ==> p[i] in open) &&
    (forall i :: 0 <= i < |p| - 1 ==> Adjacent(p[i], p[i + 1]))
  }

  /** An open path leads from a to b. */
  ghost predicate Linked(open: set<Site>, a: Site, b: Site) {
    exists p :: IsPath(open, p) && p[0] == a && p[|p| - 1] == b
  }

  /** Some open path leads from a top-row site to (row, col). */
  ghost predicate FullByPath(n: int, open: set<Site>, row: int, col: int) {
    exists c :: 1 <= c <= n && Linked(open, (1, c), (row, col))
  }

  /** Some open path leads from the top row to the bottom row. */
  ghost predicate PercolatesByPath(n: int, open: set<Site>) {
    exists c :: 1 <= c <= n && FullByPath(n, open, n, c)
  }

  /** Open sites that share a component are linked by an open path. */
  ghost predicate ComponentsLinked(n: int, open: set<Site>, ids: seq<int>) {
    forall a, b :: a in open && b in open && Same(ids, XyTo1D(n, a.0, a.1), XyTo1D(n, b.0, b.1)) ==> Linked(open, a, b)
  }

  /** An open site is linked to itself. */
  lemma LinkedSelf(open: set<Site>, a: Site)
    requires a in open
    ensures Linked(open, a, a)
  {
    assert IsPath(open, [a]);
  }

  /** Opening more sites keeps every path. */
  lemma LinkedMono(open: set<Site>, open': set<Site>, a: Site, b: Site)
    requires open <= open' && Linked(open, a, b)
    ensures Linked(open', a, b)
  {
    var p :| IsPath(open, p) && p[0] == a && p[|p| - 1] == b;
    assert IsPath(open', p);
  }

  /** A path walked backwards is a path. */
  lemma LinkedSymmetric(open: set<Site>, a: Site, b: Site)
    requires Linked(open, a, b)
    ensures Linked(open, b, a)
  {
    var p :| IsPath(open, p) && p[0] == a && p[|p| - 1] == b;
    var r := seq(|p|, i requires 0 <= i < |p| => p[|p| - 1 - i]);
    forall i | 0 <= i < |r| - 1
      ensures Adjacent(r[i], r[i + 1])
    {
      assert Adjacent(p[|p| - 2 - i], p[|p| - 1 - i]);
    }
    assert IsPath(open, r);
  }

  /** Two paths that meet end to start make one path. */
  lemma LinkedTransitive(open: set<Site>, a: Site, b: Site, c: Site)
    requires Linked(open, a, b) && Linked(open, b, c)
    ensures Linked(open, a, c)
  {
    var p :| IsPath(open, p) && p[0] == a && p[|p| - 1] == b;
    var q :| IsPath(open, q) && q[0] == b && q[|q| - 1] == c;
    var r := p + q[1..];
    forall i | 0 <= i < |r| - 1
      ensures Adjacent(r[i], r[i + 1])
    {
      if i < |p| - 1 {
        assert r[i] == p[i] && r[i + 1] == p[i + 1];
      } else {
        assert r[i] == q[i - |p| + 1] && r[i + 1] == q[i - |p| + 2];
      }
    }
    assert IsPath(open, r);
  }

  /** One step from a path's end to an open 4-neighbour extends it. */
  lemma LinkedStep(open: set<Site>, a: Site, b: Site, c: Site)
    requires Linked(open, a, b) && c in open && Adjacent(b, c)
    ensures Linked(open, a, c)
  {
    assert IsPath(open, [b, c]);
    LinkedTransitive(open, a, b, c);
  }

  /**
    The invariant's other half: along an open path every step joins two
    components, so the path's ends share one.
   */
  lemma {:induction false} PathJoined(n: nat, open: set<Site>, ids: seq<int>, p: seq<Site>)
    requires Consistent(n, open, ids) && IsPath(open, p)
    ensures Same(ids, XyTo1D(n, p[0].0, p[0].1), XyTo1D(n, p[|p| - 1].0, p[|p| - 1].1))
  {
    var x := XyTo1D(n, p[0].0, p[0].1);
    if |p| == 1 {
      assert p[0] in open;
      assert Same(ids, x, x);
    } else {
      var q := p[..|p| - 1];
      assert IsPath(open, q) by {
        forall i | 0 <= i < |q| - 1
          ensures Adjacent(q[i], q[i + 1])
        {
          assert q[i] == p[i] && q[i + 1] == p[i + 1];
        }
      }
      PathJoined(n, open, ids, q);
      var u, v := p[|p| - 2], p[|p| - 1];
      assert u in open && v in open && Adjacent(u, v);
      assert Same(ids, XyTo1D(n, u.0, u.1), XyTo1D(n, v.0, v.1));
      assert q[|q| - 1] == u;
    }
  }

  /** Linked sites share a component. */
  lemma LinkedJoined(n: nat, open: set<Site>, ids: seq<int>, a: Site, b: Site)
    requires Consistent(n, open, ids) && Linked(open, a, b)
    ensures Same(ids, XyTo1D(n, a.0, a.1), XyTo1D(n, b.0, b.1))
  {
    var p :| IsPath(open, p) && p[0] == a && p[|p| - 1] == b;
    PathJoined(n, open, ids, p);
  }

  /** A fresh grid has no open sites, so the invariant holds vacuously. */
  lemma InitiallyLinked(n: nat, ids: seq<int>)
    ensures ComponentsLinked(n, {}, ids)
  {
  }

  /** Every member of the neighbourhood of an in-grid site is a linear index of the grid. */
  lemma NeighbourhoodIndices(n: nat, open: set<Site>, row: int, col: int, m: int)
    requires InGrid(n, row, col) && m in Neighbourhood(n, open, row, col)
    ensures 0 <= m < n * n
  {
  }

  /**
    A site sharing a component, before the opening, with a member of the new
    site's neighbourhood is linked to the new site afterwards.
   */
  lemma ReachesLinked(n: nat, open: set<Site>, ids: seq<int>, row: int, col: int, a: Site)
    requires Consistent(n, open, ids) && ComponentsLinked(n, open, ids)
    requires InGrid(n, row, col) && (row, col) !in open
    requires a in open + {(row, col)} && Reaches(ids, XyTo1D(n, a.0, a.1), Neighbourhood(n, open, row, col))
    ensures Linked(open + {(row, col)}, a, (row, col))
  {
    var open' := open + {(row, col)};
    var s := (row, col);
    if a == s {
      LinkedSelf(open', s);
    } else {
      var x := XyTo1D(n, a.0, a.1);
      var m :| m in Neighbourhood(n, open, row, col) && Same(ids, x, m);
      NeighbourhoodIndices(n, open, row, col, m);
      var q := SiteOf(n, m);
      NeighbourhoodExactly(n, open, row, col, q);
      if q == s {
        assert Same(ids, XyTo1D(n, s.0, s.1), x);
        assert x == m;
        XyTo1DInjective(n, a, s);
        assert false;
      } else {
        assert q in open && Adjacent(q, s);
        LinkedMono(open, open', a, q);
        LinkedStep(open', a, q, s);
      }
    }
  }

  /** A blocked site shares its component with no other site. */
  lemma SameAsBlocked(n: nat, open: set<Site>, ids: seq<int>, a: Site, b: Site)
    requires Consistent(n, open, ids) && InGrid(n, a.0, a.1) && InGrid(n, b.0, b.1)
    requires a !in open || b !in open
    requires Same(ids, XyTo1D(n, a.0, a.1), XyTo1D(n, b.0, b.1))
    ensures a == b
  {
    var xa, xb := XyTo1D(n, a.0, a.1), XyTo1D(n, b.0, b.1);
    if a !in open {
      assert xb == xa;
    } else {
      assert Same(ids, xb, xa);
      assert xa == xb;
    }
    XyTo1DInjective(n, a, b);
  }

  /**
    Opening a blocked site and joining its neighbourhood keeps every component
    of open sites linked by open paths: a merged component now runs through
    the new site.
   */
  lemma OpenKeepsLinked(n: nat, open: set<Site>, ids: seq<int>, ids': seq<int>, row: int, col: int)
    requires Consistent(n, open, ids) && ComponentsLinked(n, open, ids)
    requires InGrid(n, row, col) && (row, col) !in open
    requires Joined(ids, ids', Neighbourhood(n, open, row, col))
    ensures ComponentsLinked(n, open + {(row, col)}, ids')
  {
    var open' := open + {(row, col)};
    var s := (row, col);
    var nb := Neighbourhood(n, open, row, col);
    forall a, b | a in open' && b in open' && Same(ids', XyTo1D(n, a.0, a.1), XyTo1D(n, b.0, b.1))
      ensures Linked(open', a, b)
    {
      var xa, xb := XyTo1D(n, a.0, a.1), XyTo1D(n, b.0, b.1);
      if Same(ids, xa, xb) {
        if a in open && b in open {
          LinkedMono(open, open', a, b);
        } else {
          SameAsBlocked(n, open, ids, a, b);
          LinkedSelf(open', a);
        }
      } else {
        assert Reaches(ids, xa, nb) && Reaches(ids, xb, nb);
        ReachesLinked(n, open, ids, row, col, a);
        ReachesLinked(n, open, ids, row, col, b);
        LinkedSymmetric(open', b, s);
        LinkedTransitive(open', a, s, b);
      }
    }
  }

  /**
    On a grid that keeps both invariants, the union-find fullness test agrees
    with the path reading: a site is full exactly when an open path links it
    to the top row.
   */
  lemma FullMeansPath(n: nat, open: set<Site>, ids: seq<int>, row: int, col: int)
    requires Consistent(n, open, ids) && ComponentsLinked(n, open, ids) && InGrid(n, row, col)
    ensures Full(n, open, ids, row, col) <==> FullByPath(n, open, row, col)
  {
    if Full(n, open, ids, row, col) {
      FullHasPath(n, open, ids, row, col);
    }
    if FullByPath(n, open, row, col) {
      var c :| 1 <= c <= n && Linked(open, (1, c), (row, col));
      PathMakesFull(n, open, ids, row, col, c);
    }
  }

  lemma FullHasPath(n: nat, open: set<Site>, ids: seq<int>, row: int, col: int)
    requires Consistent(n, open, ids) && ComponentsLinked(n, open, ids) && InGrid(n, row, col)
    requires Full(n, open, ids, row, col)
    ensures FullByPath(n, open, row, col)
  {
    var s := (row, col);
    var k :| 0 <= k < n && Same(ids, XyTo1D(n, row, col), k);
    var t := (1, k + 1);
    assert XyTo1D(n, t.0, t.1) == k;
    if t !in open {
      SameAsBlocked(n, open, ids, s, t);
    }
    LinkedSymmetric(open, s, t);
  }

  lemma PathMakesFull(n: nat, open: set<Site>, ids: seq<int>, row: int, col: int, c: int)
    requires Consistent(n, open, ids) && InGrid(n, row, col) && 1 <= c <= n
    requires Linked(open, (1, c), (row, col))
    ensures Full(n, open, ids, row, col)
  {
    var s := (row, col);
    LinkedJoined(n, open, ids, (1, c), s);
    var p :| IsPath(open, p) && p[0] == (1, c) && p[|p| - 1] == s;
    assert s in open;
    assert Same(ids, XyTo1D(n, row, col), c - 1);
  }

  /** The system percolates exactly when an open path runs from the top row to the bottom row. */
  lemma PercolatesMeansPath(n: nat, open: set<Site>, ids: seq<int>)
    requires Consistent(n, open, ids) && ComponentsLinked(n, open, ids)
    ensures Percolates(n, open, ids) <==> PercolatesByPath(n, open)
  {
    if Percolates(n, open, ids) {
      var c :| 1 <= c <= n && Full(n, open, ids, n, c);
      FullMeansPath(n, open, ids, n, c);
    }
    if PercolatesByPath(n, open) {
      var c :| 1 <= c <= n && FullByPath(n, open, n, c);
      FullMeansPath(n, open, ids, n, c);
    }
  }
}
