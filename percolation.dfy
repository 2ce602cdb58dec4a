/**
  The percolation grid: an n-by-n matrix of open and blocked sites, a count of
  the open sites, and a disjoint-set structure over the n*n linear indices in
  which each open site is joined to its open 4-neighbours. A site is full when
  it is open and in the same component as some top-row site; the system
  percolates when some bottom-row site is full. There is no virtual top or
  bottom element: fullness is decided by scanning the top row.
 */
module PercolationGrid {
  import opened UnionFind
  import opened Coordinates
  import opened Connectivity
  import opened OpenPaths

  class Percolation {
    /** Dimension of the square grid. */
    const size: nat
    /** grid[row - 1, col - 1] holds whether site (row, col) is open. */
    const grid: array2<bool>
    /** Components over the linear indices XyTo1D(size, row, col). */
    const wqf: UF
    /** The number of open sites. */
    var numOpen: nat

    /** The arrays have the sizes the grid dimension gives them. */
    ghost predicate Shaped() {
      size >= 1 && grid.Length0 == size && grid.Length1 == size && wqf.id.Length == size * size
    }

    /** The open sites, 1-indexed. */
    ghost function OpenSites(): (open: set<Site>)
      reads grid
      requires Shaped()
    {
      set row, col | 1 <= row <= size && 1 <= col <= size && grid[row - 1, col - 1] :: (row, col)
    }

    /** The component labelling of the linear indices. */
    ghost function Labels(): (ids: seq<int>)
      reads wqf.id
    {
      wqf.id[..]
    }

    /**
      The counter matches the grid, and the components match the open sites:
      open 4-neighbours share a component, blocked sites are alone, and open
      sites sharing a component are linked by an open path.
     */
    ghost predicate Valid()
      reads this, grid, wqf.id
    {
      Shaped() && numOpen == |OpenSites()| &&
      Consistent(size, OpenSites(), Labels()) && ComponentsLinked(size, OpenSites(), Labels())
    }

    /** An n-by-n grid with every site blocked. */
    constructor (n: nat)
      requires n >= 1
      ensures Valid() && size == n
      ensures fresh(grid) && fresh(wqf) && fresh(wqf.id)
      ensures OpenSites() == {} && numOpen == 0
      ensures Singletons(Labels())
    {
      size := n;
      grid := new bool[n, n]((r, c) => false);
      wqf := new UF(n * n);
      numOpen := 0;
      new;
      assert OpenSites() == {};
      InitiallyConsistent(n, Labels());
      InitiallyLinked(n, Labels());
    }

    /**
      Opens site (row, col) if it is not open already. Out-of-range
      coordinates fail before anything changes; an open site is left as it is;
      a blocked site becomes open, the counter goes up by one, and the site's
      component is merged with those of its open 4-neighbours.
     */
    method Open(row: int, col: int) returns (outcome: Outcome)
      requires Valid()
      modifies this, grid, wqf.id
      ensures Valid()
      ensures outcome == CheckBounds(size, row, col)
      ensures old(OpenSites()) <= OpenSites()
      ensures outcome.Fail? || (row, col) in old(OpenSites()) ==>
                numOpen == old(numOpen) && unchanged(grid) && Labels() == old(Labels())
      ensures outcome.Pass? && (row, col) !in old(OpenSites()) ==>
                OpenSites() == old(OpenSites()) + {(row, col)} && numOpen == old(numOpen) + 1 &&
                Joined(old(Labels()), Labels(), Neighbourhood(size, old(OpenSites()), row, col))
    {
      outcome := CheckBounds(size, row, col);
      if outcome.Fail? {
        return;
      }
      if !IsOpen(row, col) {
        ghost var open0 := OpenSites();
        ghost var before := Labels();
        numOpen := numOpen + 1;
        grid[row - 1, col - 1] := true;
        assert OpenSites() == open0 + {(row, col)};
        NeighboursOpenBefore(row, col, open0);
        JoinOpenNeighbours(row, col, open0);
        OpenKeepsConsistent(size, open0, before, Labels(), row, col);
        OpenKeepsLinked(size, open0, before, Labels(), row, col);
        assert numOpen == |open0| + 1;
        assert OpenSites() == open0 + {(row, col)};
        assert |open0 + {(row, col)}| == |open0| + 1;
        assert numOpen == |OpenSites()|;
        assert Consistent(size, OpenSites(), Labels());
        assert ComponentsLinked(size, OpenSites(), Labels());
      }
    }

    /**
      The unions of open: the new site's component is merged with that of each
      of its 4-neighbours that lies in the grid and is open, visiting them in
      the order row + 1, col + 1, row - 1, col - 1. `open0` is the set of open
      sites before the new one was opened.
     */
    method JoinOpenNeighbours(row: int, col: int, ghost open0: set<Site>)
      requires Shaped() && InGrid(size, row, col)
      requires row + 1 <= size ==> (IsOpen(row + 1, col) <==> (row + 1, col) in open0)
      requires col + 1 <= size ==> (IsOpen(row, col + 1) <==> (row, col + 1) in open0)
      requires row - 1 >= 1 ==> (IsOpen(row - 1, col) <==> (row - 1, col) in open0)
      requires col - 1 >= 1 ==> (IsOpen(row, col - 1) <==> (row, col - 1) in open0)
      modifies wqf.id
      ensures Joined(old(Labels()), Labels(), Neighbourhood(size, open0, row, col))
    {
      var site := XyTo1D(size, row, col);
      ghost var l0 := Labels();
      UnionIfOpen(site, row + 1 <= size, row + 1, col, (row + 1, col) in open0);
      ghost var l1 := Labels();
      UnionIfOpen(site, col + 1 <= size, row, col + 1, (row, col + 1) in open0);
      ghost var l2 := Labels();
      UnionIfOpen(site, row - 1 >= 1, row - 1, col, (row - 1, col) in open0);
      ghost var l3 := Labels();
      UnionIfOpen(site, col - 1 >= 1, row, col - 1, (row, col - 1) in open0);
      NeighbourStepsJoin(size, open0, row, col, l0, l1, l2, l3, Labels());
    }

    /**
      One neighbour step of open: when `inGrid` (open's bounds test on the
      neighbour) holds and (r, c) is open, wqf.union(site, index of (r, c)),
      which merges the two components; otherwise nothing changes. `wasOpen`
      says whether (r, c) is open.
     */
    method UnionIfOpen(site: int, inGrid: bool, r: int, c: int, ghost wasOpen: bool)
      requires Shaped() && 0 <= site < size * size
      requires inGrid ==> InGrid(size, r, c) && IsOpen(r, c) == wasOpen
      modifies wqf.id
      ensures Joined(old(Labels()), Labels(), {site} + (if inGrid && wasOpen then {XyTo1D(size, r, c)} else {}))
    {
      if inGrid && IsOpen(r, c) {
        var other := XyTo1D(size, r, c);
        wqf.Union(site, other);
        assert {site} + {other} == {site, other};
      } else {
        JoinedSelf(Labels(), site);
        assert {site} + {} == {site};
      }
    }

    /** Once (row, col) is opened, its neighbours are open exactly when they were before. */
    lemma NeighboursOpenBefore(row: int, col: int, open0: set<Site>)
      requires Shaped() && InGrid(size, row, col) && OpenSites() == open0 + {(row, col)}
      ensures row + 1 <= size ==> (IsOpen(row + 1, col) <==> (row + 1, col) in open0)
      ensures col + 1 <= size ==> (IsOpen(row, col + 1) <==> (row, col + 1) in open0)
      ensures row - 1 >= 1 ==> (IsOpen(row - 1, col) <==> (row - 1, col) in open0)
      ensures col - 1 >= 1 ==> (IsOpen(row, col - 1) <==> (row, col - 1) in open0)
    {
    }

    /** The invariant gives the open site's connection to each open 4-neighbour. */
    lemma ConnectedToOpenNeighbours(row: int, col: int)
      requires Valid() && (row, col) in OpenSites()
      ensures forall a :: a in OpenSites() && Adjacent(a, (row, col)) ==>
                wqf.Connected(XyTo1D(size, row, col), XyTo1D(size, a.0, a.1))
    {
      forall a | a in OpenSites() && Adjacent(a, (row, col))
        ensures Same(Labels(), XyTo1D(size, row, col), XyTo1D(size, a.0, a.1))
      {
        assert Adjacent((row, col), a);
      }
    }

    /** The invariant keeps a blocked site in a component of its own. */
    lemma BlockedIsAlone(row: int, col: int)
      requires Valid() && InGrid(size, row, col) && (row, col) !in OpenSites()
      ensures forall j :: 0 <= j < size * size && wqf.Connected(XyTo1D(size, row, col), j) ==> j == XyTo1D(size, row, col)
    {
      forall j | 0 <= j < size * size && wqf.Connected(XyTo1D(size, row, col), j)
        ensures j == XyTo1D(size, row, col)
      {
        assert Same(Labels(), XyTo1D(size, row, col), j);
      }
    }

    /** Is site (row, col) open? */
    function IsOpen(row: int, col: int): (b: bool)
      reads grid
      requires Shaped() && InGrid(size, row, col)
      ensures b <==> (row, col) in OpenSites()
    {
      grid[row - 1, col - 1]
    }

    /**
      Is site (row, col) full: open, and connected to one of the top-row
      indices? That is, does an open path lead to it from the top row?
     */
    method IsFull(row: int, col: int) returns (full: bool)
      requires Valid() && InGrid(size, row, col)
      ensures full <==> Full(size, OpenSites(), Labels(), row, col)
      ensures full <==> FullByPath(size, OpenSites(), row, col)
    {
      FullMeansPath(size, OpenSites(), Labels(), row, col);
      if IsOpen(row, col) {
        var site := XyTo1D(size, row, col);
        var k := 0;
        while k < size
          invariant 0 <= k <= size
          invariant forall j :: 0 <= j < k ==> !Same(Labels(), site, j)
        {
          TopRowIndex(k);
          if wqf.Connected(site, k) {
            return true;
          }
          k := k + 1;
        }
      }
      return false;
    }

    /** The top-row indices are indices of the structure. */
    lemma TopRowIndex(k: int)
      requires Shaped() && 0 <= k < size
      ensures k < wqf.id.Length
    {
      assert XyTo1D(size, 1, k + 1) == k;
    }

    /** The number of open sites, which never exceeds size * size. */
    function NumberOfOpenSites(): (count: nat)
      reads this, grid, wqf.id
      requires Valid()
      ensures count == |OpenSites()| && count <= size * size
    {
      GridSitesBound(size, OpenSites());
      numOpen
    }

    /**
      Does the system percolate: is some bottom-row site full? That is, does
      an open path lead from the top row to the bottom row?
     */
    method Percolates() returns (p: bool)
      requires Valid()
      ensures p <==> Connectivity.Percolates(size, OpenSites(), Labels())
      ensures p <==> PercolatesByPath(size, OpenSites())
    {
      PercolatesMeansPath(size, OpenSites(), Labels());
      var j := 1;
      while j <= size
        invariant 1 <= j <= size + 1
        invariant forall c :: 1 <= c < j ==> !Full(size, OpenSites(), Labels(), size, c)
      {
        var full := IsFull(size, j);
        if full {
          return true;
        }
        j := j + 1;
      }
      return false;
    }
  }

  /**
    Opening the same site twice has the effect of opening it once: the second
    call passes or fails as the first did and changes nothing.
   */
  method OpenTwice(perc: Percolation, row: int, col: int) returns (first: Outcome, second: Outcome)
    requires perc.Valid()
    modifies perc, perc.grid, perc.wqf.id
    ensures perc.Valid() && second == first && first == CheckBounds(perc.size, row, col)
    ensures first.Fail? || (row, col) in old(perc.OpenSites()) ==>
              perc.numOpen == old(perc.numOpen) && unchanged(perc.grid) && perc.Labels() == old(perc.Labels())
    ensures first.Pass? && (row, col) !in old(perc.OpenSites()) ==>
              perc.OpenSites() == old(perc.OpenSites()) + {(row, col)} && perc.numOpen == old(perc.numOpen) + 1 &&
              Joined(old(perc.Labels()), perc.Labels(), Neighbourhood(perc.size, old(perc.OpenSites()), row, col))
  {
    first := perc.Open(row, col);
    ghost var open1, count1, labels1 := perc.OpenSites(), perc.numOpen, perc.Labels();
    second := perc.Open(row, col);
    assert perc.OpenSites() == open1 && perc.numOpen == count1 && perc.Labels() == labels1;
  }

  /** Opens the left column of a fresh 3-by-3 grid, from the top. */
  method OpenLeftColumn(perc: Percolation)
    requires perc.Valid() && perc.size == 3 && perc.OpenSites() == {} && Singletons(perc.Labels())
    modifies perc, perc.grid, perc.wqf.id
    ensures perc.Valid() && perc.OpenSites() == {(1, 1), (2, 1), (3, 1)}
    ensures Same(perc.Labels(), 6, 0)
  {
    ghost var open0, ids0 := perc.OpenSites(), perc.Labels();
    var outcome := perc.Open(1, 1);
    ghost var open1, ids1 := perc.OpenSites(), perc.Labels();
    outcome := perc.Open(2, 1);
    ghost var open2, ids2 := perc.OpenSites(), perc.Labels();
    outcome := perc.Open(3, 1);
    LeftColumnConnects(open0, open1, open2, perc.OpenSites(), ids0, ids1, ids2, perc.Labels());
  }

  /** Opens the corner (3, 3), none of whose neighbours is open. */
  method OpenCorner(perc: Percolation)
    requires perc.Valid() && perc.size == 3 && perc.OpenSites() == {(1, 1), (2, 1), (3, 1)}
    requires Same(perc.Labels(), 6, 0)
    modifies perc, perc.grid, perc.wqf.id
    ensures perc.Valid() && perc.size == 3
    ensures Connectivity.Percolates(3, perc.OpenSites(), perc.Labels())
    ensures !Full(3, perc.OpenSites(), perc.Labels(), 3, 3)
  {
    ghost var open3, ids3 := perc.OpenSites(), perc.Labels();
    var outcome := perc.Open(3, 3);
    NoBackwashCorner(open3, ids3, perc.Labels());
  }

  /**
    No backwash: on a 3-by-3 grid with the left column open and the corner
    (3, 3) open on its own, the system percolates through the left column but
    the corner is not full.
   */
  method NoBackwash() returns (percolates: bool, cornerFull: bool)
    ensures percolates && !cornerFull
  {
    var perc := new Percolation(3);
    OpenLeftColumn(perc);
    OpenCorner(perc);
    percolates := perc.Percolates();
    cornerFull := perc.IsFull(3, 3);
  }
}
