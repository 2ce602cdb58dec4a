# Percolation grid, modelled in Dafny

This project models the percolation grid of `src/Percolation.java`.

A `Percolation` object holds:
- an n-by-n matrix of sites, each open or blocked;
- a count of the open sites;
- a disjoint-set (union-find) structure over the n·n linear indices of the sites.

Opening a site marks it open, increments the count, and unions the site with each open 4-neighbour that lies inside the grid. A site is *full* when it is open and in the same component as one of the top-row indices 0 .. n-1. The system *percolates* when some bottom-row site is full. Both queries are linear scans, exactly as in the source.

The model is split into five modules.

- `UnionFind` (`union_find.dfy`) stands in for the library class `WeightedQuickUnionUF`. That class is not part of this model, so only the contract the grid relies on is modelled.
  - The abstract state is a labelling; two elements are connected exactly when their labels agree.
  - `Joined(before, after, s)` says that the components of the members of `s` are merged and nothing else is merged or split.
  - `UF` is a quick-find class over an array of labels. Its `Union` is proved to establish `Joined`.
- `Coordinates` (`coordinates.dfy`) holds three things:
  - `xyTo1D` and its inverse;
  - the bounds check, which returns an `Outcome` (`Pass`, or `Fail` carrying the exception `IndexOutOfBounds` with the coordinate that was out of range);
  - the count of grid sites.
- `Connectivity` (`connectivity.dfy`) states the grid invariant `Consistent` on values: a set of open sites and a labelling. It has three parts:
  - open 4-neighbours share a component;
  - a blocked site is alone in its component;
  - every open site lies in the grid.

  This module also defines what `isFull` and `percolates` compute (`Full`, `Percolates`) and proves that opening a site keeps the invariant.
- `OpenPaths` (`open_paths.dfy`) gives the components their meaning. Two open sites share a component exactly when a path of open 4-neighbours links them. Hence a site is full exactly when an open path leads to it from the top row, which is the definition in the class comment (`src/Percolation.java:17-24`).
- `PercolationGrid` (`percolation.dfy`) holds the class `Percolation`.
  - Its fields are `size`, `grid` (an `array2<bool>`), `wqf` (a `UF`) and `numOpen`.
  - Its methods follow the source line by line. `Valid()` is the class invariant.
  - The module also has three client methods for the scenarios the source promises: opening a site twice, and the no-backwash example on a 3-by-3 grid.

The code has no virtual top or bottom element and only one union-find instance, of n·n elements. Fullness is decided by scanning the top row. The model follows the code, so a site can never become full through the bottom row ("backwash"). `NoBackwash` proves this on the 3-by-3 example.

## Model

| member | source | states |
|---|---|---|
| UnionFind.UF.constructor | src/Percolation.java:54 | the structure has n elements, each alone in its component |
| UnionFind.UF.Connected | src/Percolation.java:112 | connected(p, q) holds exactly when p and q share a component |
| UnionFind.UF.Union | src/Percolation.java:73 | union(p, q) merges exactly the components of p and q and nothing else; when they are already connected nothing changes |
| UnionFind.SameIsEquivalence | src/Percolation.java:112 | being connected is reflexive, symmetric and transitive |
| UnionFind.JoinedSelf | src/Percolation.java:68 | before any union, joining only the new site's component changes nothing |
| UnionFind.JoinedStep | src/Percolation.java:70-86 | a union of a member of an already-joined set with q joins the set together with q |
| UnionFind.JoinedThen | src/Percolation.java:70-86 | a guarded union step (union when the guard holds, nothing otherwise) extends an earlier join by the guarded element |
| Coordinates.XyTo1D | src/Percolation.java:157-159 | an in-grid site maps into 0 .. n·n-1, and to an index below n exactly when it lies in the top row |
| Coordinates.SiteOf | src/Percolation.java:157-159 | every index in 0 .. n·n-1 is the image of an in-grid site (xyTo1D is onto) |
| Coordinates.XyTo1DRoundTrip | src/Percolation.java:157-159 | SiteOf inverts xyTo1D on the grid |
| Coordinates.XyTo1DInjective | src/Percolation.java:157-159 | two in-grid sites share an index exactly when they are the same site |
| Coordinates.CheckBounds | src/Percolation.java:167-178 | passes exactly for in-grid sites; a bad row is reported before the column, a bad column only for a good row |
| Coordinates.GridSitesBound | src/Percolation.java:125-127 | no set of in-grid sites has more than n·n members |
| Connectivity.NeighbourhoodExactly | src/Percolation.java:68-86 | the set open unions holds the site itself and exactly its open in-grid 4-neighbours |
| Connectivity.NeighbourStepsJoin | src/Percolation.java:68-86 | the four guarded unions of open, composed in order, join the site's whole neighbourhood |
| Connectivity.InitiallyConsistent | src/Percolation.java:51-55 | a fresh grid (all blocked, all singletons) meets the invariant and does not percolate |
| Connectivity.OpenKeepsConsistent | src/Percolation.java:63-88 | opening a blocked site and joining its neighbourhood keeps the invariant: open neighbours joined, blocked sites alone |
| Connectivity.OpenedAloneStaysAlone | src/Percolation.java:68-86 | a site opened with no open neighbour stays alone in its component |
| Connectivity.TopRowFull | src/Percolation.java:108-118 | a top-row site is full exactly when it is open |
| Connectivity.SingleSitePercolates | src/Percolation.java:137-147 | a 1-by-1 grid percolates exactly when its only site is open |
| Connectivity.OpenKeepsFull | src/Percolation.java:63-88 | opening never empties a full site and never stops the system percolating |
| Connectivity.LeftColumnConnects | src/Percolation.java:63-88 | opening (1,1), (2,1), (3,1) of a fresh 3-by-3 grid connects (3,1) with (1,1) |
| Connectivity.NoBackwashCorner | src/Percolation.java:137-147 | after that, opening (3,3) makes the system percolate while (3,3) is not full |
| OpenPaths.PathJoined | src/Percolation.java:17-24 | the two ends of an open path share a component |
| OpenPaths.LinkedJoined | src/Percolation.java:17-24 | sites linked by an open path share a component |
| OpenPaths.InitiallyLinked | src/Percolation.java:51-55 | on a fresh grid, open sites sharing a component are linked by an open path (vacuously) |
| OpenPaths.OpenKeepsLinked | src/Percolation.java:63-88 | opening keeps every component of open sites linked by open paths |
| OpenPaths.ReachesLinked | src/Percolation.java:68-86 | a site already joined to the new site's neighbourhood is linked to the new site by an open path |
| OpenPaths.SameAsBlocked | src/Percolation.java:68-86 | a blocked site shares its component with no other site |
| OpenPaths.FullMeansPath | src/Percolation.java:108-118 | a site is full exactly when an open path leads to it from the top row |
| OpenPaths.PercolatesMeansPath | src/Percolation.java:137-147 | the system percolates exactly when an open path runs from the top row to the bottom row |
| PercolationGrid.Percolation.constructor | src/Percolation.java:51-55 | an n-by-n grid with every site blocked, a zero counter, singleton components, and the invariant established |
| PercolationGrid.Percolation.Open | src/Percolation.java:63-88 | out-of-range coordinates fail (row before column) and change nothing; an open site is left unchanged; a blocked site becomes the one new open site, the counter grows by one, and exactly its neighbourhood is joined; the invariant is kept and opening is monotone |
| PercolationGrid.Percolation.JoinOpenNeighbours | src/Percolation.java:68-86 | the four unions join exactly the new site's component with those of its open in-grid 4-neighbours |
| PercolationGrid.Percolation.UnionIfOpen | src/Percolation.java:70-74 | one guarded union: when the bound test passes and the neighbour is open, the two components are merged; otherwise nothing changes |
| PercolationGrid.Percolation.NeighboursOpenBefore | src/Percolation.java:65-70 | after the cell is set, each neighbour is open exactly when it was before |
| PercolationGrid.Percolation.ConnectedToOpenNeighbours | src/Percolation.java:68-86 | an open site is connected to each of its open 4-neighbours |
| PercolationGrid.Percolation.BlockedIsAlone | src/Percolation.java:68-86 | a blocked site is connected to no other index |
| PercolationGrid.Percolation.IsOpen | src/Percolation.java:97-99 | true exactly when the site is among the open sites |
| PercolationGrid.Percolation.IsFull | src/Percolation.java:108-118 | true exactly when the site is open and connected to a top-row index, i.e. when an open path leads to it from the top row |
| PercolationGrid.Percolation.TopRowIndex | src/Percolation.java:111-112 | every index 0 .. size-1 scanned by isFull is an index of the structure |
| PercolationGrid.Percolation.NumberOfOpenSites | src/Percolation.java:125-127 | the counter equals the number of open cells and is at most size·size |
| PercolationGrid.Percolation.Percolates | src/Percolation.java:137-147 | true exactly when some bottom-row site is full, i.e. when an open path runs from top row to bottom row |
| PercolationGrid.OpenTwice | src/Percolation.java:63-65 | opening a site twice has the effect of opening it once; the second call gives the same outcome |
| PercolationGrid.OpenLeftColumn | src/Percolation.java:63-88 | opening the left column of a fresh 3-by-3 grid connects its bottom site to its top site |
| PercolationGrid.OpenCorner | src/Percolation.java:63-88 | then opening (3,3) leaves the grid percolating with (3,3) not full |
| PercolationGrid.NoBackwash | src/Percolation.java:137-147 | on that grid, percolates() returns true and isFull(3, 3) returns false |

## Left out

- `WeightedQuickUnionUF` is not part of this model. Its weighting, tree layout, `count()` and `find()` are replaced by a quick-find labelling with the same partition contract. The argument checks of `union` and `connected` become `requires` clauses.
- `src/PercolationStats.java` is left out: it is built on random site choice and floating-point statistics.
- `percolation/Percolation.java` is an unfinished draft that does not compile.
- `src/Deque.java`, `src/RandomizedQueue.java` and `hello/HelloWorld.java` are stubs or printing only.
- `main` (`src/Percolation.java:185-192`) parses arguments and prints.
- The constructor does not validate `n`. For n = 0 it builds an empty grid: every `open` then fails its bounds check, `numberOfOpenSites()` is 0 and `percolates()` is false, because its loop never runs. For n < 0, `new boolean[n][n]` throws. The model's constructor requires `n >= 1`, so it leaves out the empty grid on purpose.
- `isOpen` and `isFull` do not check bounds. Out-of-grid coordinates make Java throw from the array access, and the model states in-grid coordinates as `requires` clauses.
- Exceptions are modelled as values. `open` returns an `Outcome` instead of throwing, and the message text is not modelled.
- Integers are unbounded. The 32-bit overflow of `n * n` for n above 46340, and of `numOpen`, is not modelled.
- `JoinOpenNeighbours` and `UnionIfOpen` split lines 68-86 of `open` into a method per guarded union, so that each proof stays small. The order of the unions and their guards are those of the source.
