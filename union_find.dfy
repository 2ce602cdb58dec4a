/**
  A disjoint-set structure over the elements 0 .. N-1, as the percolation grid
  uses it: it starts with every element alone, `Union` merges two components and
  `Connected` asks whether two elements share one.

  The abstract state is a labelling `ids: seq<int>`: two elements are in the same
  component exactly when their labels agree. The implementation is quick-find
  (`Union` relabels one component), which is the simplest structure meeting the
  partition contract the grid relies on.
 */
module UnionFind {

  /** x and y are elements of the universe and carry the same label. */
  predicate Same(ids: seq<int>, x: int, y: int) {
    0 <= x < |ids| && 0 <= y < |ids| && ids[x] == ids[y]
  }

  /** Every element is alone in its component. */
  ghost predicate Singletons(ids: seq<int>) {
    forall x, y :: Same(ids, x, y) <==> 0 <= x < |ids| && x == y
  }

  /** x shares a component with some member of s. */
  ghost predicate Reaches(ids: seq<int>, x: int, s: set<int>) {
    exists a :: a in s && Same(ids, x, a)
  }

  /**
    `after` is `before` with the components of the members of `s` merged into
    one, and nothing else merged or split.
   */
  ghost predicate Joined(before: seq<int>, after: seq<int>, s: set<int>) {
    |after| == |before| &&
    forall x, y {:trigger Same(after, x, y)} :: Same(after, x, y) <==> Same(before, x, y) || (Reaches(before, x, s) && Reaches(before, y, s))
  }

  /** Sharing a label is an equivalence relation on the elements. */
  lemma SameIsEquivalence(ids: seq<int>)
    ensures forall x :: 0 <= x < |ids| ==> Same(ids, x, x)
    ensures forall x, y :: Same(ids, x, y) ==> Same(ids, y, x)
    ensures forall x, y, z :: Same(ids, x, y) && Same(ids, y, z) ==> Same(ids, x, z)
  {
  }

  /** Joining a single element's component changes nothing. */
  lemma {:induction false} JoinedSelf(ids: seq<int>, p: int)
    requires 0 <= p < |ids|
    ensures Joined(ids, ids, {p})
  {
    forall x, y | Reaches(ids, x, {p}) && Reaches(ids, y, {p})
      ensures Same(ids, x, y)
    {
      var a :| a in {p} && Same(ids, x, a);
      var b :| b in {p} && Same(ids, y, b);
    }
  }

  /**
    Composition: merging the component of a member `p` of `s` with that of `q`
    after joining `s` is the same as joining `s + {q}` in one go.
   */
  lemma {:induction false} JoinedStep(a: seq<int>, b: seq<int>, c: seq<int>, s: set<int>, p: int, q: int)
    requires Joined(a, b, s) && p in s && 0 <= p < |a| && 0 <= q < |a|
    requires Joined(b, c, {p, q})
    ensures Joined(a, c, s + {q})
  {
    assert Reaches(a, p, s) by { assert Same(a, p, p); }
    forall x | 0 <= x < |a|
      ensures Reaches(b, x, {p, q}) <==> Reaches(a, x, s) || Same(a, x, q)
    {
      if Reaches(b, x, {p, q}) {
        var m :| m in {p, q} && Same(b, x, m);
        if m == q && !Reaches(a, x, s) {
          assert Same(a, x, q);
        }
      }
      if Reaches(a, x, s) {
        assert Same(b, x, p);
      } else if Same(a, x, q) {
        assert Same(b, x, q);
      }
    }
    forall x | 0 <= x < |a|
      ensures Reaches(a, x, s + {q}) <==> Reaches(a, x, s) || Same(a, x, q)
    {
      if Reaches(a, x, s + {q}) {
        var m :| m in s + {q} && Same(a, x, m);
        if m != q {
          assert m in s;
        }
      }
      if Same(a, x, q) {
        assert q in s + {q};
      } else if Reaches(a, x, s) {
        var m :| m in s && Same(a, x, m);
        assert m in s + {q};
      }
    }
  }

  /**
    A step that merges p's component with that of q when `merge` holds, and
    merges nothing otherwise, composes with an earlier join of a set holding p.
   */
  lemma {:induction false} JoinedThen(a: seq<int>, b: seq<int>, c: seq<int>, s: set<int>, p: int, merge: bool, q: int)
    requires Joined(a, b, s) && p in s && 0 <= p < |a| && (merge ==> 0 <= q < |a|)
    requires Joined(b, c, {p} + (if merge then {q} else {}))
    ensures Joined(a, c, s + (if merge then {q} else {}))
  {
    if merge {
      assert {p} + {q} == {p, q};
      JoinedStep(a, b, c, s, p, q);
    } else {
      assert {p} + {} == {p};
      assert s + {} == s;
      forall x, y | Reaches(b, x, {p}) && Reaches(b, y, {p})
        ensures Same(b, x, y)
      {
        var m :| m in {p} && Same(b, x, m);
        var m' :| m' in {p} && Same(b, y, m');
      }
    }
  }

  /** The quick-find union step: every element labelled `from` is relabelled `to`. */
  function Relabel(ids: seq<int>, from: int, to: int): (r: seq<int>)
    ensures |r| == |ids|
  {
    seq(|ids|, i requires 0 <= i < |ids| => if ids[i] == from then to else ids[i])
  }

  /**
    Relabelling the component of p with the label of q merges exactly the
    components of p and q.
   */
  lemma {:induction false} RelabelJoins(ids: seq<int>, p: int, q: int)
    requires 0 <= p < |ids| && 0 <= q < |ids|
    ensures Joined(ids, Relabel(ids, ids[p], ids[q]), {p, q})
  {
    var r := Relabel(ids, ids[p], ids[q]);
    forall x | 0 <= x < |ids|
      ensures Reaches(ids, x, {p, q}) <==> Same(ids, x, p) || Same(ids, x, q)
    {
      if Reaches(ids, x, {p, q}) {
        var m :| m in {p, q} && Same(ids, x, m);
      }
      if Same(ids, x, p) {
        assert p in {p, q};
      } else if Same(ids, x, q) {
        assert q in {p, q};
      }
    }
  }

  class UF {
    /** Component label of each element. */
    const id: array<int>

    /** Creates n singleton components. */
    constructor (n: nat)
      ensures fresh(id) && id.Length == n
      ensures Singletons(id[..])
    {
      id := new int[n](i => i);
    }

    /** p and q are in the same component. */
    predicate Connected(p: int, q: int)
      reads id
      requires 0 <= p < id.Length && 0 <= q < id.Length
      ensures Connected(p, q) <==> Same(id[..], p, q)
    {
      id[p] == id[q]
    }

    /** Merges the components of p and q; nothing else changes. */
    method Union(p: int, q: int)
      requires 0 <= p < id.Length && 0 <= q < id.Length
      modifies id
      ensures Joined(old(id[..]), id[..], {p, q})
      ensures old(Connected(p, q)) ==> id[..] == old(id[..])
    {
      var pid := id[p];
      var qid := id[q];
      if pid == qid {
        JoinedRelabelNoop(id[..], p, q);
        return;
      }
      var i := 0;
      while i < id.Length
        invariant 0 <= i <= id.Length
        invariant forall k :: 0 <= k < i ==> id[k] == (if old(id[k]) == pid then qid else old(id[k]))
        invariant forall k :: i <= k < id.Length ==> id[k] == old(id[k])
      {
        if id[i] == pid {
          id[i] := qid;
        }
        i := i + 1;
      }
      assert id[..] == Relabel(old(id[..]), pid, qid);
      RelabelJoins(old(id[..]), p, q);
    }
  }

  /** When p and q already share a component, joining them changes nothing. */
  lemma {:induction false} JoinedRelabelNoop(ids: seq<int>, p: int, q: int)
    requires Same(ids, p, q)
    ensures Joined(ids, ids, {p, q})
  {
    RelabelJoins(ids, p, q);
    assert Relabel(ids, ids[p], ids[q]) == ids;
  }
}
