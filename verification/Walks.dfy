/** Walks, reachability and cycles in directed graphs given as adjacency lists. */
module Walks {
  import opened Sequences

  type Id = string
  type Adjacency = map<Id, seq<Id>>

  function Next(a: Adjacency, u: Id): seq<Id> {
    if u in a then a[u] else []
  }

  /** Everything the graph mentions: nodes and targets of edges. */
  ghost function Universe(a: Adjacency): set<Id> {
    a.Keys + set u, v | u in a && v in a[u] :: v
  }

  ghost predicate IsWalk(a: Adjacency, p: seq<Id>) {
    forall k :: 0 <= k < |p| - 1 ==> p[k + 1] in Next(a, p[k])
  }

  /** A walk of at least one edge. */
  ghost predicate Connects(a: Adjacency, p: seq<Id>, u: Id, v: Id) {
    2 <= |p| && IsWalk(a, p) && p[0] == u && p[|p| - 1] == v
  }

  ghost predicate Reaches(a: Adjacency, u: Id, v: Id) {
    exists p :: Connects(a, p, u, v)
  }

  ghost predicate Acyclic(a: Adjacency) {
    forall u :: !Reaches(a, u, u)
  }

  /** A closed walk that repeats nothing but its end point. */
  ghost predicate IsCycle(a: Adjacency, c: seq<Id>) {
    2 <= |c| && IsWalk(a, c) && c[0] == c[|c| - 1] && Distinct(c[..|c| - 1])
  }

  lemma EdgeReaches(a: Adjacency, u: Id, v: Id)
    requires v in Next(a, u)
    ensures Reaches(a, u, v)
  {
    assert Connects(a, [u, v], u, v);
  }

  lemma ReachesTransitive(a: Adjacency, u: Id, v: Id, w: Id)
    requires Reaches(a, u, v) && Reaches(a, v, w)
    ensures Reaches(a, u, w)
  {
    var p :| Connects(a, p, u, v);
    var q :| Connects(a, q, v, w);
    assert Connects(a, p + q[1..], u, w);
  }

  lemma CycleReaches(a: Adjacency, c: seq<Id>)
    requires IsCycle(a, c)
    ensures !Acyclic(a)
  {
    assert Connects(a, c, c[0], c[0]);
    assert Reaches(a, c[0], c[0]);
  }

  /** An edge from the end of a walk back into the walk closes a cycle. */
  lemma ClosedWalk(a: Adjacency, path: seq<Id>, u: Id)
    requires IsWalk(a, path) && u in path && u in Next(a, path[|path| - 1])
    ensures Reaches(a, u, u)
  {
    var k :| 0 <= k < |path| && path[k] == u;
    var p := path[k..] + [u];
    forall i | 0 <= i < |p| - 1 ensures p[i + 1] in Next(a, p[i]) {
      if i < |p| - 2 {
        assert path[k + i + 1] in Next(a, path[k + i]);
      }
    }
    assert Connects(a, p, u, u);
  }

  lemma BackEdgeCycle(a: Adjacency, path: seq<Id>, k: nat, u: Id)
    requires IsWalk(a, path) && Distinct(path)
    requires k < |path| && path[k] == u && u in Next(a, path[|path| - 1])
    ensures IsCycle(a, path[k..] + [u])
  {
    var c := path[k..] + [u];
    forall i | 0 <= i < |c| - 1 ensures c[i + 1] in Next(a, c[i]) {
      if i < |c| - 2 {
        assert path[k + i + 1] in Next(a, path[k + i]);
      }
    }
    assert c[..|c| - 1] == path[k..];
  }

  /** A set that contains the successors of `u` and is closed under edges contains all that `u` reaches. */
  lemma {:induction false} ClosedContainsReached(a: Adjacency, s: set<Id>, p: seq<Id>)
    requires 2 <= |p| && IsWalk(a, p) && p[1] in s
    requires forall x, y :: x in s && y in Next(a, x) ==> y in s
    ensures p[|p| - 1] in s
    decreases |p|
  {
    if 2 < |p| {
      var front := p[..|p| - 1];
      ClosedContainsReached(a, s, front);
      assert front[|front| - 1] == p[|p| - 2];
      assert p[|p| - 2 + 1] in Next(a, p[|p| - 2]);
    }
  }

  // ----- finish orders -----

  /** Each element comes once, after everything it points to. */
  ghost predicate FinishOrder(a: Adjacency, order: seq<Id>) {
    && Distinct(order)
    && forall k, w :: 0 <= k < |order| && w in Next(a, order[k]) ==> w in order[..k]
  }

  lemma FinishOrderSnoc(a: Adjacency, order: seq<Id>, x: Id)
    requires FinishOrder(a, order) && x !in order
    requires forall w :: w in Next(a, x) ==> w in order
    ensures FinishOrder(a, order + [x])
  {
    var longer := order + [x];
    forall k, w | 0 <= k < |longer| && w in Next(a, longer[k])
      ensures w in longer[..k]
    {
      assert longer[..k] == order[..k];
      assert order[..|order|] == order;
    }
  }

  lemma FinishOrderConcat(a: Adjacency, order: seq<Id>, more: seq<Id>)
    requires FinishOrder(a, order) && Distinct(more) && Elements(order) !! Elements(more)
    requires forall x, w :: x in more && w in Next(a, x) ==> w in order
    ensures FinishOrder(a, order + more)
  {
    var longer := order + more;
    assert forall i :: 0 <= i < |order| ==> order[i] in Elements(order);
    assert forall i :: 0 <= i < |more| ==> more[i] in Elements(more);
    forall k, w | 0 <= k < |longer| && w in Next(a, longer[k])
      ensures w in longer[..k]
    {
      if k < |order| {
        assert longer[..k] == order[..k];
      } else {
        assert longer[..k] == order + more[..k - |order|];
        assert longer[k] == more[k - |order|];
      }
    }
  }

  /** Walks run backwards through a finish order. */
  lemma {:induction false} WalkDescends(a: Adjacency, order: seq<Id>, p: seq<Id>, k: nat) returns (j: nat)
    requires FinishOrder(a, order) && 2 <= |p| && IsWalk(a, p) && k < |order| && p[0] == order[k]
    ensures j < k && p[|p| - 1] == order[j]
    decreases |p|
  {
    assert p[0 + 1] in Next(a, p[0]);
    assert p[1] in order[..k];
    j :| 0 <= j < k && order[j] == p[1];
    if 2 < |p| {
      forall i | 0 <= i < |p| - 2 ensures p[1..][i + 1] in Next(a, p[1..][i]) {
        assert p[i + 1 + 1] in Next(a, p[i + 1]);
      }
      j := WalkDescends(a, order, p[1..], j);
    }
  }

  /** A graph all of whose nodes fit in one finish order has no cycle. */
  lemma FinishOrderAcyclic(a: Adjacency, order: seq<Id>)
    requires FinishOrder(a, order) && a.Keys <= Elements(order)
    ensures Acyclic(a)
  {
    forall u ensures !Reaches(a, u, u) {
      if p :| Connects(a, p, u, u) {
        assert p[0 + 1] in Next(a, p[0]);
        assert u in order;
        var k :| 0 <= k < |order| && order[k] == u;
        var j := WalkDescends(a, order, p, k);
        assert false;
      }
    }
  }

  // ----- reversal -----

  ghost predicate Reversed(a: Adjacency, b: Adjacency) {
    forall u, v :: v in Next(a, u) <==> u in Next(b, v)
  }

  /** Reversing every edge reverses reachability, with or without cycles. */
  lemma ReachesReversed(a: Adjacency, b: Adjacency, u: Id, v: Id)
    requires Reversed(a, b)
    ensures Reaches(a, u, v) <==> Reaches(b, v, u)
  {
    if Reaches(a, u, v) {
      ReverseWalk(a, b, u, v);
    }
    if Reaches(b, v, u) {
      ReverseWalk(b, a, v, u);
    }
  }

  lemma ReverseWalk(a: Adjacency, b: Adjacency, u: Id, v: Id)
    requires Reversed(a, b) && Reaches(a, u, v)
    ensures Reaches(b, v, u)
  {
    var p :| Connects(a, p, u, v);
    var n := |p|;
    var q := seq(n, k requires 0 <= k < n => p[n - 1 - k]);
    forall k | 0 <= k < n - 1 ensures q[k + 1] in Next(b, q[k]) {
      assert p[n - 2 - k + 1] in Next(a, p[n - 2 - k]);
    }
    assert Connects(b, q, v, u);
  }
}
