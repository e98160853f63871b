/**
 * Layering a dependency relation into batches.
 *
 * `able` are the ids that nothing outside the relation holds back. A batch takes all the able ids,
 * not taken yet, whose dependencies are all in earlier batches.
 */
module Layers {
  import opened Sequences
  import opened Walks

  /** All ids of the first `k` batches. */
  ghost function Done(batches: seq<seq<Id>>, k: nat): set<Id>
    requires k <= |batches|
  {
    if k == 0 then {} else Done(batches, k - 1) + Elements(batches[k - 1])
  }

  ghost predicate Within(ids: seq<Id>, s: set<Id>) {
    forall v :: v in ids ==> v in s
  }

  /** The ids that can start once `done` is done. */
  ghost function Startable(a: Adjacency, able: set<Id>, done: set<Id>): set<Id> {
    set s | s in able && Within(Next(a, s), done)
  }

  ghost predicate IsLayer(a: Adjacency, able: set<Id>, batches: seq<seq<Id>>, k: nat)
    requires k < |batches|
  {
    && batches[k] != [] && Distinct(batches[k])
    && Elements(batches[k]) == Startable(a, able, Done(batches, k)) - Done(batches, k)
  }

  ghost predicate Layered(a: Adjacency, able: set<Id>, batches: seq<seq<Id>>) {
    forall k :: 0 <= k < |batches| ==> IsLayer(a, able, batches, k)
  }

  /** Nothing more can start. */
  ghost predicate Exhausted(a: Adjacency, able: set<Id>, batches: seq<seq<Id>>) {
    Startable(a, able, Done(batches, |batches|)) <= Done(batches, |batches|)
  }

  lemma {:induction false} DoneMember(batches: seq<seq<Id>>, k: nat, s: Id)
    requires k <= |batches|
    ensures s in Done(batches, k) <==> exists j :: 0 <= j < k && s in batches[j]
  {
    if k > 0 {
      DoneMember(batches, k - 1, s);
    }
  }

  lemma {:induction false} DonePrefix(batches: seq<seq<Id>>, longer: seq<seq<Id>>, k: nat)
    requires batches <= longer && k <= |batches|
    ensures Done(longer, k) == Done(batches, k)
  {
    if k > 0 {
      DonePrefix(batches, longer, k - 1);
    }
  }

  lemma LayeredSnoc(a: Adjacency, able: set<Id>, batches: seq<seq<Id>>, batch: seq<Id>)
    requires Layered(a, able, batches) && batch != [] && Distinct(batch)
    requires
      var done := Done(batches, |batches|);
      Elements(batch) == Startable(a, able, done) - done
    ensures Layered(a, able, batches + [batch])
    ensures Done(batches + [batch], |batches| + 1) == Done(batches, |batches|) + Elements(batch)
  {
    hide Startable, Distinct;
    var longer := batches + [batch];
    DonePrefix(batches, longer, |batches|);
    forall k | 0 <= k < |longer| ensures IsLayer(a, able, longer, k) {
      if k < |batches| {
        DonePrefix(batches, longer, k);
        assert IsLayer(a, able, batches, k);
        assert longer[k] == batches[k];
      }
    }
  }

  lemma LayerIsNew(a: Adjacency, able: set<Id>, batches: seq<seq<Id>>, n: nat)
    requires Layered(a, able, batches) && n < |batches|
    ensures Distinct(batches[n]) && Done(batches, n) !! Elements(batches[n])
  {
    assert IsLayer(a, able, batches, n);
  }

  lemma InOneBatch(a: Adjacency, able: set<Id>, batches: seq<seq<Id>>, j: nat, k: nat, s: Id)
    requires Layered(a, able, batches) && j < |batches| && k < |batches|
    requires s in batches[j] && s in batches[k]
    ensures j == k
  {
    var lo, hi := Min(j, k), Max(j, k);
    DoneMember(batches, hi, s);
    assert IsLayer(a, able, batches, hi);
    assert s in Elements(batches[hi]);
  }

  /**
   * An id without dependencies is in batch 0, any other in the batch right after the last of its
   * dependencies.
   */
  lemma BatchNumber(a: Adjacency, able: set<Id>, batches: seq<seq<Id>>, k: nat, s: Id)
    requires Layered(a, able, batches) && k < |batches| && s in batches[k]
    ensures forall v :: v in Next(a, s) ==> v in Done(batches, k)
    ensures k > 0 ==> exists v :: v in Next(a, s) && v in batches[k - 1]
  {
    assert IsLayer(a, able, batches, k);
    assert s in Elements(batches[k]);
    if k > 0 {
      assert IsLayer(a, able, batches, k - 1);
      assert !Within(Next(a, s), Done(batches, k - 1));
    }
  }

  /** No assignment of levels that respects the dependencies puts an id lower than its batch. */
  lemma {:induction false} BatchNumberMinimal(a: Adjacency, able: set<Id>, batches: seq<seq<Id>>,
                                              level: map<Id, nat>, k: nat, s: Id)
    requires Layered(a, able, batches) && k < |batches| && s in batches[k]
    requires Done(batches, |batches|) <= level.Keys
    requires forall u, v :: u in level && v in level && v in Next(a, u) ==> level[v] < level[u]
    ensures s in level && k <= level[s]
  {
    DoneMember(batches, |batches|, s);
    if k > 0 {
      BatchNumber(a, able, batches, k, s);
      var v :| v in Next(a, s) && v in batches[k - 1];
      BatchNumberMinimal(a, able, batches, level, k - 1, v);
    }
  }

  /** What gets done is the least set closed under being startable. */
  lemma {:induction false} DoneIsLeast(a: Adjacency, able: set<Id>, batches: seq<seq<Id>>, closed: set<Id>, k: nat)
    requires Layered(a, able, batches) && k <= |batches|
    requires Startable(a, able, closed) <= closed
    ensures Done(batches, k) <= closed
  {
    if k > 0 {
      DoneIsLeast(a, able, batches, closed, k - 1);
      assert IsLayer(a, able, batches, k - 1);
      forall s | s in batches[k - 1] ensures s in closed {
        assert s in Elements(batches[k - 1]);
        assert s in Startable(a, able, closed);
      }
    }
  }

  /** The ids of the first `k` batches, one after the other. */
  ghost function Flat(batches: seq<seq<Id>>, k: nat): seq<Id>
    requires k <= |batches|
  {
    if k == 0 then [] else Flat(batches, k - 1) + batches[k - 1]
  }

  /** Batch after batch, each id comes once, after all its dependencies. */
  lemma {:induction false} FlatIsFinishOrder(a: Adjacency, able: set<Id>, batches: seq<seq<Id>>, k: nat)
    requires Layered(a, able, batches) && k <= |batches|
    ensures FinishOrder(a, Flat(batches, k)) && Elements(Flat(batches, k)) == Done(batches, k)
  {
    if k > 0 {
      FlatIsFinishOrder(a, able, batches, k - 1);
      assert IsLayer(a, able, batches, k - 1);
      forall x, w | x in batches[k - 1] && w in Next(a, x) ensures w in Flat(batches, k - 1) {
        assert x in Elements(batches[k - 1]);
      }
      FinishOrderConcat(a, Flat(batches, k - 1), batches[k - 1]);
    }
  }

  // ----- what is never done -----

  /** `s` is, or leads to, an id that is not able or lies on a cycle. */
  ghost predicate Doomed(a: Adjacency, able: set<Id>, s: Id) {
    exists t :: (t == s || Reaches(a, s, t)) && (t !in able || Reaches(a, t, t))
  }

  /** The end of a walk that starts in batch `k` is in an earlier batch. */
  lemma {:induction false} WalkGoesToEarlierBatch(a: Adjacency, able: set<Id>, batches: seq<seq<Id>>,
                                                  k: nat, p: seq<Id>)
    returns (j: nat)
    requires Layered(a, able, batches) && k < |batches|
    requires 2 <= |p| && IsWalk(a, p) && p[0] in batches[k]
    ensures j < k && p[|p| - 1] in batches[j]
    decreases |p|
  {
    BatchNumber(a, able, batches, k, p[0]);
    assert p[0 + 1] in Next(a, p[0]);
    DoneMember(batches, k, p[1]);
    j :| 0 <= j < k && p[1] in batches[j];
    if 2 < |p| {
      forall m | 0 <= m < |p| - 2 ensures p[1..][m + 1] in Next(a, p[1..][m]) {
        assert p[m + 1 + 1] in Next(a, p[m + 1]);
      }
      j := WalkGoesToEarlierBatch(a, able, batches, j, p[1..]);
    }
  }

  lemma DoneNotDoomed(a: Adjacency, able: set<Id>, batches: seq<seq<Id>>, k: nat, s: Id)
    requires Layered(a, able, batches) && k < |batches| && s in batches[k]
    ensures !Doomed(a, able, s)
  {
    forall t | t == s || Reaches(a, s, t) ensures t in able && !Reaches(a, t, t) {
      var i := k;
      if t != s {
        var p :| Connects(a, p, s, t);
        i := WalkGoesToEarlierBatch(a, able, batches, k, p);
      }
      assert IsLayer(a, able, batches, i);
      assert t in Elements(batches[i]);
      if q :| Connects(a, q, t, t) {
        var j := WalkGoesToEarlierBatch(a, able, batches, i, q);
        InOneBatch(a, able, batches, i, j, t);
        assert false;
      }
    }
  }

  /**
   * From an id that is never done one can go on through such ids until one that is not able or one
   * already met turns up. `path` is the way so far, all of it in `left`.
   */
  lemma {:induction false} LeftLeadsToDoom(a: Adjacency, able: set<Id>, left: set<Id>, path: seq<Id>)
    requires forall t :: t in left ==> t !in able || exists v :: v in Next(a, t) && v in left
    requires path != [] && IsWalk(a, path) && Distinct(path) && Elements(path) <= left
    ensures Doomed(a, able, path[0])
    decreases left - Elements(path)
  {
    var t := path[|path| - 1];
    assert t in Elements(path);
    if path[0] != t {
      assert Connects(a, path, path[0], t);
    }
    if t in able {
      var v :| v in Next(a, t) && v in left;
      if v in path {
        var k :| 0 <= k < |path| && path[k] == v;
        ClosedWalk(a, path, v);
        if v != path[0] {
          assert Connects(a, path[..k + 1], path[0], v);
        }
      } else {
        var longer := path + [v];
        assert Elements(longer) == Elements(path) + {v};
        LeftLeadsToDoom(a, able, left, longer);
      }
    }
  }

  /**
   * Left out if and only if doomed. `chosen` is what there was to schedule; dependencies outside it
   * are not in `a`.
   */
  lemma LeftOutIffDoomed(a: Adjacency, able: set<Id>, batches: seq<seq<Id>>, chosen: set<Id>, s: Id)
    requires Layered(a, able, batches) && Exhausted(a, able, batches)
    requires s in chosen && forall u, v :: v in Next(a, u) ==> v in chosen
    ensures s !in Done(batches, |batches|) <==> Doomed(a, able, s)
  {
    var done := Done(batches, |batches|);
    DoneMember(batches, |batches|, s);
    if s in done {
      var k :| 0 <= k < |batches| && s in batches[k];
      DoneNotDoomed(a, able, batches, k, s);
    } else {
      forall t | t in chosen - done ensures t !in able || exists v :: v in Next(a, t) && v in chosen - done {
        assert t !in Startable(a, able, done);
      }
      LeftLeadsToDoom(a, able, chosen - done, [s]);
    }
  }
}
