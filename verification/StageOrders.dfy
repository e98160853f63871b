/**
 * When running stages level after level, in any order inside a level, always leaves what the given
 * order leaves: exactly when the declared files are undisturbed.
 */
module StageOrders {
  import opened Sequences
  import opened Walks
  import opened StageRuns

  /** `order` lists the stages by index, each once. */
  ghost predicate IsOrder(order: seq<nat>, n: nat) {
    && |order| == n && Distinct(order)
    && (forall a :: 0 <= a < n ==> order[a] < n)
    && forall i :: 0 <= i < n ==> i in order
  }

  /** Level after level, in any order inside a level. */
  ghost predicate RespectsLevels(order: seq<nat>, levels: seq<nat>) {
    && IsOrder(order, |levels|)
    && forall a, b :: 0 <= a < b < |order| ==> levels[order[a]] <= levels[order[b]]
  }

  ghost function Reordered(stages: seq<StageConfig>, order: seq<nat>): (r: seq<StageConfig>)
    requires IsOrder(order, |stages|)
    ensures |r| == |stages| && forall a :: 0 <= a < |r| ==> r[a] == stages[order[a]]
  {
    seq(|order|, a requires 0 <= a < |order| => stages[order[a]])
  }

  /** Each stage succeeds or fails as in the given order, and the files end up the same. */
  ghost predicate SameRun(run: Runner, stages: seq<StageConfig>, files: Files, order: seq<nat>)
    requires IsOrder(order, |stages|)
  {
    var other := Reordered(stages, order);
    && (forall a :: 0 <= a < |order| ==> SucceedsAt(run, other, files, a) == SucceedsAt(run, stages, files, order[a]))
    && After(run, other, files, |order|) == After(run, stages, files, |stages|)
  }

  ghost predicate TouchesDeclared(run: Runner, stages: seq<StageConfig>) {
    forall i :: 0 <= i < |stages| ==> TouchesDeclaredOnly(run, stages[i])
  }

  // ----- undisturbed files suffice -----

  /** The stages that have run before position `k`. */
  ghost function RunBy(stages: seq<StageConfig>, order: seq<nat>, k: nat): set<Id>
    requires IsOrder(order, |stages|) && k <= |order|
  {
    set a | 0 <= a < k :: stages[order[a]].id
  }

  lemma TurnAtLevel(stages: seq<StageConfig>, levels: seq<nat>, order: seq<nat>, k: nat)
    requires |levels| == |stages| && UniqueIds(stages) && RespectsLevels(order, levels) && k < |order|
    ensures AtLevel(stages, levels, RunBy(stages, order, k), levels[order[k]])
    ensures stages[order[k]].id !in RunBy(stages, order, k)
  {
    forall j | 0 <= j < |stages| && levels[j] < levels[order[k]] ensures stages[j].id in RunBy(stages, order, k) {
      var a := PositionOf(order, j);
    }
  }

  lemma OverlayIsRun(run: Runner, stage: StageConfig, files: Files)
    requires TouchesDeclaredOnly(run, stage)
    ensures Overlay(files, stage.outputs, run(stage, files).files) == run(stage, files).files
  {
    forall f ensures SameAt(Overlay(files, stage.outputs, run(stage, files).files), run(stage, files).files, f) {
    }
    SameEverywhere(Overlay(files, stage.outputs, run(stage, files).files), run(stage, files).files);
  }

  /** One turn of a run that respects the levels. */
  lemma OrderTurn(run: Runner, stages: seq<StageConfig>, levels: seq<nat>, files: Files, order: seq<nat>, k: nat, now: Files)
    requires |levels| == |stages| && WellBehaved(run, stages, levels)
    requires RespectsLevels(order, levels) && k < |order|
    requires Merged(run, stages, levels, files, RunBy(stages, order, k), now)
    ensures Merged(run, stages, levels, files, RunBy(stages, order, k + 1), run(stages[order[k]], now).files)
    ensures run(stages[order[k]], now).success == SucceedsAt(run, stages, files, order[k])
  {
    hide Merged, AtLevel, FeedersFirst, Undisturbed, TouchesDeclaredOnly, UniqueIds, After, SucceedsAt, Overlay;
    var i, done := order[k], RunBy(stages, order, k);
    TurnAtLevel(stages, levels, order, k);
    SameOutcome(run, stages, levels, files, done, now, i);
    FinishKeepsMerged(run, stages, levels, files, done, now, i, run(stages[i], now).files);
    OverlayIsRun(run, stages[i], now);
    assert RunBy(stages, order, k + 1) == done + {stages[i].id};
  }

  lemma {:induction false} OrderKeepsMerged(run: Runner, stages: seq<StageConfig>, levels: seq<nat>, files: Files,
                                            order: seq<nat>, k: nat)
    requires |levels| == |stages| && WellBehaved(run, stages, levels)
    requires RespectsLevels(order, levels) && k <= |order|
    ensures Merged(run, stages, levels, files, RunBy(stages, order, k), After(run, Reordered(stages, order), files, k))
  {
    hide Merged, WellBehaved, IsOrder;
    if k == 0 {
      NothingMerged(run, stages, levels, files);
      assert RunBy(stages, order, 0) == {};
    } else {
      OrderKeepsMerged(run, stages, levels, files, order, k - 1);
      OrderTurn(run, stages, levels, files, order, k - 1, After(run, Reordered(stages, order), files, k - 1));
    }
  }

  lemma NothingMerged(run: Runner, stages: seq<StageConfig>, levels: seq<nat>, files: Files)
    requires |levels| == |stages|
    ensures Merged(run, stages, levels, files, {}, files)
  {
  }

  /** Undisturbed files make every order that respects the levels as good as the given one. */
  lemma OrderSameRun(run: Runner, stages: seq<StageConfig>, levels: seq<nat>, files: Files, order: seq<nat>)
    requires |levels| == |stages| && WellBehaved(run, stages, levels) && RespectsLevels(order, levels)
    ensures SameRun(run, stages, files, order)
  {
    hide Merged, WellBehaved;
    var other := Reordered(stages, order);
    forall a | 0 <= a < |order| ensures SucceedsAt(run, other, files, a) == SucceedsAt(run, stages, files, order[a]) {
      OrderKeepsMerged(run, stages, levels, files, order, a);
      OrderTurn(run, stages, levels, files, order, a, After(run, other, files, a));
    }
    OrderKeepsMerged(run, stages, levels, files, order, |order|);
    EveryStageRun(stages, order);
    AllDone(run, stages, levels, files, RunBy(stages, order, |order|), After(run, other, files, |order|));
  }

  lemma EveryStageRun(stages: seq<StageConfig>, order: seq<nat>)
    requires IsOrder(order, |stages|)
    ensures forall i :: 0 <= i < |stages| ==> stages[i].id in RunBy(stages, order, |order|)
  {
    forall i | 0 <= i < |stages| ensures stages[i].id in RunBy(stages, order, |order|) {
      var a := PositionOf(order, i);
    }
  }

  lemma PositionOf(order: seq<nat>, i: nat) returns (a: nat)
    requires i in order
    ensures a < |order| && order[a] == i
  {
    a :| 0 <= a < |order| && order[a] == i;
  }

  // ----- and they are needed -----

  /** Writes its own id to each of its outputs. */
  function Signed(stage: StageConfig, files: Files): Files {
    files + map f | f in stage.outputs :: stage.id
  }

  function ContentOf(files: Files, f: File): Option<string> {
    if f in files then Some(files[f]) else None
  }

  /** Every stage signs its outputs; stage `watched` fails unless it finds `expected` at `f`. */
  function Watcher(watched: Option<Id>, f: File, expected: Option<string>): Runner {
    (stage, files) => StageOutcome(Signed(stage, files), watched == Some(stage.id) ==> ContentOf(files, f) == expected)
  }

  lemma WatcherTouchesDeclared(watched: Option<Id>, f: File, expected: Option<string>, stage: StageConfig)
    requires watched == Some(stage.id) ==> f in stage.inputs
    ensures TouchesDeclaredOnly(Watcher(watched, f, expected), stage)
  {
    forall a, b | AgreeOn(stage.inputs, a, b)
      ensures Watcher(watched, f, expected)(stage, a).success == Watcher(watched, f, expected)(stage, b).success
    {
      assert f in stage.inputs ==> SameAt(a, b, f);
    }
  }

  /** With signing stages a file holds the name of its last writer so far, and nothing without one. */
  lemma {:induction false} HoldsSignature(watched: Option<Id>, g: File, expected: Option<string>,
                                          stages: seq<StageConfig>, k: nat, f: File, s: int)
    requires k <= |stages| && -1 <= s < k
    requires s >= 0 ==> IsSource(stages, k, f, s)
    requires s == -1 ==> forall v :: 0 <= v < k ==> !Writes(stages, v, f)
    ensures ContentOf(After(Watcher(watched, g, expected), stages, map[], k), f) ==
            if s >= 0 then Some(stages[s].id) else None
  {
    if k > 0 {
      if s == k - 1 {
        assert Writes(stages, s, f);
      } else {
        assert !Writes(stages, k - 1, f);
        HoldsSignature(watched, g, expected, stages, k - 1, f, s);
      }
    }
  }

  // ----- an order by keys -----

  lemma {:induction false} InsertionPoint(keys: seq<nat>, order: seq<nat>, key: nat) returns (p: nat)
    requires forall a :: 0 <= a < |order| ==> order[a] < |keys|
    requires forall a, b :: 0 <= a < b < |order| ==> keys[order[a]] <= keys[order[b]]
    ensures p <= |order|
    ensures forall a :: 0 <= a < p ==> keys[order[a]] <= key
    ensures forall a :: p <= a < |order| ==> key <= keys[order[a]]
  {
    p := 0;
    while p < |order| && keys[order[p]] <= key
      invariant p <= |order| && forall a :: 0 <= a < p ==> keys[order[a]] <= key
    {
      p := p + 1;
    }
  }

  function InsertedAt(front: seq<nat>, p: nat, n: nat): (r: seq<nat>)
    requires p <= |front|
    ensures |r| == |front| + 1
    ensures forall a :: 0 <= a < |r| ==> r[a] == if a < p then front[a] else if a == p then n else front[a - 1]
  {
    front[..p] + [n] + front[p..]
  }

  lemma InsertKeepsOrder(front: seq<nat>, p: nat, n: nat)
    requires IsOrder(front, n) && p <= n
    ensures IsOrder(InsertedAt(front, p, n), n + 1)
  {
    var order := InsertedAt(front, p, n);
    forall i | 0 <= i <= n ensures i in order {
      if i == n {
        assert order[p] == n;
      } else {
        var a := PositionOf(front, i);
        assert order[if a < p then a else a + 1] == i;
      }
    }
  }

  lemma {:induction false} SortedOrder(keys: seq<nat>) returns (order: seq<nat>)
    ensures RespectsLevels(order, keys)
  {
    hide IsOrder;
    if keys == [] {
      order := [];
      assert IsOrder(order, 0) by { EmptyOrder(); }
    } else {
      var n := |keys| - 1;
      var front := SortedOrder(keys[..n]);
      OrderBounds(front, n);
      var p := InsertionPoint(keys[..n], front, keys[n]);
      order := InsertedAt(front, p, n);
      InsertKeepsOrder(front, p, n);
      OrderBounds(order, n + 1);
    }
  }

  lemma EmptyOrder()
    ensures IsOrder([], 0)
  {
  }

  lemma OrderBounds(order: seq<nat>, n: nat)
    requires IsOrder(order, n)
    ensures |order| == n && forall a :: 0 <= a < n ==> order[a] < n
  {
  }

  /** In an order by keys what has the lower key comes first. */
  lemma KeysPlace(keys: seq<nat>, order: seq<nat>, i: nat, j: nat, a: nat, b: nat)
    requires RespectsLevels(order, keys) && a < |order| && b < |order| && order[a] == i && order[b] == j
    requires i < |keys| && j < |keys| && keys[i] < keys[j]
    ensures a < b
  {
  }

  /** Stage `first` as early and stage `last` as late as their levels allow. */
  ghost function Favouring(levels: seq<nat>, first: int, last: int): (keys: seq<nat>)
    ensures |keys| == |levels|
    ensures forall i :: 0 <= i < |keys| ==>
              keys[i] == 3 * levels[i] + if i == first then 0 else if i == last then 2 else 1
  {
    seq(|levels|, i requires 0 <= i < |levels| => 3 * levels[i] + if i == first then 0 else if i == last then 2 else 1)
  }

  lemma FavouringRespects(levels: seq<nat>, first: int, last: int, order: seq<nat>)
    requires RespectsLevels(order, Favouring(levels, first, last))
    ensures RespectsLevels(order, levels)
  {
    var keys := Favouring(levels, first, last);
    forall a, b | 0 <= a < b < |order| ensures levels[order[a]] <= levels[order[b]] {
      assert keys[order[a]] <= keys[order[b]];
    }
  }

  /** In some order that respects the levels, stage `w` comes after `s`, if there is one, and before `i`, if there is one. */
  lemma PlacedBetween(levels: seq<nat>, s: int, w: nat, i: int) returns (order: seq<nat>, at: nat)
    requires -1 <= s < |levels| && w < |levels| && 0 <= i <= |levels| && s != w && w != i && s != i
    requires s >= 0 ==> levels[s] <= levels[w]
    requires i < |levels| ==> levels[w] <= levels[i]
    ensures RespectsLevels(order, levels)
    ensures at < |order| && order[at] == w
    ensures forall a :: 0 <= a < |order| ==> (order[a] == s ==> a < at) && (order[a] == i ==> at < a)
  {
    var keys := Favouring(levels, s, i);
    order := SortedOrder(keys);
    FavouringRespects(levels, s, i, order);
    at := PositionOf(order, w);
    forall a | 0 <= a < |order|
      ensures order[a] == s ==> a < at
      ensures order[a] == i ==> at < a
    {
      if order[a] == s {
        KeysPlace(keys, order, s, w, a, at);
      } else if order[a] == i {
        KeysPlace(keys, order, w, i, at, a);
      }
    }
  }

  /** A file that another stage can write in between lets the reader find what it should not. */
  lemma DisturbedSource(stages: seq<StageConfig>, levels: seq<nat>, i: nat, f: File, w: nat)
    returns (run: Runner, order: seq<nat>)
    requires |levels| == |stages| && UniqueIds(stages) && i < |stages| && f in stages[i].inputs
    requires Writes(stages, w, f) && w != i && !SourceKept(stages, levels, i, f, w)
    ensures TouchesDeclared(run, stages) && RespectsLevels(order, levels) && !SameRun(run, stages, map[], order)
  {
    hide TouchesDeclaredOnly, After, Watcher;
    var s := LastWriter(stages, i, f);
    var expected := if s >= 0 then Some(stages[s].id) else None;
    run := Watcher(Some(stages[i].id), f, expected);
    SigningTouchesDeclared(stages, i, f, expected);
    var at;
    order, at := PlacedBetween(levels, s, w, i);
    var other := Reordered(stages, order);
    var b := PositionOf(order, i);
    assert Writes(other, at, f);
    var v := LastWriter(other, b, f);
    HoldsSignature(Some(stages[i].id), f, expected, stages, i, f, s);
    HoldsSignature(Some(stages[i].id), f, expected, other, b, f, v);
    WatcherSucceedsIff(Some(stages[i].id), f, expected, stages, i);
    WatcherSucceedsIff(Some(stages[i].id), f, expected, other, b);
    assert at <= v && other[v].id == stages[order[v]].id;
    assert !SucceedsAt(run, other, map[], b);
  }

  lemma SigningTouchesDeclared(stages: seq<StageConfig>, i: nat, f: File, expected: Option<string>)
    requires UniqueIds(stages) && i < |stages| && f in stages[i].inputs
    ensures TouchesDeclared(Watcher(Some(stages[i].id), f, expected), stages)
  {
    forall k | 0 <= k < |stages| ensures TouchesDeclaredOnly(Watcher(Some(stages[i].id), f, expected), stages[k]) {
      WatcherTouchesDeclared(Some(stages[i].id), f, expected, stages[k]);
    }
  }

  lemma WatcherSucceedsIff(watched: Option<Id>, f: File, expected: Option<string>, stages: seq<StageConfig>, i: nat)
    requires i < |stages|
    ensures SucceedsAt(Watcher(watched, f, expected), stages, map[], i) <==>
            watched != Some(stages[i].id) || ContentOf(After(Watcher(watched, f, expected), stages, map[], i), f) == expected
  {
  }

  /** A file whose last writer can come before another writer ends up different. */
  lemma DisturbedLast(stages: seq<StageConfig>, levels: seq<nat>, f: File, w: nat)
    returns (run: Runner, order: seq<nat>)
    requires |levels| == |stages| && UniqueIds(stages)
    requires Writes(stages, w, f) && !LastKept(stages, levels, f, w)
    ensures TouchesDeclared(run, stages) && RespectsLevels(order, levels) && !SameRun(run, stages, map[], order)
  {
    hide TouchesDeclaredOnly, After, Watcher;
    var s := LastWriter(stages, |stages|, f);
    run := Watcher(None, f, None);
    forall k | 0 <= k < |stages| ensures TouchesDeclaredOnly(run, stages[k]) {
      WatcherTouchesDeclared(None, f, None, stages[k]);
    }
    var at;
    order, at := PlacedBetween(levels, s, w, |stages|);
    var other := Reordered(stages, order);
    assert Writes(other, at, f);
    var v := LastWriter(other, |order|, f);
    HoldsSignature(None, f, None, stages, |stages|, f, s);
    HoldsSignature(None, f, None, other, |order|, f, v);
    assert at <= v && other[v].id == stages[order[v]].id;
  }

  /**
   * Running stages level after level gives the same results as running them one by one, whatever
   * stages with these declared files do, if and only if the files are undisturbed.
   */
  lemma SameRunIffUndisturbed(stages: seq<StageConfig>, levels: seq<nat>)
    requires |levels| == |stages| && UniqueIds(stages) && FeedersFirst(stages, levels)
    ensures Undisturbed(stages, levels) <==>
            forall run: Runner, files: Files, order: seq<nat> ::
              TouchesDeclared(run, stages) && RespectsLevels(order, levels) ==> SameRun(run, stages, files, order)
  {
    hide SameRun, IsOrder, TouchesDeclaredOnly, SourceKept, LastKept, FeedersFirst, UniqueIds;
    if Undisturbed(stages, levels) {
      forall run: Runner, files: Files, order: seq<nat> | TouchesDeclared(run, stages) && RespectsLevels(order, levels)
        ensures SameRun(run, stages, files, order)
      {
        OrderSameRun(run, stages, levels, files, order);
      }
    } else if !SourcesKept(stages, levels) {
      var i, w, f :| 0 <= i < |stages| && Writes(stages, w, f) && w != i && f in stages[i].inputs &&
                     !SourceKept(stages, levels, i, f, w);
      var run, order := DisturbedSource(stages, levels, i, f, w);
    } else {
      var w, f :| Writes(stages, w, f) && !LastKept(stages, levels, f, w);
      var run, order := DisturbedLast(stages, levels, f, w);
    }
  }

  // ----- simpler conditions that suffice -----

  /** No two stages write the same file, and none writes what an earlier one reads. */
  ghost predicate WritersApart(stages: seq<StageConfig>) {
    forall i, j, f :: 0 <= i < j < |stages| && Writes(stages, j, f) ==>
      f !in stages[i].outputs && f !in stages[i].inputs
  }

  /** A stage that writes what an earlier one reads or writes is on a higher level. */
  ghost predicate ConflictsOrdered(stages: seq<StageConfig>, levels: seq<nat>)
    requires |levels| == |stages|
  {
    forall i, j, f :: 0 <= i < j < |stages| && Writes(stages, j, f) ==>
      f in stages[i].outputs || f in stages[i].inputs ==> levels[i] < levels[j]
  }

  lemma OrderedConflictsSuffice(stages: seq<StageConfig>, levels: seq<nat>)
    requires |levels| == |stages|
    ensures WritersApart(stages) ==> ConflictsOrdered(stages, levels)
    ensures ConflictsOrdered(stages, levels) ==> Undisturbed(stages, levels)
  {
    if ConflictsOrdered(stages, levels) {
      forall i, w, f | 0 <= i < |stages| && Writes(stages, w, f) && w != i && f in stages[i].inputs
        ensures SourceKept(stages, levels, i, f, w)
      {
        var s := LastWriter(stages, i, f);
        if w < s {
          assert IsSource(stages, i, f, s);
        }
      }
      forall w, f | Writes(stages, w, f) ensures LastKept(stages, levels, f, w) {
        var s := LastWriter(stages, |stages|, f);
        if w < s {
          assert IsSource(stages, |stages|, f, s);
        }
      }
    }
  }

  /** A stage may write what an earlier one reads if it has to wait for that one anyway. */
  lemma WritersNeedNotBeApart(stages: seq<StageConfig>)
    requires stages == [StageConfig("there", ["x"], ["y"]), StageConfig("back", ["y"], ["x"])]
    ensures !WritersApart(stages)
    ensures FeedersFirst(stages, [0, 1]) && ConflictsOrdered(stages, [0, 1])
  {
    assert Writes(stages, 1, "x") && "x" in stages[0].inputs;
  }

  /** Two stages of one level may even write the same file if a later one overwrites it before it is read. */
  lemma ConflictsNeedNotBeOrdered(stages: seq<StageConfig>)
    requires stages == [StageConfig("plan", [], ["a"]), StageConfig("left", ["a"], ["log", "b"]),
                        StageConfig("right", ["a"], ["log"]), StageConfig("last", ["b"], ["log"])]
    ensures FeedersFirst(stages, [0, 1, 1, 2])
    ensures !ConflictsOrdered(stages, [0, 1, 1, 2]) && Undisturbed(stages, [0, 1, 1, 2])
  {
    var levels: seq<nat> := [0, 1, 1, 2];
    assert Writes(stages, 2, "log") && "log" in stages[1].outputs;
    forall i, w, f | 0 <= i < 4 && Writes(stages, w, f) && w != i && f in stages[i].inputs
      ensures SourceKept(stages, levels, i, f, w)
    {
      assert IsSource(stages, i, f, w);
    }
    forall w, f | Writes(stages, w, f) ensures LastKept(stages, levels, f, w) {
      if f == "log" {
        assert IsSource(stages, 4, f, 3);
      } else {
        assert IsSource(stages, 4, f, w);
      }
    }
  }
}
