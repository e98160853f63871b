/** Running the stages of a pipeline in parallel batches. */
module ParallelExecutor {
  import opened Sequences
  import opened Walks
  import opened Layers
  import opened StageRuns
  import opened StageOrders

  /** `order` lists the keys of `stages` as the JavaScript map iterates over them. */
  datatype StageGraph = StageGraph(stages: map<Id, StageConfig>, order: seq<Id>, dependencies: Adjacency)

  datatype StageResult = StageResult(stageId: Id, success: bool)

  datatype Error = CircularDependency | StagesFailed(ids: seq<Id>)

  // ----- the dependencies -----

  /** The ids of the first `j` stages that feed stage `i`. */
  function FeedersAmong(stages: seq<StageConfig>, i: nat, j: nat): (r: seq<Id>)
    requires i < |stages| && j <= i
    ensures forall k :: 0 <= k < j && Feeds(stages[k], stages[i]) ==> stages[k].id in r
    ensures forall v :: v in r ==> exists k :: 0 <= k < j && v == stages[k].id && Feeds(stages[k], stages[i])
  {
    if j == 0 then []
    else FeedersAmong(stages, i, j - 1) + if Feeds(stages[j - 1], stages[i]) then [stages[j - 1].id] else []
  }

  /** The stages that feed stage `i`, or else the one before it. */
  function DependenciesOf(stages: seq<StageConfig>, i: nat): (r: seq<Id>)
    requires i < |stages|
    ensures r == [] <==> i == 0
    ensures forall v :: v in r ==> exists k :: 0 <= k < i && v == stages[k].id
  {
    var feeders := FeedersAmong(stages, i, i);
    assert feeders != [] ==> feeders[0] in feeders;
    if feeders == [] && i > 0 then [stages[i - 1].id] else feeders
  }

  /** Some earlier stage feeds stage `i`. */
  ghost predicate HasFeeder(stages: seq<StageConfig>, i: nat)
    requires i < |stages|
  {
    exists k :: 0 <= k < i && Feeds(stages[k], stages[i])
  }

  /**
   * The stage waits for exactly the earlier stages that feed it, and for the one right before it if
   * there is none.
   */
  ghost predicate WaitsAsDeclared(stages: seq<StageConfig>, i: nat, dependencies: seq<Id>)
    requires i < |stages|
  {
    if i > 0 && !HasFeeder(stages, i) then dependencies == [stages[i - 1].id]
    else forall v :: v in dependencies <==> exists k :: 0 <= k < i && v == stages[k].id && Feeds(stages[k], stages[i])
  }

  lemma DependenciesExactly(stages: seq<StageConfig>, i: nat)
    requires i < |stages|
    ensures WaitsAsDeclared(stages, i, DependenciesOf(stages, i))
  {
    var feeders := FeedersAmong(stages, i, i);
    if HasFeeder(stages, i) {
      var k :| 0 <= k < i && Feeds(stages[k], stages[i]);
      assert stages[k].id in feeders;
    } else {
      SomeMember(feeders);
    }
  }

  ghost predicate DependsOn(stages: seq<StageConfig>, i: nat, k: nat)
    requires i < |stages| && k < |stages|
  {
    stages[k].id in DependenciesOf(stages, i)
  }

  ghost predicate BuiltFrom(graph: StageGraph, stages: seq<StageConfig>) {
    && graph.order == Ids(stages)
    && graph.stages.Keys == graph.dependencies.Keys == Elements(Ids(stages))
    && forall i :: 0 <= i < |stages| ==>
         && graph.stages[stages[i].id] == stages[i]
         && graph.dependencies[stages[i].id] == DependenciesOf(stages, i)
  }

  /** The length of the longest chain of dependencies below stage `i`. */
  ghost function Depth(stages: seq<StageConfig>, i: nat): nat
    requires i < |stages|
    decreases i, i + 1
  {
    DepthBelow(stages, i, i)
  }

  ghost function DepthBelow(stages: seq<StageConfig>, i: nat, j: nat): nat
    requires i < |stages| && j <= i
    decreases i, j
  {
    if j == 0 then 0
    else
      var rest := DepthBelow(stages, i, j - 1);
      if DependsOn(stages, i, j - 1) then Max(rest, 1 + Depth(stages, j - 1)) else rest
  }

  lemma {:induction false} DepthBelowIsMax(stages: seq<StageConfig>, i: nat, j: nat)
    requires i < |stages| && j <= i
    ensures forall k :: 0 <= k < j && DependsOn(stages, i, k) ==>
              Depth(stages, k) < DepthBelow(stages, i, j)
    ensures DepthBelow(stages, i, j) == 0 ||
            exists k :: 0 <= k < j && DependsOn(stages, i, k) &&
                        DepthBelow(stages, i, j) == 1 + Depth(stages, k)
  {
    hide DependsOn;
    if j > 0 {
      DepthBelowIsMax(stages, i, j - 1);
    }
  }

  ghost function Depths(stages: seq<StageConfig>): (r: seq<nat>)
    ensures |r| == |stages| && forall i :: 0 <= i < |r| ==> r[i] == Depth(stages, i)
  {
    seq(|stages|, i requires 0 <= i < |stages| => Depth(stages, i))
  }

  lemma FeedersBelow(stages: seq<StageConfig>)
    ensures FeedersFirst(stages, Depths(stages))
  {
    hide Feeds;
    forall i, j | 0 <= i < j < |stages| && Feeds(stages[i], stages[j]) ensures Depth(stages, i) < Depth(stages, j) {
      FeederIsDependency(stages, j, i);
      DepthBelowIsMax(stages, j, j);
    }
  }

  lemma FeederIsDependency(stages: seq<StageConfig>, i: nat, j: nat)
    requires j < i < |stages| && Feeds(stages[j], stages[i])
    ensures DependsOn(stages, i, j)
  {
    assert stages[j].id in FeedersAmong(stages, i, i);
  }

  /**
   * What is asked of the stages: different ids, stages that touch declared files only, and declared
   * files that are undisturbed when the batches run one after the other.
   */
  ghost predicate Runnable(run: Runner, stages: seq<StageConfig>) {
    && UniqueIds(stages) && TouchesDeclared(run, stages) && Undisturbed(stages, Depths(stages))
  }

  lemma RunnableBehaves(run: Runner, stages: seq<StageConfig>)
    requires Runnable(run, stages)
    ensures WellBehaved(run, stages, Depths(stages)) && UniqueIds(stages)
  {
    FeedersBelow(stages);
  }

  // ----- the batches -----

  /** Nothing is left when nothing can start any more: the dependencies point backwards. */
  lemma {:induction false} NothingIsStuck(graph: StageGraph, stages: seq<StageConfig>, done: set<Id>, i: nat)
    requires BuiltFrom(graph, stages) && i < |stages|
    requires Startable(graph.dependencies, graph.stages.Keys, done) <= done
    ensures stages[i].id in done
  {
    var id := stages[i].id;
    assert Ids(stages)[i] == id;
    forall v | v in Next(graph.dependencies, id) ensures v in done {
      var k :| 0 <= k < i && v == stages[k].id;
      NothingIsStuck(graph, stages, done, k);
    }
    assert id in Startable(graph.dependencies, graph.stages.Keys, done);
  }

  /** Every dependency of stage `i` is an earlier stage. */
  lemma DependencyIsStage(graph: StageGraph, stages: seq<StageConfig>, i: nat, v: Id) returns (j: nat)
    requires BuiltFrom(graph, stages) && i < |stages| && v in Next(graph.dependencies, stages[i].id)
    ensures j < i && stages[j].id == v && DependsOn(stages, i, j)
  {
    assert Ids(stages)[i] == stages[i].id;
    j :| 0 <= j < i && v == stages[j].id;
  }

  lemma StageDependency(graph: StageGraph, stages: seq<StageConfig>, i: nat, j: nat)
    requires BuiltFrom(graph, stages) && i < |stages| && j < |stages| && DependsOn(stages, i, j)
    ensures stages[j].id in Next(graph.dependencies, stages[i].id)
  {
    assert Ids(stages)[i] == stages[i].id;
  }

  /** The batch of a stage is the length of its longest chain of dependencies. */
  lemma {:induction false} BatchIsDepth(graph: StageGraph, stages: seq<StageConfig>, batches: seq<seq<Id>>, k: nat, i: nat)
    requires BuiltFrom(graph, stages)
    requires Layered(graph.dependencies, graph.stages.Keys, batches)
    requires i < |stages| && k < |batches| && stages[i].id in batches[k]
    ensures k == Depth(stages, i)
    decreases i
  {
    hide BuiltFrom, Layered, DependsOn, DependenciesOf, Next;
    BatchNumber(graph.dependencies, graph.stages.Keys, batches, k, stages[i].id);
    DepthBelowIsMax(stages, i, i);
    forall j | 0 <= j < i && DependsOn(stages, i, j) ensures Depth(stages, j) < k {
      StageDependency(graph, stages, i, j);
      DoneMember(batches, k, stages[j].id);
      var m :| 0 <= m < k && stages[j].id in batches[m];
      BatchIsDepth(graph, stages, batches, m, j);
    }
    if k > 0 {
      var v :| v in Next(graph.dependencies, stages[i].id) && v in batches[k - 1];
      var j := DependencyIsStage(graph, stages, i, v);
      BatchIsDepth(graph, stages, batches, k - 1, j);
    }
  }

  /** Batch 0 holds the first stage and no other. */
  lemma FirstBatch(graph: StageGraph, stages: seq<StageConfig>, batches: seq<seq<Id>>)
    requires BuiltFrom(graph, stages)
    requires Layered(graph.dependencies, graph.stages.Keys, batches) && batches != []
    ensures stages != [] && batches[0] == [stages[0].id]
  {
    hide DependenciesOf, Layered, Startable;
    assert Distinct(batches[0]) && batches[0] != [] &&
           forall id :: id in batches[0] ==> stages != [] && id == stages[0].id by {
      forall id | id in batches[0] ensures stages != [] && id == stages[0].id {
        InFirstBatch(graph, stages, batches, id);
      }
      LayerShape(graph.dependencies, graph.stages.Keys, batches, 0);
    }
    TwoMembers(batches[0]);
  }

  /** A stage that nothing feeds runs in the batch right after the stage before it. */
  lemma UnfedFollowsPrevious(graph: StageGraph, stages: seq<StageConfig>, batches: seq<seq<Id>>, i: nat, k: nat, m: nat)
    requires BuiltFrom(graph, stages) && Layered(graph.dependencies, graph.stages.Keys, batches)
    requires 0 < i < |stages| && !HasFeeder(stages, i) && k < |batches| && m < |batches|
    requires stages[i - 1].id in batches[k] && stages[i].id in batches[m]
    ensures m == k + 1
  {
    hide DependenciesOf, Layered;
    DependenciesExactly(stages, i);
    RightAfterLast(graph, stages, batches, i, m);
    InOneBatchOf(graph, batches, stages[i - 1].id, k);
  }

  /** A fed stage runs right after the last batch of those that feed it. */
  lemma FedFollowsFeeders(graph: StageGraph, stages: seq<StageConfig>, batches: seq<seq<Id>>, i: nat, m: nat)
    requires BuiltFrom(graph, stages) && Layered(graph.dependencies, graph.stages.Keys, batches)
    requires i < |stages| && HasFeeder(stages, i) && m < |batches| && stages[i].id in batches[m]
    ensures m > 0
    ensures forall j :: 0 <= j < i && Feeds(stages[j], stages[i]) ==> stages[j].id in Done(batches, m)
    ensures exists j :: 0 <= j < i && Feeds(stages[j], stages[i]) && stages[j].id in batches[m - 1]
  {
    hide DependenciesOf, Layered, Feeds;
    DependenciesExactly(stages, i);
    RightAfterLast(graph, stages, batches, i, m);
    var j :| 0 <= j < i && Feeds(stages[j], stages[i]);
    assert stages[j].id in DependenciesOf(stages, i);
  }

  lemma RightAfterLast(graph: StageGraph, stages: seq<StageConfig>, batches: seq<seq<Id>>, i: nat, m: nat)
    requires BuiltFrom(graph, stages) && Layered(graph.dependencies, graph.stages.Keys, batches)
    requires i < |stages| && m < |batches| && stages[i].id in batches[m]
    ensures forall v :: v in DependenciesOf(stages, i) ==> v in Done(batches, m)
    ensures m > 0 ==> exists v :: v in DependenciesOf(stages, i) && v in batches[m - 1]
    ensures m == 0 ==> DependenciesOf(stages, i) == []
  {
    hide DependenciesOf, Layered;
    assert Ids(stages)[i] == stages[i].id;
    BatchNumber(graph.dependencies, graph.stages.Keys, batches, m, stages[i].id);
    if m == 0 {
      SomeMember(DependenciesOf(stages, i));
    }
  }

  lemma InOneBatchOf(graph: StageGraph, batches: seq<seq<Id>>, id: Id, k: nat)
    requires Layered(graph.dependencies, graph.stages.Keys, batches) && k < |batches| && id in batches[k]
    ensures forall j :: 0 <= j < |batches| && id in batches[j] ==> j == k
  {
    hide Layered;
    forall j | 0 <= j < |batches| && id in batches[j] ensures j == k {
      InOneBatch(graph.dependencies, graph.stages.Keys, batches, j, k, id);
    }
  }

  lemma LayerShape(a: Adjacency, able: set<Id>, batches: seq<seq<Id>>, k: nat)
    requires Layered(a, able, batches) && k < |batches|
    ensures batches[k] != [] && Distinct(batches[k])
    ensures forall id :: id in batches[k] ==> id in able && id !in Done(batches, k) && Within(Next(a, id), Done(batches, k))
  {
    assert IsLayer(a, able, batches, k);
    assert forall id :: id in batches[k] ==> id in Elements(batches[k]);
  }

  lemma InFirstBatch(graph: StageGraph, stages: seq<StageConfig>, batches: seq<seq<Id>>, id: Id)
    requires BuiltFrom(graph, stages)
    requires Layered(graph.dependencies, graph.stages.Keys, batches) && batches != [] && id in batches[0]
    ensures stages != [] && id == stages[0].id
  {
    LayerShape(graph.dependencies, graph.stages.Keys, batches, 0);
    assert id in Elements(Ids(stages));
    var i :| 0 <= i < |stages| && Ids(stages)[i] == id;
    SomeMember(DependenciesOf(stages, i));
  }

  /** While batch `k` runs, all stages of lower depth are done and none of higher depth is. */
  lemma BatchAtLevel(graph: StageGraph, stages: seq<StageConfig>, batches: seq<seq<Id>>, k: nat)
    requires BuiltFrom(graph, stages)
    requires Layered(graph.dependencies, graph.stages.Keys, batches) && k < |batches|
    requires Done(batches, |batches|) == graph.stages.Keys
    ensures AtLevel(stages, Depths(stages), Done(batches, k), k)
    ensures forall id :: id in batches[k] ==> HasDepth(stages, id, k)
  {
    hide Layered, Depth, DependenciesOf;
    forall i | 0 <= i < |stages|
      ensures Depth(stages, i) < k ==> stages[i].id in Done(batches, k)
      ensures stages[i].id in Done(batches, k) ==> Depth(stages, i) <= k
      ensures stages[i].id in batches[k] ==> Depth(stages, i) == k
    {
      StageInBatch(graph, stages, batches, k, i);
    }
  }

  lemma StageInBatch(graph: StageGraph, stages: seq<StageConfig>, batches: seq<seq<Id>>, k: nat, i: nat)
    requires BuiltFrom(graph, stages) && i < |stages|
    requires Layered(graph.dependencies, graph.stages.Keys, batches) && k < |batches|
    requires Done(batches, |batches|) == graph.stages.Keys
    ensures Depth(stages, i) < k <==> stages[i].id in Done(batches, k)
    ensures stages[i].id in batches[k] ==> Depth(stages, i) == k
  {
    hide Layered, Depth, DependenciesOf;
    assert Ids(stages)[i] in Elements(Ids(stages));
    DoneMember(batches, |batches|, stages[i].id);
    DoneMember(batches, k, stages[i].id);
    forall m | 0 <= m < |batches| && stages[i].id in batches[m] ensures m == Depth(stages, i) {
      BatchIsDepth(graph, stages, batches, m, i);
    }
  }

  ghost predicate HasDepth(stages: seq<StageConfig>, id: Id, d: nat) {
    forall i :: 0 <= i < |stages| && stages[i].id == id ==> Depth(stages, i) == d
  }

  lemma OneMoreAtLevel(stages: seq<StageConfig>, done: set<Id>, id: Id, d: nat)
    requires AtLevel(stages, Depths(stages), done, d) && HasDepth(stages, id, d)
    ensures AtLevel(stages, Depths(stages), done + {id}, d)
  {
    hide Depth;
  }

  // ----- results -----

  /** `success` is what the stage named `id` reports in the given order. */
  ghost predicate ReportsAsInOrder(run: Runner, stages: seq<StageConfig>, initial: Files, id: Id, success: bool) {
    forall i :: 0 <= i < |stages| && stages[i].id == id ==> success == SucceedsAt(run, stages, initial, i)
  }

  /** What a stage that has run but not yet put its outputs in place will write and report. */
  ghost predicate RunsAsInOrder(run: Runner, stages: seq<StageConfig>, initial: Files, id: Id, outcome: StageOutcome) {
    && ReportsAsInOrder(run, stages, initial, id, outcome.success)
    && forall i :: 0 <= i < |stages| && stages[i].id == id ==>
         AgreeOn(stages[i].outputs, outcome.files, After(run, stages, initial, i + 1))
  }

  lemma StartsAsInOrder(run: Runner, stages: seq<StageConfig>, graph: StageGraph, initial: Files,
                        done: set<Id>, files: Files, id: Id, d: nat)
    requires Runnable(run, stages) && BuiltFrom(graph, stages)
    requires Merged(run, stages, Depths(stages), initial, done, files)
    requires AtLevel(stages, Depths(stages), done, d) && HasDepth(stages, id, d)
    requires id in graph.stages && id !in done
    ensures RunsAsInOrder(run, stages, initial, id, run(graph.stages[id], files))
  {
    hide Runnable, Merged, AtLevel, Depth, DependenciesOf, After, SucceedsAt, AgreeOn;
    RunnableBehaves(run, stages);
    forall i | 0 <= i < |stages| && stages[i].id == id
      ensures run(graph.stages[id], files).success == SucceedsAt(run, stages, initial, i)
      ensures AgreeOn(stages[i].outputs, run(graph.stages[id], files).files, After(run, stages, initial, i + 1))
    {
      SameOutcome(run, stages, Depths(stages), initial, done, files, i);
    }
  }

  lemma FinishesAsInOrder(run: Runner, stages: seq<StageConfig>, graph: StageGraph, initial: Files,
                          done: set<Id>, files: Files, id: Id, outcome: StageOutcome, d: nat)
    requires Runnable(run, stages) && BuiltFrom(graph, stages)
    requires Merged(run, stages, Depths(stages), initial, done, files)
    requires AtLevel(stages, Depths(stages), done, d) && HasDepth(stages, id, d)
    requires id in graph.stages && RunsAsInOrder(run, stages, initial, id, outcome)
    ensures ReportsAsInOrder(run, stages, initial, id, outcome.success)
    ensures Merged(run, stages, Depths(stages), initial, done + {id}, Overlay(files, graph.stages[id].outputs, outcome.files))
  {
    hide Runnable, Merged, AtLevel, Depth, DependenciesOf, After, AgreeOn, Overlay, UniqueIds;
    RunnableBehaves(run, stages);
    assert id in Elements(Ids(stages));
    var i :| 0 <= i < |stages| && Ids(stages)[i] == id;
    FinishKeepsMerged(run, stages, Depths(stages), initial, done, files, i, outcome.files);
  }

  class Executor {
    const maxConcurrent: nat

    constructor (maxConcurrent: nat)
      requires maxConcurrent > 0
      ensures this.maxConcurrent == maxConcurrent
    {
      this.maxConcurrent := maxConcurrent;
    }

    method HasOutputInputDependency(producer: StageConfig, consumer: StageConfig) returns (r: bool)
      ensures r <==> Feeds(producer, consumer)
      ensures r <==> exists f :: f in producer.outputs && f in consumer.inputs
    {
      for k := 0 to |producer.outputs|
        invariant forall f :: f in producer.outputs[..k] ==> f !in consumer.inputs
      {
        assert producer.outputs[..k + 1] == producer.outputs[..k] + [producer.outputs[k]];
        if producer.outputs[k] in consumer.inputs {
          return true;
        }
      }
      assert producer.outputs[..|producer.outputs|] == producer.outputs;
      r := false;
    }

    method FindDependencies(stages: seq<StageConfig>, i: nat) returns (deps: seq<Id>)
      requires i < |stages|
      ensures deps == DependenciesOf(stages, i)
      ensures WaitsAsDeclared(stages, i, deps)
    {
      hide WaitsAsDeclared, HasFeeder, Feeds;
      DependenciesExactly(stages, i);
      deps := [];
      for j := 0 to i
        invariant deps == FeedersAmong(stages, i, j)
      {
        var feeds := HasOutputInputDependency(stages[j], stages[i]);
        if feeds {
          deps := deps + [stages[j].id];
        }
      }
      if |deps| == 0 && i > 0 {
        deps := deps + [stages[i - 1].id];
      }
    }

    /** Enters every stage, for now without dependencies. */
    method EnterStages(stages: seq<StageConfig>) returns (configs: map<Id, StageConfig>, dependencies: Adjacency)
      requires UniqueIds(stages)
      ensures configs.Keys == dependencies.Keys == Elements(Ids(stages))
      ensures forall k :: 0 <= k < |stages| ==> stages[k].id in configs && configs[stages[k].id] == stages[k]
    {
      configs, dependencies := map[], map[];
      for i := 0 to |stages|
        invariant configs.Keys == dependencies.Keys == Elements(Ids(stages)[..i])
        invariant forall k :: 0 <= k < i ==> stages[k].id in configs && configs[stages[k].id] == stages[k]
      {
        assert Ids(stages)[..i + 1] == Ids(stages)[..i] + [stages[i].id];
        configs := configs[stages[i].id := stages[i]];
        dependencies := dependencies[stages[i].id := []];
      }
      assert Ids(stages)[..|stages|] == Ids(stages);
    }

    method BuildDependencyGraph(stages: seq<StageConfig>) returns (graph: StageGraph)
      requires UniqueIds(stages)
      ensures BuiltFrom(graph, stages)
      ensures forall i :: 0 <= i < |stages| ==>
                stages[i].id in graph.dependencies && WaitsAsDeclared(stages, i, graph.dependencies[stages[i].id])
    {
      hide DependenciesOf, WaitsAsDeclared, HasFeeder, Feeds;
      var configs, dependencies := EnterStages(stages);
      for i := 0 to |stages|
        invariant dependencies.Keys == configs.Keys
        invariant forall k :: 0 <= k < i ==>
                    stages[k].id in dependencies && dependencies[stages[k].id] == DependenciesOf(stages, k)
      {
        var deps := FindDependencies(stages, i);
        dependencies := dependencies[stages[i].id := deps];
      }
      graph := StageGraph(configs, Ids(stages), dependencies);
      forall i | 0 <= i < |stages| ensures WaitsAsDeclared(stages, i, DependenciesOf(stages, i)) {
        DependenciesExactly(stages, i);
      }
    }

    /** The remaining stages whose dependencies are all completed, in order. */
    method FindReady(graph: StageGraph, completed: set<Id>, remaining: seq<Id>) returns (batch: seq<Id>)
      requires Distinct(remaining) && Elements(remaining) <= graph.stages.Keys
      requires Follows(graph.order, remaining)
      ensures Distinct(batch) && Follows(graph.order, batch)
      ensures forall id :: id in batch <==>
                id in remaining && id in Startable(graph.dependencies, graph.stages.Keys, completed)
    {
      hide Follows;
      batch := [];
      NothingFollows(graph.order);
      for k := 0 to |remaining|
        invariant Distinct(batch) && Follows(graph.order, batch)
        invariant forall id :: id in batch <==>
                    id in remaining[..k] && id in Startable(graph.dependencies, graph.stages.Keys, completed)
      {
        assert remaining[..k + 1] == remaining[..k] + [remaining[k]];
        assert remaining[k] !in remaining[..k] && remaining[k] in Elements(remaining);
        if forall v :: v in Next(graph.dependencies, remaining[k]) ==> v in completed {
          FollowsSnoc(graph.order, remaining, batch, k);
          batch := batch + [remaining[k]];
        }
      }
      assert remaining[..|remaining|] == remaining;
    }

    /** Fails exactly when some stage can never start. */
    method BuildExecutionBatches(graph: StageGraph) returns (r: Result<seq<seq<Id>>, Error>)
      requires Distinct(graph.order) && Elements(graph.order) == graph.stages.Keys
      ensures r.Success? ==>
                && Layered(graph.dependencies, graph.stages.Keys, r.value)
                && Done(r.value, |r.value|) == graph.stages.Keys
                && forall k :: 0 <= k < |r.value| ==> Follows(graph.order, r.value[k])
      ensures r.Failure? ==>
                && r.error == CircularDependency
                && exists done :: done < graph.stages.Keys && Startable(graph.dependencies, graph.stages.Keys, done) <= done
    {
      hide Startable, Layered, Done, Follows;
      FollowsItself(graph.order);
      ghost var a, able := graph.dependencies, graph.stages.Keys;
      var batches: seq<seq<Id>>, completed: set<Id>, remaining := [], {}, graph.order;
      NoLayers(a, able);
      while |remaining| > 0
        invariant Layered(a, able, batches) && completed == Done(batches, |batches|)
        invariant Distinct(remaining) && Follows(graph.order, remaining)
        invariant forall k :: 0 <= k < |batches| ==> Follows(graph.order, batches[k])
        invariant completed <= able && forall id :: id in remaining <==> id in able && id !in completed
        decreases able - completed
      {
        var batch := FindReady(graph, completed, remaining);
        StartableIsAble(a, able, completed);
        ghost var startable := Startable(a, able, completed);
        if |batch| == 0 {
          assert forall id :: id in startable ==> id in completed || id in batch;
          assert remaining[0] in remaining;
          return Failure(CircularDependency);
        }
        assert Elements(batch) == startable - completed;
        assert batch[0] in remaining;
        LayeredSnoc(a, able, batches, batch);
        batches := batches + [batch];
        for k := 0 to |batch|
          invariant completed == Done(batches[..|batches| - 1], |batches| - 1) + Elements(batch[..k])
          invariant Distinct(remaining) && Follows(graph.order, remaining)
          invariant completed <= able && forall id :: id in remaining <==> id in able && id !in completed
        {
          assert batch[..k + 1] == batch[..k] + [batch[k]];
          assert batch[k] in startable;
          WithoutDistinct(remaining, batch[k]);
          WithoutFollows(graph.order, remaining, batch[k]);
          completed := completed + {batch[k]};
          remaining := Without(remaining, batch[k]);
        }
        assert batch[..|batch|] == batch;
      }
      assert completed == able;
      r := Success(batches);
    }

    /**
     * Runs at most `maxConcurrent` stages at once: they start, and put their outputs in place, in any interleaving.
     * `done` are the stages of the batches before.
     */
    method ExecuteChunk(run: Runner, graph: StageGraph, chunk: seq<Id>, files0: Files,
                        ghost stages: seq<StageConfig>, ghost initial: Files, ghost done: set<Id>, ghost d: nat)
      returns (files: Files, results: seq<StageResult>)
      requires Runnable(run, stages) && BuiltFrom(graph, stages)
      requires Merged(run, stages, Depths(stages), initial, done, files0)
      requires AtLevel(stages, Depths(stages), done, d) && Distinct(chunk) && |chunk| <= maxConcurrent
      requires forall id :: id in chunk ==> id in graph.stages && id !in done && HasDepth(stages, id, d)
      ensures Merged(run, stages, Depths(stages), initial, done + Elements(chunk), files)
      ensures AtLevel(stages, Depths(stages), done + Elements(chunk), d)
      ensures |results| == |chunk|
      ensures forall k :: 0 <= k < |chunk| ==>
                results[k].stageId == chunk[k] &&
                ReportsAsInOrder(run, stages, initial, chunk[k], results[k].success)
    {
      hide Runnable, BuiltFrom, Merged, AtLevel, HasDepth, ReportsAsInOrder, RunsAsInOrder, Elements, Distinct;
      files := files0;
      var waiting := set id | id in chunk;
      SetOfElements(chunk);
      var running: map<Id, StageOutcome>, finished: map<Id, bool> := map[], map[];
      ghost var now := done;
      while waiting != {} || running != map[]
        invariant now == done + finished.Keys
        invariant waiting + running.Keys + finished.Keys == Elements(chunk)
        invariant waiting !! running.Keys && waiting !! finished.Keys && running.Keys !! finished.Keys
        invariant Merged(run, stages, Depths(stages), initial, now, files)
        invariant AtLevel(stages, Depths(stages), now, d)
        invariant forall id :: id in running ==> RunsAsInOrder(run, stages, initial, id, running[id])
        invariant forall id :: id in finished ==> ReportsAsInOrder(run, stages, initial, id, finished[id])
        decreases waiting, running.Keys
      {
        var start: bool := *;
        if waiting != {} && (running == map[] || start) {
          var id :| id in waiting;
          StartsAsInOrder(run, stages, graph, initial, now, files, id, d);
          running := running[id := run(graph.stages[id], files)];
          waiting := waiting - {id};
        } else {
          var id :| id in running;
          var outcome := running[id];
          FinishesAsInOrder(run, stages, graph, initial, now, files, id, outcome, d);
          OneMoreAtLevel(stages, now, id, d);
          files := Overlay(files, graph.stages[id].outputs, outcome.files);
          finished := finished[id := outcome.success];
          running := running - {id};
          now := now + {id};
        }
      }
      assert finished.Keys == Elements(chunk) && now == done + Elements(chunk);
      results := CollectResults(chunk, finished);
    }

    /** The results of a chunk, in the order of its stages. */
    method CollectResults(chunk: seq<Id>, finished: map<Id, bool>) returns (results: seq<StageResult>)
      requires forall id :: id in chunk ==> id in finished
      ensures |results| == |chunk|
      ensures forall k :: 0 <= k < |chunk| ==>
                chunk[k] in finished && results[k] == StageResult(chunk[k], finished[chunk[k]])
    {
      results := [];
      for k := 0 to |chunk|
        invariant |results| == k
        invariant forall i :: 0 <= i < k ==> results[i] == StageResult(chunk[i], finished[chunk[i]])
      {
        results := results + [StageResult(chunk[k], finished[chunk[k]])];
      }
    }

    /** Runs a batch, at most `maxConcurrent` stages at a time, and goes on when stages fail. */
    method ExecuteBatch(run: Runner, graph: StageGraph, batch: seq<Id>, files0: Files,
                        ghost stages: seq<StageConfig>, ghost initial: Files, ghost done: set<Id>, ghost d: nat)
      returns (files: Files, results: seq<StageResult>)
      requires maxConcurrent > 0
      requires Runnable(run, stages) && BuiltFrom(graph, stages)
      requires Merged(run, stages, Depths(stages), initial, done, files0)
      requires AtLevel(stages, Depths(stages), done, d) && Distinct(batch)
      requires forall id :: id in batch ==> id in graph.stages && id !in done && HasDepth(stages, id, d)
      ensures Merged(run, stages, Depths(stages), initial, done + Elements(batch), files)
      ensures |results| == |batch|
      ensures forall k :: 0 <= k < |batch| ==>
                results[k].stageId == batch[k] &&
                ReportsAsInOrder(run, stages, initial, batch[k], results[k].success)
    {
      hide Runnable, BuiltFrom, Merged, AtLevel, HasDepth, ReportsAsInOrder;
      files, results := files0, [];
      var queue := batch;
      assert done + Elements(batch[..0]) == done;
      while |queue| > 0
        invariant |results| <= |batch| && queue == batch[|results|..]
        invariant Merged(run, stages, Depths(stages), initial, done + Elements(batch[..|results|]), files)
        invariant AtLevel(stages, Depths(stages), done + Elements(batch[..|results|]), d)
        invariant forall k :: 0 <= k < |results| ==>
                    results[k].stageId == batch[k] &&
                    ReportsAsInOrder(run, stages, initial, batch[k], results[k].success)
        decreases |queue|
      {
        var n := Min(maxConcurrent, |queue|);
        var chunk := queue[..n];
        ghost var before := done + Elements(batch[..|results|]);
        ghost var m := |results|;
        assert batch[..m + n] == batch[..m] + chunk;
        assert forall k :: 0 <= k < n ==> chunk[k] == batch[m + k];
        assert before + Elements(chunk) == done + Elements(batch[..m + n]);
        queue := queue[n..];
        var chunkResults;
        files, chunkResults := ExecuteChunk(run, graph, chunk, files, stages, initial, before, d);
        results := results + chunkResults;
      }
      assert batch[..|batch|] == batch;
    }

    /**
     * Parallel equals serial. The pipeline completes exactly when the stages one by one do, and then
     * leaves the same files; it never fails for a circular dependency.
     */
    method ExecuteParallel(run: Runner, stages: seq<StageConfig>, files0: Files)
      returns (files: Files, r: Result<seq<StageResult>, Error>)
      requires maxConcurrent > 0 && Runnable(run, stages)
      ensures r.Success? <==> SerialSucceeds(run, stages, files0)
      ensures r.Success? ==> files == After(run, stages, files0, |stages|)
      ensures r.Success? ==>
                && |r.value| == |stages|
                && (forall k :: 0 <= k < |r.value| ==> r.value[k].success)
                && (forall i :: 0 <= i < |stages| ==> StageResult(stages[i].id, true) in r.value)
      ensures r.Failure? ==> r.error.StagesFailed? && FirstFailures(run, stages, files0, r.error.ids)
    {
      hide Runnable, BuiltFrom, Merged, ResultsOf, Layered, SerialSucceeds, UniqueIds, Startable, AtLevel, HasDepth;
      files := files0;
      RunnableBehaves(run, stages);
      var graph := BuildDependencyGraph(stages);
      ListsStages(graph, stages);
      var built := BuildExecutionBatches(graph);
      if built.Failure? {
        NeverCircular(graph, stages);
        assert false;
      }
      var batches := built.value;
      var allResults: seq<StageResult> := [];
      NothingDone(run, stages, files0);
      for k := 0 to |batches|
        invariant Merged(run, stages, Depths(stages), files0, Done(batches, k), files)
        invariant ResultsOf(run, stages, files0, Flat(batches, k), allResults)
        invariant forall i :: 0 <= i < |allResults| ==> allResults[i].success
      {
        LayerShape(graph.dependencies, graph.stages.Keys, batches, k);
        BatchAtLevel(graph, stages, batches, k);
        ghost var previous := allResults;
        var batchResults;
        files, batchResults := ExecuteBatch(run, graph, batches[k], files, stages, files0, Done(batches, k), k);
        MoreResults(run, stages, files0, Flat(batches, k), allResults, batches[k], batchResults);
        allResults := allResults + batchResults;
        var failed := FailedIds(batchResults);
        if |failed| > 0 {
          assert failed[0] in failed;
          FailsInOrder(run, graph, stages, files0, batches[k], batchResults, failed[0]);
          FailedFirst(run, graph, stages, files0, batches, k, previous, batchResults, failed);
          return files, Failure(StagesFailed(failed));
        }
      }
      FlatIsFinishOrder(graph.dependencies, graph.stages.Keys, batches, |batches|);
      AllSucceeded(run, graph, stages, files0, files, Flat(batches, |batches|), allResults);
      r := Success(allResults);
    }
  }

  lemma NoLayers(a: Adjacency, able: set<Id>)
    ensures Layered(a, able, []) && Done([], 0) == {}
  {
  }

  lemma StartableIsAble(a: Adjacency, able: set<Id>, done: set<Id>)
    ensures Startable(a, able, done) <= able
  {
  }

  lemma ListsStages(graph: StageGraph, stages: seq<StageConfig>)
    requires BuiltFrom(graph, stages) && UniqueIds(stages)
    ensures Distinct(graph.order) && Elements(graph.order) == graph.stages.Keys
  {
  }

  /** Graphs built from stages never make the batcher fail. */
  lemma NeverCircular(graph: StageGraph, stages: seq<StageConfig>)
    requires BuiltFrom(graph, stages)
    ensures !exists done :: done < graph.stages.Keys && Startable(graph.dependencies, graph.stages.Keys, done) <= done
  {
    hide Startable;
    forall done | Startable(graph.dependencies, graph.stages.Keys, done) <= done
      ensures graph.stages.Keys <= done
    {
      NoneStuck(graph, stages, done);
    }
  }

  lemma NoneStuck(graph: StageGraph, stages: seq<StageConfig>, done: set<Id>)
    requires BuiltFrom(graph, stages) && Startable(graph.dependencies, graph.stages.Keys, done) <= done
    ensures graph.stages.Keys <= done
  {
    hide Startable;
    forall id | id in graph.stages ensures id in done {
      assert id in Elements(Ids(stages));
      var i :| 0 <= i < |stages| && Ids(stages)[i] == id;
      NothingIsStuck(graph, stages, done, i);
    }
  }

  lemma NothingDone(run: Runner, stages: seq<StageConfig>, initial: Files)
    ensures Merged(run, stages, Depths(stages), initial, {}, initial)
    ensures ResultsOf(run, stages, initial, [], [])
  {
  }

  lemma MoreResults(run: Runner, stages: seq<StageConfig>, initial: Files, ids: seq<Id>, results: seq<StageResult>,
                    moreIds: seq<Id>, moreResults: seq<StageResult>)
    requires ResultsOf(run, stages, initial, ids, results) && |moreResults| == |moreIds|
    requires forall k :: 0 <= k < |moreIds| ==>
               moreResults[k].stageId == moreIds[k] &&
               ReportsAsInOrder(run, stages, initial, moreIds[k], moreResults[k].success)
    ensures ResultsOf(run, stages, initial, ids + moreIds, results + moreResults)
  {
  }

  /** The ids name exactly the stages of one depth that fail in the given order; those of lower depth succeed. */
  ghost predicate FirstFailures(run: Runner, stages: seq<StageConfig>, initial: Files, ids: seq<Id>) {
    exists d: nat :: FailuresAt(run, stages, initial, ids, d)
  }

  ghost predicate FailuresAt(run: Runner, stages: seq<StageConfig>, initial: Files, ids: seq<Id>, d: nat) {
    && ids != []
    && (forall i :: 0 <= i < |stages| && Depth(stages, i) < d ==> SucceedsAt(run, stages, initial, i))
    && (forall i :: 0 <= i < |stages| && Depth(stages, i) == d ==>
          (stages[i].id in ids <==> !SucceedsAt(run, stages, initial, i)))
    && forall id :: id in ids ==> exists i :: 0 <= i < |stages| && stages[i].id == id && Depth(stages, i) == d
  }

  lemma FailedFirst(run: Runner, graph: StageGraph, stages: seq<StageConfig>, initial: Files, batches: seq<seq<Id>>, k: nat,
                    before: seq<StageResult>, results: seq<StageResult>, failed: seq<Id>)
    requires BuiltFrom(graph, stages) && UniqueIds(stages) && k < |batches|
    requires Layered(graph.dependencies, graph.stages.Keys, batches) && Done(batches, |batches|) == graph.stages.Keys
    requires ResultsOf(run, stages, initial, Flat(batches, k), before)
    requires forall i :: 0 <= i < |before| ==> before[i].success
    requires |results| == |batches[k]|
    requires forall n :: 0 <= n < |results| ==>
               results[n].stageId == batches[k][n] && ReportsAsInOrder(run, stages, initial, batches[k][n], results[n].success)
    requires failed != [] && forall id :: id in failed <==> StageResult(id, false) in results
    ensures FirstFailures(run, stages, initial, failed)
  {
    hide Layered, Depth, DependenciesOf, SucceedsAt, UniqueIds;
    assert ResultsOf(run, stages, initial, batches[k], results);
    forall i | 0 <= i < |stages|
      ensures Depth(stages, i) < k ==> SucceedsAt(run, stages, initial, i)
      ensures Depth(stages, i) == k ==> (stages[i].id in failed <==> !SucceedsAt(run, stages, initial, i))
      ensures stages[i].id in batches[k] ==> Depth(stages, i) == k
    {
      StageInBatch(graph, stages, batches, k, i);
      if Depth(stages, i) < k {
        FlatMember(batches, k, stages[i].id);
        var n :| 0 <= n < |Flat(batches, k)| && Flat(batches, k)[n] == stages[i].id;
        assert before[n].success;
      } else if Depth(stages, i) == k {
        InBatchOfDepth(graph, stages, batches, i, k);
        var n :| 0 <= n < |batches[k]| && batches[k][n] == stages[i].id;
        ResultInBatch(run, stages, initial, batches[k], results, i, n);
        BatchDistinct(graph, batches, k);
        OnlyResult(batches[k], results, stages[i].id, n);
      }
    }
    forall id | id in failed ensures exists i :: 0 <= i < |stages| && stages[i].id == id && Depth(stages, i) == k {
      var n :| 0 <= n < |results| && results[n] == StageResult(id, false);
      assert batches[k][n] == id;
      BatchDistinct(graph, batches, k);
      assert id in Elements(Ids(stages));
      var i :| 0 <= i < |stages| && Ids(stages)[i] == id;
    }
    assert FailuresAt(run, stages, initial, failed, k);
  }

  lemma ResultInBatch(run: Runner, stages: seq<StageConfig>, initial: Files, ids: seq<Id>, results: seq<StageResult>, i: nat, n: nat)
    requires ResultsOf(run, stages, initial, ids, results) && i < |stages| && n < |ids| && ids[n] == stages[i].id
    ensures results[n] == StageResult(stages[i].id, SucceedsAt(run, stages, initial, i))
  {
  }

  lemma OnlyResult(ids: seq<Id>, results: seq<StageResult>, id: Id, n: nat)
    requires Distinct(ids) && |results| == |ids| && n < |ids| && ids[n] == id
    requires forall k :: 0 <= k < |ids| ==> results[k].stageId == ids[k]
    ensures StageResult(id, false) in results <==> results[n] == StageResult(id, false)
  {
  }

  lemma BatchDistinct(graph: StageGraph, batches: seq<seq<Id>>, k: nat)
    requires Layered(graph.dependencies, graph.stages.Keys, batches) && k < |batches|
    ensures Distinct(batches[k]) && forall id :: id in batches[k] ==> id in graph.stages.Keys
  {
    LayerShape(graph.dependencies, graph.stages.Keys, batches, k);
  }

  lemma InBatchOfDepth(graph: StageGraph, stages: seq<StageConfig>, batches: seq<seq<Id>>, i: nat, k: nat)
    requires BuiltFrom(graph, stages) && i < |stages| && k < |batches| && Depth(stages, i) == k
    requires Layered(graph.dependencies, graph.stages.Keys, batches) && Done(batches, |batches|) == graph.stages.Keys
    ensures stages[i].id in batches[k]
  {
    hide Layered, Depth, DependenciesOf;
    assert Ids(stages)[i] in Elements(Ids(stages));
    DoneMember(batches, |batches|, stages[i].id);
    var m :| 0 <= m < |batches| && stages[i].id in batches[m];
    BatchIsDepth(graph, stages, batches, m, i);
  }

  lemma {:induction false} FlatMember(batches: seq<seq<Id>>, k: nat, id: Id)
    requires k <= |batches|
    ensures id in Flat(batches, k) <==> id in Done(batches, k)
  {
    if k > 0 {
      FlatMember(batches, k - 1, id);
      assert id in Elements(batches[k - 1]) <==> id in batches[k - 1];
    }
  }

  lemma FailsInOrder(run: Runner, graph: StageGraph, stages: seq<StageConfig>, initial: Files,
                     batch: seq<Id>, results: seq<StageResult>, id: Id)
    requires BuiltFrom(graph, stages) && |results| == |batch|
    requires forall k :: 0 <= k < |batch| ==>
               batch[k] in graph.stages && results[k].stageId == batch[k] &&
               ReportsAsInOrder(run, stages, initial, batch[k], results[k].success)
    requires StageResult(id, false) in results
    ensures !SerialSucceeds(run, stages, initial)
  {
    var k :| 0 <= k < |results| && results[k] == StageResult(id, false);
    assert batch[k] in Elements(Ids(stages));
    var i :| 0 <= i < |stages| && Ids(stages)[i] == id;
    assert !SucceedsAt(run, stages, initial, i);
  }

  /** The stage's result is among those collected. */
  lemma ResultOfStage(run: Runner, graph: StageGraph, stages: seq<StageConfig>, initial: Files,
                      ids: seq<Id>, results: seq<StageResult>, i: nat)
    requires BuiltFrom(graph, stages) && Elements(ids) == graph.stages.Keys && i < |stages|
    requires ResultsOf(run, stages, initial, ids, results)
    requires forall k :: 0 <= k < |results| ==> results[k].success
    ensures stages[i].id in graph.stages.Keys
    ensures SucceedsAt(run, stages, initial, i)
    ensures StageResult(stages[i].id, true) in results
  {
    hide DependenciesOf, After, SucceedsAt;
    assert Ids(stages)[i] in Elements(Ids(stages));
    assert stages[i].id in Elements(ids);
    var k :| 0 <= k < |ids| && ids[k] == stages[i].id;
    assert results[k] == StageResult(stages[i].id, true);
  }

  lemma AsManyAsStages(graph: StageGraph, stages: seq<StageConfig>, ids: seq<Id>)
    requires BuiltFrom(graph, stages) && UniqueIds(stages)
    requires Distinct(ids) && Elements(ids) == graph.stages.Keys
    ensures |ids| == |stages|
  {
    hide DependenciesOf;
    DistinctLength(ids);
    DistinctLength(Ids(stages));
  }

  lemma AllSucceeded(run: Runner, graph: StageGraph, stages: seq<StageConfig>, initial: Files, files: Files,
                     ids: seq<Id>, results: seq<StageResult>)
    requires Runnable(run, stages) && BuiltFrom(graph, stages)
    requires Distinct(ids) && Elements(ids) == graph.stages.Keys
    requires Merged(run, stages, Depths(stages), initial, graph.stages.Keys, files)
    requires ResultsOf(run, stages, initial, ids, results)
    requires forall k :: 0 <= k < |results| ==> results[k].success
    ensures SerialSucceeds(run, stages, initial)
    ensures files == After(run, stages, initial, |stages|)
    ensures |results| == |stages|
    ensures forall i :: 0 <= i < |stages| ==> StageResult(stages[i].id, true) in results
  {
    hide Runnable, BuiltFrom, Merged, After, SucceedsAt, WellBehaved, Distinct, UniqueIds;
    RunnableBehaves(run, stages);
    forall i | 0 <= i < |stages|
      ensures stages[i].id in graph.stages.Keys
      ensures SucceedsAt(run, stages, initial, i)
      ensures StageResult(stages[i].id, true) in results
    {
      ResultOfStage(run, graph, stages, initial, ids, results, i);
    }
    AllDone(run, stages, Depths(stages), initial, graph.stages.Keys, files);
    AsManyAsStages(graph, stages, ids);
  }

  function FailedIds(results: seq<StageResult>): (r: seq<Id>)
    ensures forall id :: id in r <==> StageResult(id, false) in results
    ensures r == [] ==> forall k :: 0 <= k < |results| ==> results[k].success
  {
    if results == [] then []
    else (if results[0].success then [] else [results[0].stageId]) + FailedIds(results[1..])
  }

  /** One result per id, in order, each as in the given order. */
  ghost predicate ResultsOf(run: Runner, stages: seq<StageConfig>, initial: Files, ids: seq<Id>, results: seq<StageResult>) {
    |results| == |ids| &&
    forall k :: 0 <= k < |ids| ==>
      results[k].stageId == ids[k] && ReportsAsInOrder(run, stages, initial, ids[k], results[k].success)
  }

  // ----- when the batches give what the given order gives -----

  /**
   * Running the batches in order, with any order inside a batch, gives what running the stages one by
   * one gives, whatever stages with these declared files do, if and only if the files are undisturbed.
   */
  lemma ParallelEqualsSerialIff(stages: seq<StageConfig>)
    requires UniqueIds(stages)
    ensures Undisturbed(stages, Depths(stages)) <==>
            forall run: Runner, files: Files, order: seq<nat> ::
              TouchesDeclared(run, stages) && RespectsLevels(order, Depths(stages)) ==> SameRun(run, stages, files, order)
  {
    FeedersBelow(stages);
    SameRunIffUndisturbed(stages, Depths(stages));
  }

  /** It is enough that no two stages write the same file and none writes what an earlier one reads. */
  lemma ApartIsRunnable(run: Runner, stages: seq<StageConfig>)
    requires UniqueIds(stages) && TouchesDeclared(run, stages) && WritersApart(stages)
    ensures Runnable(run, stages)
  {
    OrderedConflictsSuffice(stages, Depths(stages));
  }

  /** Writes the content of its first input to each output. */
  function CopyFirst(stage: StageConfig, files: Files): StageOutcome {
    var content := if stage.inputs != [] && stage.inputs[0] in files then files[stage.inputs[0]] else "";
    StageOutcome(files + map f | f in stage.outputs :: content, true)
  }

  lemma CopyTouchesDeclaredOnly(stage: StageConfig)
    ensures TouchesDeclaredOnly(CopyFirst, stage)
  {
    forall a, b | AgreeOn(stage.inputs, a, b)
      ensures AgreeOn(stage.outputs, CopyFirst(stage, a).files, CopyFirst(stage, b).files)
    {
      assert stage.inputs != [] ==> SameAt(a, b, stage.inputs[0]);
    }
  }

  const PLAN := StageConfig("plan", ["spec"], ["out"])
  const CHECK := StageConfig("check", ["note", "out"], ["report"])
  const CODE := StageConfig("code", ["out"], ["note"])

  /** What a copy leaves at one file. */
  lemma CopyAt(stage: StageConfig, files: Files, f: File)
    requires stage.inputs != [] && stage.inputs[0] in files && |stage.outputs| == 1
    ensures var after := CopyFirst(stage, files).files;
            if f == stage.outputs[0] then f in after && after[f] == files[stage.inputs[0]] else SameAt(after, files, f)
  {
    assert f in stage.outputs <==> f == stage.outputs[0];
  }

  lemma LateWriterChangesReport(files: Files)
    requires files == map["spec" := "new", "note" := "old"]
    ensures CopyFirst(CHECK, CopyFirst(CODE, CopyFirst(PLAN, files).files).files).files
         != CopyFirst(CODE, CopyFirst(CHECK, CopyFirst(PLAN, files).files).files).files
  {
    hide CopyFirst;
    var planned := CopyFirst(PLAN, files).files;
    CopyAt(PLAN, files, "out");
    CopyAt(PLAN, files, "note");
    var checked, coded := CopyFirst(CHECK, planned).files, CopyFirst(CODE, planned).files;
    CopyAt(CHECK, planned, "report");
    CopyAt(CHECK, planned, "out");
    CopyAt(CODE, checked, "report");
    CopyAt(CODE, planned, "note");
    CopyAt(CHECK, coded, "report");
  }

  lemma PlanDepths(stages: seq<StageConfig>)
    requires stages == [PLAN, CHECK, CODE]
    ensures Depths(stages) == [0, 1, 1]
  {
    assert "out" in PLAN.outputs && "out" in CHECK.inputs && "out" in CODE.inputs;
    assert Feeds(stages[0], stages[1]) && Feeds(stages[0], stages[2]) && !Feeds(stages[1], stages[2]);
    assert FeedersAmong(stages, 1, 0) == [] && FeedersAmong(stages, 2, 0) == [];
    assert FeedersAmong(stages, 1, 1) == ["plan"] && FeedersAmong(stages, 2, 1) == ["plan"];
    assert FeedersAmong(stages, 2, 2) == ["plan"];
    assert DependsOn(stages, 1, 0) && DependsOn(stages, 2, 0) && !DependsOn(stages, 2, 1);
    assert Depth(stages, 0) == 0;
    assert DepthBelow(stages, 1, 0) == 0 && DepthBelow(stages, 2, 0) == 0;
    assert Depth(stages, 1) == 1 && DepthBelow(stages, 2, 1) == 1;
  }

  lemma PlanDisturbed(stages: seq<StageConfig>)
    requires stages == [PLAN, CHECK, CODE]
    ensures UniqueIds(stages) && TouchesDeclared(CopyFirst, stages)
    ensures !Undisturbed(stages, Depths(stages))
  {
    hide CopyFirst, TouchesDeclaredOnly, Depths;
    forall i | 0 <= i < 3 ensures TouchesDeclaredOnly(CopyFirst, stages[i]) {
      CopyTouchesDeclaredOnly(stages[i]);
    }
    PlanDepths(stages);
    assert Writes(stages, 2, "note") && "note" in stages[1].inputs;
    assert !SourceKept(stages, Depths(stages), 1, "note", 2);
  }

  /**
   * A stage that writes what an earlier one reads is not kept behind it: here the third stage may
   * run before the second in their batch, and then the files differ from those of the given order.
   */
  lemma LateWriterBreaksOrder(stages: seq<StageConfig>, files: Files, order: seq<nat>)
    requires stages == [PLAN, CHECK, CODE] && files == map["spec" := "new", "note" := "old"] && order == [0, 2, 1]
    ensures UniqueIds(stages) && TouchesDeclared(CopyFirst, stages) && !Undisturbed(stages, Depths(stages))
    ensures RespectsLevels(order, Depths(stages))
    ensures After(CopyFirst, Reordered(stages, order), files, 3) != After(CopyFirst, stages, files, 3)
  {
    hide CopyFirst, TouchesDeclaredOnly, Depths, Undisturbed, UniqueIds;
    PlanDisturbed(stages);
    PlanDepths(stages);
    assert order[0] == 0 && order[2] == 1 && order[1] == 2;
    LateWriterChangesReport(files);
    var other := Reordered(stages, order);
    ThreeRuns(CopyFirst, stages, files);
    ThreeRuns(CopyFirst, other, files);
  }

  lemma ThreeRuns(run: Runner, stages: seq<StageConfig>, files: Files)
    requires |stages| == 3
    ensures After(run, stages, files, 3) ==
            run(stages[2], run(stages[1], run(stages[0], files).files).files).files
  {
    assert After(run, stages, files, 1) == run(stages[0], files).files;
    assert After(run, stages, files, 2) == run(stages[1], run(stages[0], files).files).files;
  }
}
