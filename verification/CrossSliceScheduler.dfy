/** Scheduling slices in batches along their dependencies. */
module CrossSliceScheduler {
  import opened Sequences
  import opened Walks
  import opened Layers
  import opened DependencyGraph

  datatype TaskStatus = Pending | Ready | Running | Completed | Failed | Blocked | Skipped

  datatype Blocker =
    | NotInGraph
    | NotCompleted(upstream: Id)
    | UpstreamMissing(upstream: Id)
    | StateTooLow(upstream: Id)
    | Waiting(upstream: Id)

  datatype ExecutionTask = ExecutionTask(status: TaskStatus, dependencies: seq<Id>, blockedBy: seq<Blocker>)

  datatype SchedulerResult = SchedulerResult(
    totalSlices: nat, totalBatches: nat, batches: seq<seq<Id>>, executionOrder: seq<Id>)

  // ----- the relation that is layered -----

  /** `LIFECYCLE_ORDER.indexOf(upstream.state) >= LIFECYCLE_ORDER.indexOf(required_state)` */
  predicate StateMet(lifecycle: seq<State>, graph: Graph, d: Dependency) {
    d.sliceId in graph.nodes &&
    IndexOf(lifecycle, graph.nodes[d.sliceId].state) >= IndexOf(lifecycle, d.requiredState)
  }

  /** Every dependency on a slice that is not to be scheduled is met already. */
  ghost predicate OutsideMet(lifecycle: seq<State>, graph: Graph, chosen: set<Id>, s: Id) {
    s in graph.nodes &&
    forall d :: d in graph.nodes[s].dependencies ==> d.sliceId in chosen || StateMet(lifecycle, graph, d)
  }

  ghost function Able(lifecycle: seq<State>, graph: Graph, chosen: set<Id>): set<Id> {
    set s | s in chosen && OutsideMet(lifecycle, graph, chosen, s)
  }

  ghost function Among(ids: seq<Id>, chosen: set<Id>): (r: seq<Id>)
    ensures forall v :: v in r <==> v in ids && v in chosen
  {
    if ids == [] then []
    else (if ids[0] in chosen then [ids[0]] else []) + Among(ids[1..], chosen)
  }

  /** The dependencies among the slices to schedule, optional ones included. */
  ghost function ChosenEdges(graph: Graph, chosen: set<Id>): Adjacency {
    map s | s in chosen :: Among(Next(AllEdges(graph), s), chosen)
  }

  ghost predicate IsSchedule(lifecycle: seq<State>, graph: Graph, chosen: set<Id>, batches: seq<seq<Id>>) {
    && Layered(ChosenEdges(graph, chosen), Able(lifecycle, graph, chosen), batches)
    && Exhausted(ChosenEdges(graph, chosen), Able(lifecycle, graph, chosen), batches)
  }

  /** What `checkReadiness` asks of one dependency. */
  predicate DependencyReady(lifecycle: seq<State>, graph: Graph, completed: map<Id, ExecutionTask>, d: Dependency) {
    if d.sliceId in completed then completed[d.sliceId].status.Completed?
    else StateMet(lifecycle, graph, d)
  }

  /** Why a dependency is not ready. */
  function BlockerOf(graph: Graph, completed: map<Id, ExecutionTask>, d: Dependency): Blocker {
    if d.sliceId in completed then NotCompleted(d.sliceId)
    else if d.sliceId !in graph.nodes then UpstreamMissing(d.sliceId)
    else StateTooLow(d.sliceId)
  }

  /** Dependency `k` is the first that is not ready. */
  ghost predicate FirstUnmet(lifecycle: seq<State>, graph: Graph, completed: map<Id, ExecutionTask>,
                             dependencies: seq<Dependency>, k: int) {
    && 0 <= k < |dependencies| && !DependencyReady(lifecycle, graph, completed, dependencies[k])
    && forall i :: 0 <= i < k ==> DependencyReady(lifecycle, graph, completed, dependencies[i])
  }

  /** With all chosen dependencies completed, a slice is ready exactly when the outside ones are met. */
  lemma ReadyIffOutsideMet(lifecycle: seq<State>, graph: Graph, chosen: set<Id>,
                           completed: map<Id, ExecutionTask>, s: Id)
    requires s in graph.nodes && completed.Keys <= chosen
    requires forall v :: v in completed ==> completed[v].status.Completed?
    requires Within(Next(ChosenEdges(graph, chosen), s), completed.Keys) && s in chosen
    ensures (forall d :: d in graph.nodes[s].dependencies ==> DependencyReady(lifecycle, graph, completed, d))
            <==> s in Able(lifecycle, graph, chosen)
  {
    var dependencies := graph.nodes[s].dependencies;
    forall d | d in dependencies ensures d.sliceId in chosen <==> d.sliceId in completed {
      var k :| 0 <= k < |dependencies| && dependencies[k] == d;
      assert Targets(dependencies)[k] == d.sliceId;
    }
  }

  /** The chosen dependencies of a slice, found the way the batcher looks for them. */
  lemma WaitsForNone(graph: Graph, chosen: set<Id>, completed: set<Id>, s: Id)
    requires s in graph.nodes && s in chosen && completed <= chosen
    ensures (forall v :: v in Targets(graph.nodes[s].dependencies) ==> v in completed || v !in chosen)
            <==> Within(Next(ChosenEdges(graph, chosen), s), completed)
  {
  }

  /** Blocked by the dependencies that are not completed. */
  function WaitingTask(task: ExecutionTask, completed: set<Id>): (r: ExecutionTask)
    ensures r.status.Blocked? && r.dependencies == task.dependencies
    ensures forall b :: b in r.blockedBy <==> b.Waiting? && b.upstream in task.dependencies && b.upstream !in completed
  {
    task.(status := Blocked, blockedBy := WaitingFor(task.dependencies, completed))
  }

  ghost predicate SlicesOf(graph: Graph, tasks: map<Id, ExecutionTask>) {
    forall s :: s in tasks ==> s in graph.nodes && tasks[s].dependencies == Targets(graph.nodes[s].dependencies)
  }

  lemma UpdateKeepsSlices(graph: Graph, tasks: map<Id, ExecutionTask>, s: Id, task: ExecutionTask)
    requires SlicesOf(graph, tasks) && s in tasks && task.dependencies == tasks[s].dependencies
    ensures SlicesOf(graph, tasks[s := task])
  {
  }

  // ----- the scheduler object -----

  class Scheduler {
    /** `LIFECYCLE_ORDER` */
    const lifecycle: seq<State>
    var tasks: map<Id, ExecutionTask>
    var taskOrder: seq<Id>

    constructor (lifecycle: seq<State>)
      ensures this.lifecycle == lifecycle && tasks == map[] && taskOrder == []
    {
      this.lifecycle, tasks, taskOrder := lifecycle, map[], [];
    }

    /** The tasks stand for slices of the graph. */
    ghost predicate ForGraph(graph: Graph)
      reads this
    {
      Distinct(taskOrder) && Elements(taskOrder) == tasks.Keys && SlicesOf(graph, tasks)
    }

    /** `None` means ready. */
    method CheckReadiness(sliceId: Id, graph: Graph, completed: map<Id, ExecutionTask>)
      returns (reason: Option<Blocker>)
      ensures reason.None? <==>
                sliceId in graph.nodes &&
                forall d :: d in graph.nodes[sliceId].dependencies ==> DependencyReady(lifecycle, graph, completed, d)
      ensures reason.None? ==>
                && sliceId in graph.nodes
                && forall d :: d in graph.nodes[sliceId].dependencies ==>
                     if d.sliceId in completed then completed[d.sliceId].status.Completed? else StateMet(lifecycle, graph, d)
      ensures sliceId !in graph.nodes ==> reason == Some(NotInGraph)
      ensures sliceId in graph.nodes && reason.Some? ==>
                exists k :: FirstUnmet(lifecycle, graph, completed, graph.nodes[sliceId].dependencies, k) &&
                            reason == Some(BlockerOf(graph, completed, graph.nodes[sliceId].dependencies[k]))
      ensures reason.Some? && sliceId in graph.nodes ==>
                match reason.value
                case NotInGraph => false
                case NotCompleted(u) => u in completed && !completed[u].status.Completed?
                case UpstreamMissing(u) => u !in completed && u !in graph.nodes
                case StateTooLow(u) => u !in completed && u in graph.nodes
                case Waiting(_) => false
    {
      if sliceId !in graph.nodes {
        return Some(NotInGraph);
      }
      var dependencies := graph.nodes[sliceId].dependencies;
      for k := 0 to |dependencies|
        invariant forall d :: d in dependencies[..k] ==> DependencyReady(lifecycle, graph, completed, d)
      {
        var dep := dependencies[k];
        assert dependencies[..k + 1] == dependencies[..k] + [dep];
        assert dep in dependencies;
        assert forall i :: 0 <= i < k ==> dependencies[i] in dependencies[..k];
        assert !DependencyReady(lifecycle, graph, completed, dep) ==>
               FirstUnmet(lifecycle, graph, completed, dependencies, k);
        if dep.sliceId in completed {
          if !completed[dep.sliceId].status.Completed? {
            return Some(NotCompleted(dep.sliceId));
          }
          continue;
        }
        if dep.sliceId !in graph.nodes {
          return Some(UpstreamMissing(dep.sliceId));
        }
        if IndexOf(lifecycle, graph.nodes[dep.sliceId].state) < IndexOf(lifecycle, dep.requiredState) {
          return Some(StateTooLow(dep.sliceId));
        }
      }
      assert dependencies[..|dependencies|] == dependencies;
      reason := None;
    }

    /** `task.dependencies.every(depId => completed.has(depId) || !tasks.has(depId))` */
    method AllDependenciesCompleted(dependencies: seq<Id>, completed: set<Id>) returns (all: bool)
      ensures all <==> forall v :: v in dependencies ==> v in completed || v !in tasks
    {
      for k := 0 to |dependencies|
        invariant forall v :: v in dependencies[..k] ==> v in completed || v !in tasks
      {
        assert dependencies[..k + 1] == dependencies[..k] + [dependencies[k]];
        if !(dependencies[k] in completed || dependencies[k] !in tasks) {
          return false;
        }
      }
      assert dependencies[..|dependencies|] == dependencies;
      all := true;
    }

    /** Gives a remaining task its status for this round. */
    method TryTask(graph: Graph, completed: map<Id, ExecutionTask>, sliceId: Id) returns (ready: bool)
      requires ForGraph(graph) && sliceId in tasks && completed.Keys <= tasks.Keys
      requires forall v :: v in completed ==> completed[v].status.Completed?
      modifies this`tasks
      ensures ForGraph(graph) && tasks.Keys == old(tasks.Keys)
      ensures ready <==>
                sliceId in Startable(ChosenEdges(graph, tasks.Keys), Able(lifecycle, graph, tasks.Keys), completed.Keys)
      ensures ready ==> tasks[sliceId].status.Ready?
      ensures tasks[sliceId].status == if ready then Ready
                                       else if Within(Next(ChosenEdges(graph, tasks.Keys), sliceId), completed.Keys) then Blocked
                                       else old(tasks)[sliceId].status
      ensures !ready && Within(Next(ChosenEdges(graph, tasks.Keys), sliceId), completed.Keys) ==>
                exists k :: FirstUnmet(lifecycle, graph, completed, graph.nodes[sliceId].dependencies, k) &&
                            tasks[sliceId] == old(tasks)[sliceId].(
                              status := Blocked, blockedBy := [BlockerOf(graph, completed, graph.nodes[sliceId].dependencies[k])])
      ensures forall s :: s in tasks && s != sliceId ==> tasks[s] == old(tasks)[s]
    {
      hide Able, ChosenEdges;
      var task := tasks[sliceId];
      var allDepsCompleted := AllDependenciesCompleted(task.dependencies, completed.Keys);
      WaitsForNone(graph, tasks.Keys, completed.Keys, sliceId);
      if !allDepsCompleted {
        return false;
      }
      var reason := CheckReadiness(sliceId, graph, completed);
      ReadyIffOutsideMet(lifecycle, graph, tasks.Keys, completed, sliceId);
      ready := reason.None?;
      if ready {
        tasks := tasks[sliceId := task.(status := Ready)];
      } else {
        tasks := tasks[sliceId := task.(status := Blocked, blockedBy := [reason.value])];
      }
      assert tasks.Keys == old(tasks.Keys);
    }

    /** One round of the batcher: the remaining tasks that can start now, in order. */
    method FindReady(graph: Graph, completed: map<Id, ExecutionTask>, remaining: seq<Id>)
      returns (ready: seq<Id>)
      requires ForGraph(graph) && Distinct(remaining) && Elements(remaining) <= tasks.Keys
      requires Follows(taskOrder, remaining) && completed.Keys <= tasks.Keys
      requires forall v :: v in completed ==> completed[v].status.Completed?
      modifies this`tasks
      ensures ForGraph(graph) && tasks.Keys == old(tasks.Keys)
      ensures Distinct(ready) && Follows(taskOrder, ready)
      ensures forall s :: s in ready <==>
                s in remaining &&
                s in Startable(ChosenEdges(graph, tasks.Keys), Able(lifecycle, graph, tasks.Keys), completed.Keys)
      ensures forall s :: s in ready ==> s in tasks && tasks[s].status.Ready?
      ensures forall s :: s in tasks && s in remaining ==>
                tasks[s].status == if s in ready then Ready
                                   else if Within(Next(ChosenEdges(graph, tasks.Keys), s), completed.Keys) then Blocked
                                   else old(tasks)[s].status
      ensures forall s :: s in tasks && s !in remaining ==> tasks[s] == old(tasks)[s]
    {
      hide Able, ChosenEdges, Startable, ForGraph, Follows, Within, Next;
      ghost var startable :=
        Startable(ChosenEdges(graph, tasks.Keys), Able(lifecycle, graph, tasks.Keys), completed.Keys);
      ready := [];
      NothingFollows(taskOrder);
      for k := 0 to |remaining|
        invariant ForGraph(graph) && tasks.Keys == old(tasks.Keys)
        invariant Distinct(ready) && Follows(taskOrder, ready)
        invariant forall s :: s in ready <==> s in remaining[..k] && s in startable
        invariant forall s :: s in ready ==> s in tasks && tasks[s].status.Ready?
        invariant forall s :: s in tasks && s in remaining[..k] ==>
                    tasks[s].status == if s in ready then Ready
                                       else if Within(Next(ChosenEdges(graph, tasks.Keys), s), completed.Keys) then Blocked
                                       else old(tasks)[s].status
        invariant forall s :: s in tasks && s !in remaining[..k] ==> tasks[s] == old(tasks)[s]
      {
        var sliceId := remaining[k];
        assert sliceId in Elements(remaining);
        assert remaining[..k + 1] == remaining[..k] + [sliceId];
        assert sliceId !in remaining[..k];
        var taskReady := TryTask(graph, completed, sliceId);
        if taskReady {
          FollowsSnoc(taskOrder, remaining, ready, k);
          ready := ready + [sliceId];
        }
      }
      assert remaining[..|remaining|] == remaining;
    }

    /** Simulates the completion of a batch. */
    method CompleteBatch(ready: seq<Id>, completed0: map<Id, ExecutionTask>, remaining0: seq<Id>)
      returns (completed: map<Id, ExecutionTask>, remaining: seq<Id>)
      requires Elements(ready) <= tasks.Keys && Distinct(remaining0) && Follows(taskOrder, remaining0)
      requires forall v :: v in completed0 ==> completed0[v].status.Completed?
      ensures completed.Keys == completed0.Keys + Elements(ready)
      ensures forall v :: v in completed ==> completed[v].status.Completed?
      ensures Distinct(remaining) && forall s :: s in remaining <==> s in remaining0 && s !in ready
      ensures Follows(taskOrder, remaining)
    {
      hide Follows;
      completed, remaining := completed0, remaining0;
      for k := 0 to |ready|
        invariant completed.Keys == completed0.Keys + Elements(ready[..k])
        invariant forall v :: v in completed ==> completed[v].status.Completed?
        invariant Distinct(remaining) && Follows(taskOrder, remaining)
        invariant forall s :: s in remaining <==> s in remaining0 && s !in ready[..k]
      {
        assert ready[k] in Elements(ready);
        assert ready[..k + 1] == ready[..k] + [ready[k]];
        completed := completed[ready[k] := tasks[ready[k]].(status := Completed)];
        WithoutDistinct(remaining, ready[k]);
        WithoutFollows(taskOrder, remaining, ready[k]);
        remaining := Without(remaining, ready[k]);
      }
      assert ready[..|ready|] == ready;
    }

    /** Marks what is left when nothing can start any more. */
    method BlockRemaining(remaining: seq<Id>, completed: map<Id, ExecutionTask>, ghost graph: Graph)
      requires ForGraph(graph) && Distinct(remaining) && Elements(remaining) <= tasks.Keys
      modifies this`tasks
      ensures ForGraph(graph) && tasks.Keys == old(tasks.Keys)
      ensures forall s :: s in remaining ==> s in tasks && tasks[s].status.Blocked?
      ensures forall s :: s in remaining ==>
                tasks[s] == if old(tasks)[s].status.Blocked? then old(tasks)[s]
                            else WaitingTask(old(tasks)[s], completed.Keys)
      ensures forall s :: s in tasks && s !in remaining ==> tasks[s] == old(tasks)[s]
    {
      hide SlicesOf, WaitingTask;
      for k := 0 to |remaining|
        invariant ForGraph(graph) && tasks.Keys == old(tasks.Keys)
        invariant forall i :: 0 <= i < k ==>
                    tasks[remaining[i]] == if old(tasks)[remaining[i]].status.Blocked? then old(tasks)[remaining[i]]
                                           else WaitingTask(old(tasks)[remaining[i]], completed.Keys)
        invariant forall s :: s in tasks && s !in remaining[..k] ==> tasks[s] == old(tasks)[s]
      {
        assert remaining[k] in Elements(remaining);
        assert remaining[..k + 1] == remaining[..k] + [remaining[k]] && remaining[k] !in remaining[..k];
        var task := tasks[remaining[k]];
        if !task.status.Blocked? {
          UpdateKeepsSlices(graph, tasks, remaining[k], WaitingTask(task, completed.Keys));
          tasks := tasks[remaining[k] := WaitingTask(task, completed.Keys)];
        }
      }
      assert remaining[..|remaining|] == remaining;
    }

    /** How far the batcher is: what is in a batch is ready, and the rest remains, in order. */
    ghost predicate Batched(graph: Graph, batches: seq<seq<Id>>, completed: map<Id, ExecutionTask>, remaining: seq<Id>)
      reads this
    {
      && Layered(ChosenEdges(graph, tasks.Keys), Able(lifecycle, graph, tasks.Keys), batches)
      && completed.Keys == Done(batches, |batches|) && completed.Keys <= tasks.Keys
      && (forall v :: v in completed ==> completed[v].status.Completed? && tasks[v].status.Ready?)
      && Distinct(remaining) && (forall s :: s in remaining <==> s in tasks && s !in completed)
      && Follows(taskOrder, remaining)
      && forall k :: 0 <= k < |batches| ==> Follows(taskOrder, batches[k])
    }

    /** One round: the next batch, if anything can start, and the simulated completion of it. */
    method Round(graph: Graph, ghost batches: seq<seq<Id>>, completed0: map<Id, ExecutionTask>, remaining0: seq<Id>)
      returns (ready: seq<Id>, completed: map<Id, ExecutionTask>, remaining: seq<Id>)
      requires ForGraph(graph) && Batched(graph, batches, completed0, remaining0)
      modifies this`tasks
      ensures ForGraph(graph) && tasks.Keys == old(tasks.Keys)
      ensures ready != [] ==>
                Batched(graph, batches + [ready], completed, remaining) && completed0.Keys < completed.Keys <= tasks.Keys
      ensures ready == [] ==>
                && Batched(graph, batches, completed, remaining) && completed == completed0 && remaining == remaining0
                && Startable(ChosenEdges(graph, tasks.Keys), Able(lifecycle, graph, tasks.Keys), completed.Keys) <= completed.Keys
    {
      hide Able, ChosenEdges, Startable, Layered, Done, Follows, SlicesOf;
      ghost var a, able := ChosenEdges(graph, tasks.Keys), Able(lifecycle, graph, tasks.Keys);
      ready := FindReady(graph, completed0, remaining0);
      completed, remaining := completed0, remaining0;
      StartableChosen(lifecycle, graph, tasks.Keys, completed0.Keys);
      ghost var startable := Startable(a, able, completed0.Keys);
      if |ready| == 0 {
        assert forall s :: s in startable ==> s in completed0.Keys || s in ready;
        return;
      }
      assert Elements(ready) == startable - completed0.Keys;
      LayeredSnoc(a, able, batches, ready);
      assert ready[0] in remaining0 && ready[0] !in completed0.Keys;
      completed, remaining := CompleteBatch(ready, completed0, remaining0);
    }

    method ComputeBatches(graph: Graph) returns (batches: seq<seq<Id>>)
      requires ForGraph(graph)
      modifies this`tasks
      ensures ForGraph(graph) && tasks.Keys == old(tasks.Keys)
      ensures IsSchedule(lifecycle, graph, tasks.Keys, batches)
      ensures forall k :: 0 <= k < |batches| ==> Follows(taskOrder, batches[k])
      ensures forall s :: s in tasks ==>
                tasks[s].status == if s in Done(batches, |batches|) then Ready else Blocked
    {
      hide Able, ChosenEdges, Startable, Layered, Done, Exhausted, Follows, SlicesOf, WaitingTask;
      batches := [];
      var completed: map<Id, ExecutionTask>, remaining := map[], taskOrder;
      NoBatches(ChosenEdges(graph, tasks.Keys), Able(lifecycle, graph, tasks.Keys));
      assert forall s :: s in remaining <==> s in Elements(taskOrder);
      FollowsItself(taskOrder);
      while |remaining| > 0
        invariant ForGraph(graph) && tasks.Keys == old(tasks.Keys)
        invariant Batched(graph, batches, completed, remaining)
        decreases tasks.Keys - completed.Keys
      {
        var readyTasks;
        readyTasks, completed, remaining := Round(graph, batches, completed, remaining);
        if |readyTasks| == 0 {
          BlockRemaining(remaining, completed, graph);
          break;
        }
        batches := batches + [readyTasks];
      }
      StartableChosen(lifecycle, graph, tasks.Keys, completed.Keys);
      assert Startable(ChosenEdges(graph, tasks.Keys), Able(lifecycle, graph, tasks.Keys), completed.Keys) <= completed.Keys;
      MakesSchedule(lifecycle, graph, tasks.Keys, batches);
    }

    /** One pending task per given slice; ids that name no slice are dropped. */
    method BuildTasks(graph: Graph, targetSlices: seq<Id>)
      modifies this
      ensures ForGraph(graph) && Follows(targetSlices, taskOrder)
      ensures tasks.Keys == Elements(targetSlices) * graph.nodes.Keys
    {
      hide Follows;
      tasks, taskOrder := map[], [];
      NothingFollows(targetSlices);
      for k := 0 to |targetSlices|
        invariant ForGraph(graph) && Follows(targetSlices, taskOrder)
        invariant forall s :: s in tasks <==> s in targetSlices[..k] && s in graph.nodes
      {
        var sliceId := targetSlices[k];
        assert targetSlices[..k + 1] == targetSlices[..k] + [sliceId];
        if sliceId !in graph.nodes {
          continue;
        }
        if sliceId !in tasks {
          assert sliceId !in targetSlices[..k];
          assert forall s :: s in taskOrder ==> s in Elements(taskOrder) && s in targetSlices[..k];
          FirstFollows(targetSlices, taskOrder, k);
          taskOrder := taskOrder + [sliceId];
        }
        tasks := tasks[sliceId := ExecutionTask(Pending, Targets(graph.nodes[sliceId].dependencies), [])];
      }
      assert targetSlices[..|targetSlices|] == targetSlices;
    }

    /** Schedules the given slices, or all of them. */
    method Schedule(graph: Graph, sliceIds: Option<seq<Id>>) returns (r: SchedulerResult)
      modifies this
      ensures ForGraph(graph)
      ensures tasks.Keys == Elements(sliceIds.GetOr(graph.order)) * graph.nodes.Keys
      ensures r.totalSlices == |tasks| && r.totalBatches == |r.batches|
      ensures IsSchedule(lifecycle, graph, tasks.Keys, r.batches)
      ensures r.executionOrder == Flat(r.batches, |r.batches|)
      ensures forall k :: 0 <= k < |r.batches| ==> Follows(sliceIds.GetOr(graph.order), r.batches[k])
      ensures forall s :: s in tasks ==>
                tasks[s].status == if s in Done(r.batches, |r.batches|) then Ready else Blocked
    {
      hide IsSchedule, ForGraph, Done, Follows;
      BuildTasks(graph, sliceIds.GetOr(graph.order));
      var batches := ComputeBatches(graph);
      forall k | 0 <= k < |batches| ensures Follows(sliceIds.GetOr(graph.order), batches[k]) {
        FollowsTransitive(sliceIds.GetOr(graph.order), taskOrder, batches[k]);
      }
      var executionOrder := [];
      for k := 0 to |batches|
        invariant executionOrder == Flat(batches, k)
      {
        executionOrder := executionOrder + batches[k];
      }
      r := SchedulerResult(|tasks|, |batches|, batches, executionOrder);
    }

    // ----- execution -----

    /**
     * Blocks the slices that depend on a failed one, unless they have failed or are blocked already,
     * and lists them.
     */
    method PropagateFailure(failed: Id, graph: Graph) returns (affected: seq<Id>)
      requires WellFormed(graph) && EdgesMatchNodes(graph)
      modifies this`tasks
      ensures tasks.Keys == old(tasks).Keys
      ensures Distinct(affected)
      ensures forall s :: s in affected <==>
                s in old(tasks) && Reaches(AllEdges(graph), s, failed) &&
                !old(tasks)[s].status.Failed? && !old(tasks)[s].status.Blocked?
      ensures forall s :: s in tasks ==>
                tasks[s] == if s in affected then old(tasks)[s].(status := Blocked, blockedBy := [NotCompleted(failed)])
                            else old(tasks)[s]
    {
      var downstream := GetDownstream(graph, failed);
      hide Reaches, AllEdges, WellFormed, EdgesMatchNodes;
      affected := [];
      for k := 0 to |downstream|
        invariant tasks.Keys == old(tasks).Keys
        invariant Distinct(affected)
        invariant forall s :: s in affected <==>
                    s in old(tasks) && s in downstream[..k] &&
                    !old(tasks)[s].status.Failed? && !old(tasks)[s].status.Blocked?
        invariant forall s :: s in tasks ==>
                    tasks[s] == if s in affected then old(tasks)[s].(status := Blocked, blockedBy := [NotCompleted(failed)])
                            else old(tasks)[s]
      {
        var id := downstream[k];
        assert downstream[..k + 1] == downstream[..k] + [id];
        if id in tasks && !tasks[id].status.Failed? && !tasks[id].status.Blocked? {
          tasks := tasks[id := tasks[id].(status := Blocked, blockedBy := [NotCompleted(failed)])];
          affected := affected + [id];
        }
      }
      assert downstream[..|downstream|] == downstream;
    }

    /** The first half of running a task: it starts if it is ready and is blocked otherwise. */
    method StartTask(sliceId: Id, graph: Graph) returns (started: bool)
      requires sliceId in tasks
      modifies this`tasks
      ensures tasks.Keys == old(tasks).Keys
      ensures forall s :: s in tasks && s != sliceId ==> tasks[s] == old(tasks)[s]
      ensures tasks[sliceId].status == if started then Running else Blocked
      ensures started <==>
                sliceId in graph.nodes &&
                forall d :: d in graph.nodes[sliceId].dependencies ==>
                  DependencyReady(lifecycle, graph, CompletedTasks(old(tasks)), d)
      ensures started <==>
                sliceId in graph.nodes &&
                forall d :: d in graph.nodes[sliceId].dependencies ==>
                  (d.sliceId in old(tasks) && old(tasks)[d.sliceId].status.Completed?) || StateMet(lifecycle, graph, d)
    {
      var completed := CompletedTasks(tasks);
      var reason := CheckReadiness(sliceId, graph, completed);
      started := reason.None?;
      if started {
        tasks := tasks[sliceId := tasks[sliceId].(status := Running)];
      } else {
        tasks := tasks[sliceId := tasks[sliceId].(status := Blocked, blockedBy := [reason.value])];
      }
    }

    /** The second half: the pipeline of the slice has succeeded or failed. */
    method FinishTask(sliceId: Id, success: bool, graph: Graph)
      requires WellFormed(graph) && EdgesMatchNodes(graph) && sliceId in tasks
      modifies this`tasks
      ensures tasks.Keys == old(tasks).Keys
      ensures success ==> tasks == old(tasks)[sliceId := old(tasks)[sliceId].(status := Completed)]
      ensures !success ==> tasks[sliceId].status.Failed?
      ensures !success ==> forall s :: s in tasks && s != sliceId ==>
                tasks[s].status == if Reaches(AllEdges(graph), s, sliceId) && !old(tasks)[s].status.Failed? then Blocked
                                   else old(tasks)[s].status
      ensures !success ==> forall s :: s in tasks && s != sliceId ==>
                || tasks[s] == old(tasks)[s]
                || tasks[s] == old(tasks)[s].(status := Blocked, blockedBy := [NotCompleted(sliceId)])
    {
      if success {
        tasks := tasks[sliceId := tasks[sliceId].(status := Completed)];
      } else {
        tasks := tasks[sliceId := tasks[sliceId].(status := Failed)];
        var affected := PropagateFailure(sliceId, graph);
      }
    }

    /** Starts the tasks of a chunk, at most `maxConcurrent`, one after the other. `ran` are those of the batch that have run. */
    method StartChunk(ghost e: Execution, graph: Graph, ghost chosen: set<Id>, ghost n: nat,
                      ghost ran0: set<Id>, chunk: seq<Id>, ghost maxConcurrent: nat)
      returns (pending: set<Id>, ghost ran: set<Id>)
      requires Planned(e, chosen) && e.lifecycle == lifecycle && e.graph == graph && tasks.Keys == e.Scheduled()
      requires |chunk| <= maxConcurrent
      requires e.First() <= n < |e.batches| && Distinct(chunk) && forall s :: s in chunk ==> s in e.batches[n] && s !in ran0
      requires During(e, n, ran0, {}, tasks) && ran0 <= tasks.Keys
      modifies this`tasks
      ensures tasks.Keys == old(tasks).Keys
      ensures During(e, n, ran, pending, tasks)
      ensures ran + pending == ran0 + Elements(chunk) && ran !! pending
    {
      hide Planned, During, Done, DependencyReady, CompletedTasks;
      pending, ran := {}, ran0;
      for k := 0 to |chunk|
        invariant tasks.Keys == old(tasks).Keys
        invariant During(e, n, ran, pending, tasks)
        invariant ran + pending == ran0 + Elements(chunk[..k]) && ran !! pending
      {
        var id := chunk[k];
        assert chunk[..k + 1] == chunk[..k] + [id];
        assert id !in Elements(chunk[..k]);
        InTurn(e, chosen, n, ran, pending, tasks, id);
        ghost var before := tasks;
        var started := StartTask(id, graph);
        StartStep(e, n, ran, pending, before, id, started, tasks);
        if started {
          pending := pending + {id};
        } else {
          ran := ran + {id};
        }
      }
      assert chunk[..|chunk|] == chunk;
    }

    /** The started tasks succeed or fail as their pipelines do, in any order. */
    method FinishChunk(ghost e: Execution, graph: Graph, pipeline: Id -> bool, ghost n: nat, ghost ran0: set<Id>, pending0: set<Id>)
      requires WellFormed(graph) && EdgesMatchNodes(graph) && e.graph == graph && e.pipeline == pipeline
      requires n <= |e.batches| && During(e, n, ran0, pending0, tasks) && pending0 <= tasks.Keys
      requires ran0 !! pending0 && Done(e.batches, n) !! pending0
      modifies this`tasks
      ensures tasks.Keys == old(tasks).Keys
      ensures During(e, n, ran0 + pending0, {}, tasks)
    {
      hide WellFormed, EdgesMatchNodes, During, Reaches, Done;
      var pending := pending0;
      ghost var ran := ran0;
      while pending != {}
        invariant tasks.Keys == old(tasks).Keys && pending <= pending0
        invariant During(e, n, ran, pending, tasks)
        invariant ran + pending == ran0 + pending0 && ran !! pending
        decreases pending
      {
        var id :| id in pending;
        ghost var before := tasks;
        FinishTask(id, pipeline(id), graph);
        FinishStep(e, n, ran, pending, before, id, tasks);
        pending := pending - {id};
        ran := ran + {id};
      }
      assert ran == ran0 + pending0;
    }

    /** Runs a batch in chunks of `maxConcurrent` tasks. */
    method ExecuteBatch(ghost e: Execution, graph: Graph, pipeline: Id -> bool, ghost chosen: set<Id>, ghost n: nat,
                        batch: seq<Id>, maxConcurrent: nat)
      requires maxConcurrent > 0 && WellFormed(graph) && EdgesMatchNodes(graph)
      requires Planned(e, chosen) && e.lifecycle == lifecycle && e.graph == graph && e.pipeline == pipeline
      requires tasks.Keys == e.Scheduled()
      requires e.First() <= n < |e.batches| && batch == e.batches[n]
      requires During(e, n, {}, {}, tasks)
      modifies this`tasks
      ensures tasks.Keys == old(tasks).Keys
      ensures During(e, n, Elements(batch), {}, tasks)
    {
      hide Planned, During, WellFormed, EdgesMatchNodes, Done;
      BatchIsNew(e, chosen, n);
      var j := 0;
      ghost var ran: set<Id> := {};
      while j < |batch|
        invariant j <= |batch| && tasks.Keys == old(tasks).Keys
        invariant ran == Elements(batch[..j])
        invariant During(e, n, ran, {}, tasks)
      {
        var next := Min(j + maxConcurrent, |batch|);
        var chunk := batch[j..next];
        assert batch[..next] == batch[..j] + chunk;
        assert forall s :: s in chunk ==> s in batch && s !in batch[..j];
        var pending;
        ghost var ran1;
        pending, ran1 := StartChunk(e, graph, chosen, n, ran, chunk, maxConcurrent);
        assert pending <= Elements(batch) by {
          assert forall s :: s in pending ==> s in ran + Elements(chunk);
        }
        FinishChunk(e, graph, pipeline, n, ran1, pending);
        ran := ran1 + pending;
        j := next;
      }
      assert batch[..|batch|] == batch;
    }

    /** Marks the tasks of the batches after `stop` as skipped. */
    method SkipAfter(batches: seq<seq<Id>>, stop: nat)
      requires stop < |batches| && tasks.Keys == Done(batches, |batches|)
      modifies this`tasks
      ensures tasks.Keys == old(tasks).Keys
      ensures forall s :: s in tasks ==>
                tasks[s].status == if exists m :: stop < m < |batches| && s in batches[m] then Skipped
                                   else old(tasks)[s].status
    {
      hide Done;
      for m := stop + 1 to |batches|
        invariant tasks.Keys == old(tasks).Keys
        invariant forall s :: s in tasks ==>
                    tasks[s].status == if exists i :: stop < i < m && s in batches[i] then Skipped
                                       else old(tasks)[s].status
      {
        SkipBatch(batches[m]);
      }
    }

    method SkipBatch(batch: seq<Id>)
      modifies this`tasks
      ensures tasks.Keys == old(tasks).Keys
      ensures forall s :: s in tasks ==> tasks[s].status == if s in batch then Skipped else old(tasks)[s].status
    {
      for k := 0 to |batch|
        invariant tasks.Keys == old(tasks).Keys
        invariant forall s :: s in tasks ==> tasks[s].status == if s in batch[..k] then Skipped else old(tasks)[s].status
      {
        assert batch[..k + 1] == batch[..k] + [batch[k]];
        if batch[k] in tasks {
          tasks := tasks[batch[k] := tasks[batch[k]].(status := Skipped)];
        }
      }
      assert batch[..|batch|] == batch;
    }

    /** Schedules the slices and keeps the tasks that are in a batch. */
    method Prepare(graph: Graph, sliceIds: Option<seq<Id>>, fromBatch: nat, pipeline: Id -> bool)
      returns (schedule: SchedulerResult)
      modifies this
      ensures
        var e := Execution(lifecycle, graph, schedule.batches, fromBatch, pipeline);
        && Planned(e, Elements(sliceIds.GetOr(graph.order)) * graph.nodes.Keys)
        && tasks.Keys == e.Scheduled()
        && During(e, e.First(), {}, {}, tasks) && NoneFailed(tasks)
    {
      hide IsSchedule, ForGraph, During;
      schedule := Schedule(graph, sliceIds);
      ghost var e := Execution(lifecycle, graph, schedule.batches, fromBatch, pipeline);
      DoneAreChosen(e, tasks.Keys);
      tasks := map s | s in tasks && tasks[s].status.Ready? :: tasks[s];
      AllReady(e, tasks);
    }

    /**
     * Schedules the slices and runs batch after batch from `fromBatch` on, up to the first batch in
     * which a slice fails. `stop` is that batch, or the number of batches. `pipeline` tells which
     * slices succeed when they are run.
     */
    method Execute(graph: Graph, sliceIds: Option<seq<Id>>, maxConcurrent: nat, fromBatch: nat, pipeline: Id -> bool)
      returns (schedule: SchedulerResult, stop: nat)
      requires maxConcurrent > 0 && WellFormed(graph) && EdgesMatchNodes(graph)
      modifies this
      ensures
        var e := Execution(lifecycle, graph, schedule.batches, fromBatch, pipeline);
        && Planned(e, Elements(sliceIds.GetOr(graph.order)) * graph.nodes.Keys)
        && tasks.Keys == e.Scheduled()
        && Outcome(e, stop, tasks)
    {
      hide Planned, WellFormed, EdgesMatchNodes, During, Outcome, Done;
      schedule := Prepare(graph, sliceIds, fromBatch, pipeline);
      ghost var chosen := Elements(sliceIds.GetOr(graph.order)) * graph.nodes.Keys;
      ghost var e := Execution(lifecycle, graph, schedule.batches, fromBatch, pipeline);
      var batches := schedule.batches;
      stop := Min(fromBatch, |batches|);
      while stop < |batches|
        invariant e.First() <= stop <= |batches| && tasks.Keys == e.Scheduled()
        invariant During(e, stop, {}, {}, tasks) && NoneFailed(tasks)
      {
        ExecuteBatch(e, graph, pipeline, chosen, stop, batches[stop], maxConcurrent);
        var failures := set s | s in batches[stop] && s in tasks && tasks[s].status.Failed?;
        if failures != {} {
          ghost var before := tasks;
          SkipAfter(batches, stop);
          StoppedAt(e, chosen, stop, before, tasks);
          return;
        }
        assert forall s :: s in batches[stop] && s in tasks ==> s !in failures;
        BatchSucceeded(e, chosen, stop, tasks);
        stop := stop + 1;
      }
      AllRun(e, tasks);
    }
  }

  // ----- execution -----

  /** What is executed: a schedule, from which batch on, and which slices succeed when they are run. */
  datatype Execution = Execution(
    lifecycle: seq<State>, graph: Graph, batches: seq<seq<Id>>, from: nat, pipeline: Id -> bool)
  {
    ghost function Scheduled(): set<Id> {
      Done(batches, |batches|)
    }

    /** The first batch that is run, or the number of batches. */
    ghost function First(): (n: nat)
      ensures n <= |batches|
    {
      Min(from, |batches|)
    }
  }

  ghost predicate Planned(e: Execution, chosen: set<Id>) {
    IsSchedule(e.lifecycle, e.graph, chosen, e.batches)
  }

  /** Every dependency of the slice has been run by this execution, or is far enough in its lifecycle anyway. */
  ghost predicate CanStart(e: Execution, run: set<Id>, s: Id) {
    s in e.graph.nodes &&
    forall d :: d in e.graph.nodes[s].dependencies ==> d.sliceId in run || StateMet(e.lifecycle, e.graph, d)
  }

  ghost function Starting(e: Execution, batch: seq<Id>, run: set<Id>): set<Id> {
    set s | s in batch && CanStart(e, run, s)
  }

  /** The slices of the first `k` batches that are run when nothing fails. */
  ghost function RunUpTo(e: Execution, k: nat): set<Id>
    requires k <= |e.batches|
  {
    if k <= e.from then {}
    else RunUpTo(e, k - 1) + Starting(e, e.batches[k - 1], RunUpTo(e, k - 1))
  }

  ghost predicate Starts(e: Execution, s: Id) {
    s in RunUpTo(e, |e.batches|)
  }

  function CompletedTasks(tasks: map<Id, ExecutionTask>): map<Id, ExecutionTask> {
    map s | s in tasks && tasks[s].status.Completed? :: tasks[s]
  }

  ghost predicate NoneFailed(tasks: map<Id, ExecutionTask>) {
    forall s :: s in tasks ==> !tasks[s].status.Failed?
  }

  /** The slice depends on a failed one, directly or not. */
  ghost predicate LeadsToFailed(graph: Graph, tasks: map<Id, ExecutionTask>, s: Id) {
    exists t :: t in tasks && tasks[t].status.Failed? && Reaches(AllEdges(graph), s, t)
  }

  /** A slice of a batch before the one that runs. */
  ghost predicate RunBefore(e: Execution, tasks: map<Id, ExecutionTask>, s: Id)
    requires s in tasks
  {
    if s in Done(e.batches, e.First()) then
      tasks[s].status == if LeadsToFailed(e.graph, tasks, s) then Blocked else Ready
    else if Starts(e, s) then
      e.pipeline(s) && tasks[s].status == if LeadsToFailed(e.graph, tasks, s) then Blocked else Completed
    else
      tasks[s].status == Blocked
  }

  /** A slice of the batch that runs, after its turn. */
  ghost predicate RunNow(e: Execution, tasks: map<Id, ExecutionTask>, s: Id)
    requires s in tasks
  {
    match tasks[s].status
    case Completed => Starts(e, s) && e.pipeline(s)
    case Failed => Starts(e, s) && !e.pipeline(s)
    case Blocked => !Starts(e, s) || LeadsToFailed(e.graph, tasks, s)
    case _ => false
  }

  /** A slice that has started and not finished. */
  ghost predicate UnderWay(e: Execution, tasks: map<Id, ExecutionTask>, s: Id)
    requires s in tasks
  {
    && Starts(e, s)
    && (tasks[s].status.Running? || (tasks[s].status.Blocked? && LeadsToFailed(e.graph, tasks, s)))
  }

  /** A slice whose turn is to come. */
  ghost predicate RunLater(e: Execution, tasks: map<Id, ExecutionTask>, s: Id)
    requires s in tasks
  {
    tasks[s].status == if LeadsToFailed(e.graph, tasks, s) then Blocked else Ready
  }

  /** The first `n` batches are over without a failure; of the next one `ran` have run and `pending` run. */
  ghost predicate During(e: Execution, n: nat, ran: set<Id>, pending: set<Id>, tasks: map<Id, ExecutionTask>)
    requires n <= |e.batches|
  {
    forall s :: s in tasks ==>
      if s in Done(e.batches, n) then RunBefore(e, tasks, s)
      else if s in pending then UnderWay(e, tasks, s)
      else if s in ran then RunNow(e, tasks, s)
      else RunLater(e, tasks, s)
  }

  /**
   * What an execution leaves. Before `stop` every slice that was run has completed, and is blocked
   * afterwards exactly when it depends on a slice that failed; batch `stop`, if there is one, holds
   * all failures, and everything after it is skipped.
   */
  ghost predicate Outcome(e: Execution, stop: nat, tasks: map<Id, ExecutionTask>) {
    && e.First() <= stop <= |e.batches|
    && (stop < |e.batches| ==> exists s :: s in e.batches[stop] && s in tasks && tasks[s].status.Failed?)
    && (forall s :: s in tasks && tasks[s].status.Failed? ==> stop < |e.batches| && s in e.batches[stop])
    && forall s :: s in tasks ==>
         if s in Done(e.batches, stop) then RunBefore(e, tasks, s)
         else if stop < |e.batches| && s in e.batches[stop] then RunNow(e, tasks, s)
         else tasks[s].status.Skipped?
  }

  /** The same slices lead to failed ones when the same have failed. */
  lemma SameFailures(graph: Graph, before: map<Id, ExecutionTask>, tasks: map<Id, ExecutionTask>)
    requires tasks.Keys == before.Keys
    requires forall t :: t in tasks ==> (tasks[t].status.Failed? <==> before[t].status.Failed?)
    ensures forall s :: LeadsToFailed(graph, tasks, s) <==> LeadsToFailed(graph, before, s)
  {
    hide Reaches, AllEdges;
  }

  lemma OneMoreFailure(graph: Graph, before: map<Id, ExecutionTask>, tasks: map<Id, ExecutionTask>, id: Id)
    requires tasks.Keys == before.Keys && id in tasks && tasks[id].status.Failed?
    requires forall t :: t in tasks && t != id ==> (tasks[t].status.Failed? <==> before[t].status.Failed?)
    requires !before[id].status.Failed?
    ensures forall s :: LeadsToFailed(graph, tasks, s) <==>
                        LeadsToFailed(graph, before, s) || Reaches(AllEdges(graph), s, id)
  {
    hide Reaches, AllEdges;
    forall s ensures LeadsToFailed(graph, tasks, s) <==> LeadsToFailed(graph, before, s) || Reaches(AllEdges(graph), s, id) {
      if t :| t in before && before[t].status.Failed? && Reaches(AllEdges(graph), s, t) {
        assert t in tasks && tasks[t].status.Failed?;
      }
    }
  }

  lemma StartStep(e: Execution, n: nat, ran: set<Id>, pending: set<Id>,
                  before: map<Id, ExecutionTask>, id: Id, started: bool, tasks: map<Id, ExecutionTask>)
    requires n <= |e.batches| && During(e, n, ran, pending, before)
    requires id in before && id !in Done(e.batches, n) && id !in ran && id !in pending
    requires tasks.Keys == before.Keys && forall s :: s in tasks && s != id ==> tasks[s] == before[s]
    requires tasks[id].status == if started then Running else Blocked
    requires if started then Starts(e, id) else !Starts(e, id) || LeadsToFailed(e.graph, before, id)
    ensures During(e, n, if started then ran else ran + {id}, if started then pending + {id} else pending, tasks)
  {
    hide LeadsToFailed, Starts, Done;
    assert RunLater(e, before, id);
    SameFailures(e.graph, before, tasks);
  }

  lemma FinishStep(e: Execution, n: nat, ran: set<Id>, pending: set<Id>,
                   before: map<Id, ExecutionTask>, id: Id, tasks: map<Id, ExecutionTask>)
    requires n <= |e.batches| && During(e, n, ran, pending, before)
    requires id in before && id in pending && id !in Done(e.batches, n) && id !in ran
    requires tasks.Keys == before.Keys
    requires e.pipeline(id) ==> tasks == before[id := before[id].(status := Completed)]
    requires !e.pipeline(id) ==> tasks[id].status.Failed?
    requires !e.pipeline(id) ==> forall s :: s in tasks && s != id ==>
               tasks[s].status == if Reaches(AllEdges(e.graph), s, id) && !before[s].status.Failed? then Blocked
                                  else before[s].status
    ensures During(e, n, ran + {id}, pending - {id}, tasks)
  {
    hide LeadsToFailed, Starts, Done, Reaches, AllEdges;
    assert UnderWay(e, before, id);
    if e.pipeline(id) {
      SameFailures(e.graph, before, tasks);
    } else {
      OneMoreFailure(e.graph, before, tasks, id);
    }
  }

  // ----- which slices start -----

  lemma RunInOneMore(e: Execution, k: nat, s: Id)
    requires e.from <= k < |e.batches|
    ensures s in RunUpTo(e, k + 1) <==>
            s in RunUpTo(e, k) || (s in e.batches[k] && CanStart(e, RunUpTo(e, k), s))
  {
    hide CanStart;
  }

  lemma {:induction false} RunUpToMember(e: Execution, k: nat, s: Id)
    requires k <= |e.batches|
    ensures s in RunUpTo(e, k) <==>
            exists m :: e.from <= m < k && s in e.batches[m] && CanStart(e, RunUpTo(e, m), s)
  {
    hide CanStart;
    if k > e.from {
      RunUpToMember(e, k - 1, s);
      RunInOneMore(e, k - 1, s);
      hide RunUpTo;
    }
  }

  lemma {:induction false} RunAreScheduled(e: Execution, k: nat, s: Id)
    requires k <= |e.batches| && s in RunUpTo(e, k)
    ensures s in Done(e.batches, k)
  {
    RunUpToMember(e, k, s);
    var m :| e.from <= m < k && s in e.batches[m] && CanStart(e, RunUpTo(e, m), s);
    DoneMember(e.batches, k, s);
  }

  /** A dependency that is scheduled at all is in an earlier batch. */
  lemma ScheduledDependency(e: Execution, chosen: set<Id>, n: nat, s: Id, d: Dependency)
    requires Planned(e, chosen) && n < |e.batches| && s in e.batches[n]
    ensures s in e.graph.nodes && s in e.Scheduled() && s in chosen
    ensures d in e.graph.nodes[s].dependencies && d.sliceId in chosen ==> d.sliceId in Done(e.batches, n)
    ensures d in e.graph.nodes[s].dependencies && d.sliceId !in chosen ==> StateMet(e.lifecycle, e.graph, d)
    ensures d in e.graph.nodes[s].dependencies ==> Reaches(AllEdges(e.graph), s, d.sliceId)
  {
    hide StateMet;
    var a, able := ChosenEdges(e.graph, chosen), Able(e.lifecycle, e.graph, chosen);
    DoneMember(e.batches, |e.batches|, s);
    DoneAreChosen(e, chosen);
    BatchNumber(a, able, e.batches, n, s);
    if d in e.graph.nodes[s].dependencies {
      var dependencies := e.graph.nodes[s].dependencies;
      var k :| 0 <= k < |dependencies| && dependencies[k] == d;
      assert Targets(dependencies)[k] == d.sliceId;
      EdgeReaches(AllEdges(e.graph), s, d.sliceId);
    }
  }

  /**
   * A scheduled slice is run, if nothing fails before, exactly when its batch is not before the first
   * and each of its dependencies is run too or far enough in its lifecycle.
   */
  lemma StartsIff(e: Execution, chosen: set<Id>, n: nat, s: Id)
    requires Planned(e, chosen) && n < |e.batches| && s in e.batches[n]
    ensures Starts(e, s) <==> e.from <= n && CanStart(e, RunUpTo(e, |e.batches|), s)
  {
    hide StateMet, IsSchedule;
    forall m | 0 <= m < |e.batches| && s in e.batches[m] ensures m == n {
      OneBatch(e, chosen, m, n, s);
    }
    RunUpToMember(e, |e.batches|, s);
    if e.from <= n && s in e.graph.nodes {
      forall d | d in e.graph.nodes[s].dependencies && !StateMet(e.lifecycle, e.graph, d)
        ensures d.sliceId in RunUpTo(e, n) <==> d.sliceId in RunUpTo(e, |e.batches|)
      {
        ScheduledDependency(e, chosen, n, s, d);
        RunSettled(e, chosen, n, d.sliceId);
      }
    }
  }

  lemma OneBatch(e: Execution, chosen: set<Id>, m: nat, n: nat, s: Id)
    requires Planned(e, chosen) && m < |e.batches| && n < |e.batches| && s in e.batches[m] && s in e.batches[n]
    ensures m == n
  {
    InOneBatch(ChosenEdges(e.graph, chosen), Able(e.lifecycle, e.graph, chosen), e.batches, m, n, s);
  }

  /** Whether a slice of the first `n` batches is run is settled by them. */
  lemma RunSettled(e: Execution, chosen: set<Id>, n: nat, s: Id)
    requires Planned(e, chosen) && n <= |e.batches| && s in Done(e.batches, n)
    ensures s in RunUpTo(e, n) <==> s in RunUpTo(e, |e.batches|)
  {
    hide Planned, CanStart;
    RunUpToMember(e, n, s);
    RunUpToMember(e, |e.batches|, s);
    DoneMember(e.batches, n, s);
    var k :| 0 <= k < n && s in e.batches[k];
    forall m | 0 <= m < |e.batches| && s in e.batches[m] ensures m == k {
      OneBatch(e, chosen, m, k, s);
    }
  }

  /** An execution from batch 0 runs every scheduled slice, up to a failure. */
  lemma {:induction false} AllStart(e: Execution, chosen: set<Id>, n: nat, s: Id)
    requires Planned(e, chosen) && e.from == 0 && n < |e.batches| && s in e.batches[n]
    ensures Starts(e, s)
    decreases n
  {
    hide StateMet, Planned;
    StartsIff(e, chosen, n, s);
    IsNode(e, chosen, n, s);
    forall d | d in e.graph.nodes[s].dependencies && !StateMet(e.lifecycle, e.graph, d)
      ensures d.sliceId in RunUpTo(e, |e.batches|)
    {
      ScheduledDependency(e, chosen, n, s, d);
      DoneMember(e.batches, n, d.sliceId);
      var m :| 0 <= m < n && d.sliceId in e.batches[m];
      AllStart(e, chosen, m, d.sliceId);
    }
  }

  lemma IsNode(e: Execution, chosen: set<Id>, n: nat, s: Id)
    requires Planned(e, chosen) && n < |e.batches| && s in e.batches[n]
    ensures s in e.graph.nodes
  {
    DoneMember(e.batches, |e.batches|, s);
    DoneAreChosen(e, chosen);
  }

  /** At its turn a task is ready exactly when it is to be run and no failure has reached a dependency. */
  lemma InTurn(e: Execution, chosen: set<Id>, n: nat, ran: set<Id>, pending: set<Id>,
               tasks: map<Id, ExecutionTask>, id: Id)
    requires Planned(e, chosen) && tasks.Keys == e.Scheduled()
    requires e.First() <= n < |e.batches| && id in e.batches[n]
    requires During(e, n, ran, pending, tasks)
    ensures id in tasks && id !in Done(e.batches, n) && id in e.graph.nodes
    ensures
      if forall d :: d in e.graph.nodes[id].dependencies ==>
           DependencyReady(e.lifecycle, e.graph, CompletedTasks(tasks), d)
      then Starts(e, id) else !Starts(e, id) || LeadsToFailed(e.graph, tasks, id)
  {
    hide Planned, During, Done;
    BatchIsNew(e, chosen, n);
    IsNode(e, chosen, n, id);
    StartsIff(e, chosen, n, id);
    assert id in Elements(e.batches[n]);
    forall d | d in e.graph.nodes[id].dependencies
      ensures DependencyReady(e.lifecycle, e.graph, CompletedTasks(tasks), d) ==>
              Starts(e, d.sliceId) || StateMet(e.lifecycle, e.graph, d)
      ensures !DependencyReady(e.lifecycle, e.graph, CompletedTasks(tasks), d) ==>
              !(Starts(e, d.sliceId) || StateMet(e.lifecycle, e.graph, d)) || LeadsToFailed(e.graph, tasks, id)
    {
      DependencyInTurn(e, chosen, n, ran, pending, tasks, id, d);
    }
  }

  lemma DependencyInTurn(e: Execution, chosen: set<Id>, n: nat, ran: set<Id>, pending: set<Id>,
                         tasks: map<Id, ExecutionTask>, id: Id, d: Dependency)
    requires Planned(e, chosen) && tasks.Keys == e.Scheduled()
    requires e.First() <= n < |e.batches| && id in e.batches[n] && id in e.graph.nodes
    requires During(e, n, ran, pending, tasks) && d in e.graph.nodes[id].dependencies
    ensures DependencyReady(e.lifecycle, e.graph, CompletedTasks(tasks), d) ==>
            Starts(e, d.sliceId) || StateMet(e.lifecycle, e.graph, d)
    ensures !DependencyReady(e.lifecycle, e.graph, CompletedTasks(tasks), d) ==>
            !(Starts(e, d.sliceId) || StateMet(e.lifecycle, e.graph, d)) || LeadsToFailed(e.graph, tasks, id)
  {
    hide Planned, StateMet, Reaches, AllEdges, Starts;
    ScheduledDependency(e, chosen, n, id, d);
    ScheduledAreChosen(e, chosen);
    var v := d.sliceId;
    if v in tasks {
      assert v in Done(e.batches, n);
      assert RunBefore(e, tasks, v);
      if v in Done(e.batches, e.First()) {
        NotRunBeforeFirst(e, chosen, v);
      }
      if LeadsToFailed(e.graph, tasks, v) {
        var t :| t in tasks && tasks[t].status.Failed? && Reaches(AllEdges(e.graph), v, t);
        ReachesTransitive(AllEdges(e.graph), id, v, t);
      }
    } else {
      StartsIsScheduled(e, v);
    }
  }

  lemma ScheduledAreChosen(e: Execution, chosen: set<Id>)
    requires Planned(e, chosen)
    ensures e.Scheduled() <= chosen
  {
    DoneAreChosen(e, chosen);
  }

  lemma StartsIsScheduled(e: Execution, s: Id)
    ensures Starts(e, s) ==> s in e.Scheduled()
  {
    if Starts(e, s) {
      RunAreScheduled(e, |e.batches|, s);
    }
  }

  lemma NotRunBeforeFirst(e: Execution, chosen: set<Id>, s: Id)
    requires Planned(e, chosen) && s in Done(e.batches, e.First())
    ensures !Starts(e, s)
  {
    hide Planned;
    DoneMember(e.batches, e.First(), s);
    var n :| 0 <= n < e.First() && s in e.batches[n];
    StartsIff(e, chosen, n, s);
  }

  // ----- the batches of an execution -----

  lemma {:induction false} DoneGrows(batches: seq<seq<Id>>, n: nat, m: nat)
    requires n <= m <= |batches|
    ensures Done(batches, n) <= Done(batches, m)
  {
    if n < m {
      DoneGrows(batches, n, m - 1);
    }
  }

  lemma DoneAreChosen(e: Execution, chosen: set<Id>)
    requires Planned(e, chosen)
    ensures e.Scheduled() <= Able(e.lifecycle, e.graph, chosen) <= chosen
  {
    forall s | s in e.Scheduled() ensures s in Able(e.lifecycle, e.graph, chosen) {
      DoneMember(e.batches, |e.batches|, s);
      var k :| 0 <= k < |e.batches| && s in e.batches[k];
      assert IsLayer(ChosenEdges(e.graph, chosen), Able(e.lifecycle, e.graph, chosen), e.batches, k);
      assert s in Elements(e.batches[k]);
    }
  }

  lemma BatchIsNew(e: Execution, chosen: set<Id>, n: nat)
    requires Planned(e, chosen) && n < |e.batches|
    ensures Distinct(e.batches[n]) && Done(e.batches, n) !! Elements(e.batches[n])
    ensures Elements(e.batches[n]) <= e.Scheduled()
  {
    hide ChosenEdges, Able;
    LayerIsNew(ChosenEdges(e.graph, chosen), Able(e.lifecycle, e.graph, chosen), e.batches, n);
    DoneGrows(e.batches, n + 1, |e.batches|);
  }

  lemma AllReady(e: Execution, tasks: map<Id, ExecutionTask>)
    requires forall s :: s in tasks ==> tasks[s].status.Ready?
    ensures During(e, e.First(), {}, {}, tasks) && NoneFailed(tasks)
  {
    hide Done;
  }

  lemma NothingFailed(graph: Graph, tasks: map<Id, ExecutionTask>)
    requires NoneFailed(tasks)
    ensures forall s :: !LeadsToFailed(graph, tasks, s)
  {
  }

  lemma BatchSucceeded(e: Execution, chosen: set<Id>, n: nat, tasks: map<Id, ExecutionTask>)
    requires Planned(e, chosen) && e.First() <= n < |e.batches|
    requires During(e, n, Elements(e.batches[n]), {}, tasks)
    requires forall s :: s in e.batches[n] && s in tasks ==> !tasks[s].status.Failed?
    ensures During(e, n + 1, {}, {}, tasks) && NoneFailed(tasks)
  {
    hide Planned, Starts, LeadsToFailed, AllEdges;
    NothingFailed(e.graph, tasks);
    BatchIsNew(e, chosen, n);
    DoneGrows(e.batches, e.First(), n);
  }

  lemma AllRun(e: Execution, tasks: map<Id, ExecutionTask>)
    requires During(e, |e.batches|, {}, {}, tasks) && NoneFailed(tasks) && tasks.Keys == e.Scheduled()
    ensures Outcome(e, |e.batches|, tasks)
  {
    hide LeadsToFailed, Starts;
  }

  lemma StoppedAt(e: Execution, chosen: set<Id>, stop: nat,
                  before: map<Id, ExecutionTask>, tasks: map<Id, ExecutionTask>)
    requires Planned(e, chosen) && e.First() <= stop < |e.batches|
    requires before.Keys == e.Scheduled() && tasks.Keys == before.Keys
    requires During(e, stop, Elements(e.batches[stop]), {}, before)
    requires exists s :: s in e.batches[stop] && s in before && before[s].status.Failed?
    requires forall s :: s in tasks ==>
               tasks[s].status == if exists m :: stop < m < |e.batches| && s in e.batches[m] then Skipped else before[s].status
    ensures Outcome(e, stop, tasks)
  {
    hide Planned, Done, LeadsToFailed, Starts;
    forall s | s in tasks
      ensures s in Done(e.batches, stop) || s in e.batches[stop] ==> tasks[s].status == before[s].status
      ensures s !in Done(e.batches, stop) && s !in e.batches[stop] ==> tasks[s].status.Skipped?
      ensures s in Done(e.batches, stop) ==> s !in e.batches[stop]
      ensures tasks[s].status.Failed? <==> before[s].status.Failed?
      ensures tasks[s].status.Failed? ==> s in e.batches[stop]
    {
      InThreeParts(e, chosen, stop, s);
    }
    SameFailures(e.graph, before, tasks);
  }

  /** A scheduled slice is in a batch before `stop`, in batch `stop`, or in one after it. */
  lemma InThreeParts(e: Execution, chosen: set<Id>, stop: nat, s: Id)
    requires Planned(e, chosen) && stop < |e.batches| && s in e.Scheduled()
    ensures (exists m :: stop < m < |e.batches| && s in e.batches[m]) <==> s !in Done(e.batches, stop) && s !in e.batches[stop]
    ensures s in Done(e.batches, stop) ==> s !in e.batches[stop]
  {
    hide Planned;
    DoneMember(e.batches, |e.batches|, s);
    DoneMember(e.batches, stop, s);
    forall j, k | 0 <= j < |e.batches| && 0 <= k < |e.batches| && s in e.batches[j] && s in e.batches[k] ensures j == k {
      OneBatch(e, chosen, j, k, s);
    }
  }

  // ----- when a failure reaches back -----

  /** No scheduled slice depends, directly or not, on one of a later batch. */
  ghost predicate NoneReachesAhead(graph: Graph, batches: seq<seq<Id>>) {
    forall i, j, s, t :: 0 <= i < j < |batches| && s in batches[i] && t in batches[j] ==> !Reaches(AllEdges(graph), s, t)
  }

  /** The batches before the one where the execution stopped are still completed. */
  ghost predicate EarlierCompleted(e: Execution, stop: nat, tasks: map<Id, ExecutionTask>)
    requires stop <= |e.batches|
  {
    forall s :: s in tasks && s in Done(e.batches, stop) ==> tasks[s].status.Completed?
  }

  /** When only `t` fails every execution stops there, and what depends on `t` in an earlier batch is blocked. */
  lemma FailureReachesBack(e: Execution, chosen: set<Id>, j: nat, t: Id, i: nat, s: Id, stop: nat, tasks: map<Id, ExecutionTask>)
    requires Planned(e, chosen) && e.from == 0 && i < j < |e.batches| && s in e.batches[i] && t in e.batches[j]
    requires Reaches(AllEdges(e.graph), s, t) && forall x :: e.pipeline(x) <==> x != t
    requires tasks.Keys == e.Scheduled() && Outcome(e, stop, tasks)
    ensures stop == j && s in tasks && tasks[s].status.Blocked? && tasks[t].status.Failed?
  {
    hide Planned, Reaches, AllEdges, Done;
    DoneMember(e.batches, |e.batches|, s);
    DoneMember(e.batches, |e.batches|, t);
    NothingBefore(e);
    AllStart(e, chosen, j, t);
    AllStart(e, chosen, i, s);
    if stop == |e.batches| {
      AllSucceeded(e, tasks, t);
      assert false;
    }
    var x :| x in e.batches[stop] && x in tasks && tasks[x].status.Failed?;
    BatchIsNew(e, chosen, stop);
    assert x in Elements(e.batches[stop]);
    assert RunNow(e, tasks, x) && x == t;
    OneBatch(e, chosen, stop, j, t);
    DoneMember(e.batches, stop, s);
    assert LeadsToFailed(e.graph, tasks, s);
    assert RunBefore(e, tasks, s);
  }

  /** In an execution that reaches the end every slice that is run succeeds. */
  lemma AllSucceeded(e: Execution, tasks: map<Id, ExecutionTask>, t: Id)
    requires Outcome(e, |e.batches|, tasks) && e.from == 0 && t in tasks && t in e.Scheduled() && Starts(e, t)
    ensures e.pipeline(t)
  {
    hide LeadsToFailed, Starts;
    NothingBefore(e);
    assert RunBefore(e, tasks, t);
  }

  lemma NothingBefore(e: Execution)
    requires e.from == 0
    ensures e.First() == 0 && Done(e.batches, 0) == {}
  {
  }

  /** The state left when only `t`, of batch `j`, fails. */
  ghost function LeftByFailure(e: Execution, j: nat, t: Id): map<Id, ExecutionTask>
    requires j < |e.batches|
  {
    map s | s in e.Scheduled() ::
      ExecutionTask(if s == t then Failed
                    else if s in Done(e.batches, j) then if Reaches(AllEdges(e.graph), s, t) then Blocked else Completed
                    else if s in e.batches[j] then Completed
                    else Skipped, [], [])
  }

  lemma LeftIsOutcome(e: Execution, chosen: set<Id>, j: nat, t: Id)
    requires Planned(e, chosen) && e.from == 0 && j < |e.batches| && t in e.batches[j]
    requires forall x :: e.pipeline(x) <==> x != t
    ensures Outcome(e, j, LeftByFailure(e, j, t))
  {
    hide Planned, Reaches, AllEdges, Done;
    var tasks := LeftByFailure(e, j, t);
    NothingBefore(e);
    BatchIsNew(e, chosen, j);
    assert t in Elements(e.batches[j]);
    forall s ensures LeadsToFailed(e.graph, tasks, s) <==> Reaches(AllEdges(e.graph), s, t) {
      assert tasks[t].status.Failed?;
    }
    forall s | s in tasks ensures Starts(e, s) {
      DoneMember(e.batches, |e.batches|, s);
      var n :| 0 <= n < |e.batches| && s in e.batches[n];
      AllStart(e, chosen, n, s);
    }
  }

  /** Whatever fails, the batches before the failure stay completed. */
  ghost predicate AlwaysCompleted(lifecycle: seq<State>, graph: Graph, batches: seq<seq<Id>>) {
    forall pipeline: Id -> bool, stop: nat, tasks: map<Id, ExecutionTask> ::
      var e := Execution(lifecycle, graph, batches, 0, pipeline);
      tasks.Keys == e.Scheduled() && Outcome(e, stop, tasks) ==> EarlierCompleted(e, stop, tasks)
  }

  /**
   * In every execution of a schedule the batches before a failure stay completed if and only if no
   * scheduled slice depends, directly or not, on one of a later batch.
   */
  lemma EarlierBatchesStayCompletedIff(lifecycle: seq<State>, graph: Graph, chosen: set<Id>, batches: seq<seq<Id>>)
    requires IsSchedule(lifecycle, graph, chosen, batches)
    ensures AlwaysCompleted(lifecycle, graph, batches) <==> NoneReachesAhead(graph, batches)
  {
    hide IsSchedule, Reaches, AllEdges, RunBefore, RunNow, Done;
    if NoneReachesAhead(graph, batches) {
      forall pipeline: Id -> bool, stop: nat, tasks: map<Id, ExecutionTask> |
        tasks.Keys == Execution(lifecycle, graph, batches, 0, pipeline).Scheduled() &&
        Outcome(Execution(lifecycle, graph, batches, 0, pipeline), stop, tasks)
        ensures stop <= |batches| && EarlierCompleted(Execution(lifecycle, graph, batches, 0, pipeline), stop, tasks)
      {
        StaysCompleted(Execution(lifecycle, graph, batches, 0, pipeline), chosen, stop, tasks);
      }
    } else {
      var i, j, s, t :| 0 <= i < j < |batches| && s in batches[i] && t in batches[j] && Reaches(AllEdges(graph), s, t);
      var e := Execution(lifecycle, graph, batches, 0, x => x != t);
      LeftIsOutcome(e, chosen, j, t);
      FailureReachesBack(e, chosen, j, t, i, s, j, LeftByFailure(e, j, t));
      DoneMember(batches, j, s);
      assert !EarlierCompleted(e, j, LeftByFailure(e, j, t));
    }
  }

  lemma StaysCompleted(e: Execution, chosen: set<Id>, stop: nat, tasks: map<Id, ExecutionTask>)
    requires Planned(e, chosen) && e.from == 0 && NoneReachesAhead(e.graph, e.batches)
    requires tasks.Keys == e.Scheduled() && Outcome(e, stop, tasks)
    ensures EarlierCompleted(e, stop, tasks)
  {
    hide Planned, Reaches, AllEdges, Done;
    NothingBefore(e);
    forall s | s in tasks && s in Done(e.batches, stop) ensures tasks[s].status.Completed? {
      assert RunBefore(e, tasks, s);
      DoneMember(e.batches, stop, s);
      var k :| 0 <= k < stop && s in e.batches[k];
      AllStart(e, chosen, k, s);
      forall t | t in tasks && tasks[t].status.Failed? ensures !Reaches(AllEdges(e.graph), s, t) {
        assert k < stop < |e.batches| && t in e.batches[stop];
      }
    }
  }

  /** When every slice was to be scheduled, none depends on one of a later batch. */
  lemma AllScheduledReachBack(lifecycle: seq<State>, graph: Graph, batches: seq<seq<Id>>)
    requires IsSchedule(lifecycle, graph, graph.nodes.Keys, batches)
    ensures NoneReachesAhead(graph, batches)
  {
    hide AllEdges;
    var a, able := ChosenEdges(graph, graph.nodes.Keys), Able(lifecycle, graph, graph.nodes.Keys);
    var e := Execution(lifecycle, graph, batches, 0, x => true);
    forall i, j, s, t | 0 <= i < j < |batches| && s in batches[i] && t in batches[j]
      ensures !Reaches(AllEdges(graph), s, t)
    {
      if p :| Connects(AllEdges(graph), p, s, t) {
        IsNode(e, graph.nodes.Keys, j, t);
        WalkStaysChosen(graph, p);
        var k := WalkGoesToEarlierBatch(a, able, batches, i, p);
        InOneBatch(a, able, batches, j, k, t);
        assert false;
      }
    }
  }

  lemma WalkStaysChosen(graph: Graph, p: seq<Id>)
    requires 2 <= |p| && IsWalk(AllEdges(graph), p) && p[|p| - 1] in graph.nodes
    ensures IsWalk(ChosenEdges(graph, graph.nodes.Keys), p)
  {
    hide AllEdges, ChosenEdges, Next;
    forall k | 0 <= k < |p| - 1 ensures p[k + 1] in Next(ChosenEdges(graph, graph.nodes.Keys), p[k]) {
      assert p[k + 1] in Next(AllEdges(graph), p[k]);
      if k + 1 < |p| - 1 {
        assert p[k + 1 + 1] in Next(AllEdges(graph), p[k + 1]);
        HasNode(graph, p[k + 1], p[k + 1 + 1]);
      }
      EdgeIsChosen(graph, p[k], p[k + 1]);
    }
  }

  lemma HasNode(graph: Graph, u: Id, v: Id)
    requires v in Next(AllEdges(graph), u)
    ensures u in graph.nodes
  {
  }

  lemma EdgeIsChosen(graph: Graph, u: Id, v: Id)
    requires v in Next(AllEdges(graph), u) && v in graph.nodes
    ensures v in Next(ChosenEdges(graph, graph.nodes.Keys), u)
  {
    HasNode(graph, u, v);
  }

  const TO_PRICING := Dependency("pricing", "api", "design", false)
  const TO_TAX := Dependency("tax", "api", "design", false)
  const TO_BASE := Dependency("base", "api", "design", false)

  /** The cart waits for the tax through a pricing that is not scheduled because it is far enough. */
  const SHOP := map[
    "cart" := Node("design", [TO_PRICING]), "pricing" := Node("design", [TO_TAX]),
    "tax" := Node("design", [TO_BASE]), "base" := Node("design", [])]

  lemma ShopEdges(graph: Graph, chosen: set<Id>)
    requires graph.nodes == SHOP && chosen == {"cart", "tax", "base"}
    ensures Next(AllEdges(graph), "cart") == ["pricing"] && Next(AllEdges(graph), "pricing") == ["tax"]
    ensures forall v :: v !in Next(ChosenEdges(graph, chosen), "cart") && v !in Next(ChosenEdges(graph, chosen), "base")
    ensures forall v :: v in Next(ChosenEdges(graph, chosen), "tax") <==> v == "base"
  {
    assert Next(AllEdges(graph), "tax") == ["base"] && Next(AllEdges(graph), "base") == [];
  }

  lemma ShopAble(graph: Graph, chosen: set<Id>)
    requires graph.nodes == SHOP && chosen == {"cart", "tax", "base"}
    ensures Able(["design"], graph, chosen) == chosen
  {
    assert IndexOf(["design"], "design") == 0;
    assert StateMet(["design"], graph, TO_PRICING);
  }

  lemma ShopSchedule(graph: Graph, chosen: set<Id>, batches: seq<seq<Id>>)
    requires graph.nodes == SHOP && chosen == {"cart", "tax", "base"} && batches == [["cart", "base"], ["tax"]]
    ensures IsSchedule(["design"], graph, chosen, batches)
    ensures Reaches(AllEdges(graph), "cart", "tax")
  {
    hide AllEdges, ChosenEdges, Able, StateMet;
    ShopEdges(graph, chosen);
    ShopAble(graph, chosen);
    EdgeReaches(AllEdges(graph), "cart", "pricing");
    EdgeReaches(AllEdges(graph), "pricing", "tax");
    ReachesTransitive(AllEdges(graph), "cart", "pricing", "tax");
    assert Done(batches, 0) == {};
    assert Elements(batches[0]) == {"cart", "base"} && Elements(batches[1]) == {"tax"};
    assert Done(batches, 1) == {"cart", "base"};
    assert Done(batches, 2) == chosen;
  }

  /** A concrete run in which a slice that has completed is blocked afterwards. */
  lemma CompletedSliceIsBlocked(e: Execution, stop: nat, tasks: map<Id, ExecutionTask>)
    requires e.lifecycle == ["design"] && e.graph.nodes == SHOP && e.from == 0
    requires e.batches == [["cart", "base"], ["tax"]] && forall s :: e.pipeline(s) <==> s != "tax"
    requires tasks.Keys == e.Scheduled() && Outcome(e, stop, tasks)
    ensures Planned(e, {"cart", "tax", "base"}) && Starts(e, "cart") && e.pipeline("cart")
    ensures stop == 1 && "cart" in e.batches[0] && "cart" in tasks && tasks["cart"].status.Blocked?
  {
    hide IsSchedule, Outcome, Starts, Reaches;
    ShopSchedule(e.graph, {"cart", "tax", "base"}, e.batches);
    FailureReachesBack(e, {"cart", "tax", "base"}, 1, "tax", 0, "cart", stop, tasks);
    AllStart(e, {"cart", "tax", "base"}, 0, "cart");
  }

  // ----- the lifecycle -----

  /**
   * A requirement is met by an upstream slice whose state stands at the same place in the lifecycle or
   * further on. A requirement that the lifecycle does not list is met by every slice, and a slice whose
   * state it does not list meets no other.
   */
  lemma StateMetIff(lifecycle: seq<State>, graph: Graph, d: Dependency, i: nat)
    requires Distinct(lifecycle) && d.sliceId in graph.nodes && i < |lifecycle|
    ensures forall j :: 0 <= j < |lifecycle| && d.requiredState == lifecycle[i] && graph.nodes[d.sliceId].state == lifecycle[j] ==>
              (StateMet(lifecycle, graph, d) <==> i <= j)
    ensures d.requiredState == lifecycle[i] && graph.nodes[d.sliceId].state !in lifecycle ==> !StateMet(lifecycle, graph, d)
    ensures d.requiredState !in lifecycle ==> StateMet(lifecycle, graph, d)
  {
    hide IndexOf;
    forall j | 0 <= j < |lifecycle| && d.requiredState == lifecycle[i] && graph.nodes[d.sliceId].state == lifecycle[j]
      ensures StateMet(lifecycle, graph, d) <==> i <= j
    {
      PlaceOf(lifecycle, i);
      PlaceOf(lifecycle, j);
    }
    if d.requiredState == lifecycle[i] {
      PlaceOf(lifecycle, i);
    }
    PlaceOrNone(lifecycle, d.requiredState);
    PlaceOrNone(lifecycle, graph.nodes[d.sliceId].state);
  }

  /** A dependency on a slice that does not exist is never met. */
  lemma MissingUpstreamIsNotMet(lifecycle: seq<State>, graph: Graph, d: Dependency)
    requires d.sliceId !in graph.nodes
    ensures !StateMet(lifecycle, graph, d)
  {
  }

  lemma PlaceOf(lifecycle: seq<State>, i: nat)
    requires Distinct(lifecycle) && i < |lifecycle|
    ensures IndexOf(lifecycle, lifecycle[i]) == i
  {
    IndexOfDistinct(lifecycle, i);
  }

  lemma PlaceOrNone(lifecycle: seq<State>, s: State)
    ensures if s in lifecycle then 0 <= IndexOf(lifecycle, s) < |lifecycle| else IndexOf(lifecycle, s) == -1
  {
  }

  /** State `b` is `a` or comes after it in the lifecycle. */
  ghost predicate NotBefore(lifecycle: seq<State>, a: State, b: State) {
    a == b || exists i, j :: 0 <= i < j < |lifecycle| && lifecycle[i] == a && lifecycle[j] == b
  }

  /** The same graph, except that slices may have advanced. */
  ghost predicate Advanced(lifecycle: seq<State>, g: Graph, h: Graph) {
    && g.nodes.Keys == h.nodes.Keys
    && forall s :: s in g.nodes ==>
         g.nodes[s].dependencies == h.nodes[s].dependencies && NotBefore(lifecycle, g.nodes[s].state, h.nodes[s].state)
  }

  lemma AdvancedMeets(lifecycle: seq<State>, g: Graph, h: Graph, d: Dependency)
    requires Distinct(lifecycle) && Advanced(lifecycle, g, h) && StateMet(lifecycle, g, d)
    ensures StateMet(lifecycle, h, d)
  {
    hide IndexOf;
    var a, b := g.nodes[d.sliceId].state, h.nodes[d.sliceId].state;
    if a != b {
      var i, j :| 0 <= i < j < |lifecycle| && lifecycle[i] == a && lifecycle[j] == b;
      PlaceOf(lifecycle, i);
      PlaceOf(lifecycle, j);
    }
  }

  /** Advancing slices takes no slice out of the schedule. */
  lemma AdvancingKeepsScheduled(lifecycle: seq<State>, g: Graph, h: Graph, chosen: set<Id>,
                                before: seq<seq<Id>>, after: seq<seq<Id>>)
    requires Distinct(lifecycle) && Advanced(lifecycle, g, h)
    requires IsSchedule(lifecycle, g, chosen, before) && IsSchedule(lifecycle, h, chosen, after)
    ensures Done(before, |before|) <= Done(after, |after|)
  {
    hide StateMet, Layered, Done;
    forall s | s in Able(lifecycle, g, chosen) ensures s in Able(lifecycle, h, chosen) {
      forall d | d in h.nodes[s].dependencies ensures d.sliceId in chosen || StateMet(lifecycle, h, d) {
        if d.sliceId !in chosen {
          AdvancedMeets(lifecycle, g, h, d);
        }
      }
    }
    assert AllEdges(g) == AllEdges(h);
    assert ChosenEdges(g, chosen) == ChosenEdges(h, chosen);
    DoneIsLeast(ChosenEdges(g, chosen), Able(lifecycle, g, chosen), before, Done(after, |after|), |before|);
  }

  /**
   * A slice that requires a later state than an upstream slice, which is not scheduled along, is in, is
   * left out, and so is every slice that leads to it.
   */
  lemma TooEarlyLeavesOut(lifecycle: seq<State>, graph: Graph, chosen: set<Id>, batches: seq<seq<Id>>,
                          s: Id, d: Dependency, i: nat, j: nat, r: Id)
    requires Distinct(lifecycle) && IsSchedule(lifecycle, graph, chosen, batches)
    requires s in chosen && s in graph.nodes && d in graph.nodes[s].dependencies
    requires d.sliceId !in chosen && d.sliceId in graph.nodes
    requires j < i < |lifecycle| && d.requiredState == lifecycle[i] && graph.nodes[d.sliceId].state == lifecycle[j]
    requires r in chosen && (r == s || Reaches(ChosenEdges(graph, chosen), r, s))
    ensures r !in Done(batches, |batches|)
  {
    hide StateMet, IsSchedule, Reaches, ChosenEdges;
    StateMetIff(lifecycle, graph, d, i);
    LeftOutExactlyWhenDoomed(lifecycle, graph, chosen, batches, r);
    assert !OutsideMet(lifecycle, graph, chosen, s);
  }

  const TO_DESIGNED := Dependency("pricing", "api", "design", false)

  lemma CartAble(lifecycle: seq<State>, graph: Graph, state: State)
    requires lifecycle == ["draft", "design", "accepted"] && (state == "draft" || state == "design" || state == "accepted")
    requires graph.nodes == map["cart" := Node("draft", [TO_DESIGNED]), "pricing" := Node(state, [])]
    ensures Able(lifecycle, graph, {"cart"}) == if state == "draft" then {} else {"cart"}
  {
    hide StateMet, IndexOf;
    StateMetIff(lifecycle, graph, TO_DESIGNED, 1);
    assert lifecycle[0] == "draft" && lifecycle[1] == "design" && lifecycle[2] == "accepted";
    assert graph.nodes["cart"].dependencies == [TO_DESIGNED];
    assert OutsideMet(lifecycle, graph, {"cart"}, "cart") <==> StateMet(lifecycle, graph, TO_DESIGNED);
  }

  /** An upstream slice further on than required lets the cart start, one that is not there yet does not. */
  lemma CartWaitsForDesign(lifecycle: seq<State>, graph: Graph, state: State)
    requires lifecycle == ["draft", "design", "accepted"] && (state == "draft" || state == "design" || state == "accepted")
    requires graph.nodes == map["cart" := Node("draft", [TO_DESIGNED]), "pricing" := Node(state, [])]
    ensures state != "draft" ==> IsSchedule(lifecycle, graph, {"cart"}, [["cart"]])
    ensures state == "draft" ==> IsSchedule(lifecycle, graph, {"cart"}, [])
  {
    hide StateMet, IndexOf, Able;
    CartAble(lifecycle, graph, state);
    assert Next(AllEdges(graph), "cart") == ["pricing"];
    assert forall v :: v !in Next(ChosenEdges(graph, {"cart"}), "cart");
    assert Done([["cart"]], 0) == {} && Elements(["cart"]) == {"cart"};
    assert Done([["cart"]], 1) == {"cart"};
    assert Done([], 0) == {};
  }

  // ----- optional dependencies -----

  ghost predicate SameButOptional(d: Dependency, c: Dependency) {
    d.sliceId == c.sliceId && d.requiredState == c.requiredState
  }

  /** The same graph, except that any dependency may have become optional or required. */
  ghost predicate SameButOptionals(g: Graph, h: Graph) {
    && g.nodes.Keys == h.nodes.Keys
    && forall s :: s in g.nodes ==>
         && g.nodes[s].state == h.nodes[s].state
         && |g.nodes[s].dependencies| == |h.nodes[s].dependencies|
         && forall k :: 0 <= k < |g.nodes[s].dependencies| ==>
              SameButOptional(g.nodes[s].dependencies[k], h.nodes[s].dependencies[k])
  }

  lemma OptionalsLeaveAble(lifecycle: seq<State>, g: Graph, h: Graph, chosen: set<Id>, s: Id)
    requires SameButOptionals(g, h) && OutsideMet(lifecycle, g, chosen, s)
    ensures OutsideMet(lifecycle, h, chosen, s)
  {
    hide IndexOf;
    forall d | d in h.nodes[s].dependencies ensures d.sliceId in chosen || StateMet(lifecycle, h, d) {
      var k :| 0 <= k < |h.nodes[s].dependencies| && h.nodes[s].dependencies[k] == d;
      var c := g.nodes[s].dependencies[k];
      assert c in g.nodes[s].dependencies && SameButOptional(c, d);
    }
  }

  /** Optional dependencies hold slices back exactly as required ones do. */
  lemma OptionalHoldsBackAsRequired(lifecycle: seq<State>, g: Graph, h: Graph, chosen: set<Id>, batches: seq<seq<Id>>)
    requires SameButOptionals(g, h)
    ensures IsSchedule(lifecycle, g, chosen, batches) <==> IsSchedule(lifecycle, h, chosen, batches)
  {
    hide OutsideMet, Layered, Exhausted;
    assert forall s :: s in g.nodes ==> Targets(g.nodes[s].dependencies) == Targets(h.nodes[s].dependencies);
    assert AllEdges(g) == AllEdges(h);
    forall s ensures OutsideMet(lifecycle, g, chosen, s) <==> OutsideMet(lifecycle, h, chosen, s) {
      if OutsideMet(lifecycle, g, chosen, s) {
        OptionalsLeaveAble(lifecycle, g, h, chosen, s);
      }
      if OutsideMet(lifecycle, h, chosen, s) {
        OptionalsLeaveAble(lifecycle, h, g, chosen, s);
      }
    }
    assert Able(lifecycle, g, chosen) == Able(lifecycle, h, chosen);
    assert ChosenEdges(g, chosen) == ChosenEdges(h, chosen);
  }

  // ----- what a schedule means -----

  /**
   * A slice is left out if and only if it is, or leads through its dependencies among the slices
   * to schedule to, one that lies on a cycle or has an outside dependency that is not met.
   */
  lemma LeftOutExactlyWhenDoomed(lifecycle: seq<State>, graph: Graph, chosen: set<Id>, batches: seq<seq<Id>>, s: Id)
    requires IsSchedule(lifecycle, graph, chosen, batches) && s in chosen
    ensures s !in Done(batches, |batches|) <==>
            exists t :: (t == s || Reaches(ChosenEdges(graph, chosen), s, t)) &&
                        (!OutsideMet(lifecycle, graph, chosen, t) || Reaches(ChosenEdges(graph, chosen), t, t))
  {
    var a, able := ChosenEdges(graph, chosen), Able(lifecycle, graph, chosen);
    LeftOutIffDoomed(a, able, batches, chosen, s);
    forall t | t == s || Reaches(a, s, t) ensures t in able <==> OutsideMet(lifecycle, graph, chosen, t) {
      if t != s {
        var p :| Connects(a, p, s, t);
        assert p[|p| - 2 + 1] in Next(a, p[|p| - 2]);
      }
    }
  }

  /** The execution order lists each scheduled slice once, after its dependencies among the chosen. */
  lemma ExecutionOrderFollowsDependencies(lifecycle: seq<State>, graph: Graph, chosen: set<Id>, batches: seq<seq<Id>>)
    requires IsSchedule(lifecycle, graph, chosen, batches)
    ensures FinishOrder(ChosenEdges(graph, chosen), Flat(batches, |batches|))
    ensures Elements(Flat(batches, |batches|)) == Done(batches, |batches|)
  {
    FlatIsFinishOrder(ChosenEdges(graph, chosen), Able(lifecycle, graph, chosen), batches, |batches|);
  }

  function WaitingFor(dependencies: seq<Id>, completed: set<Id>): (r: seq<Blocker>)
    ensures forall b :: b in r <==> b.Waiting? && b.upstream in dependencies && b.upstream !in completed
  {
    if dependencies == [] then []
    else (if dependencies[0] in completed then [] else [Waiting(dependencies[0])])
         + WaitingFor(dependencies[1..], completed)
  }

  lemma StartableChosen(lifecycle: seq<State>, graph: Graph, chosen: set<Id>, done: set<Id>)
    ensures Startable(ChosenEdges(graph, chosen), Able(lifecycle, graph, chosen), done) <= chosen
  {
  }

  lemma MakesSchedule(lifecycle: seq<State>, graph: Graph, chosen: set<Id>, batches: seq<seq<Id>>)
    requires Layered(ChosenEdges(graph, chosen), Able(lifecycle, graph, chosen), batches)
    requires Startable(ChosenEdges(graph, chosen), Able(lifecycle, graph, chosen), Done(batches, |batches|))
          <= Done(batches, |batches|)
    ensures IsSchedule(lifecycle, graph, chosen, batches)
  {
  }

  lemma NoBatches(a: Adjacency, able: set<Id>)
    ensures Layered(a, able, []) && Done([], 0) == {}
  {
  }
}
