/** What a scheduling pass leaves, and why scheduling ends. */
module SchedulerProgress {
  import opened Sequences
  import opened Sums
  import opened TaskQueues
  import opened SchedulerState
  import opened SchedulerRuns

  // ----- a pass leaves nothing that fits -----

  /** Assigning one task makes no worker suitable for another. */
  lemma AssignLeavesNoMoreRoom(s: State, x: Id, v: Id, id: Id, w: Id)
    requires Suitable(s, x, v) && id != x && !Suitable(s, id, w)
    ensures !Suitable(Assign(s, x, v), id, w)
  {
  }

  /** After the first `k` turns: the tasks whose turn is to come are untouched, those passed over fit nowhere. */
  lemma {:induction false} PassUpTo(s: State, choices: Choices, k: nat)
    requires Places(s) && |choices| == |s.queue| && PassChoices(s, s.queue, choices) && k <= |choices|
    ensures
      var t := Pass(s, s.queue[..k], choices[..k]);
      && (forall i :: k <= i < |s.queue| ==> s.queue[i] in t.queue && s.queue[i] in t.tasks)
      && (forall id :: id in t.queue ==> id in s.queue)
      && (forall i, w :: 0 <= i < k && s.queue[i] in t.queue ==> !Suitable(t, s.queue[i], w))
  {
    var q := s.queue;
    if k > 0 {
      PassUpTo(s, choices, k - 1);
      assert q[..k][..k - 1] == q[..k - 1] && choices[..k][..k - 1] == choices[..k - 1];
      assert ChoiceAtTurn(s, q, choices, k - 1);
      var before := Pass(s, q[..k - 1], choices[..k - 1]);
      var t := Pass(s, q[..k], choices[..k]);
      forall i, w | 0 <= i < k && q[i] in t.queue ensures !Suitable(t, q[i], w) {
        if i < k - 1 && choices[k - 1].Some? {
          AssignLeavesNoMoreRoom(before, q[k - 1], choices[k - 1].value, q[i], w);
        }
      }
    }
  }

  /** When a pass ends, no task left in the queue fits on any worker that is not offline. */
  lemma PassIsWorkConserving(s: State, choices: Choices, id: Id, w: Id)
    requires Places(s) && |choices| == |s.queue| && PassChoices(s, s.queue, choices)
    requires id in Pass(s, s.queue, choices).queue
    ensures !Suitable(Pass(s, s.queue, choices), id, w)
    ensures
      var t := Pass(s, s.queue, choices);
      id in t.tasks && w in t.workers && !t.workers[w].status.Offline? ==>
        || t.workers[w].load.cpu + t.tasks[id].requirements.cpu > t.workers[w].capacity.cpu
        || t.workers[w].load.memory + t.tasks[id].requirements.memory > t.workers[w].capacity.memory
        || t.workers[w].load.disk + t.tasks[id].requirements.disk > t.workers[w].capacity.disk
  {
    PassUpTo(s, choices, |choices|);
    assert s.queue[..|choices|] == s.queue && choices[..|choices|] == choices;
  }

  /** A task is placed only on a worker that is not offline and has room for all it requires. */
  lemma PlacedWhereItFits(s: State, choices: Choices, k: nat)
    requires |choices| == |s.queue| && PassChoices(s, s.queue, choices) && k < |choices| && choices[k].Some?
    ensures
      var before, id, w := Pass(s, s.queue[..k], choices[..k]), s.queue[k], choices[k].value;
      && id in before.tasks && w in before.workers && !before.workers[w].status.Offline?
      && before.workers[w].load.cpu + before.tasks[id].requirements.cpu <= before.workers[w].capacity.cpu
      && before.workers[w].load.memory + before.tasks[id].requirements.memory <= before.workers[w].capacity.memory
      && before.workers[w].load.disk + before.tasks[id].requirements.disk <= before.workers[w].capacity.disk
  {
    assert ChoiceAtTurn(s, s.queue, choices, k);
  }

  // ----- passes and heartbeat checks are runs -----

  lemma {:induction false} RunConcat(s: State, first: seq<Step>, second: seq<Step>)
    ensures Run(s, first + second) == Run(Run(s, first), second)
    ensures EnabledRun(s, first + second) <==> EnabledRun(s, first) && EnabledRun(Run(s, first), second)
    decreases |first|
  {
    if first == [] {
      assert first + second == second;
    } else {
      assert (first + second)[1..] == first[1..] + second;
      RunConcat(Apply(s, first[0]), first[1..], second);
    }
  }

  lemma NoSteps(s: State)
    ensures EnabledRun(s, []) && Run(s, []) == s
  {
  }

  lemma RunOne(s: State, step: Step)
    ensures Run(s, [step]) == Apply(s, step)
    ensures EnabledRun(s, [step]) <==> Enabled(s, step)
  {
    assert [step][1..] == [];
  }

  function PassSteps(todo: seq<Id>, choices: Choices): seq<Step>
    requires |choices| == |todo|
  {
    if todo == [] then []
    else
      PassSteps(todo[..|todo| - 1], choices[..|todo| - 1])
      + if choices[|todo| - 1].Some? then [AssignTask(todo[|todo| - 1], choices[|todo| - 1].value)] else []
  }

  lemma AssignIsStep(s: State, id: Id, w: Id)
    ensures Run(s, [AssignTask(id, w)]) == Assign(s, id, w)
    ensures EnabledRun(s, [AssignTask(id, w)]) <==> id in s.queue && Suitable(s, id, w)
  {
    RunOne(s, AssignTask(id, w));
  }

  lemma {:induction false} PassIsRun(s: State, choices: Choices, k: nat)
    requires Places(s) && |choices| == |s.queue| && PassChoices(s, s.queue, choices) && k <= |choices|
    ensures EnabledRun(s, PassSteps(s.queue[..k], choices[..k]))
    ensures Run(s, PassSteps(s.queue[..k], choices[..k])) == Pass(s, s.queue[..k], choices[..k])
  {
    hide Places, Run, EnabledRun, Apply, Assign;
    NoSteps(s);
    var q := s.queue;
    if k > 0 {
      PassIsRun(s, choices, k - 1);
      PassUpTo(s, choices, k - 1);
      assert q[..k][..k - 1] == q[..k - 1] && choices[..k][..k - 1] == choices[..k - 1];
      assert ChoiceAtTurn(s, q, choices, k - 1);
      if choices[k - 1].None? {
        assert PassSteps(q[..k], choices[..k]) == PassSteps(q[..k - 1], choices[..k - 1]);
      } else {
        AssignIsStep(Pass(s, q[..k - 1], choices[..k - 1]), q[k - 1], choices[k - 1].value);
        RunConcat(s, PassSteps(q[..k - 1], choices[..k - 1]), [AssignTask(q[k - 1], choices[k - 1].value)]);
      }
    }
  }

  function FailSteps(ids: seq<Id>): seq<Step> {
    if ids == [] then [] else FailSteps(ids[..|ids| - 1]) + [TaskFailed(ids[|ids| - 1])]
  }

  lemma FailIsStep(s: State, id: Id)
    ensures Run(s, [TaskFailed(id)]) == Fail(s, id)
    ensures EnabledRun(s, [TaskFailed(id)]) <==> id in s.tasks && s.tasks[id].InFlight()
  {
    RunOne(s, TaskFailed(id));
  }

  lemma FailChangesOne(s: State, id: Id)
    ensures Fail(s, id).tasks.Keys == s.tasks.Keys
    ensures forall x :: x in s.tasks && x != id ==> Fail(s, id).tasks[x] == s.tasks[x]
  {
  }

  lemma {:induction false} FailAllIsRun(s: State, ids: seq<Id>)
    requires Places(s) && Distinct(ids)
    requires forall id :: id in ids ==> id in s.tasks && s.tasks[id].InFlight()
    ensures EnabledRun(s, FailSteps(ids)) && Run(s, FailSteps(ids)) == FailAll(s, ids)
    ensures forall x :: x in s.tasks && x !in ids ==> x in FailAll(s, ids).tasks && FailAll(s, ids).tasks[x] == s.tasks[x]
  {
    hide Fail, Places, Run, EnabledRun, Apply;
    NoSteps(s);
    if ids != [] {
      var front, last := ids[..|ids| - 1], ids[|ids| - 1];
      assert ids == front + [last];
      FailAllIsRun(s, front);
      RunConcat(s, FailSteps(front), [TaskFailed(last)]);
      FailIsStep(FailAll(s, front), last);
      FailChangesOne(FailAll(s, front), last);
    }
  }

  /** A heartbeat check of one worker is a run: it goes offline, then each of its tasks fails. */
  lemma CheckWorkerIsRun(s: State, w: Id, now: int) returns (steps: seq<Step>)
    requires Places(s)
    ensures EnabledRun(s, steps) && Run(s, steps) == CheckWorker(s, w, now)
  {
    steps := [];
    if TimedOut(s, w, now) {
      var t := MarkOffline(s, w);
      WorkerFieldsKeepPlaces(s, t);
      assert WorkerHolds(s, w);
      FailAllIsRun(t, s.workers[w].runningTasks);
      steps := [WorkerOffline(w)] + FailSteps(s.workers[w].runningTasks);
      assert steps[1..] == FailSteps(s.workers[w].runningTasks);
    }
  }

  /** Failing a task takes it off its worker and changes no other task. */
  lemma FailTakesOff(s: State, w: Id, id: Id)
    requires id in s.tasks && s.tasks[id].workerId == Some(w) && w in s.workers
    ensures
      var t := Fail(s, id);
      && w in t.workers && t.workers[w].runningTasks == Without(s.workers[w].runningTasks, id)
      && t.workers[w].status == (if t.workers[w].runningTasks == [] then Idle else Busy)
      && forall x :: x in s.tasks && x != id ==> x in t.tasks && t.tasks[x] == s.tasks[x]
  {
  }

  /** Failing the first `k` tasks of a worker leaves it the others, and takes it out of the offline state. */
  lemma {:induction false} FailAllEmptiesWorker(s: State, w: Id, k: nat)
    requires Places(s) && w in s.workers && k <= |s.workers[w].runningTasks|
    ensures
      var ids := s.workers[w].runningTasks;
      var t := FailAll(s, ids[..k]);
      && w in t.workers
      && (forall id :: id in t.workers[w].runningTasks <==> id in ids && id !in ids[..k])
      && (forall id :: id in ids && id !in ids[..k] ==> id in t.tasks && t.tasks[id] == s.tasks[id])
      && (k == 0 ==> t.workers[w].status == s.workers[w].status)
      && (k > 0 ==> t.workers[w].status == if t.workers[w].runningTasks == [] then Idle else Busy)
  {
    hide Places, Fail;
    var ids := s.workers[w].runningTasks;
    PlacesHolds(s, w);
    if k > 0 {
      FailAllEmptiesWorker(s, w, k - 1);
      assert ids[..k][..k - 1] == ids[..k - 1] && ids[..k] == ids[..k - 1] + [ids[k - 1]];
      FailTakesOff(FailAll(s, ids[..k - 1]), w, ids[k - 1]);
    }
  }

  lemma PlacesHolds(s: State, w: Id)
    requires Places(s) && w in s.workers
    ensures WorkerHolds(s, w)
  {
  }

  /** A worker that times out stays offline if and only if it had no task to fail. */
  lemma TimedOutStaysOfflineIff(s: State, w: Id, now: int)
    requires Places(s) && TimedOut(s, w, now)
    ensures
      var t := CheckWorker(s, w, now);
      && w in t.workers && t.workers[w].runningTasks == []
      && (t.workers[w].status.Offline? <==> s.workers[w].runningTasks == [])
  {
    var t := MarkOffline(s, w);
    WorkerFieldsKeepPlaces(s, t);
    var ids := s.workers[w].runningTasks;
    FailAllEmptiesWorker(t, w, |ids|);
    assert ids[..|ids|] == ids;
    SomeMember(FailAll(t, ids).workers[w].runningTasks);
  }

  lemma {:induction false} CheckHeartbeatsIsRun(s: State, order: seq<Id>, now: int) returns (steps: seq<Step>)
    requires Places(s)
    ensures EnabledRun(s, steps) && Run(s, steps) == CheckHeartbeats(s, order, now)
  {
    steps := [];
    if order != [] {
      var first := CheckHeartbeatsIsRun(s, order[..|order| - 1], now);
      RunKeepsPlaces(s, first);
      var second := CheckWorkerIsRun(Run(s, first), order[|order| - 1], now);
      RunConcat(s, first, second);
      steps := first + second;
    }
  }

  // ----- scheduling ends -----

  /** How often a task may be dispatched at most. */
  function Attempts(maxRetries: int): nat {
    Max(1, maxRetries)
  }

  /** A live task has attempts left. */
  ghost predicate AttemptsLeft(s: State) {
    forall id :: id in s.tasks && s.tasks[id].Live() ==> s.tasks[id].retryCount < Attempts(s.tasks[id].maxRetries)
  }

  function Measure(t: Task): nat {
    if t.status.Pending? then Max(0, 2 * (Attempts(t.maxRetries) - t.retryCount))
    else if t.InFlight() then Max(0, 2 * (Attempts(t.maxRetries) - t.retryCount) - 1)
    else 0
  }

  function Measures(s: State): map<Id, nat> {
    map id | id in s.tasks :: Measure(s.tasks[id])
  }

  ghost function Potential(s: State): nat {
    Sum(Measures(s))
  }

  function Cost(step: Step): nat {
    if step.AssignTask? || step.TaskCompleted? || step.TaskFailed? || step.CancelTask? then 1 else 0
  }

  /** The assignments, completions, failures and cancellations of a run. */
  function Counted(steps: seq<Step>): nat {
    if steps == [] then 0 else Cost(steps[0]) + Counted(steps[1..])
  }

  predicate NoNewWork(steps: seq<Step>) {
    forall k :: 0 <= k < |steps| ==> !steps[k].SubmitTask? && !steps[k].UnregisterWorker?
  }

  lemma StepKeepsAttempts(s: State, step: Step)
    requires Places(s) && AttemptsLeft(s) && Enabled(s, step)
    ensures AttemptsLeft(Apply(s, step))
  {
    if step.UnregisterWorker? && step.worker in s.workers {
      assert WorkerHolds(s, step.worker);
      RequeueMoves(s, s.workers[step.worker].runningTasks);
    }
  }

  /** A counted step changes the measure of the task it names only, and lowers it. */
  lemma CountedStepLowers(s: State, step: Step)
    requires Places(s) && AttemptsLeft(s) && Enabled(s, step) && Cost(step) == 1
    ensures step.id in s.tasks && Apply(s, step).tasks.Keys == s.tasks.Keys
    ensures forall x :: x in s.tasks && x != step.id ==> Apply(s, step).tasks[x] == s.tasks[x]
    ensures Measure(Apply(s, step).tasks[step.id]) < Measure(s.tasks[step.id])
  {
  }

  lemma UncountedStepKeeps(s: State, step: Step)
    requires Places(s) && Cost(step) == 0 && !step.SubmitTask? && !step.UnregisterWorker?
    ensures Measures(Apply(s, step)) == Measures(s)
  {
  }

  lemma StepSpendsPotential(s: State, step: Step)
    requires Places(s) && AttemptsLeft(s) && Enabled(s, step)
    requires !step.SubmitTask? && !step.UnregisterWorker?
    ensures Potential(Apply(s, step)) + Cost(step) <= Potential(s)
  {
    hide Places, AttemptsLeft, Apply, Enabled, Measure;
    if Cost(step) == 1 {
      CountedStepLowers(s, step);
      var after := Measure(Apply(s, step).tasks[step.id]);
      assert Measures(Apply(s, step)) == Measures(s)[step.id := after];
      SumUpdate(Measures(s), step.id, after);
    } else {
      UncountedStepKeeps(s, step);
    }
  }

  /** Without new work, a run spends one unit of the potential on every counted step. */
  lemma {:induction false} RunSpendsPotential(s: State, steps: seq<Step>)
    requires Places(s) && AttemptsLeft(s) && EnabledRun(s, steps) && NoNewWork(steps)
    ensures Potential(Run(s, steps)) + Counted(steps) <= Potential(s)
    decreases |steps|
  {
    if steps != [] {
      StepKeepsPlaces(s, steps[0]);
      StepKeepsAttempts(s, steps[0]);
      StepSpendsPotential(s, steps[0]);
      RunSpendsPotential(Apply(s, steps[0]), steps[1..]);
    }
  }

  /** Two steps per attempt bound every run. */
  lemma RunIsBounded(s: State, steps: seq<Step>)
    requires Places(s) && AttemptsLeft(s) && EnabledRun(s, steps) && NoNewWork(steps)
    ensures Counted(steps) <= Sum(map id | id in s.tasks :: 2 * Attempts(s.tasks[id].maxRetries))
  {
    RunSpendsPotential(s, steps);
    SumMonotone(Measures(s), map id | id in s.tasks :: 2 * Attempts(s.tasks[id].maxRetries));
  }

  /** How often a task may still be dispatched. */
  function Dispatches(t: Task): nat {
    if t.status.Pending? then Max(0, Attempts(t.maxRetries) - t.retryCount)
    else if t.InFlight() then Max(0, Attempts(t.maxRetries) - t.retryCount - 1)
    else 0
  }

  function TimesAssigned(steps: seq<Step>, id: Id): nat {
    if steps == [] then 0
    else (if steps[0].AssignTask? && steps[0].id == id then 1 else 0) + TimesAssigned(steps[1..], id)
  }

  /** While no worker is unregistered, a task is dispatched at most `max(1, maxRetries)` times. */
  lemma {:induction false} DispatchesAreBounded(s: State, steps: seq<Step>, id: Id)
    requires Places(s) && AttemptsLeft(s) && EnabledRun(s, steps) && id in s.tasks
    requires forall k :: 0 <= k < |steps| ==> !steps[k].UnregisterWorker?
    ensures TimesAssigned(steps, id) <= Dispatches(s.tasks[id]) <= Attempts(s.tasks[id].maxRetries)
    decreases |steps|
  {
    hide Places, AttemptsLeft, Apply, Enabled, Dispatches;
    DispatchesAtMostAttempts(s.tasks[id]);
    if steps != [] {
      StepKeepsPlaces(s, steps[0]);
      StepKeepsAttempts(s, steps[0]);
      StepSpendsDispatch(s, steps[0], id);
      DispatchesAreBounded(Apply(s, steps[0]), steps[1..], id);
    }
  }

  lemma DispatchesAtMostAttempts(t: Task)
    ensures Dispatches(t) <= Attempts(t.maxRetries)
  {
  }

  lemma StepSpendsDispatch(s: State, step: Step, id: Id)
    requires Places(s) && AttemptsLeft(s) && Enabled(s, step) && id in s.tasks && !step.UnregisterWorker?
    ensures id in Apply(s, step).tasks
    ensures Dispatches(Apply(s, step).tasks[id]) + (if step.AssignTask? && step.id == id then 1 else 0)
         <= Dispatches(s.tasks[id])
  {
  }

  // ----- the order of the queue -----

  /** After a submission or a retry the queue is in order, and equals keep their order. */
  lemma QueueOrderedAfterPush(s: State, step: Step)
    requires Places(s) && Enabled(s, step)
    requires step.SubmitTask? || (step.TaskFailed? && Apply(s, step).tasks[step.id].status.Pending?)
    ensures
      var t := Apply(s, step);
      && Ordered(Keys(t.tasks), t.queue)
      && forall key :: WithKey(Keys(t.tasks), t.queue, key) == WithKey(Keys(t.tasks), s.queue + [step.id], key)
  {
    SortQueueSorts(Keys(Apply(s, step).tasks), s.queue + [step.id]);
  }

  // ----- from the start -----

  lemma {:induction false} RunKeepsAttempts(s: State, steps: seq<Step>)
    requires Places(s) && AttemptsLeft(s) && EnabledRun(s, steps)
    ensures AttemptsLeft(Run(s, steps))
    decreases |steps|
  {
    if steps != [] {
      StepKeepsPlaces(s, steps[0]);
      StepKeepsAttempts(s, steps[0]);
      RunKeepsAttempts(Apply(s, steps[0]), steps[1..]);
    }
  }

  /** Whatever has happened, what follows without new work has at most two steps per attempt. */
  lemma ReachableRunIsBounded(before: seq<Step>, steps: seq<Step>)
    requires EnabledRun(EMPTY, before) && EnabledRun(Run(EMPTY, before), steps) && NoNewWork(steps)
    ensures
      var tasks := Run(EMPTY, before).tasks;
      Counted(steps) <= Sum(map id | id in tasks :: 2 * Attempts(tasks[id].maxRetries))
  {
    ReachableKeepsPlaces(before);
    RunKeepsAttempts(EMPTY, before);
    RunIsBounded(Run(EMPTY, before), steps);
  }

  /** A worker that times out with a task, concretely: it is idle again, not offline. */
  lemma TimedOutBecomesIdle(s: State, priority: Priority)
    requires s == Run(EMPTY, [SubmitTask("t", "slice", priority, NO_RESOURCES, 3, 0),
                              RegisterWorker("w", NO_RESOURCES, NO_RESOURCES, 0), AssignTask("t", "w")])
    ensures TimedOut(s, "w", 30001) && s.workers["w"].runningTasks == ["t"]
    ensures "w" in CheckWorker(s, "w", 30001).workers && !CheckWorker(s, "w", 30001).workers["w"].status.Offline?
  {
    var submit := SubmitTask("t", "slice", priority, NO_RESOURCES, 3, 0);
    var register := RegisterWorker("w", NO_RESOURCES, NO_RESOURCES, 0);
    var assign := AssignTask("t", "w");
    var submitted := Apply(EMPTY, submit);
    var registered := Apply(submitted, register);
    SortQueueSorts(Keys(submitted.tasks), ["t"]);
    RunOne(EMPTY, submit);
    RunOne(submitted, register);
    RunOne(registered, assign);
    RunConcat(submitted, [register], [assign]);
    RunConcat(EMPTY, [submit], [register] + [assign]);
    assert [submit] + ([register] + [assign]) == [submit, register, assign];
    ReachableKeepsPlaces([submit, register, assign]);
    TimedOutStaysOfflineIff(s, "w", 30001);
  }

  // ----- who is served first -----

  /** Critical before high before normal before low. */
  predicate MoreUrgent(p: Priority, q: Priority) {
    || (p.Critical? && !q.Critical?)
    || (p.High? && (q.Normal? || q.Low?))
    || (p.Normal? && q.Low?)
  }

  /** After a submission or a retry nothing stands behind a less urgent task, nor behind a younger one as urgent. */
  lemma UrgentFirst(s: State, step: Step, i: nat, j: nat)
    requires Places(s) && Enabled(s, step)
    requires step.SubmitTask? || (step.TaskFailed? && Apply(s, step).tasks[step.id].status.Pending?)
    requires i < j < |Apply(s, step).queue|
    ensures
      var t := Apply(s, step);
      && t.queue[i] in t.tasks && t.queue[j] in t.tasks
      && !MoreUrgent(t.tasks[t.queue[j]].priority, t.tasks[t.queue[i]].priority)
      && (t.tasks[t.queue[i]].priority == t.tasks[t.queue[j]].priority ==>
            t.tasks[t.queue[i]].createdAt <= t.tasks[t.queue[j]].createdAt)
  {
    hide Places, Apply, Enabled, WithKey;
    var t := Apply(s, step);
    QueueOrderedAfterPush(s, step);
    StepKeepsPlaces(s, step);
    QueuedAreTasks(t, t.queue[i]);
    QueuedAreTasks(t, t.queue[j]);
    assert NotAfter(KeyOf(Keys(t.tasks), t.queue[i]), KeyOf(Keys(t.tasks), t.queue[j]));
  }

  lemma QueuedAreTasks(s: State, id: Id)
    requires Places(s) && id in s.queue
    ensures id in s.tasks
  {
  }
}
