/** How the scheduler chooses among the workers that suit a task. */
module WorkerSelection {
  import opened Sequences
  import opened TaskQueues
  import opened SchedulerState

  datatype Strategy = RoundRobin | LeastLoaded | Weighted | Affinity

  /** A floating-point quotient of natural numbers, without rounding. */
  datatype Quotient = NotANumber | Infinite | Finite(value: real) {
    predicate Less(other: Quotient) {
      Finite? && (other.Infinite? || (other.Finite? && value < other.value))
    }
  }

  function Divide(a: nat, b: nat): Quotient {
    if b > 0 then Finite(a as real / b as real) else if a > 0 then Infinite else NotANumber
  }

  /** Mean of the cpu and memory load. */
  function MeanLoad(w: Worker): Quotient {
    var cpu, memory := Divide(w.load.cpu, w.capacity.cpu), Divide(w.load.memory, w.capacity.memory);
    if cpu.NotANumber? || memory.NotANumber? then NotANumber
    else if cpu.Infinite? || memory.Infinite? then Infinite
    else Finite((cpu.value + memory.value) / 2.0)
  }

  function SuccessRate(w: Worker): real {
    w.totalCompleted as real / (w.totalCompleted + w.totalFailed + 1) as real
  }

  /** `w` replaces `best`. Nothing is better or worse than what is not a number. */
  predicate Better(strategy: Strategy, w: Worker, best: Worker) {
    match strategy
    case RoundRobin => |w.runningTasks| < |best.runningTasks|
    case Weighted => SuccessRate(w) > SuccessRate(best)
    case _ => MeanLoad(w).Less(MeanLoad(best))
  }

  /** The workers can be ranked: under the load strategies, none has neither capacity nor load in cpu or memory. */
  predicate Ranked(strategy: Strategy, workers: map<Id, Worker>, candidates: seq<Id>) {
    strategy.RoundRobin? || strategy.Weighted? ||
    forall w :: w in candidates ==> w in workers && !MeanLoad(workers[w]).NotANumber?
  }

  /** Has completed a task of the slice. */
  predicate HasWorkedOn(tasks: map<Id, Task>, sliceId: string, w: Id) {
    exists t :: t in tasks && tasks[t].sliceId == sliceId && tasks[t].workerId == Some(w) && tasks[t].status.Completed?
  }

  /** The workers that are not offline, in order. */
  function OnlineAmong(workers: map<Id, Worker>, order: seq<Id>): (r: seq<Id>)
    ensures forall w :: w in r <==> w in order && w in workers && !workers[w].status.Offline?
  {
    if order == [] then []
    else
      var last := order[|order| - 1];
      OnlineAmong(workers, order[..|order| - 1]) + if last in workers && !workers[last].status.Offline? then [last] else []
  }

  function SuitableAmong(s: State, id: Id, workers: seq<Id>): (r: seq<Id>)
    ensures forall w :: w in r <==> w in workers && Suitable(s, id, w)
  {
    if workers == [] then []
    else (if Suitable(s, id, workers[0]) then [workers[0]] else []) + SuitableAmong(s, id, workers[1..])
  }

  function WorkedOnAmong(tasks: map<Id, Task>, sliceId: string, workers: seq<Id>): (r: seq<Id>)
    ensures forall w :: w in r <==> w in workers && HasWorkedOn(tasks, sliceId, w)
  {
    if workers == [] then []
    else (if HasWorkedOn(tasks, sliceId, workers[0]) then [workers[0]] else []) + WorkedOnAmong(tasks, sliceId, workers[1..])
  }

  /** Under affinity only those that have worked on the slice compete, if there are any. */
  function Competing(strategy: Strategy, s: State, id: Id, suitable: seq<Id>): seq<Id>
    requires id in s.tasks
  {
    var familiar := WorkedOnAmong(s.tasks, s.tasks[id].sliceId, suitable);
    if strategy.Affinity? && familiar != [] then familiar else suitable
  }

  /** Candidate `k` is better than every one before it and not worse than any after it. */
  ghost predicate FirstBest(strategy: Strategy, workers: map<Id, Worker>, candidates: seq<Id>, k: int)
    requires forall w :: w in candidates ==> w in workers
  {
    && 0 <= k < |candidates|
    && (forall j :: 0 <= j < k ==> Better(strategy, workers[candidates[k]], workers[candidates[j]]))
    && forall j :: k < j < |candidates| ==> !Better(strategy, workers[candidates[j]], workers[candidates[k]])
  }

  /** The worker is among those that compete for the task, and the first of the best of them. */
  ghost predicate ChosenBy(strategy: Strategy, s: State, id: Id, available: seq<Id>, w: Id) {
    id in s.tasks &&
    var competing := Competing(strategy, s, id, SuitableAmong(s, id, available));
    && w in competing && (forall v :: v in competing ==> v in s.workers)
    && (Ranked(strategy, s.workers, competing) ==>
          exists k :: FirstBest(strategy, s.workers, competing, k) && competing[k] == w)
  }

  /** The first of the best, as `reduce` finds it. */
  method ReduceToBest(strategy: Strategy, workers: map<Id, Worker>, candidates: seq<Id>) returns (best: Id)
    requires candidates != [] && forall w :: w in candidates ==> w in workers
    ensures best in candidates
    ensures Ranked(strategy, workers, candidates) ==>
              exists k :: FirstBest(strategy, workers, candidates, k) && candidates[k] == best
  {
    best := candidates[0];
    ghost var at := 0;
    for k := 1 to |candidates|
      invariant 0 <= at < k && best == candidates[at]
      invariant Ranked(strategy, workers, candidates) ==> FirstBest(strategy, workers, candidates[..k], at)
    {
      ghost var seen, more := candidates[..k], candidates[..k + 1];
      assert forall j :: 0 <= j < k ==> more[j] == seen[j] == candidates[j];
      if Better(strategy, workers[candidates[k]], workers[best]) {
        if Ranked(strategy, workers, candidates) {
          forall j | 0 <= j < k ensures Better(strategy, workers[candidates[k]], workers[candidates[j]]) {
            BetterThanAll(strategy, workers, candidates, at, j, k);
          }
        }
        best, at := candidates[k], k;
      }
    }
    assert candidates[..|candidates|] == candidates;
  }

  /** What is better than the best so far is better than every one so far. */
  lemma BetterThanAll(strategy: Strategy, workers: map<Id, Worker>, candidates: seq<Id>, at: nat, j: nat, k: nat)
    requires at < k < |candidates| && j < k && forall w :: w in candidates ==> w in workers
    requires Ranked(strategy, workers, candidates)
    requires Better(strategy, workers[candidates[k]], workers[candidates[at]])
    requires j == at || Better(strategy, workers[candidates[at]], workers[candidates[j]])
             || !Better(strategy, workers[candidates[j]], workers[candidates[at]])
    ensures Better(strategy, workers[candidates[k]], workers[candidates[j]])
  {
    hide MeanLoad, SuccessRate;
    assert candidates[j] in candidates;
  }

  // ----- what the strategies choose -----

  /** Round robin takes a worker with the fewest tasks. */
  lemma FewestTasks(workers: map<Id, Worker>, candidates: seq<Id>, k: nat, j: nat)
    requires forall w :: w in candidates ==> w in workers
    requires FirstBest(RoundRobin, workers, candidates, k) && j < |candidates|
    ensures |workers[candidates[k]].runningTasks| <= |workers[candidates[j]].runningTasks|
    ensures j < k ==> |workers[candidates[k]].runningTasks| < |workers[candidates[j]].runningTasks|
  {
    assert candidates[k] in candidates && candidates[j] in candidates;
  }

  /** The weighted strategy takes a worker with the highest share of completed tasks, counting one more failure. */
  lemma MostSuccessful(workers: map<Id, Worker>, candidates: seq<Id>, k: nat, j: nat)
    requires forall w :: w in candidates ==> w in workers
    requires FirstBest(Weighted, workers, candidates, k) && j < |candidates|
    ensures
      var best, other := workers[candidates[k]], workers[candidates[j]];
      best.totalCompleted as real / (best.totalCompleted + best.totalFailed + 1) as real
      >= other.totalCompleted as real / (other.totalCompleted + other.totalFailed + 1) as real
  {
    assert candidates[k] in candidates && candidates[j] in candidates;
  }

  /**
   * The other strategies take a worker with the least load, cpu and memory counting alike as shares of
   * what there is; a worker with no such share at all comes last.
   */
  lemma LeastLoad(strategy: Strategy, workers: map<Id, Worker>, candidates: seq<Id>, k: nat, j: nat)
    requires strategy.LeastLoaded? || strategy.Affinity?
    requires forall w :: w in candidates ==> w in workers
    requires Ranked(strategy, workers, candidates) && FirstBest(strategy, workers, candidates, k) && j < |candidates|
    ensures
      var best, other := workers[candidates[k]], workers[candidates[j]];
      other.capacity.cpu > 0 && other.capacity.memory > 0 ==>
        && best.capacity.cpu > 0 && best.capacity.memory > 0
        && best.load.cpu as real / best.capacity.cpu as real + best.load.memory as real / best.capacity.memory as real
           <= other.load.cpu as real / other.capacity.cpu as real + other.load.memory as real / other.capacity.memory as real
  {
    assert candidates[k] in candidates && candidates[j] in candidates;
  }

  /** Under affinity a worker is taken that has completed a task of the slice, if a suitable one has. */
  lemma FamiliarFirst(s: State, id: Id, suitable: seq<Id>, w: Id)
    requires id in s.tasks && w in Competing(Affinity, s, id, suitable)
    requires exists v, t :: v in suitable && t in s.tasks && s.tasks[t].sliceId == s.tasks[id].sliceId &&
                            s.tasks[t].status.Completed? && s.tasks[t].workerId == Some(v)
    ensures exists t :: t in s.tasks && s.tasks[t].sliceId == s.tasks[id].sliceId &&
                        s.tasks[t].status.Completed? && s.tasks[t].workerId == Some(w)
  {
    var v, t :| v in suitable && t in s.tasks && s.tasks[t].sliceId == s.tasks[id].sliceId &&
                s.tasks[t].status.Completed? && s.tasks[t].workerId == Some(v);
    assert HasWorkedOn(s.tasks, s.tasks[id].sliceId, v);
    assert v in WorkedOnAmong(s.tasks, s.tasks[id].sliceId, suitable);
  }

  // ----- in which order the workers compete -----

  lemma {:induction false} OnlineInOrder(workers: map<Id, Worker>, order: seq<Id>, n: nat)
    requires Distinct(order) && n <= |order|
    ensures Follows(order, OnlineAmong(workers, order[..n]))
  {
    hide Follows;
    if n == 0 {
      NothingFollows(order);
    } else {
      OnlineInOrder(workers, order, n - 1);
      assert order[..n][..n - 1] == order[..n - 1] && order[..n][n - 1] == order[n - 1];
      var before := OnlineAmong(workers, order[..n - 1]);
      assert forall i :: 0 <= i < |before| ==> before[i] in before;
      FollowsItself(order);
      FollowsSnoc(order, order, before, n - 1);
      assert before + [] == before;
      assert OnlineAmong(workers, order[..n]) == before || OnlineAmong(workers, order[..n]) == before + [order[n - 1]];
    }
  }

  lemma {:induction false} SuitableInOrder(s: State, id: Id, order: seq<Id>, workers: seq<Id>)
    requires Follows(order, workers)
    ensures Follows(order, SuitableAmong(s, id, workers))
  {
    if workers != [] {
      RestFollows(order, workers);
      SuitableInOrder(s, id, order, workers[1..]);
      FirstStaysFirst(order, workers, SuitableAmong(s, id, workers[1..]));
    }
  }

  lemma {:induction false} FamiliarInOrder(tasks: map<Id, Task>, sliceId: string, order: seq<Id>, workers: seq<Id>)
    requires Follows(order, workers)
    ensures Follows(order, WorkedOnAmong(tasks, sliceId, workers))
  {
    if workers != [] {
      RestFollows(order, workers);
      FamiliarInOrder(tasks, sliceId, order, workers[1..]);
      FirstStaysFirst(order, workers, WorkedOnAmong(tasks, sliceId, workers[1..]));
    }
  }

  lemma FirstStaysFirst(order: seq<Id>, s: seq<Id>, picked: seq<Id>)
    requires Follows(order, s) && s != [] && Follows(order, picked)
    requires forall x :: x in picked ==> x in s[1..]
    ensures Follows(order, [s[0]] + picked) && [] + picked == picked
  {
    hide IndexOf, Follows;
    forall i | 0 <= i < |picked| ensures IndexOf(order, s[0]) < IndexOf(order, picked[i]) {
      assert picked[i] in picked;
      LaterFollows(order, s, picked[i]);
    }
    FirstIn(order, s);
    FollowsCons(order, s[0], picked);
  }

  /** The workers compete in the order of their registration, so the first of the best is the oldest of them. */
  lemma CompetingInOrder(strategy: Strategy, s: State, id: Id)
    requires id in s.tasks && Distinct(s.workerOrder)
    ensures Follows(s.workerOrder, Competing(strategy, s, id, SuitableAmong(s, id, OnlineAmong(s.workers, s.workerOrder))))
  {
    hide Follows, OnlineAmong, SuitableAmong, WorkedOnAmong;
    assert s.workerOrder[..|s.workerOrder|] == s.workerOrder;
    OnlineInOrder(s.workers, s.workerOrder, |s.workerOrder|);
    var online := OnlineAmong(s.workers, s.workerOrder);
    SuitableInOrder(s, id, s.workerOrder, online);
    FamiliarInOrder(s.tasks, s.tasks[id].sliceId, s.workerOrder, SuitableAmong(s, id, online));
  }
}
