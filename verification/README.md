# JiSpec execution core: a verified model

A Dafny model of the parts of JiSpec that decide what happens to documents, slices, stages, tasks,
cached results and snapshots, with proofs of what they keep over whole runs.

- **Collaborative documents** (`TextOperations`, `CollaborationServer`): stale edits are rebased over
  later operations, applied as splices and logged; the log can be replayed. Texts are lists of atoms,
  in the server UTF-16 code units; the intention theorem reads them with identities, so "the same
  character" means the same atom. Slices follow JavaScript: negative indices count from the end and
  all are clamped.
- **Slice dependencies and batches** (`Walks`, `DependencyGraph`, `Layers`, `CrossSliceScheduler`):
  topological order, cycles and closures by depth-first search, batches by a fixpoint, and the batch
  loop of an execution, from any batch on, in which the slices of any set fail. `LIFECYCLE_ORDER` is
  any list.
- **Parallel pipeline** (`StageRuns`, `StageOrders`, `ParallelExecutor`): dependencies between stages
  from declared files, batches, and exactly when parallel and serial runs are equivalent. A stage body
  is an arbitrary function of the files; within a chunk stages start and put their outputs in place in
  any interleaving.
- **Distributed scheduler** (`TaskQueues`, `SchedulerState`, `WorkerSelection`, `DistributedScheduler`,
  `SchedulerRuns`, `SchedulerLoad`, `SchedulerProgress`, `SchedulerHistory`): the scheduler object is
  proved against functions on its state, and the theorems are about runs of these; the last module counts
  what has happened in a run. Resources are natural numbers.
  Listeners do not re-enter the scheduler during a pass; timers are calls.
- **Resource ledger** (`Sums`, `ResourceLedger`, `ResourceManager`, `DistributedRuntime`): one manager
  per worker and the table of which task holds which allocation.
- **Cache** (`CacheManifest`, `CacheStore`, `CacheManager`): the manager with its memory level refines
  a store without one, and the store refines the history of its calls.
- **Snapshots** (`PortableNaming`, `FailureHandler`): names that sort as time, and exact restoration.

TypeScript classes are Dafny classes whose methods are proved against functions or predicates of the
state. Records that classes keep in maps are datatypes, changed in place through the map by their id, so
an id plays the part of a reference. Where iteration order matters, a list stands beside the map.
Random ids, times and the verdicts of the permission manager are parameters.

Points where the code and what one might expect of it differ. Each has a theorem that says exactly when
the expectation holds, and a concrete input on which it does not:

- A stale edit keeps its length, so it may remove other atoms than its author meant: over one operation
  exactly when that one disturbs the range (`StaleRemovalOverOneIff`), over a log exactly when the range
  is not whole any more (`StaleRemovalIff`). Two users who delete the same two characters delete four
  (`DoubleDeleteRemovesMore`).
- A failure blocks completed slices that depend on the failed one through slices that were not scheduled
  (`CompletedSliceIsBlocked`); no execution of a schedule does so exactly when no scheduled slice depends
  on one of a later batch (`EarlierBatchesStayCompletedIff`), and so never when all slices are scheduled.
- Parallel and serial runs may differ when a stage writes what an earlier one reads
  (`LateWriterBreaksOrder`). They agree, whatever the stages do to their declared files and in whatever
  order a batch runs, exactly when no other writer can come between a stage and the one it is to read
  from, and the last writer of each file stays the last (`ParallelEqualsSerialIff`). That no two stages
  write the same file and none writes what an earlier one reads is enough (`ApartIsRunnable`), but more
  than is needed (`WritersNeedNotBeApart`, `ConflictsNeedNotBeOrdered`).
- Reports on queued tasks break the queue (`CompleteKeepsPlacesIff`, `FailKeepsPlacesIff`,
  `ReportOnQueuedTask`), and reports on tasks that have ended release their resources again
  (`LateReportKeepsLoadIff`, `SecondReportReleasesAgain`).
- A heartbeat may overwrite the load (`HeartbeatKeepsLoadIff`, `HeartbeatOverwritesLoad`), and a worker
  that times out with tasks does not stay offline (`TimedOutStaysOfflineIff`, `TimedOutBecomesIdle`).
- Keys that differ in the `cache:` prefix only share their files (`KeysShareFilesIff`,
  `UnprefixedKeyFindsOther`), so the cache theorems are about prefixed keys.
- The documentation counts an expired status as invalid; the code looks at the status "invalidated" and
  the expiry time only (`ValidAsDocumentedIff`, `ExpiredStatusIsValid`).
- Timestamps of years without four digits do not read back (`TimestampRoundTripIff`,
  `LateYearDoesNotParse`).
- Excluding a stage from a rollback excludes stages whose names go on with a hyphen as well
  (`ExcludedIff`, `ExclusionHidesOther`).

Optional dependencies hold a slice back in the batches exactly as required ones do
(`OptionalHoldsBackAsRequired`). The rollback from memory deletes no file: the directory is restored
exactly when none has come into it (`Rollback`).

Check everything with `dafny verify dfyconfig.toml`.

## Model

| member | source | states |
|---|---|---|
| `TextOperations.RebaseOverKeepsSides` | tools/jispec/collaboration-server.ts:568-576 | Moving a position over one insert, delete or replace keeps it on the same side of every atom that survives the splice |
| `TextOperations.RebaseOverMovesCursor` | tools/jispec/collaboration-server.ts:568-577 | A position moves over one operation exactly as a cursor does: it stays where it is before the change, keeps the text behind it over an insert, and over a delete or replace keeps as much of the text behind it as is still there; no other position does so |
| `TextOperations.CursorInReplacedRange` | tools/jispec/collaboration-server.ts:574-577 | A position inside a replaced range, concretely |
| `TextOperations.MissingFieldsDoNothing` | tools/jispec/collaboration-server.ts:559-637 | An insert without content, a delete without length and a replace without either change no text and move no position |
| `TextOperations.SliceFromEnd` | tools/jispec/collaboration-server.ts:619-637 | Slicing at a negative index counts from the end, and both parts make up the text again |
| `TextOperations.RebasePreservesIntention` | tools/jispec/collaboration-server.ts:559-586 | For any list of later operations, an atom of the base text that is still there is left of the rebased position exactly when it was left of the original one |
| `TextOperations.RebaseStaysInRange` | tools/jispec/collaboration-server.ts:559-586 | A position inside the base text is rebased to a position inside the current text |
| `TextOperations.ApplyAllConcat` | tools/jispec/collaboration-server.ts:457-466 | Applying a log in two parts is applying it whole |
| `TextOperations.StaleRemovalOverOneIff` | tools/jispec/collaboration-server.ts:568-585 | Over one later insert, delete or replace a stale edit, whose length is not rebased, removes exactly what is left of the atoms its author meant if and only if that operation puts nothing into the range, nor right before it by a replace, and takes nothing out of it unless nothing stands behind it |
| `TextOperations.StaleRemovalIff` | tools/jispec/collaboration-server.ts:559-586 | Over any log it does so if and only if what is left of the range fills the range between its rebased ends, and nothing of it is missing or nothing stands behind it |
| `TextOperations.EndKeepsSides` | tools/jispec/collaboration-server.ts:559-586 | The rebased end of a range keeps its side of every surviving atom and stays right behind the last one of the range while that is there |
| `TextOperations.DoubleDeleteRemovesMore` | tools/jispec/collaboration-server.ts:571-573 | Two deletions of the same two atoms remove four |
| `CollaborationServer.AcceptKeepsConsistent` | tools/jispec/collaboration-server.ts:213-219 | After an accepted operation the version is the log length, operation i carries base version i, and the text is the fold of the log |
| `CollaborationServer.AcceptChangesOnly` | tools/jispec/collaboration-server.ts:213-219 | The logged operation is the one sent but for its position and base version, and the initial content stays |
| `CollaborationServer.RunKeepsConsistent` | tools/jispec/collaboration-server.ts:209-248 | The same over any run of edits, with one version per edit and the initial content unchanged |
| `CollaborationServer.RebasedEditStaysInRange` | tools/jispec/collaboration-server.ts:209-220 | An edit that was valid at its base version is applied at a valid index of the current text |
| `CollaborationServer.TransformedFollowsLog` | tools/jispec/collaboration-server.ts:559-586 | A stale edit is applied where its author's cursor has got to: a chain of positions, one for each version since, of which each is the one before it moved over one logged operation |
| `CollaborationServer.RunAppliesInRange` | tools/jispec/collaboration-server.ts:209-220 | Over any run of valid edits every logged operation was applied at a valid index |
| `CollaborationServer.ReachableDocument` | tools/jispec/collaboration-server.ts:209-220 | Both from a new document on, over any run of edits |
| `CollaborationServer.StaleInsertKeepsItsPlace` | tools/jispec/collaboration-server.ts:209-220 | A stale insert lands in one piece between the surviving atoms its author saw on its left and those on its right |
| `CollaborationServer.StaleEditRemovesMeantIff` | tools/jispec/collaboration-server.ts:209-220 | An accepted stale edit replaces the stretch from its rebased position on, and this stretch is what is left of the atoms its author meant if and only if the range is whole |
| `CollaborationServer.Server.TransformOperation` | tools/jispec/collaboration-server.ts:559-586 | The loop computes the rebased position, which is where the cursor got to (`TransformedFollowsLog`), and stamps the current version; everything else is kept |
| `CollaborationServer.Server.ApplyOperation` | tools/jispec/collaboration-server.ts:209-248 | Unknown sessions and forbidden writes change nothing; otherwise exactly the session's document and the session's activity change |
| `CollaborationServer.Server.EnsureDocument` | tools/jispec/collaboration-server.ts:531-549 | Returns the existing document or enters a new one at version 0 |
| `CollaborationServer.Server.JoinSession` | tools/jispec/collaboration-server.ts:130-186 | A reader without permission changes nothing; otherwise the session and, if new, the document are entered |
| `CollaborationServer.Server.LeaveSession` | tools/jispec/collaboration-server.ts:188-207 | Removes the session and nothing else |
| `CollaborationServer.Server.ReplayDocumentOperations` | tools/jispec/collaboration-server.ts:442-469 | One frame per version: the first shows the initial text, each later one the text before it with one more operation of the log applied, with that operation and its timestamp, and the last one the current text |
| `Walks.WalkDescends` | tools/jispec/dependency-graph.ts:88-120 | Walks run backwards through a finish order |
| `Walks.FinishOrderAcyclic` | tools/jispec/dependency-graph.ts:110-112 | A graph all of whose nodes fit in one finish order has no cycle |
| `Walks.ReachesReversed` | tools/jispec/dependency-graph.ts:77-81 | Reversing every edge reverses reachability, also on cyclic graphs |
| `Walks.BackEdgeCycle` | tools/jispec/dependency-graph.ts:130-134 | The path from the repeated slice on, closed with it, is a cycle without inner repeats |
| `DependencyGraph.TopologicalSort.Visit` | tools/jispec/dependency-graph.ts:93-113 | A visit either finishes the slice after all it requires, with the call stack restored, or names a slice on a cycle |
| `DependencyGraph.TopologicalOrder` | tools/jispec/dependency-graph.ts:88-120 | Fails exactly when the non-optional dependencies have a cycle, naming a slice on one; else lists every slice and missing required id once, after all its non-optional dependencies |
| `DependencyGraph.CycleFinder.Visit` | tools/jispec/dependency-graph.ts:128-149 | Keeps every recorded list a cycle, restores the path, and at every moment leaves slices in a finish order of the dependencies without the closing edges of the lists recorded so far |
| `DependencyGraph.FindCycles` | tools/jispec/dependency-graph.ts:122-156 | Each reported list is a closed walk of dependency edges without inner repeats; every cycle there is takes the closing edge, the last two ids, of a reported list; without these edges the slices are left in a finish order, which each of these edges goes against, and each is reported once unless a dependency is listed twice |
| `DependencyGraph.Closure.Visit` | tools/jispec/dependency-graph.ts:162-173 | Finds only ids reachable from the source and leaves no successor of a closed id unfound |
| `DependencyGraph.ReachableFrom` | tools/jispec/dependency-graph.ts:158-196 | Exactly the ids reachable by one edge or more, each once |
| `DependencyGraph.GetUpstream` | tools/jispec/dependency-graph.ts:158-177 | Exactly the slices reachable along dependencies |
| `DependencyGraph.GetDownstream` | tools/jispec/dependency-graph.ts:179-196 | Exactly the slices from which the given one is reachable along dependencies |
| `DependencyGraph.UpstreamDownstreamDual` | tools/jispec/dependency-graph.ts:158-196 | y is upstream of x if and only if x is downstream of y |
| `DependencyGraph.ReverseEdgesReverse` | tools/jispec/dependency-graph.ts:77-81 | The reverse map is the reversal of the dependency relation |
| `DependencyGraph.Build` | tools/jispec/dependency-graph.ts:40-86 | Nodes are the readable records, the last one of an id winning and the first one giving its place; the edges follow node and dependency order and are grouped by target |
| `DependencyGraph.BuildEdges` | tools/jispec/dependency-graph.ts:65-83 | Lists the edges in order and groups them by target without empty groups |
| `DependencyGraph.EdgesStateDependencies` | tools/jispec/dependency-graph.ts:65-75 | An edge is in the graph exactly when the slice it comes from has a dependency with its target, kind, required state and optional flag |
| `Layers.BatchNumber` | tools/jispec/cross-slice-scheduler.ts:133-191 | A scheduled id is in batch 0 if it has no dependency to wait for, else right after the last of them |
| `Layers.BatchNumberMinimal` | tools/jispec/cross-slice-scheduler.ts:133-191 | No assignment of levels that respects the dependencies puts an id lower than its batch |
| `Layers.DoneIsLeast` | tools/jispec/cross-slice-scheduler.ts:133-191 | What is scheduled is contained in every set closed under being startable |
| `Layers.InOneBatch` | tools/jispec/cross-slice-scheduler.ts:186-190 | No id is in two batches |
| `Layers.LeftOutIffDoomed` | tools/jispec/cross-slice-scheduler.ts:166-176 | An id is never scheduled if and only if it is, or leads to, one held back from outside or on a cycle |
| `Layers.FlatIsFinishOrder` | tools/jispec/cross-slice-scheduler.ts:106-110 | Batch after batch, each id comes once, after all its dependencies |
| `CrossSliceScheduler.ReadyIffOutsideMet` | tools/jispec/cross-slice-scheduler.ts:201-247 | With all its chosen dependencies completed a slice is ready exactly when its other dependencies are far enough in their lifecycle |
| `CrossSliceScheduler.StateMetIff` | tools/jispec/cross-slice-scheduler.ts:231-240 | Over a lifecycle without repeats an upstream in one state meets the requirement of another exactly when that one does not come later; an unlisted state meets no listed requirement, and an unlisted requirement is always met |
| `CrossSliceScheduler.MissingUpstreamIsNotMet` | tools/jispec/cross-slice-scheduler.ts:201-247 | A dependency on a slice that does not exist is never met |
| `CrossSliceScheduler.AdvancingKeepsScheduled` | tools/jispec/cross-slice-scheduler.ts:125-247 | When states of slices advance along the lifecycle, no schedule loses a slice |
| `CrossSliceScheduler.TooEarlyLeavesOut` | tools/jispec/cross-slice-scheduler.ts:125-247 | A slice whose upstream outside the schedule is in an earlier state than required is left out, and so is all that leads to it |
| `CrossSliceScheduler.CartWaitsForDesign` | tools/jispec/cross-slice-scheduler.ts:231-240 | The schedules of a slice whose upstream must be designed, for each state of that one |
| `CrossSliceScheduler.LeftOutExactlyWhenDoomed` | tools/jispec/cross-slice-scheduler.ts:125-194 | A slice is left out if and only if following its chosen dependencies reaches a cycle or an unmet outside requirement |
| `CrossSliceScheduler.ExecutionOrderFollowsDependencies` | tools/jispec/cross-slice-scheduler.ts:106-110 | The execution order lists every scheduled slice once, after its chosen dependencies |
| `CrossSliceScheduler.Scheduler.CheckReadiness` | tools/jispec/cross-slice-scheduler.ts:201-247 | Ready exactly when every dependency is completed or far enough, else the reason names the first that is not, and whether it is missing, not completed or in too early a state |
| `CrossSliceScheduler.Scheduler.FindReady` | tools/jispec/cross-slice-scheduler.ts:135-163 | One round finds exactly the remaining tasks that can start, blocks those that wait for none and still cannot, and changes no other |
| `CrossSliceScheduler.Scheduler.Round` | tools/jispec/cross-slice-scheduler.ts:133-191 | One round makes the next batch from what can start after the batches so far, or finds that nothing can start any more |
| `CrossSliceScheduler.Scheduler.ComputeBatches` | tools/jispec/cross-slice-scheduler.ts:125-194 | Each batch holds exactly what can start after the ones before, in the order of the tasks, and nothing can start after the last; scheduled tasks end ready and the others blocked |
| `CrossSliceScheduler.Scheduler.Schedule` | tools/jispec/cross-slice-scheduler.ts:83-120 | The same for the given slices that exist, batches in the given order, with matching totals and execution order |
| `CrossSliceScheduler.Scheduler.PropagateFailure` | tools/jispec/cross-slice-scheduler.ts:252-276 | Blocks, with the failed slice as the reason, and lists exactly the tasks that depend on it and have neither failed nor been blocked |
| `CrossSliceScheduler.Scheduler.StartTask` | tools/jispec/cross-slice-scheduler.ts:334-354 | A task starts exactly when it is ready given the completed tasks, and is blocked otherwise |
| `CrossSliceScheduler.Scheduler.FinishTask` | tools/jispec/cross-slice-scheduler.ts:356-370 | Success completes the task; failure fails it and blocks what depends on it |
| `CrossSliceScheduler.Scheduler.ExecuteBatch` | tools/jispec/cross-slice-scheduler.ts:373-378 | In any interleaving of the chunks the tasks that are run complete or fail as their pipelines do, and only those are blocked that may not start or lead to a failure; earlier batches stay completed except, exactly, what leads to a failure |
| `CrossSliceScheduler.Scheduler.Execute` | tools/jispec/cross-slice-scheduler.ts:297-395 | Batches before `fromBatch` are not run; of those before the stop every slice that starts has completed, and ends blocked exactly if it depends on a failed one; the stop batch holds every failure; everything after it is skipped |
| `CrossSliceScheduler.StartsIff` | tools/jispec/cross-slice-scheduler.ts:328-354 | From any batch on, a scheduled slice is run, if nothing fails before, exactly when each dependency is run too or far enough in its lifecycle |
| `CrossSliceScheduler.AllStart` | tools/jispec/cross-slice-scheduler.ts:328-354 | An execution from batch 0 runs every scheduled slice, up to a failure |
| `CrossSliceScheduler.FailureReachesBack` | tools/jispec/cross-slice-scheduler.ts:252-276 | When only one slice fails, every execution stops at its batch and leaves blocked what depends on it in earlier batches |
| `CrossSliceScheduler.EarlierBatchesStayCompletedIff` | tools/jispec/cross-slice-scheduler.ts:252-276 | In all executions of a schedule the batches before a failure stay completed if and only if no scheduled slice depends on one of a later batch |
| `CrossSliceScheduler.AllScheduledReachBack` | tools/jispec/cross-slice-scheduler.ts:125-194 | When every slice was to be scheduled, none depends on one of a later batch |
| `CrossSliceScheduler.CompletedSliceIsBlocked` | tools/jispec/cross-slice-scheduler.ts:361-369 | A schedule and a failure that blocks a slice that has completed |
| `CrossSliceScheduler.OptionalHoldsBackAsRequired` | tools/jispec/cross-slice-scheduler.ts:201-247 | Making dependencies optional or required changes no schedule |
| `StageRuns.RunSerially` | tools/jispec/pipeline-executor.ts:211-227 | The serial pipeline stops at the first failing stage and otherwise leaves what all stages in order leave |
| `StageRuns.SameOutcome` | tools/jispec/parallel-executor.ts:211-253 | A stage whose level has come succeeds or fails, and writes, as in the serial order, in whatever order its level runs |
| `StageRuns.AllDone` | tools/jispec/parallel-executor.ts:211-253 | With all stages done in any such order the files are those of the serial run |
| `StageOrders.OrderSameRun` | tools/jispec/parallel-executor.ts:211-253 | If the declared files are undisturbed, every order that runs level after level gives each stage its serial result and ends with the serial files |
| `StageOrders.SameRunIffUndisturbed` | tools/jispec/parallel-executor.ts:211-253 | And only if they are: otherwise some stages that touch declared files only, and some order, differ from the serial run |
| `StageOrders.OrderedConflictsSuffice` | tools/jispec/parallel-executor.ts:53-75 | Putting every stage that writes what an earlier one reads or writes on a higher level suffices, and so does having no such stage |
| `StageOrders.WritersNeedNotBeApart` | tools/jispec/parallel-executor.ts:53-75 | Two stages that write what the other reads are fine when one waits for the other |
| `StageOrders.ConflictsNeedNotBeOrdered` | tools/jispec/parallel-executor.ts:53-75 | Two stages of one level may write the same file when a third overwrites it before it is read |
| `ParallelExecutor.Executor.HasOutputInputDependency` | tools/jispec/parallel-executor.ts:83-94 | True exactly when some output of the producer is an input of the consumer |
| `ParallelExecutor.Executor.FindDependencies` | tools/jispec/parallel-executor.ts:55-72 | For a stage with feeders exactly the earlier stages that feed it, else, but for the first stage, exactly the one right before it |
| `ParallelExecutor.DependenciesExactly` | tools/jispec/parallel-executor.ts:53-75 | The dependencies of a stage are those two cases, both ways: nothing is missing and nothing that feeds nothing is added |
| `ParallelExecutor.Executor.BuildDependencyGraph` | tools/jispec/parallel-executor.ts:41-78 | Every stage, keyed by id in order, waits for exactly the earlier stages that feed it, or for the one before it if none does |
| `ParallelExecutor.Executor.BuildExecutionBatches` | tools/jispec/parallel-executor.ts:99-139 | Batches cover all stages, in their order, each after its dependencies; fails exactly with a closed proper subset beyond which nothing can start |
| `ParallelExecutor.NeverCircular` | tools/jispec/parallel-executor.ts:53-75 | Graphs built from stages never trigger the circular-dependency error |
| `ParallelExecutor.BatchIsDepth` | tools/jispec/parallel-executor.ts:99-139 | The batch of a stage is the length of its longest chain of dependencies |
| `ParallelExecutor.UnfedFollowsPrevious` | tools/jispec/parallel-executor.ts:69-72 | A stage without feeders is in the batch right after that of the stage before it |
| `ParallelExecutor.FedFollowsFeeders` | tools/jispec/parallel-executor.ts:53-67 | A stage with feeders is in a batch after all of these and right after one of them |
| `ParallelExecutor.FirstBatch` | tools/jispec/parallel-executor.ts:69-72 | Batch 0 holds the first stage and no other |
| `ParallelExecutor.Executor.ExecuteChunk` | tools/jispec/parallel-executor.ts:164-200 | Stages that start and finish in any interleaving leave the serial outputs and reports |
| `ParallelExecutor.Executor.ExecuteBatch` | tools/jispec/parallel-executor.ts:144-206 | The same for a whole batch in chunks, with one result per stage in order |
| `ParallelExecutor.Executor.ExecuteParallel` | tools/jispec/parallel-executor.ts:211-253 | Completes exactly when the serial pipeline does, then leaves the same files and one success per stage; else it names the stages of the first failing batch that failed |
| `ParallelExecutor.ParallelEqualsSerialIff` | tools/jispec/parallel-executor.ts:41-139 | With any order inside a batch, running the batches gives what running the stages one by one gives, for all stages with these declared files, if and only if these are undisturbed |
| `ParallelExecutor.ApartIsRunnable` | tools/jispec/parallel-executor.ts:41-139 | No two stages writing the same file and none writing what an earlier one reads is enough |
| `ParallelExecutor.LateWriterBreaksOrder` | tools/jispec/parallel-executor.ts:83-94 | Only producer-to-consumer edges are tracked: three stages, one of which writes what an earlier one of its batch reads, and an order of the batch that leaves other files |
| `Sums.SumRemove` | tools/jispec/resource-manager.ts:150-160 | A sum over a map may be taken in any order |
| `TaskQueues.SortQueueSorts` | tools/jispec/distributed-scheduler.ts:499-509 | Sorting orders the queue by priority and age, keeps its entries, and keeps equal ones in their order |
| `DistributedScheduler.Scheduler.SubmitTask` | tools/jispec/distributed-scheduler.ts:146-176 | Enters the task as pending and queues it in order |
| `DistributedScheduler.Scheduler.RegisterWorker` | tools/jispec/distributed-scheduler.ts:181-193 | Enters an idle worker with the load it reports |
| `DistributedScheduler.Scheduler.UnregisterWorker` | tools/jispec/distributed-scheduler.ts:198-214 | Re-queues the tasks of the worker unsorted and removes it |
| `DistributedScheduler.Scheduler.WorkerHeartbeat` | tools/jispec/distributed-scheduler.ts:219-234 | Overwrites load and status of a known worker |
| `DistributedScheduler.Scheduler.TaskCompleted` | tools/jispec/distributed-scheduler.ts:239-260 | The requirements come off the load of the worker the task names, never below zero, that worker counts one more success, and the task is completed |
| `DistributedScheduler.Scheduler.TaskFailed` | tools/jispec/distributed-scheduler.ts:265-296 | The requirements come off the load of the worker the task names and that worker counts one more failure; with fewer than maxRetries failures the task is pending and queued in order again, else it has failed |
| `DistributedScheduler.Scheduler.CancelTask` | tools/jispec/distributed-scheduler.ts:301-325 | Gives the resources back, cancels the task and takes it out of the queue |
| `DistributedScheduler.Scheduler.AssignTask` | tools/jispec/distributed-scheduler.ts:448-462 | Moves the task from the queue to the worker and charges it |
| `DistributedScheduler.Scheduler.SelectWorker` | tools/jispec/distributed-scheduler.ts:353-443 | None exactly when no worker suits; else the first of the best competitors under the strategy |
| `WorkerSelection.ReduceToBest` | tools/jispec/distributed-scheduler.ts:390-425 | When the candidates can be ranked, the one that is better than all before it and not worse than any after it |
| `WorkerSelection.FewestTasks` | tools/jispec/distributed-scheduler.ts:390-395 | The first of the best under round robin has the fewest running tasks, and fewer than all before it |
| `WorkerSelection.MostSuccessful` | tools/jispec/distributed-scheduler.ts:414-425 | Under the weighted strategy none has a greater share of completed tasks |
| `WorkerSelection.LeastLoad` | tools/jispec/distributed-scheduler.ts:397-412 | Under the least-loaded and affinity strategies no candidate with processors and memory has a smaller sum of both load shares |
| `WorkerSelection.FamiliarFirst` | tools/jispec/distributed-scheduler.ts:427-443 | Under affinity, if a suitable worker has completed a task of the slice, the chosen one has |
| `WorkerSelection.CompetingInOrder` | tools/jispec/distributed-scheduler.ts:353-443 | The candidates compete in the order of their registration |
| `DistributedScheduler.Scheduler.ScheduleTasks` | tools/jispec/distributed-scheduler.ts:330-348 | Each queued task in turn goes to the worker the strategy chooses among those that suit it then, and is passed over only if none does |
| `DistributedScheduler.Scheduler.CheckWorkerHeartbeats` | tools/jispec/distributed-scheduler.ts:473-494 | Workers silent for more than 30 seconds go offline and their tasks fail |
| `DistributedScheduler.Scheduler.SetStrategy` | tools/jispec/distributed-scheduler.ts:585-588 | Changes the strategy and nothing else |
| `SchedulerRuns.TaskInOnePlace` | tools/jispec/distributed-scheduler.ts:97-99 | A task is pending and once in the queue, or in flight and only with the worker it names, or terminal and in neither |
| `SchedulerRuns.StepKeepsPlaces` | tools/jispec/distributed-scheduler.ts:146-325 | No step takes a task out of its place, loses it or duplicates it |
| `SchedulerRuns.RunKeepsPlaces` | tools/jispec/distributed-scheduler.ts:146-494 | The same over every run whose reports name live tasks |
| `SchedulerRuns.ReachableKeepsPlaces` | tools/jispec/distributed-scheduler.ts:146-494 | So in every state reached from an empty scheduler every task is in its place |
| `SchedulerHistory.RetriesAreUsedUp` | tools/jispec/distributed-scheduler.ts:265-296 | Counted over the steps of any run from an empty scheduler: the retry count of a task is how often it was reported as failed, a live task has fewer failures than max(1, maxRetries), one that has failed for good has exactly that many, and, while no worker is unregistered, was assigned just as often |
| `SchedulerHistory.RunCountsOnWorker` | tools/jispec/distributed-scheduler.ts:239-282 | Over any run without its leaving, a worker's counts of completed and failed tasks grow by the reports on tasks it had, and its capacity stays |
| `SchedulerHistory.ReportingWorkerTimesOutIff` | tools/jispec/distributed-scheduler.ts:219-234 | A worker that has reported times out exactly when the check comes more than 30 seconds later |
| `SchedulerHistory.RegisteredWorkerTimesOutIff` | tools/jispec/distributed-scheduler.ts:181-193 | So does one that has registered |
| `SchedulerRuns.UnregisterKeepsPlaces` | tools/jispec/distributed-scheduler.ts:202-212 | Every task of a worker that leaves is pending and queued |
| `SchedulerRuns.CompleteKeepsPlacesIff` | tools/jispec/distributed-scheduler.ts:239-260 | A completion report keeps every task in its place if and only if the task is not queued |
| `SchedulerRuns.FailKeepsPlacesIff` | tools/jispec/distributed-scheduler.ts:265-296 | A failure report keeps every task in its place if and only if the task is not queued |
| `SchedulerRuns.ReportOnQueuedTask` | tools/jispec/distributed-scheduler.ts:239-296 | A queued task reported as completed stays queued, and one reported as failed is queued twice |
| `SchedulerLoad.ReleaseNeverClips` | tools/jispec/distributed-scheduler.ts:464-468 | The zero bound in the release is never met for a task in flight |
| `SchedulerLoad.StepKeepsLoad` | tools/jispec/distributed-scheduler.ts:448-468 | Every step keeps each load exact and within capacity |
| `SchedulerLoad.RunKeepsLoad` | tools/jispec/distributed-scheduler.ts:353-368 | Over every faithful run each load is the registered one plus what the running tasks require, and within capacity in cpu, memory and disk |
| `SchedulerLoad.ReachableKeepsLoad` | tools/jispec/distributed-scheduler.ts:353-368 | So in every state reached from an empty scheduler the loads are exact and within capacity |
| `SchedulerLoad.HeartbeatKeepsLoadIff` | tools/jispec/distributed-scheduler.ts:219-224 | A heartbeat keeps the account exact if and only if it reports the load the scheduler has |
| `SchedulerLoad.HeartbeatOverwritesLoad` | tools/jispec/distributed-scheduler.ts:219-224 | A heartbeat after which the account is wrong |
| `SchedulerLoad.LateReportKeepsLoadIff` | tools/jispec/distributed-scheduler.ts:239-325 | A completion, failure or cancellation of a task that has ended keeps the loads exact if and only if there is nothing to take off the worker it still names |
| `SchedulerLoad.SecondReportReleasesAgain` | tools/jispec/distributed-scheduler.ts:239-260 | A second completion report after which the account is wrong |
| `SchedulerProgress.PassIsWorkConserving` | tools/jispec/distributed-scheduler.ts:330-368 | When a pass ends no task left in the queue fits on any worker that is not offline |
| `SchedulerProgress.PlacedWhereItFits` | tools/jispec/distributed-scheduler.ts:340-368 | Whatever a pass assigns goes to a worker that is not offline and has room for it in cpu, memory and disk at that moment |
| `SchedulerProgress.PassIsRun` | tools/jispec/distributed-scheduler.ts:340-347 | A pass is a run of enabled assignments |
| `SchedulerProgress.CheckHeartbeatsIsRun` | tools/jispec/distributed-scheduler.ts:473-494 | A heartbeat check is a run: workers go offline and their tasks, all live, fail |
| `SchedulerProgress.TimedOutStaysOfflineIff` | tools/jispec/distributed-scheduler.ts:480-489 | A worker that times out loses all its tasks, and stays offline if and only if it had none |
| `SchedulerProgress.TimedOutBecomesIdle` | tools/jispec/distributed-scheduler.ts:473-494 | A worker that times out with a task and is not offline afterwards |
| `SchedulerProgress.RunSpendsPotential` | tools/jispec/distributed-scheduler.ts:265-296 | Without new submissions and unregistrations, every assignment, completion, failure and cancellation spends one unit of a potential |
| `SchedulerProgress.RunIsBounded` | tools/jispec/distributed-scheduler.ts:265-296 | Such a run has at most 2 * sum of max(1, maxRetries) of these steps |
| `SchedulerProgress.ReachableRunIsBounded` | tools/jispec/distributed-scheduler.ts:265-296 | The same after any run from an empty scheduler |
| `SchedulerProgress.DispatchesAreBounded` | tools/jispec/distributed-scheduler.ts:284-296 | While no worker is unregistered a task is dispatched at most max(1, maxRetries) times |
| `SchedulerProgress.QueueOrderedAfterPush` | tools/jispec/distributed-scheduler.ts:168-171 | After a submission or a retry the queue is in order and stable |
| `SchedulerProgress.UrgentFirst` | tools/jispec/distributed-scheduler.ts:499-509 | Then no task stands before a more urgent one, critical, high, normal, low in this order, nor before an older one of its priority |
| `ResourceManager.ResourceManager.GetUsedResources` | tools/jispec/resource-manager.ts:150-160 | The loop computes the sum of all allocations in each resource |
| `ResourceManager.ResourceManager.CanAllocateResources` | tools/jispec/resource-manager.ts:129-148 | True exactly when the request is at most what is available |
| `ResourceManager.ResourceManager.AllocateResources` | tools/jispec/resource-manager.ts:66-95 | Succeeds exactly when enough is available, and then enters the allocation and indexes it |
| `ResourceManager.ResourceManager.ReleaseResources` | tools/jispec/resource-manager.ts:97-114 | Removes one allocation and its index entry, and an owner without allocations |
| `ResourceManager.ResourceManager.ReleaseOwnerResources` | tools/jispec/resource-manager.ts:116-127 | Removes the indexed allocations of an owner and the owner |
| `ResourceLedger.AllocateKeepsSound` | tools/jispec/resource-manager.ts:66-95 | An allocation keeps the index exact and usage within capacity, and adds exactly what was asked |
| `ResourceLedger.GrantedIff` | tools/jispec/resource-manager.ts:129-160 | A request is granted if and only if it fits into the capacity together with all that is allocated |
| `ResourceLedger.ReleaseKeepsSound` | tools/jispec/resource-manager.ts:97-114 | A release keeps the index exact and takes off exactly the allocation's requirements |
| `ResourceLedger.ReleaseOwnerKeepsSound` | tools/jispec/resource-manager.ts:116-127 | Releasing an owner removes exactly the allocations of that owner |
| `ResourceLedger.StepKeepsBalanced` | tools/jispec/distributed-runtime.ts:328-366 | Every step keeps the task table and the managers' books equal |
| `ResourceLedger.RunKeepsBalanced` | tools/jispec/distributed-runtime.ts:328-420 | The same over every run: index exact, usage within capacity, each manager's allocations exactly the table's entries for its worker |
| `ResourceLedger.ReachableKeepsBalanced` | tools/jispec/distributed-runtime.ts:328-420 | So in every state reached from an empty ledger the books are balanced |
| `ResourceLedger.ChargedAtMostOnce` | tools/jispec/distributed-runtime.ts:333-343 | A task is charged at most once, on one worker |
| `ResourceLedger.ChargedIff` | tools/jispec/distributed-runtime.ts:328-344 | An uncharged task is charged if and only if its worker has a manager with room for it; nothing else changes |
| `ResourceLedger.WorkerEntersAndLeaves` | tools/jispec/distributed-runtime.ts:72-366 | A new worker has its capacity and no allocation, and releasing a worker takes exactly its own |
| `ResourceLedger.AllocationStays` | tools/jispec/distributed-runtime.ts:333-335 | Until it is released an allocation stays as made, whatever is asked for the task meanwhile |
| `ResourceLedger.ReleaseReturnsCharge` | tools/jispec/distributed-runtime.ts:346-355 | A release gives back exactly what was charged |
| `DistributedRuntime.Runtime.AllocateTaskResources` | tools/jispec/distributed-runtime.ts:328-344 | Charges a task once, or reports the missing manager or resources and changes nothing |
| `DistributedRuntime.Runtime.ReleaseTaskAllocation` | tools/jispec/distributed-runtime.ts:346-355 | Takes the task's allocation out of the table and of its worker's books |
| `DistributedRuntime.Runtime.ReleaseWorkerResources` | tools/jispec/distributed-runtime.ts:357-366 | Takes every allocation of the worker out of the table and its books |
| `DistributedRuntime.Runtime.AddWorker` | tools/jispec/distributed-runtime.ts:72-96 | Refuses a known worker and else adds an empty manager |
| `CacheManifest.NewManifestLives` | tools/jispec/cache-manifest.ts:90-125 | A new manifest is valid exactly up to the end of its time to live, or for ever without one |
| `CacheManifest.ValidityOnlyEnds` | tools/jispec/cache-manifest.ts:130-180 | Touching never changes validity, what is invalid stays so, and an invalidated manifest is invalid at every time |
| `CacheManifest.OnlyTheirFields` | tools/jispec/cache-manifest.ts:130-155 | Touching sets the access time, invalidating the status and its reason, and nothing else of the manifest |
| `CacheManifest.ValidAsDocumentedIff` | tools/jispec/cache-manifest.ts:167-180 | The check agrees with its documentation if and only if the status says expired only when the expiry time does |
| `CacheManifest.ExpiredStatusIsValid` | tools/jispec/cache-manifest.ts:167-180 | A manifest with status expired that is taken as valid |
| `CacheStore.KeysShareFilesIff` | tools/jispec/cache-manager.ts:75-87 | Two keys share their files exactly when one is the other without its prefix |
| `CacheStore.UnprefixedKeyFindsOther` | tools/jispec/cache-manager.ts:75-87 | A `get` of a key that was never put returns the value of the prefixed one |
| `CacheStore.GetReturnsLastPut` | tools/jispec/cache-manager.ts:190-217 | After any run `get` returns the value last put while it is neither invalidated nor expired, and nothing otherwise |
| `CacheStore.PutIsFound` | tools/jispec/cache-manager.ts:190-217 | A key that has been put is found at once, unless what was put is invalidated or expired, and other keys are found as before |
| `CacheStore.DeathIsPermanent` | tools/jispec/cache-manager.ts:190-208 | Once a `get` finds nothing every later one finds nothing until the key is put again |
| `CacheStore.PruneIsInvisible` | tools/jispec/cache-manager.ts:393-418 | Pruning, warming up and reading change the result of no later `get` in runs that store through `put` |
| `CacheStore.InvalidationHitsScopeOnly` | tools/jispec/cache-manager.ts:273-299 | A bulk invalidation kills the keys of its slice or stage and no other |
| `CacheStore.SliceInvalidationKills` | tools/jispec/cache-manager.ts:273-299 | An entry just put is lost to a bulk invalidation exactly when its slice is named, and its stage or none |
| `CacheStore.InvalidateKills` | tools/jispec/cache-manager.ts:252-268 | After an invalidation its key is not found and the others are found as before |
| `CacheStore.ClearForgets` | tools/jispec/cache-manager.ts:380-388 | After clearing nothing is found |
| `CacheStore.InvalidationIsRecorded` | tools/jispec/cache-manager.ts:252-268 | The stored manifest keeps reason, details and time, and the others stay |
| `CacheStore.GetOnlyDates` | tools/jispec/cache-manager.ts:190-208 | A `get` changes nothing in storage but the access time of the valid manifest it finds |
| `CacheStore.PruneRemovesDead` | tools/jispec/cache-manager.ts:393-418 | Pruning removes exactly the entries that are invalidated or expired by then |
| `CacheManager.Manager.GetValue` | tools/jispec/cache-manager.ts:190-208 | The result and the effect on storage are those of the store without memory, and every memory entry still equals storage |
| `CacheManager.Manager.GetManifest` | tools/jispec/cache-manager.ts:103-123 | Whether from memory or storage, the stored manifest |
| `CacheManager.Manager.GetStoredValue` | tools/jispec/cache-manager.ts:139-158 | Whether from memory or storage, the stored value |
| `CacheManager.Manager.StoreManifest` | tools/jispec/cache-manager.ts:92-98 | Writes the manifest's file and keeps memory equal to storage |
| `CacheManager.Manager.StoreValue` | tools/jispec/cache-manager.ts:128-134 | Writes the value's file and keeps memory equal to storage |
| `CacheManager.Manager.PutEntry` | tools/jispec/cache-manager.ts:213-217 | Stores manifest and value |
| `CacheManager.Manager.WarmUp` | tools/jispec/cache-manager.ts:222-247 | Changes nothing on disk and counts exactly the keys a `get` would find |
| `CacheManager.Manager.InvalidateEntry` | tools/jispec/cache-manager.ts:252-268 | Invalidates the stored manifest of the key, if there is one |
| `CacheManager.Manager.InvalidateWithin` | tools/jispec/cache-manager.ts:273-299 | Invalidates exactly the manifests of the slice, or of its stage, and counts them |
| `CacheManager.Manager.PruneDead` | tools/jispec/cache-manager.ts:393-418 | Removes manifest and value of exactly the invalid or expired entries and counts them |
| `CacheManager.Manager.ClearAll` | tools/jispec/cache-manager.ts:380-388 | Empties storage and memory |
| `PortableNaming.TimestampRoundTripIff` | tools/jispec/portable-naming.ts:85-127 | A printed timestamp reads back as its date, in either form, if and only if the year has four digits |
| `PortableNaming.LateYearDoesNotParse` | tools/jispec/portable-naming.ts:85-127 | A timestamp of the year 10000 is refused |
| `PortableNaming.TimestampForms` | tools/jispec/portable-naming.ts:76-142 | The names of one moment in both forms, and of its snapshot |
| `PortableNaming.NamesSortByTime` | tools/jispec/portable-naming.ts:95-98 | Between four-digit years the millisecond names sort as the moments do |
| `PortableNaming.SnapshotNameParses` | tools/jispec/portable-naming.ts:138-142 | The stage and timestamp of a snapshot name read back |
| `PortableNaming.SnapshotNameReassembles` | tools/jispec/failure-handler.ts:459-460 | The parts of a matching name make up the name again |
| `FailureHandler.Handler.GetSliceFiles` | tools/jispec/failure-handler.ts:405-428 | Every file under the directory, once |
| `FailureHandler.InDirIff` | tools/jispec/failure-handler.ts:405-428 | A path is under a directory exactly when it goes on from it with a slash, so a directory whose name goes on otherwise is outside |
| `FailureHandler.Handler.CreateSnapshot` | tools/jispec/failure-handler.ts:153-200 | Stores, in memory and under the snapshot's name, a copy of every file of the directory, with the overriding state in place of the slice file |
| `FailureHandler.Handler.PickLatest` | tools/jispec/failure-handler.ts:253-260 | A name with no greater timestamp key among the others |
| `FailureHandler.LatestSortsByTime` | tools/jispec/failure-handler.ts:251-259 | The keys of stored snapshots sort as their times |
| `FailureHandler.ExcludedIff` | tools/jispec/failure-handler.ts:243-245 | A stored snapshot is excluded exactly when its stage segment is the excluded name, goes on from it with a hyphen, or makes it up with the stamp |
| `FailureHandler.ExclusionHidesOther` | tools/jispec/failure-handler.ts:243-245 | Excluding "design" excludes "design-review" |
| `FailureHandler.Handler.RollbackToLatest` | tools/jispec/failure-handler.ts:234-306 | Restores the newest snapshot not excluded, if there is one, whatever else lies in the snapshot directory: under full rollback the slice directory holds exactly its files and contents, else its state is written, and nothing outside changes |
| `FailureHandler.UndoStage` | tools/jispec/failure-handler.ts:153-306 | A snapshot before a stage and a rollback after it bring the slice directory back exactly, with the overriding state in the slice file if there is one, whatever files were changed, created or deleted meanwhile; under the state-only strategy they bring back the state; nothing elsewhere is undone |
| `FailureHandler.Handler.Rollback` | tools/jispec/failure-handler.ts:205-229 | The rollback from memory writes the state and, if full, the files back, and deletes none: the directory is as in the snapshot if and only if no file has come since |

## Left out

- `CollaborationServer.Server.ApplyOperation`: does not model presence, broadcasts, comments or locks; the conflict resolver's result is recorded but never applied to the document.
- `DependencyGraph.Build`: does not model finding and parsing slice files; it starts from the records read, unreadable ones being absent.
- `DependencyGraph.GetUpstream`: does not state the order of the result, which the JavaScript set gives by insertion.
- `CrossSliceScheduler.Scheduler.Execute`: does not model the counters (blocked and skipped counts overlap), start and end times, or saving the result; an omitted or zero `maxConcurrent` stands for 10. Which slices succeed when they are run is an arbitrary function.
- `StageRuns.RunSerially`: does not model progress tracking, reports or the choice of the first stage; a stage that throws counts as one that fails.
- `ParallelExecutor.Executor.ExecuteParallel`: does not say which files a failing run leaves; stages of the failing batch may have run that the serial pipeline would not have reached.
- `ParallelExecutor.ParallelEqualsSerialIff`: is about any order inside a batch; a small `maxConcurrent`, which runs a batch in chunks, allows fewer orders.
- `DistributedScheduler.Scheduler.SelectWorker`: does not model floating-point rounding of loads and success rates; they are real numbers or infinite, and a quotient that is not a number compares as false. With such quotients it does not say which candidate is chosen.
- `DistributedScheduler.Scheduler.TaskFailed`: does not model payloads, results, error texts and event emission; the composed path that quarantines a worker and then reports its task as failed reports on a queued task, which the runs exclude.
- `SchedulerRuns.RunKeepsPlaces`: assumes that reports name tasks in flight, cancellations name live tasks and registered ids are fresh.
- `DistributedRuntime.Runtime.AllocateTaskResources`: does not model task execution, fault recovery, waiting or the task cache; resource management is enabled.
- `CacheManager.Manager.GetValue`: takes each call as atomic and reads the clock once per call; values survive JSON, the manager is the only writer, and hit counters are not modelled.
- `CacheStore.GetReturnsLastPut`: is about runs that store through `put`; storing a manifest or a value alone is modelled by the methods only.
- `FailureHandler.Handler.RollbackToLatest`: does not model the removal of evidence files, which lie in another directory, nor empty directories; the slice directory is found where the snapshot was taken, or not at all.
- `FailureHandler.Handler.CreateSnapshot`: does not model a failing write of the snapshot file; `toPortableSegment`, `yaml.load` and `yaml.dump` are arbitrary functions.
- `PortableNaming.DateFrom`: calls a timestamp with fields out of range an invalid date, as the language standard has it; engines may roll such a day over.
- `PortableNaming.NamesSortByTime`: compares by character code; the names differ in digits only, in the same columns, where locale order agrees.
- Backoff delays, human intervention, HTTP servers and clients, notifications, command line, reports, boards and analytics.
- Finite tables such as role permissions, stage and gate maps: settled by reading them.
