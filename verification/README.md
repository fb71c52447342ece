# DoUpRo in Dafny

DoUpRo watches the containers of one Docker host, updates them to newer images on request or on
schedule, rolls them back by hand or after a crash loop, and can replace its own container. This
project models the part of it where a mistake costs an operator a running service: the
update/rollback state machine over the Docker host and the store, the guard and the maintenance
gate in front of it, the self-update helper, the crash watch, the leased notification queue, the
scheduler with its self-update safety check, and the pure kernels they rest on. Verify everything
with `dafny verify dfyconfig.toml`.

How it is laid out:

- `DockerHost`, `ContainerStore`: the two outside parties. Every call may fail without effect. A
  ghost counter `faults` counts such failures; a call that must fail because of the state (no such
  container, name taken) is not counted. Container IDs are fresh. `Host.trail` records the state
  after every Docker call, so it holds every state a kill could leave.
- `Updating`, `SelfUpdating`, `CrashMonitor`, `Discovery`, `NotificationQueue`, `Scheduling`,
  `UpdateCandidates`, `Operations`, `RateLimiting`, `Volumes`: the source's objects as classes and
  methods, each proved against a function or relation on the state before and after.
- `UpdateRuns`, `OperationProtocol`, `QueueRuns`, `OnceRuns`, `CrashWatch`: whole runs. Steps are
  single calls, runs are arbitrary sequences of enabled steps, and the lemmas speak of every
  reachable state.
- `ImageReferences`, `Semver`, `SqlLike`, `JsonSubset`, `Timestamps`, `Text`, `Options`: pure code.

What the proofs brought out about the code:

- A failed update or rollback gives back the recorded tag for every row in step with its container
  (`FailureKeepsTag`), and rows stay in step as long as Docker's container listing shows the
  reference a container was made from. Discovery stores the listed reference and a revert the one
  from the container's own configuration, so for any two different tags one fault after a discovery
  replaces the first by the second (`RevertLosesListedTag`, `RevertKeepsTagIffInStep`).
- Tag stickiness needs the row lookup to succeed: an update or a revert without it records its own
  reference, so the successor row holds a tag exactly when the lookup worked or that reference is one
  (`UpdateKeepsTagIffLookedUp`, `RevertKeepsTagIffLookedUp`).
- An update whose row lookup fails asks the guard for its container ID instead of the name. Exclusion
  then holds per key only: such an update can run beside another operation on the same container
  (`BlindUpdateSharesContainer`), and so can one that finds the container under a name it was given
  outside meanwhile (`RenamedContainerIsShared`). At most one of them commits a replacement all the same.
- `reconcile` writes a lower restart counter back, so one restart can be counted twice
  (`LowReadingCountsTwice`). Crashes counted plus restarts missed equal the observed restarts plus the
  sum of those falls (`CountBalance`), which gives the exact condition for the bound.
- The self-update safety check skips a delayed target whose candidate lookup fails. After a clean check
  no update starts before the horizon if and only if the check would have been clean with every lookup
  working, among the schedules whose retry interval is over by the horizon (`SafetyIsExact`). It also
  needs one row per name (`StaleRowHidesUpdate`).
- A target the check reports is really updated by the horizon if and only if it has a candidate and its
  policy may run again by then (`GenuineUnlessFalseAlarm`). So it raises a false alarm for an immediate
  policy after a rollback, which leaves no candidate (`FalseAlarmWithoutCandidate`), and after a failed
  update until the retry interval is over (`FalseAlarmBeforeRetry`).
- The check compares times and the due test their texts, so in the last second before the horizon a
  schedule the check cleared is picked up exactly when both lie in one second and their fractions nest
  (`TextDueAfterCheck`).
- A one-off schedule makes one update call for every time the marking of its row after such a call was
  lost, to a kill or to a failed write whose error the code ignores, and at most one more
  (`AtMostOneCall`); one lost mark does make the second call (`LostMarkRepeatsTheCall`).
- Stored timestamps trim trailing zeros, so inside one second their text order is wrong exactly when
  one trimmed fraction is a proper prefix of the other (`TextOrderWithinASecond`,
  `WholeSecondSortsLate`). Section 5.1 of RFC 3339 asks for equal fraction lengths.
- The self-update helper creates its replacement without the fidelity check that `recreate` runs. The
  model counts a creation in which Docker drops a setting as a fault of the host, so a helper run
  without faults leaves a faithful replacement, while one with a single fault may keep an unfaithful one.
- `preserveAnonymousVolumes` is idempotent for any mount list; distinct destinations are needed only
  for distinct targets.
- Printing a parsed reference back is lossless except for the two families `Unprintable` names.

## Model

| member | source | states |
|---|---|---|
| `Updating.Updater.Update` | internal/updater/updater.go:64-157 | The new world is related to the old one by the outcome; if at most one Docker or store call failed, it committed or exactly one container of the name is left with the old settings, reference, run state and a row that knows it, its PreviousImage kept and its tag kept exactly if nothing was reverted or the row was in step; a container that was not running is never started, under any number of faults; the guard is left as found; without a fault it commits if and only if the container exists in a recreatable state and the guard admits its key |
| `Updating.Updater.Rollback` | internal/updater/updater.go:260-351 | The same for a rollback, which commits the recorded previous image and closes the watch in one step; a closed gate leaves host and store untouched; without a fault it commits if and only if the row has a previous image, the container is recreatable and the guard admits its name |
| `Updating.Updater.Recreate` | internal/updater/recreate.go:148-208 | How far a recreation got is told by its result: what was stopped, removed, created; success means a faithful container in the old run state and no failed call |
| `Updating.Updater.RemoveOriginal` | internal/updater/recreate.go:159-172 | Stops only what ran, then removes; the result says which of the two happened and the containers are exactly accordingly |
| `Updating.Updater.Build` | internal/updater/recreate.go:174-208 | The new container has the old name, a fresh ID and the planned settings, and is started only if its predecessor ran |
| `Updating.Updater.Launch` | internal/updater/recreate.go:195-207 | A started replacement that passed its health check runs; only its status changed |
| `Updating.Updater.Revert` | internal/updater/updater.go:176-221 | Ends in Reverted, RevertFailed or RevertUnrecorded, each with its rows and containers; watches are never touched, and a clearable leftover can only defeat it through a further fault |
| `Updating.Updater.RecordRevert` | internal/updater/updater.go:195-220 | The reverted row keeps the previous image, and the tag by the stable-reference rule, unless its lookup failed |
| `Updating.Updater.FailBeforeRemoval` | internal/updater/updater.go:227-242 | The original stays; it is started again exactly if it had been stopped |
| `Updating.Updater.CommitUpdate` | internal/updater/updater.go:110-146 | A running container's row and its crash watch appear together or not at all; a failed commit changes neither |
| `Updating.Updater.RecreateAndCommit` | internal/updater/updater.go:97-127 | The way forward of an update: committed as a whole, or rows and watches untouched and a fault to show for it |
| `Updating.Updater.UpdateHeld` | internal/updater/updater.go:83-157 | Update behind the guard: result relation, never-started promise, and without a fault a commit exactly for a recreatable container |
| `Updating.Updater.RollbackHeld` | internal/updater/updater.go:292-351 | Rollback behind the guard: result relation, never-started promise, and without a fault a commit exactly for a recreatable container |
| `Updating.Updater.UpdateGuarded` | internal/updater/updater.go:69-82 | Refused for maintenance exactly when the gate is closed; the guard is restored on every path; without a fault a commit exactly for a recreatable container under an admitted key |
| `Updating.Updater.Recover` | internal/updater/updater.go:97-137 | Whatever a failed attempt left, the way back ends in one of the not-committed outcomes, with at least as many faults as that outcome takes |
| `Updating.SingleFaultAtomicity` | internal/updater/updater.go:58-157 | Every not-committed outcome reached with at most one fault is a restoration: one container under the name, same settings, reference and run state, row ID equal to the live ID, PreviousImage kept; a tag in CurrentImage is kept if and only if the original was kept or its row was in step with it |
| `Updating.RevertedIsRestored` | internal/updater/updater.go:176-221 | A recorded revert restores the container and its row |
| `Updating.RevertKeepsTagIffInStep` | internal/updater/updater.go:204-213 | A stored tag survives a revert if and only if it is the container's reference or the container was made from a digest |
| `Updating.RestartRestores` | internal/updater/updater.go:227-242 | Starting the stopped original again brings back exactly the old containers |
| `Updating.NotCommittedKeepsWatches` | internal/updater/updater.go:64-157 | Only a commit touches rollback watches |
| `UpdateRuns.RollbackParity` | internal/updater/updater.go:311-343 | After n successful rollbacks the pair (running image ID, PreviousImage) depends only on the parity of n; CurrentImage and run state never change and no setting is lost |
| `UpdateRuns.RollbackUndoesUpdate` | internal/updater/updater.go:110-123 | A rollback right after an update runs the exact image ID that ran before it |
| `UpdateRuns.TagSurvives` | internal/updater/updater.go:249-254 | Neither the Go rule nor the SQL rule lets a digest displace a stored tag |
| `UpdateRuns.TagSurvivesStep` | internal/store/store.go:167-186 | Each kind of step in the life of a row keeps a tag a tag |
| `UpdateRuns.TagStickiness` | internal/scheduler/check.go:191-216 | Over every history of discovery, updates, rollbacks, reverts and repairs a row that held a tag is succeeded only by rows that hold a tag |
| `UpdateRuns.UpdateKeepsTagIffLookedUp` | internal/updater/updater.go:86-89 | After an update of a row with a tag the new row holds a tag if and only if the lookup worked or the target is a tag |
| `UpdateRuns.RevertKeepsTagIffLookedUp` | internal/updater/updater.go:204-213 | The same for a revert and the container's reference |
| `UpdateRuns.InStepHolds` | internal/store/store.go:167-186 | Over every history in which the listing shows what containers were made from, a row keeps recording its container's reference unless that is a digest |
| `UpdateRuns.FailureKeepsTag` | internal/updater/updater.go:58-157 | After every such history, an update or rollback that fails with at most one fault restores container and row with PreviousImage and the tag unchanged, no condition left |
| `UpdateRuns.RevertLosesListedTag` | internal/docker/docker.go:183-200 | For any two different tags, a discovery that lists the one and a revert to the other lose the recorded tag with a single fault |
| `Discovery.Discover` | internal/scheduler/check.go:81-119 | After a pass each row is a seen row, under the listed image, or an old one; without faults the rows are exactly the listed containers |
| `Discovery.DiscoveredRowsMeaning` | internal/scheduler/check.go:81-112 | The rows are those of the listed containers; each shows its container as it is, is excluded by label, name or stack, and keeps PreviousImage and the pending update |
| `Discovery.DiscoveryIsARowStep` | internal/store/store.go:167-186 | A discovery pass is a tag-keeping step of every row it keeps |
| `ContainerStore.Store.GetContainer` | internal/store/store.go:340-370 | The row, or none with the reason told apart: absent or failed |
| `ContainerStore.Store.GetContainerByName` | internal/store/store.go:372-387 | Some row of that name, or none with the reason told apart |
| `ContainerStore.Store.ReplaceContainer` | internal/store/store.go:389-432 | Old row out, new row in, pending-update flag cleared, exclusion kept only for a known ID; all or nothing |
| `ContainerStore.ReplacedRowsMeaning` | internal/store/store.go:403-432 | The replaced row is gone, its successor has no pending update and is excluded only if it already was, no other row changes |
| `ContainerStore.Store.ReplaceContainerAndArmRollback` | internal/store/store.go:437-464 | Row and fresh watch in one step, or neither |
| `ContainerStore.Store.ReplaceContainerAndCompleteRollback` | internal/store/store.go:469-482 | Row and closed watch in one step, or neither |
| `ContainerStore.Store.SetUpdateAvailable` | internal/store/store.go:486-502 | Only the flag of that row changes |
| `ContainerStore.Store.SetContainerState` | internal/store/store.go:209-219 | The state of that row only; no row, no effect |
| `ContainerStore.Store.UpsertSeen` | internal/store/store.go:167-207 | A digest seen on the host never displaces a stored tag |
| `ContainerStore.Store.PruneContainers` | internal/store/store.go:283-301 | Exactly the rows of vanished containers go; an empty list drops nothing |
| `ContainerStore.Store.RepairCurrentImage` | internal/store/store.go:256-266 | Only a digest-shaped image is replaced |
| `ContainerStore.Store.RecordCrash` | internal/store/crashloop.go:126-163 | Counts exactly the accepted events and reports triggered exactly at the threshold |
| `ContainerStore.Store.SetRollbackWatchRestartCount` | internal/store/crashloop.go:165-168 | Writes the counter even when it is lower |
| `ContainerStore.Store.CompleteRollbackWatch` | internal/store/crashloop.go:170-173 | Closes the watch by name, whatever its status |
| `ContainerStore.ClosedWatchIsSilent` | internal/store/crashloop.go:170-173 | A closed watch counts and triggers nothing any more; no other watch changes |
| `ContainerStore.Store.ExpireRollbackWatches` | internal/store/crashloop.go:175-181 | Exactly the active watches whose window has passed expire |
| `ContainerStore.Store.ListActiveRollbackWatches` | internal/store/crashloop.go:66-95 | Every active watch, each once |
| `Operations.OperationGuard.Begin` | internal/updater/operations.go:52-64 | The gate is asked before the name; only a started operation changes the guard |
| `Operations.OperationGuard.End` | internal/updater/operations.go:86-122 | Releases the name, then discharges the gauge |
| `Operations.OperationGuard.BeginMaintenance` | internal/updater/operations.go:66-78 | Closes the gate exactly when it is open and nothing is active, else lists every active operation once |
| `Operations.OperationGuard.EndMaintenance` | internal/updater/operations.go:80-84 | Reopens the gate and nothing else |
| `Operations.EndUndoesBegin` | internal/updater/operations.go:106-122 | A finished operation leaves names, gate and gauges as they were |
| `OperationProtocol.InvariantHolds` | internal/updater/operations.go:52-122 | In every reachable state: names of IDs are fixed, keys are the row's name or the ID, the guard's table is the set of holders, gate discipline, one replacer per removed ID, final commits, exact gauges |
| `OperationProtocol.MutualExclusion` | internal/updater/updater.go:69-82 | Each guard key has at most one operation in flight; a closed gate means none, and is closed exactly while a self-update holds it |
| `OperationProtocol.ExclusionPerContainer` | internal/updater/updater.go:69-76 | Without renames outside: of two operations in flight on one container name at least one had no row, of two on one ID exactly one; two need such an update or a rename |
| `OperationProtocol.BlindUpdateSharesContainer` | internal/updater/updater.go:69-72 | From every start a run in which an update without its row holds a container beside another |
| `OperationProtocol.RenamedContainerIsShared` | internal/updater/updater.go:69-76 | From every start a run in which a rename lets two operations that found their row hold one container |
| `OperationProtocol.OneReplacementPerContainer` | internal/updater/updater.go:261-277 | Of all operations aimed at one container ID, updates without their row included and whatever is renamed, at most one commits a replacement |
| `OperationProtocol.GaugeCountsHeldNames` | internal/updater/operations.go:106-122 | Once each finish has completed, the gauge of a kind is the number of names held for it |
| `SelfUpdating.StartSelfUpdate` | internal/updater/self_update.go:65-143 | Refused exactly when the gate cannot close; accepted only when identified, configured and unblocked; every other way out reopens the gate; no existing container changes; without a fault it is accepted exactly under those conditions with the daemon's container present and the helper's name free, and then the helper runs |
| `SelfUpdating.RunSelfUpdateHelper` | internal/updater/self_update.go:174-236 | At every moment a kill could leave, the parent exists or a replacement under its name does, healthy if the parent ran; with at most one failing call the run ends with that replacement or with the parent exactly as it was; without one, and with a recreatable parent and a free recovery name, the parent is replaced |
| `SelfUpdating.SetAside` | internal/updater/self_update.go:194-206 | The original waits stopped under its recovery name, or one failure left it exactly as it was |
| `SelfUpdating.ReplaceAside` | internal/updater/self_update.go:208-236 | From there the run stays recoverable and settles with at most one failing call, without one on the replacement |
| `SelfUpdating.Launch` | internal/updater/self_update.go:208-214 | A replacement under the old name, healthy if its predecessor ran; everything else untouched at every moment |
| `SelfUpdating.Recover` | internal/updater/self_update.go:223-233 | The original regains its name and run state; without a further fault it always does |
| `CrashWatch.CountOverEveryRun` | internal/store/crashloop.go:126-163 | Per arming, over every run of events, reconciles, expiries and closings: the count is the smaller of the threshold and the number of record-high events, real or read from the counter, handed in while active; triggered is returned exactly once if the threshold is reached; an active watch is below it |
| `CrashWatch.ArmedWatches` | internal/store/crashloop.go:30-56 | A fresh watch counts exactly the crashes of its container inside its window |
| `CrashWatch.ExpiryEndsTheWindow` | internal/store/crashloop.go:175-181 | Expiry ends exactly the active watches whose window has passed, and nothing counts after it |
| `CrashWatch.ReconcileCountsEveryRestart` | internal/crashloop/monitor.go:109-115 | A reconcile counts every restart beyond the observed ones, up to the threshold, and takes the counter over |
| `CrashWatch.CrashCountIsCapped` | internal/store/crashloop.go:139-150 | The same for a plain sequence of events, with the exact status |
| `CrashWatch.EventIsNotRecounted` | internal/store/crashloop.go:139-141 | An event processed at any point of a run is never counted again in it |
| `CrashWatch.ReplayIsIdempotent` | internal/store/crashloop.go:139-141 | Replaying processed events after any run, in any order and number, changes nothing |
| `CrashWatch.ReconcileCoversThePast` | internal/crashloop/monitor.go:33-40 | Once a reconcile has counted restarts, the event stream replayed from before it changes nothing |
| `CrashWatch.AtMostOneTrigger` | internal/store/crashloop.go:119-163 | Over every run of events, reconciles, expiries and closings between two armings at most one call returns triggered |
| `CrashWatch.CountBalance` | internal/crashloop/monitor.go:91-118 | Crashes counted plus restarts missed equal the observed restarts since arming plus the sum of the counter's falls |
| `CrashWatch.CountAtReconcile` | internal/crashloop/monitor.go:105-116 | A reconcile leaves at most Docker's restarts since arming if and only if the readings fell by no more than was missed, so always where none fell |
| `CrashWatch.LowReadingCountsTwice` | internal/crashloop/monitor.go:115-115 | A concrete run in which a low reading counts one restart twice |
| `CrashMonitor.Monitor.SyncState` | internal/crashloop/monitor.go:144-170 | The row's state follows the actions that change it, or a store fault left it alone |
| `CrashMonitor.LifecycleTable` | internal/crashloop/monitor.go:146-154 | Which actions mean running, exited and paused, and that the others mean nothing |
| `CrashMonitor.Monitor.HandleEvent` | internal/crashloop/monitor.go:120-135 | Without a fault the count of a watch grows by one if and only if the event is a die of its container with a name and an exit code other than zero, inside the window and newer than the last; the rollback starts exactly at the threshold; nothing else touches a watch; the row's state follows the event |
| `CrashMonitor.Monitor.RecordDelta` | internal/crashloop/monitor.go:109-114 | Each unreported restart is one event with its own timestamp |
| `CrashMonitor.Monitor.Reconcile` | internal/crashloop/monitor.go:91-118 | Without faults every watch takes exactly the reconcile step of the run-level model, and the rollbacks started are those of the watches that step triggers |
| `CrashMonitor.ReconcileIsAStep` | internal/crashloop/monitor.go:91-118 | The monitor's pass over one watch is that step |
| `CrashMonitor.Monitor.Rollback` | internal/crashloop/monitor.go:202-216 | A maintenance refusal leaves host, rows and the triggered watch unchanged; any other failure closes the watch; without a fault a row with a previous image is rolled back exactly if its container is recreatable and its name admitted, and refused exactly by a closed gate |
| `NotificationQueue.Queue.Enqueue` | internal/store/notification_queue.go:31-56 | A fresh ID and a pending row with defaults filled in |
| `NotificationQueue.Queue.Claim` | internal/store/notification_queue.go:60-82 | Leases the least (next attempt, ID) among all ready jobs, expired leases included; none exactly when none is ready |
| `NotificationQueue.Queue.Complete` | internal/store/notification_queue.go:84-89 | Only a processing job becomes sent |
| `NotificationQueue.Queue.Fail` | internal/store/notification_queue.go:91-101 | Only a processing job goes back to pending or to the dead letters |
| `NotificationQueue.Queue.Retry` | internal/store/notification_queue.go:103-109 | Only a dead letter starts over |
| `NotificationQueue.FreshIsReady` | internal/store/notification_queue.go:31-37 | A new job has all its attempts and is ready from its first time on, or at once |
| `NotificationQueue.LeaseHolds` | internal/store/notification_queue.go:62-73 | A claim uses one attempt, and the job is not ready again before the lease ends |
| `NotificationQueue.DeliveryDecidesReadiness` | internal/notifier/notifier.go:334-350 | After a failed delivery with attempts left the job is ready exactly from its retry time on; after the last one, or a successful one, never |
| `NotificationQueue.RetriedIsReady` | internal/store/notification_queue.go:103-109 | A retried dead letter has all its attempts again and is ready at once |
| `NotificationQueue.Queue.DeliverOne` | internal/notifier/notifier.go:329-363 | The least ready job gets one delivery; a failed last attempt is dead-lettered, an earlier one retried after its backoff |
| `QueueRuns.InvariantHolds` | internal/store/notification_queue.go:31-109 | In every run with crashes: pending has attempts left, a dead letter has none, sent follows a successful send, attempts exceed the limit by at most the lease reclaims |
| `QueueRuns.NothingIsLost` | internal/store/notification_queue.go:58-109 | No job disappears or changes its message, and a sent job never changes again |
| `QueueRuns.DeliveryDecreasesNeed` | internal/notifier/notifier.go:329-363 | A crash-free delivery strictly decreases the deliveries a job still needs |
| `QueueRuns.WorkIsBounded` | internal/notifier/notifier.go:289-307 | In every crash-free run of polls, at whatever times, the need left and the polls that found work never exceed the need at the start |
| `QueueRuns.NoEarlyRetry` | internal/notifier/notifier.go:345-347 | In every run of polls a job is delivered again only after a failure with attempts left, and not before its retry time |
| `QueueRuns.IdleWhenLateMeansDone` | internal/notifier/notifier.go:329-333 | A poll that finds nothing once every retry time and lease has passed means that every job is sent or dead-lettered |
| `QueueRuns.DrainTerminates` | internal/notifier/notifier.go:289-307 | Every such run ends with every job sent or dead-lettered once as many polls came late as deliveries were needed at the start |
| `QueueRuns.UninterruptedWorkIsADelivery` | internal/notifier/notifier.go:329-363 | Claim, send and finish with no crash between them are exactly one delivery |
| `UpdateCandidates.CandidateStore.ReplaceUpdateCandidates` | internal/store/update_candidates.go:20-47 | Upserts every choice and drops the other scopes of that container only |
| `UpdateCandidates.ClearRestartsTheDelay` | internal/store/update_candidates.go:61-64 | A clear forgets every scope of its container and nothing else, so the next check to choose for a scope starts its delay afresh |
| `UpdateCandidates.DetectionStartsStreak` | internal/store/update_candidates.go:20-47 | After any history, an entry's detection time is that of the first check in the unbroken run of checks that chose its image |
| `UpdateCandidates.StreakIsRecorded` | internal/store/update_candidates.go:20-47 | Conversely every unbroken run to the end of the history is recorded with its image and start |
| `UpdateCandidates.AbsentMeansUnchosen` | internal/store/update_candidates.go:39-45 | A scope without an entry was not chosen by the last thing said about the container |
| `UpdateCandidates.DelayedImageWasStable` | internal/scheduler/scheduler.go:329-336 | A candidate old enough for a delay was chosen by every recorded check since at least that long ago |
| `Scheduling.DelayedUpdateWasStable` | internal/scheduler/scheduler.go:309-347 | Every update a delayed policy starts goes to such an image |
| `Scheduling.Scheduler.ResolveTargets` | internal/scheduler/scheduler.go:349-369 | Whichever row of the name the query picks, or all of the stack, without repetition |
| `Scheduling.Scheduler.ApplyToTargets` | internal/scheduler/scheduler.go:309-347 | The calls made are exactly the plan computed from the tables at the start, cut short exactly by a maintenance refusal; no call means no change |
| `Scheduling.Scheduler.ExecuteOnce` | internal/scheduler/scheduler.go:160-181 | A refusal changes nothing; otherwise the row is completed and disabled, with one call to the pinned or current image if the container exists |
| `Scheduling.Scheduler.ExecuteCron` | internal/scheduler/scheduler.go:186-198 | The row is marked with the next run exactly if no target was refused |
| `Scheduling.Scheduler.DueSchedules` | internal/store/schedules.go:101-115 | Exactly the rows that are enabled and whose next run is not later than now, in order |
| `Scheduling.MarkedMeaning` | internal/store/schedules.go:143-154 | A row marked without a next run is over and never due again, one with a next run is due exactly from then on, other rows do not change |
| `Scheduling.Scheduler.RunDueSchedules` | internal/scheduler/scheduler.go:135-155 | Each due schedule is either refused, keeping its row exactly, or executed and marked; other rows never change; the calls made are the plans of the due schedules for the tables they find, cut short only where refused |
| `Scheduling.Scheduler.RunRelativePolicies` | internal/scheduler/scheduler.go:202-236 | Each policy in turn carries out its plan for the tables it finds, and only a refusal at the gate stops the tick; every update started goes to a candidate present at the start and old enough; a tick without calls changes nothing |
| `Scheduling.Scheduler.ExecuteRelative` | internal/scheduler/scheduler.go:213-235 | The calls made are the policy's plan, or a proper prefix of it exactly if the gate paused it; the row is touched exactly if it started something and was not paused |
| `Scheduling.PolicyStartsExactly` | internal/scheduler/scheduler.go:213-347 | A policy's plan holds a call if and only if it is enabled, relative and past its retry interval and the call is for a flagged, not excluded target, to its candidate in the policy's scope, with the delay over |
| `Scheduling.StartIsPlanned` | internal/scheduler/scheduler.go:309-347 | Every target that starts in a tick has its call in the plan |
| `Scheduling.CronStartsExactly` | internal/scheduler/scheduler.go:186-189 | The same for a cron schedule, without any delay |
| `Scheduling.ResolveMeaning` | internal/scheduler/scheduler.go:349-369 | The targets are one row of the container's name, or exactly the stack |
| `Scheduling.OnceCallMeaning` | internal/scheduler/scheduler.go:170-175 | At most one call, none exactly if the container is unknown, to the pinned image or else the recorded one |
| `Scheduling.FiredMeaning` | internal/store/schedules.go:143-154 | A fired one-off is over, a fired cron row has the library's next run or is switched off, other rows are as they were |
| `Scheduling.TouchedMeaning` | internal/store/schedules.go:160-167 | A touched policy may run again exactly after its interval; nothing else changes |
| `Scheduling.SafetyIsExact` | internal/scheduler/scheduler.go:218-304 | After a clean check, no relative policy starts an update up to the horizon if and only if every schedule whose retry interval is over by then would be clear with every candidate lookup working |
| `Scheduling.Scheduler.SelfUpdateBlockers` | internal/scheduler/scheduler.go:245-304 | Empty exactly when no rollback is pending and every schedule is clear of the horizon; every blocker reported belongs to a schedule and, for a relative one, a target |
| `Scheduling.GenuineUnlessFalseAlarm` | internal/scheduler/scheduler.go:266-302 | A reported schedule falls due by the horizon; a reported target is updated by then if and only if it has a candidate and its policy may run again |
| `Scheduling.FalseAlarmWithoutCandidate` | internal/scheduler/scheduler.go:277-302 | An immediate policy's target without a candidate is reported and starts nothing at any time |
| `Scheduling.FalseAlarmBeforeRetry` | internal/scheduler/scheduler.go:218-222 | An immediate policy inside its retry interval is reported and starts nothing up to the horizon |
| `Scheduling.ClearMeansQuiet` | internal/scheduler/scheduler.go:245-304 | After a clean check nothing falls due up to the horizon, and an update that starts is one whose candidate lookup failed |
| `Scheduling.SilentLookupFailure` | internal/scheduler/scheduler.go:292-295 | Every delayed update already due is hidden by its failed lookup, and starts now if and only if its retry interval is over |
| `Scheduling.StaleRowHidesUpdate` | internal/store/store.go:275-282 | With a stale row of the same name the check may clear an update that the executor starts, if and only if its retry interval is over |
| `Scheduling.TextDueAfterCheck` | internal/store/schedules.go:101-109 | A cleared schedule is due by text at a time up to the horizon if and only if both lie in one second and their fractions nest, so never a second before the horizon |
| `Scheduling.Scheduler.Run` | internal/scheduler/scheduler.go:73-98 | After a clean check under that exact condition and with one row per name, no sequence of ticks up to the horizon makes a call or changes a row |
| `OnceRuns.InvariantHolds` | internal/scheduler/scheduler.go:111-198 | What every interleaving of ticks, schedule requests, failed marks and kills keeps |
| `OnceRuns.AtMostOneCall` | internal/scheduler/scheduler.go:157-181 | A one-off schedule makes one update call past the gate for each lost marking of its row after such a call, and at most one more |
| `OnceRuns.LostMarkRepeatsTheCall` | internal/scheduler/scheduler.go:175-180 | For every due one-off schedule a run with one kill, and one with one failed write, and two calls |
| `OnceRuns.CompletedIsNeverDue` | internal/api/schedules.go:326-331 | A completed one-off schedule is never due again, even if an enable request checked before it fired is written after |
| `JsonSubset.SubsetIffKeptEverywhere` | internal/updater/recreate.go:284-311 | Acceptance means exactly that every path to a scalar or array has the same value and every expected object is an object |
| `JsonSubset.SubsetReflexive` | internal/updater/recreate.go:284-311 | Partial order: reflexive |
| `JsonSubset.SubsetTransitive` | internal/updater/recreate.go:284-311 | Partial order: transitive |
| `JsonSubset.SubsetAntisymmetric` | internal/updater/recreate.go:284-311 | Partial order: antisymmetric |
| `JsonSubset.ChainKeepsEverySetting` | internal/updater/recreate.go:213-254 | Over any chain of accepted recreations no setting but Image is lost, at any depth |
| `JsonSubset.AcceptedRunsTheTarget` | internal/updater/recreate.go:39-57 | An accepted recreation runs on the image that was asked for |
| `Volumes.HostConfig.PreserveAnonymousVolumes` | internal/updater/recreate.go:120-146 | Appends exactly the pins of uncovered named volumes |
| `Volumes.PinnedExactly` | internal/updater/recreate.go:134-145 | A mount is pinned if and only if it comes from a named volume with an uncovered destination |
| `Volumes.PreservedCoversEveryNamedVolume` | internal/updater/recreate.go:116-146 | Existing mounts stay a prefix and every named volume is covered |
| `Volumes.PinsOnlyUncovered` | internal/updater/recreate.go:120-146 | What is added keeps the volume's name, place and access mode and never covers a target a mount, a bind or a tmpfs takes |
| `Volumes.SplitInTwo` | internal/updater/recreate.go:126-130 | The target of a bind is its second part |
| `Volumes.PreservedIdempotent` | internal/updater/recreate.go:116-146 | A second pass adds nothing |
| `Volumes.PreservedTargetsDistinct` | internal/updater/recreate.go:116-146 | Distinct destinations give distinct targets |
| `SqlLike.EscapedFilterMeansContains` | internal/store/events.go:69-98 | For every filter and text, the escaped LIKE holds exactly when the text contains the filter up to ASCII case |
| `SqlLike.SqlDigestMeaning` | internal/store/store.go:177-181 | The SQL digest test: a sha256 prefix up to case, or a colon after an at sign |
| `ImageReferences.GoDigestSeenBySql` | internal/registry/registry.go:63-75 | Which digests of the Go test the SQL test sees |
| `ImageReferences.DigestTestsAgree` | internal/store/store.go:177-181 | On every reference Docker produces the two digest tests agree |
| `ImageReferences.ReplaceTagRoundTrip` | internal/registry/semver.go:69-77 | Parsing a printed reference gives back the parsed one with the new tag, if and only if it is not one of the two unprintable families |
| `ImageReferences.StripImageTagKeepsRepository` | internal/api/schedules.go:53-60 | Stripping the tag keeps registry and repository, if and only if no colon follows the last slash or the repository holds no colon |
| `ImageReferences.ParsedRegistry` | internal/registry/registry.go:101-130 | A parsed registry holds no slash, and a Docker Hub repository always has one |
| `ImageReferences.BareNameIsOfficial` | internal/registry/registry.go:101-130 | A bare name is the latest official image on Docker Hub |
| `ImageReferences.FirstSegmentIsRegistry` | internal/registry/registry.go:101-130 | The first segment is the registry if and only if it has a dot or a colon or is localhost |
| `ImageReferences.HubHasAliases` | internal/registry/registry.go:101-130 | docker.io and index.docker.io stand for Docker Hub |
| `Semver.StrictParses` | internal/registry/semver.go:9-22 | Every optional v and three dotted numbers parse, saturating |
| `Semver.ParsedIsStrict` | internal/registry/semver.go:9-22 | Nothing else parses |
| `Semver.AtoiReadsDecimals` | internal/registry/semver.go:18-20 | A number in decimal is read back, up to the largest 64-bit integer |
| `Semver.PrecedenceByField` | internal/registry/semver.go:26-34 | The first field that differs, from major to patch, decides, as in item 11 of Semantic Versioning 2.0.0 |
| `Semver.LevelsAllow` | internal/registry/semver.go:54-57 | What each scope may change of a version |
| `Semver.SelectSemverCandidates` | internal/registry/semver.go:36-67 | Whatever the map order, each scope gets a tag of maximal version among the newer compatible ones, none exactly when there is none |
| `Semver.SelectionIsUnique` | internal/registry/semver.go:36-67 | Any two selections choose the same versions |
| `Semver.ScopesAreNested` | internal/registry/semver.go:53-60 | patch <= minor <= major, and presence is inherited upwards |
| `Semver.BuildCandidates` | internal/scheduler/check.go:238-274 | Every stored candidate is the moved reference or the best newer tag not already running; a scope without one has neither |
| `Semver.CandidateRespectsLevel` | internal/scheduler/check.go:245-274 | For a strict tag the candidate never goes back, a patch candidate keeps major and minor, and its image names that version of the same repository if and only if the tag is unchanged or the reference is printable |
| `Timestamps.FormatLooksLike` | internal/store/notification_queue.go:166-166 | The texts have the form of section 5.6 of RFC 3339 |
| `Timestamps.TextOrderAcrossSeconds` | internal/store/notification_queue.go:166-166 | Instants in different seconds compare as their texts do |
| `Timestamps.TextOrderWithinASecond` | internal/store/notification_queue.go:166-166 | Within one second the texts compare wrongly exactly when one trimmed fraction is a proper prefix of the other |
| `Timestamps.FormatInjective` | internal/store/schedules.go:198-203 | No two instants share a text |
| `Timestamps.SqlTestIsOffByLessThanASecond` | internal/store/schedules.go:101-109 | Every due, lease or expiry test is exact outside that case and off by less than a second in it |
| `Timestamps.WholeSecondSortsLate` | internal/store/crashloop.go:175-176 | A time on the whole second is never at most one a tenth of a second later |
| `RateLimiting.RateLimiter.Allow` | internal/api/ratelimit.go:36-48 | Counts into the open window or a fresh one and admits up to the limit |
| `RateLimiting.OpenWindowAdmitsUpToLimit` | internal/api/ratelimit.go:36-48 | The open window has admitted exactly its first calls, up to the limit |
| `RateLimiting.EveryWindowIsCapped` | internal/api/ratelimit.go:36-48 | No window a key ever opened admits more than the limit |
| `RateLimiting.TwiceTheLimit` | internal/api/ratelimit.go:36-48 | No closed interval as long as a window holds more than twice the limit |
| `RateLimiting.KeysAreIndependent` | internal/api/ratelimit.go:36-48 | A key fares as if no other had called |

## Left out

- Docker Engine client, registry HTTP calls, tokens and tag paging: each is a call that may fail, with the stated effect.
- Health waiting, tick timeouts and send timeouts: the outcome is arbitrary; a send that timed out counts as failed even if it arrived.
- SQL engine, migrations and connection pooling: tables are maps or sequences, transactions atomic steps; integer time in the state machines, text time only in `Timestamps`.
- Calendar years outside 0 to 9999: Go does not write them with four digits.
- Networks, aliases and HostConfig normalisation of a recreation plan: folded into one settings tree that the fidelity check compares; a nil inspect field or a failing JSON clone is not modelled.
- The settling loop in front of an automatic rollback: waiting only.
- Resuming triggered watches when the monitor starts: it calls `CrashMonitor.Monitor.Rollback` for each.
- The identity check of a self-update request and the helper's generated-hostname adjustment: parameters or unchanged settings.
- Recovering a tag from the event log: its result is the argument of the repair.
- Discovery interleaved with an update commit: a pass is one atomic step, as in `Discovery.Discover`. An event without a container ID is not modelled.
- Scheduling.Scheduler.Update: any effect on container rows; what the updater really does to them is `Updating`.
- API requests between the steps of one tick: covered for one-off schedules in `OnceRuns`, not in `Scheduling`, where a tick runs alone; candidate lookups of the executors succeed there.
- Check ticks in `Scheduling.Scheduler.Run`: they refresh the candidates, which ends the premise of an unchanged store.
- Cron expressions and their next run: an arbitrary value.
- The backoff formula: an arbitrary function of the attempt.
- Containers with AutoRemove.
- Web UI, CLI, REST client, authentication, sessions, secrets, metrics, logging, notification texts and display versions: they would only add easy members.
