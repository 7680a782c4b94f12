# A verified model of kube-insight

This project models the parts of kube-insight where most can go wrong, and proves what they are for. It is written in
Dafny 4.11; `dafny verify dfyconfig.toml` checks all of it. There are five parts.

**Collecting** (`Ingest`, `Cluster`, `Collector`, `CollectorRuns`, `CollectorCalls`, `Aggregate`). One worker per
resource lists the resource, observes as deleted what the store knew and the list no longer has, and then follows a
watch stream. The cluster is a log of changes indexed by resource version; the store is the sequence of observations,
with the last one of each object deciding whether it is live. `Collector` holds the steps, as methods over the store
and the running summary, and as functions. `CollectorRuns` puts the steps together with the two retry machines,
expiry, queued relists, rotation, stop and cancellation into a transition system, in which the cluster changes at any
moment. The main theorem is about every point of every run in which nothing has been lost since a complete list. Lost
is an addition or a deletion that is not stored, and what a list would have brought that fails halfway in the initial
phase or inside a stream call; a queued relist may fail if what it stores it stores as it is. About each key the store
then holds what was so in the cluster at some version from the recorded one up to the latest that the store has seen;
so whenever the recorded version is the latest, the store and the cluster agree on what is live. The two differ only
after a relist that failed halfway, until the stream has caught up. It is also proved for exactly which configurations
this holds. `CollectorCalls` says how single calls answer errors and what they count. `Ingest` is the pipeline below
it.

**Scheduling** (`Scheduler`, `SchedulerRuns`). The watch stream scheduler as a class, and workers that share it,
interleaved at its critical sections. Slots are never exceeded, a free slot is never refused to everybody, the grant
does not depend on the order of the map, and nobody is passed except by a better base score.

**Agent runs** (`RunStore`, `Finishers`, `FinisherRaces`, `Follower`, `RetryRoots`, `Supersede`, `Closure`,
`Retention`, `Passes`, `Histories`). The in-memory run store; completion, failure, server failure and cancellation
racing on one run, one store call at a time, and for every list of finishers exactly what holds however they race;
followers that poll a log with a cursor; retry roots; and the garbage collector, from the branch it hides to the logs
it compacts in place, as a pass among the other steps of the system. `Histories` traces whatever the store holds back
to the step it comes from.

**Normalising** (`Json`, `Text`, `JsonPointer`, `PathRemove`, `PathRemoveHeap`, `Strings`, `StableSort`, `Conditions`,
`Yaml`, `Autoscaler`, `AutoscalerHeap`, `AutoscalerFilter`). Pruning by JSON Pointers (RFC 6901), canonical status
conditions and the canonical autoscaler status. The functions on values say what a filter computes; the `Heap` modules
do it on mutable nodes, as the source does, and are proved equal to the functions.

**Configuration and aliases** (`YamlHeap`, `Overlay`, `OverlayHeap`, `AliasTokens`, `ClusterResolver`,
`ClusterAnswers`). Laying a user's configuration over the default one, and finding the cluster a user means.

Clocks, jitter, random identifiers, the score callback, the errors of stores and extractors, and the Unicode tables of
letters, digits and lower case are parameters: what is proved holds for all of them.

## What the proofs found

- A namespace option on a resource without namespaces defeats the reconciliation: the API client ignores the option, the
  store does not, and deletions between two lists are never noticed. `CollectorRuns.SafeConfigurations` says that this
  is the only such configuration, `CollectorRuns.NamespacedNodeIsNeverDeleted` gives the run.
- The resource version moves before an event is ingested, so an event whose ingest fails, or which a filter drops, is
  never delivered again. `Collector.LostEventExactly` says when this harms: for additions and deletions, not for
  modifications, and `CollectorRuns.WholeRunSafety` tolerates the latter.
- A relist that fails after it has stored something leaves the recorded version behind the store. The stream then
  replays what the store has seen, and the two are in step again when it has caught up (`CollectorRuns.WholeRunSafety`,
  `CollectorRuns.InStepUnlessRelistsFail`).
- Of two failures that race on one run, both report, and the second message need not be the stored error
  (`FinisherRaces.SecondFailureReportsItsOwnMessage`). Messages and errors always agree if and only if all failures that
  may race carry one message (`FinisherRaces.MessagesExactly`). A log is sure to hold at most one closing event if and
  only if no two finishers share a target and all look before they report (`FinisherRaces.OnceExactly`).
- Two callers outside the guarded finishers can log an ending that contradicts the record
  (`FinisherRaces.UnguardedDisagrees`). `FinisherRaces.AgreementExactly` says which finishers may race: each that does
  not look must share its target with all the others.
- Event sequence numbers are the log's length plus one. After retention has pruned events of a run, numbers are dealt out
  again and a follower can miss events. `Passes.PrunedThenAppended` says exactly which: none, if the pass left as many
  events as the follower had received. `Passes.EventMissed` gives a run with the default options in which the closing
  event of a completed run is never sent. Until a run is settled, and so while it is at work, no pass touches its log and
  following it is exact (`Passes.UnsettledIsFollowable`).
- A retry whose parent is the run it replaces is taken away with it, and the session keeps nothing
  (`Retention.ChildRetryIsLost`). `Retention.SessionKeepsExactly` says which sessions keep a completed run.
- The documentation says that an artifact event is kept while an event "in the same retained run" cites it
  (`docs/dev/agent-first-web-ui-checklist.md:454`). The code keeps it while any retained run does
  (`internal/agent/retention.go:205-219`); the model follows the code.
- The walk in `retryRootRunIDForContextReplay` (`internal/api/agent_context.go:125-141`) is never reached
  (`RetryRoots.ReplayRootNeedsNoWalk`).
- The autoscaler rewrite drops a last key without a value and does not report that as a change; `Autoscaler.FlagIsExact`
  has the exact condition. Parsed mappings never have such a key.

## Model

| member | source | states |
|---|---|---|
| Ingest.ApplyChain | internal/filter/filter.go:106-127 | the loop gives what the filters give one after the other up to the first discard or error, nothing after it |
| Ingest.DiscardEndsTheChain | internal/filter/filter.go:106-127 | no decision but the last is a discard, no observation is discarded twice, and a chain that ends clean has asked every filter |
| Ingest.ChainStays | internal/filter/filter.go:106-127 | after a discard or an error later filters have no effect |
| Ingest.ChainExactly | internal/filter/filter.go:106-127 | what a chain gives, exactly: the first filter is given the observation and each later one what the one before it returned; it ends at the first discard, at a failure, or when every filter has been asked |
| Ingest.FatesExactly | internal/ingest/json.go:97-151 | which observations are stored, dropped as a change or dropped with their resource, by how their way through the chain ends and what fails after it |
| Ingest.StoredInOrder | internal/ingest/json.go:97-151 | the store grows by what the chains made of the observations to be stored, in their order and nothing else |
| Ingest.BatchAccounting | internal/ingest/json.go:97-151 | a batch succeeds exactly if no observation errs; observations = stored + discarded changes + discarded resources, each counted under its own fate; modified is at most stored; the store grew by exactly the stored ones |
| Ingest.DeletionsAreNotChanges | internal/ingest/json.go:97-151 | in any batch no deletion is dropped as a mere change, and the discarded changes number at most the observations that are no deletions |
| Ingest.IngestObservation | internal/ingest/json.go:97-151 | one observation through chain, discards, extraction and store, with the counters and the store it leaves |
| Ingest.IngestJSON | internal/ingest/json.go:62-151 | a batch counts and stores what its observations do one after the other, and stops at the first error |
| Ingest.MemoryStore.PutObservation | internal/storage/memory.go:43-52 | the observation is appended, nothing else changes |
| Cluster.RefsHaveTheLiveKeys | internal/storage/memory.go:138-160 | the references the store reports are those of the objects whose last observation is not a deletion, within the namespace |
| Cluster.SameKeyExactly | internal/storage/memory.go:138-160 | two references are joined exactly if they share an identifier, or neither has one and they agree in namespace and name |
| Collector.ResourceWatcher.ReconcileDeletedFromList | internal/collector/watch.go:507-538 | what was known and is not listed is observed as deleted, in order, up to the first error |
| Collector.ReconciliationAccounting | internal/collector/watch.go:507-538 | previous = deleted + unknown visibility + still present, and exactly the deletions were ingested |
| Collector.ResourceWatcher.ListResourceOnce | internal/collector/watch.go:345-381 | the summary and the store after a list, on every error path too; the version is recorded before anything is ingested |
| Collector.ResourceWatcher.HandleWatchEvent | internal/collector/watch.go:422-464 | the summary and the store after a watch event, on the error path too |
| Collector.ListBringsInStep | internal/collector/watch.go:345-381 | a list makes the live keys of the store those of the cluster at the listed version, whatever the store held before |
| Collector.EventKeepsInStep | internal/collector/watch.go:422-464 | delivering the next visible event moves store and cluster together |
| Collector.LostEventExactly | internal/collector/watch.go:422-464 | an event that is not stored leaves the store in step exactly if it was a modification, while the version moves on |
| Collector.MergeLaws | internal/collector/watch_resources.go:444-462 | folding summaries has a unit and does not depend on grouping |
| Collector.MergeAddsUp | internal/collector/watch_resources.go:444-462 | every counter of a folded summary is the sum of the two |
| Collector.ListCounts | internal/collector/watch.go:345-381 | what a list that succeeds counts: its objects, the known ones outside the namespace, and the known ones that are gone |
| CollectorRuns.StepKeeps | internal/collector/watch_resources.go:119-199 | every step of list, event, bookmark, error, expiry, relist, grant, rotation, stop and cancellation keeps the invariant |
| CollectorRuns.ListErrorKeeps | internal/collector/watch_resources.go:205-249 | the list's retry machine keeps the invariant: give up, ask again from the old version, or without one after expiry |
| CollectorRuns.StreamErrorKeeps | internal/collector/watch_resources.go:251-315 | the stream's retry machine keeps the invariant: give up, reconnect at the last version, or relist after expiry |
| CollectorRuns.WholeRunSafety | internal/collector/watch_resources.go:119-199 | in every run, at every point, if nothing was lost since a complete list, the store holds about each key what was so at some version from the recorded one to the latest it has seen; when these are equal, the live keys are exactly the cluster's at that version |
| CollectorRuns.InStepUnlessRelistsFail | internal/collector/watch_resources.go:119-199 | the recorded version is the latest, and store and cluster are in step, at all times while no relist fails |
| CollectorRuns.NamespacedNodeIsNeverDeleted | internal/collector/watch.go:507-538 | with a namespace set on a resource without namespaces a run ends with a deleted object live in the store |
| CollectorRuns.SafeConfigurations | internal/collector/watch_resources.go:119-199 | every run is safe if and only if the resource is namespaced or no namespace is set |
| CollectorRuns.MergeBalances | internal/collector/watch_resources.go:444-462 | merging two balanced summaries gives a balanced one |
| CollectorRuns.RunBalances | internal/collector/watch_resources.go:78-203 | in every reachable state, after any failures, stored = what the ingests stored, every observation is accounted for, and deletions are reconciled ones plus at most the events |
| CollectorRuns.StoredIsBacked | internal/collector/watch_resources.go:78-203 | in every reachable state the store has grown by no less than what the summaries count as stored, and by exactly that as long as no list has failed |
| CollectorCalls.ErrorsEndCalls | internal/collector/watch_resources.go:205-315 | in every run an error ends a list or stream call exactly if the errors of this call are more than the configuration allows, and a failed relist goes back to the queue |
| CollectorCalls.CallsEndOtherwise | internal/collector/watch_resources.go:205-315 | without such an error a call ends only by success of its list, failure of the list that a stream makes itself, end of the stream, or cancellation; after its list or a failed relist the worker queues, after the end of its stream it queues exactly if streams rotate, and otherwise it is done |
| CollectorCalls.QueueAndDone | internal/collector/watch_resources.go:119-199 | a queued worker stays queued until it relists, gets a slot or is cancelled, and one that is done stays done |
| CollectorCalls.NeverStuck | internal/collector/watch_resources.go:119-315 | in every reachable state a listing call can be given the latest list, a followed stream the next event or a bookmark at the latest version, either any error, and a queued worker a relist, its slot or a cancellation |
| CollectorCalls.OwnListServes | internal/collector/watch_resources.go:279-283 | a stream goes on from the version of the list it made, and needs no other |
| CollectorCalls.ExpiryRelists | internal/collector/watch_resources.go:279-300 | in every run, between an expiry that does not end a stream call and the next event or bookmark of that call there is a list |
| CollectorCalls.OthersReconnect | internal/collector/watch_resources.go:284-315 | after any other error the stream goes on at the version it had, or at that of the event whose ingest failed |
| CollectorCalls.ListsAskAgain | internal/collector/watch_resources.go:224-249 | a list is asked for again without a version if the version had expired, and else at the version recorded |
| CollectorCalls.CallsStart | internal/collector/watch_resources.go:119-199 | a relist starts without a version, a stream at the version of its worker, with a list only if there is none |
| CollectorCalls.CallsTell | internal/collector/watch_resources.go:205-315 | in every reachable state the summary of the call under way counts the errors, expiries, events, deletions, bookmarks and listed objects of this call |
| CollectorCalls.EndedCallsCount | internal/collector/watch_resources.go:119-199 | what a call has counted is added to the summary of its worker as it ends, except for a relist that did not succeed |
| Aggregate.WatchResourcesSummary.Aggregate | internal/collector/watch_resources.go:396-442 | the totals are recomputed from the workers, whatever they were |
| Aggregate.TotalsBalance | internal/collector/watch_resources.go:396-442 | totals of balanced workers balance; failed workers and workers without a summary contribute nothing |
| Aggregate.TotalsAreSums | internal/collector/watch_resources.go:396-442 | each total is the sum of what the completed workers counted |
| Scheduler.WatchStreamScheduler.constructor | internal/collector/watch_tuning.go:69-75 | no slot in use, nobody queued |
| Scheduler.WatchStreamScheduler.Register | internal/collector/watch_tuning.go:112-122 | a key already queued keeps its request; a new one gets the next number and the current time |
| Scheduler.WatchStreamScheduler.Unregister | internal/collector/watch_tuning.go:124-133 | only the very request is withdrawn, not a later one of the same key |
| Scheduler.WatchStreamScheduler.BestLocked | internal/collector/watch_tuning.go:150-164 | whatever order the map is walked in, the one request that beats all others comes out |
| Scheduler.WatchStreamScheduler.TryAcquire | internal/collector/watch_tuning.go:135-148 | a slot is granted exactly if one is free and the key holds the best request |
| Scheduler.WatchStreamScheduler.Release | internal/collector/watch_tuning.go:166-174 | a slot is given back, never below zero |
| Scheduler.BestExists | internal/collector/watch_tuning.go:150-164 | a queue that is not empty has a best request |
| Scheduler.ScoreIsBasePlusAging | internal/collector/watch_tuning.go:278-306 | an enabled stream scores its base, between -120 and 150, plus the aging credit; a disabled one always comes last |
| Scheduler.AgingGrows | internal/collector/watch_tuning.go:278-306 | the credit never shrinks, is never above 80, and is 80 from four minutes on |
| Scheduler.MinutesOfWaiting | internal/collector/watch_tuning.go:294-296 | the score is constant in the first minute, grows by 20 with each full minute up to the fourth, and is constant from then on |
| Scheduler.RankScores | internal/collector/watch_tuning.go:283-293 | a new stream without load scores 100, 50, 10 or 0 by its priority |
| Scheduler.LoadIsThreeParts | internal/collector/watch_tuning.go:298-305 | what the load adds: 5 an event and 2 a bookmark up to 50, less one for every 250 objects up to 40, less 20 an error and 5 a retry up to 80 |
| Scheduler.HealthierScoresNoLower | internal/collector/watch_tuning.go:298-305 | more events or bookmarks, fewer objects, errors or retries never lower the score |
| Scheduler.PriorityDecides | internal/collector/watch_tuning.go:283-293 | between streams alike otherwise the score orders exactly by priority |
| Scheduler.RetryDelay | internal/collector/watch_tuning.go:210-237 | the doubling loop is the closed form min * 2^(attempt-1), capped, plus jitter, capped again, and lies between the two bounds |
| SchedulerRuns.StepKeeps | internal/collector/watch_tuning.go:77-174 | every step of the workers keeps slot safety and the numbering |
| SchedulerRuns.RunIsSlotSafe | internal/collector/watch_tuning.go:54-174 | in every reachable state the slots in use are the holders, at most the limit, the queue is exactly the waiting workers, and nobody both waits and holds |
| SchedulerRuns.WaitsSinceArrival | internal/collector/watch_tuning.go:77-133 | a waiting worker holds the request of its arrival: its time is that of the arrival, and its number says how many had arrived by then |
| SchedulerRuns.WorkConserving | internal/collector/watch_tuning.go:135-164 | with a free slot and somebody waiting exactly one worker's attempt succeeds; with no free slot none does |
| SchedulerRuns.NoOvertaking | internal/collector/watch_tuning.go:150-164 | an earlier request is passed only on a strictly higher base score, and after four minutes only by base plus credit above its base plus 80 |
| SchedulerRuns.BoundedOvertaking | internal/collector/watch_tuning.go:112-174 | round robin: while no better base is served, slots are granted only to workers that were queued before, each at most once, and those still before it are as many fewer |
| RunStore.MemoryStore.CreateRun | internal/agent/store.go:156-181 | the run is created in a known session and not otherwise |
| RunStore.MemoryStore.UpdateRunStatus | internal/agent/store.go:218-246 | a terminal run is never written again; otherwise status and error are replaced and each of the two times is set once |
| RunStore.MemoryStore.AppendRunEvent | internal/agent/store.go:248-268 | the event is appended with the log's length plus one as its number |
| RunStore.MemoryStore.DeleteSession | internal/agent/store.go:114-132 | the session, its runs and their logs go, and nothing else |
| Histories.SessionsGo | internal/agent/store.go:114-132 | with a session go exactly the runs of that session, with their logs |
| Histories.RecordOrigin | internal/agent/store.go:156-181 | every record of a reachable state was created by one step, in a session that existed, with the identifier, metadata and time of that step |
| Histories.RecordsChange | internal/agent/store.go:218-246 | a record changes only by the decision of a finisher on a run that has not ended, and then to the status, error and times that go with the kind of the finisher |
| Histories.StatusOrigin | internal/agent/store.go:218-246 | the status, error and end of a run are those that one decision on it has set |
| Histories.LogsChange | internal/agent/store.go:248-268 | retention aside, a log grows by the event that the step writes, if it writes one, and else stays |
| Histories.EventOrigin | internal/agent/store.go:248-268 | every event of a log was written there by one step, with its type, reference and text, and the place it had |
| Histories.LateFinishersAreSilent | internal/agent/eino_runner.go:326-370 | a finisher that looks at a run which has ended or is gone never touches the store |
| Histories.TimelyFinishersDecide | internal/agent/eino_runner.go:326-390 | one that looks at a run which has not ended goes on to decide |
| Finishers.AdvanceAgrees | internal/agent/eino_runner.go:326-390 | each store call of a finisher keeps log and record in agreement, if each finisher that does not look shares its target with the others |
| Finishers.RunAgrees | internal/api/agent.go:559-632 | agreement holds in every state of every interleaving of such finishers |
| Finishers.FinishersAgree | internal/agent/eino_runner.go:326-390 | every closing event in a log names the status that is stored, in every interleaving of complete, fail, server failure and cancel |
| Finishers.TerminalIsFinal | internal/agent/store.go:218-246 | from the moment a run is terminal its record never changes again; it can only be removed as a whole, for good |
| Finishers.RecordIsStable | internal/agent/store.go:218-246 | a run stays the same run, with the same metadata, and neither its start nor its end, once set, is ever moved |
| Finishers.RunIsStamped | internal/agent/store.go:218-246 | a run has a completion time exactly if it is terminal |
| FinisherRaces.AgreementExactly | internal/api/a2a.go:402-435 | for every list of finishers on a run: the closing events always name the stored status if and only if each finisher that does not look shares its target with all others that end the run |
| Histories.AgreementByKinds | internal/api/a2a.go:402-435 | the same by name: a cancelled task may race with cancellations only, a failed child with failures only |
| Histories.NamedFinishersAgree | internal/agent/eino_runner.go:326-390 | with completions, failures and cancellations only, each closing event names the stored status |
| FinisherRaces.UnguardedDisagrees | internal/api/a2a.go:402-435 | each kind that does not look can contradict the record |
| FinisherRaces.MessagesExactly | internal/agent/eino_runner.go:366-390 | for every list of guarded finishers: every reported failure always carries the stored error if and only if all failures among them carry one message |
| FinisherRaces.SecondFailureReportsItsOwnMessage | internal/agent/eino_runner.go:366-390 | two racing failures leave two run.failed events, the later with a message that is not the stored error |
| FinisherRaces.OnceExactly | internal/agent/eino_runner.go:326-390 | for every list of finishers: the log always holds at most one closing event if and only if any two that end the run have different targets and both look |
| FinisherRaces.RunReportsOnce | internal/agent/eino_runner.go:326-390 | in every interleaving each closing event was reported by a finisher of its own |
| Follower.WriteServerSentEvents | internal/api/agent.go:659-673 | what is written is what was pending of the events read; the cursor ends at one of these, or stays, and is past all of them; on a numbered log it ends at the last event |
| Follower.Poll | internal/api/agent.go:654-683 | one poll extends what was received to the whole log, or to a prefix if the connection breaks |
| Follower.Follow | internal/api/agent.go:654-683 | over any number of polls of a growing log each event is delivered exactly once, in order |
| Follower.LogsStayNumbered | internal/agent/store.go:248-268 | in every reachable state the events of a log that retention has left alone are numbered 1, 2, 3 and so on |
| Follower.LogsGrow | internal/agent/store.go:248-268 | whatever a log was, between two passes over it it only grows at its end, and what is new is numbered by its place |
| Follower.PollsAreFollowable | internal/agent/store.go:248-280 | the logs that a follower reads in any run of the system are such as Follow needs, while retention leaves that log alone |
| Passes.PassIsRetain | internal/agent/retention.go:246-290 | compacting the store by any plan is one of the steps that the theorems about finishers and logs quantify over |
| Passes.RunHasUniqueIds | internal/agent/store.go:248-268 | in every reachable state no two events have the same identifier, if none is drawn twice: what the retention theorems assume of the store |
| Passes.PassesSpareUnsettled | internal/agent/retention.go:165-181 | in every run of the system passes leave the log of a run alone until the run is settled |
| Passes.UnsettledIsFollowable | internal/api/agent.go:654-683 | a follower of a run at work, or not settled at any pass so far, has been sent the log exactly once, in order, with passes going on |
| Passes.PrunedThenAppended | internal/agent/retention.go:272-284 | what a follower gets at its next poll after a pass, in any run of the system: the survivors it had not received, none twice, and of the events appended since all but the skipped ones; none is skipped if and only if the pass left at least as many events as it had received, or nothing was appended, or one less was left and the first new identifier sorts last |
| Passes.EventMissed | internal/agent/retention.go:165-290 | a run of the system with a real plan in which the closing event of a completed run never reaches a follower |
| RetryRoots.RetryRootRunID | internal/agent/retention.go:318-339 | the walk ends on any metadata, cyclic and dangling chains included, with the root the specification names |
| RetryRoots.WalkExactly | internal/agent/retention.go:318-339 | the walk ends at the first run along the links that is no retry, was met before or retries a run that is not there, with the identifier of that run or of the missing one |
| RetryRoots.StoredRootIsOrigin | internal/api/agent.go:224-256 | the root a retry stores is the first ancestor that is not a retry |
| RetryRoots.StoredRootRefinesWalk | internal/agent/retention.go:318-343 | stored root and walked root agree on a complete history, and the stored one stays right when ancestors are gone |
| RetryRoots.ParentIsInherited | internal/api/agent.go:224-256 | a retry that asks for no parent of its own has that of the first run of its chain |
| RetryRoots.ActiveRetryBranchRuns | internal/api/agent_context.go:86-119 | the loop that truncates and extends the visible slice shows what the specification shows |
| RetryRoots.ReplayStep | internal/api/agent_context.go:86-119 | what one run does to what is shown: nothing if it is a subagent run, and a retry hides the first shown of its root and all behind it, or everything if the run it retries is not listed at all |
| RetryRoots.OneRunPerRoot | internal/api/agent_context.go:86-119 | with originals first, replay shows no subagent run and at most one run per root, the last one listed |
| RetryRoots.ApiHistoryIsReplayable | internal/api/agent.go:178-231 | a session built through the API lists originals first |
| Supersede.SupersedeSession | internal/agent/retention.go:81-120 | one session's loop marks and shows what the specification does |
| Supersede.SupersededRetryRunIDs | internal/agent/retention.go:81-120 | the sorted list of what all sessions mark |
| Supersede.SupersedingIsJustified | internal/agent/retention.go:81-120 | only terminal runs are marked, each hidden by a completed retry of its session; nothing marked is still shown; a session that loses a run keeps a completed one |
| Supersede.BranchStep | internal/agent/retention.go:81-120 | what one run does to what is shown and marked, by the places of the runs |
| Supersede.MarkedExactly | internal/agent/retention.go:81-120 | a run is marked exactly if it was completed, failed or cancelled and a completed run of its session took it out of sight |
| Closure.SupersededRunIDsWithChildren | internal/agent/retention.go:137-163 | ends on any parent graph, cycles included, with exactly the least set that holds the roots and is closed under children, sorted |
| Closure.HasNonTerminalParent | internal/agent/retention.go:183-201 | ends on any parent chain and is true exactly if some ancestor, however far up, is not terminal |
| Retention.UnreferencedArtifactEventIDs | internal/agent/retention.go:203-244 | exactly the last events of artifacts that no retained run cites, of the runs that may be pruned, sorted |
| Retention.SettledRunIDs | internal/agent/retention.go:165-181 | the terminal runs without a live ancestor |
| Retention.PlanRetention | internal/agent/retention.go:49-66 | the plan consists of the closure of the superseded runs, the uncited artifact events and the counts |
| Retention.PlanIsDetermined | internal/agent/retention.go:49-79 | the plan does not depend on the order in which maps are walked |
| Retention.CompactInPlace | internal/agent/retention.go:272-284 | filtering a log over itself keeps the other events in order |
| Retention.ApplyAgentRetention | internal/agent/retention.go:246-290 | a dry run changes nothing; a real run leaves what the plan leaves; the report is the plan's |
| Retention.DroppedEventsAreUncited | internal/agent/retention.go:203-244 | a dropped event is an artifact event of a settled surviving run, and no surviving run cites its artifact |
| Retention.DroppedExactly | internal/agent/retention.go:203-244 | an event is dropped exactly if that is asked for, it is the last of its artifact in a log that stays, of a run that is finished with all its ancestors, and no log that stays cites the artifact |
| Retention.CitationsSurvive | internal/agent/retention.go:246-290 | each surviving log is a subsequence of the old one, keeps every citation and every artifact event whose artifact is cited, and is unchanged if the run or an ancestor is not terminal |
| Retention.RetentionConserves | internal/agent/retention.go:246-290 | runs before = runs after + superseded runs; events before = events after + superseded runs' events + artifact events |
| Retention.DryRunIsTruthful | internal/agent/retention.go:68-79 | a dry run reports the same runs, events and counts as a real one |
| Closure.ClosureIsDescent | internal/agent/retention.go:137-163 | a run is in the closure exactly if the run or some ancestor of it, however far up, is a root |
| Retention.SupersededExactly | internal/agent/retention.go:81-163 | a run is superseded exactly if it or an ancestor of it is marked by the retry phase |
| Retention.DeletedExactly | internal/agent/retention.go:81-163 | a run is deleted exactly if that is asked for and the run or an ancestor was taken out of sight so |
| Retention.SessionKeepsExactly | internal/agent/retention.go:81-163 | a session keeps a completed run if and only if it has one that neither is marked nor has a marked ancestor |
| Retention.RetriesOutsideAreSafe | internal/agent/retention.go:81-163 | a session that loses a run keeps a completed one if no completed retry of that session has a marked ancestor |
| Retention.ChildRetryIsLost | internal/agent/retention.go:137-163 | a retry that is a child of the run it replaces is lost with it |
| JsonPointer.ParsePointer | internal/filter/path_remove.go:53-66 | trimming, splitting and the two replacements, rewritten in place |
| JsonPointer.UnescapeInverts | internal/filter/path_remove.go:60-64 | replacing ~1 before ~0 inverts the escaping of section 3 of RFC 6901 |
| JsonPointer.OtherOrderExactly | internal/filter/path_remove.go:60-64 | with the replacements exchanged every ~1 of the token itself becomes a slash, and the token comes back if and only if it has none |
| JsonPointer.ParseEncoded | internal/filter/path_remove.go:53-66 | what parsing an encoded list of tokens gives, for every list |
| JsonPointer.RoundTrip | internal/filter/path_remove.go:53-66 | parsing inverts encoding if and only if the list is not [""] and its last token does not end in white space |
| PathRemove.AtoiExactly | internal/filter/path_remove.go:102-106 | what reads as an integer, exactly: an optional sign, zeros, and the decimal form of the number |
| PathRemove.PicksExactly | internal/filter/path_remove.go:68-110 | which members and elements a part of a path takes |
| PathRemove.RemovedAt | internal/filter/path_remove.go:68-110 | path by path: what a path cuts is gone, all else is there with the same content |
| PathRemove.RemovedAllAt | internal/filter/path_remove.go:32-35 | the same for a list of paths |
| PathRemove.OrderIsIrrelevant | internal/filter/path_remove.go:32-35 | the result depends on the set of paths only, not on their order or repetition |
| PathRemove.CountZeroIffUnchanged | internal/filter/path_remove.go:68-110 | one path counts 0 exactly if the tree is unchanged |
| PathRemove.GoneExactly | internal/filter/path_remove.go:68-110 | the members removed are those at the paths that the parts pick and that exist |
| PathRemove.CountIsGone | internal/filter/path_remove.go:68-110 | the count of one path is the number of these members |
| PathRemove.PassCountsNothingIffUnchanged | internal/filter/path_remove.go:32-38 | a pass counts 0 exactly if the tree is unchanged |
| PathRemove.SecondPassRemovesNothing | internal/filter/path_remove.go:24-51 | a second pass changes nothing and counts 0 |
| PathRemoveHeap.CloneAny | internal/filter/path_remove.go:112-129 | an equal tree of fresh nodes; the original is not written |
| PathRemoveHeap.RemovePath | internal/filter/path_remove.go:68-110 | deletion in place gives the specified tree and count and writes only nodes of that tree |
| PathRemoveHeap.Apply | internal/filter/path_remove.go:24-51 | the filter's result and count; the input is never written; the input itself is returned exactly if nothing was removed |
| Strings.SortedSet | internal/agent/retention.go:355-362 | the elements of the set, each once, in order |
| Strings.SortedIsCanonical | internal/agent/retention.go:355-362 | a sorted list without repetition is determined by its elements |
| Strings.LessExactly | internal/agent/retention.go:355-362 | the order is that of the dictionary |
| StableSort.SliceStable | internal/filter/status_conditions.go:66-68 | the in-place insertion sort gives the stably sorted list |
| StableSort.SortBySorts | internal/filter/status_conditions.go:66-68 | sorted, and for each key the same elements in the same order |
| StableSort.StableSortIsUnique | internal/filter/status_conditions.go:66-68 | only one list is that, so any stable sort gives it |
| StableSort.SortedEqually | internal/filter/status_conditions.go:66-68 | two lists sort to the same list exactly if they agree key by key |
| StableSort.KeyOrderTellsChange | internal/filter/status_conditions.go:64-79 | comparing the keys before and after tells exactly whether anything moved |
| Conditions.DeleteFields | internal/filter/status_conditions.go:36-41 | deletes the named fields and counts those that were there |
| Conditions.StripTimestamps | internal/filter/status_conditions.go:28-43 | every condition that is a map loses its timestamps; the count is exact |
| Conditions.StrippedExactly | internal/filter/status_conditions.go:28-43 | a condition that is a map loses its three timestamps, by name, and keeps everything else |
| Conditions.PresentAllAre | internal/filter/status_conditions.go:36-41 | the fields counted as removed are these timestamps, each once |
| Conditions.CanonicalByType | internal/filter/status_conditions.go:64-79 | the canonical list holds the stripped conditions, each as often, in the order of their types |
| Conditions.OnlyConditionsChange | internal/filter/status_conditions.go:16-62 | nothing else in the document changes |
| Conditions.CanonicalForm | internal/filter/status_conditions.go:28-44 | equal canonical forms exactly if, timestamps aside, the conditions of each type are the same in the same order |
| Conditions.OrderDoesNotMatter | internal/filter/status_conditions.go:28-44 | with distinct types, equal canonical forms exactly if the same conditions, timestamps aside |
| Conditions.PermutationsBecomeEqual | internal/filter/status_conditions.go:16-62 | documents that differ in order and timestamps of such conditions become equal |
| Conditions.NormalizedIsIdempotent | internal/filter/status_conditions.go:16-62 | the filter is idempotent |
| Conditions.UnchangedExactly | internal/filter/status_conditions.go:44-47 | nothing removed and the keys in the same order, exactly if the list is canonical already |
| Conditions.Apply | internal/filter/status_conditions.go:16-62 | the filter's result, its reason on every branch and its counts; modified is reported exactly if the result differs from the input |
| Autoscaler.NameSurvives | internal/filter/cluster_autoscaler.go:150-160 | rewriting an entry does not change the name it is sorted by |
| Autoscaler.KeysKept | internal/filter/cluster_autoscaler.go:107-123 | a mapping loses exactly its probe times and keeps every other key's value, rewritten |
| Autoscaler.FlagIsExact | internal/filter/cluster_autoscaler.go:69-140 | no change is reported and every mapping is even, if and only if the tree stays as it is |
| Autoscaler.NormalizeIsIdempotent | internal/filter/cluster_autoscaler.go:69-105 | rewriting twice is rewriting once |
| Autoscaler.GroupOrderDoesNotMatter | internal/filter/cluster_autoscaler.go:84-88 | node groups with distinct names become equal whatever their order |
| Autoscaler.GroupsInOrder | internal/filter/cluster_autoscaler.go:84-105 | node groups come out in the order of their names, each rewritten, each as often |
| Autoscaler.OthersInPlace | internal/filter/cluster_autoscaler.go:69-105 | anything else is rewritten child by child in its place |
| AutoscalerHeap.RemoveProbeKeys | internal/filter/cluster_autoscaler.go:107-123 | the filtered children and the flag, on the node itself |
| AutoscalerHeap.SortSequenceByName | internal/filter/cluster_autoscaler.go:125-140 | the stably sorted children and the flag, on the node itself |
| AutoscalerHeap.NormalizeNode | internal/filter/cluster_autoscaler.go:69-105 | the rewrite in place gives the specified tree and flag and writes only nodes of that tree |
| AutoscalerFilter.ReportedTextDiffers | internal/filter/cluster_autoscaler.go:55-67 | a text is reported as changed only if it is, for every text whose rewriting reads back |
| AutoscalerFilter.UnchangedExactly | internal/filter/cluster_autoscaler.go:19-53 | such a document is unchanged exactly if neither the status text nor the annotation has anything to change |
| AutoscalerFilter.NormalizedIsIdempotent | internal/filter/cluster_autoscaler.go:19-53 | the filter is idempotent on such documents |
| AutoscalerFilter.RemoveLastUpdated | internal/filter/cluster_autoscaler.go:162-179 | the annotation is removed, and an emptied map of annotations with it |
| AutoscalerFilter.OnlyTheseChange | internal/filter/cluster_autoscaler.go:19-53 | nothing else in the document changes but the status text and that annotation |
| AutoscalerFilter.AnnotationsExactly | internal/filter/cluster_autoscaler.go:162-179 | the annotations afterwards, by name, and the map of them goes with the last |
| AutoscalerFilter.StatusExactly | internal/filter/cluster_autoscaler.go:55-67 | the status text afterwards is what is printed without the newlines at its end, or the text itself |
| AutoscalerFilter.Apply | internal/filter/cluster_autoscaler.go:19-53 | the filter's result; a document that is reported as kept is kept; one that is reported as modified differs from the input, if what is printed for its status text reads back |
| Overlay.MergeCombines | internal/config/overlay.go:62-73 | each key of a merged mapping reads from the overlay, the base, or the merge of both |
| Overlay.MergeReads | internal/config/overlay.go:51-73 | every path reads from the overlay where it sets the path, merged only if both sides are mappings, otherwise from the base unless the overlay replaced something on the way |
| Overlay.MergeKeepsTheNode | internal/config/overlay.go:51-73 | merged mappings keep the tag and text of the base; anything else is the overlay |
| Overlay.KeysInOrder | internal/config/overlay.go:62-73 | base keys keep their order, new keys follow in the overlay's order |
| Overlay.MergeIsIdempotent | internal/config/overlay.go:51-73 | merging the same overlay twice is merging it once |
| Overlay.RepeatedKeyTakesTheLast | internal/config/overlay.go:62-73 | with a repeated key the last value is taken, not the one that reading the overlay finds |
| YamlHeap.CloneNode | internal/config/overlay.go:87-99 | an equal tree of fresh nodes |
| YamlHeap.IndexOf | internal/config/overlay.go:75-85 | the first match of a key |
| OverlayHeap.MergeNode | internal/config/overlay.go:51-60 | the merge in place gives the specified tree, the overlay is not written, and the result shares no node with it |
| OverlayHeap.MergeMapping | internal/config/overlay.go:62-73 | the loop over the overlay's pairs, in place |
| AliasTokens.ClusterAliasTokens | internal/mcp/cluster_resolver.go:169-195 | the scan with its builder gives the specified tokens |
| AliasTokens.SpansAreTheMaximalRuns | internal/mcp/cluster_resolver.go:169-214 | tokens come from exactly the stretches of letters or of digits that cannot be made longer |
| AliasTokens.SpansInOrder | internal/mcp/cluster_resolver.go:169-195 | these are taken from left to right without overlap |
| AliasTokens.TokensAreTheRuns | internal/mcp/cluster_resolver.go:169-195 | token by token the tokens are the lower-cased texts of these stretches |
| AliasTokens.JoinIsCompact | internal/mcp/cluster_resolver.go:165-195 | the joined tokens are the lower-cased letters and digits of the text, in order |
| AliasTokens.TokenSubsequence | internal/mcp/cluster_resolver.go:216-230 | true exactly if the needles are not empty and stand in the haystack in order |
| AliasTokens.GreedyIsExact | internal/mcp/cluster_resolver.go:216-230 | taking each needle at its first chance misses no embedding |
| Text.TrimExactly | internal/mcp/cluster_resolver.go:16-20 | trimming takes the white space of both sides and nothing else |
| Text.FieldsAreStretches | internal/mcp/cluster_resolver.go:133-159 | the fields of a text are its stretches without white space that cannot be made longer |
| ClusterResolver.ClusterAliases | internal/mcp/cluster_resolver.go:133-159 | exactly the trimmed aliases that are not empty, each once |
| ClusterAnswers.KnownExactly | internal/mcp/cluster_resolver.go:133-159 | the aliases, by the fields of the cluster: trimmed name, identifier and source, and the stretches of the source without white space |
| ClusterResolver.ClusterAliasMatches | internal/mcp/cluster_resolver.go:105-113 | true exactly if some alias equals the input but for case and outer white space |
| ClusterAnswers.MatchesExactly | internal/mcp/cluster_resolver.go:105-113 | an input matches exactly if it is one of these up to case and outer white space, and no other text does |
| ClusterResolver.ClusterAliasFuzzyMatches | internal/mcp/cluster_resolver.go:115-131 | true exactly if there are two tokens and some alias holds them in order, or holds the compact input of four bytes or more |
| ClusterAnswers.FuzzyExactly | internal/mcp/cluster_resolver.go:115-131 | a loose match, by these texts, their tokens, and their letters and digits |
| ClusterResolver.MatchingClusters | internal/mcp/cluster_resolver.go:92-103 | the named clusters that match, in order |
| ClusterResolver.ResolveClusterID | internal/mcp/cluster_resolver.go:16-77 | the answer or failure on every branch |
| ClusterAnswers.OneWithData | internal/mcp/cluster_resolver.go:35-37 | an input by which exactly one named cluster is known, and which holds data, resolves to the name of that cluster |
| ClusterAnswers.SingleAnswer | internal/mcp/cluster_resolver.go:35-48 | a single cluster that is meant is the answer unless it holds no data and just one other that matches loosely does |
| ClusterAnswers.SeveralAnswers | internal/mcp/cluster_resolver.go:50-63 | several clusters that are meant are ambiguous, and are all named |
| ClusterAnswers.LooseAnswers | internal/mcp/cluster_resolver.go:50-77 | if none is meant the loose matches decide, and with none of these the named clusters are listed as they are displayed |
| ClusterAnswers.TakenAsIs | internal/mcp/cluster_resolver.go:16-34 | without text, without a list, and without named clusters the trimmed input is the answer |
| ClusterResolver.OrderDoesNotMatter | internal/mcp/cluster_resolver.go:16-77 | any two orders of the cluster list give the same ID, or the same failure about the same clusters |
| ClusterResolver.ChosenIsListed | internal/mcp/cluster_resolver.go:35-58 | an ID that is chosen is that of a listed cluster that matches exactly or fuzzily |
| ClusterResolver.SingleExactMatchResolves | internal/mcp/cluster_resolver.go:35-55 | a single exact match always resolves, to itself if it holds data or nothing else that matches does, else at most to the one other fuzzy match with data |
| ClusterResolver.NotFoundExactly | internal/mcp/cluster_resolver.go:50-77 | nothing is found exactly if no listed cluster matches in either way |

## Left out

- Ingest.IngestJSON: decoding the input and loading the resource registry come before the loop; when they fail, nothing is ingested. Facts, edges and changes are not counted.
- Ingest.IngestObservation: recording the filters' decisions and the raw object can fail, but what they store is not modelled.
- Collector.ResourceWatcher.ListResourceOnce: reading what the store knew before the list and recording the offset after it are steps of `CollectorRuns`, where both can fail.
- Collector.ResourceWatcher.HandleWatchEvent: error events and objects without a version are errors of the stream in `CollectorRuns`, and so is a failure to record the offset.
- Aggregate.WatchResourcesSummary.Aggregate: queue waits, backpressure events and the metrics of the queue are not modelled.
- RunStore.MemoryStore.CreateRun: the session's time of update is not modelled.
- RunStore.MemoryStore.UpdateRunStatus: the session's time of update is not modelled.
- Retention.ApplyAgentRetention: the cleanup of scratch files and its part of the report are not modelled.
- AutoscalerHeap.RemoveProbeKeys: the kept children are collected in a new list and not in the front of the old one; `Retention.CompactInPlace` has that pattern on an array.
- Scheduler.RetryDelay: does not model 64-bit wrap-around of the doubled delay, which needs a maximum above 2^62 nanoseconds; it takes the bounds as `normalizedBackoff` leaves them (`internal/collector/watch_tuning.go:34-45`).
- CollectorRuns.StepKeeps: the two retry loops, the rotation loop and the queue are steps of a transition system and not methods with loops, because what matters is how they interleave with the cluster.
- Ingest.MemoryStore.PutObservation: facts, edges and changes that are stored beside an observation are not modelled, and neither are the latest-object and filter-decision side tables.
- RunStore.MemoryStore.AppendRunEvent: event payloads are reduced to a reference and a text; sequence numbers do not wrap around at 64 bits.
- AliasTokens.ClusterAliasTokens: texts are sequences of characters; bytes that are not valid UTF-8 are not modelled.
- AutoscalerFilter.NormalizedIsIdempotent: speaks about documents for whose status text the YAML library, which is a parameter, prints what reads back, without the newlines at its end, as the rewritten tree. Two kinds of text are exceptions: one that ends in a block scalar which keeps its last newlines, where the trimming of `internal/filter/cluster_autoscaler.go:65` changes the value, and a blank or comment-only text, which is read as an empty node and printed as null.
- AutoscalerFilter.ReportedTextDiffers: the same, text by text, with the same exceptions.
- AutoscalerFilter.UnchangedExactly: the same, document by document, with the same exceptions.
- AutoscalerFilter.Apply: that a reported change is one is promised for the same documents; that a document reported as kept is kept is promised for all.
- YAML styles and comments: the printed text is a function of the tree alone.
- The Kubernetes API server, discovery, and the HTTP client: an ordered log with snapshots, in-order delivery, bookmarks and expiry stands for them.
- SQLite, ClickHouse and chDB stores: the in-memory stores stand for them.
- The order that `sortRetrySessionRuns` gives a session's runs (`internal/agent/retention.go:122-135`): its comparison is an order only for runs created after their roots, so the model takes any order of the runs.
- Retention a second time: it can delete more, because only the last artifact event of each artifact is looked at.
- Two workers with one schedule key: they share one request; the model has one worker per key. A limit of zero or below, which switches the scheduler off, and the channel semaphore are left out.
- Tickers, deadlines, logging, metrics and progress callbacks.
- The watch of a single resource outside the resource queue; session lists and their titles.
- The error event that a failed child run appends before its closing event (`internal/agent/parallel_investigation_tool.go:218-244`).
- The other filters and the configuration's document handling: each is a short lookup.
- YAML aliases and anchors, and nil entries of trees.
- Extractors, the agent's prompts and tools, the command line and the web interface.
