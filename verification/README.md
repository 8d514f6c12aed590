# Datawatch: verified models of its self-contained algorithms and protocols

Datawatch supervises AI coding sessions. This project models, in Dafny 4.11, the
parts of it whose correctness spans loops, several functions or whole runs, and
proves what they promise for all inputs, all interleavings and all fault
patterns. `dafny verify dfyconfig.toml` checks everything.

| module | what it models | main results |
|---|---|---|
| `ProcessTree` | the process-tree walk behind the CPU progress signal | the total is the 64-bit sum over exactly the pids at shortest distance 1..cap, on any graph |
| `PlanGraph`, `PlanScore` | the cycle test, reachability and criteria C5 and C12 of plan scoring | a cycle is reported iff there is one, else the tasks can be scheduled; C12 iff every release task reaches another code task |
| `Placement`, `PlacementLaws` | hosting entry and pool resolver | the answer does not depend on listing order; pools, choices and node are told exactly from the entries and nodes |
| `PlacementSignature`, `SignatureCollisions` | the signature text | the text is equal exactly for equal entries with nodes when no field holds its delimiter, so equal text means equal candidates, and equal pools exactly if both registries have an entry of the backend's name; one collision for every clause of the delimiter condition |
| `Replan` | the re-plan the signature guards, with overlapping callers, edits, polls and waiters that come and go | every interleaving: a waiter planned under the recorded signature has the whole answer of the present exactly if the entry of its backend's name is there or missing as it was then; any other was refreshed under a signature that has come and gone; runs that do each |
| `BudgetAudit`, `LongWaitAlerts` | the two watchers of the capacity tick | events strictly alternate per LLM; two alerts for one holder are separated by a tick without it |
| `ChannelBridge`, `ChannelOrder`, `ChannelProgress` | the buffer-until-ready hand-off | every interleaving: each message in exactly one place, sent exactly once, one that was buffered before another was taken in sent before it; every fair schedule gets there |
| `VerifyTier`, `VerifyTierCommands` | capture/set/restore around the global config | what each command does from any state, for every fate of its write; every run with crashes, lost writes and writes that land late: the config can be recovered, and differs from the start only in flight as long as no write lands after a restore has read the config back, a condition that is exact |
| `AutomationControl`, `AutomationOutcomes` | the read-version, post, retry-once control call | every interleaving: applied at most once, at its own version, and applied whenever nothing else is between its read and its post; each call is what its client does with the answers it saw, and leaves the caller's map alone |
| `AttemptLimit` | progress clock, watcher, preserve-then-kill | every run of checks: a stop exactly when a limit is exceeded by the latest progress observed, one end of the session for each, each with its own snapshot tried before it |
| `WorkDirFingerprint`, `ScratchPaths`, `WorkDirListing` | the hashed bytes of the work-directory fingerprint, the paths it leaves out, and the status listing they come from | equal bytes only from equal record sets; order-independent iff sort keys decide entries; a listing is read as its non-scratch items iff no rename source passes for an item |
| `ActiveHours` | inactive windows and active time | merging keeps the instants; active time is the measure of what is left |
| `TrivyIgnore` | line wrap and entry grouping | the greedy wrap uses the fewest lines of all breakings that fit |
| `RiskRemoval`, `RiskRemovalLaws` | entry removal from the accepted-risks file | exactly the lines of the removed entries go; two removals leave the same file as one with both id sets |
| `PlanTables`, `PlanDedupe`, `PlanMerge`, `PlanMergeLaws`, `PlanCleanup`, `PlanReadBack` | table edits of the plans registry | backwards slice writes are exact; dedupe keeps first occurrences, table by table, and is idempotent; a merge moves exactly the new rows; the merged file reads back as merged iff no deleted table stood between a row line and a separator, and then it has every key it had |

`Basics`, `Text` and `Encoding` hold shared helpers: options, words, string order,
sorting, unambiguous concatenation and decimal numbers.

Conventions. Times, durations and ticks are integers. Go and Python strings are
sequences of characters. A nil registry answers as an empty one. Foreign effects
(stat results, snapshot results, the outcome of a request, a crash) are inputs,
so a result "for all inputs" covers all of them. Locks, requests and process
deaths are steps of state machines. Loops and objects that the source updates in
place are methods and classes, proved against functions or direct statements.

Where the code and its comments differ, the model follows the code:

- `placementSignature` is said to make equal signatures mean equal candidates.
  That holds whenever no field contains the delimiter that ends it or starts with
  the one that ends its list (`PlacementSignature.Delimited`). Names and kinds of
  entries are validated when an entry is added or updated
  (internal/inference/llm.go:423-434) but not when the stored entries are loaded
  (internal/inference/llm.go:704-724); names of compute nodes inside an entry and
  names of models never are. For each of the seven clauses `SignatureCollisions`
  has two registries with one signature and different placements.
- `replanOnPlacementChange` is said to only record the signature on its first
  call. It records it when it is created, and the first call already compares.
- Waiters are said to need no re-plan while the signature is the recorded one.
  `Replan.StaleOnlyAfterReturn` says when that is so. A waiter refreshed while
  the signature was another one stays behind when it returns
  (`Replan.PriorityThereAndBack`), also when a late caller records an old
  signature (`Replan.LateCallerRecordsOldSignature`). And a refresh would renew a
  request's pools as well, which depend on whether there is an entry named as its
  backend; the signature does not show an entry without compute nodes
  (`Replan.PlainEntryUnseen`). A request that cannot be refreshed, as the
  classifier's (cmd/datawatch/classify_runtime_wiring.go:43), keeps its plan
  whatever happens (`Replan.NeverReplanned`).
- The restore of the verification config is said to be verified by reading it
  back. A write that the client gave up on after its time-out can still land
  afterwards, and leaves the config changed without a marker
  (`VerifyTier.LateWriteAfterRestore`).
- `entryKey` is said to sort by the path as the unique identity of an entry. It
  sorts by the path up to a unit separator with an unstable sort, so the hashed
  bytes can depend on the listing order (`WorkDirListing.UnitSeparatorOrderMatters`,
  and for renames `WorkDirListing.RenameSourceExample`). They do not exactly when
  no two different entries share that key (`WorkDirFingerprint.OrderIndependentExactly`).
- Scratch files are said to be excluded. The old path of a rename stands in the
  listing without a status and is read three characters in, so a rename out of
  the scratch directory leaves a trace (`WorkDirListing.ScratchSourceLeavesTrace`).
  `WorkDirListing.ListingExact` and `WorkDirListing.ScratchIgnoredExactly` give
  the exact condition.
- Folding closed tables is said to drop duplicates only. Deleting a table from
  between a stray row line and a stray separator makes a new table of them
  (`PlanReadBack.JointExample`); `PlanReadBack.MergedReadBack` gives the exact
  condition.

## Model

| member | source | states |
|---|---|---|
| `ProcessTree.ChildCpuTicks` | cmd/datawatch/attempt_progress_cpu.go:43-75 | for any process graph (cycles, shared children, repeated roots) the walk ends and returns, in 64-bit arithmetic, the sum over exactly the pids whose shortest path from the roots has 1 to maxDepth links |
| `ProcessTree.DescendantsExact` | cmd/datawatch/attempt_progress_cpu.go:36-42 | the summed set is exactly the pids with such a shortest path; a root is never in it |
| `ProcessTree.SeedRoots` | cmd/datawatch/attempt_progress_cpu.go:48-55 | every root is queued, a repeated root once, all at depth 0 |
| `ProcessTree.VisitChildren` | cmd/datawatch/attempt_progress_cpu.go:63-72 | every unvisited child of a frame is visited, summed once and queued one level deeper; depths stay exact distances |
| `ProcessTree.SumInsert` | cmd/datawatch/attempt_progress_cpu.go:67-70 | adding one pid to the summed set adds its reading, or 0 when it cannot be read |
| `PlanGraph.HasCycle` | scripts/eval_model_tiering.py:464-477 | a cycle is reported if and only if the graph restricted to the known nodes has a closed walk (self-loops included); otherwise an order exists with every dependency first |
| `PlanGraph.CycleSearch.Visit` | scripts/eval_model_tiering.py:467-475 | the depth-first visit ends on cyclic graphs; true means a cycle exists, false leaves the grey nodes as they were and the black ones in dependency order |
| `PlanGraph.OrderedMeansAcyclic` | scripts/eval_model_tiering.py:464-477 | a graph with a dependency-first order has no cycle |
| `PlanGraph.GreyClosesCycle` | scripts/eval_model_tiering.py:472-473 | an edge to a grey node closes a cycle through known nodes |
| `PlanGraph.Reachable` | scripts/eval_model_tiering.py:495-503 | the worklist ends on cyclic graphs and returns exactly the nodes one or more edges away |
| `PlanScore.TaskEdges` | scripts/eval_model_tiering.py:480-492 | a task's edges are exactly its resolved task dependencies and the tasks of every story its story depends on |
| `PlanScore.CriterionC5` | scripts/eval_model_tiering.py:519-521 | C5 passes if and only if no story leads back to itself through the stories that its last namesake lists, and no task depends on itself along any path; then an order exists in which each task follows everything it depends on, directly or through its story |
| `PlanScore.StoryCyclic` | scripts/eval_model_tiering.py:507-521 | the story graph has a cycle exactly if the plan has a closed path of stories, told by the stories' own keys and lists |
| `PlanScore.CriterionC12` | scripts/eval_model_tiering.py:522-535 | C12 passes if and only if release and code tasks both exist and every release task has a path, through task or expanded story dependencies of the plan, to a code task other than itself |
| `PlanScore.PathsAreWalks` | scripts/eval_model_tiering.py:480-492 | the walks of the task graph are exactly the dependency paths of the plan |
| `PlanScore.GraphCriteria` | scripts/eval_model_tiering.py:518-535 | both criteria stated on the plan alone, through the graph built from it |
| `PlanScore.AllReach` | scripts/eval_model_tiering.py:532-535 | no vacuous pass, and no key counts by reaching itself |
| `Placement.EngineEntry` | cmd/datawatch/capacity_wiring.go:74-93 | the entry returned is a candidate that beats every other one (lists the model, then smallest name), and none is returned only when there is no candidate |
| `Placement.HostUnique` | cmd/datawatch/capacity_wiring.go:66-73 | the hosting entry does not depend on registry iteration order |
| `Placement.NodeServes` | cmd/datawatch/capacity_wiring.go:125-138 | a node is dropped only if the list pairs it with models and none of them is the model |
| `Placement.OrderedPoolNodes` | internal/inference/pool_nodes.go:14-32 | the known nodes of the list, in list order, each once, with their priority |
| `Placement.KnownNodes` | internal/inference/pool_nodes.go:10-13 | a node is in the result exactly when it is listed, named and known, with the priority the registry reports; no name twice |
| `Placement.HostingExact` | cmd/datawatch/capacity_wiring.go:263-285 | a session is local exactly when its backend is local and its model has an engine entry; a pi backend's own entry hosts it if that lists nodes, the engine entry otherwise, on the first node |
| `Placement.CutExact` | internal/autonomous/local_engine.go:36 | a model is cut at its first slash |
| `Encoding.LessExact` | cmd/datawatch/capacity_wiring.go:85 | strings are compared at the first character in which they differ, a proper prefix first |
| `Placement.NamesExact` | cmd/datawatch/capacity_wiring.go:109-120 | a reference names a model exactly if it is the model as written or what follows its provider prefix |
| `Placement.HostPreference` | cmd/datawatch/capacity_wiring.go:66-93 | the host is of the kind and has compute nodes; it lists the model if any such entry does, and has the smallest name of those that are like it in this; there is one whenever there is such an entry |
| `Placement.CapacityResolver` | cmd/datawatch/capacity_wiring.go:327-369 | the resolver's loops compute pools, node and choices as the specification resolves them |
| `Placement.ListingOrderIrrelevant` | cmd/datawatch/capacity_wiring.go:268-285 | for any permutation of a listing with distinct names the whole resolver answer is the same |
| `Placement.ResolutionShape` | cmd/datawatch/capacity_wiring.go:316-326 | two or more choices with no node and no node pool; or, when local, exactly one node pool naming the returned node; or neither |
| `PlacementLaws.ChoicesExact` | cmd/datawatch/capacity_wiring.go:308-314 | there are choices exactly if a local session's entry has two or more candidate nodes, known ones that may serve the model or else all known ones; they are those, in list order, each once with its priority (50 when it has none) |
| `PlacementLaws.NodeExact` | cmd/datawatch/capacity_wiring.go:341-367 | the node of a local session: the only node of an entry with one, whatever the compute registry says; else the only candidate, or the entry's first node when it has none |
| `PlacementLaws.PoolsExact` | cmd/datawatch/capacity_wiring.go:330-367 | the pools are the host's, the one of the entry named as the backend if there is one, and the node's if a node is the answer, in that order |
| `PlacementSignature.WriteSignature` | cmd/datawatch/capacity_wiring.go:170-198 | the builder loops write exactly the signature text, skipping entries without compute nodes |
| `PlacementSignature.SignatureText` | cmd/datawatch/capacity_wiring.go:182-194 | the text of an entry with one known node and one model, character by character |
| `Encoding.DecimalValue` | cmd/datawatch/capacity_wiring.go:188 | a printed number reads back as itself |
| `PlacementSignature.EqualSignatures` | cmd/datawatch/capacity_wiring.go:165-169 | the text is equal exactly for the same entries with nodes and the same known-and-priority answers about those nodes (delimiters respected) |
| `PlacementSignature.SameSignatureSamePlacement` | cmd/datawatch/capacity_wiring.go:165-169 | equal signatures give every backend and model the same node and candidates |
| `PlacementSignature.SameSignatureSameAnswer` | cmd/datawatch/capacity_wiring.go:327-343 | equal signatures give the same whole answer, pools included, if and only if both registries have an entry named as the backend or neither has |
| `SignatureCollisions.CommaInModelName` | cmd/datawatch/capacity_wiring.go:191-193 | two registries with one signature and different placements: a model name holds a comma |
| `SignatureCollisions.EqualsInModelNode` | cmd/datawatch/capacity_wiring.go:191-193 | likewise: the node of a model holds an equals sign |
| `SignatureCollisions.SemicolonAtModelNode` | cmd/datawatch/capacity_wiring.go:191-194 | likewise: the node of a model starts with a semicolon |
| `SignatureCollisions.SlashInNodeName` | cmd/datawatch/capacity_wiring.go:186-189 | likewise: a compute node's name holds a slash |
| `SignatureCollisions.BarAtNodeName` | cmd/datawatch/capacity_wiring.go:186-190 | likewise: a compute node's name starts with a bar |
| `SignatureCollisions.SlashInEntryName` | cmd/datawatch/capacity_wiring.go:182-185 | likewise: an entry's name holds a slash |
| `SignatureCollisions.ColonInKind` | cmd/datawatch/capacity_wiring.go:182-185 | likewise: an entry's kind holds a colon |
| `Replan.StaleOnlyAfterReturn` | cmd/datawatch/capacity_wiring.go:200-216 | after any run of edits, arrivals, refreshes, departures and overlapping calls, with the present signature recorded, take a waiter that can be refreshed and that no re-plan has yet to reach: planned under that signature, it has the present pools, node and choices if and only if the entry of its backend's name is there or missing as it was then; otherwise it was refreshed under another signature that came after the recorded one was read and is gone |
| `Replan.ChangeReachesEveryWaiter` | internal/capacity/ledger.go:1011-1021 | a call that finds a change leaves every waiter that can be refreshed planned in the present world once it is done, whatever else happens meanwhile except an edit |
| `Replan.NeverReplanned` | internal/capacity/ledger.go:1014-1015 | a waiter that cannot be refreshed keeps the plan it came with as long as it waits, whatever happens |
| `Replan.StepKeepsInv` | internal/capacity/ledger.go:978-1010 | every edit, refresh, departure, read, compare and re-plan step keeps each waiter planned under the recorded signature, after it was read, or awaited by a re-plan |
| `Replan.ReturnIsNotSeen` | cmd/datawatch/capacity_wiring.go:208-214 | for any two worlds: a change and its undoing between two calls leave a waiter refreshed in between on the other world |
| `Replan.PriorityThereAndBack` | cmd/datawatch/capacity_wiring.go:208-214 | a concrete run: a priority goes from 1 to 2 and back, and the waiter keeps candidates that are no longer right |
| `Replan.LateCallerRecordsOldSignature` | cmd/datawatch/capacity_wiring.go:207-211 | for any two worlds with different signatures: of two overlapping calls the later comparison records the older signature |
| `Replan.OldSignatureHidesReturn` | cmd/datawatch/capacity_wiring.go:207-214 | after that, undoing the change is not seen and the waiter stays behind |
| `Replan.UnseenChange` | cmd/datawatch/capacity_wiring.go:207-214 | for any two worlds with one signature: a change from one to the other re-plans nothing |
| `Replan.PlainEntryUnseen` | cmd/datawatch/capacity_wiring.go:177-181 | a concrete run: an entry without compute nodes is added, and the request waiting for its backend does not get its pool |
| `BudgetAudit.Auditor.Tick` | cmd/datawatch/capacity_wiring.go:752-790 | over any run each LLM's events strictly alternate starting with a ceiling wait; after a tick the map is true for exactly the LLMs reported full; one event per changed LLM and none otherwise |
| `BudgetAudit.Auditor.DropUnseen` | cmd/datawatch/capacity_wiring.go:778-789 | an LLM that is no longer reported leaves the map and resumes exactly if it was full |
| `BudgetAudit.Emit` | cmd/datawatch/capacity_wiring.go:757-776 | an event for a changed state keeps every LLM's history alternating |
| `LongWaitAlerts.Alerter.Tick` | cmd/datawatch/capacity_wiring.go:1455-1469 | over any run two alerts for one holder are separated by a tick at which it was not waiting; a holder is alerted at a tick exactly when overdue and not alerted already |
| `LongWaitAlerts.KeepsConsistent` | cmd/datawatch/capacity_wiring.go:1465-1469 | dropping the marks of holders no longer waiting keeps the alert history consistent |
| `ChannelBridge.EveryMessageInOnePlace` | cmd/datawatch-channel/main.go:485-497 | after any interleaving of handlers and drains each accepted message is in exactly one of pending, a drain's batch, its handler, sent; buffered messages leave in arrival order |
| `ChannelBridge.DeliveredExactlyOnce` | cmd/datawatch-channel/main.go:106-129 | when all threads are done and a drain has run, every message was sent exactly once and the buffered ones in arrival order; without a drain all of them wait in the buffer |
| `ChannelOrder.ArrivalOrder` | cmd/datawatch-channel/main.go:116-127 | in every run: a message that is in the buffer while the handler of another has not decided yet, and that other is buffered later, is sent before it |
| `ChannelOrder.SentInHistoryOrder` | cmd/datawatch-channel/main.go:125-127 | of two sent messages that were buffered, the one sent first was buffered first |
| `ChannelProgress.SomeThreadMoves` | cmd/datawatch-channel/main.go:106-129 | in every reachable state with a thread that is not done, some thread can move: the lock blocks none for ever |
| `ChannelProgress.MoveFalls` | cmd/datawatch-channel/main.go:485-497 | every move leaves less to do, counting the sends of buffered and taken messages |
| `ChannelProgress.FairRunsDeliver` | cmd/datawatch-channel/main.go:106-129 | from any interleaving, letting every thread run in every round, in any order, brings all of them to their end and the messages to their delivery |
| `ChannelBridge.NothingBufferedAfterReady` | cmd/datawatch-channel/main.go:114-119 | once the ready flag is set nothing is buffered any more and the flag stays set |
| `ChannelBridge.StepKeepsInv` | cmd/datawatch-channel/main.go:379-387 | every statement of every thread keeps mutual exclusion, placement and order |
| `VerifyTier.RecordedIsFound` | scripts/eval_model_tiering.py:762-769 | whatever lands when, a recorded start is the config the run found, and a saved restore target equals it |
| `VerifyTier.LiveDiffersOnlyInFlight` | scripts/eval_model_tiering.py:1264-1326 | after any sequence of commands and faults in which no write lands too late, the live config differs from the recorded start only while the marker is on disk |
| `VerifyTier.LateWriteUnmarked` | scripts/eval_model_tiering.py:1290-1311 | that condition is exact: a write that lands too late leaves another config without a marker, at once or after the save that is due |
| `VerifyTier.LateWriteAfterRestore` | scripts/eval_model_tiering.py:1279-1311 | for every tier with another config: a write given up on lands after a verified restore and a passed final check |
| `VerifyTier.StartNeverChanges` | scripts/eval_model_tiering.py:762-769 | once stored, the start values never change |
| `VerifyTier.FinalCheckSound` | scripts/eval_model_tiering.py:1314-1326 | when the final check passes, live equals start and no marker is left |
| `VerifyTier.FinalCheckLasts` | scripts/eval_model_tiering.py:1314-1326 | and it stays so until a write lands too late or another command begins |
| `VerifyTier.RestoreRecovers` | scripts/eval_model_tiering.py:1290-1311 | from any reachable state with recorded start values a restore without faults brings the config back and the final check passes |
| `VerifyTier.StepKeepsFile` | scripts/eval_model_tiering.py:1223-1240 | every statement, crash, lost, half-failed or late write keeps what the file records, and the recorded start once it is there |
| `VerifyTier.StepKeepsLive` | scripts/eval_model_tiering.py:1223-1240 | every one of them but a write that lands too late keeps another live config marked |
| `VerifyTierCommands.SetOutcome` | scripts/eval_model_tiering.py:1279-1287 | vt-set, from any world and for every fate of its write: with the restore target and the marker for its tier on file it makes the tier's values live, leaves the file alone and fails exactly if the write reports failure; otherwise it refuses and changes nothing |
| `VerifyTierCommands.CaptureOutcome` | scripts/eval_model_tiering.py:1263-1276 | vt-capture saves the live config as the restore target with the marker for its tier exactly if it is the recorded start, and otherwise refuses and changes nothing |
| `VerifyTierCommands.PreflightOutcome` | scripts/eval_model_tiering.py:762-769 | preflight records the live config exactly if no other one is recorded |
| `VerifyTierCommands.RestoreOutcome` | scripts/eval_model_tiering.py:1290-1311 | vt-restore writes the target, or the recorded start without one, and passes and takes the marker away exactly if the config reads back as that |
| `VerifyTierCommands.FinalCheckOutcome` | scripts/eval_model_tiering.py:1314-1326 | the final check changes nothing and passes exactly if the live config is the recorded start and no marker is left |
| `VerifyTierCommands.IoFailureEnds` | scripts/eval_model_tiering.py:1263-1326 | a read, load or save that fails ends the command in failure and changes nothing else |
| `VerifyTierCommands.SetAfterCapture` | scripts/eval_model_tiering.py:1263-1311 | in every run, once a tier is captured, setting it makes its values live and a restore after that brings the found config back |
| `AutomationControl.CallGuarantees` | cmd/datawatch/cli_automation.go:597-620 | under any interleaving and faults a call takes effect at most once, and once if it reports success; at most two posts (one when explicit), every post but the last definitely refused; only the version is filled in |
| `AutomationControl.AppliedAtItsVersion` | internal/autonomous/automation_control.go:87-94 | a control is applied only at the version it was sent for, so no write falls between |
| `AutomationControl.RunAutomationControl` | cmd/datawatch/cli_automation.go:597-620 | whatever the daemon answers, the caller's map is left as it was, every posted body is that map with at most the version just read filled in, a second post follows exactly a version mismatch, and success is exactly an accepted last post |
| `AutomationControl.CallIsItsClient` | cmd/datawatch/cli_automation.go:597-620 | however it was interleaved with other writers and struck by faults, a finished call has posted and reported exactly what its client does with the answers the call saw |
| `AutomationControl.StepKeepsInv` | cmd/datawatch/cli_automation.go:574-584 | every request, reply or loss keeps each call's record consistent with the store's log |
| `AutomationOutcomes.ImplicitCall` | cmd/datawatch/cli_automation.go:601-619 | a call without a version whose requests all get through, among any actions of others: it is applied and succeeds if nothing is applied between its read and its post; else it is refused, reads again, and is applied and succeeds exactly if nothing is applied between that read and the second post |
| `AutomationOutcomes.ExplicitCall` | cmd/datawatch/cli_automation.go:598-600 | a call with a version posts once, and is applied and succeeds exactly if that is the version its post meets |
| `AutomationOutcomes.PostFates` | cmd/datawatch/cli_automation.go:574-620 | for every fate of the post: a lost reply leaves the control applied and the call failed, and only a version refusal that arrives leads to a second read |
| `AttemptLimit.LatestProgress` | cmd/datawatch/attempt_progress_clock.go:45-51 | the folded time is that of the latest observation with a longer log, another fingerprint, another head or more CPU ticks than the one before it |
| `AttemptLimit.NoProgressYet` | cmd/datawatch/attempt_progress_clock.go:45-51 | without any such observation it is the attempt start |
| `AttemptLimit.ObservedTwice` | cmd/datawatch/attempt_limit_watch.go:84-90 | observing every observation twice leaves the progress time of the run as it is |
| `AttemptLimit.Watcher.Check` | cmd/datawatch/attempt_limit_watch.go:84-101 | over any run of checks the clock reflects one observation per check although each is observed twice; it stops exactly when the time since the start exceeds a positive maximum, reported first, or the time since the latest progress a positive limit; the session was ended once for every such check, for its reason and in order, and for nothing else; each end had its own snapshot tried before it |
| `AttemptLimit.CheckKeepsRun` | cmd/datawatch/attempt_preserve.go:24-35 | one more check, with the effects of a stop if one is due, keeps these run-level facts |
| `AttemptLimit.StopShape` | cmd/datawatch/attempt_preserve.go:30-68 | a stop with a work directory tries the snapshot first and ends the session exactly once, last, whatever became of the snapshot |
| `AttemptLimit.PreservedExactly` | cmd/datawatch/attempt_preserve.go:37-68 | what a preserved attempt records, each once and in order: the try, the skip list when something was skipped, the ref when there is one, the last two only with a store |
| `WorkDirFingerprint.GitStatusEntries` | cmd/datawatch/attempt_progress_workdir.go:103-127 | the listing's non-scratch records as entries, in sort-key order |
| `WorkDirFingerprint.RecordsExact` | cmd/datawatch/attempt_progress_workdir.go:105-122 | the records are those of exactly the chunks longer than three characters whose path is no scratch file, in order, each with its status, path and the file's size and time or zeros |
| `WorkDirFingerprint.KeyExact` | cmd/datawatch/attempt_progress_workdir.go:129-135 | the sort key is what stands before the first unit separator, or the whole text |
| `ScratchPaths.ScratchExact` | cmd/datawatch/attempt_progress_workdir.go:27-51 | a path is scratch exactly if its last element is CHECKPOINT.md or starts with .decompose-output, or one of its elements is .datawatch, told by the path's text |
| `WorkDirFingerprint.HashedBytes` | cmd/datawatch/attempt_progress_workdir.go:146-157 | the bytes written to the hash are the entries, each closed by a NUL |
| `WorkDirFingerprint.FingerprintExact` | cmd/datawatch/attempt_progress_workdir.go:159-162 | equal hashed bytes come only from equal sets of path, status, size and mtime; for listings with distinct sort keys equal sets give equal bytes |
| `WorkDirFingerprint.OrderIndependentExactly` | cmd/datawatch/attempt_progress_workdir.go:125-135 | every order the sort may leave hashes alike if and only if no two different entries share a sort key |
| `WorkDirFingerprint.EntryUnique` | cmd/datawatch/attempt_progress_workdir.go:139-142 | an entry's text determines path, status, size and mtime, even when the path holds the separator |
| `WorkDirListing.ListingExact` | cmd/datawatch/attempt_progress_workdir.go:97-123 | a status listing, renames included, is read as exactly its items outside the scratch files if and only if no rename source passes for an item |
| `WorkDirListing.ScratchIgnoredExactly` | cmd/datawatch/attempt_progress_workdir.go:31-51 | an item about a scratch file, wherever it stands, leaves no trace if and only if it is no rename whose source passes for an item |
| `WorkDirListing.ScratchSourceLeavesTrace` | cmd/datawatch/attempt_progress_workdir.go:105-115 | a rename of .datawatch/x, wherever to, leaves a record for tawatch/x |
| `WorkDirListing.ListingFingerprint` | cmd/datawatch/attempt_progress_workdir.go:159-162 | for two listings with distinct path keys and skipped rename sources, in any order, the hashed bytes are equal exactly when the sets of path, status, size and mtime outside the scratch files are |
| `WorkDirListing.PlainPathsDistinct` | cmd/datawatch/attempt_progress_workdir.go:129-135 | distinct paths without a unit separator have distinct keys |
| `WorkDirListing.UnitSeparatorOrderMatters` | cmd/datawatch/attempt_progress_workdir.go:125-135 | a concrete listing with distinct paths whose hashed bytes depend on the order the sort leaves |
| `WorkDirListing.RenameSourceOrderMatters` | cmd/datawatch/attempt_progress_workdir.go:105-125 | the same for every rename whose source, three characters in, is another item's path |
| `WorkDirListing.RenameSourceExample` | cmd/datawatch/attempt_progress_workdir.go:105-125 | for example foo changed and ab/foo renamed |
| `WorkDirListing.RecordsOfItem` | cmd/datawatch/attempt_progress_workdir.go:105-120 | an item's chunks are read as its own record, with zeros when the file is gone, and one more when a rename's source passes for an item |
| `WorkDirFingerprint.SplitTerminated` | cmd/datawatch/attempt_progress_workdir.go:105 | a NUL-terminated listing is split into the chunks it was made of |
| `ActiveHours.BuildWindows` | scripts/v10-status.py:251-264 | the windows cover exactly the gaps of at least the threshold between events and the explicit windows |
| `ActiveHours.Merge` | scripts/v10-status.py:266-274 | sorted windows with strict gaps that cover exactly the same instants, each labelled by the window that starts it |
| `ActiveHours.ActiveTime` | scripts/v10-status.py:276-282 | before the floor, the number of instants of the interval that no window covers; hence never negative |
| `ActiveHours.Excluded` | scripts/v10-status.py:284 | the excluded total is the size of the union of the windows |
| `ActiveHours.ActiveAdds` | scripts/v10-status.py:276-282 | active time is additive over adjacent intervals |
| `ActiveHours.Report` | scripts/v10-status.py:251-284 | end to end: active time and excluded total counted directly over the events and the explicit list |
| `TrivyIgnore.Wrap` | scripts/gen_trivyignore.py:80-91 | all words in order, every line within the width unless a single word, and no breaking that fits has fewer lines; splitting the joined lines gives back the text's words |
| `TrivyIgnore.GreedyStep` | scripts/gen_trivyignore.py:83-88 | the greedy choice keeps the line count, and then the last line's width, minimal over all breakings |
| `TrivyIgnore.Group` | scripts/gen_trivyignore.py:49-55 | groups concatenate to the entries, share one key each, and neighbours differ |
| `RiskRemoval.ParseEntries` | scripts/apply_stale_risk_removal.py:32-56 | header and blocks put back together are the file; blocks start at their entry line and hold no other |
| `RiskRemoval.RemoveStale` | scripts/apply_stale_risk_removal.py:68-91 | the file is written exactly when an id matches, and then holds the lines of header and surviving entries in order, trailing blanks trimmed |
| `RiskRemoval.RemovalsCompose` | scripts/apply_stale_risk_removal.py:79-91 | removing one id set and then another gives the lines of removing both at once |
| `RiskRemoval.RunsCompose` | scripts/apply_stale_risk_removal.py:72-94 | the same for two runs of the script on the file's text, byte for byte |
| `RiskRemoval.ReadBack` | scripts/apply_stale_risk_removal.py:72-94 | lines written with newlines are read back unchanged |
| `RiskRemoval.EntryLine` | scripts/apply_stale_risk_removal.py:29 | an entry line of any of the four kinds yields exactly its id, whatever white space surrounds its parts |
| `RiskRemovalLaws.EntryIdExact` | scripts/apply_stale_risk_removal.py:29 | a line is taken for an entry with an id exactly if it is a dash, id:, one of the four kinds, a slash and the id, with any white space around these parts and nothing else |
| `RiskRemovalLaws.RemovedExact` | scripts/apply_stale_risk_removal.py:68-91 | a file without an entry to remove stays as it is; any other keeps in order exactly the lines that belong to no such entry, up to the last of them that is not blank, and then has one empty line |
| `PlanTables.FindTables` | scripts/plans_registry_hygiene.py:175-190 | the scan finds exactly the tables of the file, each with its line index |
| `PlanTables.RenderParse` | scripts/plans_registry_hygiene.py:175-190 | plain lines and tables put back together are the file |
| `PlanDedupe.ParseUnique` | scripts/plans_registry_hygiene.py:175-190 | the segments found are the one way to cut the file into plain lines and tables so that each reads as itself where it stands |
| `PlanTables.ApplyBackwards` | scripts/plans_registry_hygiene.py:170-172 | slice writes applied last table first give exactly the intended file: no write invalidates an earlier index |
| `PlanTables.KeepFresh` | scripts/plans_registry_hygiene.py:330-336 | the rows kept are those whose key is new, and the count is the others |
| `PlanTables.FreshExact` | scripts/plans_registry_hygiene.py:330-336 | the rows kept are exactly those whose key is not among the seen ones and on no earlier row, in order |
| `PlanDedupe.DedupeRows` | scripts/plans_registry_hygiene.py:325-343 | the file becomes the deduped one and the count is exactly the lines removed |
| `PlanDedupe.FirstOccurrenceKept` | scripts/plans_registry_hygiene.py:325-336 | the rows of the result, read back, are exactly the rows of the file that share their key with no earlier row, in order |
| `PlanDedupe.DedupedExact` | scripts/plans_registry_hygiene.py:325-343 | each table keeps, in order, exactly its rows that share their key with no row before them in it or in an earlier table |
| `PlanDedupe.OutsideUnchanged` | scripts/plans_registry_hygiene.py:339-342 | plain lines, headers and separators stay as and where they are |
| `PlanDedupe.DedupeIdempotent` | scripts/plans_registry_hygiene.py:325-343 | running dedupe on its own result changes nothing |
| `PlanMerge.MergeClosedTables` | scripts/plans_registry_hygiene.py:298-319 | the first closed table gains the new rows of the later ones, which are deleted; rows appended plus rows counted as dropped equal the rows deleted |
| `PlanMergeLaws.MergedExact` | scripts/plans_registry_hygiene.py:298-319 | segments before the first closed table stay; it keeps its header, separator and rows and gains exactly the later closed rows whose key is on none of its rows and on no closed row between; of the segments after it exactly the closed tables go; the counts are counts of these rows |
| `PlanMergeLaws.NothingMerged` | scripts/plans_registry_hygiene.py:300-302 | without a closed table nothing changes |
| `PlanReadBack.MergedReadBack` | scripts/plans_registry_hygiene.py:315-319 | the merged file is read back as the merged segments if and only if no closed table after the first is deleted from between a row line outside the tables and a separator |
| `PlanReadBack.KeysReadBack` | scripts/plans_registry_hygiene.py:304-314 | read back without such joints, the file has exactly the row keys it had, and exactly the rows counted as dropped are gone |
| `PlanReadBack.JointAddsRow` | scripts/plans_registry_hygiene.py:315-319 | for every file of that shape with two closed tables, the line after the separator has become a row |
| `PlanReadBack.JointExample` | scripts/plans_registry_hygiene.py:315-319 | a concrete file that has one more row key when read back |
| `PlanCleanup.CollapseBlankRuns` | scripts/plans_registry_hygiene.py:116-126 | no two blank lines in a row are left, every other line stays in order, and a file without blank runs is unchanged |
| `PlanCleanup.CollapsedExact` | scripts/plans_registry_hygiene.py:116-126 | exactly the blank lines that follow a blank line go |
| `PlanCleanup.RemoveEmptySections` | scripts/plans_registry_hygiene.py:275-295 | exactly the headings over nothing and their blanks go, and the count is the number of those headings |
| `PlanCleanup.WithoutExact` | scripts/plans_registry_hygiene.py:294 | what is left is exactly the lines that are not dropped, in order |
| `PlanReadBack.SectionsKeepRows` | scripts/plans_registry_hygiene.py:275-295 | dropping empty sections leaves the rows of the file, read back, as they were |
| `PlanReadBack.BlanksKeepRows` | scripts/plans_registry_hygiene.py:116-126 | so does collapsing blank runs |
| `PlanReadBack.MergeStep` | scripts/plans_registry_hygiene.py:298-322 | merge and clean-up keep every content line of the merged file in order; the rows read back are those of the merged file, and without joints their keys are those of the file before |

## Left out

- Grants, pools and waiting order of the capacity ledger, the autonomous manager, the session manager and the budget ledger: the models use only what their call sites rely on.
- Command construction, REST proxying, printing, reports, prompt builders and help text: I/O plumbing.
- HTTP, TLS, the MCP SDK, tmux, git, `/proc` and SHA-256: foreign calls, represented by their possible outcomes.
- `restoreAttemptWorkBeforeSpawn`: capture before restore is the order of two statements.
- `parseProcStatCPUTicks` and reading `/proc`: readings are inputs of the walk.
- `walkFingerprint`, the bounded walk used outside git: its order and cap come from the directory walker.
- Regular expressions for row keys, separators, table status and headings in the plans registry: parameters of the model; the results hold for every choice, those about the clean-up for every choice in which blank lines and headings are neither rows nor separators, as in the script.
- `collapse_duplicate_sections`, `trim_closed_rows` and `correct_stale_rows`: text rewriting without a general guarantee to state.
- Criteria other than C5 and C12, and the mapping of plan ids to keys: single-expression facts.
- Saturation of Go durations and Python's recursion limit: integers and recursion are unbounded.
- Messages that `/permission` forwards, and the relative order of buffered and directly sent messages: the bridge promises neither.
- Carriage returns in the accepted-risks file: lines end in newlines only.
- PlacementSignature.SameSignatureSamePlacement: one direction only; a registry that breaks the delimiter condition may or may not share its signature with another, depending on that other registry.
- VerifyTier.LiveDiffersOnlyInFlight: one process at a time and no other writer of the config, as the driver assumes; the wrapper's signal traps are not modelled.
- Replan.StaleOnlyAfterReturn: reading the signature, and resolving one waiter's placement, each see one world; in the code an edit of a node can fall between two reads of its registry.
