# NetLatencyMonitor: a model in Dafny

NetLatencyMonitor's agents probe each other over TCP, spool every probe cycle in
a local SQLite database, and post the spooled batches to a controller, which
stores each batch once. This project models that store-and-forward protocol and
the state machines beside it, and proves what they promise over all runs.

| file | what it models |
|---|---|
| `Clock.dfy`, `Wire.dfy` | time, and the values that travel between agent and controller |
| `Backoff.dfy` | the retry window, with wrapping int64 arithmetic |
| `SpoolTable.dfy`, `Spool.dfy` | the spool tables and the class around them: enqueue, drain, retention |
| `Client.dfy`, `TargetCache.dfy` | the sender's reading of a status, and the cache of the target list |
| `Results.dfy`, `DropsMetric.dfy`, `Service.dfy` | validation, the storing transaction and the counters of the controller, and what it serves between two answers |
| `Protocol.dfy` | the protocol, one SQL statement or message per step |
| `ProtocolSafety.dfy`, `ProtocolCounts.dfy`, `ProtocolSpacing.dfy` | no loss and exactly-once storage, conservation, spacing of attempts |
| `DrainRefinement.dfy`, `CycleRefinement.dfy` | calls of `Drain`, whole cycles and sequences of cycles are runs of the protocol |
| `Spoke.dfy` | the probe cycle and what payloads report about the spool |
| `Nodes.dfy`, `Admin.dfy`, `Coherence.dfy`, `Staleness.dfy` | the node registry, its version, and the coherence and age of the agents' caches |
| `Tickets.dfy`, `RateLimiter.dfy`, `LimiterWindow.dfy`, `RollingWindow.dfy`, `WsGate.dfy`, `GateRuns.dfy`, `GateBound.dfy` | WebSocket tickets and the limiter that guards them |
| `Litestream.dfy` | the replication gate behind readiness |

## How it is modelled

Objects that the Go code updates in place are classes; SQL tables are maps or
sequences held in a field, with the UNIQUE, AUTOINCREMENT, CHECK and foreign-key
rules written out. What the world decides (clock readings, random values, replies,
failing statements, the footprint on disk) is a parameter of the method, often a
function from row or round to answer, so contracts hold for every behaviour of the
world. Each method is proved against functions and predicates over values; the
theorems about whole runs use the same functions.

`Protocol` has one agent, any number of drainers on its spool, and all other nodes
as an environment that sends what it likes. Requests may be lost, delayed beyond
the sender's timeout or delivered twice, replies may be lost, a drainer may stop
between any two statements, and the controller may restart. `DrainIsAPath` and
`CyclesAreARun` tie this machine to the imperative `Drain` and to sequences of
cycles. There the controller is given, not chosen: for every send, `Exchange` holds
the requests of all nodes that it served meanwhile, each with an answer that
`HandleResults` gives on the table it finds, and the response that the sender saw.
The outcome is the sender's reading of that response, an accepted response is the
handler's answer to this request, and statements run in the order of the clock.

Assumptions: run ids are fresh (`ReusedRunIdMixes` shows what happens otherwise);
ticket values are fresh; clocks do not run backwards; 2xx and 409 come only from
the results handler; a failing SQL statement has no effect. Rows with equal
`enqueued_at` may be taken in any order.

## Where the code does not do what its comments say

- The limiter is documented as a rolling window. It is a tumbling one: it blocks
  only when a rolling window would (`BlocksOnlyIfRolling`), but it is a rolling
  window on all traces if and only if the limit is 1, or the limit is 2 and the
  block is longer than the window (`RollingIff`); the default of 10 in 60 s with a
  block of 60 s is neither. Up to 2·limit − 3 failures can pass within a window
  unblocked (`QuietStretch`), and for every limit of 3 or more they do
  (`RollingWindowMissed`).
- The gate is documented to answer 429 after `limit` failures. Requests that have
  asked the limiter before the block is entered are still judged, however many they
  are (`OverlapUnbounded`); `RefusalsBounded` bounds refusals by the number of
  requests in flight.
- `Backoff` is documented as min(2^attempts · base, max). With a zero or negative
  base that fails; `Backoff.Compute` states exactly when it holds. The
  configuration loader only admits a positive base.
- `Healthy` is documented as "the last sync happened within maxLag". Syncs are
  dated by the scan that finds them, so a sync can be older. `BoundedOptimism`
  bounds by how much, and `TruthfulIff` says for which age the gate does vouch.
- `HubTargetsFor` reads list and version in two statements. `TornReadSticks` shows
  that a hub added in between leaves the agent with a wrong list until exactly
  another version is echoed or the maximum age has passed; `TornIff` says which
  operations do it, and `StalenessBounded` how old a returned list can be. A bump of
  the version that fails is ignored; `LostBumpIff` says when that makes the version
  unsound as a cache key.
- The spacing of attempts is guaranteed when a row is due as it stands when it is
  sent (`SpacingWhileDue`), which a single drainer ensures; `TwoDrainersBreakSpacing`
  gives the run with two.
- The drops counter is at least every report, and equals the last one only if
  reports never decrease (`CounterBounds`); late delivery after backoff is a
  decrease. It is documented to survive restarts of the controller, which it does
  only as `RestartKeepsIff` says.

## Model

| member | source | states |
|---|---|---|
| `Backoff.Compute` | internal/spool/backoff.go:9-26 | the wrapping loop equals min(2^attempts · base, max) if and only if base > 0, attempts ≤ 0, or the product is already at the cap; never above max; a base that is zero, or negative without overflow, jumps to max |
| `Backoff.WindowMonotone` | internal/spool/backoff.go:5-8 | the window never shrinks with more failures and never exceeds the cap |
| `Clock.ToSecond` | internal/spool/migrations/0001_init.up.sql:3-3 | what CURRENT_TIMESTAMP keeps of an instant: the whole second it lies in |
| `Spool.SelectOldest` | internal/spool/spool.go:264-268 | the batch is the oldest rows in `enqueued_at` order up to the limit, ties in any order; no row left out is older |
| `SpoolTable.OldestFirstIsPrefix` | internal/spool/spool.go:382-384 | taking the oldest row repeatedly takes distinct rows in order, none younger than what is left |
| `Spool.Spool.Enqueue` | internal/spool/spool.go:105-122 | which result for which input; exactly one fresh row is added, untried and dated by its second, or nothing |
| `Spool.Spool.OldestAge` | internal/spool/spool.go:135-150 | 0 when empty, else the age of an oldest row, which no row exceeds |
| `Spool.Spool.SaveDrainSnapshot` | internal/spool/spool.go:191-208 | which of the three values are saved when the updates stop half way |
| `Spool.Spool.IsDue` | internal/spool/spool.go:294-304 | due iff never tried, or last attempt + min(2^attempts · base, max) ≤ now |
| `Spool.Spool.SendBatch` | internal/spool/spool.go:287-326 | due rows are sent once each in order up to the first row that stops the loop; accepted rows are gone, failed rows gain one attempt, all others are untouched; the counters count exactly that |
| `Spool.Spool.EnforceRetention` | internal/spool/spool.go:356-401 | terminates whatever the footprint; victims go oldest first, each because a bound was exceeded; ends empty or within bounds; the counter follows, one behind after a failed update |
| `Spool.Spool.Drain` | internal/spool/spool.go:251-334 | selection, send loop and retention together, with the early returns of a failed selection, a done context, a time that does not parse, an unknown outcome and failing statements |
| `Spool.SentOnceInOrder` | internal/spool/spool.go:289-306 | exactly the due rows of the batch are sent, once each, in `enqueued_at` order |
| `Spool.DrainAccounts` | internal/spool/spool.go:238-246 | considered = skipped + accepted + permanent + transient, each the number of sent rows with that answer; depth and drops_total change by exactly accepted and dropped; at most the batch after an early return |
| `Spool.DrainRowByRow` | internal/spool/spool.go:248-250 | for each row, wherever the loop ends: deleted iff reached, with its window elapsed, and accepted; if it failed, one more attempt, its second and its error, all else kept; otherwise untouched |
| `Spool.SentIffElapsed` | internal/spool/spool.go:294-306 | a row that the drain gets to is passed over iff it was tried and now is before the last attempt + min(2^attempts · base, max) |
| `Spool.LoopEndsIff` | internal/spool/spool.go:289-326 | the loop ends at the first row where it is aborted, gets an unknown outcome or cannot record an answer, and at no other; a refusal does not end it |
| `Spool.BackoffBlocksTheQueue` | internal/spool/spool.go:264-304 | when the whole batch is in backoff no row is sent and nothing changes before retention, even if later rows are due |
| `Spool.RetentionByAge` | internal/spool/spool.go:353-378 | if size never matters, every victim was over MaxAge when dropped and no survivor is |
| `Spool.RetentionExact` | internal/spool/spool.go:353-378 | each victim was dropped because of the footprint or its own age; a complete retention leaves the spool empty or within both bounds |
| `Spool.DrainEnforcesBounds` | internal/spool/spool.go:328-333 | so does a drain that completes; one that ends early drops nothing |
| `Spool.DrainKeepsValid` | internal/spool/migrations/0001_init.up.sql:1-9 | a drain keeps run ids unique and ids below the sequence |
| `Client.OutcomeOf` | internal/agent/client.go:92-107 | accepted iff 2xx or 409; permanent iff another 4xx |
| `TargetCache.Send` | internal/agent/client.go:70-125 | the outcome of every response, network error and bad request, and that exactly accepted responses with a version reach the cache |
| `Results.ValidateResultsRequest` | internal/controller/results.go:219-254 | no error iff every field passes; which header error for which header; otherwise the first bad observation and its first defect, and what that defect means |
| `Results.ValidBatchFresh` | internal/controller/results.go:167-172 | a validated batch never collides with itself: it is refused iff one of its keys is stored |
| `Results.FreshKeepsUnique` | internal/controller/migrations/0001_init.up.sql:26-26 | storing a fresh batch keeps keys unique |
| `Results.Server.PersistResults` | internal/controller/results.go:173-217 | the whole batch is stored or nothing; 201 iff no key collides, 409 iff one does; each new row has the target, latency, error and second of its observation |
| `Results.ReadBack` | internal/controller/results.go:186-203 | the rows of a batch read back as exactly its observations |
| `Results.Server.CountResults` | internal/controller/results.go:100-117 | the drops delta and the results counter |
| `Results.Server.HandleResults` | internal/controller/results.go:50-142 | who gets which status, 401 iff not authenticated, and that the table grows by the batch exactly on 201 (`Handles`), the results counter by as much; the version is echoed on 201 and 409 only |
| `DropsMetric.CounterIdentity` | internal/controller/results.go:100-112 | for each node and any interleaving: counter = last report + sum of all decreases |
| `DropsMetric.CounterBounds` | internal/controller/results.go:100-112 | the counter is at least every report, and equals the last iff reports never decreased |
| `DropsMetric.CounterMonotone` | internal/controller/results.go:105-112 | no report to one controller process lowers any counter |
| `DropsMetric.RestartKeepsIff` | internal/controller/results.go:100-102 | after a restart the counter is not below the old one iff the first report makes up for the last report and all decreases before it |
| `ProtocolSafety.NoLoss` | internal/spool/spool.go:289-334 | at every point of every run each enqueued run is spooled with its payload, or its whole batch is stored, or retention took it; a row deleted on an accepted answer has its whole batch stored |
| `ProtocolSafety.ExactlyOnce` | internal/controller/results.go:173-217 | no key is stored twice; of each run the controller holds nothing or exactly its one batch |
| `ProtocolSafety.StoredObservations` | internal/controller/results.go:186-203 | in every run, what the controller holds of a run reads back as the observations enqueued, with target, latency, error and second |
| `ProtocolSafety.RowOrigin` | internal/spool/migrations/0001_init.up.sql:1-9 | in every run, a spooled row is one that was enqueued, with its payload and the second of its enqueue; failures never move it in the queue |
| `ProtocolSafety.AcceptedMeansStored` | internal/controller/results.go:41-49 | after a transaction that answers 201 or 409 the whole batch is stored from then on |
| `ProtocolSafety.CollisionMeansStored` | internal/controller/results.go:204-208 | a batch collides iff its run is already stored, and then wholly |
| `ProtocolSafety.ReusedRunIdMixes` | internal/controller/results.go:170-172 | two batches under one run id both get 201 iff their targets are disjoint, and then mix; otherwise the second gets 409 and is not stored, unless it is the first over again |
| `ProtocolCounts.DropConservation` | internal/spool/spool.go:380-399 | enqueued = depth + delivered + dropped; drops_total + drains between the DELETE and the counter UPDATE + drains interrupted there = dropped |
| `ProtocolCounts.BalancedIff` | internal/spool/spool.go:353-355 | enqueued = depth + delivered + drops_total iff no drain is, or was interrupted, between the two statements |
| `ProtocolCounts.ResultsCounter` | internal/controller/results.go:114-116 | ProbeResultsTotal is the number of rows this process stored, less those of unfinished handlers |
| `ProtocolSpacing.SpacingWhileDue` | internal/spool/spool.go:289-306 | with any number of drainers, a send of a row that is due as it now stands, with k failures, starts later than the k-th plus Backoff(k) less one second |
| `ProtocolSpacing.AttemptSpacing` | internal/spool/spool.go:289-306 | with one drainer, that holds of every send |
| `ProtocolSpacing.SkippedOnlyInBackoff` | internal/spool/spool.go:294-304 | with any number of drainers, a row is passed over only before some recorded failure, the k-th, + min(2^k · base, max); an untried row never is |
| `ProtocolSpacing.SkippedOnlyWhileWaiting` | internal/spool/spool.go:294-304 | with one drainer, that failure is the latest one |
| `ProtocolSpacing.RecordedFailuresSpan` | internal/spool/spool.go:336-346 | K recorded failures span more than the first K − 1 windows, each less one second |
| `ProtocolSpacing.TwoDrainersBreakSpacing` | deploy/terraform/outputs.tf:31-32 | with two drainers a row is sent again in the instant its failure is recorded |
| `DrainRefinement.DrainIsAPath` | internal/spool/spool.go:251-334 | every outcome of `Drain`, with whatever the controller serves meanwhile, is reached by protocol steps: the same database, the same results table, the same drops, the other drainers untouched |
| `DrainRefinement.DrainLosesNothing` | internal/spool/spool.go:251-334 | after any call of `Drain` in any reachable state, each run is in the spool it leaves, or wholly in the table that the controller's own answers leave, or dropped before or as a victim of this call |
| `CycleRefinement.CycleIsAPath` | internal/agent/spoke.go:82-162 | a whole cycle (enqueue, drain, snapshot updates), whatever fails in it and whatever the controller serves, is a sequence of protocol steps |
| `CycleRefinement.CyclesAreARun` | internal/agent/spoke.go:82-162 | every sequence of cycles with fresh run ids, against any controller, is a run of the protocol that ends with the same spool, the same results table and the same drops |
| `CycleRefinement.CyclesLoseNothing` | internal/agent/spoke.go:78-162 | over every such sequence each payload ever spooled carries its cycle's observations, and is in the spool, or wholly in the table that the controller's answers leave, observation by observation, or taken by the retention of one of the cycles |
| `CycleRefinement.CyclesStoreOnce` | internal/controller/results.go:173-217 | over every such sequence that table holds no key twice, and of each run nothing or exactly the observations of the cycle that spooled it |
| `Spoke.Spoke.Run` | internal/agent/spoke.go:82-162 | the cycle: its error returns, the payload with the cycle's observations and their time, its run id and the saved snapshot, the drain, and what is saved afterwards |
| `Spoke.CycleEnds` | internal/agent/spoke.go:82-134 | which end for which input, and when a payload with the observations is made; a duplicate run id does not stop the cycle |
| `Spoke.Spoke.SaveSnapshot` | internal/agent/spoke.go:142-148 | depth, age and drops as saved, with failing reads as zeros |
| `Spoke.PayloadReportsLatestDrain` | internal/agent/spoke.go:99-115 | each payload carries depth, age in whole seconds and drops as the latest completed cycle left them |
| `Spoke.ReportedDropsGrow` | internal/agent/spoke.go:99-115 | reported drop counts never decrease in creation order, also when other reads fail and snapshots are half saved |
| `Spoke.SavedDropsNeverExceed` | internal/agent/spoke.go:142-148 | the saved drop count never exceeds drops_total, also with failing reads and partial saves |
| `Nodes.NodeStore.Upsert` | internal/controller/nodes.go:197-230 | the new registry and version, the refused role, and the bump whose failure is ignored |
| `Nodes.NodeStore.Delete` | internal/controller/nodes.go:102-122 | the new registry and version, the unknown node, the foreign key, and the bump whose failure is ignored |
| `Nodes.NodeStore.HubTargetsFor` | internal/controller/nodes.go:138-170 | exactly the enabled hubs with an address, other than the caller, with the version |
| `Nodes.HubSetChangedIff` | internal/controller/nodes.go:232-245 | a change is reported iff the active map changes |
| `Nodes.DeleteChangesIff` | internal/controller/nodes.go:118-120 | deleting changes the active map iff the node was active |
| `Nodes.BumpIff` | internal/controller/nodes.go:172-181 | one bump iff the active map changes or an enabled hub without address is deleted |
| `Nodes.LostBumpIff` | internal/controller/nodes.go:226-228 | a bump that fails leaves the version a sound key iff none was due or it was spurious |
| `Nodes.SoundCacheKey` | internal/controller/nodes.go:124-170 | states with equal versions give every node the same targets, over any operations |
| `Admin.ValidateAdminNodeFields` | internal/controller/admin.go:219-232 | which fields are admitted |
| `Admin.HandleCreate` | internal/controller/admin.go:100-148 | status and new registry: the node as given, if it is new and admitted |
| `Admin.HandlePatch` | internal/controller/admin.go:150-199 | status and new registry: each field of the node has the patch's value where one is given and its old value elsewhere, and no other node changes |
| `Admin.PatchSets` | internal/controller/admin.go:174-197 | a patch is carried out iff the role and address it leads to are admitted, and then sets exactly the given fields |
| `Admin.DisablingRemoves` | internal/controller/admin.go:181-183 | disabling an active hub removes exactly it from every node's targets and bumps the version once |
| `Admin.EnablingRestores` | internal/controller/admin.go:181-183 | enabling it again restores the registry, two versions later |
| `Admin.HandleDelete` | internal/controller/admin.go:201-217 | status and new registry: without the node, exactly on 204 |
| `Admin.HandleUiCreate` | internal/controller/ui.go:104-135 | the form overwrites, enabled |
| `Admin.HandleSetDisabled` | internal/controller/ui.go:154-167 | only the flag changes |
| `Admin.HandleKeeps` | internal/controller/admin.go:228-230 | every hub keeps a non-empty address |
| `Admin.ActiveHubsAgree` | internal/controller/probe_matrix.go:18-24 | matrix axes, Delete's bump test and the target query agree on active hubs |
| `Admin.ExactBumps` | internal/controller/admin.go:100-232 | version − 1 is the number of requests that changed the active map |
| `TargetCache.TargetCache.Targets` | internal/agent/targets.go:85-111 | when it refreshes, what it returns and caches, and the stale list on error |
| `Coherence.CacheCoherent` | internal/agent/targets.go:69-111 | known ≤ noticed ≤ current version; a list returned without error is the true list of its version, no older than the last echo |
| `Coherence.TruthIsHistory` | internal/controller/nodes.go:138-170 | the list of a version is the one that was current under it |
| `Coherence.Convergence` | internal/controller/results.go:131-141 | after changes stop, one served and received post makes every later successful call return the true list |
| `Coherence.TornReadSticks` | internal/controller/nodes.go:138-170 | a hub added between the two reads leaves a wrong list until exactly another version is echoed or the maximum age has passed |
| `Coherence.TornIff` | internal/controller/nodes.go:138-170 | over any operations between the reads: if the lists differ, the version was bumped and some operation changed the map at another node (that lists differ iff an address does is only their extensionality) |
| `Coherence.TornByOneIff` | internal/controller/nodes.go:138-170 | with one operation in between they disagree iff it changes the active map at another node |
| `Staleness.StalenessBounded` | internal/agent/targets.go:85-111 | with a maximum age, a returned list was received less than that ago and read at most one fetch earlier, also with torn reads, lost bumps and no echoes |
| `Tickets.Store.Issue` | internal/ticket/store.go:68-88 | results and the new table |
| `Tickets.Store.Validate` | internal/ticket/store.go:92-104 | unknown iff not in the table, expired iff past its time, else valid for its node; and the ticket is gone |
| `Tickets.Store.Prune` | internal/ticket/store.go:107-119 | exactly the expired tickets go, and are counted |
| `Tickets.SingleUse` | internal/ticket/store.go:90-91 | over a whole run no ticket validates twice |
| `Tickets.ValidMeansIssued` | internal/ticket/store.go:67-104 | a valid ticket was issued, is in its lifetime, and yields its node |
| `Tickets.ValidIff` | internal/ticket/store.go:90-104 | a ticket is accepted, for the node it was issued to, iff it is in its lifetime and was not presented before, whatever prunes run |
| `Tickets.VerdictIff` | internal/ticket/store.go:92-104 | valid, expired or unknown, exactly by what was issued, presented and pruned, under any clock |
| `Tickets.TicketsAccounted` | internal/ticket/store.go:45-119 | issued = live + used + consumed when expired + pruned |
| `Tickets.PruneInvisible` | internal/ticket/store.go:106-119 | prunes anywhere change no verdict, except expired to unknown |
| `RateLimiter.RateLimiter.RecordFailure` | internal/ticket/ratelimit.go:72-99 | the new entry, and whether a block is entered |
| `RateLimiter.RateLimiter.PruneExpired` | internal/ticket/ratelimit.go:103-115 | exactly the stale entries go, and are counted |
| `RateLimiter.PruneInvisible` | internal/ticket/ratelimit.go:101-115 | prunes anywhere change no answer |
| `LimiterWindow.BlockIsDeserved` | internal/ticket/ratelimit.go:87-97 | a block is entered only if the last `limit` counted failures lie in the last window |
| `LimiterWindow.QuietStretch` | internal/ticket/ratelimit.go:72-99 | failures within one window that enter no block number at most 2·limit − 3 (limit − 1 for limits up to 2), so at most 2·(limit − 1) |
| `LimiterWindow.RollingWindowMissed` | internal/ticket/ratelimit.go:16-21 | that many do pass, for every limit of 3 or more |
| `LimiterWindow.CountedInWindow` | internal/ticket/ratelimit.go:72-99 | blocks included, at most 2·limit − 2 + window/block failures are counted in any window (window/block + 1 for limit 1) |
| `LimiterWindow.EveryLogHappens` | internal/ticket/ratelimit.go:72-99 | the shape of a log is exact: every log of that shape is the log of some trace |
| `LimiterWindow.CountedAtMostReached` | internal/ticket/ratelimit.go:72-99 | for every configuration some trace counts exactly that many failures in one window |
| `RollingWindow.BlocksOnlyIfRolling` | internal/ticket/ratelimit.go:87-97 | for every configuration the code enters a block only when a rolling window would |
| `RollingWindow.RollingIff` | internal/ticket/ratelimit.go:16-21 | the limiter answers like a rolling window on all traces iff limit = 1, or limit = 2 and block > window |
| `LimiterWindow.BlockLasts` | internal/ticket/ratelimit.go:18-19 | once entered, a block holds for its whole duration, whatever happens in between |
| `LimiterWindow.BlockedIff` | internal/ticket/ratelimit.go:59-67 | an address is blocked iff one of its counted failures entered a block less than the block's duration ago |
| `WsGate.Gate.HandleWs` | internal/controller/ws.go:60-84 | a blocked address gets 429 and leaves the tickets alone; otherwise a live ticket upgrades its node and any other gets 401 with its reason; the ticket is consumed, and only a refusal counts |
| `WsGate.Gate.RejectAndCount` | internal/controller/ws.go:186-191 | a refusal records one failure |
| `GateRuns.RefusalsAreCounted` | internal/controller/ws.go:60-84 | over every interleaving of requests the limiter counts exactly the refused tickets that find no block |
| `GateRuns.UncountedIsOvertaken` | internal/controller/ws.go:60-84 | a refusal that is not counted falls into a block entered after its request had asked |
| `GateRuns.ServedInThreeCalls` | internal/controller/ws.go:60-84 | the three calls of one request, uninterrupted, do what `HandleWs` does |
| `GateBound.RefusalsBounded` | internal/controller/ws.go:60-84 | over every interleaving with at most m + 1 requests of an address in flight, at most the counted bound + m·(window/block + 2) of its tickets are judged and refused in any window |
| `GateBound.OverlapUnbounded` | internal/controller/ws.go:60-84 | for every configuration and every n, n overlapping requests of one address are all judged and refused at one instant |
| `Litestream.Tracker.Healthy` | internal/litestream/litestream.go:97-107 | active, and a sync recorded within maxLag |
| `Litestream.HealthyIff` | internal/litestream/litestream.go:92-107 | over any polls: healthy iff the last poll found the unit active and some poll scanned a sync at most maxLag ago |
| `Litestream.Watcher.DoPoll` | internal/litestream/watcher.go:97-127 | the scan window, and what a scan does to the tracker |
| `Litestream.ScanCountsErrors` | internal/litestream/watcher.go:132-150 | a scan counts exactly its error lines |
| `Litestream.BoundedOptimism` | internal/litestream/watcher.go:97-150 | when healthy, some sync was written less than maxLag + max(lookback, gap) + scan + 1 s ago |
| `Litestream.TruthfulIff` | internal/litestream/litestream.go:92-107 | asked with lag m, the gate vouches for a sync at most maxLag old in all plausible runs iff m + max(lookback, gap) + scan + 1 s − 1 ns ≤ maxLag |
| `Litestream.LastSyncMonotone` | internal/litestream/litestream.go:54-56 | further polls never move the last sync time back |

## Left out

- SQLite itself, migrations and the parsing of stored times: tables are values and times are integers.
- HTTP transport, JSON text, TLS and redirects: a body is the value it decodes to, a reply its status and echoed version.
- TCP probing, the listener, and the hub's ticker and jitter: observations are given, and a run is any sequence of cycles.
- The web UI apart from its node forms, WebSocket pumps, the broadcast hub and origin checks.
- Hashing of secrets and bearer parsing: authentication is a given node id, and secrets are their hashes.
- The Prometheus registry apart from the drops and results counters, the per-node spool gauges, logging, chrony, configuration loading and deployment.
- The latency matrix apart from its choice of axes.
- The keywords by which the watcher classifies journal lines: a line is a sync, an error or neither.
- Power loss and restored databases: processes may stop, committed statements stay.
- Nodes.NodeStore.HubTargetsFor: returns the list as a map from id to address, so it does not state the order by id, which the map determines.
- Spool.Spool.Drain: states what one call does when no other process writes the spool; concurrent drainers are in `Protocol`.
- Interleaving inside limiter and ticket-store calls: they are atomic, as the mutexes of the source make them.
