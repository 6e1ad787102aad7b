# A model of Alon Sentinel's monitoring core

Alon Sentinel watches sites: a pool of workers claims the monitors that are due, checks each of
them, and saves the outcome together with the incident and the notifications that follow from it;
other workers deliver the notifications. This project models that core in Dafny and proves what it
promises, over every run where a run is involved.

| file | models |
|---|---|
| `MonitorStore`, `ClaimProtocol`, `ClaimTheorems`, `ClaimIncidents`, `ClaimLeases`, `ClaimEvents`, `ClaimLifecycle`, `MonitorDatabase` | the rows that workers share, the SQL statements on them, the claim protocol as a state machine over single statements, the theorems about its runs, and the worker's database code in place |
| `Leases`, `CheckExecution`, `Retention` | lease arithmetic, the retry loop and the lease that must cover it, batched pruning of history |
| `NotificationDelivery`, `DeliveryWorker` | one queued notification, the workers that try to deliver it, and the send loop |
| `TokenCache`, `TokenCacheTheorems` | the bearer-token LRU and its histories of lock sections |
| `JsonPath`, `HttpVerdict`, `Whitespace`, `Decimal` | the path language of the JSON assertions and the verdict on a response |
| `RateLimiter`, `Pagination`, `WorkerIdentity` | fixed-window limits, keyset pages, worker names |
| `Prelude` | `Option` and `Result` |

## How the protocols are modelled

A run is a sequence of steps, and every theorem about runs quantifies over all sequences. Each SQL
statement is one atomic step. A save is two: the lookup of the open incident, and the rest of its
transaction, whose writes nobody else sees before the commit; the guard on the owner is the last of
them. A heartbeat is a task of its own: it wakes, renews or fails to, and ends, in any order with
the check it belongs to, until the check has told it to stop and joins it. A worker may crash
between any two steps, taking its heartbeats with it, a lease may run out at any time, and incidents
may be closed from outside at any time. Two assumptions are stated as hypotheses: worker names are
unique (`UniquelyNamed`; `WorkerIdentity` says when the names the program builds are), and a worker
claims again only after its batch is over, as its loop does.

## Where the code does something other than expected

- **A delivery marked failed may still be delivered.** `mark_failed` writes the status `failed` even
  when it schedules another attempt
  (`alon_sentinel/src/domain/notification_deliveries/repository.rs:176-207`). From the moment it is
  queued a delivery can be failed and then delivered if and only if more than one attempt is allowed
  (`FailedIsDeliveredExactlyWhen`); `failed` is final exactly when no next attempt is scheduled
  (`FailedIsFinalExactlyWhen`).
- **An incident closed in the middle of a save.** The lookup and the write are separate statements;
  if the incident is closed from outside in between, a committed failure leaves no open incident.
  `CloseDuringSaveLeavesNoIncident` is such a run, `CommitLeaves` the exact condition. The tables of a
  whole run are those of its sequential replay if and only if no save wrote through such a lookup,
  unless it recorded a success nobody hears about (`RunIsSequentialExactlyWhen`). At most one open
  incident, and none over a success, hold regardless.
- **A shared worker name breaks incidents.** `SharedNameBreaksIncidents` is a run with two sessions
  of one name that ends with an open incident over a success.
- **Configured leases of 2^63 seconds and more** turn negative in the cast to the database's integer
  (`HugeLeaseIsNegative`, `GrantCoversPlanExactlyWhen`).
- **Renewals have more slack than one failure.** Two failed renewals in a row are survived, and
  `RenewalsHoldExactlyWhen` shows that three intervals are what this needs.
- **Pruning of the rate limiter shows if instants go backwards.** The instant is sampled before the
  lock is taken, so threads can enter out of order. For given instants, pruning goes unnoticed for all
  limits and keys if and only if no call is older than an earlier pruning call that is itself younger
  than some call before it (`PruningIsNotObservableExactlyWhen`).
- **The path language** accepts more than section 2.5.1 of RFC 9535: a missing `$`, a trailing dot, a
  `$` with or without its dot. `ParsesExactlySpellings` states exactly what it accepts. It also
  reaches less: no path denotes the document itself, an empty key, or a key with a dot or a bracket
  in it; `FindableExactlyWhen` states exactly which parts of a document some path finds.

## Model

| member | source | states |
|---|---|---|
| ClaimProtocol.ManageIncidentEffect | alon_sentinel/src/worker/site_worker.rs:815-884 | a save whose lookup is informed is never refused, touches no other monitor's incidents, leaves none open after a success, and after a failure only the looked-up or the new one, unless the looked-up one was closed meanwhile |
| ClaimProtocol.OwnerSaveCommits | alon_sentinel/migrations/20260429160000_add_site_monitor_incidents.sql:63-65 | in every sound state the unique index on open incidents never refuses the save of a worker that owns its monitor |
| ClaimProtocol.LostClaimSavesNothing | alon_sentinel/src/worker/site_worker.rs:771-776 | a save by a worker that lost the claim rolls back as a whole |
| ClaimProtocol.OwnersPersist | alon_sentinel/src/domain/site_monitors/repository.rs:1048-1093 | whoever owns a monitor after a step that saves nothing claimed it in that step or owned it before with the same snapshot |
| ClaimProtocol.CommitKeepsInv | alon_sentinel/src/worker/site_worker.rs:706-779 | a committing save keeps every invariant, those of all other sessions included |
| ClaimProtocol.StepKeepsInv | alon_sentinel/src/worker/site_worker.rs:238-337 | every step of the protocol keeps: one open incident per monitor at most, none unless its last check failed, and an owner's snapshot equal to the row's outcome |
| ClaimProtocol.RunKeepsInv | alon_sentinel/src/worker/site_worker.rs:238-337 | the same over every interleaving of uniquely named workers |
| ClaimProtocol.EnqueueExtends | alon_sentinel/src/domain/notification_deliveries/repository.rs:20-54 | queueing only appends, and all it appends describes this check, incident and event |
| ClaimTheorems.CommitLeaves | alon_sentinel/src/worker/site_worker.rs:790-884 | after a commit an incident is open if and only if the check failed and nothing closed the looked-up incident before the write |
| ClaimTheorems.ReachableIncidentsSound | alon_sentinel/src/worker/site_worker.rs:815-884 | in every reachable state a monitor has at most one open incident, and none unless its last committed check failed, whatever is closed from outside |
| ClaimTheorems.LookupStillCurrent | alon_sentinel/src/worker/site_worker.rs:820-825 | an owner's snapshot is the row's outcome, and its lookup is what a fresh read would give at the commit, unless the incident it found has been closed from outside |
| ClaimTheorems.StepRefines | alon_sentinel/src/worker/site_worker.rs:706-779 | each step changes outcomes, checks, incidents and deliveries exactly as the entry it commits does, replayed alone, provided it acts sequentially: its lookup is not outdated, or it records a success no channel wants to hear of |
| ClaimTheorems.ConcurrentRefinesSequential | alon_sentinel/src/worker/site_worker.rs:238-337 | for every interleaving of claims, renewals, expiries, crashes and saves in which every save acts sequentially, the tables equal the committed outcomes replayed one at a time |
| ClaimTheorems.RunIsSequentialExactlyWhen | alon_sentinel/src/worker/site_worker.rs:238-337 | the tables of any run equal the replay of its committed outcomes if and only if every one of its saves acted sequentially |
| ClaimTheorems.DivergenceLasts | alon_sentinel/src/worker/site_worker.rs:706-779 | once a save did not, an incident or a recovery of that very check tells tables and replay apart for the rest of the run, while outcomes and checks go on agreeing |
| ClaimTheorems.RunWithoutClosesIsSequential | alon_sentinel/src/worker/site_worker.rs:238-337 | every run from empty tables that closes nothing from outside equals its replay, with no further condition |
| ClaimTheorems.CommitIsSequentialExactlyWhen | alon_sentinel/src/worker/site_worker.rs:815-884 | one save equals the sequential save if and only if its lookup is not outdated, or it records a success that no channel wants to hear of |
| ClaimTheorems.NoCloseNoOutdated | alon_sentinel/src/worker/site_worker.rs:820-825 | in a run that never closes this monitor's incidents from outside, no owner of it ever holds an outdated lookup |
| ClaimEvents.EnqueueOnce | alon_sentinel/src/notifications/service.rs:119-173 | a subscribed channel gets exactly one delivery out of an event, with this check and incident |
| ClaimEvents.EnqueueListed | alon_sentinel/src/domain/notification_channels/repository.rs:30-69 | a listed channel gets one delivery out of an event that its own flags ask for while it is active, and none out of any other |
| ClaimEvents.CommitQueues | alon_sentinel/src/worker/site_worker.rs:746-752 | a save adds to the deliveries of a channel subscribed at it exactly the event that the row's own previous outcome calls for, and nothing about other monitors whoever is subscribed |
| ClaimEvents.EventTypesAlternate | alon_sentinel/src/notifications/service.rs:254-263 | over any run, whoever is subscribed, the events that a monitor's saves call for by their claim-time snapshots strictly alternate, starting with Failure, an odd number of them exactly while the monitor fails |
| ClaimEvents.SubscribersHearEverything | alon_sentinel/src/notifications/service.rs:119-173 | a channel subscribed at a monitor's saves is queued exactly the events they call for, in order |
| ClaimEvents.ChannelsHearWhatTheyWant | alon_sentinel/src/notifications/service.rs:119-173 | over every run a channel is queued exactly those events of a monitor that its flags ask for, failures and recoveries told apart |
| ClaimEvents.EventsAlternate | alon_sentinel/src/notifications/service.rs:254-263 | over any run, outside closes included, what a channel hears about a monitor strictly alternates Failure, Recovery, starting with Failure; it need be subscribed only at that monitor's own saves |
| ClaimEvents.EventsPairWithIncidents | alon_sentinel/src/worker/site_worker.rs:744-752 | if nothing closes a monitor's incidents from outside, each Failure a channel subscribed at its saves hears is queued by the commit that opens an incident, and the next Recovery by the commit that resolves that same incident; other monitors may be closed and unsubscribed at will |
| ClaimLifecycle.StepKeepsClaimsBacked | alon_sentinel/src/worker/site_worker.rs:254-330 | no step but a crash or repository error leaves a claim without a session that will end it |
| ClaimLifecycle.BatchLeavesNoClaim | alon_sentinel/src/worker/site_worker.rs:254-330 | absent errors, once the sessions of a batch are over, saved, cancelled or lost, the worker claims no monitor |
| ClaimLifecycle.NoRenewalAfterClearing | alon_sentinel/src/worker/site_worker.rs:919-970 | over every run, from the step that clears a worker's claim on a monitor until the worker claims it again, no session or heartbeat of the worker issues a renewal for it |
| ClaimLifecycle.ClearingComesAfterJoin | alon_sentinel/src/worker/site_worker.rs:283-330 | a claim is cleared only by a commit or a release, by the worker's own session for the monitor, whose heartbeat has ended and which is then over |
| ClaimLifecycle.StepKeepsHeartsTended | alon_sentinel/src/worker/site_worker.rs:267-293 | no step leaves a heartbeat running without its session, or past the session's join |
| ClaimLifecycle.CloseDuringSaveLeavesNoIncident | alon_sentinel/src/worker/site_worker.rs:820-865 | a run from empty tables after which the last committed check failed and no incident is open |
| ClaimLifecycle.SharedNameBreaksIncidents | alon_sentinel/src/domain/site_monitors/repository.rs:1126-1172 | a run in which at some point two live sessions of one worker name handle the same monitor, and which ends with an open incident over a success |
| ClaimIncidents.CommitWritesIncident | alon_sentinel/src/worker/site_worker.rs:827-884 | in its columns, what a save does to each incident: an open one of its monitor counts the failure or recovers, with this check as its last, and every other stays as it was |
| ClaimIncidents.IncidentsAlwaysTellHistory | alon_sentinel/src/worker/site_worker.rs:815-884 | in every reachable state every incident, open or not, was opened by a failed check, names its last check, and counts exactly the failed checks of its monitor from the first to the last, none of which in between succeeded |
| ClaimIncidents.OpenIncidentCountsFailures | alon_sentinel/src/domain/site_monitor_incidents/repository.rs:110-140 | in every reachable state an open incident names the last check of its monitor and counts all its checks since the incident was opened, all of them failures |
| ClaimIncidents.CommitHandsOnIncident | alon_sentinel/src/worker/site_worker.rs:827-884 | the id handed to the notifications is that of the incident a save leaves open, be it new or another failure of an old one, or that it resolves |
| ClaimIncidents.NothingIsQueuedTwice | alon_sentinel/src/domain/notification_deliveries/repository.rs:20-54 | over every run no channel is queued the same event of one check twice, even if a channel list repeats it |
| ClaimLeases.LeaseKeepsOthersOut | alon_sentinel/src/domain/site_monitors/repository.rs:1064-1072 | while the lease of a claimed row runs, no step gives the row to another worker, and only a save or release by the owner's own session takes the claim off |
| ClaimLeases.OwnsWhileLeaseRuns | alon_sentinel/src/domain/site_monitors/repository.rs:1048-1093 | over every run in which the lease keeps running, the worker owns the monitor until its own session ends the claim |
| ClaimLeases.ClaimsExactlyWhen | alon_sentinel/src/domain/site_monitors/repository.rs:1060-1093 | a claim succeeds if and only if the monitor is active, due by its interval and its lease does not run; it then sets owner and lease, starts a session with the row's outcome, and changes nothing else |
| ClaimLeases.AbandonedClaimsAreRecovered | alon_sentinel/src/domain/site_monitors/repository.rs:1060-1072 | whatever was left behind, time alone makes an active monitor claimable by any worker |
| ClaimLeases.RenewalMovesLease | alon_sentinel/src/domain/site_monitors/repository.rs:1199-1222 | a renewal moves the end of the owner's lease and nothing else; anybody else's changes nothing and ends the heartbeat |
| ClaimLeases.ChecksKeepTheirDistance | alon_sentinel/src/domain/site_monitors/repository.rs:1063-1072 | over every run from empty tables two committed checks of one monitor lie at least its interval apart |
| MonitorStore.FindOpen | alon_sentinel/src/domain/site_monitor_incidents/repository.rs:89-108 | finds an open incident of the monitor, and none only if there is none |
| MonitorStore.OlderChecksComeFirst | alon_sentinel/src/domain/site_monitors/repository.rs:1070-1072 | of two monitors the one never checked, or checked longer ago, is claimed first; the order is total |
| MonitorStore.CloseOpenIncidents | alon_sentinel/src/domain/site_monitor_incidents/repository.rs:179-204 | closes every open incident of the monitor and leaves all others alone |
| MonitorStore.LookupOpenIncident | alon_sentinel/src/worker/site_worker.rs:820-825 | under a failing snapshot it finds an open incident of the monitor if there is one; under any other it finds none |
| MonitorDatabase.Due | alon_sentinel/src/domain/site_monitors/repository.rs:1060-1075 | in columns, which monitors a claim may take: active, due by their interval, their lease unset or over, not locked |
| MonitorDatabase.Database.ClaimSiteMonitorsDueForCheck | alon_sentinel/src/domain/site_monitors/repository.rs:1048-1093 | claims at most the limit, only due and unlocked monitors whose lease does not run, all of them unless the limit is reached, those never checked or checked longest ago first; sets owner and lease in their rows and returns each row's outcome as snapshot; leaves every other row as it was |
| MonitorDatabase.Database.ExtendSiteMonitorClaim | alon_sentinel/src/domain/site_monitors/repository.rs:1199-1222 | moves the end of the lease exactly if the worker owns the row, changes nothing else, and says so |
| MonitorDatabase.Database.ReleaseSiteMonitorClaim | alon_sentinel/src/domain/site_monitors/repository.rs:1174-1197 | clears owner and lease exactly if the worker owns the row, changes nothing else, and says so |
| MonitorDatabase.Database.ManageIncidentLifecycle | alon_sentinel/src/worker/site_worker.rs:815-884 | another failure of an open incident counts it up and makes this check its last, a success resolves it, a failure without one opens one, and the id of that incident is handed on; a refused insert changes nothing |
| MonitorDatabase.Database.EnqueueSiteMonitorNotifications | alon_sentinel/src/notifications/service.rs:119-173 | queues the event for every channel that takes it, skipping duplicates, and counts those channels |
| MonitorDatabase.Database.UpdateSiteMonitorLastCheck | alon_sentinel/src/domain/site_monitors/repository.rs:1126-1172 | records outcome and time and clears owner and lease in one update, exactly if the worker owns the row |
| MonitorDatabase.Database.SaveCheckResult | alon_sentinel/src/worker/site_worker.rs:706-779 | commits check, incident, notifications and row together, or leaves every table as it was |
| MonitorDatabase.Database.ResolveOpenIncidentsForMonitor | alon_sentinel/src/domain/site_monitor_incidents/repository.rs:179-204 | closes exactly the open incidents of the monitor and counts them |
| MonitorDatabase.Database.HeartbeatSiteMonitorClaim | alon_sentinel/src/worker/site_worker.rs:919-970 | makes one renewal for each interval before the first stop or shutdown, survives database errors, stops at the first renewal that finds ownership lost, and never takes or gives up a claim |
| MonitorDatabase.RenewsUntilTheEnd | alon_sentinel/src/worker/site_worker.rs:932-967 | the renewals asked for number the intervals without a database error before the first stop, shutdown or closed channel |
| MonitorDatabase.Database.CheckSiteMonitor | alon_sentinel/src/worker/site_worker.rs:254-330 | without interference, handling one monitor is an initial lease and then a save or a release, whatever the heartbeat did in between |
| MonitorDatabase.Database.CheckSiteMonitors | alon_sentinel/src/worker/site_worker.rs:238-337 | every owned monitor of a batch ends with its outcome recorded, or only its claim cleared if cancelled; the others keep their rows; none stays claimed; incidents stay sound |
| MonitorDatabase.OwnerSaveIsSound | alon_sentinel/src/worker/site_worker.rs:706-779 | an uninterrupted save by the owner commits, writes its own row and no other, and keeps the tables sound |
| MonitorDatabase.BatchOutcome | alon_sentinel/src/worker/site_worker.rs:238-337 | a whole batch writes exactly the rows of its monitors, each with its own outcome, and keeps the tables sound |
| Leases.GrantCoversPlanExactlyWhen | alon_sentinel/src/worker/site_worker.rs:972-977 | the granted whole seconds cover the planned lease, by less than a second more, if and only if the plan is at most 2^63 - 1 seconds; beyond that the grant is negative |
| Leases.RenewalsHoldExactlyWhen | alon_sentinel/src/worker/site_worker.rs:634-645 | a lease outlives every pattern of at most k failed renewals in a row if and only if it was granted for k + 1 intervals |
| CheckExecution.ResolvedPolicyIsValid | alon_sentinel/src/worker/site_worker.rs:587-623 | whatever the nullable overrides hold, the resolved policy has a timeout, an attempt count and delays that are positive |
| CheckExecution.OverridesTakePrecedence | alon_sentinel/src/worker/site_worker.rs:587-623 | a positive override replaces the configured timeout or attempt count, any other is ignored; a delay list without a positive entry leaves the configured delays |
| CheckExecution.PositiveDelaysCount | alon_sentinel/src/worker/site_worker.rs:601-612 | of an overriding delay list exactly the positive entries count, in their order |
| CheckExecution.WorstCaseIsTheWorst | alon_sentinel/src/worker/site_worker.rs:648-678 | the worst-case delay is a possible jitter draw and no draw exceeds it |
| CheckExecution.JitterIsProportional | alon_sentinel/src/worker/site_worker.rs:648-666 | a delay is a possible draw if and only if it is off the base by at most the configured percentage of it |
| CheckExecution.RunMonitorCheckWithRetries | alon_sentinel/src/worker/site_worker.rs:351-554 | 1 to max_attempts attempts, and only one without delays; every earlier one a timeout or connection failure whose wait was slept through; the last one no such failure, or the last allowed, or without delays; the time spent is exactly its attempts and waits; the unreachable end is never reached |
| CheckExecution.DelaysInOrder | alon_sentinel/src/worker/site_worker.rs:573-586 | without jitter the waits are the entries of the delay list in order, and then its last entry again and again |
| CheckExecution.ExecutionIsBounded | alon_sentinel/src/worker/site_worker.rs:351-554 | for every jitter draw and outcome, attempts and back-off take at most the worst check |
| CheckExecution.WorstCheckHappens | alon_sentinel/src/worker/site_worker.rs:625-646 | that bound is met by a possible run |
| CheckExecution.EstimateSaturates | alon_sentinel/src/worker/site_worker.rs:630-633 | the estimated back-off is the exact total, capped at the longest duration |
| CheckExecution.LeaseCoversCheckExactlyWhen | alon_sentinel/src/worker/site_worker.rs:625-646 | the initial lease covers the worst check and the safety buffer if and only if the 32-bit cast and saturation lose nothing that matters, or the configured minimum is long enough |
| CheckExecution.LeaseOfPlan | alon_sentinel/src/worker/site_worker.rs:625-646 | short of cast and saturation the lease is the configured minimum or, if longer, all attempts, all worst delays and half a timeout, at least two seconds |
| CheckExecution.LeaseCoversTheWork | alon_sentinel/src/worker/site_worker.rs:625-646 | for every jitter draw and pattern of outcomes the time of the retry loop plus the safety buffer fits the initial lease |
| CheckExecution.RunWithinLease | alon_sentinel/src/worker/site_worker.rs:238-300 | however a check ends, its time is at most the worst check, and its initial lease outlasts it by the safety buffer whenever the plan fits or the configured minimum is long enough |
| CheckExecution.HeartbeatFloorNeverBinds | alon_sentinel/src/worker/site_worker.rs:634-645 | for every admitted configuration and monitor the one-second floor never binds and three intervals fit the lease |
| CheckExecution.TwoFailedRenewalsAreSurvived | alon_sentinel/src/worker/site_worker.rs:919-970 | two failed renewals in a row never let a monitor lease run out |
| CheckExecution.HugeLeaseIsNegative | alon_sentinel/src/worker/site_worker.rs:972-977 | a configured minimum of 2^63 seconds or more is granted as a negative number of seconds |
| Retention.History.PruneChecksOlderThan | alon_sentinel/src/domain/site_monitor_checks/repository.rs:133-175 | deletes as many expired rows as the limit allows, each older than the cutoff and than every row kept; fewer than the limit only if no older row is left |
| Retention.History.PruneIfDue | alon_sentinel/src/worker/site_worker.rs:191-236 | does nothing before its time; yields to another sweeper; comes back at once exactly after a full batch |
| Retention.History.SweepUntilIdle | alon_sentinel/src/worker/site_worker.rs:191-236 | with N rows older than the retention and batches of B, exactly N / B + 1 back-to-back calls, after which exactly the younger rows are left |
| NotificationDelivery.TotalBackOffClosedForm | alon_sentinel/src/notifications/service.rs:995-999 | short of saturation n retries wait base * (2^n - 1) seconds up to the seventh and 64 * base more for each one after it |
| NotificationDelivery.StepKeepsInv | alon_sentinel/src/notifications/service.rs:879-925 | every step keeps: pending exactly at no attempts, fewer attempts than the maximum while another may follow, no claim on a finished delivery, an owner's attempt count equal to the row's |
| NotificationDelivery.AttemptsAndBackOff | alon_sentinel/src/notifications/service.rs:879-925 | over every interleaving attempts stay below the maximum while another may follow, and none is scheduled before all earlier back-offs have passed |
| NotificationDelivery.FinishedIsFinal | alon_sentinel/src/domain/notification_deliveries/repository.rs:56-117 | delivered, and failed without a next attempt, never change again; pending is left at most once; attempts never go down |
| NotificationDelivery.FailedIsFinalExactlyWhen | alon_sentinel/src/domain/notification_deliveries/repository.rs:176-207 | failed is final if and only if no next attempt is scheduled |
| NotificationDelivery.FailedIsDeliveredExactlyWhen | alon_sentinel/src/notifications/service.rs:879-925 | some run from the moment of queueing marks the delivery failed and later delivers it, if and only if more than one attempt is allowed |
| NotificationDelivery.OnlyTheOwnerWrites | alon_sentinel/src/domain/notification_deliveries/repository.rs:151-257 | apart from a claim, only a step of the row's owner changes it |
| NotificationDelivery.ClaimsExactlyWhen | alon_sentinel/src/domain/notification_deliveries/repository.rs:56-117 | in columns: a claim succeeds if and only if the channel is active and the delivery undelivered, due and without a running lease; a running lease keeps others out |
| NotificationDelivery.LeaseCoversDelivery | alon_sentinel/src/notifications/service.rs:951-961 | the planned lease is the configured minimum or, if longer, the timeout and a buffer of half of it, at least two seconds |
| NotificationDelivery.TwoFailedRenewalsAreSurvived | alon_sentinel/src/notifications/service.rs:951-978 | the 250 ms floor never binds, the grant covers the plan, and two failed renewals in a row are survived |
| DeliveryWorker.AwaitSend | alon_sentinel/src/notifications/service.rs:567-620 | the loop computes the resolution of its wakes, which ends with the first that decides |
| DeliveryWorker.FirstEndingWins | alon_sentinel/src/notifications/service.rs:567-620 | the wait ends with the first wake that is a finished send, a shutdown, a lost row, or a database error a full lease after the last good renewal; it goes on if and only if there is none |
| DeliveryWorker.ErrorsKeepTheLease | alon_sentinel/src/notifications/service.rs:600-613 | database errors alone give a delivery up only a full lease after its last renewal |
| DeliveryWorker.DeliveryRow.ClaimDueDelivery | alon_sentinel/src/domain/notification_deliveries/repository.rs:56-117 | claims exactly a due, unfinished, unleased delivery of an active channel |
| DeliveryWorker.DeliveryRow.MarkRowDelivered | alon_sentinel/src/domain/notification_deliveries/repository.rs:151-174 | counts the attempt, finishes and clears the claim, for the owner only |
| DeliveryWorker.DeliveryRow.HandleDeliveryFailure | alon_sentinel/src/notifications/service.rs:879-925 | schedules the next attempt exactly for a transient failure below the maximum, for the owner only |
| DeliveryWorker.DeliveryRow.ReleaseDeliveryClaim | alon_sentinel/src/domain/notification_deliveries/repository.rs:234-257 | clears the claim for the owner only and leaves the attempts alone |
| DeliveryWorker.DeliveryRow.DeliverOneNotification | alon_sentinel/src/notifications/service.rs:512-657 | in the row's columns, for its owner: a sent delivery counts the attempt and is delivered; a permanent error or the last allowed attempt fails it for good; any other failure schedules the next attempt 2^n times the base from now, n being the attempts before it but at most six; a shutdown only frees it; a lost lease or an unreadable payload changes nothing; and nobody else's row is touched |
| DeliveryWorker.StepIsRecorded | alon_sentinel/src/notifications/service.rs:636-648 | the step of the state machine that an ending amounts to writes exactly the columns that this ending calls for |
| TokenCache.AuthTokenCache.GetBearerContext | alon_sentinel/src/auth/token_cache.rs:54-86 | with nobody in between, a lookup returns a context if and only if the cache holds an entry of the key whose time to live and token have not run out, and leaves the cache as its second lock section alone would |
| TokenCache.AliveExactlyWhen | alon_sentinel/src/auth/token_cache.rs:181-190 | an entry is usable if and only if less than its time to live has passed and its token's own end has not come |
| TokenCache.AuthTokenCache.WriteSection | alon_sentinel/src/auth/token_cache.rs:72-86 | confirms under the write lock: promotes a fresh entry, drops a stale one |
| TokenCache.AuthTokenCache.CleanUp | alon_sentinel/src/auth/token_cache.rs:145-161 | drops the entry only if it is still stale |
| TokenCache.AuthTokenCache.InsertBearerContext | alon_sentinel/src/auth/token_cache.rs:95-119 | the new entry comes first, after one eviction if the cache is full |
| TokenCache.AuthTokenCache.InvalidateKey | alon_sentinel/src/auth/token_cache.rs:121-143 | forgets this key |
| TokenCache.InsertKeepsDistinct | alon_sentinel/src/auth/token_cache.rs:95-119 | an insert is always present afterwards, never exceeds the capacity, and alters no other entry |
| TokenCache.EvictOnlyForgets | alon_sentinel/src/auth/token_cache.rs:192-208 | an eviction makes room for one and alters nothing it keeps |
| TokenCache.StaleGoesFirst | alon_sentinel/src/auth/token_cache.rs:192-208 | an entry whose time has not passed is evicted only if the cache is full, it is the least recently used and the time of no other entry has passed |
| TokenCacheTheorems.CacheHoldsLatest | alon_sentinel/src/auth/token_cache.rs:95-161 | over every history of lock sections the size stays within capacity and an entry is its key's latest un-invalidated insert |
| TokenCacheTheorems.HitsExactlyWhen | alon_sentinel/src/auth/token_cache.rs:72-86 | over every history a lookup is confirmed if and only if the cache holds an entry of the key whose time has not passed, and returns its context |
| TokenCacheTheorems.HitIsLatestInsert | alon_sentinel/src/auth/token_cache.rs:54-86 | a hit is the newest insert made between the two lock sections, or, if the key was left alone there, the very entry that the read section saw; in either case the latest un-invalidated insert as of the write lock, less than its time to live ago and before expires_at |
| TokenCacheTheorems.LatestInsertIsFound | alon_sentinel/src/auth/token_cache.rs:54-119 | over every history an insert is found again with its context while its time has not passed at any instant sampled since, its key was neither inserted anew nor invalidated, and fewer than C other keys were inserted or hit |
| TokenCacheTheorems.LookupsForgetOnlyTheStale | alon_sentinel/src/auth/token_cache.rs:72-86 | a lookup's write section takes an entry away exactly if it is the one looked up and its time to live or its token has run out |
| TokenCacheTheorems.CleanUpSparesReinserted | alon_sentinel/src/auth/token_cache.rs:145-161 | over every history, a stale reader's clean-up changes nothing if its key was inserted anew since the reader sampled its instant, the time to live is positive and the new token has not expired |
| TokenCacheTheorems.CleanUpSparesReinsertedExactlyWhen | alon_sentinel/src/auth/token_cache.rs:145-161 | with such an insert still cached, the clean-up spares it if and only if the time to live is positive and its token has not expired |
| TokenCacheTheorems.CacheIsLru | alon_sentinel/src/auth/token_cache.rs:95-119 | without invalidation, and with every entry within its time at every instant sampled, a cache of capacity C holds exactly the C most recently inserted or hit keys, in recency order |
| JsonPath.ParseJsonPath | alon_sentinel/src/monitoring/http_checker.rs:1030-1100 | the loop over characters computes the parse function |
| JsonPath.ReadIndex | alon_sentinel/src/monitoring/http_checker.rs:1063-1083 | reads a non-empty run of digits up to its bracket, within usize, and where the text goes on |
| JsonPath.BlankExactlyWhen | alon_sentinel/src/monitoring/http_checker.rs:1030-1034 | a path is reported as blank if and only if it is nothing but whitespace; every other error is that of an invalid path |
| JsonPath.ParsesExactlySpellings | alon_sentinel/src/monitoring/http_checker.rs:1030-1100 | a path parses to a token list if and only if its trimmed text spells that list: an optional root, a dot between fields, dots elsewhere optional |
| JsonPath.ParseInvertsSpelling | alon_sentinel/src/monitoring/http_checker.rs:1030-1100 | for every non-empty list of tokens a path can say and every choice of the optional dots, parsing the spelling with `$` gives back exactly that list; a last field that ends in whitespace needs its trailing dot |
| JsonPath.ExpressibleExactlyWhen | alon_sentinel/src/monitoring/http_checker.rs:1030-1100 | some path parses to a token list if and only if the list is not empty, its fields are non-empty and free of `.` and `[`, and its indices fit a usize |
| JsonPath.ResolveJsonPath | alon_sentinel/src/monitoring/http_checker.rs:995-1022 | parses and then steps through the document, reporting a malformed path as such |
| JsonPath.IndexPathFinds | alon_sentinel/src/monitoring/http_checker.rs:995-1022 | `$[i]` finds the item at position i of an array, for every i within usize, and nothing else anywhere |
| JsonPath.FieldPathFinds | alon_sentinel/src/monitoring/http_checker.rs:995-1022 | `$.name.` finds the value under that key of an object and nothing else anywhere, for every name a path can say |
| JsonPath.ResolveConcat | alon_sentinel/src/monitoring/http_checker.rs:995-1022 | resolving a concatenated path is resolving its first part and then the second |
| JsonPath.HitsAreSubterms | alon_sentinel/src/monitoring/http_checker.rs:995-1022 | whatever a path finds is a part of the document |
| JsonPath.FindableExactlyWhen | alon_sentinel/src/monitoring/http_checker.rs:995-1022 | some path finds a part if and only if it lies strictly below the document along keys and indices that a path can say |
| JsonPath.DocumentIsNeverFound | alon_sentinel/src/monitoring/http_checker.rs:995-1022 | no path finds the document itself |
| HttpVerdict.ReadCappedBody | alon_sentinel/src/monitoring/http_checker.rs:230-241 | reads the first max bytes of the concatenated chunks; a failing connection counts only while the cap is not reached |
| HttpVerdict.ChunkBoundariesDoNotMatter | alon_sentinel/src/monitoring/http_checker.rs:230-241 | the body read depends on the bytes and not on how they are cut into chunks; the one exception, a cap of 0, is exact |
| HttpVerdict.HeaderVerdict | alon_sentinel/src/monitoring/http_checker.rs:1102-1165 | a header assertion fails with the part (name, presence, equals, contains) that fails first |
| HttpVerdict.EvaluateHeaders | alon_sentinel/src/monitoring/http_checker.rs:206-219 | the loop over header assertions reports the first failing part of the first failing one |
| HttpVerdict.EvaluateBody | alon_sentinel/src/monitoring/http_checker.rs:221-438 | reads the body only if something is asserted of it, and reports the first failing assertion on it |
| HttpVerdict.EvaluateJson | alon_sentinel/src/monitoring/http_checker.rs:305-432 | parses the body once and reports the first failing path assertion |
| HttpVerdict.PlanIsWhatIsConfigured | alon_sentinel/src/monitoring/http_checker.rs:145-449 | an assertion is decided if and only if a field of the assertion set asks for it, field by field and index by index |
| HttpVerdict.PlanHoldsExactlyWhenMet | alon_sentinel/src/monitoring/http_checker.rs:145-449 | all of them hold if and only if status, time, headers and body of the response are what the fields demand |
| HttpVerdict.ReasonsAreTrue | alon_sentinel/src/monitoring/http_checker.rs:145-449 | whatever reason is reported, the field it points at asks for something that the response does not have |
| HttpVerdict.JudgeResponse | alon_sentinel/src/monitoring/http_checker.rs:145-449 | success if and only if status, time, headers and body are what the configured fields demand; otherwise the reason of the first that fails in the fixed order, which is true of the field it names, a wrong status and then an exceeded time coming first; success if and only if neither reason nor message is set |
| HttpVerdict.CheckUrl | alon_sentinel/src/monitoring/http_checker.rs:86-464 | success needs an answer that is what the configured fields demand; the first refusal among target, certificate (if checked) and client is reported as it is, failed requests are classified with connect before timeout before redirect, and an answer is judged |
| HttpVerdict.ReasonTextIsInjective | alon_sentinel/src/monitoring/http_checker.rs:991-993 | different reasons have different texts, decimal indices and header parts included |
| HttpVerdict.ReasonNamesOneAssertion | alon_sentinel/src/monitoring/http_checker.rs:145-449 | assertions are decided in one fixed order and no two of one check share the text of a failure reason |
| RateLimiter.AuthRateLimiter.Check | alon_sentinel/src/api/rate_limit.rs:48-86 | the answer and the new table are those of the call history extended by this call |
| RateLimiter.PruningIsNotObservable | alon_sentinel/src/api/rate_limit.rs:62-70 | a trace in which no call is overtaken by a pruning call is answered as if nothing were ever pruned |
| RateLimiter.PruningShowsExactlyWhen | alon_sentinel/src/api/rate_limit.rs:62-86 | up to the first overtaken call, pruning changes an answer if and only if the call meets a full window of its key that has not expired but was dropped by a pruning call since the key was last called |
| RateLimiter.PruningIsNotObservableExactlyWhen | alon_sentinel/src/api/rate_limit.rs:49-70 | for given instants, the pruning limiter answers every trace with these instants like one that never prunes, for all limits and keys, if and only if no call is overtaken: older than an earlier pruning call that is younger than a call before it |
| RateLimiter.OvertakenCallShowsPruning | alon_sentinel/src/api/rate_limit.rs:62-86 | for any such instants, a limit of one request and a key called twice make pruning show |
| RateLimiter.InOrderNeverOvertakes | alon_sentinel/src/api/rate_limit.rs:49-50 | instants that never go backwards meet that condition |
| RateLimiter.LateCallShowsPruning | alon_sentinel/src/api/rate_limit.rs:49-70 | a trace with one late instant in which pruning changes an answer |
| RateLimiter.KeysAreIndependent | alon_sentinel/src/api/rate_limit.rs:72-86 | each answer is that of a window that sees the key's own calls and nothing else |
| RateLimiter.AtMostTwiceTheLimit | alon_sentinel/src/api/rate_limit.rs:72-86 | any closed stretch of one window length lets at most 2 * max_requests of a key through |
| RateLimiter.LimiterLetsThroughAtMostTwice | alon_sentinel/src/api/rate_limit.rs:48-86 | the same for the shared limiter, its pruning and all other keys included |
| RateLimiter.RejectedOnlyWhenFull | alon_sentinel/src/api/rate_limit.rs:77-85 | a request is turned away only if max_requests of its key were accepted less than a window ago |
| Pagination.PaginateVecWithCursor | alon_sentinel/src/api/pagination.rs:24-41 | cuts to the limit and returns the cursor of the last kept item exactly if there is more |
| Pagination.ListSiteChecks | alon_sentinel/src/api/routes/sites/checks.rs:218-253 | one page of the matching rows after the cursor, and the cursor after it; a limit of 0 or above 2000 is refused |
| Pagination.LoadChecks | alon_sentinel_admin/src/components/HistoryTab.tsx:38-53 | the append loop computes the load function, stopping at the first page without a cursor |
| Pagination.MatchingMembers | alon_sentinel/src/domain/site_monitor_checks/repository.rs:81-131 | in columns: a page is drawn from exactly the rows with the wanted outcome that come after the cursor by time and then by id |
| Pagination.CursorContinues | alon_sentinel/src/domain/site_monitor_checks/repository.rs:81-131 | asking again from the cursor of a row continues right after that row |
| Pagination.PagesCoverHistory | alon_sentinel_admin/src/components/HistoryTab.tsx:38-53 | n pages show the first n * limit matching rows, each once and in order, and the last page comes exactly when that covers them all |
| Pagination.EveryRowOnce | alon_sentinel_admin/src/components/HistoryTab.tsx:38-53 | loading until no cursor comes back ends and yields every row exactly once, in order |
| Pagination.LoadSurvivesChanges | alon_sentinel_admin/src/components/HistoryTab.tsx:38-53 | whatever is added or pruned between pages, no row is shown twice or out of order, and a completed load misses no row that was there all along |
| WorkerIdentity.SanitizeWorkerIdComponent | alon_sentinel/src/runtime/mod.rs:130-145 | the scan and trim yield the maximal alphanumeric runs, in lower case, joined by single dashes |
| WorkerIdentity.SanitizingSplits | alon_sentinel/src/runtime/mod.rs:130-145 | letters and digits keep their order and neighbours, in lower case, and whatever else stands between two of them turns into one dash |
| WorkerIdentity.SanitizingCleans | alon_sentinel/src/runtime/mod.rs:130-145 | only `[a-z0-9-]`, no doubled or outer dash; exactly such texts stay as they are, so sanitising is idempotent |
| WorkerIdentity.WorkerIdIsInjective | alon_sentinel/src/runtime/mod.rs:106-108 | for all identities whatever, equal worker ids mean equal index and identity |
| WorkerIdentity.FirstNameCounts | alon_sentinel/src/runtime/mod.rs:119-128 | of the two host variables the first that is set and not blank counts |
| WorkerIdentity.BuildWorkerProcessIdentity | alon_sentinel/src/runtime/mod.rs:110-128 | the first non-blank host variable, sanitised, or a stand-in, then process id and random number |
| WorkerIdentity.ProcessIdentityIsInjective | alon_sentinel/src/runtime/mod.rs:110-118 | two processes share an identity if and only if host part, process id and random number all agree |

## Left out

- Ids of checks and incidents are positions in their tables, a site's activity is folded into its monitor's, and columns that decide nothing (texts, durations, certificates) are absent; editing a monitor's columns is not a step.
- ClaimProtocol.StepKeepsInv: a claim takes one monitor per step, so that row locks and SKIP LOCKED are not visible; the statement that claims a batch is the sequence of such steps.
- MonitorDatabase.Database.CheckSiteMonitors: one check after another with nobody interfering; any interleaving of the same statements is the subject of the claim protocol.
- CheckExecution.LeaseCoversTheWork: that one attempt stays within the timeout is a hypothesis; name lookup and handshakes run outside it.
- CheckExecution.TwoFailedRenewalsAreSurvived: renewals are instantaneous and exactly one interval apart.
- Retention.History.SweepUntilIdle: the sweep lock is free and no further row expires during the sweep.
- NotificationDelivery.AttemptsAndBackOff: the base delay is short of saturating; a next attempt too far away for the date type is not modelled.
- DeliveryWorker.DeliveryRow.DeliverOneNotification: the send itself is an arbitrary sequence of events; a batch of deliveries is several rows handled alike.
- TokenCache.AuthTokenCache.GetBearerContext: the lookup of administrators' contexts is the same cache; the cache key is its prefix and hash, the hash taken as injective.
- HttpVerdict.CheckUrl: error messages are present or absent, not worded; lossy UTF-8 decoding, the JSON parser and header-name normalisation are parameters; how a certificate is judged, and its metadata, are not part of this model.
- RateLimiter.AuthRateLimiter.Check: the lock makes calls atomic; instants are integers.
- ClaimLifecycle.NoRenewalAfterClearing: a crash of a check takes its heartbeat with it; in the program a panicking check leaves its heartbeat to notice the dropped stop signal.
- Pagination.ListSiteChecks: cursors are data, not text, and the history is given in its sort order.
- WorkerIdentity.WorkerIdIsInjective: that process ids and random numbers differ between processes is not provable and not claimed.
- Real networking, TLS, DNS, SMTP and webhooks: an attempt is an arbitrary outcome and duration.
- Hashing, encryption and signatures, permission checks, IP ranges, configuration parsing beyond the positivity it guarantees, the idle delay of a worker, the status-page cache, and the web interface apart from its page loop.
