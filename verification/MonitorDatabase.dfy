/** The worker's database calls and the code around them, as updates in place. Every
    method is tied to the statement functions of MonitorStore. */
module MonitorDatabase {
  import opened Prelude
  import opened MonitorStore
  import opened ClaimProtocol

  /** How one check ended. */
  datatype Execution = Completed(isSuccess: bool) | Cancelled

  /** A claimed monitor: the id and the snapshot that came back from the claim. */
  datatype ClaimedMonitor = ClaimedMonitor(monitor: MonitorId, lastIsSuccess: Option<bool>)

  /** What wakes the heartbeat loop. */
  datatype HeartbeatEvent =
    | Stopped
    | ShutdownChanged(shutdown: bool)
    | ChannelClosed
    | IntervalElapsed(dbError: bool)

  /** Renewals the heartbeat asks the database to make before something stops it. */
  function RenewalsAsked(events: seq<HeartbeatEvent>): nat {
    if events == [] then 0
    else match events[0]
      case Stopped => 0
      case ChannelClosed => 0
      case ShutdownChanged(shutdown) => if shutdown then 0 else RenewalsAsked(events[1..])
      case IntervalElapsed(dbError) => (if dbError then 0 else 1) + RenewalsAsked(events[1..])
  }

  predicate EndsHeartbeat(event: HeartbeatEvent) {
    event in {Stopped, ChannelClosed, ShutdownChanged(true)}
  }

  /** The heartbeat asks for one renewal after each interval, except where the database fails,
      until the first event that ends it. */
  lemma {:induction false} RenewsUntilTheEnd(before: seq<HeartbeatEvent>, after: seq<HeartbeatEvent>)
    requires forall i :: 0 <= i < |before| ==> !EndsHeartbeat(before[i])
    requires after == [] || EndsHeartbeat(after[0])
    ensures RenewalsAsked(before + after) == multiset(before)[IntervalElapsed(false)]
  {
    if before == [] {
      assert before + after == after;
    } else {
      assert (before + after)[1..] == before[1..] + after;
      assert before == [before[0]] + before[1..];
      RenewsUntilTheEnd(before[1..], after);
    }
  }

  function Takers(channels: seq<Channel>, event: EventType): nat {
    if channels == [] then 0
    else Takers(channels[..|channels| - 1], event) + if Takes(channels[|channels| - 1], event) then 1 else 0
  }

  function CountOpen(incidents: seq<Incident>, m: MonitorId): nat {
    if incidents == [] then 0
    else CountOpen(incidents[..|incidents| - 1], m) + if OpenAt(incidents, |incidents| - 1, m) then 1 else 0
  }

  predicate Claims(claimed: seq<ClaimedMonitor>, m: MonitorId) {
    exists i :: 0 <= i < |claimed| && claimed[i].monitor == m
  }

  predicate Distinct(claimed: seq<ClaimedMonitor>) {
    forall i, j :: 0 <= i < j < |claimed| ==> claimed[i].monitor != claimed[j].monitor
  }

  lemma {:induction false} ClaimsOneMore(claimed: seq<ClaimedMonitor>, c: ClaimedMonitor)
    ensures forall m :: Claims(claimed + [c], m) <==> Claims(claimed, m) || m == c.monitor
    ensures Distinct(claimed) && !Claims(claimed, c.monitor) ==> Distinct(claimed + [c])
  {
    var after := claimed + [c];
    assert after[|claimed|] == c;
    forall m | Claims(claimed, m)
      ensures Claims(after, m)
    {
      var i :| 0 <= i < |claimed| && claimed[i].monitor == m;
      assert after[i].monitor == m;
    }
  }

  /** What a claim may take: every monitor that is due, unleased, and not locked by
      anybody else. */
  function Due(rows: map<MonitorId, MonitorRow>, now: int, locked: set<MonitorId>): (due: set<ClaimedMonitor>)
    ensures forall c :: c in due <==>
      && c.monitor in rows && c.monitor !in locked && rows[c.monitor].isActive
      && (rows[c.monitor].lastCheckedAt.Some? ==> rows[c.monitor].lastCheckedAt.value + rows[c.monitor].intervalMs <= now)
      && (rows[c.monitor].leaseUntil.Some? ==> rows[c.monitor].leaseUntil.value < now)
      && c.lastIsSuccess == rows[c.monitor].lastIsSuccess
  {
    set m | m in rows && Claimable(rows[m], now) && m !in locked :: ClaimedMonitor(m, rows[m].lastIsSuccess)
  }

  predicate Snapshots(rows: map<MonitorId, MonitorRow>, due: set<ClaimedMonitor>) {
    forall c :: c in due ==> c.monitor in rows && c.lastIsSuccess == rows[c.monitor].lastIsSuccess
  }

  predicate IsFirst(rows: map<MonitorId, MonitorRow>, due: set<ClaimedMonitor>, c: ClaimedMonitor)
    requires Snapshots(rows, due)
  {
    c in due && forall other :: other in due && other != c ==>
      CheckedBefore(rows[c.monitor], c.monitor, rows[other.monitor], other.monitor)
  }

  lemma {:induction false} FirstExists(rows: map<MonitorId, MonitorRow>, due: set<ClaimedMonitor>)
    requires Snapshots(rows, due) && due != {}
    ensures exists c :: IsFirst(rows, due, c)
  {
    var any :| any in due;
    if due == {any} {
      assert IsFirst(rows, due, any);
    } else {
      var rest := due - {any};
      FirstExists(rows, rest);
      var first :| IsFirst(rows, rest, first);
      assert any.monitor != first.monitor;
      if CheckedBefore(rows[any.monitor], any.monitor, rows[first.monitor], first.monitor) {
        forall other | other in due && other != any
          ensures CheckedBefore(rows[any.monitor], any.monitor, rows[other.monitor], other.monitor)
        {
          assert other in rest;
        }
        assert IsFirst(rows, due, any);
      } else {
        assert IsFirst(rows, due, first);
      }
    }
  }

  class Database {
    var now: int
    var rows: map<MonitorId, MonitorRow>
    var checks: seq<Check>
    var incidents: seq<Incident>
    var deliveries: seq<Delivery>

    function State(): Store
      reads this
    {
      Store(now, rows, checks, incidents, deliveries)
    }

    constructor ()
      ensures State() == Store(0, map[], [], [], [])
    {
      now, rows, checks, incidents, deliveries := 0, map[], [], [], [];
    }

    /** One statement claims up to `limit` of the due monitors, oldest check first, passing
        over those whose rows other transactions hold locked. */
    method ClaimSiteMonitorsDueForCheck(worker: WorkerId, limit: nat, leaseSeconds: int, locked: set<MonitorId>)
        returns (claimed: seq<ClaimedMonitor>)
      modifies this`rows
      ensures |claimed| <= limit && Distinct(claimed)
      ensures forall c :: c in claimed ==> c in Due(old(rows), now, locked)
      ensures |claimed| == limit || forall c :: c in Due(old(rows), now, locked) ==> c in claimed
      ensures forall c, d :: c in claimed && d in Due(old(rows), now, locked) && d !in claimed ==>
        CheckedBefore(old(rows)[c.monitor], c.monitor, old(rows)[d.monitor], d.monitor)
      ensures rows.Keys == old(rows).Keys
      ensures forall m :: m in rows ==>
        rows[m] == if Claims(claimed, m)
                   then old(rows)[m].(claimedBy := Some(worker), leaseUntil := Some(now + 1000 * leaseSeconds))
                   else old(rows)[m]
    {
      claimed := [];
      var snapshot := rows;
      var due := Due(snapshot, now, locked);
      while |claimed| < limit && due != {}
        invariant |claimed| <= limit && Distinct(claimed)
        invariant due <= Due(snapshot, now, locked)
        invariant forall c :: c in claimed ==> c in Due(snapshot, now, locked)
        invariant forall c :: c in Due(snapshot, now, locked) ==> (c in due <==> c !in claimed)
        invariant forall c, d :: c in claimed && d in due ==>
          CheckedBefore(snapshot[c.monitor], c.monitor, snapshot[d.monitor], d.monitor)
        invariant rows.Keys == snapshot.Keys
        invariant forall m :: m in rows ==>
          rows[m] == if Claims(claimed, m)
                     then snapshot[m].(claimedBy := Some(worker), leaseUntil := Some(LeaseEnd(now, leaseSeconds)))
                     else snapshot[m]
      {
        FirstExists(snapshot, due);
        var c: ClaimedMonitor :| IsFirst(snapshot, due, c);
        ghost var before := claimed;
        assert !Claims(before, c.monitor);
        rows := rows[c.monitor := rows[c.monitor].(claimedBy := Some(worker), leaseUntil := Some(LeaseEnd(now, leaseSeconds)))];
        claimed, due := claimed + [c], due - {c};
        assert forall d :: d in claimed <==> d in before || d == c;
        ClaimsOneMore(before, c);
      }
    }

    method ExtendSiteMonitorClaim(worker: WorkerId, m: MonitorId, leaseSeconds: int) returns (updated: bool)
      modifies this`rows
      ensures updated == Owns(old(State()), worker, m)
      ensures State() == ExtendClaim(old(State()), worker, m, leaseSeconds)
      ensures rows == if m in old(rows) && old(rows)[m].claimedBy == Some(worker)
                      then old(rows)[m := old(rows)[m].(leaseUntil := Some(now + 1000 * leaseSeconds))] else old(rows)
    {
      updated := m in rows && rows[m].claimedBy == Some(worker);
      if updated {
        rows := rows[m := rows[m].(leaseUntil := Some(LeaseEnd(now, leaseSeconds)))];
      }
    }

    method ReleaseSiteMonitorClaim(worker: WorkerId, m: MonitorId) returns (updated: bool)
      modifies this`rows
      ensures updated == Owns(old(State()), worker, m)
      ensures State() == ReleaseClaim(old(State()), worker, m)
      ensures rows == if m in old(rows) && old(rows)[m].claimedBy == Some(worker)
                      then old(rows)[m := old(rows)[m].(claimedBy := None, leaseUntil := None)] else old(rows)
    {
      updated := m in rows && rows[m].claimedBy == Some(worker);
      if updated {
        rows := rows[m := rows[m].(claimedBy := None, leaseUntil := None)];
      }
    }

    /** False when the insert would break the unique index; nothing is written then. */
    method ManageIncidentLifecycle(snapshot: Option<bool>, m: MonitorId, isSuccess: bool, check: nat)
        returns (ok: bool, incidentId: Option<nat>)
      modifies this`incidents
      ensures ManageIncident(old(incidents), snapshot, m, isSuccess, check, LookupOpenIncident(old(State()), snapshot, m))
        == if ok then Some((incidents, incidentId)) else None
      ensures !ok ==> incidents == old(incidents)
      ensures var found := LookupOpenIncident(old(State()), snapshot, m);
        && (found.Some? && !isSuccess ==>
              ok && incidentId == found && incidents == old(incidents)[found.value := old(incidents)[found.value].(
                failureCount := old(incidents)[found.value].failureCount + 1, lastCheck := check)])
        && (found.Some? && isSuccess ==>
              ok && incidentId == found && incidents == old(incidents)[found.value := old(incidents)[found.value].(
                status := Recovered(check), lastCheck := check)])
        && (found.None? && !isSuccess && ok ==>
              incidentId == Some(|old(incidents)|) && incidents == old(incidents) + [Incident(m, check, check, 1, Open)])
        && (found.None? && isSuccess ==> ok && incidentId == None && incidents == old(incidents))
    {
      var open: Option<nat> := None;
      if snapshot == Some(false) {
        open := FindOpen(incidents, m);
      }
      match ClassifyIncidentAction(snapshot, isSuccess, open.Some?) {
      case OpenNew | ReopenMissing =>
        var inserted := InsertIncident(incidents, m, check);
        if inserted.None? {
          return false, None;
        }
        incidentId := Some(|incidents|);
        incidents := inserted.value;
      case UpdateExisting =>
        incidents := RecordFailure(incidents, open.value, check);
        incidentId := open;
      case Resolve =>
        incidents := ResolveIncident(incidents, open.value, check);
        incidentId := open;
      case NoAction =>
        incidentId := None;
      }
      ok := true;
    }

    method EnqueueSiteMonitorNotifications(snapshot: Option<bool>, m: MonitorId, isSuccess: bool, check: nat,
                                           incident: Option<nat>, channels: seq<Channel>) returns (queued: nat)
      modifies this`deliveries
      ensures deliveries == EnqueueForChange(old(deliveries), snapshot, m, isSuccess, check, incident, channels)
      ensures queued == match DetermineEventType(snapshot, isSuccess)
                        case None => 0
                        case Some(event) => Takers(channels, event)
    {
      queued := 0;
      var event := DetermineEventType(snapshot, isSuccess);
      if event.None? {
        return;
      }
      for i := 0 to |channels|
        invariant deliveries == Enqueue(old(deliveries), channels[..i], m, check, incident, event.value)
        invariant queued == Takers(channels[..i], event.value)
      {
        assert channels[..i + 1][..i] == channels[..i];
        if Takes(channels[i], event.value) {
          var d := Delivery(channels[i].id, m, check, incident, event.value);
          if !Conflicts(deliveries, d) {
            deliveries := deliveries + [d];
          }
          queued := queued + 1;
        }
      }
      assert channels[..|channels|] == channels;
    }

    method UpdateSiteMonitorLastCheck(worker: WorkerId, m: MonitorId, isSuccess: bool) returns (updated: bool)
      modifies this`rows
      ensures UpdateLastCheck(old(State()), worker, m, isSuccess) == if updated then Some(State()) else None
      ensures updated <==> m in old(rows) && old(rows)[m].claimedBy == Some(worker)
      ensures rows == if updated then old(rows)[m := old(rows)[m].(
        lastCheckedAt := Some(now), lastIsSuccess := Some(isSuccess), claimedBy := None, leaseUntil := None)] else old(rows)
    {
      updated := m in rows && rows[m].claimedBy == Some(worker);
      if updated {
        rows := rows[m := rows[m].(lastCheckedAt := Some(now), lastIsSuccess := Some(isSuccess),
                                   claimedBy := None, leaseUntil := None)];
      }
    }

    /** The save transaction, run without interruption: it commits as a whole or leaves
        every table as it was. */
    method SaveCheckResult(snapshot: Option<bool>, worker: WorkerId, m: MonitorId, isSuccess: bool,
                           channels: seq<Channel>) returns (saved: bool)
      modifies this
      ensures var s := old(State());
        var outcome := SaveTransaction(s, snapshot, worker, m, isSuccess, LookupOpenIncident(s, snapshot, m), channels);
        saved == outcome.Some? && State() == CommitOrRollback(s, outcome)
    {
      var rows0, checks0, incidents0, deliveries0 := rows, checks, incidents, deliveries;  // BEGIN
      var check := |checks|;
      checks := checks + [Check(m, isSuccess)];
      var ok, incidentId := ManageIncidentLifecycle(snapshot, m, isSuccess, check);
      if ok {
        var _ := EnqueueSiteMonitorNotifications(snapshot, m, isSuccess, check, incidentId, channels);
        saved := UpdateSiteMonitorLastCheck(worker, m, isSuccess);
      } else {
        saved := false;
      }
      if !saved {
        rows, checks, incidents, deliveries := rows0, checks0, incidents0, deliveries0;  // ROLLBACK
      }
    }

    /** Pausing, disabling or deactivating closes whatever is open for the monitor. */
    method ResolveOpenIncidentsForMonitor(m: MonitorId) returns (resolved: nat)
      modifies this`incidents
      ensures incidents == CloseOpenIncidents(old(incidents), m)
      ensures resolved == CountOpen(old(incidents), m)
    {
      resolved := 0;
      ghost var before := incidents;
      for i := 0 to |incidents|
        invariant |incidents| == |before| && resolved == CountOpen(before[..i], m)
        invariant forall k :: 0 <= k < |before| ==>
          incidents[k] == if k < i && OpenAt(before, k, m) then before[k].(status := ClosedOutside) else before[k]
      {
        assert before[..i + 1][..i] == before[..i];
        if incidents[i].monitor == m && incidents[i].status.Open? {
          incidents := incidents[i := incidents[i].(status := ClosedOutside)];
          resolved := resolved + 1;
        }
      }
      assert before[..|before|] == before;
    }

    /** The heartbeat: renews after each interval, and stops at the stop signal, at a
        shutdown, or at the first renewal that finds ownership lost. */
    method HeartbeatSiteMonitorClaim(worker: WorkerId, m: MonitorId, leaseSeconds: int, events: seq<HeartbeatEvent>)
        returns (renewals: nat, lost: bool)
      modifies this`rows
      ensures State() == if renewals > 0 then ExtendClaim(old(State()), worker, m, leaseSeconds) else old(State())
      ensures renewals == if Owns(old(State()), worker, m) then RenewalsAsked(events) else 0
      ensures lost <==> !Owns(old(State()), worker, m) && RenewalsAsked(events) > 0
      ensures Owns(State(), worker, m) == Owns(old(State()), worker, m)
    {
      renewals, lost := 0, false;
      var i := 0;
      while i < |events|
        invariant 0 <= i <= |events|
        invariant State() == if renewals > 0 then ExtendClaim(old(State()), worker, m, leaseSeconds) else old(State())
        invariant renewals > 0 ==> Owns(old(State()), worker, m)
        invariant !lost && RenewalsAsked(events) == renewals + RenewalsAsked(events[i..])
      {
        assert events[i..][0] == events[i] && events[i..][1..] == events[i + 1..];
        match events[i] {
        case Stopped => return;
        case ChannelClosed => return;
        case ShutdownChanged(shutdown) =>
          if shutdown { return; }
        case IntervalElapsed(dbError) =>
          if !dbError {
            var updated := ExtendSiteMonitorClaim(worker, m, leaseSeconds);
            if !updated {
              lost := true;
              return;
            }
            renewals := renewals + 1;
          }
        }
        i := i + 1;
      }
    }

    /** One claimed monitor, from its initial lease to its save or release, with nobody
        interfering: renewals in between make no difference. */
    method CheckSiteMonitor(worker: WorkerId, c: ClaimedMonitor, leaseSeconds: int, execution: Execution,
                            heartbeat: seq<HeartbeatEvent>, channels: seq<Channel>)
      modifies this
      ensures State() == AfterHandling(old(State()), worker, c, leaseSeconds, execution, channels)
    {
      var held := ExtendSiteMonitorClaim(worker, c.monitor, leaseSeconds);
      if held {
        ExtendTwice(old(State()), worker, c.monitor, leaseSeconds);
        var _, _ := HeartbeatSiteMonitorClaim(worker, c.monitor, leaseSeconds, heartbeat);
        match execution {
        case Completed(isSuccess) =>
          var _ := SaveCheckResult(c.lastIsSuccess, worker, c.monitor, isSuccess, channels);
        case Cancelled =>
          var _ := ReleaseSiteMonitorClaim(worker, c.monitor);
        }
      }
    }

    /** A batch, with nobody interfering: every owned monitor gets its outcome or, if
        cancelled, loses only its claim; and none stays claimed by the worker. */
    method CheckSiteMonitors(worker: WorkerId, batch: seq<ClaimedMonitor>, leaseSeconds: int,
                             executions: seq<Execution>, heartbeats: seq<seq<HeartbeatEvent>>, channels: seq<Channel>)
      requires |executions| == |batch| == |heartbeats|
      requires IncidentsSound(State()) && ReferencesSound(State())
      requires forall i, j :: 0 <= i < j < |batch| ==> batch[i].monitor != batch[j].monitor
      requires forall c :: c in batch ==> SnapshotCurrent(State(), worker, c)
      modifies this
      ensures State() == AfterBatch(old(State()), worker, batch, leaseSeconds, executions, channels)
      ensures IncidentsSound(State()) && ReferencesSound(State())
      ensures forall c :: c in batch ==> !Owns(State(), worker, c.monitor)
      ensures rows.Keys == old(rows).Keys
      ensures forall i :: 0 <= i < |batch| && batch[i].monitor in rows ==>
        rows[batch[i].monitor] == RowAfter(old(State()), worker, batch[i].monitor, executions[i])
    {
      for i := 0 to |batch|
        invariant State() == AfterBatch(old(State()), worker, batch[..i], leaseSeconds, executions[..i], channels)
      {
        assert batch[..i + 1][..i] == batch[..i] && executions[..i + 1][..i] == executions[..i];
        CheckSiteMonitor(worker, batch[i], leaseSeconds, executions[i], heartbeats[i], channels);
      }
      assert batch[..|batch|] == batch && executions[..|batch|] == executions;
      BatchOutcome(old(State()), worker, batch, leaseSeconds, executions, channels);
    }
  }

  /** The snapshot of a claim that still stands is the row's own outcome. */
  predicate SnapshotCurrent(s: Store, worker: WorkerId, c: ClaimedMonitor) {
    Owns(s, worker, c.monitor) ==> c.lastIsSuccess == s.rows[c.monitor].lastIsSuccess
  }

  lemma {:induction false} ExtendTwice(s: Store, worker: WorkerId, m: MonitorId, leaseSeconds: int)
    ensures var once := ExtendClaim(s, worker, m, leaseSeconds);
      ExtendClaim(once, worker, m, leaseSeconds) == once
  {
  }

  /** What handling one claimed monitor makes of its row. */
  function RowAfter(s: Store, worker: WorkerId, m: MonitorId, execution: Execution): MonitorRow
    requires m in s.rows
  {
    if !Owns(s, worker, m) then s.rows[m]
    else match execution
      case Completed(isSuccess) => s.rows[m].(
        lastCheckedAt := Some(s.now), lastIsSuccess := Some(isSuccess), claimedBy := None, leaseUntil := None)
      case Cancelled => s.rows[m].(claimedBy := None, leaseUntil := None)
  }

  function AfterHandling(s: Store, worker: WorkerId, c: ClaimedMonitor, leaseSeconds: int, execution: Execution,
                         channels: seq<Channel>): Store
  {
    var held := ExtendClaim(s, worker, c.monitor, leaseSeconds);
    if !Owns(s, worker, c.monitor) then s
    else match execution
      case Completed(isSuccess) =>
        CommitOrRollback(held, SaveTransaction(held, c.lastIsSuccess, worker, c.monitor, isSuccess,
                                               LookupOpenIncident(held, c.lastIsSuccess, c.monitor), channels))
      case Cancelled => ReleaseClaim(held, worker, c.monitor)
  }

  function AfterBatch(s: Store, worker: WorkerId, batch: seq<ClaimedMonitor>, leaseSeconds: int,
                      executions: seq<Execution>, channels: seq<Channel>): Store
    requires |executions| == |batch|
  {
    if batch == [] then s
    else
      var last := |batch| - 1;
      AfterHandling(AfterBatch(s, worker, batch[..last], leaseSeconds, executions[..last], channels),
                    worker, batch[last], leaseSeconds, executions[last], channels)
  }

  /** An uninterrupted save by the owner commits, clears the claim and keeps the tables
      sound. */
  lemma OwnerSaveIsSound(s: Store, worker: WorkerId, m: MonitorId, isSuccess: bool, channels: seq<Channel>)
    requires IncidentsSound(s) && ReferencesSound(s) && Owns(s, worker, m)
    ensures var snapshot := s.rows[m].lastIsSuccess;
      var outcome := SaveTransaction(s, snapshot, worker, m, isSuccess, LookupOpenIncident(s, snapshot, m), channels);
      && outcome.Some?
      && IncidentsSound(outcome.value) && ReferencesSound(outcome.value)
      && outcome.value.rows == s.rows[m := RowAfter(s, worker, m, Completed(isSuccess))]
  {
    var snapshot := s.rows[m].lastIsSuccess;
    var sys := System(s, map[0 := Session(worker, m, snapshot, Saving(isSuccess, LookupOpenIncident(s, snapshot, m)))], map[], 1);
    assert Informed(s, sys.sessions[0]);
    OwnerSaveCommits(sys, 0, channels);
    CommitKeepsInv(sys, 0, channels);
  }

  /** Handling one monitor leaves the tables sound and writes its row and no other. */
  lemma {:induction false} HandlingOutcome(s: Store, worker: WorkerId, c: ClaimedMonitor, leaseSeconds: int,
                                           execution: Execution, channels: seq<Channel>)
    requires IncidentsSound(s) && ReferencesSound(s) && SnapshotCurrent(s, worker, c)
    ensures var next := AfterHandling(s, worker, c, leaseSeconds, execution, channels);
      && IncidentsSound(next) && ReferencesSound(next) && next.now == s.now
      && next.rows == if c.monitor in s.rows then s.rows[c.monitor := RowAfter(s, worker, c.monitor, execution)] else s.rows
  {
    if Owns(s, worker, c.monitor) {
      var held := ExtendClaim(s, worker, c.monitor, leaseSeconds);
      assert IncidentsSound(held);
      if execution.Completed? {
        OwnerSaveIsSound(held, worker, c.monitor, execution.isSuccess, channels);
      }
    }
  }

  /** These monitors' rows hold what handling them makes of them, and all others are as
      they were. */
  predicate RowsHandled(s: Store, rows: map<MonitorId, MonitorRow>, worker: WorkerId, batch: seq<ClaimedMonitor>,
                        executions: seq<Execution>)
    requires |executions| == |batch|
  {
    && rows.Keys == s.rows.Keys
    && (forall i :: 0 <= i < |batch| && batch[i].monitor in s.rows ==>
          rows[batch[i].monitor] == RowAfter(s, worker, batch[i].monitor, executions[i]))
    && (forall m :: m in s.rows && (forall i :: 0 <= i < |batch| ==> batch[i].monitor != m) ==> rows[m] == s.rows[m])
  }

  lemma {:induction false} OneMoreHandled(s: Store, rows: map<MonitorId, MonitorRow>, worker: WorkerId,
                                          batch: seq<ClaimedMonitor>, executions: seq<Execution>)
    requires |executions| == |batch| > 0
    requires forall i, j :: 0 <= i < j < |batch| ==> batch[i].monitor != batch[j].monitor
    requires RowsHandled(s, rows, worker, batch[..|batch| - 1], executions[..|batch| - 1])
    ensures var m := batch[|batch| - 1].monitor;
      && (m in s.rows ==> rows[m] == s.rows[m])
      && RowsHandled(s, if m in s.rows then rows[m := RowAfter(s, worker, m, executions[|batch| - 1])] else rows,
                     worker, batch, executions)
  {
    var last := |batch| - 1;
    assert forall i :: 0 <= i < last ==> batch[..last][i] == batch[i] && executions[..last][i] == executions[i];
  }

  lemma {:induction false} BatchOutcome(s: Store, worker: WorkerId, batch: seq<ClaimedMonitor>, leaseSeconds: int,
                                        executions: seq<Execution>, channels: seq<Channel>)
    requires |executions| == |batch| && IncidentsSound(s) && ReferencesSound(s)
    requires forall i, j :: 0 <= i < j < |batch| ==> batch[i].monitor != batch[j].monitor
    requires forall c :: c in batch ==> SnapshotCurrent(s, worker, c)
    ensures var next := AfterBatch(s, worker, batch, leaseSeconds, executions, channels);
      && IncidentsSound(next) && ReferencesSound(next) && next.now == s.now
      && RowsHandled(s, next.rows, worker, batch, executions)
  {
    if batch == [] {
    } else {
      var last := |batch| - 1;
      var c := batch[last];
      BatchOutcome(s, worker, batch[..last], leaseSeconds, executions[..last], channels);
      var mid := AfterBatch(s, worker, batch[..last], leaseSeconds, executions[..last], channels);
      assert c in batch;
      OneMoreHandled(s, mid.rows, worker, batch, executions);
      HandlingOutcome(mid, worker, c, leaseSeconds, executions[last], channels);
    }
  }
}
