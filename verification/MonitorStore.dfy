/** The tables that the check worker shares with every other worker, and the SQL
    statements it issues against them. Each statement is one atomic function from
    a store to a store; a guarded UPDATE that matches no row changes nothing. */
module MonitorStore {
  import opened Prelude

  type WorkerId = string
  type MonitorId = int

  /** A row of site_monitors. isActive stands for "the monitor and its site are
      active"; times are in milliseconds. */
  datatype MonitorRow = MonitorRow(
    isActive: bool,
    intervalMs: nat,
    lastCheckedAt: Option<int>,
    lastIsSuccess: Option<bool>,
    claimedBy: Option<WorkerId>,
    leaseUntil: Option<int>)

  /** A row of site_monitor_checks; its id is its position. */
  datatype Check = Check(monitor: MonitorId, isSuccess: bool)

  datatype IncidentStatus = Open | Recovered(check: nat) | ClosedOutside

  /** A row of site_monitor_incidents; its id is its position. */
  datatype Incident = Incident(
    monitor: MonitorId,
    openedCheck: nat,
    lastCheck: nat,
    failureCount: nat,
    status: IncidentStatus)

  datatype EventType = Failure | Recovery

  /** A channel as the site sees it, overrides applied. */
  datatype Channel = Channel(id: int, isActive: bool, notifyOnFailure: bool, notifyOnRecovery: bool)

  /** A row of notification_deliveries, as queued by a check. */
  datatype Delivery = Delivery(
    channel: int,
    monitor: MonitorId,
    check: nat,
    incident: Option<nat>,
    event: EventType)

  datatype Store = Store(
    now: int,
    rows: map<MonitorId, MonitorRow>,
    checks: seq<Check>,
    incidents: seq<Incident>,
    deliveries: seq<Delivery>)

  // ---------------------------------------------------------------- claims

  predicate Owns(s: Store, worker: WorkerId, m: MonitorId) {
    m in s.rows && s.rows[m].claimedBy == Some(worker)
  }

  predicate LeaseFree(row: MonitorRow, now: int) {
    row.leaseUntil.None? || row.leaseUntil.value < now
  }

  predicate Claimable(row: MonitorRow, now: int) {
    && row.isActive
    && (row.lastCheckedAt.None? || row.lastCheckedAt.value <= now - row.intervalMs)
    && LeaseFree(row, now)
  }

  /** ORDER BY last_checked_at NULLS FIRST, id. */
  predicate CheckedBefore(a: MonitorRow, aId: MonitorId, b: MonitorRow, bId: MonitorId) {
    if a.lastCheckedAt == b.lastCheckedAt then aId < bId
    else a.lastCheckedAt.None? || (b.lastCheckedAt.Some? && a.lastCheckedAt.value < b.lastCheckedAt.value)
  }

  /** So among two monitors the one never checked, or checked longer ago, comes first. */
  lemma {:induction false} OlderChecksComeFirst(a: MonitorRow, aId: MonitorId, b: MonitorRow, bId: MonitorId)
    requires aId != bId
    ensures CheckedBefore(a, aId, b, bId) <==> !CheckedBefore(b, bId, a, aId)
    ensures a.lastCheckedAt.None? && b.lastCheckedAt.Some? ==> CheckedBefore(a, aId, b, bId)
    ensures a.lastCheckedAt.Some? && b.lastCheckedAt.Some? && a.lastCheckedAt.value < b.lastCheckedAt.value ==>
      CheckedBefore(a, aId, b, bId)
    ensures a.lastCheckedAt == b.lastCheckedAt && aId < bId ==> CheckedBefore(a, aId, b, bId)
  {
  }

  function LeaseEnd(now: int, leaseSeconds: int): int {
    now + 1000 * leaseSeconds
  }

  function ClaimMonitor(s: Store, worker: WorkerId, m: MonitorId, leaseSeconds: int): Store {
    if m in s.rows && Claimable(s.rows[m], s.now) then
      s.(rows := s.rows[m := s.rows[m].(claimedBy := Some(worker), leaseUntil := Some(LeaseEnd(s.now, leaseSeconds)))])
    else s
  }

  function ExtendClaim(s: Store, worker: WorkerId, m: MonitorId, leaseSeconds: int): Store {
    if Owns(s, worker, m) then
      s.(rows := s.rows[m := s.rows[m].(leaseUntil := Some(LeaseEnd(s.now, leaseSeconds)))])
    else s
  }

  function ReleaseClaim(s: Store, worker: WorkerId, m: MonitorId): Store {
    if Owns(s, worker, m) then
      s.(rows := s.rows[m := s.rows[m].(claimedBy := None, leaseUntil := None)])
    else s
  }

  /** The last statement of a save: guarded by ownership, it also clears the claim. */
  function UpdateLastCheck(s: Store, worker: WorkerId, m: MonitorId, isSuccess: bool): Option<Store> {
    if Owns(s, worker, m) then
      Some(s.(rows := s.rows[m := s.rows[m].(
        lastCheckedAt := Some(s.now), lastIsSuccess := Some(isSuccess),
        claimedBy := None, leaseUntil := None)]))
    else None
  }

  // ------------------------------------------------------------- incidents

  predicate OpenAt(incidents: seq<Incident>, i: int, m: MonitorId) {
    0 <= i < |incidents| && incidents[i].monitor == m && incidents[i].status.Open?
  }

  /** SELECT ... WHERE status = 'open' LIMIT 1. */
  function FindOpen(incidents: seq<Incident>, m: MonitorId): (r: Option<nat>)
    ensures r.Some? ==> OpenAt(incidents, r.value, m)
    ensures r.None? ==> forall i :: !OpenAt(incidents, i, m)
  {
    if incidents == [] then None
    else
      var last := |incidents| - 1;
      var earlier := FindOpen(incidents[..last], m);
      assert forall i | 0 <= i < last :: OpenAt(incidents, i, m) <==> OpenAt(incidents[..last], i, m);
      if earlier.Some? then earlier
      else if OpenAt(incidents, last, m) then Some(last)
      else None
  }

  /** INSERT of an open incident. The partial unique index on open incidents makes
      it an error when the monitor already has one. */
  function InsertIncident(incidents: seq<Incident>, m: MonitorId, check: nat): Option<seq<Incident>> {
    if FindOpen(incidents, m).Some? then None
    else Some(incidents + [Incident(m, check, check, 1, Open)])
  }

  /** UPDATE ... WHERE id = i AND status = 'open'. */
  function RecordFailure(incidents: seq<Incident>, i: nat, check: nat): (r: seq<Incident>)
    ensures |r| == |incidents|
  {
    if i < |incidents| && incidents[i].status.Open? then
      incidents[i := incidents[i].(failureCount := incidents[i].failureCount + 1, lastCheck := check)]
    else incidents
  }

  function ResolveIncident(incidents: seq<Incident>, i: nat, check: nat): (r: seq<Incident>)
    ensures |r| == |incidents|
  {
    if i < |incidents| && incidents[i].status.Open? then
      incidents[i := incidents[i].(status := Recovered(check), lastCheck := check)]
    else incidents
  }

  /** Pausing, disabling or deactivating: closes whatever is open, and leaves
      last_is_success alone. */
  function CloseOpenIncidents(incidents: seq<Incident>, m: MonitorId): (r: seq<Incident>)
    ensures |r| == |incidents|
    ensures forall i :: 0 <= i < |r| ==>
      r[i] == if OpenAt(incidents, i, m) then incidents[i].(status := ClosedOutside) else incidents[i]
  {
    seq(|incidents|, i requires 0 <= i < |incidents| =>
      if OpenAt(incidents, i, m) then incidents[i].(status := ClosedOutside) else incidents[i])
  }

  datatype IncidentAction = OpenNew | UpdateExisting | ReopenMissing | Resolve | NoAction

  function ClassifyIncidentAction(last: Option<bool>, current: bool, hasOpen: bool): IncidentAction {
    match (last, current)
    case (None, false) => OpenNew
    case (Some(true), false) => OpenNew
    case (Some(false), false) => if hasOpen then UpdateExisting else ReopenMissing
    case (Some(false), true) => if hasOpen then Resolve else NoAction
    case _ => NoAction
  }

  // --------------------------------------------------------- notifications

  function DetermineEventType(previous: Option<bool>, current: bool): Option<EventType> {
    match (previous, current)
    case (Some(true), false) => Some(Failure)
    case (None, false) => Some(Failure)
    case (Some(false), true) => Some(Recovery)
    case _ => None
  }

  predicate Takes(c: Channel, event: EventType) {
    c.isActive && match event case Failure => c.notifyOnFailure case Recovery => c.notifyOnRecovery
  }

  /** Unique key (channel, check, event); INSERT ... ON CONFLICT DO NOTHING. */
  predicate Conflicts(deliveries: seq<Delivery>, d: Delivery) {
    exists i :: 0 <= i < |deliveries|
      && deliveries[i].channel == d.channel && deliveries[i].check == d.check && deliveries[i].event == d.event
  }

  function Enqueue(deliveries: seq<Delivery>, channels: seq<Channel>, m: MonitorId, check: nat,
                   incident: Option<nat>, event: EventType): seq<Delivery>
  {
    if channels == [] then deliveries
    else
      var earlier := Enqueue(deliveries, channels[..|channels| - 1], m, check, incident, event);
      var c := channels[|channels| - 1];
      var d := Delivery(c.id, m, check, incident, event);
      if Takes(c, event) && !Conflicts(earlier, d) then earlier + [d] else earlier
  }

  // ------------------------------------------------------------------ save

  /** What the transaction looks up before it writes: the open incident, and only
      when the claim-time snapshot says the monitor was failing. */
  function LookupOpenIncident(s: Store, snapshot: Option<bool>, m: MonitorId): (r: Option<nat>)
    ensures r.Some? ==> snapshot == Some(false) && OpenAt(s.incidents, r.value, m)
    ensures r.None? ==> snapshot != Some(false) || forall i :: !OpenAt(s.incidents, i, m)
  {
    if snapshot == Some(false) then FindOpen(s.incidents, m) else None
  }

  /** The incident table and the incident id handed to the notifications; None when
      the unique index refuses the insert. */
  function ManageIncident(incidents: seq<Incident>, snapshot: Option<bool>, m: MonitorId, isSuccess: bool,
                          check: nat, found: Option<nat>): Option<(seq<Incident>, Option<nat>)>
  {
    match ClassifyIncidentAction(snapshot, isSuccess, found.Some?)
    case OpenNew =>
      var inserted := InsertIncident(incidents, m, check);
      if inserted.None? then None else Some((inserted.value, Some(|incidents|)))
    case ReopenMissing =>
      var inserted := InsertIncident(incidents, m, check);
      if inserted.None? then None else Some((inserted.value, Some(|incidents|)))
    case UpdateExisting =>
      if found.None? then None else Some((RecordFailure(incidents, found.value, check), found))
    case Resolve =>
      if found.None? then None else Some((ResolveIncident(incidents, found.value, check), found))
    case NoAction => Some((incidents, None))
  }

  function EnqueueForChange(deliveries: seq<Delivery>, snapshot: Option<bool>, m: MonitorId, isSuccess: bool,
                            check: nat, incident: Option<nat>, channels: seq<Channel>): seq<Delivery>
  {
    match DetermineEventType(snapshot, isSuccess)
    case None => deliveries
    case Some(event) => Enqueue(deliveries, channels, m, check, incident, event)
  }

  /** The whole save transaction after its lookup: None means it rolled back. */
  function SaveTransaction(s: Store, snapshot: Option<bool>, worker: WorkerId, m: MonitorId, isSuccess: bool,
                           found: Option<nat>, channels: seq<Channel>): Option<Store>
  {
    var check := |s.checks|;
    match ManageIncident(s.incidents, snapshot, m, isSuccess, check, found)
    case None => None
    case Some((incidents, incident)) =>
      UpdateLastCheck(
        s.(checks := s.checks + [Check(m, isSuccess)],
           incidents := incidents,
           deliveries := EnqueueForChange(s.deliveries, snapshot, m, isSuccess, check, incident, channels)),
        worker, m, isSuccess)
  }

  function CommitOrRollback(before: Store, outcome: Option<Store>): Store {
    if outcome.Some? then outcome.value else before
  }
}
