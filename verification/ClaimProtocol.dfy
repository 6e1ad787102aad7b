/** The claim protocol as a state machine: any number of workers, processes and
    outside actors, interleaved one statement at a time. A session is one worker
    handling one claimed monitor, with the row it read when it claimed it. */
module ClaimProtocol {
  import opened Prelude
  import opened MonitorStore

  /** Where a session stands. An outcome is Some(isSuccess), or None if a shutdown
      cancelled the check. */
  datatype Phase =
    | Starting
    | Running
    | Stopping(outcome: Option<bool>)   // the heartbeat was told to stop and is waited for
    | Finishing(outcome: Option<bool>)  // the heartbeat is joined
    | Saving(isSuccess: bool, found: Option<nat>)

  datatype Session = Session(worker: WorkerId, monitor: MonitorId, snapshot: Option<bool>, phase: Phase)

  /** The heartbeat task of a session, a task of its own: asleep, or awake and about to
      renew the claim. */
  datatype Heart = Heart(worker: WorkerId, monitor: MonitorId, awake: bool)

  datatype System = System(store: Store, sessions: map<nat, Session>, hearts: map<nat, Heart>, nextSession: nat)

  datatype Step =
    | Claim(worker: WorkerId, monitor: MonitorId, leaseSeconds: int)
    | Start(id: nat, leaseSeconds: int)           // set the planned lease and spawn the heartbeat, or give up
    | Wake(id: nat)                               // the heartbeat's interval is over, stop signal or not
    | Beat(id: nat, leaseSeconds: int)            // the renewal it then makes
    | BeatError(id: nat)                          // or fails to make
    | EndHeartbeat(id: nat)                       // a sleeping heartbeat saw the stop signal or the shutdown
    | Finish(id: nat, outcome: Option<bool>)      // the check is over: send the stop signal
    | Join(id: nat)                               // the heartbeat has ended
    | Lookup(id: nat)                             // the save begins: read the open incident
    | Commit(id: nat, channels: seq<Channel>)     // the save writes, checks its guard, commits or rolls back
    | Release(id: nat)
    | Abort(id: nat)                              // crash or repository error: the claim stays behind
    | CloseOutside(monitor: MonitorId)
    | SetActive(monitor: MonitorId, active: bool)
    | Create(monitor: MonitorId, intervalMs: nat)
    | Tick(ms: nat)

  function WithPhase(sys: System, id: nat, phase: Phase): System
    requires id in sys.sessions
  {
    sys.(sessions := sys.sessions[id := sys.sessions[id].(phase := phase)])
  }

  function Ended(sys: System, id: nat): System {
    sys.(sessions := sys.sessions - {id})
  }

  function WithHeart(sys: System, id: nat, heart: Heart): System {
    sys.(hearts := sys.hearts[id := heart])
  }

  function WithoutHeart(sys: System, id: nat): System {
    sys.(hearts := sys.hearts - {id})
  }

  /** One step. A step that the program cannot take in this state changes nothing. */
  function Apply(sys: System, step: Step): System {
    var s := sys.store;
    match step
    case Claim(w, m, secs) =>
      if m in s.rows && Claimable(s.rows[m], s.now) then
        System(ClaimMonitor(s, w, m, secs),
               sys.sessions[sys.nextSession := Session(w, m, s.rows[m].lastIsSuccess, Starting)],
               sys.hearts,
               sys.nextSession + 1)
      else sys
    case Start(id, secs) =>
      if id in sys.sessions && sys.sessions[id].phase.Starting? then
        var x := sys.sessions[id];
        var next := sys.(store := ExtendClaim(s, x.worker, x.monitor, secs));
        if Owns(s, x.worker, x.monitor)
        then WithHeart(WithPhase(next, id, Running), id, Heart(x.worker, x.monitor, false))
        else Ended(next, id)
      else sys
    case Wake(id) =>
      if id in sys.hearts && !sys.hearts[id].awake then WithHeart(sys, id, sys.hearts[id].(awake := true)) else sys
    case Beat(id, secs) =>
      if id in sys.hearts && sys.hearts[id].awake then
        var h := sys.hearts[id];
        var next := sys.(store := ExtendClaim(s, h.worker, h.monitor, secs));
        if Owns(s, h.worker, h.monitor) then WithHeart(next, id, h.(awake := false)) else WithoutHeart(next, id)
      else sys
    case BeatError(id) =>
      if id in sys.hearts && sys.hearts[id].awake then WithHeart(sys, id, sys.hearts[id].(awake := false)) else sys
    case EndHeartbeat(id) =>
      if id in sys.hearts && !sys.hearts[id].awake then WithoutHeart(sys, id) else sys
    case Finish(id, outcome) =>
      if id in sys.sessions && sys.sessions[id].phase.Running? then WithPhase(sys, id, Stopping(outcome)) else sys
    case Join(id) =>
      if id in sys.sessions && sys.sessions[id].phase.Stopping? && id !in sys.hearts
      then WithPhase(sys, id, Finishing(sys.sessions[id].phase.outcome))
      else sys
    case Lookup(id) =>
      if id in sys.sessions && sys.sessions[id].phase.Finishing? && sys.sessions[id].phase.outcome.Some? then
        var x := sys.sessions[id];
        WithPhase(sys, id, Saving(x.phase.outcome.value, LookupOpenIncident(s, x.snapshot, x.monitor)))
      else sys
    case Commit(id, channels) =>
      if id in sys.sessions && sys.sessions[id].phase.Saving? then
        Ended(sys.(store := CommitOrRollback(s, Save(sys, id, channels))), id)
      else sys
    case Release(id) =>
      if id in sys.sessions && sys.sessions[id].phase == Finishing(None) then
        var x := sys.sessions[id];
        Ended(sys.(store := ReleaseClaim(s, x.worker, x.monitor)), id)
      else sys
    case Abort(id) => WithoutHeart(Ended(sys, id), id)
    case CloseOutside(m) => sys.(store := s.(incidents := CloseOpenIncidents(s.incidents, m)))
    case SetActive(m, active) =>
      if m in s.rows then sys.(store := s.(rows := s.rows[m := s.rows[m].(isActive := active)])) else sys
    case Create(m, interval) =>
      if m in s.rows then sys
      else sys.(store := s.(rows := s.rows[m := MonitorRow(true, interval, None, None, None, None)]))
    case Tick(ms) => sys.(store := s.(now := s.now + ms))
  }

  /** What the session's save transaction would do now. */
  function Save(sys: System, id: nat, channels: seq<Channel>): Option<Store>
    requires id in sys.sessions && sys.sessions[id].phase.Saving?
  {
    var x := sys.sessions[id];
    SaveTransaction(sys.store, x.snapshot, x.worker, x.monitor, x.phase.isSuccess, x.phase.found, channels)
  }

  function Run(sys: System, steps: seq<Step>): System {
    if steps == [] then sys
    else Apply(Run(sys, steps[..|steps| - 1]), steps[|steps| - 1])
  }

  /** Worker ids are unique and a worker claims again only after its batch: no claim
      while a live session of the same worker still handles that monitor. */
  ghost predicate NamedApart(sys: System, step: Step) {
    step.Claim? ==> forall id :: id in sys.sessions ==>
      !(sys.sessions[id].worker == step.worker && sys.sessions[id].monitor == step.monitor)
  }

  ghost predicate UniquelyNamed(sys: System, steps: seq<Step>) {
    steps != [] ==>
      && UniquelyNamed(sys, steps[..|steps| - 1])
      && NamedApart(Run(sys, steps[..|steps| - 1]), steps[|steps| - 1])
  }

  // ------------------------------------------------------------ invariants

  ghost predicate SessionsNamedApart(sys: System) {
    && (forall id :: id in sys.sessions ==> id < sys.nextSession)
    && (forall a, b | a in sys.sessions && b in sys.sessions ::
          sys.sessions[a].worker == sys.sessions[b].worker && sys.sessions[a].monitor == sys.sessions[b].monitor
          ==> a == b)
  }

  /** At most one open incident per monitor, and only while its last check failed. */
  ghost predicate IncidentsSound(s: Store) {
    && (forall i, m :: OpenAt(s.incidents, i, m) ==> m in s.rows && s.rows[m].lastIsSuccess == Some(false))
    && (forall i, j, m :: OpenAt(s.incidents, i, m) && OpenAt(s.incidents, j, m) ==> i == j)
  }

  predicate Owning(sys: System, id: nat) {
    id in sys.sessions && Owns(sys.store, sys.sessions[id].worker, sys.sessions[id].monitor)
  }

  /** What a session that still owns its monitor knows about it. A later outside
      close can only have closed the incident the lookup found. */
  ghost predicate Informed(s: Store, x: Session)
    requires x.monitor in s.rows
  {
    && x.snapshot == s.rows[x.monitor].lastIsSuccess
    && (x.phase.Saving? ==>
          && (x.phase.found.Some? ==> x.snapshot == Some(false) && x.phase.found.value < |s.incidents|
                                      && s.incidents[x.phase.found.value].monitor == x.monitor)
          && (forall i :: OpenAt(s.incidents, i, x.monitor) ==> x.phase.found == Some(i)))
  }

  ghost predicate SnapshotsCurrent(sys: System) {
    forall id :: Owning(sys, id) ==> Informed(sys.store, sys.sessions[id])
  }

  /** Deliveries and incidents refer to checks that exist. */
  ghost predicate ReferencesSound(s: Store) {
    && (forall i :: 0 <= i < |s.deliveries| ==> s.deliveries[i].check < |s.checks|)
    && (forall i :: 0 <= i < |s.incidents| ==> s.incidents[i].openedCheck < |s.checks|)
  }

  ghost predicate Inv(sys: System) {
    SessionsNamedApart(sys) && IncidentsSound(sys.store) && SnapshotsCurrent(sys) && ReferencesSound(sys.store)
  }

  /** The tables after creation: no monitor, incident or session yet. */
  predicate Initial(sys: System) {
    sys.store.rows == map[] && sys.store.checks == [] && sys.store.incidents == []
    && sys.store.deliveries == [] && sys.sessions == map[] && sys.hearts == map[]
  }

  lemma InitialInv(sys: System)
    requires Initial(sys)
    ensures Inv(sys)
  {
  }

  /** The incident that the lookup found was closed from outside before the write. */
  predicate LookupOutdated(incidents: seq<Incident>, found: Option<nat>) {
    found.Some? && found.value < |incidents| && !incidents[found.value].status.Open?
  }

  /** The incident a committed failure leaves open. */
  function OpenAfterFailure(incidents: seq<Incident>, found: Option<nat>): nat {
    if found.Some? then found.value else |incidents|
  }

  /** What an informed save does to the incidents of its monitor, and of every other. */
  lemma ManageIncidentEffect(incidents: seq<Incident>, snapshot: Option<bool>, m: MonitorId, isSuccess: bool,
                             check: nat, found: Option<nat>)
    requires forall i :: OpenAt(incidents, i, m) ==> found == Some(i)
    requires found.Some? ==>
      snapshot == Some(false) && found.value < |incidents| && incidents[found.value].monitor == m
    ensures ManageIncident(incidents, snapshot, m, isSuccess, check, found).Some?
    ensures var after := ManageIncident(incidents, snapshot, m, isSuccess, check, found).value.0;
      && (forall i, other :: other != m ==> (OpenAt(after, i, other) <==> OpenAt(incidents, i, other)))
      && (isSuccess ==> forall i :: !OpenAt(after, i, m))
      && (!isSuccess ==> forall i :: OpenAt(after, i, m) ==> i == OpenAfterFailure(incidents, found))
      && (!isSuccess && !LookupOutdated(incidents, found) ==> OpenAt(after, OpenAfterFailure(incidents, found), m))
      && (!isSuccess && LookupOutdated(incidents, found) ==> forall i :: !OpenAt(after, i, m))
  {
    var after := ManageIncident(incidents, snapshot, m, isSuccess, check, found).value.0;
    forall i
      ensures OpenAt(after, i, m) ==> !isSuccess && i == OpenAfterFailure(incidents, found)
    {
      if i < |incidents| {
        assert OpenAt(after, i, m) ==> OpenAt(incidents, i, m);
      }
    }
  }

  /** With every invariant in place, the unique index never refuses an owner's save. */
  lemma OwnerSaveCommits(sys: System, id: nat, channels: seq<Channel>)
    requires Inv(sys) && Owning(sys, id) && sys.sessions[id].phase.Saving?
    ensures Save(sys, id, channels).Some?
  {
    var x := sys.sessions[id];
    assert Informed(sys.store, x);
    ManageIncidentEffect(sys.store.incidents, x.snapshot, x.monitor, x.phase.isSuccess,
                         |sys.store.checks|, x.phase.found);
  }

  /** A save by a worker that lost the claim changes nothing. */
  lemma LostClaimSavesNothing(sys: System, id: nat, channels: seq<Channel>)
    requires id in sys.sessions && sys.sessions[id].phase.Saving? && !Owning(sys, id)
    ensures Apply(sys, Commit(id, channels)).store == sys.store
  {
  }

  /** The incident id that the session's save hands to its notifications. */
  function SavedIncident(sys: System, id: nat): Option<nat>
    requires id in sys.sessions && sys.sessions[id].phase.Saving?
  {
    var x := sys.sessions[id];
    match ManageIncident(sys.store.incidents, x.snapshot, x.monitor, x.phase.isSuccess, |sys.store.checks|, x.phase.found)
    case None => None
    case Some((_, incident)) => incident
  }

  /** Queueing only appends, and everything it appends describes this check. */
  lemma {:induction false} EnqueueExtends(deliveries: seq<Delivery>, channels: seq<Channel>, m: MonitorId, check: nat,
                                          incident: Option<nat>, event: EventType)
    ensures var after := Enqueue(deliveries, channels, m, check, incident, event);
      && deliveries <= after
      && (forall i :: |deliveries| <= i < |after| ==>
            after[i] == Delivery(after[i].channel, m, check, incident, event))
  {
    if channels == [] {
    } else {
      EnqueueExtends(deliveries, channels[..|channels| - 1], m, check, incident, event);
    }
  }

  lemma EnqueueForChangeExtends(deliveries: seq<Delivery>, snapshot: Option<bool>, m: MonitorId, isSuccess: bool,
                                check: nat, incident: Option<nat>, channels: seq<Channel>)
    ensures var after := EnqueueForChange(deliveries, snapshot, m, isSuccess, check, incident, channels);
      && deliveries <= after
      && (forall i :: |deliveries| <= i < |after| ==> after[i].check == check)
  {
    if DetermineEventType(snapshot, isSuccess).Some? {
      EnqueueExtends(deliveries, channels, m, check, incident, DetermineEventType(snapshot, isSuccess).value);
    }
  }

  lemma {:induction false} CommitKeepsIncidentsSound(sys: System, id: nat, channels: seq<Channel>)
    requires Inv(sys) && Owning(sys, id) && sys.sessions[id].phase.Saving?
    ensures IncidentsSound(Apply(sys, Commit(id, channels)).store)
  {
    var x, s := sys.sessions[id], sys.store;
    OwnerSaveCommits(sys, id, channels);
    assert Informed(s, x);
    ManageIncidentEffect(s.incidents, x.snapshot, x.monitor, x.phase.isSuccess, |s.checks|, x.phase.found);
  }

  lemma {:induction false} CommitKeepsReferencesSound(sys: System, id: nat, channels: seq<Channel>)
    requires Inv(sys) && Owning(sys, id) && sys.sessions[id].phase.Saving?
    ensures ReferencesSound(Apply(sys, Commit(id, channels)).store)
  {
    var x, s := sys.sessions[id], sys.store;
    OwnerSaveCommits(sys, id, channels);
    EnqueueForChangeExtends(s.deliveries, x.snapshot, x.monitor, x.phase.isSuccess, |s.checks|,
                            SavedIncident(sys, id), channels);
  }

  lemma {:induction false} CommitKeepsInformed(sys: System, id: nat, channels: seq<Channel>, other: nat)
    requires Inv(sys) && Owning(sys, id) && sys.sessions[id].phase.Saving?
    requires Owning(Apply(sys, Commit(id, channels)), other)
    ensures Informed(Apply(sys, Commit(id, channels)).store, Apply(sys, Commit(id, channels)).sessions[other])
  {
    var x, s := sys.sessions[id], sys.store;
    OwnerSaveCommits(sys, id, channels);
    assert Informed(s, x);
    ManageIncidentEffect(s.incidents, x.snapshot, x.monitor, x.phase.isSuccess, |s.checks|, x.phase.found);
    assert Owning(sys, other) && Informed(s, sys.sessions[other]);
  }

  lemma {:induction false} CommitKeepsInv(sys: System, id: nat, channels: seq<Channel>)
    requires Inv(sys) && Owning(sys, id) && sys.sessions[id].phase.Saving?
    ensures Inv(Apply(sys, Commit(id, channels)))
  {
    CommitKeepsIncidentsSound(sys, id, channels);
    CommitKeepsReferencesSound(sys, id, channels);
    NamesStayApart(sys, Commit(id, channels));
    forall other | Owning(Apply(sys, Commit(id, channels)), other)
      ensures Informed(Apply(sys, Commit(id, channels)).store, Apply(sys, Commit(id, channels)).sessions[other])
    {
      CommitKeepsInformed(sys, id, channels, other);
    }
  }

  /** What a step that saves nothing may do to the store: the outcome columns stay,
      no incident opens, none moves, and a claim changes hands only by Claim. */
  ghost predicate Quiet(s: Store, next: Store) {
    && s.rows.Keys <= next.rows.Keys
    && (forall m :: m in s.rows ==> next.rows[m].lastIsSuccess == s.rows[m].lastIsSuccess)
    && |next.incidents| == |s.incidents|
    && (forall i :: 0 <= i < |s.incidents| ==> next.incidents[i].monitor == s.incidents[i].monitor)
    && (forall i, m :: OpenAt(next.incidents, i, m) ==> OpenAt(s.incidents, i, m))
    && next.checks == s.checks && next.deliveries == s.deliveries
  }

  predicate Saves(sys: System, step: Step) {
    step.Commit? && Owning(sys, step.id) && sys.sessions[step.id].phase.Saving?
  }

  predicate SavesFor(sys: System, step: Step, m: MonitorId) {
    Saves(sys, step) && sys.sessions[step.id].monitor == m
  }

  lemma {:induction false} QuietTables(sys: System, step: Step)
    requires !Saves(sys, step)
    ensures var s, next := sys.store, Apply(sys, step).store;
      && next.checks == s.checks && next.deliveries == s.deliveries
      && next.incidents == if step.CloseOutside? then CloseOpenIncidents(s.incidents, step.monitor) else s.incidents
  {
  }

  lemma {:induction false} QuietRows(sys: System, step: Step)
    requires !Saves(sys, step)
    ensures var s, next := sys.store, Apply(sys, step).store;
      && s.rows.Keys <= next.rows.Keys
      && (forall m :: m in s.rows ==> next.rows[m].lastIsSuccess == s.rows[m].lastIsSuccess)
  {
  }

  lemma {:induction false} OtherStepsAreQuiet(sys: System, step: Step)
    requires !Saves(sys, step)
    ensures Quiet(sys.store, Apply(sys, step).store)
  {
    QuietTables(sys, step);
    QuietRows(sys, step);
  }

  /** A session that owns its monitor after a quiet step either claimed it in this
      very step, or owned it before with the same snapshot, and the same lookup
      unless this step was the lookup. */
  lemma OwnersPersist(sys: System, step: Step, id: nat)
    requires Inv(sys) && NamedApart(sys, step) && !Saves(sys, step)
    requires Owning(Apply(sys, step), id)
    ensures if step.Claim? && id == sys.nextSession
            then Apply(sys, step).sessions[id].phase.Starting?
            else
              && Owning(sys, id)
              && Apply(sys, step).sessions[id].snapshot == sys.sessions[id].snapshot
              && Apply(sys, step).sessions[id].monitor == sys.sessions[id].monitor
              && (Apply(sys, step).sessions[id].phase == sys.sessions[id].phase
                  || !Apply(sys, step).sessions[id].phase.Saving?
                  || step == Lookup(id))
  {
  }

  lemma {:induction false} QuietKeepsTablesSound(sys: System, step: Step)
    requires Inv(sys) && !Saves(sys, step)
    ensures IncidentsSound(Apply(sys, step).store) && ReferencesSound(Apply(sys, step).store)
  {
    OtherStepsAreQuiet(sys, step);
    QuietTables(sys, step);
  }

  lemma {:induction false} NamesStayApart(sys: System, step: Step)
    requires SessionsNamedApart(sys) && NamedApart(sys, step)
    ensures SessionsNamedApart(Apply(sys, step))
  {
  }

  /** A session that still owns its monitor after a quiet step is still informed. */
  lemma {:induction false} QuietKeepsInformed(sys: System, step: Step, id: nat)
    requires Inv(sys) && NamedApart(sys, step) && !Saves(sys, step) && Owning(Apply(sys, step), id)
    ensures Informed(Apply(sys, step).store, Apply(sys, step).sessions[id])
  {
    OtherStepsAreQuiet(sys, step);
    OwnersPersist(sys, step, id);
    if !step.Claim? || id != sys.nextSession {
      assert Informed(sys.store, sys.sessions[id]);
    }
  }

  lemma {:induction false} StepKeepsInv(sys: System, step: Step)
    requires Inv(sys) && NamedApart(sys, step)
    ensures Inv(Apply(sys, step))
  {
    if Saves(sys, step) {
      CommitKeepsInv(sys, step.id, step.channels);
    } else {
      QuietKeepsTablesSound(sys, step);
      NamesStayApart(sys, step);
      forall id | Owning(Apply(sys, step), id)
        ensures Informed(Apply(sys, step).store, Apply(sys, step).sessions[id])
      {
        QuietKeepsInformed(sys, step, id);
      }
    }
  }

  lemma {:induction false} RunKeepsInv(sys: System, steps: seq<Step>)
    requires Inv(sys) && UniquelyNamed(sys, steps)
    ensures Inv(Run(sys, steps))
  {
    if steps == [] {
    } else {
      var prefix := steps[..|steps| - 1];
      RunKeepsInv(sys, prefix);
      StepKeepsInv(Run(sys, prefix), steps[|steps| - 1]);
    }
  }
}
