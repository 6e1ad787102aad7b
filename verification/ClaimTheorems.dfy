/** What holds over every run of the claim protocol. */
module ClaimTheorems {
  import opened Prelude
  import opened MonitorStore
  import opened ClaimProtocol

  // ------------------------------------------------- what a commit leaves

  /** The session's lookup found an incident that has been closed from outside since. */
  predicate Outdated(sys: System, id: nat) {
    id in sys.sessions && sys.sessions[id].phase.Saving?
    && LookupOutdated(sys.store.incidents, sys.sessions[id].phase.found)
  }

  ghost predicate HasOpen(s: Store, m: MonitorId) {
    exists i :: OpenAt(s.incidents, i, m)
  }

  /** After a committed success no incident is open. After a committed failure one is,
      exactly when nothing closed the looked-up incident before the write; by
      IncidentsSound it is then the only one. */
  lemma CommitLeaves(sys: System, step: Step)
    requires Inv(sys) && Saves(sys, step)
    ensures var x := sys.sessions[step.id];
      HasOpen(Apply(sys, step).store, x.monitor) <==> !x.phase.isSuccess && !Outdated(sys, step.id)
  {
    var x := sys.sessions[step.id];
    var s := sys.store;
    OwnerSaveCommits(sys, step.id, step.channels);
    assert Informed(s, x);
    ManageIncidentEffect(s.incidents, x.snapshot, x.monitor, x.phase.isSuccess, |s.checks|, x.phase.found);
  }

  /** Reachable states: at most one open incident per monitor, and none unless the
      monitor's last committed check failed, whatever is closed from outside. */
  lemma ReachableIncidentsSound(sys: System, steps: seq<Step>)
    requires Initial(sys) && UniquelyNamed(sys, steps)
    ensures IncidentsSound(Run(sys, steps).store)
  {
    InitialInv(sys);
    RunKeepsInv(sys, steps);
  }

  // ------------------------------------------ concurrent refines sequential

  /** The store without claims, leases and clock: what one worker alone would keep. */
  datatype Ledger = Ledger(
    health: map<MonitorId, Option<bool>>,
    checks: seq<Check>,
    incidents: seq<Incident>,
    deliveries: seq<Delivery>)

  datatype Entry =
    | Saved(monitor: MonitorId, isSuccess: bool, channels: seq<Channel>)
    | Closed(monitor: MonitorId)
    | Created(monitor: MonitorId)

  function Project(s: Store): Ledger {
    Ledger(map m | m in s.rows :: s.rows[m].lastIsSuccess, s.checks, s.incidents, s.deliveries)
  }

  /** One save with nobody else around: the previous outcome and the open incident
      are read from the ledger itself. */
  function SequentialSave(l: Ledger, m: MonitorId, isSuccess: bool, channels: seq<Channel>): Ledger {
    if m !in l.health then l
    else
      var previous := l.health[m];
      var found := if previous == Some(false) then FindOpen(l.incidents, m) else None;
      match ManageIncident(l.incidents, previous, m, isSuccess, |l.checks|, found)
      case None => l
      case Some((incidents, incident)) =>
        Ledger(l.health[m := Some(isSuccess)],
               l.checks + [Check(m, isSuccess)],
               incidents,
               EnqueueForChange(l.deliveries, previous, m, isSuccess, |l.checks|, incident, channels))
  }

  function ReplayEntry(l: Ledger, e: Entry): Ledger {
    match e
    case Saved(m, isSuccess, channels) => SequentialSave(l, m, isSuccess, channels)
    case Closed(m) => l.(incidents := CloseOpenIncidents(l.incidents, m))
    case Created(m) => if m in l.health then l else l.(health := l.health[m := None])
  }

  function Replay(l: Ledger, log: seq<Entry>): Ledger {
    if log == [] then l else ReplayEntry(Replay(l, log[..|log| - 1]), log[|log| - 1])
  }

  /** What a step commits, if anything. */
  function StepLog(sys: System, step: Step): seq<Entry> {
    if Saves(sys, step) then
      [Saved(sys.sessions[step.id].monitor, sys.sessions[step.id].phase.isSuccess, step.channels)]
    else match step
      case CloseOutside(m) => [Closed(m)]
      case Create(m, _) => [Created(m)]
      case _ => []
  }

  function Log(sys: System, steps: seq<Step>): seq<Entry> {
    if steps == [] then []
    else Log(sys, steps[..|steps| - 1]) + StepLog(Run(sys, steps[..|steps| - 1]), steps[|steps| - 1])
  }

  lemma {:induction false} ReplayConcat(l: Ledger, a: seq<Entry>, b: seq<Entry>)
    ensures Replay(l, a + b) == Replay(Replay(l, a), b)
  {
    if b == [] {
      assert a + b == a;
    } else {
      ReplayConcat(l, a, b[..|b| - 1]);
      assert (a + b)[..|a + b| - 1] == a + b[..|b| - 1];
    }
  }

  lemma {:induction false} ReplayOne(l: Ledger, e: Entry)
    ensures Replay(l, [e]) == ReplayEntry(l, e)
  {
    assert [e][..0] == [];
  }

  // --------------------------------- the exact condition for a single save

  /** A saver whose lookup is not outdated would find the very same incident now. */
  lemma LookupStillCurrent(sys: System, id: nat)
    requires Inv(sys) && Owning(sys, id) && sys.sessions[id].phase.Saving? && !Outdated(sys, id)
    ensures sys.sessions[id].snapshot == sys.store.rows[sys.sessions[id].monitor].lastIsSuccess
    ensures sys.sessions[id].phase.found
            == LookupOpenIncident(sys.store, sys.sessions[id].snapshot, sys.sessions[id].monitor)
  {
    var x := sys.sessions[id];
    assert Informed(sys.store, x);
    if x.phase.found.Some? {
      assert OpenAt(sys.store.incidents, x.phase.found.value, x.monitor);
    }
  }

  predicate SomeoneTakes(channels: seq<Channel>, event: EventType) {
    exists i :: 0 <= i < |channels| && Takes(channels[i], event)
  }

  /** The step saves nothing, or its lookup is not outdated, or it records a success that
      no channel wants to hear about. */
  predicate ActsSequentially(sys: System, step: Step) {
    Saves(sys, step) ==>
      !Outdated(sys, step.id) || (sys.sessions[step.id].phase.isSuccess && !SomeoneTakes(step.channels, Recovery))
  }

  /** The tables of a committed save, one by one. */
  lemma {:induction false} CommitTables(sys: System, step: Step)
    requires Inv(sys) && Saves(sys, step)
    ensures var x, s, next := sys.sessions[step.id], sys.store, Apply(sys, step).store;
      var managed := ManageIncident(s.incidents, x.snapshot, x.monitor, x.phase.isSuccess, |s.checks|, x.phase.found);
      && managed.Some? && next.incidents == managed.value.0
      && next.checks == s.checks + [Check(x.monitor, x.phase.isSuccess)]
      && next.deliveries == EnqueueForChange(s.deliveries, x.snapshot, x.monitor, x.phase.isSuccess, |s.checks|,
                                             managed.value.1, step.channels)
      && x.snapshot == s.rows[x.monitor].lastIsSuccess
  {
    OwnerSaveCommits(sys, step.id, step.channels);
    assert Informed(sys.store, sys.sessions[step.id]);
  }

  lemma {:induction false} CommitHealth(sys: System, step: Step)
    requires Inv(sys) && Saves(sys, step)
    ensures var x := sys.sessions[step.id];
      Project(Apply(sys, step).store).health == Project(sys.store).health[x.monitor := Some(x.phase.isSuccess)]
  {
    OwnerSaveCommits(sys, step.id, step.channels);
  }

  /** A save through a current lookup is the sequential save. */
  lemma {:induction false} CommitRefines(sys: System, step: Step)
    requires Inv(sys) && Saves(sys, step) && !Outdated(sys, step.id)
    ensures var x := sys.sessions[step.id];
      Project(Apply(sys, step).store)
        == SequentialSave(Project(sys.store), x.monitor, x.phase.isSuccess, step.channels)
  {
    LookupStillCurrent(sys, step.id);
    CommitTables(sys, step);
    CommitHealth(sys, step);
  }

  lemma {:induction false} EnqueueGrows(deliveries: seq<Delivery>, channels: seq<Channel>, m: MonitorId, check: nat,
                                        incident: Option<nat>, event: EventType)
    requires forall i :: 0 <= i < |deliveries| ==> deliveries[i].check < check
    ensures |Enqueue(deliveries, channels, m, check, incident, event)| > |deliveries|
            <==> SomeoneTakes(channels, event)
    ensures !SomeoneTakes(channels, event) ==> Enqueue(deliveries, channels, m, check, incident, event) == deliveries
  {
    if channels == [] {
    } else {
      var last := |channels| - 1;
      EnqueueGrows(deliveries, channels[..last], m, check, incident, event);
      EnqueueExtends(deliveries, channels[..last], m, check, incident, event);
      assert SomeoneTakes(channels, event) <==> SomeoneTakes(channels[..last], event) || Takes(channels[last], event);
    }
  }

  // ---------------------------------------------- marks that tell two ledgers apart

  /** Some incident was opened by this check. */
  predicate OpenedBy(incidents: seq<Incident>, check: nat) {
    exists i :: 0 <= i < |incidents| && incidents[i].openedCheck == check
  }

  /** Some recovery was queued by this check without an incident. */
  predicate RecoveredFromNothing(deliveries: seq<Delivery>, check: nat) {
    exists i :: 0 <= i < |deliveries|
      && deliveries[i].check == check && deliveries[i].incident.None? && deliveries[i].event.Recovery?
  }

  predicate SameMarks(a: Ledger, b: Ledger, check: nat) {
    && (OpenedBy(a.incidents, check) <==> OpenedBy(b.incidents, check))
    && (RecoveredFromNothing(a.deliveries, check) <==> RecoveredFromNothing(b.deliveries, check))
  }

  /** Saves of other checks never touch a mark. */
  lemma {:induction false} ManageIncidentKeepsMarks(incidents: seq<Incident>, snapshot: Option<bool>, m: MonitorId,
                                                    isSuccess: bool, check: nat, found: Option<nat>, mark: nat)
    requires ManageIncident(incidents, snapshot, m, isSuccess, check, found).Some? && mark != check
    ensures OpenedBy(ManageIncident(incidents, snapshot, m, isSuccess, check, found).value.0, mark)
            <==> OpenedBy(incidents, mark)
  {
    var after := ManageIncident(incidents, snapshot, m, isSuccess, check, found).value.0;
    assert forall i :: 0 <= i < |incidents| ==> after[i].openedCheck == incidents[i].openedCheck;
    assert forall i :: |incidents| <= i < |after| ==> after[i].openedCheck == check;
    if OpenedBy(incidents, mark) {
      var i :| 0 <= i < |incidents| && incidents[i].openedCheck == mark;
      assert after[i].openedCheck == mark;
    }
  }

  lemma {:induction false} EnqueueKeepsMarks(deliveries: seq<Delivery>, snapshot: Option<bool>, m: MonitorId,
                                             isSuccess: bool, check: nat, incident: Option<nat>, channels: seq<Channel>,
                                             mark: nat)
    requires mark != check
    ensures RecoveredFromNothing(EnqueueForChange(deliveries, snapshot, m, isSuccess, check, incident, channels), mark)
            <==> RecoveredFromNothing(deliveries, mark)
  {
    EnqueueForChangeExtends(deliveries, snapshot, m, isSuccess, check, incident, channels);
    var after := EnqueueForChange(deliveries, snapshot, m, isSuccess, check, incident, channels);
    if RecoveredFromNothing(deliveries, mark) {
      var i :| 0 <= i < |deliveries|
        && deliveries[i].check == mark && deliveries[i].incident.None? && deliveries[i].event.Recovery?;
      assert after[i] == deliveries[i];
    }
  }

  /** A save through an outdated lookup that is not a silent success differs from the
      sequential save, by a mark of its own check. */
  lemma {:induction false} OutdatedCommitLeavesMark(sys: System, step: Step)
    requires Inv(sys) && Saves(sys, step) && !ActsSequentially(sys, step)
    ensures var x := sys.sessions[step.id];
      !SameMarks(Project(Apply(sys, step).store),
                 SequentialSave(Project(sys.store), x.monitor, x.phase.isSuccess, step.channels), |sys.store.checks|)
  {
    var x, s, check := sys.sessions[step.id], sys.store, |sys.store.checks|;
    var alone := SequentialSave(Project(s), x.monitor, x.phase.isSuccess, step.channels);
    CommitTables(sys, step);
    assert Informed(s, x) && FindOpen(s.incidents, x.monitor).None?;
    if x.phase.isSuccess {
      EnqueueGrows(s.deliveries, step.channels, x.monitor, check, None, Recovery);
      EnqueueExtends(s.deliveries, step.channels, x.monitor, check, None, Recovery);
      EnqueueExtends(s.deliveries, step.channels, x.monitor, check, x.phase.found, Recovery);
      var queued := alone.deliveries[|s.deliveries|];
      assert queued.check == check && queued.incident.None? && queued.event.Recovery?;
      assert RecoveredFromNothing(alone.deliveries, check);
    } else {
      assert alone.incidents[|s.incidents|].openedCheck == check;
      assert OpenedBy(alone.incidents, check);
    }
  }

  /** A success that nobody hears about, saved through an outdated lookup, finds nothing to
      close and writes what the sequential save would. */
  lemma {:induction false} SilentSuccessRefines(sys: System, step: Step)
    requires Inv(sys) && Saves(sys, step) && Outdated(sys, step.id) && ActsSequentially(sys, step)
    ensures var x := sys.sessions[step.id];
      Project(Apply(sys, step).store)
        == SequentialSave(Project(sys.store), x.monitor, x.phase.isSuccess, step.channels)
  {
    var x, s, check := sys.sessions[step.id], sys.store, |sys.store.checks|;
    CommitTables(sys, step);
    CommitHealth(sys, step);
    assert Informed(s, x) && FindOpen(s.incidents, x.monitor).None?;
    EnqueueGrows(s.deliveries, step.channels, x.monitor, check, x.phase.found, Recovery);
    EnqueueGrows(s.deliveries, step.channels, x.monitor, check, None, Recovery);
  }

  /** A save acts like a sequential save if and only if its lookup is not outdated, or
      it records a success that no channel wants to hear about. */
  lemma {:induction false} CommitIsSequentialExactlyWhen(sys: System, step: Step)
    requires Inv(sys) && Saves(sys, step)
    ensures var x := sys.sessions[step.id];
      Project(Apply(sys, step).store)
        == SequentialSave(Project(sys.store), x.monitor, x.phase.isSuccess, step.channels)
      <==> !Outdated(sys, step.id) || (x.phase.isSuccess && !SomeoneTakes(step.channels, Recovery))
  {
    if !ActsSequentially(sys, step) {
      OutdatedCommitLeavesMark(sys, step);
    } else if Outdated(sys, step.id) {
      SilentSuccessRefines(sys, step);
    } else {
      CommitRefines(sys, step);
    }
  }

  // --------------------------------------------- the exact condition for a run

  lemma {:induction false} QuietHealth(sys: System, step: Step)
    requires !Saves(sys, step)
    ensures var health := Project(sys.store).health;
      Project(Apply(sys, step).store).health
      == if step.Create? && step.monitor !in health then health[step.monitor := None] else health
  {
  }

  /** Every step changes the ledger as the entry it commits does, provided it acts
      sequentially. */
  lemma {:induction false} StepRefines(sys: System, step: Step)
    requires Inv(sys) && ActsSequentially(sys, step)
    ensures Project(Apply(sys, step).store) == Replay(Project(sys.store), StepLog(sys, step))
  {
    var l := Project(sys.store);
    if Saves(sys, step) {
      var x := sys.sessions[step.id];
      CommitIsSequentialExactlyWhen(sys, step);
      ReplayOne(l, Saved(x.monitor, x.phase.isSuccess, step.channels));
    } else {
      QuietHealth(sys, step);
      QuietTables(sys, step);
      if step.CloseOutside? {
        ReplayOne(l, Closed(step.monitor));
      } else if step.Create? {
        ReplayOne(l, Created(step.monitor));
      }
    }
  }

  /** Every save of the run acts sequentially. */
  ghost predicate AllSequential(sys: System, steps: seq<Step>) {
    steps != [] ==>
      var prefix, last := steps[..|steps| - 1], steps[|steps| - 1];
      AllSequential(sys, prefix) && ActsSequentially(Run(sys, prefix), last)
  }

  /** Concurrent refines sequential: however claims, renewals, expiries, crashes and
      saves interleave, the tables equal the committed outcomes replayed one by one. */
  lemma {:induction false} ConcurrentRefinesSequential(sys: System, steps: seq<Step>)
    requires Inv(sys) && UniquelyNamed(sys, steps) && AllSequential(sys, steps)
    ensures Project(Run(sys, steps).store) == Replay(Project(sys.store), Log(sys, steps))
  {
    if steps == [] {
    } else {
      var prefix, last := steps[..|steps| - 1], steps[|steps| - 1];
      ConcurrentRefinesSequential(sys, prefix);
      RunKeepsInv(sys, prefix);
      StepRefines(Run(sys, prefix), last);
      ReplayConcat(Project(sys.store), Log(sys, prefix), StepLog(Run(sys, prefix), last));
    }
  }

  ghost predicate LedgerSound(l: Ledger) {
    && (forall i, m :: OpenAt(l.incidents, i, m) ==> m in l.health && l.health[m] == Some(false))
    && (forall i, j, m :: OpenAt(l.incidents, i, m) && OpenAt(l.incidents, j, m) ==> i == j)
  }

  /** A sequential save of a known monitor never fails, and keeps the ledger sound. */
  lemma {:induction false} SequentialSaveCommits(l: Ledger, m: MonitorId, isSuccess: bool, channels: seq<Channel>)
    requires LedgerSound(l) && m in l.health
    ensures var next := SequentialSave(l, m, isSuccess, channels);
      && LedgerSound(next) && next.health == l.health[m := Some(isSuccess)] && next.checks == l.checks + [Check(m, isSuccess)]
  {
    var found := if l.health[m] == Some(false) then FindOpen(l.incidents, m) else None;
    ManageIncidentEffect(l.incidents, l.health[m], m, isSuccess, |l.checks|, found);
  }

  /** Outcomes and checks always agree with the replay, sequential or not. */
  predicate SameOutcomes(a: Ledger, b: Ledger) { a.health == b.health && a.checks == b.checks }

  lemma {:induction false} StepKeepsOutcomes(sys: System, step: Step, l: Ledger)
    requires Inv(sys) && LedgerSound(l) && SameOutcomes(Project(sys.store), l)
    ensures LedgerSound(Replay(l, StepLog(sys, step)))
    ensures SameOutcomes(Project(Apply(sys, step).store), Replay(l, StepLog(sys, step)))
  {
    if Saves(sys, step) {
      var x := sys.sessions[step.id];
      ReplayOne(l, Saved(x.monitor, x.phase.isSuccess, step.channels));
      SequentialSaveCommits(l, x.monitor, x.phase.isSuccess, step.channels);
      CommitTables(sys, step);
      CommitHealth(sys, step);
    } else {
      QuietHealth(sys, step);
      QuietTables(sys, step);
      if step.CloseOutside? {
        ReplayOne(l, Closed(step.monitor));
        ClosingKeepsSound(l, step.monitor);
      } else if step.Create? {
        ReplayOne(l, Created(step.monitor));
      }
    }
  }

  lemma {:induction false} ClosingKeepsSound(l: Ledger, m: MonitorId)
    requires LedgerSound(l)
    ensures LedgerSound(l.(incidents := CloseOpenIncidents(l.incidents, m)))
  {
    var after := CloseOpenIncidents(l.incidents, m);
    assert forall i, other :: OpenAt(after, i, other) ==> OpenAt(l.incidents, i, other);
  }

  lemma {:induction false} StepKeepsMarks(sys: System, step: Step, mark: nat)
    requires Inv(sys) && mark < |sys.store.checks|
    ensures SameMarks(Project(Apply(sys, step).store), Project(sys.store), mark)
    ensures |Apply(sys, step).store.checks| >= |sys.store.checks|
  {
    var s := sys.store;
    if Saves(sys, step) {
      var x := sys.sessions[step.id];
      CommitTables(sys, step);
      ManageIncidentKeepsMarks(s.incidents, x.snapshot, x.monitor, x.phase.isSuccess, |s.checks|, x.phase.found, mark);
      EnqueueKeepsMarks(s.deliveries, x.snapshot, x.monitor, x.phase.isSuccess, |s.checks|,
                        SavedIncident(sys, step.id), step.channels, mark);
    } else {
      QuietTables(sys, step);
      if step.CloseOutside? {
        ClosingKeepsMarks(s.incidents, step.monitor, mark);
      }
    }
  }

  lemma {:induction false} ClosingKeepsMarks(incidents: seq<Incident>, m: MonitorId, mark: nat)
    ensures OpenedBy(CloseOpenIncidents(incidents, m), mark) <==> OpenedBy(incidents, mark)
  {
    var after := CloseOpenIncidents(incidents, m);
    assert forall i :: 0 <= i < |incidents| ==> after[i].openedCheck == incidents[i].openedCheck;
  }

  lemma {:induction false} EntryKeepsMarks(l: Ledger, e: Entry, mark: nat)
    requires mark < |l.checks|
    ensures SameMarks(ReplayEntry(l, e), l, mark)
  {
    match e
    case Saved(m, isSuccess, channels) =>
      if m in l.health {
        var found := if l.health[m] == Some(false) then FindOpen(l.incidents, m) else None;
        var managed := ManageIncident(l.incidents, l.health[m], m, isSuccess, |l.checks|, found);
        if managed.Some? {
          ManageIncidentKeepsMarks(l.incidents, l.health[m], m, isSuccess, |l.checks|, found, mark);
          EnqueueKeepsMarks(l.deliveries, l.health[m], m, isSuccess, |l.checks|, managed.value.1, channels, mark);
        }
      }
    case Closed(m) => ClosingKeepsMarks(l.incidents, m, mark);
    case Created(m) =>
  }

  /** Once a save did not act sequentially, some mark tells tables and replay apart, and
      goes on doing so: check ids never repeat, so the two never meet again. */
  lemma {:induction false} DivergenceLasts(sys: System, steps: seq<Step>) returns (mark: nat)
    requires Inv(sys) && UniquelyNamed(sys, steps)
    ensures LedgerSound(Replay(Project(sys.store), Log(sys, steps)))
    ensures SameOutcomes(Project(Run(sys, steps).store), Replay(Project(sys.store), Log(sys, steps)))
    ensures AllSequential(sys, steps)
      || (mark < |Run(sys, steps).store.checks|
          && !SameMarks(Project(Run(sys, steps).store), Replay(Project(sys.store), Log(sys, steps)), mark))
  {
    mark := 0;
    if steps == [] {
    } else {
      var prefix, last := steps[..|steps| - 1], steps[|steps| - 1];
      var mid := Run(sys, prefix);
      var l := Replay(Project(sys.store), Log(sys, prefix));
      mark := DivergenceLasts(sys, prefix);
      RunKeepsInv(sys, prefix);
      StepKeepsOutcomes(mid, last, l);
      ReplayConcat(Project(sys.store), Log(sys, prefix), StepLog(mid, last));
      if !AllSequential(sys, prefix) {
        LastStepKeepsMarks(mid, last, l, mark);
      } else if !ActsSequentially(mid, last) {
        ConcurrentRefinesSequential(sys, prefix);
        FirstDivergence(mid, last);
        mark := |mid.store.checks|;
      }
    }
  }

  lemma {:induction false} LastStepKeepsMarks(sys: System, step: Step, l: Ledger, mark: nat)
    requires Inv(sys) && mark < |sys.store.checks| && SameOutcomes(Project(sys.store), l)
    requires !SameMarks(Project(sys.store), l, mark)
    ensures !SameMarks(Project(Apply(sys, step).store), Replay(l, StepLog(sys, step)), mark)
    ensures mark < |Apply(sys, step).store.checks|
  {
    StepKeepsMarks(sys, step, mark);
    if StepLog(sys, step) == [] {
    } else {
      EntryKeepsMarks(l, StepLog(sys, step)[0], mark);
      ReplayOne(l, StepLog(sys, step)[0]);
    }
  }

  lemma {:induction false} FirstDivergence(sys: System, step: Step)
    requires Inv(sys) && !ActsSequentially(sys, step)
    ensures !SameMarks(Project(Apply(sys, step).store), Replay(Project(sys.store), StepLog(sys, step)), |sys.store.checks|)
    ensures |sys.store.checks| < |Apply(sys, step).store.checks|
  {
    var x := sys.sessions[step.id];
    CommitTables(sys, step);
    OutdatedCommitLeavesMark(sys, step);
    ReplayOne(Project(sys.store), Saved(x.monitor, x.phase.isSuccess, step.channels));
  }

  /** A whole run leaves the tables of its sequential replay if and only if every one of
      its saves acted sequentially. */
  lemma {:induction false} RunIsSequentialExactlyWhen(sys: System, steps: seq<Step>)
    requires Inv(sys) && UniquelyNamed(sys, steps)
    ensures Project(Run(sys, steps).store) == Replay(Project(sys.store), Log(sys, steps)) <==> AllSequential(sys, steps)
  {
    if AllSequential(sys, steps) {
      ConcurrentRefinesSequential(sys, steps);
    } else {
      var mark := DivergenceLasts(sys, steps);
    }
  }

  // ------------------------------------------- where outdated lookups come from

  /** No session that owns this monitor holds an outdated lookup. */
  ghost predicate LookupsOpen(sys: System, m: MonitorId) {
    forall id :: Owning(sys, id) && sys.sessions[id].monitor == m ==> !Outdated(sys, id)
  }

  predicate NeverCloses(steps: seq<Step>, m: MonitorId) {
    forall i :: 0 <= i < |steps| ==> steps[i] != CloseOutside(m)
  }

  lemma {:induction false} SaveKeepsLookupsOpen(sys: System, step: Step, m: MonitorId)
    requires Inv(sys) && Saves(sys, step) && LookupsOpen(sys, m)
    ensures LookupsOpen(Apply(sys, step), m)
  {
    var next, x := Apply(sys, step), sys.sessions[step.id];
    CommitTables(sys, step);
    ManageIncidentEffect(sys.store.incidents, x.snapshot, x.monitor, x.phase.isSuccess, |sys.store.checks|, x.phase.found);
    forall id | Owning(next, id) && next.sessions[id].monitor == m
      ensures !Outdated(next, id)
    {
      assert Owning(sys, id) && Informed(sys.store, sys.sessions[id]) && Informed(sys.store, x);
      assert sys.sessions[id].monitor != x.monitor;
      OwnerSaveCommits(sys, step.id, step.channels);
      if Outdated(next, id) {
        assert OpenAt(sys.store.incidents, sys.sessions[id].phase.found.value, m);
      }
    }
  }

  lemma {:induction false} QuietKeepsLookupsOpen(sys: System, step: Step, m: MonitorId)
    requires Inv(sys) && NamedApart(sys, step) && !Saves(sys, step) && LookupsOpen(sys, m) && step != CloseOutside(m)
    ensures LookupsOpen(Apply(sys, step), m)
  {
    var next := Apply(sys, step);
    QuietTables(sys, step);
    forall id | Owning(next, id) && next.sessions[id].monitor == m
      ensures !Outdated(next, id)
    {
      OwnersPersist(sys, step, id);
      if !step.Claim? || id != sys.nextSession {
        assert !Outdated(sys, id) && Informed(sys.store, sys.sessions[id]);
      }
    }
  }

  /** Outdated lookups come only from outside closes of that very monitor. */
  lemma {:induction false} NoCloseNoOutdated(sys: System, steps: seq<Step>, m: MonitorId)
    requires Inv(sys) && LookupsOpen(sys, m) && UniquelyNamed(sys, steps) && NeverCloses(steps, m)
    ensures LookupsOpen(Run(sys, steps), m)
  {
    if steps == [] {
    } else {
      var prefix, last := steps[..|steps| - 1], steps[|steps| - 1];
      NoCloseNoOutdated(sys, prefix, m);
      RunKeepsInv(sys, prefix);
      if Saves(Run(sys, prefix), last) {
        SaveKeepsLookupsOpen(Run(sys, prefix), last, m);
      } else {
        QuietKeepsLookupsOpen(Run(sys, prefix), last, m);
      }
    }
  }

  /** So a run that closes nothing from outside is sequential. */
  lemma {:induction false} RunWithoutClosesIsSequential(sys: System, steps: seq<Step>)
    requires Initial(sys) && UniquelyNamed(sys, steps)
    requires forall i :: 0 <= i < |steps| ==> !steps[i].CloseOutside?
    ensures AllSequential(sys, steps)
    ensures Project(Run(sys, steps).store) == Replay(Project(sys.store), Log(sys, steps))
  {
    InitialInv(sys);
    if steps == [] {
    } else {
      var prefix, last := steps[..|steps| - 1], steps[|steps| - 1];
      RunWithoutClosesIsSequential(sys, prefix);
      if Saves(Run(sys, prefix), last) {
        NoCloseNoOutdated(sys, prefix, Run(sys, prefix).sessions[last.id].monitor);
      }
    }
    ConcurrentRefinesSequential(sys, steps);
  }
}
