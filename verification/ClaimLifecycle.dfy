/** What becomes of a worker's claims, and two runs that show which assumptions the
    theorems need. */
module ClaimLifecycle {
  import opened Prelude
  import opened MonitorStore
  import opened ClaimProtocol
  import opened ClaimTheorems

  // --------------------------------------------------- a batch leaves no claim

  predicate Handles(sys: System, id: nat, worker: WorkerId, m: MonitorId) {
    id in sys.sessions && sys.sessions[id].worker == worker && sys.sessions[id].monitor == m
  }

  /** Every claim of this worker is in the hands of one of its live sessions. */
  ghost predicate ClaimsBacked(sys: System, worker: WorkerId) {
    forall m :: Owns(sys.store, worker, m) ==> exists id :: Handles(sys, id, worker, m)
  }

  /** No session of this worker crashes or meets a repository error. */
  ghost predicate NoErrors(sys: System, steps: seq<Step>, worker: WorkerId) {
    steps != [] ==>
      var prefix, last := steps[..|steps| - 1], steps[|steps| - 1];
      && NoErrors(sys, prefix, worker)
      && !(last.Abort? && last.id in Run(sys, prefix).sessions && Run(sys, prefix).sessions[last.id].worker == worker)
  }

  lemma {:induction false} ClaimantsWere(sys: System, step: Step, worker: WorkerId, m: MonitorId)
    requires Inv(sys) && Owns(Apply(sys, step).store, worker, m) && !Owns(sys.store, worker, m)
    ensures step.Claim? && Handles(Apply(sys, step), sys.nextSession, worker, m)
  {
  }

  lemma {:induction false} OwnersAreStillHandled(sys: System, step: Step, worker: WorkerId, m: MonitorId, id: nat)
    requires Inv(sys) && Handles(sys, id, worker, m) && Owns(Apply(sys, step).store, worker, m) && Owns(sys.store, worker, m)
    requires step.Abort? ==> step.id != id
    ensures Handles(Apply(sys, step), id, worker, m)
  {
    if Saves(sys, step) {
      OwnerSaveCommits(sys, step.id, step.channels);
    }
  }

  lemma {:induction false} StepKeepsClaimsBacked(sys: System, step: Step, worker: WorkerId)
    requires Inv(sys) && ClaimsBacked(sys, worker)
    requires step.Abort? && step.id in sys.sessions ==> sys.sessions[step.id].worker != worker
    ensures ClaimsBacked(Apply(sys, step), worker)
  {
    forall m | Owns(Apply(sys, step).store, worker, m)
      ensures exists id :: Handles(Apply(sys, step), id, worker, m)
    {
      if !Owns(sys.store, worker, m) {
        ClaimantsWere(sys, step, worker, m);
      } else {
        var id :| Handles(sys, id, worker, m);
        OwnersAreStillHandled(sys, step, worker, m, id);
      }
    }
  }

  /** Absent errors, once the sessions of a worker's batch are over (saved, cancelled or
      lost), that worker claims none of its monitors: the batch leaves nothing behind. */
  lemma {:induction false} BatchLeavesNoClaim(sys: System, steps: seq<Step>, worker: WorkerId)
    requires Initial(sys) && UniquelyNamed(sys, steps) && NoErrors(sys, steps, worker)
    ensures ClaimsBacked(Run(sys, steps), worker)
    ensures (forall id :: id in Run(sys, steps).sessions ==> Run(sys, steps).sessions[id].worker != worker)
            ==> forall m :: !Owns(Run(sys, steps).store, worker, m)
  {
    InitialInv(sys);
    if steps == [] {
    } else {
      var prefix := steps[..|steps| - 1];
      BatchLeavesNoClaim(sys, prefix, worker);
      RunKeepsInv(sys, prefix);
      StepKeepsClaimsBacked(Run(sys, prefix), steps[|steps| - 1], worker);
    }
    var end := Run(sys, steps);
    forall m | forall id :: id in end.sessions ==> end.sessions[id].worker != worker
      ensures !Owns(end.store, worker, m)
    {
      assert forall id :: !Handles(end, id, worker, m);
    }
  }

  // ------------------------------------------- no renewal after the clearing

  /** A heartbeat runs only for a live session that has not joined it yet. */
  predicate Tended(sys: System, id: nat) {
    id in sys.hearts ==>
      && id in sys.sessions
      && sys.sessions[id].worker == sys.hearts[id].worker && sys.sessions[id].monitor == sys.hearts[id].monitor
      && (sys.sessions[id].phase.Running? || sys.sessions[id].phase.Stopping?)
  }

  ghost predicate HeartsTended(sys: System) {
    forall id: nat :: Tended(sys, id)
  }

  lemma {:induction false} StepKeepsHeartsTended(sys: System, step: Step)
    requires SessionsNamedApart(sys) && HeartsTended(sys)
    ensures HeartsTended(Apply(sys, step))
  {
    forall id: nat
      ensures Tended(Apply(sys, step), id)
    {
      assert Tended(sys, id);
      StepKeepsTended(sys, step, id);
    }
  }

  lemma {:induction false} StepKeepsTended(sys: System, step: Step, id: nat)
    requires SessionsNamedApart(sys) && Tended(sys, id)
    ensures Tended(Apply(sys, step), id)
  {
  }

  /** The worker has something under way for the monitor: a session, or a heartbeat. */
  predicate Engaged(sys: System, id: nat, worker: WorkerId, m: MonitorId) {
    Handles(sys, id, worker, m)
    || (id in sys.hearts && sys.hearts[id].worker == worker && sys.hearts[id].monitor == m)
  }

  /** This step issues a renewal by the worker for the monitor. */
  predicate Renews(sys: System, step: Step, worker: WorkerId, m: MonitorId) {
    || (step.Start? && Handles(sys, step.id, worker, m) && sys.sessions[step.id].phase.Starting?)
    || (step.Beat? && step.id in sys.hearts && sys.hearts[step.id].awake
        && sys.hearts[step.id].worker == worker && sys.hearts[step.id].monitor == m)
  }

  /** This step takes the worker's claim off the row. */
  predicate Clears(sys: System, step: Step, worker: WorkerId, m: MonitorId) {
    Owns(sys.store, worker, m) && m in Apply(sys, step).store.rows && Apply(sys, step).store.rows[m].claimedBy.None?
  }

  /** Only a commit or a release clears a claim: by the worker's session for the monitor,
      which has joined its heartbeat and is then over. */
  lemma {:induction false} ClearingComesAfterJoin(sys: System, step: Step, worker: WorkerId, m: MonitorId)
    requires Inv(sys) && HeartsTended(sys) && Clears(sys, step, worker, m)
    ensures (step.Commit? || step.Release?) && Handles(sys, step.id, worker, m)
    ensures step.id !in sys.hearts && step.id !in Apply(sys, step).sessions
  {
    if Saves(sys, step) {
      OwnerSaveCommits(sys, step.id, step.channels);
    }
    if step.Commit? || step.Release? {
      assert Tended(sys, step.id);
    }
  }

  lemma {:induction false} ClearingEndsEngagement(sys: System, step: Step, worker: WorkerId, m: MonitorId, id: nat)
    requires Inv(sys) && HeartsTended(sys) && Clears(sys, step, worker, m)
    ensures !Engaged(Apply(sys, step), id, worker, m)
  {
    ClearingComesAfterJoin(sys, step, worker, m);
    assert Tended(sys, id);
  }

  /** Only a claim engages the worker anew. */
  lemma {:induction false} OnlyClaimsEngage(sys: System, step: Step, worker: WorkerId, m: MonitorId, id: nat)
    requires !(step.Claim? && step.worker == worker && step.monitor == m)
    requires Engaged(Apply(sys, step), id, worker, m)
    ensures Engaged(sys, id, worker, m)
  {
  }

  predicate ClaimsAgain(steps: seq<Step>, worker: WorkerId, m: MonitorId) {
    exists i :: 0 <= i < |steps| && steps[i].Claim? && steps[i].worker == worker && steps[i].monitor == m
  }

  lemma {:induction false} RunKeepsHeartsTended(sys: System, steps: seq<Step>)
    requires Initial(sys) && UniquelyNamed(sys, steps)
    ensures Inv(Run(sys, steps)) && HeartsTended(Run(sys, steps))
  {
    InitialInv(sys);
    if steps == [] {
    } else {
      RunKeepsHeartsTended(sys, steps[..|steps| - 1]);
      StepKeepsHeartsTended(Run(sys, steps[..|steps| - 1]), steps[|steps| - 1]);
      StepKeepsInv(Run(sys, steps[..|steps| - 1]), steps[|steps| - 1]);
    }
  }

  lemma {:induction false} StaysDisengaged(sys: System, steps: seq<Step>, worker: WorkerId, m: MonitorId)
    requires forall id: nat :: !Engaged(sys, id, worker, m)
    requires !ClaimsAgain(steps, worker, m)
    ensures forall id: nat :: !Engaged(Run(sys, steps), id, worker, m)
  {
    if steps == [] {
    } else {
      var prefix, last := steps[..|steps| - 1], steps[|steps| - 1];
      assert forall i :: 0 <= i < |prefix| ==> prefix[i] == steps[i];
      StaysDisengaged(sys, prefix, worker, m);
      forall id: nat
        ensures !Engaged(Run(sys, steps), id, worker, m)
      {
        assert !Engaged(Run(sys, prefix), id, worker, m);
        if Engaged(Run(sys, steps), id, worker, m) {
          OnlyClaimsEngage(Run(sys, prefix), last, worker, m, id);
        }
      }
    }
  }

  lemma {:induction false} RunSplit(sys: System, first: seq<Step>, second: seq<Step>)
    ensures Run(sys, first + second) == Run(Run(sys, first), second)
  {
    if second == [] {
      assert first + second == first;
    } else {
      RunSplit(sys, first, second[..|second| - 1]);
      assert (first + second)[..|first + second| - 1] == first + second[..|second| - 1];
    }
  }

  /** Over every run: from the step that clears a worker's claim on a monitor until the
      worker claims that monitor again, it issues no renewal for it, by whatever session
      or heartbeat. */
  lemma {:induction false} NoRenewalAfterClearing(sys: System, before: seq<Step>, clearing: Step, between: seq<Step>,
                                                  step: Step, worker: WorkerId, m: MonitorId)
    requires Initial(sys) && UniquelyNamed(sys, before) && Clears(Run(sys, before), clearing, worker, m)
    requires !ClaimsAgain(between, worker, m)
    ensures !Renews(Run(sys, before + [clearing] + between), step, worker, m)
  {
    var cleared := Apply(Run(sys, before), clearing);
    RunKeepsHeartsTended(sys, before);
    forall id: nat
      ensures !Engaged(cleared, id, worker, m)
    {
      ClearingEndsEngagement(Run(sys, before), clearing, worker, m, id);
    }
    assert (before + [clearing])[..|before|] == before;
    assert Run(sys, before + [clearing]) == cleared;
    RunSplit(sys, before + [clearing], between);
    StaysDisengaged(cleared, between, worker, m);
    var end := Run(sys, before + [clearing] + between);
    assert (step.Start? || step.Beat?) ==> !Engaged(end, step.id, worker, m);
  }

  // ------------------------------------------------------ two instructive runs

  function EmptySystem(): System {
    System(Store(0, map[], [], [], []), map[], map[], 0)
  }

  /** The steps lead from empty tables to this system, with unique names throughout. */
  ghost predicate Leads(steps: seq<Step>, sys: System) {
    Run(EmptySystem(), steps) == sys && UniquelyNamed(EmptySystem(), steps)
  }

  lemma Then(steps: seq<Step>, sys: System, step: Step)
    requires Run(EmptySystem(), steps) == sys
    ensures Run(EmptySystem(), steps + [step]) == Apply(sys, step)
    ensures Leads(steps, sys) && NamedApart(sys, step) ==> Leads(steps + [step], Apply(sys, step))
  {
    assert (steps + [step])[..|steps + [step]| - 1] == steps;
  }

  /** One check of monitor 1 by a worker, up to the lookup of its save. */
  function CheckSteps(id: nat, worker: WorkerId, isSuccess: bool): seq<Step> {
    [Claim(worker, 1, 60)] + [Start(id, 60)] + [EndHeartbeat(id)]
    + [Finish(id, Some(isSuccess))] + [Join(id)] + [Lookup(id)]
  }

  function AfterCheck(sys: System, worker: WorkerId, isSuccess: bool): System
    requires 1 in sys.store.rows
  {
    var last := sys.store.rows[1].lastIsSuccess;
    System(ClaimMonitor(sys.store, worker, 1, 60),
           sys.sessions[sys.nextSession :=
             Session(worker, 1, last, Saving(isSuccess, LookupOpenIncident(sys.store, last, 1)))],
           sys.hearts,
           sys.nextSession + 1)
  }

  /** The same up to the start of the check proper. */
  function AfterStart(sys: System, worker: WorkerId): System
    requires 1 in sys.store.rows
  {
    System(ClaimMonitor(sys.store, worker, 1, 60),
           sys.sessions[sys.nextSession := Session(worker, 1, sys.store.rows[1].lastIsSuccess, Running)],
           sys.hearts[sys.nextSession := Heart(worker, 1, false)],
           sys.nextSession + 1)
  }

  lemma {:induction false} Started(sys: System, worker: WorkerId)
    requires 1 in sys.store.rows && Claimable(sys.store.rows[1], sys.store.now)
    ensures Apply(Apply(sys, Claim(worker, 1, 60)), Start(sys.nextSession, 60)) == AfterStart(sys, worker)
  {
  }

  lemma {:induction false} Checked(sys: System, worker: WorkerId, isSuccess: bool)
    requires 1 in sys.store.rows && sys.nextSession !in sys.hearts
    ensures var id := sys.nextSession;
      var ended := Apply(AfterStart(sys, worker), EndHeartbeat(id));
      Apply(Apply(Apply(ended, Finish(id, Some(isSuccess))), Join(id)), Lookup(id)) == AfterCheck(sys, worker, isSuccess)
  {
    var id := sys.nextSession;
    var ended := Apply(AfterStart(sys, worker), EndHeartbeat(id));
    assert ended.hearts == sys.hearts;
    var joined := Apply(Apply(ended, Finish(id, Some(isSuccess))), Join(id));
    assert joined.sessions[id].phase == Finishing(Some(isSuccess)) && joined.hearts == sys.hearts;
  }

  lemma {:induction false} ThenCheck(steps: seq<Step>, sys: System, worker: WorkerId, isSuccess: bool)
    requires Run(EmptySystem(), steps) == sys
    requires 1 in sys.store.rows && Claimable(sys.store.rows[1], sys.store.now) && sys.nextSession !in sys.hearts
    ensures var longer := steps + CheckSteps(sys.nextSession, worker, isSuccess);
      && Run(EmptySystem(), longer) == AfterCheck(sys, worker, isSuccess)
      && (Leads(steps, sys) && NamedApart(sys, Claim(worker, 1, 60)) ==> Leads(longer, AfterCheck(sys, worker, isSuccess)))
  {
    var id := sys.nextSession;
    var s1 := Apply(sys, Claim(worker, 1, 60));
    var s2 := AfterStart(sys, worker);
    Started(sys, worker);
    Then(steps, sys, Claim(worker, 1, 60));
    var l1 := steps + [Claim(worker, 1, 60)];
    Then(l1, s1, Start(id, 60));
    var l2 := l1 + [Start(id, 60)];
    Then(l2, s2, EndHeartbeat(id));
    var l3, s3 := l2 + [EndHeartbeat(id)], Apply(s2, EndHeartbeat(id));
    Then(l3, s3, Finish(id, Some(isSuccess)));
    var l4, s4 := l3 + [Finish(id, Some(isSuccess))], Apply(s3, Finish(id, Some(isSuccess)));
    Then(l4, s4, Join(id));
    var l5, s5 := l4 + [Join(id)], Apply(s4, Join(id));
    Then(l5, s5, Lookup(id));
    Checked(sys, worker, isSuccess);
    assert steps + CheckSteps(id, worker, isSuccess) == l5 + [Lookup(id)];
  }

  /** Monitor 1, always due, right after a committed failure that opened its incident. */
  function JustFailed(now: int, sessions: map<nat, Session>, nextSession: nat): System {
    System(Store(now, map[1 := MonitorRow(true, 0, Some(now), Some(false), None, None)], [Check(1, false)],
                 [Incident(1, 0, 0, 1, Open)], []),
           sessions, map[], nextSession)
  }

  function JustCreated(): System {
    Apply(EmptySystem(), Create(1, 0))
  }

  lemma FirstFailureOpens()
    ensures Apply(AfterCheck(JustCreated(), "a", false), Commit(0, [])) == JustFailed(0, map[], 1)
  {
  }

  lemma CloseThenCommit()
    ensures var after := Apply(Apply(AfterCheck(JustFailed(0, map[], 1), "a", false), CloseOutside(1)), Commit(1, []));
      1 in after.store.rows && after.store.rows[1].lastIsSuccess == Some(false) && !HasOpen(after.store, 1)
  {
    var closed := Apply(AfterCheck(JustFailed(0, map[], 1), "a", false), CloseOutside(1));
    assert closed.store.incidents == [Incident(1, 0, 0, 1, ClosedOutside)];
  }

  /** Closing an incident between a save's lookup and its write leaves a monitor whose
      last committed check failed without an open incident. */
  lemma CloseDuringSaveLeavesNoIncident() returns (steps: seq<Step>, after: System)
    ensures Leads(steps, after)
    ensures 1 in after.store.rows && after.store.rows[1].lastIsSuccess == Some(false) && !HasOpen(after.store, 1)
  {
    var failed := JustFailed(0, map[], 1);
    Then([], EmptySystem(), Create(1, 0));
    ThenCheck([] + [Create(1, 0)], JustCreated(), "a", false);
    steps := [] + [Create(1, 0)] + CheckSteps(JustCreated().nextSession, "a", false);
    Then(steps, AfterCheck(JustCreated(), "a", false), Commit(0, []));
    FirstFailureOpens();
    steps := steps + [Commit(0, [])];
    ThenCheck(steps, failed, "a", false);
    steps := steps + CheckSteps(failed.nextSession, "a", false);
    Then(steps, AfterCheck(failed, "a", false), CloseOutside(1));
    steps := steps + [CloseOutside(1)];
    after := Apply(AfterCheck(failed, "a", false), CloseOutside(1));
    Then(steps, after, Commit(1, []));
    steps, after := steps + [Commit(1, [])], Apply(after, Commit(1, []));
    CloseThenCommit();
  }

  function OneStalled(): map<nat, Session> {
    map[0 := Session("a", 1, None, Saving(true, None))]
  }

  lemma SecondSessionFails()
    ensures var expired := Apply(AfterCheck(JustCreated(), "a", true), Tick(60001));
      && Claimable(expired.store.rows[1], expired.store.now)
      && Apply(AfterCheck(expired, "a", false), Commit(1, [])) == JustFailed(60001, OneStalled(), 2)
  {
  }

  lemma StaleSessionSucceeds()
    ensures var after := Apply(AfterCheck(JustFailed(60001, OneStalled(), 2), "a", false), Commit(0, []));
      OpenAt(after.store.incidents, 0, 1) && after.store.rows[1].lastIsSuccess == Some(true)
  {
  }

  /** Two live sessions of one worker handle the same monitor. */
  ghost predicate SharesName(sys: System) {
    exists a, b, worker, m :: a != b && Handles(sys, a, worker, m) && Handles(sys, b, worker, m)
  }

  /** A worker stalls before its save, its lease runs out, and another worker of the same
      name claims the monitor. */
  lemma {:induction false} SecondSessionStarts() returns (steps: seq<Step>, both: System)
    ensures Run(EmptySystem(), steps) == both && SharesName(both)
    ensures Apply(both, Commit(1, [])) == JustFailed(60001, OneStalled(), 2)
  {
    var stalled := AfterCheck(JustCreated(), "a", true);
    Then([], EmptySystem(), Create(1, 0));
    ThenCheck([] + [Create(1, 0)], JustCreated(), "a", true);
    steps := [] + [Create(1, 0)] + CheckSteps(JustCreated().nextSession, "a", true);
    Then(steps, stalled, Tick(60001));
    steps := steps + [Tick(60001)];
    SecondSessionFails();
    var expired := Apply(stalled, Tick(60001));
    ThenCheck(steps, expired, "a", false);
    steps, both := steps + CheckSteps(expired.nextSession, "a", false), AfterCheck(expired, "a", false);
    assert Handles(both, 0, "a", 1) && Handles(both, 1, "a", 1);
  }

  /** A run in which, at some point, two live sessions share a worker name; the stale one
      then passes the ownership guard and records a success over an open incident. */
  lemma {:induction false} SharedNameBreaksIncidents() returns (steps: seq<Step>, shared: nat)
    ensures shared <= |steps| && SharesName(Run(EmptySystem(), steps[..shared]))
    ensures !IncidentsSound(Run(EmptySystem(), steps).store)
  {
    var first, both := SecondSessionStarts();
    var failed := JustFailed(60001, OneStalled(), 2);
    shared := |first|;
    Then(first, both, Commit(1, []));
    ThenCheck(first + [Commit(1, [])], failed, "a", false);
    steps := first + [Commit(1, [])] + CheckSteps(failed.nextSession, "a", false);
    Then(steps, AfterCheck(failed, "a", false), Commit(0, []));
    steps := steps + [Commit(0, [])];
    assert steps[..shared] == first;
    StaleSessionSucceeds();
  }
}
