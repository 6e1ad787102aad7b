/** What a lease is for: while it runs nobody else gets the monitor, once it has run out
    anybody can, and committed checks keep their distance. */
module ClaimLeases {
  import opened Prelude
  import opened MonitorStore
  import opened ClaimProtocol
  import opened ClaimLifecycle

  /** The row's lease has not run out. */
  predicate LeaseRuns(s: Store, m: MonitorId) {
    m in s.rows && s.rows[m].leaseUntil.Some? && s.now <= s.rows[m].leaseUntil.value
  }

  /** The worker's own session for the monitor ends its claim, by a save or a release. */
  predicate EndsOwnClaim(sys: System, step: Step, worker: WorkerId, m: MonitorId) {
    (step.Commit? || step.Release?) && Handles(sys, step.id, worker, m)
  }

  /** While a lease runs, no step gives the monitor to another worker, and only the owner's own
      session takes the claim off the row. */
  lemma {:induction false} LeaseKeepsOthersOut(sys: System, step: Step, worker: WorkerId, m: MonitorId)
    requires Owns(sys.store, worker, m) && LeaseRuns(sys.store, m)
    ensures m in Apply(sys, step).store.rows
    ensures Apply(sys, step).store.rows[m].claimedBy == Some(worker)
      || (EndsOwnClaim(sys, step, worker, m) && Apply(sys, step).store.rows[m].claimedBy == None)
  {
  }

  /** The lease runs at every step of the run. */
  predicate LeaseRunsThroughout(sys: System, steps: seq<Step>, m: MonitorId) {
    steps != [] ==>
      LeaseRunsThroughout(sys, steps[..|steps| - 1], m) && LeaseRuns(Run(sys, steps[..|steps| - 1]).store, m)
  }

  /** At some step of the run the worker's own session ends the claim. */
  predicate EndsDuring(sys: System, steps: seq<Step>, worker: WorkerId, m: MonitorId) {
    steps != [] &&
      (EndsDuring(sys, steps[..|steps| - 1], worker, m)
       || EndsOwnClaim(Run(sys, steps[..|steps| - 1]), steps[|steps| - 1], worker, m))
  }

  /** Over runs: as long as the lease keeps running, the worker owns the monitor until its own
      session ends the claim. */
  lemma {:induction false} OwnsWhileLeaseRuns(sys: System, steps: seq<Step>, worker: WorkerId, m: MonitorId)
    requires Owns(sys.store, worker, m) && LeaseRunsThroughout(sys, steps, m)
    ensures Owns(Run(sys, steps).store, worker, m) || EndsDuring(sys, steps, worker, m)
  {
    if steps == [] {
    } else {
      var prefix := steps[..|steps| - 1];
      OwnsWhileLeaseRuns(sys, prefix, worker, m);
      if Owns(Run(sys, prefix).store, worker, m) {
        LeaseKeepsOthersOut(Run(sys, prefix), steps[|steps| - 1], worker, m);
      }
    }
  }

  /** A claim succeeds if and only if the monitor is active, its interval has passed since its
      last check, and no lease runs on it; it then owns the row until the lease it asked for
      ends, with the row's outcome as its snapshot. */
  lemma {:induction false} ClaimsExactlyWhen(sys: System, worker: WorkerId, m: MonitorId, leaseSeconds: int)
    ensures var next, id := Apply(sys, Claim(worker, m, leaseSeconds)), sys.nextSession;
      if m in sys.store.rows && sys.store.rows[m].isActive && !LeaseRuns(sys.store, m)
           && (sys.store.rows[m].lastCheckedAt.Some? ==>
                 sys.store.now >= sys.store.rows[m].lastCheckedAt.value + sys.store.rows[m].intervalMs)
      then
        && next.store.rows == sys.store.rows[m := sys.store.rows[m].(
             claimedBy := Some(worker), leaseUntil := Some(sys.store.now + 1000 * leaseSeconds))]
        && id in next.sessions && next.sessions[id].worker == worker && next.sessions[id].monitor == m
        && next.sessions[id].snapshot == sys.store.rows[m].lastIsSuccess
      else next == sys
  {
  }

  /** So a claim left behind by a crash is recovered: time alone makes any active monitor
      claimable again, for any worker. */
  lemma {:induction false} AbandonedClaimsAreRecovered(sys: System, worker: WorkerId, m: MonitorId) returns (ms: nat)
    requires m in sys.store.rows && sys.store.rows[m].isActive
    ensures Owns(Apply(Apply(sys, Tick(ms)), Claim(worker, m, 60)).store, worker, m)
  {
    var row, now := sys.store.rows[m], sys.store.now;
    var leaseOver := if row.leaseUntil.Some? && row.leaseUntil.value >= now then row.leaseUntil.value + 1 - now else 0;
    var due := if row.lastCheckedAt.Some? && row.lastCheckedAt.value + row.intervalMs > now
               then row.lastCheckedAt.value + row.intervalMs - now else 0;
    ms := leaseOver + due;
    ClaimsExactlyWhen(Apply(sys, Tick(ms)), worker, m, 60);
  }

  // ------------------------------------------------------- renewals, in columns

  /** A renewal moves the end of the owner's lease and changes nothing else; anybody else's
      changes nothing. */
  lemma {:induction false} RenewalMovesLease(sys: System, id: nat, leaseSeconds: int)
    requires id in sys.hearts && sys.hearts[id].awake
    ensures var h, s, next := sys.hearts[id], sys.store, Apply(sys, Beat(id, leaseSeconds));
      if h.monitor in s.rows && s.rows[h.monitor].claimedBy == Some(h.worker) then
        && next.store == s.(rows := s.rows[h.monitor := s.rows[h.monitor].(leaseUntil := Some(s.now + 1000 * leaseSeconds))])
        && id in next.hearts
      else next.store == s && id !in next.hearts
  {
  }

  // ------------------------------------------------- committed checks keep their distance

  /** A claimed monitor was due when it was claimed, and has not been checked since. */
  ghost predicate ClaimedWereDue(s: Store) {
    forall m :: m in s.rows && s.rows[m].claimedBy.Some? && s.rows[m].lastCheckedAt.Some? ==>
      s.now >= s.rows[m].lastCheckedAt.value + s.rows[m].intervalMs
  }

  lemma {:induction false} StepKeepsClaimedDue(sys: System, step: Step)
    requires ClaimedWereDue(sys.store)
    ensures ClaimedWereDue(Apply(sys, step).store)
  {
  }

  lemma {:induction false} ClaimedAreDue(sys: System, steps: seq<Step>)
    requires Initial(sys)
    ensures ClaimedWereDue(Run(sys, steps).store)
  {
    if steps == [] {
    } else {
      ClaimedAreDue(sys, steps[..|steps| - 1]);
      StepKeepsClaimedDue(Run(sys, steps[..|steps| - 1]), steps[|steps| - 1]);
    }
  }

  lemma {:induction false} CommitRecordsTime(sys: System, step: Step, m: MonitorId)
    requires Inv(sys) && SavesFor(sys, step, m)
    ensures var next := Apply(sys, step).store;
      m in next.rows && next.rows[m].lastCheckedAt == Some(sys.store.now)
      && next.rows[m].lastIsSuccess == Some(sys.sessions[step.id].phase.isSuccess)
  {
    OwnerSaveCommits(sys, step.id, step.channels);
  }

  /** The last check of the monitor is no earlier than this, and the clock is past it. */
  predicate CheckedSince(s: Store, m: MonitorId, time: int) {
    time <= s.now && m in s.rows && s.rows[m].lastCheckedAt.Some? && s.rows[m].lastCheckedAt.value >= time
  }

  lemma {:induction false} StepKeepsCheckedSince(sys: System, step: Step, m: MonitorId, time: int)
    requires Inv(sys) && CheckedSince(sys.store, m, time)
    ensures CheckedSince(Apply(sys, step).store, m, time)
    ensures Apply(sys, step).store.rows[m].intervalMs == sys.store.rows[m].intervalMs
  {
    if Saves(sys, step) {
      OwnerSaveCommits(sys, step.id, step.channels);
    }
  }

  lemma {:induction false} RunKeepsCheckedSince(sys: System, steps: seq<Step>, m: MonitorId, time: int)
    requires Inv(sys) && UniquelyNamed(sys, steps) && CheckedSince(sys.store, m, time)
    ensures CheckedSince(Run(sys, steps).store, m, time)
  {
    if steps == [] {
    } else {
      RunKeepsCheckedSince(sys, steps[..|steps| - 1], m, time);
      RunKeepsInv(sys, steps[..|steps| - 1]);
      StepKeepsCheckedSince(Run(sys, steps[..|steps| - 1]), steps[|steps| - 1], m, time);
    }
  }

  lemma {:induction false} NamedApartSplit(sys: System, first: seq<Step>, second: seq<Step>)
    requires UniquelyNamed(sys, first + second)
    ensures UniquelyNamed(sys, first) && UniquelyNamed(Run(sys, first), second)
  {
    if second == [] {
      assert first + second == first;
    } else {
      var prefix := second[..|second| - 1];
      assert (first + second)[..|first + second| - 1] == first + prefix;
      NamedApartSplit(sys, first, prefix);
      RunSplit(sys, first, prefix);
    }
  }

  /** Over every run from empty tables: between two committed checks of one monitor lies at
      least its interval. */
  lemma {:induction false} ChecksKeepTheirDistance(sys: System, first: seq<Step>, save: Step, between: seq<Step>, next: Step, m: MonitorId)
    requires Initial(sys) && UniquelyNamed(sys, first + [save] + between)
    requires SavesFor(Run(sys, first), save, m) && SavesFor(Run(sys, first + [save] + between), next, m)
    ensures var earlier, later := Run(sys, first).store, Run(sys, first + [save] + between).store;
      m in later.rows && later.now >= earlier.now + later.rows[m].intervalMs
  {
    var saved := first + [save];
    InitialInv(sys);
    NamedApartSplit(sys, saved, between);
    NamedApartSplit(sys, first, [save]);
    RunKeepsInv(sys, first);
    RunKeepsInv(sys, saved);
    assert saved[..|first|] == first;
    CommitRecordsTime(Run(sys, first), save, m);
    CommitKeepsClock(Run(sys, first), save);
    RunKeepsCheckedSince(Run(sys, saved), between, m, Run(sys, first).store.now);
    RunSplit(sys, saved, between);
    ClaimedAreDue(sys, saved + between);
  }

  lemma {:induction false} CommitKeepsClock(sys: System, step: Step)
    requires step.Commit?
    ensures Apply(sys, step).store.now == sys.store.now
  {
  }
}
