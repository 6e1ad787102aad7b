/** One queued notification and the workers that try to deliver it. */
module NotificationDelivery {
  import opened Prelude
  import opened Leases

  type WorkerId = string

  datatype Status = Pending | Delivered | Failed

  /** A row of notification_deliveries; times in milliseconds. */
  datatype Row = Row(
    status: Status,
    attempts: nat,
    nextAttemptAt: Option<int>,
    claimedBy: Option<WorkerId>,
    leaseUntil: Option<int>,
    createdAt: int)

  datatype Config = Config(maxAttempts: nat, retryBaseSeconds: nat)

  predicate ValidConfig(c: Config) {
    c.maxAttempts > 0 && 0 < c.retryBaseSeconds && 64 * c.retryBaseSeconds < I64_RANGE
  }

  // --------------------------------------------------------------- back-off

  function Pow2(n: nat): nat { if n == 0 then 1 else 2 * Pow2(n - 1) }

  /** Doubles with each attempt up to the seventh, then stays; saturates at i64::MAX. */
  function RetryDelaySeconds(base: nat, attemptNumber: nat): nat {
    var exponent := if attemptNumber <= 1 then 0 else Min(attemptNumber - 1, 6);
    Min(base * Pow2(exponent), I64_RANGE - 1)
  }

  function TotalBackOffSeconds(base: nat, retries: nat): nat {
    if retries == 0 then 0 else TotalBackOffSeconds(base, retries - 1) + RetryDelaySeconds(base, retries)
  }

  lemma SmallPowers()
    ensures Pow2(0) == 1 && Pow2(6) == 64 && Pow2(7) == 128
    ensures forall k :: 0 <= k <= 6 ==> 1 <= Pow2(k) <= 64
  {
    assert Pow2(1) == 2 && Pow2(2) == 4 && Pow2(3) == 8;
    assert Pow2(4) == 16 && Pow2(5) == 32;
  }

  lemma DelayBelowSaturation(base: nat, n: nat)
    requires 64 * base < I64_RANGE && n >= 1
    ensures RetryDelaySeconds(base, n) == if n <= 7 then base * Pow2(n - 1) else 64 * base
  {
    SmallPowers();
    var p := Pow2(if n <= 7 then n - 1 else 6);
    assert base * p + base * (64 - p) == base * 64;
  }

  lemma {:induction false} BackOffUpToSeventh(base: nat, n: nat)
    requires 64 * base < I64_RANGE && n <= 7
    ensures TotalBackOffSeconds(base, n) == base * (Pow2(n) - 1)
  {
    if n == 0 {
    } else {
      BackOffUpToSeventh(base, n - 1);
      DelayBelowSaturation(base, n);
      SmallPowers();
      Doubling(base, Pow2(n - 1));
    }
  }

  lemma {:induction false} BackOffAfterSeventh(base: nat, n: nat)
    requires 64 * base < I64_RANGE && n >= 7
    ensures TotalBackOffSeconds(base, n) == base * 127 + (n - 7) * (64 * base)
  {
    if n == 7 {
      BackOffUpToSeventh(base, 7);
      SmallPowers();
    } else {
      BackOffAfterSeventh(base, n - 1);
      DelayBelowSaturation(base, n);
      SplitProduct(n - 8, 1, 64 * base);
    }
  }

  /** Short of saturation, n retries wait base * (2^n - 1) seconds in all up to the
      seventh, and 64 * base more for each retry after it. */
  lemma {:induction false} TotalBackOffClosedForm(base: nat, n: nat)
    requires 64 * base < I64_RANGE
    ensures TotalBackOffSeconds(base, n) == if n <= 7 then base * (Pow2(n) - 1) else base * 127 + (n - 7) * (64 * base)
  {
    if n <= 7 {
      BackOffUpToSeventh(base, n);
    } else {
      BackOffAfterSeventh(base, n);
    }
  }

  lemma Doubling(base: nat, p: nat)
    requires p >= 1
    ensures base * (2 * p - 1) == base * (p - 1) + base * p
  {
  }

  // ------------------------------------------------------------- statements

  predicate Owns(r: Row, worker: WorkerId) { r.claimedBy == Some(worker) }

  /** A later attempt may still happen: pending, or failed with a next attempt. */
  predicate Retryable(r: Row) {
    r.status.Pending? || (r.status.Failed? && r.nextAttemptAt.Some?)
  }

  predicate Claimable(r: Row, now: int) {
    && Retryable(r)
    && r.nextAttemptAt.Some? && r.nextAttemptAt.value <= now
    && (r.leaseUntil.None? || r.leaseUntil.value < now)
  }

  function Claimed(r: Row, worker: WorkerId, now: int, leaseSeconds: int): Row {
    r.(claimedBy := Some(worker), leaseUntil := Some(now + 1000 * leaseSeconds))
  }

  function ExtendClaim(r: Row, worker: WorkerId, now: int, leaseSeconds: int): Row {
    if Owns(r, worker) then r.(leaseUntil := Some(now + 1000 * leaseSeconds)) else r
  }

  function MarkDelivered(r: Row, worker: WorkerId): Row {
    if Owns(r, worker) then
      r.(status := Delivered, attempts := r.attempts + 1, claimedBy := None, leaseUntil := None)
    else r
  }

  /** Sets the status to failed even when another attempt is scheduled. */
  function MarkFailed(r: Row, worker: WorkerId, nextAttemptAt: Option<int>): Row {
    if Owns(r, worker) then
      r.(status := Failed, attempts := r.attempts + 1, nextAttemptAt := nextAttemptAt, claimedBy := None, leaseUntil := None)
    else r
  }

  function ReleaseClaim(r: Row, worker: WorkerId): Row {
    if Owns(r, worker) then r.(claimedBy := None, leaseUntil := None) else r
  }

  /** When to try again after a failure of an attempt claimed at this attempt count. */
  function NextAttempt(c: Config, claimedAttempts: nat, transient: bool, now: int): Option<int> {
    if transient && claimedAttempts + 1 < c.maxAttempts
    then Some(now + 1000 * RetryDelaySeconds(c.retryBaseSeconds, claimedAttempts + 1))
    else None
  }

  // ---------------------------------------------------------- state machine

  /** Workers holding this delivery, with the attempt count they claimed it at. */
  datatype System = System(row: Row, sessions: map<WorkerId, nat>, now: int)

  datatype Step =
    | Claim(worker: WorkerId, leaseSeconds: int, channelActive: bool)
    | Extend(worker: WorkerId, leaseSeconds: int)
    | SendSucceeded(worker: WorkerId)
    | SendFailed(worker: WorkerId, transient: bool)
    | Release(worker: WorkerId)
    | Drop(worker: WorkerId)       // crash, error or lease lost: nothing is written
    | Tick(ms: nat)

  function Apply(c: Config, sys: System, step: Step): System {
    match step
    case Claim(w, secs, channelActive) =>
      if channelActive && Claimable(sys.row, sys.now) then
        System(Claimed(sys.row, w, sys.now, secs), sys.sessions[w := sys.row.attempts], sys.now)
      else sys
    case Extend(w, secs) =>
      if w in sys.sessions then
        var next := sys.(row := ExtendClaim(sys.row, w, sys.now, secs));
        if Owns(sys.row, w) then next else next.(sessions := sys.sessions - {w})
      else sys
    case SendSucceeded(w) =>
      if w in sys.sessions then sys.(row := MarkDelivered(sys.row, w), sessions := sys.sessions - {w}) else sys
    case SendFailed(w, transient) =>
      if w in sys.sessions then
        sys.(row := MarkFailed(sys.row, w, NextAttempt(c, sys.sessions[w], transient, sys.now)),
             sessions := sys.sessions - {w})
      else sys
    case Release(w) =>
      if w in sys.sessions then sys.(row := ReleaseClaim(sys.row, w), sessions := sys.sessions - {w}) else sys
    case Drop(w) => sys.(sessions := sys.sessions - {w})
    case Tick(ms) => sys.(now := sys.now + ms)
  }

  function Run(c: Config, sys: System, steps: seq<Step>): System {
    if steps == [] then sys
    else Apply(c, Run(c, sys, steps[..|steps| - 1]), steps[|steps| - 1])
  }

  /** Worker names are unique and a worker finishes its batch before it claims again. */
  predicate NamedApart(sys: System, step: Step) {
    step.Claim? ==> step.worker !in sys.sessions
  }

  predicate UniquelyNamed(c: Config, sys: System, steps: seq<Step>) {
    steps != [] ==>
      && UniquelyNamed(c, sys, steps[..|steps| - 1])
      && NamedApart(Run(c, sys, steps[..|steps| - 1]), steps[|steps| - 1])
  }

  predicate JustQueued(sys: System) {
    sys.row == Row(Pending, 0, Some(sys.now), None, None, sys.now) && sys.sessions == map[]
  }

  /** The earliest moment at which an attempt after `attempts` failures can happen. */
  function Earliest(c: Config, r: Row): int {
    r.createdAt + 1000 * TotalBackOffSeconds(c.retryBaseSeconds, r.attempts)
  }

  ghost predicate Inv(c: Config, sys: System) {
    var r := sys.row;
    && (r.status.Pending? <==> r.attempts == 0)
    && r.attempts <= c.maxAttempts
    && (Retryable(r) ==> r.attempts < c.maxAttempts && r.nextAttemptAt.Some? && Earliest(c, r) <= r.nextAttemptAt.value)
    && (!Retryable(r) ==> r.claimedBy.None?)
    && (r.claimedBy.Some? ==> Earliest(c, r) <= sys.now)
    && (r.claimedBy.Some? && r.claimedBy.value in sys.sessions ==> sys.sessions[r.claimedBy.value] == r.attempts)
  }

  lemma StepKeepsInv(c: Config, sys: System, step: Step)
    requires ValidConfig(c) && Inv(c, sys) && NamedApart(sys, step)
    ensures Inv(c, Apply(c, sys, step))
  {
    if step.SendFailed? {
      assert TotalBackOffSeconds(c.retryBaseSeconds, sys.row.attempts + 1)
        == TotalBackOffSeconds(c.retryBaseSeconds, sys.row.attempts)
           + RetryDelaySeconds(c.retryBaseSeconds, sys.row.attempts + 1);
    }
  }

  /** Over every interleaving: the attempts of a delivery stay below the maximum while
      another may follow, and no attempt is scheduled before the back-offs of all earlier
      failures have passed since it was queued. */
  lemma {:induction false} AttemptsAndBackOff(c: Config, sys: System, steps: seq<Step>)
    requires ValidConfig(c) && JustQueued(sys) && UniquelyNamed(c, sys, steps)
    ensures Inv(c, Run(c, sys, steps))
    ensures var r := Run(c, sys, steps).row;
      && r.attempts <= c.maxAttempts
      && (Retryable(r) ==> r.attempts < c.maxAttempts)
      && (r.status.Pending? ==> r.attempts == 0)
      && (Retryable(r) && r.attempts <= 7 ==>
            r.createdAt + 1000 * (c.retryBaseSeconds * (Pow2(r.attempts) - 1)) <= r.nextAttemptAt.value)
  {
    if steps == [] {
    } else {
      var prefix := steps[..|steps| - 1];
      AttemptsAndBackOff(c, sys, prefix);
      StepKeepsInv(c, Run(c, sys, prefix), steps[|steps| - 1]);
    }
    TotalBackOffClosedForm(c.retryBaseSeconds, Run(c, sys, steps).row.attempts);
  }

  /** A finished delivery (delivered, or failed for good) never changes again, and a row
      that has left pending never returns to it. */
  lemma {:induction false} FinishedIsFinal(c: Config, sys: System, steps: seq<Step>)
    requires ValidConfig(c) && Inv(c, sys) && UniquelyNamed(c, sys, steps)
    ensures Inv(c, Run(c, sys, steps))
    ensures !Retryable(sys.row) ==> Run(c, sys, steps).row == sys.row
    ensures !sys.row.status.Pending? ==> !Run(c, sys, steps).row.status.Pending?
    ensures sys.row.attempts <= Run(c, sys, steps).row.attempts
  {
    if steps == [] {
    } else {
      var prefix := steps[..|steps| - 1];
      FinishedIsFinal(c, sys, prefix);
      StepKeepsInv(c, Run(c, sys, prefix), steps[|steps| - 1]);
    }
  }

  /** Updates by a worker that does not own the row change nothing. */
  lemma OnlyTheOwnerWrites(c: Config, sys: System, step: Step)
    requires !step.Claim?
    requires Apply(c, sys, step).row != sys.row
    ensures !step.Tick? && !step.Drop? && Owns(sys.row, step.worker)
  {
  }

  /** While a delivery's lease runs nobody else gets it; a claim that succeeds takes a due,
      unfinished delivery of an active channel, and no other. */
  lemma {:induction false} ClaimsExactlyWhen(c: Config, sys: System, worker: WorkerId, leaseSeconds: int, channelActive: bool)
    ensures var r, next := sys.row, Apply(c, sys, Claim(worker, leaseSeconds, channelActive));
      if channelActive && !r.status.Delivered? && r.nextAttemptAt.Some? && r.nextAttemptAt.value <= sys.now
           && !(r.leaseUntil.Some? && sys.now <= r.leaseUntil.value)
      then next.row == r.(claimedBy := Some(worker), leaseUntil := Some(sys.now + 1000 * leaseSeconds))
        && worker in next.sessions && next.sessions[worker] == r.attempts
      else next == sys
  {
  }

  lemma RunConcat(c: Config, sys: System, steps: seq<Step>, step: Step)
    requires UniquelyNamed(c, sys, steps) && NamedApart(Run(c, sys, steps), step)
    ensures UniquelyNamed(c, sys, steps + [step]) && Run(c, sys, steps + [step]) == Apply(c, Run(c, sys, steps), step)
  {
    assert (steps + [step])[..|steps + [step]| - 1] == steps;
  }

  function WaitFor(target: int, now: int): nat {
    if target >= now then target - now else 0
  }

  lemma {:induction false} RetryCanDeliver(c: Config, sys: System, worker: WorkerId) returns (steps: seq<Step>)
    requires Retryable(sys.row) && sys.row.nextAttemptAt.Some? && worker !in sys.sessions
    ensures UniquelyNamed(c, sys, steps) && Run(c, sys, steps).row.status.Delivered?
  {
    var lease := if sys.row.leaseUntil.Some? then sys.row.leaseUntil.value + 1 else sys.now;
    var due := if lease >= sys.row.nextAttemptAt.value then lease else sys.row.nextAttemptAt.value;
    var tick, claim, sent := Tick(WaitFor(due, sys.now)), Claim(worker, 60, true), SendSucceeded(worker);
    ClaimedThenSent(c, sys, worker, due);
    RunConcat(c, sys, [], tick);
    RunConcat(c, sys, [] + [tick], claim);
    RunConcat(c, sys, [] + [tick] + [claim], sent);
    steps := [] + [tick] + [claim] + [sent];
  }

  lemma {:induction false} ClaimedThenSent(c: Config, sys: System, worker: WorkerId, due: int)
    requires Retryable(sys.row) && sys.row.nextAttemptAt.Some? && worker !in sys.sessions
    requires due >= sys.row.nextAttemptAt.value && (sys.row.leaseUntil.Some? ==> sys.row.leaseUntil.value < due)
    ensures var ready := Apply(c, sys, Tick(WaitFor(due, sys.now)));
      && worker !in ready.sessions
      && Apply(c, Apply(c, ready, Claim(worker, 60, true)), SendSucceeded(worker)).row.status.Delivered?
  {
  }

  /** "Failed" is final exactly when no next attempt is scheduled: the code also marks a
      delivery failed while its retry is pending. */
  lemma FailedIsFinalExactlyWhen(c: Config, sys: System, worker: WorkerId)
    requires ValidConfig(c) && Inv(c, sys) && sys.row.status.Failed? && worker !in sys.sessions
    ensures (forall steps :: UniquelyNamed(c, sys, steps) ==> Run(c, sys, steps).row.status.Failed?)
            <==> sys.row.nextAttemptAt.None?
  {
    if sys.row.nextAttemptAt.None? {
      forall steps | UniquelyNamed(c, sys, steps)
        ensures Run(c, sys, steps).row.status.Failed?
      {
        FinishedIsFinal(c, sys, steps);
      }
    } else {
      var steps := RetryCanDeliver(c, sys, worker);
    }
  }

  lemma {:induction false} RunAppend(c: Config, sys: System, first: seq<Step>, second: seq<Step>)
    requires UniquelyNamed(c, sys, first) && UniquelyNamed(c, Run(c, sys, first), second)
    ensures UniquelyNamed(c, sys, first + second) && Run(c, sys, first + second) == Run(c, Run(c, sys, first), second)
  {
    if second == [] {
      assert first + second == first;
    } else {
      RunAppend(c, sys, first, second[..|second| - 1]);
      assert (first + second)[..|first + second| - 1] == first + second[..|second| - 1];
    }
  }

  /** The run marks the delivery failed at some point and has delivered it at the end. */
  ghost predicate FailsThenDelivers(c: Config, sys: System, steps: seq<Step>, failedAt: nat) {
    && UniquelyNamed(c, sys, steps) && failedAt <= |steps|
    && Run(c, sys, steps[..failedAt]).row.status.Failed?
    && Run(c, sys, steps).row.status.Delivered?
  }

  lemma {:induction false} FirstAttemptFails(c: Config, sys: System, worker: WorkerId)
    requires ValidConfig(c) && c.maxAttempts > 1 && JustQueued(sys)
    ensures var steps := [] + [Claim(worker, 60, true)] + [SendFailed(worker, true)];
      && UniquelyNamed(c, sys, steps)
      && var failed := Run(c, sys, steps);
      && failed.row.status.Failed? && failed.row.nextAttemptAt.Some? && worker !in failed.sessions
  {
    RunConcat(c, sys, [], Claim(worker, 60, true));
    RunConcat(c, sys, [] + [Claim(worker, 60, true)], SendFailed(worker, true));
  }

  lemma {:induction false} RetryAfterFailureDelivers(c: Config, sys: System, worker: WorkerId) returns (steps: seq<Step>, failedAt: nat)
    requires ValidConfig(c) && c.maxAttempts > 1 && JustQueued(sys)
    ensures FailsThenDelivers(c, sys, steps, failedAt)
  {
    var first := [] + [Claim(worker, 60, true)] + [SendFailed(worker, true)];
    FirstAttemptFails(c, sys, worker);
    var second := RetryCanDeliver(c, Run(c, sys, first), worker);
    RunAppend(c, sys, first, second);
    steps, failedAt := first + second, |first|;
    assert steps[..failedAt] == first;
  }

  lemma {:induction false} PrefixesAreNamedApart(c: Config, sys: System, steps: seq<Step>, n: nat)
    requires UniquelyNamed(c, sys, steps) && n <= |steps|
    ensures UniquelyNamed(c, sys, steps[..n]) && UniquelyNamed(c, Run(c, sys, steps[..n]), steps[n..])
    ensures Run(c, sys, steps) == Run(c, Run(c, sys, steps[..n]), steps[n..])
  {
    if n == |steps| {
      assert steps[..n] == steps;
    } else {
      var prefix := steps[..|steps| - 1];
      PrefixesAreNamedApart(c, sys, prefix, n);
      assert prefix[..n] == steps[..n] && prefix[n..] == steps[n..][..|steps| - n - 1];
    }
  }

  /** From the moment it is queued, a delivery can be marked failed and still be delivered
      if and only if more than one attempt is allowed. */
  lemma {:induction false} FailedIsDeliveredExactlyWhen(c: Config, sys: System)
    requires ValidConfig(c) && JustQueued(sys)
    ensures (exists steps, failedAt :: FailsThenDelivers(c, sys, steps, failedAt)) <==> c.maxAttempts > 1
  {
    if c.maxAttempts > 1 {
      var steps, failedAt := RetryAfterFailureDelivers(c, sys, "worker");
    }
    forall steps, failedAt | FailsThenDelivers(c, sys, steps, failedAt)
      ensures c.maxAttempts > 1
    {
      PrefixesAreNamedApart(c, sys, steps, failedAt);
      AttemptsAndBackOff(c, sys, steps[..failedAt]);
      FinishedIsFinal(c, Run(c, sys, steps[..failedAt]), steps[failedAt..]);
    }
  }

  // -------------------------------------------------------------- lease plan

  datatype LeasePlan = LeasePlan(initialLease: nat, heartbeatInterval: nat)

  function DeriveLeasePlan(timeoutSeconds: nat, leaseSeconds: nat): LeasePlan {
    var timeout := timeoutSeconds * SECOND;
    var initialLease := Max(leaseSeconds * SECOND, SatAdd(timeout, SafetyBuffer(timeout)));
    LeasePlan(initialLease, Max(initialLease / 3, 250 * MILLISECOND))
  }

  /** The planned lease is the configured minimum or, if that is longer, the timeout and a
      buffer of half of it, at least two seconds. */
  lemma {:induction false} LeaseCoversDelivery(timeoutSeconds: nat, leaseSeconds: nat)
    requires timeoutSeconds < U64_MAX / 2 && leaseSeconds <= U64_MAX
    ensures var lease, timeout := DeriveLeasePlan(timeoutSeconds, leaseSeconds).initialLease, timeoutSeconds * SECOND;
      && lease >= leaseSeconds * SECOND && lease >= timeout + 2 * SECOND && 2 * lease >= 3 * timeout
      && (lease == leaseSeconds * SECOND || lease == timeout + 2 * SECOND || 2 * lease == 3 * timeout)
  {
    assert timeoutSeconds * SECOND == 2 * (timeoutSeconds * (SECOND / 2));
  }

  /** For every positive configuration the 250 ms floor never binds, and two failed
      renewals in a row never let a delivery lease run out. */
  lemma TwoFailedRenewalsAreSurvived(timeoutSeconds: nat, leaseSeconds: nat, outcomes: seq<bool>)
    requires 0 < timeoutSeconds <= U64_MAX && 0 < leaseSeconds <= U64_MAX && FailuresInARow(outcomes, 2)
    requires DeriveLeasePlan(timeoutSeconds, leaseSeconds).initialLease <= (I64_RANGE - 1) * SECOND
    ensures var plan := DeriveLeasePlan(timeoutSeconds, leaseSeconds);
      && plan.heartbeatInterval == plan.initialLease / 3
      && DurationToLeaseSeconds(plan.initialLease) * SECOND >= plan.initialLease
      && HoldsUntilNext(outcomes, plan.heartbeatInterval, DurationToLeaseSeconds(plan.initialLease) * SECOND)
  {
    var plan := DeriveLeasePlan(timeoutSeconds, leaseSeconds);
    GrantCoversPlanExactlyWhen(plan.initialLease);
    RenewalsHoldWithin(outcomes, 2, plan.heartbeatInterval, DurationToLeaseSeconds(plan.initialLease) * SECOND);
  }
}
