/** One monitor check: the resolved policy, the retry loop, and the lease planned for it. */
module CheckExecution {
  import opened Prelude
  import opened Leases

  // ----------------------------------------------------------------- policy

  /** The worker settings that a check uses, as the configuration admits them. */
  datatype Config = Config(
    timeoutSeconds: nat,
    maxAttempts: nat,
    retryDelaysMs: seq<nat>,
    retryJitterPercent: nat,
    leaseSeconds: nat)

  predicate ValidConfig(c: Config) {
    && 0 < c.timeoutSeconds <= U64_MAX
    && 0 < c.maxAttempts <= U64_MAX
    && 0 < c.leaseSeconds <= U64_MAX
    && (forall i :: 0 <= i < |c.retryDelaysMs| ==> 0 < c.retryDelaysMs[i] <= U64_MAX)
    && |c.retryDelaysMs| >= c.maxAttempts - 1
    && c.retryJitterPercent <= 100
  }

  /** The nullable per-monitor columns, 32-bit integers of any sign. */
  datatype Overrides = Overrides(
    timeoutSeconds: Option<int>,
    maxAttempts: Option<int>,
    retryDelaysMs: Option<seq<int>>)

  predicate I32(n: int) { -0x8000_0000 <= n < 0x8000_0000 }

  predicate ValidOverrides(o: Overrides) {
    && (o.timeoutSeconds.Some? ==> I32(o.timeoutSeconds.value))
    && (o.maxAttempts.Some? ==> I32(o.maxAttempts.value))
    && (o.retryDelaysMs.Some? ==>
          forall i :: 0 <= i < |o.retryDelaysMs.value| ==> o.retryDelaysMs.value[i] < 0x8000_0000_0000_0000)
  }

  datatype Policy = Policy(timeout: nat, maxAttempts: nat, retryDelaysMs: seq<nat>, retryJitterPercent: nat)

  function PositiveOnly(values: seq<int>): (r: seq<nat>)
    ensures forall i :: 0 <= i < |r| ==> 0 < r[i] && r[i] in values
  {
    if values == [] then []
    else if values[0] > 0 then [values[0]] + PositiveOnly(values[1..])
    else PositiveOnly(values[1..])
  }

  function ResolvePolicy(o: Overrides, c: Config): Policy {
    var timeoutSeconds := if o.timeoutSeconds.Some? && o.timeoutSeconds.value > 0 then o.timeoutSeconds.value else c.timeoutSeconds;
    var maxAttempts := if o.maxAttempts.Some? && o.maxAttempts.value > 0 then o.maxAttempts.value else c.maxAttempts;
    var overridden := if o.retryDelaysMs.Some? then PositiveOnly(o.retryDelaysMs.value) else [];
    Policy(timeoutSeconds * SECOND, maxAttempts,
           if overridden != [] then overridden else c.retryDelaysMs,
           c.retryJitterPercent)
  }

  /** What every resolved policy promises the retry loop. */
  predicate ValidPolicy(p: Policy) {
    && SECOND <= p.timeout <= MAX_DURATION
    && 0 < p.maxAttempts
    && (forall i :: 0 <= i < |p.retryDelaysMs| ==> 0 < p.retryDelaysMs[i] <= U64_MAX)
    && p.retryJitterPercent <= 100
  }

  lemma {:induction false} PositiveOnlyConcat(a: seq<int>, b: seq<int>)
    ensures PositiveOnly(a + b) == PositiveOnly(a) + PositiveOnly(b)
  {
    if a == [] {
      assert a + b == b;
    } else {
      assert (a + b)[1..] == a[1..] + b;
      PositiveOnlyConcat(a[1..], b);
    }
  }

  lemma {:induction false} PositiveOnlyKeeps(values: seq<int>)
    ensures (forall i :: 0 <= i < |values| ==> values[i] > 0) ==> PositiveOnly(values) == values
    ensures (forall i :: 0 <= i < |values| ==> values[i] <= 0) ==> PositiveOnly(values) == []
  {
    if values == [] {
    } else {
      PositiveOnlyKeeps(values[1..]);
    }
  }

  /** A positive override of the timeout or the attempts takes the place of the configured
      value and any other is ignored; the configured delays stay unless the override lists a
      positive one. */
  lemma {:induction false} OverridesTakePrecedence(o: Overrides, c: Config)
    ensures var p := ResolvePolicy(o, c);
      && p.timeout == SECOND * (if o.timeoutSeconds.Some? && o.timeoutSeconds.value >= 1 then o.timeoutSeconds.value else c.timeoutSeconds)
      && p.maxAttempts == (if o.maxAttempts.Some? && o.maxAttempts.value >= 1 then o.maxAttempts.value else c.maxAttempts)
      && p.retryJitterPercent == c.retryJitterPercent
      && (o.retryDelaysMs.None? || (forall i :: 0 <= i < |o.retryDelaysMs.value| ==> o.retryDelaysMs.value[i] <= 0) ==>
            p.retryDelaysMs == c.retryDelaysMs)
  {
    if o.retryDelaysMs.Some? {
      PositiveOnlyKeeps(o.retryDelaysMs.value);
    }
  }

  /** Of an overriding delay list the positive entries count, in their order: an entry shows
      up between those that come before and after it, or not at all. */
  lemma {:induction false} PositiveDelaysCount(o: Overrides, c: Config, before: seq<int>, delay: int, after: seq<int>)
    requires o.retryDelaysMs == Some(before + [delay] + after)
    ensures delay >= 1 ==>
      ResolvePolicy(o, c).retryDelaysMs == PositiveOnly(before) + [delay] + PositiveOnly(after)
    ensures delay < 1 ==>
      PositiveOnly(before + [delay] + after) == PositiveOnly(before) + PositiveOnly(after)
  {
    PositiveOnlyConcat(before + [delay], after);
    PositiveOnlyConcat(before, [delay]);
    PositiveOnlyKeeps([delay]);
  }

  lemma ResolvedPolicyIsValid(o: Overrides, c: Config)
    requires ValidConfig(c) && ValidOverrides(o)
    ensures ValidPolicy(ResolvePolicy(o, c))
    ensures ResolvePolicy(o, c).maxAttempts >= U32_RANGE ==> ResolvePolicy(o, c).retryDelaysMs != []
  {
  }

  // ----------------------------------------------------------------- delays

  /** The delay list's entry for this attempt, or its last one; none if it is empty. */
  function BaseRetryDelayMs(p: Policy, attempt: nat): Option<nat> {
    if attempt < |p.retryDelaysMs| then Some(p.retryDelaysMs[attempt])
    else if p.retryDelaysMs != [] then Some(p.retryDelaysMs[|p.retryDelaysMs| - 1])
    else None
  }

  function JitterWindowMs(baseMs: nat, percent: nat): nat {
    Min(baseMs * percent / 100, U64_MAX)
  }

  /** The delays that a jitter draw may produce. */
  predicate PossibleDelay(baseMs: nat, percent: nat, delayMs: nat) {
    var window := JitterWindowMs(baseMs, percent);
    if percent == 0 || window == 0 then delayMs == baseMs
    else (if window <= baseMs then baseMs - window else 0) <= delayMs <= Min(baseMs + window, U64_MAX)
  }

  function WorstCaseRetryDelayMs(baseMs: nat, percent: nat): nat
    requires baseMs <= U64_MAX
  {
    if percent == 0 then baseMs else Min(baseMs + JitterWindowMs(baseMs, percent), U64_MAX)
  }

  lemma WorstCaseIsTheWorst(baseMs: nat, percent: nat)
    requires baseMs <= U64_MAX
    ensures PossibleDelay(baseMs, percent, WorstCaseRetryDelayMs(baseMs, percent))
    ensures forall d: nat :: PossibleDelay(baseMs, percent, d) ==> d <= WorstCaseRetryDelayMs(baseMs, percent)
  {
  }

  /** A draw may be off by the configured percentage of the base delay, up or down, and by no
      more. */
  lemma {:induction false} JitterIsProportional(baseMs: nat, percent: nat, delayMs: nat)
    requires percent <= 100 && 2 * baseMs <= U64_MAX
    ensures PossibleDelay(baseMs, percent, delayMs)
      <==> baseMs * percent >= 100 * (baseMs - delayMs) && baseMs * percent >= 100 * (delayMs - baseMs)
  {
    var product := baseMs * percent;
    SplitProduct(percent, 100 - percent, baseMs);
    assert product <= 100 * baseMs;
    var window := product / 100;
    assert product == 100 * window + product % 100;
    if percent == 0 { assert product == 0; }
  }

  // -------------------------------------------------------------- lease plan

  datatype LeasePlan = LeasePlan(initialLease: nat, heartbeatInterval: nat)

  function WorstDelayMs(p: Policy, attempt: nat): nat
    requires ValidPolicy(p)
  {
    match BaseRetryDelayMs(p, attempt)
    case None => 0
    case Some(base) => WorstCaseRetryDelayMs(base, p.retryJitterPercent)
  }

  /** The worst back-off after this attempt, in nanoseconds. */
  function WorstBackOff(p: Policy, attempt: nat): nat
    requires ValidPolicy(p)
  {
    WorstDelayMs(p, attempt) * MILLISECOND
  }

  /** The plan's estimate of the first n back-offs, saturating as it adds. */
  function EstimatedBackOff(p: Policy, n: nat): nat
    requires ValidPolicy(p)
  {
    if n == 0 then 0 else SatAdd(EstimatedBackOff(p, n - 1), WorstBackOff(p, n - 1))
  }

  function DeriveLeasePlan(p: Policy, minimumLeaseSeconds: nat): LeasePlan
    requires ValidPolicy(p) && minimumLeaseSeconds <= U64_MAX
  {
    var attemptTime := SatMul(p.timeout, p.maxAttempts % U32_RANGE);  // `max_attempts as u32`
    var retryDelay := EstimatedBackOff(p, p.maxAttempts - 1);
    var derived := SatAdd(SatAdd(attemptTime, retryDelay), SafetyBuffer(p.timeout));
    var initialLease := Max(derived, minimumLeaseSeconds * SECOND);
    LeasePlan(initialLease, Max(initialLease / 3, SECOND))
  }

  // -------------------------------------------------------------- retry loop

  datatype FailureReason = TimedOut | ConnectError | OtherReason

  datatype CheckResult = CheckResult(isSuccess: bool, failureReason: Option<FailureReason>)

  /** A failure that another attempt may cure: no answer in time, or no connection. */
  predicate Retryable(r: CheckResult) {
    r.failureReason == Some(TimedOut) || r.failureReason == Some(ConnectError)
  }

  /** An attempt and the wait after it, as the world decides them. */
  datatype Attempt = Finished(result: CheckResult, duration: nat) | Interrupted(duration: nat)
  datatype Wait = Slept(delayMs: nat) | WokenByShutdown(after: nat)

  datatype World = World(attempt: nat -> Attempt, wait: nat -> Wait)

  /** Each attempt takes at most the timeout; a sleep lasts what the draw said, and a
      shutdown can only cut it short. */
  ghost predicate Plausible(p: Policy, w: World)
    requires ValidPolicy(p)
  {
    forall i: nat ::
      && w.attempt(i).duration <= p.timeout
      && match w.wait(i)
         case Slept(d) =>
           BaseRetryDelayMs(p, i).Some? ==> PossibleDelay(BaseRetryDelayMs(p, i).value, p.retryJitterPercent, d)
         case WokenByShutdown(after) => after <= WorstBackOff(p, i)
  }

  function WaitTime(w: Wait): nat {
    match w case Slept(d) => d * MILLISECOND case WokenByShutdown(after) => after
  }

  function AttemptTime(w: World, n: nat): nat {
    if n == 0 then 0 else AttemptTime(w, n - 1) + w.attempt(n - 1).duration
  }

  function BackOffTime(w: World, n: nat): nat {
    if n == 0 then 0 else BackOffTime(w, n - 1) + WaitTime(w.wait(n - 1))
  }

  /** Time spent on the first `attempts` attempts and `waits` waits. */
  function Spent(w: World, attempts: nat, waits: nat): nat {
    AttemptTime(w, attempts) + BackOffTime(w, waits)
  }

  datatype Execution =
    | Completed(result: CheckResult, attemptCount: nat)
    | CancelledInAttempt(attempt: nat)
    | CancelledInWait(attempt: nat)

  /** Attempt i failed in a retryable way and its wait was slept through. */
  predicate RetriedAfter(w: World, i: nat) {
    && w.attempt(i).Finished? && w.wait(i).Slept?
    && w.attempt(i).result.failureReason in {Some(TimedOut), Some(ConnectError)}
  }

  /** Runs the attempts. A completed check says which attempt decided it and why no other
      followed; whatever happens, the time spent is exactly the attempts and waits so far. */
  method RunMonitorCheckWithRetries(p: Policy, w: World) returns (execution: Execution, elapsed: nat)
    requires ValidPolicy(p)
    ensures match execution
      case Completed(result, count) =>
        && 1 <= count <= p.maxAttempts
        && w.attempt(count - 1).Finished? && result == w.attempt(count - 1).result
        && (forall i :: 0 <= i < count - 1 ==> RetriedAfter(w, i))
        && (result.failureReason !in {Some(TimedOut), Some(ConnectError)} || count == p.maxAttempts
            || (p.retryDelaysMs == [] && count == 1))
        && (count > 1 ==> p.retryDelaysMs != [])
        && elapsed == Spent(w, count, count - 1)
      case CancelledInAttempt(k) =>
        && k < p.maxAttempts && w.attempt(k).Interrupted? && (k > 0 ==> p.retryDelaysMs != [])
        && (forall i :: 0 <= i < k ==> RetriedAfter(w, i))
        && elapsed == Spent(w, k + 1, k)
      case CancelledInWait(k) =>
        && k + 1 < p.maxAttempts && p.retryDelaysMs != []
        && w.attempt(k).Finished? && w.wait(k).WokenByShutdown?
        && w.attempt(k).result.failureReason in {Some(TimedOut), Some(ConnectError)}
        && (forall i :: 0 <= i < k ==> RetriedAfter(w, i))
        && elapsed == Spent(w, k + 1, k + 1)
  {
    elapsed := 0;
    for attemptIndex := 0 to p.maxAttempts
      invariant forall i :: 0 <= i < attemptIndex ==> RetriedAfter(w, i)
      invariant attemptIndex > 0 ==> p.retryDelaysMs != [] && attemptIndex < p.maxAttempts
      invariant elapsed == Spent(w, attemptIndex, attemptIndex)
    {
      var attempt := w.attempt(attemptIndex);
      elapsed := elapsed + attempt.duration;
      assert elapsed == Spent(w, attemptIndex + 1, attemptIndex);
      match attempt {
        case Interrupted(_) =>
          return CancelledInAttempt(attemptIndex), elapsed;
        case Finished(result, _) =>
          var shouldRetry := attemptIndex + 1 < p.maxAttempts && Retryable(result);
          if !shouldRetry {
            return Completed(result, attemptIndex + 1), elapsed;
          }
          var delay := BaseRetryDelayMs(p, attemptIndex);
          if delay.None? {
            return Completed(result, attemptIndex + 1), elapsed;
          }
          elapsed := elapsed + WaitTime(w.wait(attemptIndex));
          assert elapsed == Spent(w, attemptIndex + 1, attemptIndex + 1);
          if w.wait(attemptIndex).WokenByShutdown? {
            return CancelledInWait(attemptIndex), elapsed;
          }
      }
    }
    assert false;  // unreachable: the last attempt never retries
  }

  // ---------------------------------------------------- the lease covers it

  /** All attempts at full timeout and all back-offs at their worst, without saturation. */
  function WorstWork(p: Policy, attempts: nat, waits: nat): nat
    requires ValidPolicy(p)
  {
    attempts * p.timeout + TotalBackOff(p, waits)
  }

  function TotalBackOff(p: Policy, n: nat): nat
    requires ValidPolicy(p)
  {
    if n == 0 then 0 else TotalBackOff(p, n - 1) + WorstBackOff(p, n - 1)
  }

  /** What a check can take at worst: with no delays there is only one attempt. */
  function WorstCheck(p: Policy): nat
    requires ValidPolicy(p)
  {
    if p.retryDelaysMs == [] then p.timeout else WorstWork(p, p.maxAttempts, p.maxAttempts - 1)
  }

  lemma {:induction false} EstimateSaturates(p: Policy, n: nat)
    requires ValidPolicy(p)
    ensures EstimatedBackOff(p, n) == Min(TotalBackOff(p, n), MAX_DURATION)
  {
    if n == 0 {
    } else {
      EstimateSaturates(p, n - 1);
    }
  }

  lemma {:induction false} BackOffGrows(p: Policy, n: nat, m: nat)
    requires ValidPolicy(p) && n <= m
    ensures TotalBackOff(p, n) <= TotalBackOff(p, m)
    ensures p.retryDelaysMs != [] ==> TotalBackOff(p, n) >= n * MILLISECOND
    ensures p.retryDelaysMs == [] ==> TotalBackOff(p, n) == 0
    decreases m
  {
    if n < m {
      BackOffGrows(p, n, m - 1);
    } else if n > 0 {
      BackOffGrows(p, n - 1, m - 1);
    }
  }

  lemma {:induction false} AttemptTimeIsBounded(p: Policy, w: World, n: nat)
    requires ValidPolicy(p) && Plausible(p, w)
    ensures AttemptTime(w, n) <= n * p.timeout
  {
    if n == 0 {
    } else {
      AttemptTimeIsBounded(p, w, n - 1);
      SplitProduct(n - 1, 1, p.timeout);
      assert w.attempt(n - 1).duration <= p.timeout;
    }
  }

  lemma {:induction false} BackOffTimeIsBounded(p: Policy, w: World, n: nat)
    requires ValidPolicy(p) && Plausible(p, w) && p.retryDelaysMs != []
    ensures BackOffTime(w, n) <= TotalBackOff(p, n)
  {
    if n == 0 {
    } else {
      BackOffTimeIsBounded(p, w, n - 1);
      WorstCaseIsTheWorst(BaseRetryDelayMs(p, n - 1).value, p.retryJitterPercent);
      assert w.attempt(n - 1).duration <= p.timeout;
    }
  }

  lemma {:induction false} MoreAttemptsTakeLonger(p: Policy, attempts: nat, waits: nat)
    requires ValidPolicy(p) && 1 <= attempts <= p.maxAttempts && waits < p.maxAttempts
    requires p.retryDelaysMs == [] ==> attempts == 1 && waits == 0
    ensures WorstWork(p, attempts, waits) <= WorstCheck(p)
  {
    BackOffGrows(p, waits, p.maxAttempts - 1);
    SplitProduct(attempts, p.maxAttempts - attempts, p.timeout);
  }

  /** Every execution of the loop, completed or cancelled, stays within the worst check. */
  lemma ExecutionIsBounded(p: Policy, w: World, attempts: nat, waits: nat)
    requires ValidPolicy(p) && Plausible(p, w)
    requires 1 <= attempts <= p.maxAttempts && waits < p.maxAttempts
    requires p.retryDelaysMs == [] ==> attempts == 1 && waits == 0
    ensures Spent(w, attempts, waits) <= WorstCheck(p)
  {
    AttemptTimeIsBounded(p, w, attempts);
    if p.retryDelaysMs != [] {
      BackOffTimeIsBounded(p, w, waits);
    }
    MoreAttemptsTakeLonger(p, attempts, waits);
  }

  /** The world in which everything is as slow as it may be and nothing ever works. */
  function SlowestWorld(p: Policy): World
    requires ValidPolicy(p)
  {
    World((i: nat) => Finished(CheckResult(false, Some(TimedOut)), p.timeout),
          (i: nat) => Slept(WorstDelayMs(p, i)))
  }

  lemma {:induction false} SlowestWorldSpends(p: Policy, n: nat)
    requires ValidPolicy(p)
    ensures AttemptTime(SlowestWorld(p), n) == n * p.timeout
    ensures BackOffTime(SlowestWorld(p), n) == TotalBackOff(p, n)
  {
    if n == 0 {
    } else {
      SlowestWorldSpends(p, n - 1);
      SplitProduct(n - 1, 1, p.timeout);
    }
  }

  /** The bound is met: the slowest world is plausible and takes exactly that long. */
  lemma WorstCheckHappens(p: Policy)
    requires ValidPolicy(p)
    ensures Plausible(p, SlowestWorld(p))
    ensures var n := if p.retryDelaysMs == [] then 1 else p.maxAttempts;
      Spent(SlowestWorld(p), n, n - 1) == WorstCheck(p)
  {
    var w := SlowestWorld(p);
    var n := if p.retryDelaysMs == [] then 1 else p.maxAttempts;
    SlowestWorldSpends(p, n);
    SlowestWorldSpends(p, n - 1);
    forall i: nat
      ensures BaseRetryDelayMs(p, i).Some? ==>
        PossibleDelay(BaseRetryDelayMs(p, i).value, p.retryJitterPercent, w.wait(i).delayMs)
    {
      if BaseRetryDelayMs(p, i).Some? {
        WorstCaseIsTheWorst(BaseRetryDelayMs(p, i).value, p.retryJitterPercent);
      }
    }
  }

  /** The lease is not lost to the 32-bit cast of the attempt count, nor to saturation. */
  predicate PlanFits(p: Policy)
    requires ValidPolicy(p)
  {
    && (p.maxAttempts < U32_RANGE || (p.retryDelaysMs == [] && p.maxAttempts % U32_RANGE != 0))
    && WorstCheck(p) + SafetyBuffer(p.timeout) <= MAX_DURATION
  }

  lemma AttemptEstimate(p: Policy)
    requires ValidPolicy(p)
    ensures p.maxAttempts < U32_RANGE ==> p.timeout * (p.maxAttempts % U32_RANGE) == p.maxAttempts * p.timeout
    ensures p.maxAttempts >= U32_RANGE ==> p.timeout * (p.maxAttempts % U32_RANGE) + p.timeout <= p.maxAttempts * p.timeout
    ensures p.maxAttempts % U32_RANGE != 0 ==> p.timeout * (p.maxAttempts % U32_RANGE) >= p.timeout
    ensures p.maxAttempts % U32_RANGE == 0 ==> p.timeout * (p.maxAttempts % U32_RANGE) == 0
  {
    var kept := p.maxAttempts % U32_RANGE;
    if p.maxAttempts >= U32_RANGE {
      SplitProduct(kept + 1, p.maxAttempts - kept - 1, p.timeout);
      SplitProduct(kept, 1, p.timeout);
    }
    if kept != 0 {
      SplitProduct(1, kept - 1, p.timeout);
    }
  }

  /** The initial lease covers the worst check and the safety buffer if and only if the
      plan fits, or the configured minimum is long enough by itself. */
  lemma LeaseCoversCheckExactlyWhen(p: Policy, minimumLeaseSeconds: nat)
    requires ValidPolicy(p) && minimumLeaseSeconds <= U64_MAX
    ensures WorstCheck(p) + SafetyBuffer(p.timeout) <= DeriveLeasePlan(p, minimumLeaseSeconds).initialLease
      <==> PlanFits(p) || WorstCheck(p) + SafetyBuffer(p.timeout) <= minimumLeaseSeconds * SECOND
  {
    EstimateSaturates(p, p.maxAttempts - 1);
    AttemptEstimate(p);
    BackOffGrows(p, p.maxAttempts - 1, p.maxAttempts - 1);
  }

  /** Lease covers the work: for every jitter draw and every pattern of outcomes, the time
      spent when the loop ends, plus the safety buffer, fits the initial lease. */
  lemma LeaseCoversTheWork(p: Policy, minimumLeaseSeconds: nat, w: World, attempts: nat, waits: nat)
    requires ValidPolicy(p) && minimumLeaseSeconds <= U64_MAX && PlanFits(p) && Plausible(p, w)
    requires 1 <= attempts <= p.maxAttempts && waits < p.maxAttempts
    requires p.retryDelaysMs == [] ==> attempts == 1 && waits == 0
    ensures Spent(w, attempts, waits) + SafetyBuffer(p.timeout)
            <= DeriveLeasePlan(p, minimumLeaseSeconds).initialLease
  {
    ExecutionIsBounded(p, w, attempts, waits);
    LeaseCoversCheckExactlyWhen(p, minimumLeaseSeconds);
  }

  /** The same of the loop itself: however the check ends, its initial lease outlasts it by
      the safety buffer. */
  method RunWithinLease(p: Policy, minimumLeaseSeconds: nat, w: World)
      returns (execution: Execution, elapsed: nat, plan: LeasePlan)
    requires ValidPolicy(p) && minimumLeaseSeconds <= U64_MAX && Plausible(p, w)
    ensures plan == DeriveLeasePlan(p, minimumLeaseSeconds)
    ensures elapsed <= WorstCheck(p)
    ensures PlanFits(p) || WorstCheck(p) + SafetyBuffer(p.timeout) <= minimumLeaseSeconds * SECOND ==>
      elapsed + SafetyBuffer(p.timeout) <= plan.initialLease
  {
    plan := DeriveLeasePlan(p, minimumLeaseSeconds);
    execution, elapsed := RunMonitorCheckWithRetries(p, w);
    LeaseCoversCheckExactlyWhen(p, minimumLeaseSeconds);
    match execution {
      case Completed(_, count) => ExecutionIsBounded(p, w, count, count - 1);
      case CancelledInAttempt(k) => ExecutionIsBounded(p, w, k + 1, k);
      case CancelledInWait(k) => ExecutionIsBounded(p, w, k + 1, k + 1);
    }
  }

  /** Short of the cast and of saturation, the lease is the configured minimum or, if that is
      longer, all attempts at full timeout, all back-offs at their worst, and a buffer of half
      the timeout, at least two seconds. */
  lemma {:induction false} LeaseOfPlan(p: Policy, minimumLeaseSeconds: nat)
    requires ValidPolicy(p) && minimumLeaseSeconds <= U64_MAX && PlanFits(p) && p.maxAttempts < U32_RANGE
    requires p.maxAttempts * p.timeout + TotalBackOff(p, p.maxAttempts - 1) + SafetyBuffer(p.timeout) <= MAX_DURATION
    ensures var lease, work := DeriveLeasePlan(p, minimumLeaseSeconds).initialLease,
        p.maxAttempts * p.timeout + TotalBackOff(p, p.maxAttempts - 1);
      && lease >= minimumLeaseSeconds * SECOND && lease >= work + 2 * SECOND && lease >= work + p.timeout / 2
      && (lease == minimumLeaseSeconds * SECOND || lease == work + 2 * SECOND || lease == work + p.timeout / 2)
  {
    EstimateSaturates(p, p.maxAttempts - 1);
    AttemptEstimate(p);
  }

  function Sum(values: seq<nat>): nat {
    if values == [] then 0 else Sum(values[..|values| - 1]) + values[|values| - 1]
  }

  /** Without jitter, the waits slept through are the entries of the delay list, one after the
      other, and then its last entry again and again. */
  lemma {:induction false} DelaysInOrder(p: Policy, w: World, n: nat, again: nat)
    requires ValidPolicy(p) && Plausible(p, w) && p.retryJitterPercent == 0 && p.retryDelaysMs != []
    requires n <= |p.retryDelaysMs| && (again > 0 ==> n == |p.retryDelaysMs|)
    requires forall i :: 0 <= i < n + again ==> w.wait(i).Slept?
    ensures BackOffTime(w, n + again)
      == (Sum(p.retryDelaysMs[..n]) + again * p.retryDelaysMs[|p.retryDelaysMs| - 1]) * MILLISECOND
    decreases n + again
  {
    if again > 0 {
      DelaysInOrder(p, w, n, again - 1);
      SplitProduct(again - 1, 1, p.retryDelaysMs[|p.retryDelaysMs| - 1]);
      assert w.attempt(n + again - 1).duration <= p.timeout;
    } else if n > 0 {
      DelaysInOrder(p, w, n - 1, 0);
      assert p.retryDelaysMs[..n][..n - 1] == p.retryDelaysMs[..n - 1];
      assert w.attempt(n - 1).duration <= p.timeout;
    }
  }

  // ------------------------------------------------------------- heartbeats

  /** For every admitted configuration and monitor, the one-second floor of the heartbeat
      never binds: three intervals always fit the lease. */
  lemma HeartbeatFloorNeverBinds(o: Overrides, c: Config)
    requires ValidConfig(c) && ValidOverrides(o)
    ensures var plan := DeriveLeasePlan(ResolvePolicy(o, c), c.leaseSeconds);
      plan.heartbeatInterval == plan.initialLease / 3 && 3 * plan.heartbeatInterval <= plan.initialLease
  {
    ResolvedPolicyIsValid(o, c);
    LeaseIsThreeSeconds(ResolvePolicy(o, c), c.leaseSeconds);
  }

  /** Attempts lost to the cast leave a back-off of more than a second behind. */
  lemma {:induction false} LeaseIsThreeSeconds(p: Policy, minimumLeaseSeconds: nat)
    requires ValidPolicy(p) && 0 < minimumLeaseSeconds <= U64_MAX
    requires p.maxAttempts >= U32_RANGE ==> p.retryDelaysMs != []
    ensures DeriveLeasePlan(p, minimumLeaseSeconds).initialLease >= 3 * SECOND
  {
    EstimateSaturates(p, p.maxAttempts - 1);
    AttemptEstimate(p);
    BackOffGrows(p, p.maxAttempts - 1, p.maxAttempts - 1);
  }

  /** A configured lease of 2^63 seconds or more is granted as a negative number of them. */
  lemma {:induction false} HugeLeaseIsNegative(p: Policy, minimumLeaseSeconds: nat)
    requires ValidPolicy(p) && I64_RANGE <= minimumLeaseSeconds <= U64_MAX
    ensures DeriveLeasePlan(p, minimumLeaseSeconds).initialLease <= MAX_DURATION
    ensures DurationToLeaseSeconds(DeriveLeasePlan(p, minimumLeaseSeconds).initialLease) < 0
  {
    GrantCoversPlanExactlyWhen(DeriveLeasePlan(p, minimumLeaseSeconds).initialLease);
  }

  /** Two failed renewals in a row never let a monitor lease run out, whatever came before
      them, as long as the granted seconds fit 63 bits. */
  lemma TwoFailedRenewalsAreSurvived(o: Overrides, c: Config, outcomes: seq<bool>)
    requires ValidConfig(c) && ValidOverrides(o) && FailuresInARow(outcomes, 2)
    requires DeriveLeasePlan(ResolvePolicy(o, c), c.leaseSeconds).initialLease <= (I64_RANGE - 1) * SECOND
    ensures var plan := DeriveLeasePlan(ResolvePolicy(o, c), c.leaseSeconds);
      && DurationToLeaseSeconds(plan.initialLease) > 0
      && HoldsUntilNext(outcomes, plan.heartbeatInterval, DurationToLeaseSeconds(plan.initialLease) * SECOND)
  {
    var plan := DeriveLeasePlan(ResolvePolicy(o, c), c.leaseSeconds);
    HeartbeatFloorNeverBinds(o, c);
    GrantCoversPlanExactlyWhen(plan.initialLease);
    RenewalsHoldWithin(outcomes, 2, plan.heartbeatInterval, DurationToLeaseSeconds(plan.initialLease) * SECOND);
  }
}
