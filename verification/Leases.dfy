/** Durations in nanoseconds with Rust's saturating arithmetic, the seconds a lease is
    granted for, and how many failed renewals a lease survives. */
module Leases {

  const SECOND: nat := 1_000_000_000
  const MILLISECOND: nat := 1_000_000
  const U32_RANGE: nat := 0x1_0000_0000
  const U64_MAX: nat := 0xFFFF_FFFF_FFFF_FFFF
  const I64_RANGE: nat := 0x8000_0000_0000_0000
  const MAX_DURATION: nat := U64_MAX * SECOND + 999_999_999

  function Min(a: nat, b: nat): nat { if a <= b then a else b }

  function Max(a: nat, b: nat): nat { if a >= b then a else b }

  function SatAdd(a: nat, b: nat): nat { Min(a + b, MAX_DURATION) }

  function SatMul(a: nat, factor: nat): nat { Min(a * factor, MAX_DURATION) }

  function SafetyBuffer(timeout: nat): nat { Max(timeout / 2, 2 * SECOND) }

  /** `as i64` on an unsigned 64-bit value. */
  function AsI64(n: nat): int
    requires n <= U64_MAX
  {
    if n < I64_RANGE then n else n - 2 * I64_RANGE
  }

  /** Whole seconds asked of the database for a planned lease. */
  function DurationToLeaseSeconds(duration: nat): int
    requires duration <= MAX_DURATION
  {
    AsI64(Max(Min(duration / SECOND + (if duration % SECOND > 0 then 1 else 0), U64_MAX), 1))
  }

  /** The grant covers the plan, with less than a second to spare, exactly for plans of at most
      2^63 - 1 seconds; a longer one turns into a lease that is already over. */
  lemma GrantCoversPlanExactlyWhen(duration: nat)
    requires duration <= MAX_DURATION
    ensures DurationToLeaseSeconds(duration) * SECOND >= duration <==> duration <= (I64_RANGE - 1) * SECOND
    ensures duration <= (I64_RANGE - 1) * SECOND ==>
      0 < DurationToLeaseSeconds(duration) * SECOND < duration + SECOND || duration == 0
    ensures duration > (I64_RANGE - 1) * SECOND ==> DurationToLeaseSeconds(duration) < 0
  {
    assert duration == duration / SECOND * SECOND + duration % SECOND;
  }

  // --------------------------------------------------------------- renewals

  /** When the lease ends after these renewals, one per interval from the grant at time
      0; a renewal that succeeds restarts the lease. */
  function LeaseEnd(outcomes: seq<bool>, interval: nat, granted: nat): nat {
    if outcomes == [] then granted
    else if outcomes[|outcomes| - 1] then |outcomes| * interval + granted
    else LeaseEnd(outcomes[..|outcomes| - 1], interval, granted)
  }

  /** The lease has not run out when the next renewal is due. */
  predicate HoldsUntilNext(outcomes: seq<bool>, interval: nat, granted: nat) {
    (|outcomes| + 1) * interval <= LeaseEnd(outcomes, interval, granted)
  }

  function TrailingFailures(outcomes: seq<bool>): (n: nat)
    ensures n <= |outcomes|
  {
    if outcomes == [] || outcomes[|outcomes| - 1] then 0
    else 1 + TrailingFailures(outcomes[..|outcomes| - 1])
  }

  /** Never more than this many renewals fail in a row. */
  predicate FailuresInARow(outcomes: seq<bool>, atMost: nat) {
    forall n :: 0 <= n <= |outcomes| ==> TrailingFailures(outcomes[..n]) <= atMost
  }

  lemma {:induction false} LeaseEndFromFailures(outcomes: seq<bool>, interval: nat, granted: nat)
    ensures LeaseEnd(outcomes, interval, granted) == (|outcomes| - TrailingFailures(outcomes)) * interval + granted
  {
    if outcomes != [] && !outcomes[|outcomes| - 1] {
      LeaseEndFromFailures(outcomes[..|outcomes| - 1], interval, granted);
    }
  }

  lemma {:induction false} AllFailed(n: nat)
    ensures TrailingFailures(seq(n, _ => false)) == n
  {
    if n == 0 {
    } else {
      assert seq(n, _ => false)[..n - 1] == seq(n - 1, _ => false);
      AllFailed(n - 1);
    }
  }

  lemma SplitProduct(a: nat, b: nat, c: nat)
    ensures (a + b) * c == a * c + b * c
    ensures a * c <= (a + b) * c
  {
  }

  lemma RenewalsHoldWithin(outcomes: seq<bool>, atMost: nat, interval: nat, granted: nat)
    requires FailuresInARow(outcomes, atMost) && (atMost + 1) * interval <= granted
    ensures HoldsUntilNext(outcomes, interval, granted)
  {
    LeaseEndFromFailures(outcomes, interval, granted);
    assert outcomes[..|outcomes|] == outcomes;
    var f := TrailingFailures(outcomes);
    SplitProduct(|outcomes| - f, f + 1, interval);
    SplitProduct(f + 1, atMost - f, interval);
  }

  /** A lease outlives every pattern of at most `atMost` failed renewals in a row, if and
      only if it was granted for that many intervals and one more. */
  lemma RenewalsHoldExactlyWhen(atMost: nat, interval: nat, granted: nat)
    ensures (forall outcomes :: FailuresInARow(outcomes, atMost) ==> HoldsUntilNext(outcomes, interval, granted))
            <==> (atMost + 1) * interval <= granted
  {
    if (atMost + 1) * interval <= granted {
      forall outcomes | FailuresInARow(outcomes, atMost)
        ensures HoldsUntilNext(outcomes, interval, granted)
      {
        RenewalsHoldWithin(outcomes, atMost, interval, granted);
      }
    } else {
      var worst := seq(atMost, _ => false);
      forall n | 0 <= n <= atMost
        ensures TrailingFailures(worst[..n]) <= atMost
      {
        assert worst[..n] == seq(n, _ => false);
        AllFailed(n);
      }
      AllFailed(atMost);
      LeaseEndFromFailures(worst, interval, granted);
      assert FailuresInARow(worst, atMost) && !HoldsUntilNext(worst, interval, granted);
    }
  }
}
