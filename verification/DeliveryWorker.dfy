/** The code that sends one claimed notification, as updates in place on its row. */
module DeliveryWorker {
  import opened Prelude
  import opened Leases
  import opened NotificationDelivery

  /** The errors a send can end with, by their kinds. */
  datatype DeliveryError = Smtp(permanent: bool) | BadAddress | BadMessage | MissingWebhookSecret | OtherError

  datatype SendResult = Sent | SendError(error: DeliveryError)

  predicate ShouldRetryDeliveryError(error: DeliveryError) {
    match error
    case Smtp(permanent) => !permanent
    case BadAddress => false
    case BadMessage => false
    case MissingWebhookSecret => false
    case OtherError => true
  }

  datatype Answer = Renewed | NotOwner | DbError

  /** What wakes the send loop; instants in nanoseconds. */
  datatype Wake =
    | SendDone(result: SendResult)
    | ShutdownChanged(shutdown: bool)
    | ChannelClosed
    | Renewal(answer: Answer, at: nat)

  datatype Outcome = Completed(result: SendResult) | ShutdownCancelled | LeaseLost | PayloadUnreadable | StillSending

  /** The deadline that counts: a full lease after the last renewal that worked. */
  function Deadline(startedAt: nat, lease: nat, wakes: seq<Wake>): nat {
    if wakes == [] then startedAt + lease
    else
      var last := wakes[|wakes| - 1];
      if last.Renewal? && last.answer.Renewed? then last.at + lease
      else Deadline(startedAt, lease, wakes[..|wakes| - 1])
  }

  /** What this wake makes of a loop still waiting; StillSending means it goes on. */
  function Decide(wake: Wake, deadline: nat): Outcome {
    match wake
    case SendDone(result) => Completed(result)
    case ShutdownChanged(shutdown) => if shutdown then ShutdownCancelled else StillSending
    case ChannelClosed => ShutdownCancelled
    case Renewal(answer, at) =>
      if answer.NotOwner? || (answer.DbError? && at >= deadline) then LeaseLost else StillSending
  }

  /** The first wake that decides, judged against the deadline as the renewals before it
      left it. */
  function Resolution(startedAt: nat, lease: nat, wakes: seq<Wake>): Outcome {
    if wakes == [] then StillSending
    else
      var prefix := wakes[..|wakes| - 1];
      var earlier := Resolution(startedAt, lease, prefix);
      if !earlier.StillSending? then earlier
      else Decide(wakes[|wakes| - 1], Deadline(startedAt, lease, prefix))
  }

  lemma {:induction false} ResolutionSticks(startedAt: nat, lease: nat, wakes: seq<Wake>, k: nat)
    requires k <= |wakes| && !Resolution(startedAt, lease, wakes[..k]).StillSending?
    ensures Resolution(startedAt, lease, wakes) == Resolution(startedAt, lease, wakes[..k])
  {
    if k == |wakes| {
      assert wakes[..k] == wakes;
    } else {
      var prefix := wakes[..|wakes| - 1];
      assert prefix[..k] == wakes[..k];
      ResolutionSticks(startedAt, lease, prefix, k);
    }
  }

  /** The instant of the last renewal that worked, or of the start. */
  predicate LeaseCounts(startedAt: nat, wakes: seq<Wake>, from: nat) {
    || (from == startedAt && forall i :: 0 <= i < |wakes| ==> !(wakes[i].Renewal? && wakes[i].answer.Renewed?))
    || (exists i :: 0 <= i < |wakes| && wakes[i] == Renewal(Renewed, from)
          && forall j :: i < j < |wakes| ==> !(wakes[j].Renewal? && wakes[j].answer.Renewed?))
  }

  /** The k-th wake ends the wait: the send is done, a shutdown is announced or the channel
      gone, the row has another owner, or the database fails a full lease after the last
      renewal that worked. */
  ghost predicate EndsWait(startedAt: nat, lease: nat, wakes: seq<Wake>, k: nat)
    requires k < |wakes|
  {
    match wakes[k]
    case SendDone(_) => true
    case ShutdownChanged(shutdown) => shutdown
    case ChannelClosed => true
    case Renewal(answer, at) =>
      answer.NotOwner? || (answer.DbError? && exists from: nat :: LeaseCounts(startedAt, wakes[..k], from) && at >= from + lease)
  }

  function Ending(wake: Wake): Outcome {
    match wake
    case SendDone(result) => Completed(result)
    case ShutdownChanged(_) => ShutdownCancelled
    case ChannelClosed => ShutdownCancelled
    case Renewal(_, _) => LeaseLost
  }

  lemma {:induction false} DeadlineCountsFrom(startedAt: nat, lease: nat, wakes: seq<Wake>)
    ensures forall from: nat :: LeaseCounts(startedAt, wakes, from) <==> Deadline(startedAt, lease, wakes) == from + lease
  {
    if wakes == [] {
    } else {
      var last, prefix := wakes[|wakes| - 1], wakes[..|wakes| - 1];
      DeadlineCountsFrom(startedAt, lease, prefix);
      assert forall i :: 0 <= i < |prefix| ==> prefix[i] == wakes[i];
      forall from: nat
        ensures LeaseCounts(startedAt, wakes, from) <==> Deadline(startedAt, lease, wakes) == from + lease
      {
        if last.Renewal? && last.answer.Renewed? {
          assert LeaseCounts(startedAt, wakes, last.at) by { assert wakes[|wakes| - 1] == Renewal(Renewed, last.at); }
        } else {
          assert LeaseCounts(startedAt, wakes, from) <==> LeaseCounts(startedAt, prefix, from);
        }
      }
    }
  }

  lemma {:induction false} DecisionEndsWait(startedAt: nat, lease: nat, wakes: seq<Wake>, k: nat)
    requires k < |wakes|
    ensures var decision := Decide(wakes[k], Deadline(startedAt, lease, wakes[..k]));
      if EndsWait(startedAt, lease, wakes, k) then decision == Ending(wakes[k]) && !decision.StillSending?
      else decision.StillSending?
  {
    DeadlineCountsFrom(startedAt, lease, wakes[..k]);
    if wakes[k].Renewal? && wakes[k].answer.DbError? && wakes[k].at >= Deadline(startedAt, lease, wakes[..k]) {
      DeadlineHasStart(startedAt, lease, wakes[..k]);
    }
  }

  lemma {:induction false} DeadlineHasStart(startedAt: nat, lease: nat, wakes: seq<Wake>)
    ensures exists from: nat :: LeaseCounts(startedAt, wakes, from) && Deadline(startedAt, lease, wakes) == from + lease
  {
    DeadlineCountsFrom(startedAt, lease, wakes);
    var from := Deadline(startedAt, lease, wakes) - lease;
    DeadlineIsLate(startedAt, lease, wakes);
    assert LeaseCounts(startedAt, wakes, from);
  }

  lemma {:induction false} DeadlineIsLate(startedAt: nat, lease: nat, wakes: seq<Wake>)
    ensures Deadline(startedAt, lease, wakes) >= lease
  {
    if wakes == [] {
    } else {
      DeadlineIsLate(startedAt, lease, wakes[..|wakes| - 1]);
    }
  }

  lemma {:induction false} EndsWaitInPrefix(startedAt: nat, lease: nat, wakes: seq<Wake>, n: nat, k: nat)
    requires k < n <= |wakes|
    ensures EndsWait(startedAt, lease, wakes[..n], k) <==> EndsWait(startedAt, lease, wakes, k)
  {
    assert wakes[..n][..k] == wakes[..k];
  }

  ghost predicate FirstEnding(startedAt: nat, lease: nat, wakes: seq<Wake>, k: int) {
    && 0 <= k < |wakes| && EndsWait(startedAt, lease, wakes, k)
    && forall j :: 0 <= j < k ==> !EndsWait(startedAt, lease, wakes, j)
  }

  /** The wait goes on if and only if no wake ends it, and otherwise has the ending of the
      first that does. */
  lemma {:induction false} FirstEndingWins(startedAt: nat, lease: nat, wakes: seq<Wake>)
    ensures Resolution(startedAt, lease, wakes).StillSending? <==>
      forall k :: 0 <= k < |wakes| ==> !EndsWait(startedAt, lease, wakes, k)
    ensures forall k :: FirstEnding(startedAt, lease, wakes, k) ==> Resolution(startedAt, lease, wakes) == Ending(wakes[k])
  {
    if wakes == [] {
    } else {
      var n := |wakes| - 1;
      var prefix := wakes[..n];
      FirstEndingWins(startedAt, lease, prefix);
      forall k | 0 <= k < n
        ensures EndsWait(startedAt, lease, prefix, k) <==> EndsWait(startedAt, lease, wakes, k)
      {
        EndsWaitInPrefix(startedAt, lease, wakes, n, k);
      }
      DecisionEndsWait(startedAt, lease, wakes, n);
    }
  }

  method AwaitSend(startedAt: nat, lease: nat, wakes: seq<Wake>) returns (outcome: Outcome)
    ensures outcome == Resolution(startedAt, lease, wakes)
  {
    var leaseDeadline, i := startedAt + lease, 0;
    outcome := StillSending;
    while i < |wakes| && outcome.StillSending?
      invariant 0 <= i <= |wakes|
      invariant outcome == Resolution(startedAt, lease, wakes[..i])
      invariant outcome.StillSending? ==> leaseDeadline == Deadline(startedAt, lease, wakes[..i])
    {
      var wake := wakes[i];
      assert wakes[..i + 1][..i] == wakes[..i];
      i := i + 1;
      match wake {
        case SendDone(result) => outcome := Completed(result);
        case ShutdownChanged(shutdown) =>
          if shutdown { outcome := ShutdownCancelled; }
        case ChannelClosed => outcome := ShutdownCancelled;
        case Renewal(answer, at) =>
          match answer {
            case Renewed => leaseDeadline := at + lease;
            case NotOwner => outcome := LeaseLost;
            case DbError =>
              if at >= leaseDeadline { outcome := LeaseLost; }
          }
      }
    }
    if outcome.StillSending? {
      assert wakes[..i] == wakes;
    } else {
      ResolutionSticks(startedAt, lease, wakes, i);
    }
  }

  lemma {:induction false} DeadlineCoversLastRenewal(startedAt: nat, lease: nat, wakes: seq<Wake>, k: nat)
    requires k < |wakes| && wakes[k].Renewal? && wakes[k].answer.Renewed?
    requires forall j :: k < j < |wakes| && wakes[j].Renewal? ==> wakes[j].at >= wakes[k].at
    ensures Deadline(startedAt, lease, wakes) >= wakes[k].at + lease
  {
    var n := |wakes| - 1;
    if !(wakes[n].Renewal? && wakes[n].answer.Renewed?) {
      DeadlineCoversLastRenewal(startedAt, lease, wakes[..n], k);
    }
  }

  /** Database errors alone give a delivery up only a full lease after its last renewal. */
  lemma ErrorsKeepTheLease(startedAt: nat, lease: nat, wakes: seq<Wake>, k: nat, at: nat)
    requires k < |wakes| && wakes[k].Renewal? && wakes[k].answer.Renewed?
    requires forall j :: k < j < |wakes| && wakes[j].Renewal? ==> wakes[j].at >= wakes[k].at
    requires Decide(Renewal(DbError, at), Deadline(startedAt, lease, wakes)).LeaseLost?
    ensures at >= wakes[k].at + lease
  {
    DeadlineCoversLastRenewal(startedAt, lease, wakes, k);
  }

  /** The step of the state machine that an outcome amounts to. */
  function OutcomeStep(worker: WorkerId, outcome: Outcome): Step {
    match outcome
    case Completed(Sent) => SendSucceeded(worker)
    case Completed(SendError(error)) => SendFailed(worker, ShouldRetryDeliveryError(error))
    case ShutdownCancelled => Release(worker)
    case LeaseLost => Drop(worker)
    case PayloadUnreadable => Drop(worker)
    case StillSending => Tick(0)
  }

  /** Trying again cannot help: the mail server said so, or the message itself is at fault. */
  predicate IsPermanent(error: DeliveryError) {
    error in {Smtp(true), BadAddress, BadMessage, MissingWebhookSecret}
  }

  /** What an ending leaves in the columns of the row. Only its owner writes: a success counts
      the attempt and delivers; a failure counts the attempt and is final if it is permanent or
      the last one allowed, and otherwise due again after 2^n times the base, n being the
      attempts before it but at most six. */
  ghost predicate Recorded(c: Config, before: Row, after: Row, worker: WorkerId, attempts: nat, now: int, outcome: Outcome) {
    var freed := before.(claimedBy := None, leaseUntil := None);
    if before.claimedBy != Some(worker) then after == before
    else match outcome
      case Completed(Sent) => after == freed.(status := Delivered, attempts := before.attempts + 1)
      case Completed(SendError(error)) =>
        if IsPermanent(error) || attempts + 1 >= c.maxAttempts then
          after == freed.(status := Failed, attempts := before.attempts + 1, nextAttemptAt := None)
        else
          after == freed.(status := Failed, attempts := before.attempts + 1, nextAttemptAt := Some(
            now + 1000 * Min(c.retryBaseSeconds * (if attempts <= 6 then Pow2(attempts) else 64), I64_RANGE - 1)))
      case ShutdownCancelled => after == freed
      case LeaseLost => after == before
      case PayloadUnreadable => after == before
      case StillSending => after == before
  }

  /** The step that an ending amounts to records just that. */
  lemma {:induction false} StepIsRecorded(c: Config, row: Row, worker: WorkerId, attempts: nat, now: int, outcome: Outcome)
    ensures Recorded(c, row, Apply(c, System(row, map[worker := attempts], now), OutcomeStep(worker, outcome)).row,
                     worker, attempts, now, outcome)
  {
    SmallPowers();
  }

  class DeliveryRow {
    var row: Row

    constructor (row: Row)
      ensures this.row == row
    {
      this.row := row;
    }

    /** None when the row is not due, is finished, or is leased to somebody. */
    method ClaimDueDelivery(worker: WorkerId, now: int, leaseSeconds: int, channelActive: bool)
        returns (attempts: Option<nat>)
      modifies this
      ensures attempts == if channelActive && Claimable(old(row), now) then Some(old(row).attempts) else None
      ensures row == if attempts.Some? then Claimed(old(row), worker, now, leaseSeconds) else old(row)
    {
      if channelActive && Claimable(row, now) {
        row := row.(claimedBy := Some(worker), leaseUntil := Some(now + 1000 * leaseSeconds));
        return Some(row.attempts);
      }
      return None;
    }

    method MarkRowDelivered(worker: WorkerId) returns (updated: bool)
      modifies this
      ensures updated == Owns(old(row), worker) && row == MarkDelivered(old(row), worker)
    {
      updated := row.claimedBy == Some(worker);
      if updated {
        row := row.(status := Delivered, attempts := row.attempts + 1, claimedBy := None, leaseUntil := None);
      }
    }

    /** Schedules another attempt or gives up, from the attempt count seen at the claim. */
    method HandleDeliveryFailure(c: Config, worker: WorkerId, attempts: nat, transient: bool, now: int)
        returns (updated: bool)
      modifies this
      ensures updated == Owns(old(row), worker)
      ensures row == MarkFailed(old(row), worker, NextAttempt(c, attempts, transient, now))
    {
      var attemptNumber := attempts + 1;
      var shouldRetry := transient && attemptNumber < c.maxAttempts;
      var nextAttemptAt: Option<int> := None;
      if shouldRetry {
        nextAttemptAt := Some(now + 1000 * RetryDelaySeconds(c.retryBaseSeconds, attemptNumber));
      }
      updated := row.claimedBy == Some(worker);
      if updated {
        row := row.(status := Failed, attempts := row.attempts + 1, nextAttemptAt := nextAttemptAt,
                    claimedBy := None, leaseUntil := None);
      }
    }

    method ReleaseDeliveryClaim(worker: WorkerId) returns (updated: bool)
      modifies this
      ensures updated == Owns(old(row), worker) && row == ReleaseClaim(old(row), worker)
    {
      updated := row.claimedBy == Some(worker);
      if updated {
        row := row.(claimedBy := None, leaseUntil := None);
      }
    }

    /** Waits for the send and records what came of it: one step of the state machine,
        whichever way it ends. A shutdown before the send releases the claim; a stored
        payload that does not parse leaves the claim to run out. */
    method DeliverOneNotification(c: Config, worker: WorkerId, attempts: nat, now: int, shutdown: bool,
                                  payloadParses: bool, startedAt: nat, lease: nat, wakes: seq<Wake>)
        returns (outcome: Outcome)
      modifies this
      ensures outcome == if shutdown then ShutdownCancelled
                         else if !payloadParses then PayloadUnreadable
                         else Resolution(startedAt, lease, wakes)
      ensures row == Apply(c, System(old(row), map[worker := attempts], now), OutcomeStep(worker, outcome)).row
      ensures outcome.Completed? || outcome.ShutdownCancelled? ==> !Owns(row, worker)
      ensures Recorded(c, old(row), row, worker, attempts, now, outcome)
    {
      StepIsRecorded(c, row, worker, attempts, now,
        if shutdown then ShutdownCancelled else if !payloadParses then PayloadUnreadable else Resolution(startedAt, lease, wakes));
      if shutdown {
        var _ := ReleaseDeliveryClaim(worker);
        return ShutdownCancelled;
      }
      if !payloadParses {
        return PayloadUnreadable;
      }
      outcome := AwaitSend(startedAt, lease, wakes);
      match outcome {
        case Completed(result) =>
          if result.Sent? {
            var _ := MarkRowDelivered(worker);
          } else {
            var _ := HandleDeliveryFailure(c, worker, attempts, ShouldRetryDeliveryError(result.error), now);
          }
        case ShutdownCancelled =>
          var _ := ReleaseDeliveryClaim(worker);
        case LeaseLost =>
        case PayloadUnreadable =>
        case StillSending =>
      }
    }
  }
}
