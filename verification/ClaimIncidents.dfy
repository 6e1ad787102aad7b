/** What an incident row says, read off the check table: over every run its columns are the
    history of its monitor's checks. */
module ClaimIncidents {
  import opened Prelude
  import opened MonitorStore
  import opened ClaimProtocol
  import opened ClaimTheorems

  /** Failed checks of the monitor from this id on. */
  function Failures(checks: seq<Check>, m: MonitorId, from: nat): nat {
    if |checks| <= from then 0
    else
      var last := checks[|checks| - 1];
      Failures(checks[..|checks| - 1], m, from) + if last.monitor == m && !last.isSuccess then 1 else 0
  }

  /** The incident was opened by a failed check; its last check is the recovery if it
      recovered and a failure otherwise; it counts the failures in between, and no check in
      between succeeded. While it is open, that check is the monitor's last. */
  ghost predicate TellsHistory(checks: seq<Check>, x: Incident) {
    && x.openedCheck <= x.lastCheck < |checks|
    && checks[x.openedCheck] == Check(x.monitor, false)
    && checks[x.lastCheck] == Check(x.monitor, x.status.Recovered?)
    && (x.status.Recovered? ==> x.status.check == x.lastCheck)
    && x.failureCount == Failures(checks[..x.lastCheck + 1], x.monitor, x.openedCheck)
    && (forall j :: x.openedCheck <= j < x.lastCheck && checks[j].monitor == x.monitor ==> !checks[j].isSuccess)
    && (x.status.Open? ==> forall j :: x.lastCheck < j < |checks| ==> checks[j].monitor != x.monitor)
  }

  ghost predicate IncidentsTellHistory(s: Store) {
    forall i :: 0 <= i < |s.incidents| ==> TellsHistory(s.checks, s.incidents[i])
  }

  lemma {:induction false} NoneSince(checks: seq<Check>, m: MonitorId, from: nat, last: nat)
    requires from <= last < |checks| && forall j :: last < j < |checks| ==> checks[j].monitor != m
    ensures Failures(checks, m, from) == Failures(checks[..last + 1], m, from)
    decreases |checks|
  {
    if |checks| == last + 1 {
      assert checks[..last + 1] == checks;
    } else {
      var prefix := checks[..|checks| - 1];
      NoneSince(prefix, m, from, last);
      assert prefix[..last + 1] == checks[..last + 1];
    }
  }

  lemma {:induction false} OneMoreFailure(checks: seq<Check>, m: MonitorId, from: nat)
    requires from <= |checks|
    ensures Failures(checks + [Check(m, false)], m, from) == Failures(checks, m, from) + 1
  {
    assert (checks + [Check(m, false)])[..|checks|] == checks;
  }

  lemma {:induction false} OneMoreSuccess(checks: seq<Check>, m: MonitorId, from: nat)
    requires from <= |checks|
    ensures Failures(checks + [Check(m, true)], m, from) == Failures(checks, m, from)
  {
    assert (checks + [Check(m, true)])[..|checks|] == checks;
  }

  /** A new check leaves the incidents alone that are closed or of other monitors. */
  lemma {:induction false} AppendKeepsHistory(checks: seq<Check>, c: Check, x: Incident)
    requires TellsHistory(checks, x) && (x.status.Open? ==> c.monitor != x.monitor)
    ensures TellsHistory(checks + [c], x)
  {
    assert (checks + [c])[..x.lastCheck + 1] == checks[..x.lastCheck + 1];
  }

  lemma {:induction false} FailureExtendsHistory(checks: seq<Check>, x: Incident)
    requires TellsHistory(checks, x) && x.status.Open?
    ensures TellsHistory(checks + [Check(x.monitor, false)], x.(failureCount := x.failureCount + 1, lastCheck := |checks|))
  {
    var after := checks + [Check(x.monitor, false)];
    NoneSince(checks, x.monitor, x.openedCheck, x.lastCheck);
    OneMoreFailure(checks, x.monitor, x.openedCheck);
    assert after[..|checks| + 1] == after;
  }

  lemma {:induction false} RecoveryEndsHistory(checks: seq<Check>, x: Incident)
    requires TellsHistory(checks, x) && x.status.Open?
    ensures TellsHistory(checks + [Check(x.monitor, true)], x.(status := Recovered(|checks|), lastCheck := |checks|))
  {
    var after := checks + [Check(x.monitor, true)];
    NoneSince(checks, x.monitor, x.openedCheck, x.lastCheck);
    OneMoreSuccess(checks, x.monitor, x.openedCheck);
    assert after[..|checks| + 1] == after;
  }

  lemma {:induction false} OpeningStartsHistory(checks: seq<Check>, m: MonitorId)
    ensures TellsHistory(checks + [Check(m, false)], Incident(m, |checks|, |checks|, 1, Open))
  {
    var after := checks + [Check(m, false)];
    OneMoreFailure(checks, m, |checks|);
    assert after[..|checks| + 1] == after;
  }

  /** What a save does to one incident, in its columns: an open one of its monitor counts the
      failure or recovers, every other stays as it was. */
  lemma {:induction false} CommitWritesIncident(sys: System, step: Step, i: nat)
    requires Inv(sys) && Saves(sys, step) && i < |sys.store.incidents|
    ensures var x, s, before, next := sys.sessions[step.id], sys.store, sys.store.incidents[i], Apply(sys, step).store;
      && i < |next.incidents|
      && next.incidents[i] ==
           if !OpenAt(s.incidents, i, x.monitor) then before
           else if x.phase.isSuccess then before.(status := Recovered(|s.checks|), lastCheck := |s.checks|)
           else before.(failureCount := before.failureCount + 1, lastCheck := |s.checks|)
  {
    CommitTables(sys, step);
    assert Informed(sys.store, sys.sessions[step.id]);
  }

  /** A save adds at most one incident, opened by its own failed check. */
  lemma {:induction false} CommitAddsIncident(sys: System, step: Step)
    requires Inv(sys) && Saves(sys, step)
    ensures var x, s, next := sys.sessions[step.id], sys.store, Apply(sys, step).store;
      && |s.incidents| <= |next.incidents| <= |s.incidents| + 1
      && (|next.incidents| > |s.incidents| ==>
            !x.phase.isSuccess && next.incidents[|s.incidents|] == Incident(x.monitor, |s.checks|, |s.checks|, 1, Open))
      && next.checks == s.checks + [Check(x.monitor, x.phase.isSuccess)]
  {
    CommitTables(sys, step);
  }

  lemma {:induction false} CommitKeepsHistory(sys: System, step: Step)
    requires Inv(sys) && Saves(sys, step) && IncidentsTellHistory(sys.store)
    ensures IncidentsTellHistory(Apply(sys, step).store)
  {
    var x, s, next := sys.sessions[step.id], sys.store, Apply(sys, step).store;
    CommitAddsIncident(sys, step);
    forall i | 0 <= i < |next.incidents|
      ensures TellsHistory(next.checks, next.incidents[i])
    {
      if i == |s.incidents| {
        OpeningStartsHistory(s.checks, x.monitor);
      } else {
        CommitWritesIncident(sys, step, i);
        if !OpenAt(s.incidents, i, x.monitor) {
          AppendKeepsHistory(s.checks, Check(x.monitor, x.phase.isSuccess), s.incidents[i]);
        } else if x.phase.isSuccess {
          RecoveryEndsHistory(s.checks, s.incidents[i]);
        } else {
          FailureExtendsHistory(s.checks, s.incidents[i]);
        }
      }
    }
  }

  lemma {:induction false} QuietKeepsHistory(sys: System, step: Step)
    requires !Saves(sys, step) && IncidentsTellHistory(sys.store)
    ensures IncidentsTellHistory(Apply(sys, step).store)
  {
    QuietTables(sys, step);
    forall i | 0 <= i < |sys.store.incidents|
      ensures TellsHistory(Apply(sys, step).store.checks, Apply(sys, step).store.incidents[i])
    {
      assert TellsHistory(sys.store.checks, sys.store.incidents[i]);
    }
  }

  /** In every reachable state every incident tells the history of its monitor's checks: when
      it was opened, the last check and the number of failures it stands for. */
  lemma {:induction false} IncidentsAlwaysTellHistory(sys: System, steps: seq<Step>)
    requires Initial(sys) && UniquelyNamed(sys, steps)
    ensures IncidentsTellHistory(Run(sys, steps).store)
  {
    InitialInv(sys);
    if steps == [] {
    } else {
      var prefix, last := steps[..|steps| - 1], steps[|steps| - 1];
      IncidentsAlwaysTellHistory(sys, prefix);
      RunKeepsInv(sys, prefix);
      if Saves(Run(sys, prefix), last) {
        CommitKeepsHistory(Run(sys, prefix), last);
      } else {
        QuietKeepsHistory(Run(sys, prefix), last);
      }
    }
  }

  /** An open incident ends with the monitor's last check and counts every check of the
      monitor since it was opened, all of them failures. */
  lemma {:induction false} OpenIncidentCountsFailures(sys: System, steps: seq<Step>, i: nat, m: MonitorId)
    requires Initial(sys) && UniquelyNamed(sys, steps) && OpenAt(Run(sys, steps).store.incidents, i, m)
    ensures var s := Run(sys, steps).store;
      var x := s.incidents[i];
      && x.lastCheck < |s.checks| && s.checks[x.lastCheck] == Check(m, false)
      && (forall j :: x.lastCheck < j < |s.checks| ==> s.checks[j].monitor != m)
      && (forall j :: x.openedCheck <= j < |s.checks| && s.checks[j].monitor == m ==> !s.checks[j].isSuccess)
      && x.failureCount == Failures(s.checks, m, x.openedCheck)
  {
    IncidentsAlwaysTellHistory(sys, steps);
    var s := Run(sys, steps).store;
    assert TellsHistory(s.checks, s.incidents[i]);
    NoneSince(s.checks, m, s.incidents[i].openedCheck, s.incidents[i].lastCheck);
  }

  /** The id handed on to the notifications: that of the incident which is open after the save,
      or which the save resolved; none only if it wrote no incident of its monitor. */
  lemma {:induction false} CommitHandsOnIncident(sys: System, step: Step, i: nat)
    requires Inv(sys) && Saves(sys, step) && i < |Apply(sys, step).store.incidents|
    ensures var x, next := sys.sessions[step.id], Apply(sys, step).store;
      && (OpenAt(next.incidents, i, x.monitor) ==> SavedIncident(sys, step.id) == Some(i))
      && (OpenAt(sys.store.incidents, i, x.monitor) ==> SavedIncident(sys, step.id) == Some(i))
  {
    CommitTables(sys, step);
    var x := sys.sessions[step.id];
    assert Informed(sys.store, x);
    ManageIncidentEffect(sys.store.incidents, x.snapshot, x.monitor, x.phase.isSuccess, |sys.store.checks|, x.phase.found);
  }

  // ------------------------------------------------------------- unique deliveries

  /** The unique key of the delivery table. */
  ghost predicate DeliveriesUnique(ds: seq<Delivery>) {
    forall i, j :: 0 <= i < j < |ds| ==>
      !(ds[i].channel == ds[j].channel && ds[i].check == ds[j].check && ds[i].event == ds[j].event)
  }

  lemma {:induction false} EnqueueKeepsUnique(deliveries: seq<Delivery>, channels: seq<Channel>, m: MonitorId, check: nat,
                                              incident: Option<nat>, event: EventType)
    requires DeliveriesUnique(deliveries)
    ensures DeliveriesUnique(Enqueue(deliveries, channels, m, check, incident, event))
  {
    if channels == [] {
    } else {
      EnqueueKeepsUnique(deliveries, channels[..|channels| - 1], m, check, incident, event);
    }
  }

  /** Over every run no channel is queued the same event of a check twice, even if a channel
      list repeats it. */
  lemma {:induction false} NothingIsQueuedTwice(sys: System, steps: seq<Step>)
    requires Initial(sys) && UniquelyNamed(sys, steps)
    ensures DeliveriesUnique(Run(sys, steps).store.deliveries)
  {
    InitialInv(sys);
    if steps == [] {
    } else {
      var prefix, last := steps[..|steps| - 1], steps[|steps| - 1];
      var mid := Run(sys, prefix);
      NothingIsQueuedTwice(sys, prefix);
      RunKeepsInv(sys, prefix);
      if Saves(mid, last) {
        var x := mid.sessions[last.id];
        CommitTables(mid, last);
        var event := DetermineEventType(x.snapshot, x.phase.isSuccess);
        if event.Some? {
          EnqueueKeepsUnique(mid.store.deliveries, last.channels, x.monitor, |mid.store.checks|,
                             SavedIncident(mid, last.id), event.value);
        }
      } else {
        QuietTables(mid, last);
      }
    }
  }
}
