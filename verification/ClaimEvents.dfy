/** The notifications that a channel receives about a monitor, over every run. */
module ClaimEvents {
  import opened Prelude
  import opened MonitorStore
  import opened ClaimProtocol
  import opened ClaimTheorems

  /** The deliveries queued for one channel about one monitor, oldest first. */
  function About(deliveries: seq<Delivery>, channel: int, m: MonitorId): seq<Delivery> {
    if deliveries == [] then []
    else
      var last := deliveries[|deliveries| - 1];
      About(deliveries[..|deliveries| - 1], channel, m)
      + if last.channel == channel && last.monitor == m then [last] else []
  }

  lemma AboutAppend(deliveries: seq<Delivery>, d: Delivery, channel: int, m: MonitorId)
    ensures About(deliveries + [d], channel, m)
            == About(deliveries, channel, m) + if d.channel == channel && d.monitor == m then [d] else []
  {
    assert (deliveries + [d])[..|deliveries|] == deliveries;
  }

  // ----------------------------------------------- one commit, one channel

  /** A channel list that names each channel once, as the query does, and in which this
      channel takes both kinds of event. */
  predicate Subscribed(channels: seq<Channel>, channel: int) {
    && (forall i, j | 0 <= i < j < |channels| :: channels[i].id != channels[j].id)
    && (exists i :: 0 <= i < |channels| && channels[i].id == channel
          && channels[i].isActive && channels[i].notifyOnFailure && channels[i].notifyOnRecovery)
  }

  /** The channel is subscribed at every save of this monitor; saves of other monitors, and
      saves that roll back, may list it in any way or not at all. */
  ghost predicate SubscribedFor(sys: System, steps: seq<Step>, channel: int, m: MonitorId) {
    steps != [] ==>
      var prefix, last := steps[..|steps| - 1], steps[|steps| - 1];
      && SubscribedFor(sys, prefix, channel, m)
      && (SavesFor(Run(sys, prefix), last, m) ==> Subscribed(last.channels, channel))
  }

  predicate Names(channels: seq<Channel>, channel: int) {
    exists i :: 0 <= i < |channels| && channels[i].id == channel
  }

  lemma {:induction false} EnqueueWithoutChannel(
      deliveries: seq<Delivery>, channels: seq<Channel>, m: MonitorId, check: nat,
      incident: Option<nat>, event: EventType, channel: int, about: MonitorId)
    requires !Names(channels, channel) || about != m
    requires forall i :: 0 <= i < |deliveries| ==> deliveries[i].check < check
    ensures var after := Enqueue(deliveries, channels, m, check, incident, event);
      && About(after, channel, about) == About(deliveries, channel, about)
      && (!Names(channels, channel) ==>
            !Conflicts(after, Delivery(channel, m, check, incident, event)))
  {
    if channels == [] {
    } else {
      var n := |channels| - 1;
      var earlier := Enqueue(deliveries, channels[..n], m, check, incident, event);
      assert Names(channels[..n], channel) ==> Names(channels, channel);
      assert Names(channels, channel) || channels[n].id != channel by {
        if channels[n].id == channel { assert Names(channels, channel); }
      }
      EnqueueWithoutChannel(deliveries, channels[..n], m, check, incident, event, channel, about);
      AboutAppend(earlier, Delivery(channels[n].id, m, check, incident, event), channel, about);
    }
  }

  /** A list that names each channel once, this one among them, active and with these flags
      or inactive and with neither. */
  predicate ListedAs(channels: seq<Channel>, channel: int, onFailure: bool, onRecovery: bool) {
    && (forall i, j | 0 <= i < j < |channels| :: channels[i].id != channels[j].id)
    && (exists i :: 0 <= i < |channels| && channels[i].id == channel
          && (onFailure <==> channels[i].isActive && channels[i].notifyOnFailure)
          && (onRecovery <==> channels[i].isActive && channels[i].notifyOnRecovery))
  }

  predicate Wants(event: EventType, onFailure: bool, onRecovery: bool) {
    match event case Failure => onFailure case Recovery => onRecovery
  }

  /** A listed channel gets one delivery out of an event that its flags ask for, and none out
      of any other. */
  lemma {:induction false} EnqueueListed(
      deliveries: seq<Delivery>, channels: seq<Channel>, m: MonitorId, check: nat,
      incident: Option<nat>, event: EventType, channel: int, onFailure: bool, onRecovery: bool)
    requires ListedAs(channels, channel, onFailure, onRecovery)
    requires forall i :: 0 <= i < |deliveries| ==> deliveries[i].check < check
    ensures About(Enqueue(deliveries, channels, m, check, incident, event), channel, m)
            == About(deliveries, channel, m)
               + if Wants(event, onFailure, onRecovery) then [Delivery(channel, m, check, incident, event)] else []
  {
    var n := |channels| - 1;
    var c := channels[n];
    var d := Delivery(c.id, m, check, incident, event);
    var earlier := Enqueue(deliveries, channels[..n], m, check, incident, event);
    if c.id == channel {
      assert !Names(channels[..n], channel);
      EnqueueWithoutChannel(deliveries, channels[..n], m, check, incident, event, channel, m);
    } else {
      var i :| 0 <= i < |channels| && channels[i].id == channel
        && (onFailure <==> channels[i].isActive && channels[i].notifyOnFailure)
        && (onRecovery <==> channels[i].isActive && channels[i].notifyOnRecovery);
      assert channels[..n][i] == channels[i];
      EnqueueListed(deliveries, channels[..n], m, check, incident, event, channel, onFailure, onRecovery);
    }
    AboutAppend(earlier, d, channel, m);
  }

  /** A subscribed channel gets exactly one delivery out of an event. */
  lemma {:induction false} EnqueueOnce(
      deliveries: seq<Delivery>, channels: seq<Channel>, m: MonitorId, check: nat,
      incident: Option<nat>, event: EventType, channel: int)
    requires Subscribed(channels, channel)
    requires forall i :: 0 <= i < |deliveries| ==> deliveries[i].check < check
    ensures About(Enqueue(deliveries, channels, m, check, incident, event), channel, m)
            == About(deliveries, channel, m) + [Delivery(channel, m, check, incident, event)]
  {
    EnqueueListed(deliveries, channels, m, check, incident, event, channel, true, true);
  }

  /** What a save adds to a subscribed channel's deliveries, about any monitor. */
  lemma {:induction false} CommitQueues(sys: System, step: Step, channel: int, about: MonitorId)
    requires Inv(sys) && Saves(sys, step) && (SavesFor(sys, step, about) ==> Subscribed(step.channels, channel))
    ensures var x := sys.sessions[step.id];
      var event := DetermineEventType(sys.store.rows[x.monitor].lastIsSuccess, x.phase.isSuccess);
      About(Apply(sys, step).store.deliveries, channel, about)
      == About(sys.store.deliveries, channel, about)
         + if about == x.monitor && event.Some?
           then [Delivery(channel, about, |sys.store.checks|, SavedIncident(sys, step.id), event.value)]
           else []
  {
    var x := sys.sessions[step.id];
    var s := sys.store;
    OwnerSaveCommits(sys, step.id, step.channels);
    assert Informed(s, x);
    var event := DetermineEventType(x.snapshot, x.phase.isSuccess);
    if event.Some? {
      var incident := SavedIncident(sys, step.id);
      if about == x.monitor {
        EnqueueOnce(s.deliveries, step.channels, about, |s.checks|, incident, event.value, channel);
      } else {
        EnqueueWithoutChannel(s.deliveries, step.channels, x.monitor, |s.checks|, incident, event.value, channel, about);
      }
    }
  }

  // ------------------------------------------------------------ alternation

  /** Failure, Recovery, Failure, ... */
  predicate Alternates(events: seq<EventType>) {
    forall i :: 0 <= i < |events| ==> events[i] == if i % 2 == 0 then Failure else Recovery
  }

  predicate Failing(s: Store, m: MonitorId) {
    m in s.rows && s.rows[m].lastIsSuccess == Some(false)
  }

  /** The event that a step calls for, judged as the code does by the claim-time snapshot. */
  function StepEvent(sys: System, step: Step, m: MonitorId): seq<EventType> {
    if !SavesFor(sys, step, m) then []
    else
      var event := DetermineEventType(sys.sessions[step.id].snapshot, sys.sessions[step.id].phase.isSuccess);
      if event.None? then [] else [event.value]
  }

  function RunEvents(sys: System, steps: seq<Step>, m: MonitorId): seq<EventType> {
    if steps == [] then []
    else RunEvents(sys, steps[..|steps| - 1], m) + StepEvent(Run(sys, steps[..|steps| - 1]), steps[|steps| - 1], m)
  }

  /** These events alternate, and the last one tells the monitor's health. */
  ghost predicate FollowHealth(events: seq<EventType>, s: Store, m: MonitorId) {
    Alternates(events) && (|events| % 2 == 1 <==> Failing(s, m))
  }

  lemma {:induction false} StepKeepsAlternation(sys: System, step: Step, events: seq<EventType>, m: MonitorId)
    requires Inv(sys) && FollowHealth(events, sys.store, m)
    ensures FollowHealth(events + StepEvent(sys, step, m), Apply(sys, step).store, m)
  {
    var after := events + StepEvent(sys, step, m);
    assert forall i :: 0 <= i < |events| ==> after[i] == events[i];
    if Saves(sys, step) {
      CommitTables(sys, step);
      OwnerSaveCommits(sys, step.id, step.channels);
    } else {
      QuietFailing(sys, step, m);
    }
  }

  lemma {:induction false} QuietFailing(sys: System, step: Step, m: MonitorId)
    requires !Saves(sys, step)
    ensures Failing(Apply(sys, step).store, m) <==> Failing(sys.store, m)
  {
    QuietHealth(sys, step);
    var health, next := Project(sys.store).health, Project(Apply(sys, step).store).health;
    assert m in health <==> m in sys.store.rows;
    assert m in next <==> m in Apply(sys, step).store.rows;
  }

  /** Over any run from empty tables, whoever is subscribed, the events that the saves of a
      monitor call for strictly alternate, starting with a Failure. */
  lemma {:induction false} EventTypesAlternate(sys: System, steps: seq<Step>, m: MonitorId)
    requires Initial(sys) && UniquelyNamed(sys, steps)
    ensures FollowHealth(RunEvents(sys, steps, m), Run(sys, steps).store, m)
  {
    InitialInv(sys);
    if steps == [] {
    } else {
      var prefix := steps[..|steps| - 1];
      EventTypesAlternate(sys, prefix, m);
      RunKeepsInv(sys, prefix);
      StepKeepsAlternation(Run(sys, prefix), steps[|steps| - 1], RunEvents(sys, prefix, m), m);
    }
  }

  function EventsOf(ds: seq<Delivery>): (r: seq<EventType>)
    ensures |r| == |ds| && forall i :: 0 <= i < |r| ==> r[i] == ds[i].event
  {
    seq(|ds|, i requires 0 <= i < |ds| => ds[i].event)
  }

  /** What a subscribed channel hears about a monitor is exactly what its saves call for. */
  lemma {:induction false} SubscribersHearEverything(sys: System, steps: seq<Step>, channel: int, m: MonitorId)
    requires Initial(sys) && UniquelyNamed(sys, steps) && SubscribedFor(sys, steps, channel, m)
    ensures EventsOf(About(Run(sys, steps).store.deliveries, channel, m)) == RunEvents(sys, steps, m)
  {
    InitialInv(sys);
    if steps == [] {
    } else {
      var prefix, last := steps[..|steps| - 1], steps[|steps| - 1];
      SubscribersHearEverything(sys, prefix, channel, m);
      RunKeepsInv(sys, prefix);
      if Saves(Run(sys, prefix), last) {
        CommitQueues(Run(sys, prefix), last, channel, m);
        CommitTables(Run(sys, prefix), last);
      } else {
        QuietTables(Run(sys, prefix), last);
      }
    }
  }

  /** At every save of this monitor the channel is listed with these flags. */
  ghost predicate ListedFor(sys: System, steps: seq<Step>, channel: int, m: MonitorId, onFailure: bool, onRecovery: bool) {
    steps != [] ==>
      var prefix, last := steps[..|steps| - 1], steps[|steps| - 1];
      && ListedFor(sys, prefix, channel, m, onFailure, onRecovery)
      && (SavesFor(Run(sys, prefix), last, m) ==> ListedAs(last.channels, channel, onFailure, onRecovery))
  }

  /** The events that these flags ask for, in order. */
  function Wanted(events: seq<EventType>, onFailure: bool, onRecovery: bool): seq<EventType> {
    if events == [] then []
    else
      var last := events[|events| - 1];
      Wanted(events[..|events| - 1], onFailure, onRecovery) + if Wants(last, onFailure, onRecovery) then [last] else []
  }

  lemma {:induction false} WantedMore(events: seq<EventType>, more: seq<EventType>, onFailure: bool, onRecovery: bool)
    requires |more| <= 1
    ensures Wanted(events + more, onFailure, onRecovery)
      == Wanted(events, onFailure, onRecovery)
         + if more != [] && Wants(more[0], onFailure, onRecovery) then more else []
  {
    if more == [] {
      assert events + more == events;
    } else {
      assert (events + more)[..|events + more| - 1] == events;
    }
  }

  lemma {:induction false} EventsOfMore(ds: seq<Delivery>, more: seq<Delivery>)
    ensures EventsOf(ds + more) == EventsOf(ds) + EventsOf(more)
  {
  }

  /** What one step adds to what the listed channel hears. */
  lemma {:induction false} StepIsHeard(sys: System, step: Step, channel: int, m: MonitorId, onFailure: bool, onRecovery: bool)
    requires Inv(sys) && (SavesFor(sys, step, m) ==> ListedAs(step.channels, channel, onFailure, onRecovery))
    ensures var event := StepEvent(sys, step, m);
      EventsOf(About(Apply(sys, step).store.deliveries, channel, m))
      == EventsOf(About(sys.store.deliveries, channel, m))
         + if event != [] && Wants(event[0], onFailure, onRecovery) then event else []
  {
    var s, before := sys.store, About(sys.store.deliveries, channel, m);
    if SavesFor(sys, step, m) {
      var x := sys.sessions[step.id];
      var event := DetermineEventType(x.snapshot, x.phase.isSuccess);
      CommitTables(sys, step);
      if event.Some? {
        EnqueueListed(s.deliveries, step.channels, m, |s.checks|, SavedIncident(sys, step.id), event.value,
                      channel, onFailure, onRecovery);
        EventsOfMore(before, [Delivery(channel, m, |s.checks|, SavedIncident(sys, step.id), event.value)]);
        assert before + [] == before;
      }
    } else if Saves(sys, step) {
      CommitQueues(sys, step, channel, m);
      assert before + [] == before;
    } else {
      QuietTables(sys, step);
    }
  }

  /** Over every run a channel is queued exactly those events of a monitor that its flags ask
      for: the failures, the recoveries, both or neither. */
  lemma {:induction false} ChannelsHearWhatTheyWant(sys: System, steps: seq<Step>, channel: int, m: MonitorId,
                                                    onFailure: bool, onRecovery: bool)
    requires Initial(sys) && UniquelyNamed(sys, steps) && ListedFor(sys, steps, channel, m, onFailure, onRecovery)
    ensures EventsOf(About(Run(sys, steps).store.deliveries, channel, m))
      == Wanted(RunEvents(sys, steps, m), onFailure, onRecovery)
  {
    InitialInv(sys);
    if steps == [] {
    } else {
      var prefix, last := steps[..|steps| - 1], steps[|steps| - 1];
      ChannelsHearWhatTheyWant(sys, prefix, channel, m, onFailure, onRecovery);
      RunKeepsInv(sys, prefix);
      StepIsHeard(Run(sys, prefix), last, channel, m, onFailure, onRecovery);
      WantedMore(RunEvents(sys, prefix, m), StepEvent(Run(sys, prefix), last, m), onFailure, onRecovery);
    }
  }

  /** So it strictly alternates too, outside closes included. */
  lemma {:induction false} EventsAlternate(sys: System, steps: seq<Step>, channel: int, m: MonitorId)
    requires Initial(sys) && UniquelyNamed(sys, steps) && SubscribedFor(sys, steps, channel, m)
    ensures FollowHealth(EventsOf(About(Run(sys, steps).store.deliveries, channel, m)), Run(sys, steps).store, m)
  {
    EventTypesAlternate(sys, steps, m);
    SubscribersHearEverything(sys, steps, channel, m);
  }

  // ---------------------------------------------------------------- pairing

  /** The Failure at position 2k was queued by the check that opened its incident; the
      Recovery after it carries the same incident and the check that resolved it. With
      no Recovery yet, that incident is still open. */
  predicate PairedAt(incidents: seq<Incident>, ds: seq<Delivery>, m: MonitorId, k: nat)
    requires 2 * k < |ds|
  {
    var failure := ds[2 * k];
    && failure.incident.Some? && failure.incident.value < |incidents|
    && var incident := incidents[failure.incident.value];
    && incident.monitor == m == failure.monitor
    && incident.openedCheck == failure.check
    && if 2 * k + 1 < |ds|
       then ds[2 * k + 1].incident == failure.incident && incident.status == Recovered(ds[2 * k + 1].check)
       else incident.status.Open?
  }

  ghost predicate Paired(incidents: seq<Incident>, ds: seq<Delivery>, m: MonitorId) {
    forall k: nat :: 2 * k < |ds| ==> PairedAt(incidents, ds, m, k)
  }

  /** Incidents of the monitor that did not move keep its deliveries paired. */
  lemma {:induction false} UntouchedStayPaired(incidents: seq<Incident>, after: seq<Incident>, ds: seq<Delivery>, m: MonitorId)
    requires Paired(incidents, ds, m) && |incidents| <= |after|
    requires forall i :: 0 <= i < |incidents| && incidents[i].monitor == m ==> after[i] == incidents[i]
    ensures Paired(after, ds, m)
  {
    forall k: nat | 2 * k < |ds|
      ensures PairedAt(after, ds, m, k)
    {
      assert PairedAt(incidents, ds, m, k);
    }
  }

  lemma {:induction false} OtherCommitTouchesNothing(sys: System, step: Step, m: MonitorId)
    requires Inv(sys) && Saves(sys, step) && !SavesFor(sys, step, m)
    ensures var s, next := sys.store, Apply(sys, step).store;
      |s.incidents| <= |next.incidents|
      && forall i :: 0 <= i < |s.incidents| && s.incidents[i].monitor == m ==> next.incidents[i] == s.incidents[i]
  {
    CommitTables(sys, step);
    assert Informed(sys.store, sys.sessions[step.id]);
  }

  /** The pairs before the last are closed and stay as they are. */
  lemma {:induction false} OwnCommitKeepsClosedPairs(sys: System, step: Step, ds: seq<Delivery>, after: seq<Delivery>,
                                                     m: MonitorId, k: nat)
    requires Inv(sys) && SavesFor(sys, step, m) && ds <= after
    requires 2 * k + 1 < |ds| && PairedAt(sys.store.incidents, ds, m, k)
    ensures PairedAt(Apply(sys, step).store.incidents, after, m, k)
  {
    CommitTables(sys, step);
    assert after[2 * k] == ds[2 * k] && after[2 * k + 1] == ds[2 * k + 1];
    var i := ds[2 * k].incident.value;
    assert Apply(sys, step).store.incidents[i] == sys.store.incidents[i];
  }

  /** What the monitor's save adds to the subscribed channel's deliveries about it. */
  function Queued(sys: System, step: Step, channel: int, m: MonitorId): seq<Delivery>
    requires SavesFor(sys, step, m)
  {
    var x := sys.sessions[step.id];
    match DetermineEventType(x.snapshot, x.phase.isSuccess)
    case None => []
    case Some(event) => [Delivery(channel, m, |sys.store.checks|, SavedIncident(sys, step.id), event)]
  }

  /** The open pair of a failing monitor: its save resolves that very incident and queues the
      Recovery for it, or leaves it open and queues nothing. */
  lemma {:induction false} OwnCommitMovesOpenPair(sys: System, step: Step, ds: seq<Delivery>, channel: int, m: MonitorId, k: nat)
    requires Inv(sys) && SavesFor(sys, step, m) && LookupsOpen(sys, m)
    requires Failing(sys.store, m) && 2 * k + 1 == |ds| && PairedAt(sys.store.incidents, ds, m, k)
    ensures PairedAt(Apply(sys, step).store.incidents, ds + Queued(sys, step, channel, m), m, k)
    ensures |Queued(sys, step, channel, m)| <= 1
  {
    var x, i := sys.sessions[step.id], ds[2 * k].incident.value;
    CommitTables(sys, step);
    LookupStillCurrent(sys, step.id);
    assert Informed(sys.store, x) && OpenAt(sys.store.incidents, i, m) && x.phase.found == Some(i);
    assert (ds + Queued(sys, step, channel, m))[2 * k] == ds[2 * k];
  }

  /** A monitor that was not failing: its failing save opens the incident of a new pair. */
  lemma {:induction false} OwnCommitOpensPair(sys: System, step: Step, ds: seq<Delivery>, channel: int, m: MonitorId)
    requires Inv(sys) && SavesFor(sys, step, m) && !Failing(sys.store, m) && |ds| % 2 == 0
    ensures Queued(sys, step, channel, m) != [] ==>
      PairedAt(Apply(sys, step).store.incidents, ds + Queued(sys, step, channel, m), m, |ds| / 2)
    ensures |Queued(sys, step, channel, m)| <= 1
  {
    CommitTables(sys, step);
  }

  lemma {:induction false} OwnCommitKeepsPairing(sys: System, step: Step, ds: seq<Delivery>, channel: int, m: MonitorId)
    requires Inv(sys) && SavesFor(sys, step, m) && LookupsOpen(sys, m)
    requires Paired(sys.store.incidents, ds, m) && FollowHealth(EventsOf(ds), sys.store, m)
    ensures Paired(Apply(sys, step).store.incidents, ds + Queued(sys, step, channel, m), m)
  {
    var after := ds + Queued(sys, step, channel, m);
    forall k: nat | 2 * k < |after|
      ensures PairedAt(Apply(sys, step).store.incidents, after, m, k)
    {
      if 2 * k + 1 < |ds| {
        assert PairedAt(sys.store.incidents, ds, m, k);
        OwnCommitKeepsClosedPairs(sys, step, ds, after, m, k);
      } else if 2 * k + 1 == |ds| {
        assert PairedAt(sys.store.incidents, ds, m, k);
        OwnCommitMovesOpenPair(sys, step, ds, channel, m, k);
      } else {
        assert 2 * k == |ds| == |EventsOf(ds)|;
        OwnCommitOpensPair(sys, step, ds, channel, m);
      }
    }
  }

  /** If nothing closes the monitor's incidents from outside, each Failure is queued by the
      commit that opens an incident, and the next Recovery by the commit that resolves that
      same incident. */
  lemma {:induction false} EventsPairWithIncidents(sys: System, steps: seq<Step>, channel: int, m: MonitorId)
    requires Initial(sys) && UniquelyNamed(sys, steps)
    requires SubscribedFor(sys, steps, channel, m) && NeverCloses(steps, m)
    ensures Paired(Run(sys, steps).store.incidents, About(Run(sys, steps).store.deliveries, channel, m), m)
  {
    InitialInv(sys);
    if steps == [] {
    } else {
      var prefix, last := steps[..|steps| - 1], steps[|steps| - 1];
      var mid := Run(sys, prefix);
      var ds := About(mid.store.deliveries, channel, m);
      EventsPairWithIncidents(sys, prefix, channel, m);
      EventsAlternate(sys, prefix, channel, m);
      NoCloseNoOutdated(sys, prefix, m);
      RunKeepsInv(sys, prefix);
      StepKeepsPairing(mid, last, ds, channel, m);
    }
  }

  lemma {:induction false} OwnCommitQueues(sys: System, step: Step, channel: int, m: MonitorId)
    requires Inv(sys) && SavesFor(sys, step, m) && Subscribed(step.channels, channel)
    ensures About(Apply(sys, step).store.deliveries, channel, m)
      == About(sys.store.deliveries, channel, m) + Queued(sys, step, channel, m)
  {
    CommitTables(sys, step);
    CommitQueues(sys, step, channel, m);
  }

  lemma {:induction false} StepKeepsPairing(sys: System, step: Step, ds: seq<Delivery>, channel: int, m: MonitorId)
    requires Inv(sys) && LookupsOpen(sys, m) && step != CloseOutside(m)
    requires SavesFor(sys, step, m) ==> Subscribed(step.channels, channel)
    requires ds == About(sys.store.deliveries, channel, m)
    requires Paired(sys.store.incidents, ds, m) && FollowHealth(EventsOf(ds), sys.store, m)
    ensures Paired(Apply(sys, step).store.incidents, About(Apply(sys, step).store.deliveries, channel, m), m)
  {
    if SavesFor(sys, step, m) {
      OwnCommitQueues(sys, step, channel, m);
      OwnCommitKeepsPairing(sys, step, ds, channel, m);
    } else if Saves(sys, step) {
      CommitQueues(sys, step, channel, m);
      assert About(Apply(sys, step).store.deliveries, channel, m) == ds + [] == ds;
      OtherCommitTouchesNothing(sys, step, m);
      UntouchedStayPaired(sys.store.incidents, Apply(sys, step).store.incidents, ds, m);
    } else {
      QuietTables(sys, step);
      UntouchedStayPaired(sys.store.incidents, Apply(sys, step).store.incidents, ds, m);
    }
  }
}
