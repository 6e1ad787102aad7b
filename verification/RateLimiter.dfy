/** The fixed-window rate limiter: the shared table with its periodic pruning, refined by one
    independent window per key. */
module RateLimiter {
  import opened Prelude

  const COUNTER_RANGE: nat := 0x1_0000_0000_0000_0000
  const PRUNE_EVERY: nat := 256

  datatype Limits = Limits(maxRequests: nat, window: nat)

  datatype Key = Key(bucket: string, ipAddress: string)

  datatype Entry = Entry(windowStartedAt: nat, requestCount: nat)

  type Table = map<Key, Entry>

  datatype Limiter = Limiter(entries: Table, requestCounter: nat)

  datatype Call = Call(key: Key, now: nat)

  /** Time since an instant, zero for a later one. */
  function Since(now: nat, earlier: nat): nat { if now <= earlier then 0 else now - earlier }

  predicate Expired(l: Limits, e: Entry, now: nat) { Since(now, e.windowStartedAt) >= l.window }

  // -------------------------------------------------- the table, with and without pruning

  function Pruned(l: Limits, entries: Table, now: nat): Table {
    map k | k in entries && !Expired(l, entries[k], now) :: entries[k]
  }

  function Find(entries: Table, key: Key): Option<Entry> { if key in entries then Some(entries[key]) else None }

  /** One request against one key's window. */
  function Request(l: Limits, found: Option<Entry>, now: nat): (Entry, bool) {
    var e := if found.None? || Expired(l, found.value, now) then Entry(now, 0) else found.value;
    if e.requestCount >= l.maxRequests then (e, false) else (e.(requestCount := e.requestCount + 1), true)
  }

  function Kept(l: Limits, limiter: Limiter, now: nat): Table {
    if limiter.requestCounter % PRUNE_EVERY == 0 then Pruned(l, limiter.entries, now) else limiter.entries
  }

  function Checked(l: Limits, limiter: Limiter, c: Call): (Limiter, bool) {
    var kept := Kept(l, limiter, c.now);
    var (e, accepted) := Request(l, Find(kept, c.key), c.now);
    (Limiter(kept[c.key := e], (limiter.requestCounter + 1) % COUNTER_RANGE), accepted)
  }

  function Init<T>(s: seq<T>): seq<T> requires s != [] { s[..|s| - 1] }
  function Last<T>(s: seq<T>): T requires s != [] { s[|s| - 1] }

  /** The limiter after a whole trace of calls, and its answer to the last of them. */
  function After(l: Limits, calls: seq<Call>): Limiter {
    if calls == [] then Limiter(map[], 0) else Checked(l, After(l, Init(calls)), Last(calls)).0
  }

  function Answer(l: Limits, calls: seq<Call>): bool
    requires calls != []
  {
    Checked(l, After(l, Init(calls)), Last(calls)).1
  }

  function UnprunedAfter(l: Limits, calls: seq<Call>): Table {
    if calls == [] then map[]
    else
      var entries := UnprunedAfter(l, Init(calls));
      entries[Last(calls).key := Request(l, Find(entries, Last(calls).key), Last(calls).now).0]
  }

  function UnprunedAnswer(l: Limits, calls: seq<Call>): bool
    requires calls != []
  {
    Request(l, Find(UnprunedAfter(l, Init(calls)), Last(calls).key), Last(calls).now).1
  }

  class AuthRateLimiter {
    const limits: Limits
    var entries: Table
    var requestCounter: nat
    ghost var history: seq<Call>

    ghost predicate Valid()
      reads this
    {
      Limiter(entries, requestCounter) == After(limits, history)
    }

    constructor (maxRequests: nat, window: nat)
      ensures Valid() && limits == Limits(maxRequests, window) && history == []
    {
      limits := Limits(maxRequests, window);
      entries, requestCounter, history := map[], 0, [];
    }

    method Check(bucket: string, ipAddress: string, now: nat) returns (accepted: bool)
      requires Valid()
      modifies this
      ensures Valid()
      ensures history == old(history) + [Call(Key(bucket, ipAddress), now)]
      ensures accepted == Answer(limits, history)
    {
      var key := Key(bucket, ipAddress);
      history := history + [Call(key, now)];
      assert Init(history) == old(history);
      var count := requestCounter;
      requestCounter := (requestCounter + 1) % COUNTER_RANGE;
      if count % PRUNE_EVERY == 0 {
        entries := Pruned(limits, entries, now);
      }
      // The entry is borrowed from the map, changed, and given back.
      var entry := if key in entries then entries[key] else Entry(now, 0);
      if Expired(limits, entry, now) {
        entry := Entry(now, 0);
      }
      accepted := entry.requestCount < limits.maxRequests;
      if accepted {
        entry := entry.(requestCount := entry.requestCount + 1);
      }
      entries := entries[key := entry];
    }
  }

  // ------------------------------------------------- when pruning is observable

  predicate InOrder(calls: seq<Call>) {
    forall i, j :: 0 <= i < j < |calls| ==> calls[i].now <= calls[j].now
  }

  function Instants(calls: seq<Call>): (r: seq<nat>)
    ensures |r| == |calls| && forall i :: 0 <= i < |r| ==> r[i] == calls[i].now
  {
    seq(|calls|, i requires 0 <= i < |calls| => calls[i].now)
  }

  /** The j-th call is older than an earlier call that pruned, which in turn is younger than
      some call before it. */
  predicate OvertakenAt(instants: seq<nat>, h: nat, i: nat, j: nat) {
    h < i < j < |instants| && i % PRUNE_EVERY == 0 && instants[h] < instants[i] && instants[j] < instants[i]
  }

  predicate Overtaken(instants: seq<nat>) {
    exists h: nat, i: nat, j: nat | h < |instants| && i < |instants| && j < |instants| :: OvertakenAt(instants, h, i, j)
  }

  /** Instants that never go backwards overtake no pruning call. */
  lemma {:induction false} InOrderNeverOvertakes(calls: seq<Call>)
    requires InOrder(calls)
    ensures !Overtaken(Instants(calls))
  {
  }

  lemma {:induction false} PrefixIsNotOvertaken(calls: seq<Call>, n: nat)
    requires n <= |calls| && !Overtaken(Instants(calls))
    ensures !Overtaken(Instants(calls[..n]))
  {
    forall h: nat, i: nat, j: nat | h < n && i < n && j < n
      ensures !OvertakenAt(Instants(calls[..n]), h, i, j)
    {
      assert !OvertakenAt(Instants(calls), h, i, j);
    }
  }

  /** The counter wraps around without missing a pruning turn. */
  lemma {:induction false} CountsCalls(l: Limits, calls: seq<Call>)
    ensures After(l, calls).requestCounter < COUNTER_RANGE
    ensures After(l, calls).requestCounter % PRUNE_EVERY == |calls| % PRUNE_EVERY
  {
    if calls == [] {
    } else {
      CountsCalls(l, Init(calls));
      NextTurn(After(l, Init(calls)).requestCounter, |calls| - 1);
    }
  }

  lemma {:induction false} NextTurn(counter: nat, calls: nat)
    requires counter < COUNTER_RANGE && counter % PRUNE_EVERY == calls % PRUNE_EVERY
    ensures (counter + 1) % COUNTER_RANGE < COUNTER_RANGE
    ensures (counter + 1) % COUNTER_RANGE % PRUNE_EVERY == (calls + 1) % PRUNE_EVERY
  {
    OneMoreTurn(counter);
    OneMoreTurn(calls);
    if counter + 1 < COUNTER_RANGE {
      assert (counter + 1) % COUNTER_RANGE == counter + 1;
    }
  }

  lemma {:induction false} OneMoreTurn(n: nat)
    ensures (n + 1) % PRUNE_EVERY == if n % PRUNE_EVERY == PRUNE_EVERY - 1 then 0 else n % PRUNE_EVERY + 1
  {
  }

  /** The key has not been called since call i, which pruned at a time when a window begun at
      `start` had expired. */
  predicate DroppedAt(l: Limits, calls: seq<Call>, key: Key, start: nat, i: nat) {
    && i < |calls| && i % PRUNE_EVERY == 0 && Since(calls[i].now, start) >= l.window
    && forall j :: i <= j < |calls| ==> calls[j].key != key
  }

  predicate Dropped(l: Limits, calls: seq<Call>, key: Key, start: nat) {
    exists i: nat | i < |calls| :: DroppedAt(l, calls, key, start, i)
  }

  lemma {:induction false} DroppedStep(l: Limits, calls: seq<Call>, c: Call, key: Key, start: nat)
    ensures Dropped(l, calls + [c], key, start)
      <==> c.key != key && (Dropped(l, calls, key, start)
                            || (|calls| % PRUNE_EVERY == 0 && Since(c.now, start) >= l.window))
  {
    var all := calls + [c];
    assert all[|calls|] == c;
    if c.key != key && Dropped(l, calls, key, start) {
      var i: nat :| i < |calls| && DroppedAt(l, calls, key, start, i);
      assert DroppedAt(l, all, key, start, i);
    }
    if c.key != key && |calls| % PRUNE_EVERY == 0 && Since(c.now, start) >= l.window {
      assert DroppedAt(l, all, key, start, |calls|);
    }
    if Dropped(l, all, key, start) {
      var i: nat :| i < |all| && DroppedAt(l, all, key, start, i);
      assert i < |calls| ==> DroppedAt(l, calls, key, start, i) by {
        assert forall j :: 0 <= j < |calls| ==> all[j] == calls[j];
      }
    }
  }

  /** One key of the two tables: its window is the same, or the pruned table has dropped it;
      and it began with a call of the key. */
  ghost predicate Tracks(l: Limits, pruned: Table, full: Table, calls: seq<Call>, key: Key) {
    && (key in pruned ==> key in full && pruned[key] == full[key])
    && (key in full ==>
          && (key !in pruned <==> Dropped(l, calls, key, full[key].windowStartedAt))
          && Call(key, full[key].windowStartedAt) in calls)
  }

  /** The window that the pruned table may have dropped has expired for this call anyway. */
  predicate Timely(l: Limits, calls: seq<Call>, c: Call, start: nat) {
    Dropped(l, calls, c.key, start) ==> Since(c.now, start) >= l.window
  }

  lemma {:induction false} TimelyUnlessOvertaken(l: Limits, calls: seq<Call>, c: Call, start: nat)
    requires !Overtaken(Instants(calls + [c])) && Call(c.key, start) in calls
    ensures Timely(l, calls, c, start)
  {
    if Dropped(l, calls, c.key, start) {
      var i: nat :| i < |calls| && DroppedAt(l, calls, c.key, start, i);
      var h :| 0 <= h < |calls| && calls[h] == Call(c.key, start);
      var all := calls + [c];
      assert all[h] == calls[h] && all[i] == calls[i] && all[|calls|] == c;
      assert !OvertakenAt(Instants(all), h, i, |calls|);
    }
  }

  lemma {:induction false} SameRequest(l: Limits, limiter: Limiter, full: Table, calls: seq<Call>, c: Call)
    requires Tracks(l, limiter.entries, full, calls, c.key)
    requires c.key in full ==> Timely(l, calls, c, full[c.key].windowStartedAt)
    ensures Request(l, Find(Kept(l, limiter, c.now), c.key), c.now) == Request(l, Find(full, c.key), c.now)
  {
  }

  lemma {:induction false} TrackingGoesOn(l: Limits, limiter: Limiter, full: Table, calls: seq<Call>, c: Call, e: Entry, key: Key)
    requires limiter.requestCounter % PRUNE_EVERY == |calls| % PRUNE_EVERY
    requires key != c.key ==> Tracks(l, limiter.entries, full, calls, key)
    requires key == c.key ==> Call(key, e.windowStartedAt) in calls + [c]
    ensures Tracks(l, Kept(l, limiter, c.now)[c.key := e], full[c.key := e], calls + [c], key)
  {
    var all := calls + [c];
    assert forall d :: d in calls ==> d in all;
    if key == c.key {
      DroppedStep(l, calls, c, key, e.windowStartedAt);
    } else if key in full {
      DroppedStep(l, calls, c, key, full[key].windowStartedAt);
    }
  }

  lemma {:induction false} PruningTracks(l: Limits, calls: seq<Call>, key: Key)
    requires !Overtaken(Instants(calls))
    ensures Tracks(l, After(l, calls).entries, UnprunedAfter(l, calls), calls, key)
    ensures calls != [] ==> Answer(l, calls) == UnprunedAnswer(l, calls)
  {
    if calls == [] {
    } else {
      var before, c := Init(calls), Last(calls);
      var limiter, full := After(l, before), UnprunedAfter(l, before);
      assert before + [c] == calls;
      PrefixIsNotOvertaken(calls, |calls| - 1);
      PruningTracks(l, before, key);
      PruningTracks(l, before, c.key);
      CountsCalls(l, before);
      if c.key in full {
        TimelyUnlessOvertaken(l, before, c, full[c.key].windowStartedAt);
      }
      SameRequest(l, limiter, full, before, c);
      assert c in calls && forall d :: d in before ==> d in calls;
      TrackingGoesOn(l, limiter, full, before, c, Request(l, Find(full, c.key), c.now).0, key);
    }
  }

  /** The limiter that prunes answers every trace like one that never prunes, unless some call
      is overtaken by a pruning call. */
  lemma {:induction false} PruningIsNotObservable(l: Limits, calls: seq<Call>)
    requires !Overtaken(Instants(calls)) && calls != []
    ensures Answer(l, calls) == UnprunedAnswer(l, calls)
  {
    PruningTracks(l, calls, Last(calls).key);
  }

  /** The call meets a full window of its key that has not expired, but which a pruning call
      dropped from the table since the key was last called. */
  predicate ShowsPruning(l: Limits, calls: seq<Call>)
    requires calls != []
  {
    var found := Find(UnprunedAfter(l, Init(calls)), Last(calls).key);
    && found.Some? && !Expired(l, found.value, Last(calls).now)
    && found.value.requestCount >= l.maxRequests > 0
    && Dropped(l, Init(calls), Last(calls).key, found.value.windowStartedAt)
  }

  /** Up to the first call that is overtaken, pruning changes the answer exactly then. */
  lemma {:induction false} PruningShowsExactlyWhen(l: Limits, calls: seq<Call>)
    requires calls != [] && !Overtaken(Instants(Init(calls)))
    ensures Answer(l, calls) != UnprunedAnswer(l, calls) <==> ShowsPruning(l, calls)
  {
    PruningTracks(l, Init(calls), Last(calls).key);
  }

  // ------------------------------------------------ and when it is, for some trace

  predicate AlwaysAgrees(l: Limits, calls: seq<Call>) {
    forall n :: 1 <= n <= |calls| ==> Answer(l, calls[..n]) == UnprunedAnswer(l, calls[..n])
  }

  /** Key A calls at instants h and j, key B at all others. */
  function TwoCalls(instants: seq<nat>, a: Key, b: Key, h: nat, j: nat): (calls: seq<Call>)
    ensures Instants(calls) == instants
    ensures forall k :: 0 <= k < |calls| ==> calls[k] == Call(if k == h || k == j then a else b, instants[k])
  {
    seq(|instants|, k requires 0 <= k < |instants| => Call(if k == h || k == j then a else b, instants[k]))
  }

  lemma {:induction false} CalledOnce(instants: seq<nat>, a: Key, b: Key, h: nat, j: nat, window: nat, n: nat)
    requires a != b && h < j && n <= j < |instants|
    ensures var calls := TwoCalls(instants, a, b, h, j)[..n];
      var first := if n <= h then None else Some(Entry(instants[h], 1));
      && Find(UnprunedAfter(Limits(1, window), calls), a) == first
      && Find(After(Limits(1, window), calls).entries, a) in {None, first}
  {
    var calls := TwoCalls(instants, a, b, h, j);
    if n == 0 {
    } else {
      CalledOnce(instants, a, b, h, j, window, n - 1);
      assert Init(calls[..n]) == calls[..n - 1] && Last(calls[..n]) == calls[n - 1];
    }
  }

  lemma {:induction false} DroppedNow(instants: seq<nat>, a: Key, b: Key, h: nat, i: nat, j: nat, window: nat)
    requires a != b && h < i < j < |instants| && i % PRUNE_EVERY == 0 && Since(instants[i], instants[h]) >= window
    ensures Find(After(Limits(1, window), TwoCalls(instants, a, b, h, j)[..i + 1]).entries, a) == None
  {
    var l, calls := Limits(1, window), TwoCalls(instants, a, b, h, j);
    assert Init(calls[..i + 1]) == calls[..i] && Last(calls[..i + 1]) == Call(b, instants[i]);
    CalledOnce(instants, a, b, h, j, window, i);
    CountsCalls(l, calls[..i]);
    assert Find(Pruned(l, After(l, calls[..i]).entries, instants[i]), a) == None;
  }

  lemma {:induction false} DroppedStaysOut(instants: seq<nat>, a: Key, b: Key, h: nat, i: nat, j: nat, window: nat, n: nat)
    requires a != b && h < i < n <= j < |instants| && i % PRUNE_EVERY == 0 && Since(instants[i], instants[h]) >= window
    ensures Find(After(Limits(1, window), TwoCalls(instants, a, b, h, j)[..n]).entries, a) == None
  {
    if n == i + 1 {
      DroppedNow(instants, a, b, h, i, j, window);
    } else {
      var calls := TwoCalls(instants, a, b, h, j);
      assert Init(calls[..n]) == calls[..n - 1] && Last(calls[..n]) == Call(b, instants[n - 1]);
      DroppedStaysOut(instants, a, b, h, i, j, window, n - 1);
    }
  }

  /** One request per window: the call at j is accepted only because pruning forgot the one
      at h. */
  lemma {:induction false} OvertakenCallShowsPruning(instants: seq<nat>, a: Key, b: Key, h: nat, i: nat, j: nat)
    requires a != b && OvertakenAt(instants, h, i, j)
    ensures !AlwaysAgrees(Limits(1, instants[i] - instants[h]), TwoCalls(instants, a, b, h, j))
  {
    var l, calls := Limits(1, instants[i] - instants[h]), TwoCalls(instants, a, b, h, j);
    CalledOnce(instants, a, b, h, j, l.window, j);
    DroppedStaysOut(instants, a, b, h, i, j, l.window, j);
    assert Init(calls[..j + 1]) == calls[..j] && Last(calls[..j + 1]) == calls[j];
    assert Answer(l, calls[..j + 1]) && !UnprunedAnswer(l, calls[..j + 1]);
  }

  /** For given instants, pruning goes unnoticed for all limits and all keys if and only if no
      call is overtaken by a pruning call. */
  lemma {:induction false} PruningIsNotObservableExactlyWhen(instants: seq<nat>)
    ensures (forall l, calls :: Instants(calls) == instants ==> AlwaysAgrees(l, calls)) <==> !Overtaken(instants)
  {
    if Overtaken(instants) {
      var h: nat, i: nat, j: nat :| h < |instants| && i < |instants| && j < |instants| && OvertakenAt(instants, h, i, j);
      var a, b := Key("auth", "a"), Key("auth", "b");
      assert a != b;
      OvertakenCallShowsPruning(instants, a, b, h, i, j);
      assert Instants(TwoCalls(instants, a, b, h, j)) == instants;
    } else {
      forall l, calls, n | Instants(calls) == instants && 1 <= n <= |calls|
        ensures Answer(l, calls[..n]) == UnprunedAnswer(l, calls[..n])
      {
        PrefixIsNotOvertaken(calls, n);
        PruningIsNotObservable(l, calls[..n]);
      }
    }
  }

  /** Key A is called once, then B, 256 calls in all; B's next call, 10 later, prunes A; and
      A's next call carries an instant 5 before that. */
  function LateCall(a: Key, b: Key): seq<Call> {
    [Call(a, 0)] + seq(PRUNE_EVERY - 1, _ => Call(b, 0)) + [Call(b, 10)] + [Call(a, 5)]
  }

  lemma {:induction false} BusyKey(a: Key, b: Key, n: nat)
    requires a != b && n < PRUNE_EVERY
    ensures var calls := [Call(a, 0)] + seq(n, _ => Call(b, 0));
      && After(Limits(1, 10), calls).requestCounter == n + 1
      && Find(After(Limits(1, 10), calls).entries, a) == Some(Entry(0, 1))
      && Find(UnprunedAfter(Limits(1, 10), calls), a) == Some(Entry(0, 1))
  {
    var calls := [Call(a, 0)] + seq(n, _ => Call(b, 0));
    if n == 0 {
      assert calls == [Call(a, 0)] && Init(calls) == [];
    } else {
      BusyKey(a, b, n - 1);
      assert Init(calls) == [Call(a, 0)] + seq(n - 1, _ => Call(b, 0));
    }
  }

  /** With instants that go backwards across a prune, pruning does show: the late call is
      accepted although its window is full. */
  lemma {:induction false} LateCallShowsPruning(a: Key, b: Key)
    requires a != b
    ensures Answer(Limits(1, 10), LateCall(a, b)) && !UnprunedAnswer(Limits(1, 10), LateCall(a, b))
  {
    var busy := [Call(a, 0)] + seq(PRUNE_EVERY - 1, _ => Call(b, 0));
    BusyKey(a, b, PRUNE_EVERY - 1);
    assert Init(LateCall(a, b)) == busy + [Call(b, 10)];
    assert Init(busy + [Call(b, 10)]) == busy;
  }

  // ------------------------------------------------------------ one window per key

  function OwnInstants(calls: seq<Call>, key: Key): seq<nat> {
    if calls == [] then []
    else OwnInstants(Init(calls), key) + if Last(calls).key == key then [Last(calls).now] else []
  }

  /** One key's window after its own calls, and the answer to the last of them. */
  function Window(l: Limits, instants: seq<nat>): Option<Entry> {
    if instants == [] then None else Some(Request(l, Window(l, Init(instants)), Last(instants)).0)
  }

  function Accepts(l: Limits, instants: seq<nat>): bool
    requires instants != []
  {
    Request(l, Window(l, Init(instants)), Last(instants)).1
  }

  lemma {:induction false} OwnInstantsStep(calls: seq<Call>, key: Key)
    requires calls != []
    ensures Last(calls).key != key ==> OwnInstants(calls, key) == OwnInstants(Init(calls), key)
    ensures Last(calls).key == key ==>
      && OwnInstants(calls, key) != [] && Last(OwnInstants(calls, key)) == Last(calls).now
      && Init(OwnInstants(calls, key)) == OwnInstants(Init(calls), key)
  {
  }

  lemma {:induction false} TableIsWindows(l: Limits, calls: seq<Call>, key: Key)
    ensures Find(UnprunedAfter(l, calls), key) == Window(l, OwnInstants(calls, key))
  {
    if calls == [] {
    } else {
      TableIsWindows(l, Init(calls), key);
      OwnInstantsStep(calls, key);
    }
  }

  /** Each answer is that of a limiter that sees the key's own calls and nothing else. */
  lemma {:induction false} KeysAreIndependent(l: Limits, calls: seq<Call>)
    requires !Overtaken(Instants(calls)) && calls != []
    ensures OwnInstants(calls, Last(calls).key) != []
    ensures Answer(l, calls) == Accepts(l, OwnInstants(calls, Last(calls).key))
  {
    var key := Last(calls).key;
    PruningIsNotObservable(l, calls);
    TableIsWindows(l, Init(calls), key);
    OwnInstantsStep(calls, key);
  }

  // ------------------------------------------------------ how many requests get through

  predicate Ascending(instants: seq<nat>) {
    forall i, j :: 0 <= i < j < |instants| ==> instants[i] <= instants[j]
  }

  /** Requests of one key accepted from one instant to another, both included. */
  function AcceptedWithin(l: Limits, instants: seq<nat>, from: nat, to: nat): nat {
    if instants == [] then 0
    else
      var counted := if Accepts(l, instants) && from <= Last(instants) <= to then 1 else 0;
      AcceptedWithin(l, Init(instants), from, to) + counted
  }

  /** What the present window, and a later one, can still accept up to one window length
      after `from`. */
  function StillOpen(l: Limits, w: Option<Entry>, from: nat): int {
    if w.None? || w.value.windowStartedAt + l.window <= from then 2 * l.maxRequests
    else if w.value.windowStartedAt <= from then 2 * l.maxRequests - w.value.requestCount
    else l.maxRequests - w.value.requestCount
  }

  lemma {:induction false} WindowIsPast(l: Limits, instants: seq<nat>)
    requires Ascending(instants) && instants != []
    ensures Window(l, instants).Some?
    ensures Window(l, instants).value.windowStartedAt <= Last(instants)
    ensures Window(l, instants).value.requestCount <= l.maxRequests
  {
    if Init(instants) != [] {
      WindowIsPast(l, Init(instants));
      assert Last(Init(instants)) == instants[|instants| - 2];
    }
  }

  lemma {:induction false} AcceptedPlusOpen(l: Limits, instants: seq<nat>, from: nat)
    requires l.window > 0 && Ascending(instants)
    ensures AcceptedWithin(l, instants, from, from + l.window) <= 2 * l.maxRequests
    ensures (instants == [] || Last(instants) <= from + l.window) ==>
      AcceptedWithin(l, instants, from, from + l.window) + StillOpen(l, Window(l, instants), from) <= 2 * l.maxRequests
  {
    if instants == [] {
    } else {
      var before := Init(instants);
      AcceptedPlusOpen(l, before, from);
      WindowIsPast(l, instants);
      if before != [] {
        WindowIsPast(l, before);
        assert Last(before) == instants[|instants| - 2];
      }
    }
  }

  /** Any stretch of time as long as the window lets at most twice the limit through. */
  lemma {:induction false} AtMostTwiceTheLimit(l: Limits, instants: seq<nat>, from: nat)
    requires l.window > 0 && Ascending(instants)
    ensures AcceptedWithin(l, instants, from, from + l.window) <= 2 * l.maxRequests
  {
    AcceptedPlusOpen(l, instants, from);
  }

  /** The requests counted in the present window are requests accepted since it began. */
  lemma {:induction false} CountIsAccepted(l: Limits, instants: seq<nat>, to: nat)
    requires Ascending(instants) && instants != [] && Last(instants) <= to
    ensures var w := Window(l, instants).value;
      w.requestCount <= AcceptedWithin(l, instants, w.windowStartedAt, to)
  {
    WindowIsPast(l, instants);
    var before := Init(instants);
    if before == [] {
    } else {
      assert Last(before) == instants[|instants| - 2];
      CountIsAccepted(l, before, to);
    }
  }

  /** A request is turned away only when the limit was used up less than a window ago. */
  lemma {:induction false} RejectedOnlyWhenFull(l: Limits, instants: seq<nat>)
    requires l.window > 0 && Ascending(instants) && instants != [] && !Accepts(l, instants)
    ensures exists from: nat :: AcceptedWithin(l, Init(instants), from, Last(instants)) >= l.maxRequests
                           && from <= Last(instants) < from + l.window
  {
    var before, now := Init(instants), Last(instants);
    var from := now;
    if before != [] {
      assert Last(before) == instants[|instants| - 2];
      CountIsAccepted(l, before, now);
      WindowIsPast(l, before);
      from := if Expired(l, Window(l, before).value, now) then now else Window(l, before).value.windowStartedAt;
    }
    assert AcceptedWithin(l, before, from, now) >= l.maxRequests;
  }

  /** Requests of a key the shared limiter accepts from one instant to another. */
  function AcceptedOf(l: Limits, calls: seq<Call>, key: Key, from: nat, to: nat): nat {
    if calls == [] then 0
    else
      var counted := if Last(calls).key == key && Answer(l, calls) && from <= Last(calls).now <= to then 1 else 0;
      AcceptedOf(l, Init(calls), key, from, to) + counted
  }

  lemma {:induction false} OwnInstantsAscend(calls: seq<Call>, key: Key)
    requires InOrder(calls)
    ensures Ascending(OwnInstants(calls, key))
    ensures forall t :: t in OwnInstants(calls, key) ==> calls != [] && t <= Last(calls).now
  {
    if calls == [] {
    } else {
      OwnInstantsAscend(Init(calls), key);
      assert Init(calls) != [] ==> Last(Init(calls)) == calls[|calls| - 2];
      var own := OwnInstants(Init(calls), key);
      assert forall i :: 0 <= i < |own| ==> own[i] in own;
    }
  }

  lemma {:induction false} AcceptedOfOwn(l: Limits, calls: seq<Call>, key: Key, from: nat, to: nat)
    requires InOrder(calls)
    ensures AcceptedOf(l, calls, key, from, to) == AcceptedWithin(l, OwnInstants(calls, key), from, to)
  {
    if calls == [] {
    } else {
      AcceptedOfOwn(l, Init(calls), key, from, to);
      InOrderNeverOvertakes(calls);
      KeysAreIndependent(l, calls);
      OwnInstantsStep(calls, key);
    }
  }

  /** For the shared limiter, its pruning and every other key included. */
  lemma {:induction false} LimiterLetsThroughAtMostTwice(l: Limits, calls: seq<Call>, key: Key, from: nat)
    requires l.window > 0 && InOrder(calls)
    ensures AcceptedOf(l, calls, key, from, from + l.window) <= 2 * l.maxRequests
  {
    AcceptedOfOwn(l, calls, key, from, from + l.window);
    OwnInstantsAscend(calls, key);
    AtMostTwiceTheLimit(l, OwnInstants(calls, key), from);
  }
}
