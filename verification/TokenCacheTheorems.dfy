/** What holds of the token cache over every history of lock sections, in whatever order
    threads enter them. */
module TokenCacheTheorems {
  import opened Prelude
  import opened TokenCache

  /** A write-lock section. Read sections change nothing and need no entry. */
  datatype Op =
    | Inserted(key: Key, context: Context, now: int, wallNow: int)
    | Invalidated(key: Key)
    | CleanedUp(key: Key, now: int, wallNow: int)
    | Confirmed(key: Key, now: int, wallNow: int)

  function ApplyOp(entries: Lru, capacity: nat, ttl: nat, op: Op): Lru {
    match op
    case Inserted(key, context, now, wallNow) => Insert(entries, capacity, ttl, key, context, now, wallNow)
    case Invalidated(key) => Pop(entries, key)
    case CleanedUp(key, now, wallNow) => RemoveIfStillExpired(entries, ttl, key, now, wallNow)
    case Confirmed(key, now, wallNow) => Confirm(entries, ttl, key, now, wallNow).0
  }

  function Run(capacity: nat, ttl: nat, ops: seq<Op>): Lru {
    if ops == [] then []
    else ApplyOp(Run(capacity, ttl, ops[..|ops| - 1]), capacity, ttl, ops[|ops| - 1])
  }

  /** The latest insert for the key that no invalidation has followed. */
  function LatestInsert(ops: seq<Op>, key: Key): Option<Entry> {
    if ops == [] then None
    else match ops[|ops| - 1]
      case Inserted(k, context, now, _) => if k == key then Some(Entry(k, context, now)) else LatestInsert(ops[..|ops| - 1], key)
      case Invalidated(k) => if k == key then None else LatestInsert(ops[..|ops| - 1], key)
      case _ => LatestInsert(ops[..|ops| - 1], key)
  }

  lemma OpKeepsDistinct(entries: Lru, capacity: nat, ttl: nat, op: Op)
    requires DistinctKeys(entries) && |entries| <= capacity
    ensures var after := ApplyOp(entries, capacity, ttl, op);
      && DistinctKeys(after) && |after| <= capacity
      && (!op.Inserted? ==> forall k :: Peek(after, k).Some? ==> Peek(after, k) == Peek(entries, k))
      && (op.Invalidated? ==> Peek(after, op.key).None?)
  {
    PopKeepsDistinct(entries, op.key);
    PromotePermutes(entries, op.key);
    if op.Inserted? && capacity > 0 {
      InsertKeepsDistinct(entries, capacity, ttl, op.key, op.context, op.now, op.wallNow);
    }
  }

  /** The size never exceeds the capacity, and whatever the cache holds for a key is the
      key's latest un-invalidated insert. */
  lemma {:induction false} CacheHoldsLatest(capacity: nat, ttl: nat, ops: seq<Op>)
    ensures DistinctKeys(Run(capacity, ttl, ops)) && |Run(capacity, ttl, ops)| <= capacity
    ensures forall k :: Peek(Run(capacity, ttl, ops), k).Some? ==>
      Peek(Run(capacity, ttl, ops), k) == LatestInsert(ops, k)
  {
    if ops == [] {
    } else {
      var prefix, op := ops[..|ops| - 1], ops[|ops| - 1];
      CacheHoldsLatest(capacity, ttl, prefix);
      OpKeepsDistinct(Run(capacity, ttl, prefix), capacity, ttl, op);
      if op.Inserted? && capacity > 0 {
        InsertKeepsDistinct(Run(capacity, ttl, prefix), capacity, ttl, op.key, op.context, op.now, op.wallNow);
      }
    }
  }

  /** Some operation sets the key anew or invalidates it. */
  predicate Replaces(ops: seq<Op>, key: Key) {
    exists i :: 0 <= i < |ops| && (ops[i].Inserted? || ops[i].Invalidated?) && ops[i].key == key
  }

  lemma {:induction false} LatestOfConcat(before: seq<Op>, between: seq<Op>, key: Key)
    ensures LatestInsert(before + between, key)
      == if Replaces(between, key) then LatestInsert(between, key) else LatestInsert(before, key)
    ensures LatestInsert(between, key).Some? ==> Replaces(between, key)
  {
    if between == [] {
      assert before + between == before;
    } else {
      var prefix, last := between[..|between| - 1], between[|between| - 1];
      LatestOfConcat(before, prefix, key);
      assert (before + between)[..|before + between| - 1] == before + prefix;
      assert Replaces(between, key) <==> Replaces(prefix, key) || ((last.Inserted? || last.Invalidated?) && last.key == key);
    }
  }

  /** A lookup that reads after `before` and confirms after any further sections `between` of
      other threads. A hit is the latest un-invalidated insert as of the write lock, within
      its time to live at the entry instant, its token not expired: the newest insert made in
      between, or, if the key was left alone there, the very entry that the read saw. */
  lemma {:induction false} HitIsLatestInsert(capacity: nat, ttl: nat, before: seq<Op>, between: seq<Op>, key: Key,
                                             now: int, wallNow: int)
    requires Peek(Run(capacity, ttl, before), key).Some?
    requires Confirm(Run(capacity, ttl, before + between), ttl, key, now, wallNow).1.Some?
    ensures var hit := Confirm(Run(capacity, ttl, before + between), ttl, key, now, wallNow).1.value;
      var latest := LatestInsert(before + between, key);
      && latest == (if Replaces(between, key) then LatestInsert(between, key) else Peek(Run(capacity, ttl, before), key))
      && latest.Some? && hit == latest.value.context
      && ttl > 0 && now < latest.value.insertedAt + ttl && wallNow < hit.expiresAt
  {
    CacheHoldsLatest(capacity, ttl, before);
    CacheHoldsLatest(capacity, ttl, before + between);
    LatestOfConcat(before, between, key);
  }

  /** A confirmation hits if and only if the cache holds a live entry of the key. */
  lemma {:induction false} HitsExactlyWhen(capacity: nat, ttl: nat, ops: seq<Op>, key: Key, now: int, wallNow: int)
    ensures var hit := Confirm(Run(capacity, ttl, ops), ttl, key, now, wallNow).1;
      && (hit.Some? <==> exists e :: e in Run(capacity, ttl, ops) && e.key == key && Alive(e, now, wallNow, ttl))
      && (forall e :: e in Run(capacity, ttl, ops) && e.key == key && Alive(e, now, wallNow, ttl) ==> hit == Some(e.context))
  {
    CacheHoldsLatest(capacity, ttl, ops);
    EntriesAreFound(Run(capacity, ttl, ops), key);
    var found := Peek(Run(capacity, ttl, ops), key);
    assert found.Some? ==> found.value in Run(capacity, ttl, ops) && found.value.key == key;
  }

  /** Confirming a hit keeps every entry; a clean-up or a failed confirmation takes away
      at most the stale entry it looked up. */
  lemma LookupsForgetOnlyTheStale(capacity: nat, ttl: nat, ops: seq<Op>, op: Op, k: Key)
    requires op.CleanedUp? || op.Confirmed?
    requires Peek(Run(capacity, ttl, ops), k).Some?
    ensures Peek(Run(capacity, ttl, ops + [op]), k).None? <==>
      op.key == k && !Alive(Peek(Run(capacity, ttl, ops), k).value, op.now, op.wallNow, ttl)
  {
    assert (ops + [op])[..|ops|] == ops;
    CacheHoldsLatest(capacity, ttl, ops);
    PopKeepsDistinct(Run(capacity, ttl, ops), op.key);
    PromotePermutes(Run(capacity, ttl, ops), op.key);
  }

  /** The reader's clean-up never takes away what was inserted for its key since it sampled
      its instant, however stale the entry was that it saw: not if the time to live is
      positive and the new token has not itself expired. */
  lemma {:induction false} CleanUpSparesReinserted(capacity: nat, ttl: nat, before: seq<Op>, between: seq<Op>, key: Key,
                                                   now: int, wallNow: int)
    requires LatestInsert(between, key).Some? && LatestInsert(between, key).value.insertedAt >= now
    requires ttl > 0 && wallNow < LatestInsert(between, key).value.context.expiresAt
    ensures Run(capacity, ttl, before + between + [CleanedUp(key, now, wallNow)]) == Run(capacity, ttl, before + between)
  {
    var ops := before + between;
    assert (ops + [CleanedUp(key, now, wallNow)])[..|ops|] == ops;
    CacheHoldsLatest(capacity, ttl, ops);
    LatestOfConcat(before, between, key);
  }

  /** And with an insert still in the cache at that moment, exactly then. */
  lemma {:induction false} CleanUpSparesReinsertedExactlyWhen(
      capacity: nat, ttl: nat, before: seq<Op>, between: seq<Op>, key: Key, now: int, wallNow: int)
    requires LatestInsert(between, key).Some? && LatestInsert(between, key).value.insertedAt >= now
    requires Peek(Run(capacity, ttl, before + between), key).Some?
    ensures Peek(Run(capacity, ttl, before + between + [CleanedUp(key, now, wallNow)]), key).Some?
      <==> ttl > 0 && wallNow < LatestInsert(between, key).value.context.expiresAt
  {
    var ops := before + between;
    assert (ops + [CleanedUp(key, now, wallNow)])[..|ops|] == ops;
    CacheHoldsLatest(capacity, ttl, ops);
    LatestOfConcat(before, between, key);
    PopKeepsDistinct(Run(capacity, ttl, ops), key);
  }

  // ------------------------------------------------------- recency order

  /** The keys inserted or hit, oldest first. */
  function Touched(capacity: nat, ttl: nat, ops: seq<Op>): seq<Key> {
    if ops == [] then []
    else
      var prefix := ops[..|ops| - 1];
      Touched(capacity, ttl, prefix) + Touches(Run(capacity, ttl, prefix), ttl, ops[|ops| - 1])
  }

  /** Where a key was last touched; -1 if never. */
  function LastTouch(touched: seq<Key>, key: Key): (r: int)
    ensures -1 <= r < |touched|
    ensures r >= 0 ==> touched[r] == key
    ensures forall i :: r < i < |touched| ==> touched[i] != key
  {
    if touched == [] then -1
    else if touched[|touched| - 1] == key then |touched| - 1
    else LastTouch(touched[..|touched| - 1], key)
  }

  lemma TouchAgain(touched: seq<Key>, key: Key, other: Key)
    ensures LastTouch(touched + [key], other) == if other == key then |touched| else LastTouch(touched, other)
  {
    assert (touched + [key])[..|touched|] == touched;
  }

  ghost predicate InRecencyOrder(entries: Lru, touched: seq<Key>) {
    && (forall i :: 0 <= i < |entries| ==> LastTouch(touched, entries[i].key) >= 0)
    && (forall i, j :: 0 <= i < j < |entries| ==>
          LastTouch(touched, entries[i].key) > LastTouch(touched, entries[j].key))
  }

  ghost predicate OlderThanAll(k: Key, entries: Lru, touched: seq<Key>) {
    forall i :: 0 <= i < |entries| ==> LastTouch(touched, k) < LastTouch(touched, entries[i].key)
  }

  /** Any touched key outside the entries was touched before all of them, and is outside
      only because they fill the room there is. */
  ghost predicate RestIsOlder(entries: Lru, touched: seq<Key>, room: nat, except: Option<Key>) {
    forall k :: k in touched && Some(k) != except && Find(entries, k).None? ==>
      |entries| == room && OlderThanAll(k, entries, touched)
  }

  /** These entries are the `capacity` most recently touched keys, most recent first. */
  ghost predicate MostRecent(entries: Lru, touched: seq<Key>, capacity: nat) {
    |entries| <= capacity && InRecencyOrder(entries, touched) && RestIsOlder(entries, touched, capacity, None)
  }

  /** Nothing the operation can see has expired, and it invalidates nothing. */
  ghost predicate NothingExpires(entries: Lru, ttl: nat, op: Op) {
    (op.Inserted? || op.Confirmed?)
    && forall e :: e in entries ==> Alive(e, op.now, op.wallNow, ttl)
  }

  ghost predicate NothingEverExpires(capacity: nat, ttl: nat, ops: seq<Op>) {
    ops != [] ==>
      && NothingEverExpires(capacity, ttl, ops[..|ops| - 1])
      && NothingExpires(Run(capacity, ttl, ops[..|ops| - 1]), ttl, ops[|ops| - 1])
  }

  lemma {:induction false} FrontMissing(front: Entry, rest: Lru, k: Key)
    requires Find([front] + rest, k).None?
    ensures front.key != k && Find(rest, k).None?
  {
    assert ([front] + rest)[1..] == rest;
  }

  lemma {:induction false} FrontInOrder(touched: seq<Key>, front: Entry, rest: Lru)
    requires InRecencyOrder(rest, touched) && forall i :: 0 <= i < |rest| ==> rest[i].key != front.key
    ensures InRecencyOrder([front] + rest, touched + [front.key])
  {
    var after, t := [front] + rest, touched + [front.key];
    TouchAgain(touched, front.key, front.key);
    forall i | 1 <= i < |after|
      ensures after[i] == rest[i - 1] && LastTouch(t, after[i].key) == LastTouch(touched, rest[i - 1].key)
    {
      TouchAgain(touched, front.key, rest[i - 1].key);
    }
  }

  lemma {:induction false} OlderThanFront(touched: seq<Key>, front: Entry, rest: Lru, k: Key)
    requires k != front.key && OlderThanAll(k, rest, touched)
    requires forall i :: 0 <= i < |rest| ==> rest[i].key != front.key
    ensures OlderThanAll(k, [front] + rest, touched + [front.key])
  {
    var after, t := [front] + rest, touched + [front.key];
    TouchAgain(touched, front.key, k);
    TouchAgain(touched, front.key, front.key);
    forall i | 1 <= i < |after|
      ensures LastTouch(t, k) < LastTouch(t, after[i].key)
    {
      TouchAgain(touched, front.key, rest[i - 1].key);
    }
  }

  /** Touching a key puts it in front of everything else. */
  lemma {:induction false} FrontIsMostRecent(touched: seq<Key>, capacity: nat, front: Entry, rest: Lru)
    requires |rest| < capacity && InRecencyOrder(rest, touched)
    requires forall i :: 0 <= i < |rest| ==> rest[i].key != front.key
    requires RestIsOlder(rest, touched, capacity - 1, Some(front.key))
    ensures MostRecent([front] + rest, touched + [front.key], capacity)
  {
    FrontInOrder(touched, front, rest);
    var after, t := [front] + rest, touched + [front.key];
    forall k | k in t && Find(after, k).None?
      ensures |after| == capacity && OlderThanAll(k, after, t)
    {
      FrontMissing(front, rest, k);
      OlderThanFront(touched, front, rest, k);
    }
  }

  /** Taking a key out leaves the others in order. */
  lemma {:induction false} WithoutKey(entries: Lru, touched: seq<Key>, capacity: nat, at: nat)
    requires DistinctKeys(entries) && MostRecent(entries, touched, capacity) && at < |entries|
    ensures var rest := entries[..at] + entries[at + 1..];
      && InRecencyOrder(rest, touched)
      && (forall i :: 0 <= i < |rest| ==> rest[i].key != entries[at].key)
      && RestIsOlder(rest, touched, capacity - 1, Some(entries[at].key))
  {
    var rest := entries[..at] + entries[at + 1..];
    forall i | 0 <= i < |rest|
      ensures rest[i] == entries[SkipIndex(at, i)]
      ensures LastTouch(touched, rest[i].key) >= 0 && rest[i].key != entries[at].key
    {
    }
    forall i, j | 0 <= i < j < |rest|
      ensures LastTouch(touched, rest[i].key) > LastTouch(touched, rest[j].key)
    {
      assert SkipIndex(at, i) < SkipIndex(at, j);
    }
    forall k | k in touched && k != entries[at].key && Find(rest, k).None?
      ensures |rest| == capacity - 1 && OlderThanAll(k, rest, touched)
    {
      assert Find(entries, k).None? by {
        FindOutsideKey(entries, k, at);
      }
      assert OlderThanAll(k, entries, touched);
    }
  }

  function SkipIndex(at: nat, i: nat): nat {
    if i < at then i else i + 1
  }

  lemma {:induction false} FindOutsideKey(entries: Lru, k: Key, at: nat)
    requires at < |entries| && k != entries[at].key && Find(entries[..at] + entries[at + 1..], k).None?
    ensures Find(entries, k).None?
  {
    var rest := entries[..at] + entries[at + 1..];
    forall j | 0 <= j < |entries| && j != at
      ensures entries[j].key != k
    {
      assert rest[if j < at then j else j - 1] == entries[j];
    }
  }

  /** Dropping the last entry of a full cache leaves the rest the most recent. */
  lemma {:induction false} WithoutLast(entries: Lru, touched: seq<Key>, capacity: nat, front: Key)
    requires MostRecent(entries, touched, capacity) && |entries| == capacity > 0
    requires Find(entries, front).None?
    ensures var rest := PopLru(entries);
      && InRecencyOrder(rest, touched)
      && (forall i :: 0 <= i < |rest| ==> rest[i].key != front)
      && RestIsOlder(rest, touched, capacity - 1, Some(front))
  {
    var rest := PopLru(entries);
    forall k | k in touched && k != front && Find(rest, k).None?
      ensures |rest| == capacity - 1 && OlderThanAll(k, rest, touched)
    {
      if Find(entries, k).Some? {
        assert forall i :: 0 <= i < |rest| ==> entries[i] == rest[i] && rest[i].key != k;
      } else {
        assert OlderThanAll(k, entries, touched);
      }
    }
  }

  lemma {:induction false} InsertIsMostRecent(
      entries: Lru, touched: seq<Key>, capacity: nat, ttl: nat, key: Key, context: Context, now: int, wallNow: int)
    requires capacity > 0 && DistinctKeys(entries) && MostRecent(entries, touched, capacity)
    requires forall e :: e in entries ==> !IsStale(e, now, wallNow, ttl)
    ensures MostRecent(Insert(entries, capacity, ttl, key, context, now, wallNow), touched + [key], capacity)
  {
    var e := Entry(key, context, now);
    var at := Find(entries, key);
    if at.Some? {
      WithoutKey(entries, touched, capacity, at.value);
      FrontIsMostRecent(touched, capacity, e, entries[..at.value] + entries[at.value + 1..]);
    } else if |entries| >= capacity {
      WithoutLast(entries, touched, capacity, key);
      var rest := PopLru(entries);
      assert FirstStale(entries, now, wallNow, ttl).None?;
      assert Find(rest, key).None?;
      FrontIsMostRecent(touched, capacity, e, rest);
    } else {
      FrontIsMostRecent(touched, capacity, e, entries);
    }
  }

  lemma {:induction false} HitIsMostRecent(entries: Lru, touched: seq<Key>, capacity: nat, key: Key)
    requires capacity > 0 && DistinctKeys(entries) && MostRecent(entries, touched, capacity)
    ensures Find(entries, key).Some? ==> MostRecent(Promote(entries, key), touched + [key], capacity)
  {
    if Find(entries, key).Some? {
      var at := Find(entries, key).value;
      var rest := entries[..at] + entries[at + 1..];
      assert Promote(entries, key) == [entries[at]] + rest;
      WithoutKey(entries, touched, capacity, at);
      FrontIsMostRecent(touched, capacity, entries[at], rest);
    }
  }

  /** The key that an operation touches, if it does. */
  function Touches(entries: Lru, ttl: nat, op: Op): seq<Key> {
    if op.Inserted? || (op.Confirmed? && Confirm(entries, ttl, op.key, op.now, op.wallNow).1.Some?) then [op.key] else []
  }

  lemma {:induction false} OpIsMostRecent(entries: Lru, touched: seq<Key>, capacity: nat, ttl: nat, op: Op)
    requires capacity > 0 && DistinctKeys(entries) && MostRecent(entries, touched, capacity)
    requires NothingExpires(entries, ttl, op)
    ensures MostRecent(ApplyOp(entries, capacity, ttl, op), touched + Touches(entries, ttl, op), capacity)
  {
    AliveInBulk(entries, op.now, op.wallNow, ttl);
    if op.Inserted? {
      InsertIsMostRecent(entries, touched, capacity, ttl, op.key, op.context, op.now, op.wallNow);
    } else {
      HitIsMostRecent(entries, touched, capacity, op.key);
      assert touched + [] == touched;
    }
  }

  /** In a history without expiry or invalidation, a cache of capacity C holds exactly the
      C most recently inserted or hit keys, in recency order. */
  lemma {:induction false} CacheIsLru(capacity: nat, ttl: nat, ops: seq<Op>)
    requires capacity > 0 && NothingEverExpires(capacity, ttl, ops)
    ensures MostRecent(Run(capacity, ttl, ops), Touched(capacity, ttl, ops), capacity)
  {
    if ops == [] {
    } else {
      var prefix := ops[..|ops| - 1];
      CacheIsLru(capacity, ttl, prefix);
      CacheHoldsLatest(capacity, ttl, prefix);
      OpIsMostRecent(Run(capacity, ttl, prefix), Touched(capacity, ttl, prefix), capacity, ttl, ops[|ops| - 1]);
    }
  }

  // ------------------------------------------- a live entry is found again

  /** These keys, and one touched now unless it is the key itself. */
  function WithTouched(others: set<Key>, touched: seq<Key>, key: Key): set<Key> {
    if touched == [] || touched[0] == key then others else others + {touched[0]}
  }

  /** The other keys inserted or hit since this place in the history. */
  function OthersTouched(capacity: nat, ttl: nat, ops: seq<Op>, from: nat, key: Key): set<Key> {
    if |ops| <= from then {}
    else
      var prefix := ops[..|ops| - 1];
      WithTouched(OthersTouched(capacity, ttl, prefix, from, key), Touches(Run(capacity, ttl, prefix), ttl, ops[|ops| - 1]), key)
  }

  /** Since then the key was neither set anew nor invalidated. */
  predicate LeftAlone(ops: seq<Op>, from: nat, key: Key) {
    forall i :: from <= i < |ops| && (ops[i].Inserted? || ops[i].Invalidated?) ==> ops[i].key != key
  }

  /** At every instant sampled since then the entry was alive. */
  predicate AliveThroughout(e: Entry, ttl: nat, ops: seq<Op>, from: nat) {
    forall i :: from <= i < |ops| && !ops[i].Invalidated? ==> Alive(e, ops[i].now, ops[i].wallNow, ttl)
  }

  /** The entry is in the cache, and everything in front of it is among these keys. */
  ghost predicate Behind(entries: Lru, e: Entry, others: set<Key>) {
    exists i :: 0 <= i < |entries| && entries[i] == e && forall j :: 0 <= j < i ==> entries[j].key in others
  }

  lemma {:induction false} BehindAll(entries: Lru, others: set<Key>, i: nat)
    requires DistinctKeys(entries) && i <= |entries| && forall j :: 0 <= j < i ==> entries[j].key in others
    ensures i <= |others|
  {
    if i == 0 {
    } else {
      BehindAll(entries, others - {entries[i - 1].key}, i - 1);
    }
  }

  lemma {:induction false} PopKeepsBehind(entries: Lru, e: Entry, others: set<Key>, key: Key)
    requires DistinctKeys(entries) && Behind(entries, e, others) && key != e.key
    ensures Behind(Pop(entries, key), e, others)
  {
    var i :| 0 <= i < |entries| && entries[i] == e && forall j :: 0 <= j < i ==> entries[j].key in others;
    var at := Find(entries, key);
    if at.Some? {
      var after, k := Pop(entries, key), if at.value < i then i - 1 else i;
      assert after[k] == e;
      assert forall j :: 0 <= j < k ==> after[j] == if j < at.value then entries[j] else entries[j + 1];
    }
  }

  lemma {:induction false} PopLruKeepsBehind(entries: Lru, e: Entry, others: set<Key>, key: Key)
    requires DistinctKeys(entries) && Behind(entries, e, others)
    requires Find(entries, key).None? && |others + {key}| < |entries|
    ensures Behind(PopLru(entries), e, others)
  {
    var i :| 0 <= i < |entries| && entries[i] == e && forall j :: 0 <= j < i ==> entries[j].key in others;
    BehindAll(entries, others - {key}, i);
    assert (others - {key}) + {key} == others + {key};
    assert |others + {key}| == |others - {key}| + 1;
    assert PopLru(entries)[i] == e;
  }

  lemma {:induction false} FrontKeepsBehind(rest: Lru, e: Entry, others: set<Key>, front: Entry)
    requires Behind(rest, e, others)
    ensures Behind([front] + rest, e, others + {front.key})
  {
    var i :| 0 <= i < |rest| && rest[i] == e && forall j :: 0 <= j < i ==> rest[j].key in others;
    var after := [front] + rest;
    assert after[i + 1] == e && forall j :: 1 <= j < i + 1 ==> after[j] == rest[j - 1];
  }

  lemma {:induction false} EvictionKeepsBehind(entries: Lru, e: Entry, others: set<Key>, ttl: nat, key: Key, now: int, wallNow: int)
    requires DistinctKeys(entries) && Behind(entries, e, others) && Alive(e, now, wallNow, ttl)
    requires Find(entries, key).None? && |others + {key}| < |entries|
    ensures Behind(EvictPreferExpired(entries, now, wallNow, ttl), e, others)
  {
    var stale := FirstStale(entries, now, wallNow, ttl);
    if stale.Some? {
      AliveExactlyWhen(e, now, wallNow, ttl);
      KeysAreTheirs(entries, e, stale.value);
      PopKeepsBehind(entries, e, others, entries[stale.value].key);
    } else {
      PopLruKeepsBehind(entries, e, others, key);
    }
  }

  lemma {:induction false} KeysAreTheirs(entries: Lru, e: Entry, at: nat)
    requires DistinctKeys(entries) && at < |entries| && e in entries && e != entries[at]
    ensures entries[at].key != e.key
  {
  }

  lemma {:induction false} InsertKeepsBehind(entries: Lru, capacity: nat, e: Entry, others: set<Key>, ttl: nat, op: Op)
    requires DistinctKeys(entries) && |entries| <= capacity && Behind(entries, e, others)
    requires op.Inserted? && op.key != e.key && Alive(e, op.now, op.wallNow, ttl) && |others + {op.key}| < capacity
    ensures Behind(ApplyOp(entries, capacity, ttl, op), e, others + {op.key})
  {
    var front := Entry(op.key, op.context, op.now);
    if Find(entries, op.key).Some? {
      PopKeepsBehind(entries, e, others, op.key);
      FrontKeepsBehind(Pop(entries, op.key), e, others, front);
    } else if |entries| >= capacity {
      var room := EvictPreferExpired(entries, op.now, op.wallNow, ttl);
      EvictOnlyForgets(entries, op.now, op.wallNow, ttl);
      EvictionKeepsBehind(entries, e, others, ttl, op.key, op.now, op.wallNow);
      FrontKeepsBehind(room, e, others, front);
      assert ApplyOp(entries, capacity, ttl, op) == [front] + room;
    } else {
      FrontKeepsBehind(entries, e, others, front);
    }
  }

  lemma {:induction false} ConfirmKeepsBehind(entries: Lru, e: Entry, others: set<Key>, ttl: nat, key: Key, now: int, wallNow: int)
    requires DistinctKeys(entries) && Behind(entries, e, others) && Alive(e, now, wallNow, ttl)
    ensures var (after, hit) := Confirm(entries, ttl, key, now, wallNow);
      Behind(after, e, if hit.Some? && key != e.key then others + {key} else others)
  {
    AliveExactlyWhen(e, now, wallNow, ttl);
    EntriesAreFound(entries, e.key);
    var at := Find(entries, key);
    if at.Some? {
      var x := entries[at.value];
      var rest := Pop(entries, key);
      assert Promote(entries, key) == [x] + rest;
      if key == e.key {
        assert x == e && Promote(entries, key)[0] == e;
      } else {
        PopKeepsBehind(entries, e, others, key);
        FrontKeepsBehind(rest, e, others, x);
      }
    }
  }

  lemma {:induction false} OpKeepsBehind(entries: Lru, capacity: nat, e: Entry, others: set<Key>, ttl: nat, op: Op)
    requires DistinctKeys(entries) && |entries| <= capacity && Behind(entries, e, others)
    requires (op.Inserted? || op.Invalidated?) ==> op.key != e.key
    requires op.Invalidated? || Alive(e, op.now, op.wallNow, ttl)
    requires |WithTouched(others, Touches(entries, ttl, op), e.key)| < capacity
    ensures Behind(ApplyOp(entries, capacity, ttl, op), e, WithTouched(others, Touches(entries, ttl, op), e.key))
  {
    match op
    case Inserted(_, _, _, _) => InsertKeepsBehind(entries, capacity, e, others, ttl, op);
    case Invalidated(key) => PopKeepsBehind(entries, e, others, key);
    case CleanedUp(key, now, wallNow) =>
      AliveExactlyWhen(e, now, wallNow, ttl);
      EntriesAreFound(entries, e.key);
      if key != e.key {
        PopKeepsBehind(entries, e, others, key);
      }
    case Confirmed(key, now, wallNow) => ConfirmKeepsBehind(entries, e, others, ttl, key, now, wallNow);
  }

  lemma {:induction false} StaysBehind(capacity: nat, ttl: nat, ops: seq<Op>, from: nat, e: Entry)
    requires from <= |ops| && Behind(Run(capacity, ttl, ops[..from]), e, {})
    requires LeftAlone(ops, from, e.key) && AliveThroughout(e, ttl, ops, from)
    requires |OthersTouched(capacity, ttl, ops, from, e.key)| < capacity
    ensures Behind(Run(capacity, ttl, ops), e, OthersTouched(capacity, ttl, ops, from, e.key))
  {
    if |ops| == from {
      assert ops[..from] == ops;
    } else {
      var prefix, last := ops[..|ops| - 1], ops[|ops| - 1];
      var others := OthersTouched(capacity, ttl, prefix, from, e.key);
      assert prefix[..from] == ops[..from];
      FewerAreFewer(others, Touches(Run(capacity, ttl, prefix), ttl, last), e.key);
      StaysBehind(capacity, ttl, prefix, from, e);
      CacheHoldsLatest(capacity, ttl, prefix);
      OpKeepsBehind(Run(capacity, ttl, prefix), capacity, e, others, ttl, last);
    }
  }

  lemma {:induction false} FewerAreFewer(others: set<Key>, touched: seq<Key>, key: Key)
    ensures |others| <= |WithTouched(others, touched, key)|
  {
    if touched != [] && touched[0] in others {
      assert others + {touched[0]} == others;
    }
  }

  /** Over every history: an insert is found again, with its context, as long as its key was
      left alone, it was alive at every instant sampled since, and fewer than C other keys
      were inserted or hit since. */
  lemma {:induction false} LatestInsertIsFound(capacity: nat, ttl: nat, ops: seq<Op>, at: nat, now: int, wallNow: int)
    requires at < |ops| && ops[at].Inserted? && LeftAlone(ops, at + 1, ops[at].key)
    requires var e := Entry(ops[at].key, ops[at].context, ops[at].now);
      AliveThroughout(e, ttl, ops, at + 1) && Alive(e, now, wallNow, ttl)
    requires |OthersTouched(capacity, ttl, ops, at + 1, ops[at].key)| < capacity
    ensures Confirm(Run(capacity, ttl, ops), ttl, ops[at].key, now, wallNow).1 == Some(ops[at].context)
  {
    var e := Entry(ops[at].key, ops[at].context, ops[at].now);
    JustInserted(capacity, ttl, ops, at);
    StaysBehind(capacity, ttl, ops, at + 1, e);
    BehindIsHit(capacity, ttl, ops, e, OthersTouched(capacity, ttl, ops, at + 1, e.key), now, wallNow);
  }

  lemma {:induction false} BehindIsHit(capacity: nat, ttl: nat, ops: seq<Op>, e: Entry, others: set<Key>, now: int, wallNow: int)
    requires Behind(Run(capacity, ttl, ops), e, others) && Alive(e, now, wallNow, ttl)
    ensures Confirm(Run(capacity, ttl, ops), ttl, e.key, now, wallNow).1 == Some(e.context)
  {
    HitsExactlyWhen(capacity, ttl, ops, e.key, now, wallNow);
  }

  lemma {:induction false} JustInserted(capacity: nat, ttl: nat, ops: seq<Op>, at: nat)
    requires capacity > 0 && at < |ops| && ops[at].Inserted?
    ensures Behind(Run(capacity, ttl, ops[..at + 1]), Entry(ops[at].key, ops[at].context, ops[at].now), {})
  {
    var before, op := ops[..at], ops[at];
    assert ops[..at + 1][..at] == before;
    CacheHoldsLatest(capacity, ttl, before);
    InsertKeepsDistinct(Run(capacity, ttl, before), capacity, ttl, op.key, op.context, op.now, op.wallNow);
    assert Run(capacity, ttl, ops[..at + 1])[0] == Entry(op.key, op.context, op.now);
  }
}
