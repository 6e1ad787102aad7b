/** The bearer-token cache: a least-recently-used map with a time to live, whose lookup
    peeks under a read lock and then confirms under a write lock. */
module TokenCache {
  import opened Prelude

  /** Token prefix and token hash. */
  datatype Key = Key(prefix: string, hash: string)

  /** What the cache needs of a bearer context: an identity and when its token expires. */
  datatype Context = Context(id: int, expiresAt: int)

  /** Instants are on the monotonic clock, expiresAt on the wall clock. */
  datatype Entry = Entry(key: Key, context: Context, insertedAt: int)

  /** Most recently used first. */
  type Lru = seq<Entry>

  function Elapsed(now: int, since: int): nat {  // Instant::duration_since saturates at zero
    if now >= since then now - since else 0
  }

  predicate IsExpired(e: Entry, now: int, ttl: nat) { Elapsed(now, e.insertedAt) >= ttl }

  predicate IsContextExpired(c: Context, wallNow: int) { c.expiresAt <= wallNow }

  predicate IsStale(e: Entry, now: int, wallNow: int, ttl: nat) {
    IsExpired(e, now, ttl) || IsContextExpired(e.context, wallNow)
  }

  /** In clock terms: less than the time to live has passed since the insertion, and the
      token's own end has not come. */
  predicate Alive(e: Entry, now: int, wallNow: int, ttl: nat) {
    ttl > 0 && now < e.insertedAt + ttl && wallNow < e.context.expiresAt
  }

  lemma {:induction false} AliveExactlyWhen(e: Entry, now: int, wallNow: int, ttl: nat)
    ensures Alive(e, now, wallNow, ttl) <==> !IsStale(e, now, wallNow, ttl)
  {
  }

  lemma {:induction false} AliveInBulk(entries: seq<Entry>, now: int, wallNow: int, ttl: nat)
    ensures (forall e :: e in entries ==> Alive(e, now, wallNow, ttl)) <==> (forall e :: e in entries ==> !IsStale(e, now, wallNow, ttl))
  {
    forall e | e in entries
      ensures Alive(e, now, wallNow, ttl) <==> !IsStale(e, now, wallNow, ttl)
    {
      AliveExactlyWhen(e, now, wallNow, ttl);
    }
  }

  // --------------------------------------------------------------- LRU map

  predicate DistinctKeys(entries: Lru) {
    forall i, j :: 0 <= i < j < |entries| ==> entries[i].key != entries[j].key
  }

  function Find(entries: Lru, key: Key): (r: Option<nat>)
    ensures r.Some? ==> r.value < |entries| && entries[r.value].key == key
    ensures r.None? ==> forall i :: 0 <= i < |entries| ==> entries[i].key != key
  {
    if entries == [] then None
    else if entries[0].key == key then Some(0)
    else match Find(entries[1..], key) case None => None case Some(i) => Some(i + 1)
  }

  function Peek(entries: Lru, key: Key): Option<Entry> {
    match Find(entries, key) case None => None case Some(i) => Some(entries[i])
  }

  function Pop(entries: Lru, key: Key): Lru {
    match Find(entries, key) case None => entries case Some(i) => entries[..i] + entries[i + 1..]
  }

  function Promote(entries: Lru, key: Key): Lru {
    match Find(entries, key) case None => entries case Some(i) => [entries[i]] + entries[..i] + entries[i + 1..]
  }

  function PopLru(entries: Lru): Lru {
    if entries == [] then [] else entries[..|entries| - 1]
  }

  /** LruCache::put: replaces or adds, at the front; a full map drops its last entry. */
  function Put(entries: Lru, capacity: nat, e: Entry): Lru {
    if Find(entries, e.key).Some? then [e] + Pop(entries, e.key)
    else if |entries| >= capacity then [e] + PopLru(entries)
    else [e] + entries
  }

  // ------------------------------------------------------------- operations

  /** The first stale entry in iteration order, most recently used first. */
  function FirstStale(entries: Lru, now: int, wallNow: int, ttl: nat): (r: Option<nat>)
    ensures r.Some? ==> r.value < |entries| && IsStale(entries[r.value], now, wallNow, ttl)
    ensures r.None? ==> forall i :: 0 <= i < |entries| ==> !IsStale(entries[i], now, wallNow, ttl)
  {
    if entries == [] then None
    else if IsStale(entries[0], now, wallNow, ttl) then Some(0)
    else match FirstStale(entries[1..], now, wallNow, ttl) case None => None case Some(i) => Some(i + 1)
  }

  function EvictPreferExpired(entries: Lru, now: int, wallNow: int, ttl: nat): Lru {
    match FirstStale(entries, now, wallNow, ttl)
    case Some(i) => Pop(entries, entries[i].key)
    case None => PopLru(entries)
  }

  function Insert(entries: Lru, capacity: nat, ttl: nat, key: Key, context: Context, now: int, wallNow: int): Lru {
    if capacity == 0 then entries
    else
      var room := if Peek(entries, key).None? && |entries| >= capacity
                  then EvictPreferExpired(entries, now, wallNow, ttl) else entries;
      Put(room, capacity, Entry(key, context, now))
  }

  /** The reader's clean-up, under its own write lock and with its entry instant. */
  function RemoveIfStillExpired(entries: Lru, ttl: nat, key: Key, now: int, wallNow: int): Lru {
    match Peek(entries, key)
    case None => entries
    case Some(e) => if IsStale(e, now, wallNow, ttl) then Pop(entries, key) else entries
  }

  /** The second lock section of a lookup: what it returns and what it leaves. */
  function Confirm(entries: Lru, ttl: nat, key: Key, now: int, wallNow: int): (Lru, Option<Context>) {
    match Peek(entries, key)
    case None => (entries, None)
    case Some(e) =>
      if IsStale(e, now, wallNow, ttl) then (Pop(entries, key), None)
      else (Promote(entries, key), Some(e.context))
  }

  // ------------------------------------------------------- the cache itself

  datatype ReadOutcome = Miss | SeenStale | SeenFresh

  class AuthTokenCache {
    const capacity: nat
    const ttl: nat
    var entries: Lru

    ghost predicate Valid()
      reads this
    {
      DistinctKeys(entries) && |entries| <= capacity
    }

    constructor (capacity: nat, ttl: nat)
      ensures Valid() && entries == [] && this.capacity == capacity && this.ttl == ttl
    {
      this.capacity, this.ttl, entries := capacity, ttl, [];
    }

    /** First lock section of a lookup; reads only. */
    method ReadSection(key: Key, now: int, wallNow: int) returns (outcome: ReadOutcome)
      ensures outcome.Miss? <==> forall e :: e in entries ==> e.key != key
      ensures outcome.SeenFresh? <==> Confirm(entries, ttl, key, now, wallNow).1.Some?
      ensures outcome.SeenStale? <==> RemoveIfStillExpired(entries, ttl, key, now, wallNow) != entries
    {
      var e := Peek(entries, key);
      if e.None? {
        return Miss;
      }
      return if IsStale(e.value, now, wallNow, ttl) then SeenStale else SeenFresh;
    }

    method WriteSection(key: Key, now: int, wallNow: int) returns (hit: Option<Context>)
      requires Valid()
      modifies this
      ensures Valid() && (entries, hit) == Confirm(old(entries), ttl, key, now, wallNow)
    {
      PopKeepsDistinct(entries, key);
      PromotePermutes(entries, key);
      var e := Peek(entries, key);
      if e.None? {
        return None;
      }
      if IsStale(e.value, now, wallNow, ttl) {
        entries := Pop(entries, key);
        return None;
      }
      entries := Promote(entries, key);
      return Some(e.value.context);
    }

    method CleanUp(key: Key, now: int, wallNow: int)
      requires Valid()
      modifies this
      ensures Valid() && entries == RemoveIfStillExpired(old(entries), ttl, key, now, wallNow)
    {
      PopKeepsDistinct(entries, key);
      var e := Peek(entries, key);
      if e.Some? && IsStale(e.value, now, wallNow, ttl) {
        entries := Pop(entries, key);
      }
    }

    /** A lookup with nobody in between its lock sections; the wall clock is read anew in
        each of them. */
    method GetBearerContext(key: Key, now: int, wallRead: int, wallWrite: int) returns (hit: Option<Context>)
      requires Valid() && wallRead <= wallWrite
      modifies this
      ensures Valid() && (entries, hit) == Confirm(old(entries), ttl, key, now, wallWrite)
      ensures forall e :: e in old(entries) && e.key == key ==>
        hit == if Alive(e, now, wallWrite, ttl) then Some(e.context) else None
      ensures (forall e :: e in old(entries) ==> e.key != key) ==> hit == None
    {
      assert forall e :: e in entries && e.key == key ==> Peek(entries, key) == Some(e) by {
        EntriesAreFound(entries, key);
      }
      var seen := ReadSection(key, now, wallRead);
      match seen {
        case Miss => hit := None;
        case SeenStale =>
          CleanUp(key, now, wallWrite);
          hit := None;
        case SeenFresh =>
          hit := WriteSection(key, now, wallWrite);
      }
    }

    method InsertBearerContext(key: Key, context: Context, now: int, wallNow: int)
      requires Valid()
      modifies this
      ensures Valid() && entries == Insert(old(entries), capacity, ttl, key, context, now, wallNow)
    {
      if capacity == 0 {
        return;
      }
      InsertKeepsDistinct(entries, capacity, ttl, key, context, now, wallNow);
      if Peek(entries, key).None? && |entries| >= capacity {
        entries := EvictPreferExpired(entries, now, wallNow, ttl);
      }
      entries := Put(entries, capacity, Entry(key, context, now));
    }

    method InvalidateKey(key: Key)
      requires Valid()
      modifies this
      ensures Valid() && entries == Pop(old(entries), key)
    {
      PopKeepsDistinct(entries, key);
      entries := Pop(entries, key);
    }
  }

  // ------------------------------------------------------ facts about the map

  lemma {:induction false} FindIsUnique(entries: Lru, i: nat)
    requires DistinctKeys(entries) && i < |entries|
    ensures Find(entries, entries[i].key) == Some(i)
  {
    if i == 0 {
    } else {
      FindIsUnique(entries[1..], i - 1);
    }
  }

  lemma PopKeepsDistinct(entries: Lru, key: Key)
    requires DistinctKeys(entries)
    ensures DistinctKeys(Pop(entries, key)) && |Pop(entries, key)| <= |entries|
    ensures Peek(Pop(entries, key), key).None?
    ensures forall other :: other != key ==> Peek(Pop(entries, key), other) == Peek(entries, other)
  {
    PopForgetsKey(entries, key);
    forall other | other != key
      ensures Peek(Pop(entries, key), other) == Peek(entries, other)
    {
      PopKeepsOthers(entries, key, other);
    }
  }

  lemma {:induction false} PopForgetsKey(entries: Lru, key: Key)
    requires DistinctKeys(entries)
    ensures DistinctKeys(Pop(entries, key)) && |Pop(entries, key)| <= |entries|
    ensures Peek(Pop(entries, key), key).None?
  {
    var at := Find(entries, key);
    if at.Some? {
      var i, rest := at.value, Pop(entries, key);
      assert forall k :: 0 <= k < |rest| ==> rest[k] == if k < i then entries[k] else entries[k + 1];
    }
  }

  lemma PopKeepsOthers(entries: Lru, key: Key, other: Key)
    requires DistinctKeys(entries) && other != key
    ensures Peek(Pop(entries, key), other) == Peek(entries, other)
  {
    var i, j := Find(entries, key), Find(entries, other);
    if i.Some? && j.Some? {
      var k := if j.value < i.value then j.value else j.value - 1;
      assert Pop(entries, key)[k] == entries[j.value];
      FindIsUnique(Pop(entries, key), k);
    }
  }

  lemma PromotePermutes(entries: Lru, key: Key)
    requires DistinctKeys(entries)
    ensures DistinctKeys(Promote(entries, key)) && |Promote(entries, key)| == |entries|
    ensures forall k :: Peek(Promote(entries, key), k) == Peek(entries, k)
  {
    forall k
      ensures Peek(Promote(entries, key), k) == Peek(entries, k)
    {
      var i, j := Find(entries, key), Find(entries, k);
      var after := Promote(entries, key);
      if i.Some? && j.Some? {
        var at := if j.value == i.value then 0 else if j.value < i.value then j.value + 1 else j.value;
        assert after[at] == entries[j.value];
        FindIsUnique(after, at);
      }
    }
  }

  lemma PopLruKeepsDistinct(entries: Lru)
    requires DistinctKeys(entries)
    ensures DistinctKeys(PopLru(entries))
    ensures forall k :: Peek(PopLru(entries), k).Some? ==> Peek(PopLru(entries), k) == Peek(entries, k)
  {
    forall k | Peek(PopLru(entries), k).Some?
      ensures Peek(PopLru(entries), k) == Peek(entries, k)
    {
      FindIsUnique(entries, Find(PopLru(entries), k).value);
    }
  }

  lemma PopLruForgetsTheLast(entries: Lru, i: nat)
    requires DistinctKeys(entries) && i < |entries|
    ensures Peek(PopLru(entries), entries[i].key).None? ==> i == |entries| - 1
  {
    if i < |entries| - 1 {
      FindIsUnique(PopLru(entries), i);
    }
  }

  /** Eviction makes room and only forgets. */
  lemma EvictOnlyForgets(entries: Lru, now: int, wallNow: int, ttl: nat)
    requires DistinctKeys(entries) && entries != []
    ensures var after := EvictPreferExpired(entries, now, wallNow, ttl);
      && DistinctKeys(after) && |after| == |entries| - 1
      && (forall k :: Peek(after, k).Some? ==> Peek(after, k) == Peek(entries, k))
  {
    PopLruKeepsDistinct(entries);
    var stale := FirstStale(entries, now, wallNow, ttl);
    if stale.Some? {
      PopKeepsDistinct(entries, entries[stale.value].key);
    }
  }

  /** An insert keeps the map well formed, puts its entry first, and leaves every other
      key as it was or forgets it; at most one key is forgotten. */
  lemma InsertKeepsDistinct(entries: Lru, capacity: nat, ttl: nat, key: Key, context: Context, now: int, wallNow: int)
    requires DistinctKeys(entries) && |entries| <= capacity && capacity > 0
    ensures var after := Insert(entries, capacity, ttl, key, context, now, wallNow);
      && DistinctKeys(after) && |after| <= capacity && |after| >= |entries|
      && after[0] == Entry(key, context, now) && Peek(after, key) == Some(after[0])
      && (forall k :: k != key && Peek(after, k).Some? ==> Peek(after, k) == Peek(entries, k))
  {
    var full := Peek(entries, key).None? && |entries| >= capacity;
    var room := if full then EvictPreferExpired(entries, now, wallNow, ttl) else entries;
    if full {
      EvictOnlyForgets(entries, now, wallNow, ttl);
    }
    PopKeepsDistinct(room, key);
    var after := Insert(entries, capacity, ttl, key, context, now, wallNow);
    assert after == [after[0]] + after[1..];
    assert after[1..] == if Find(room, key).Some? then Pop(room, key) else room;
  }

  lemma {:induction false} EntriesAreFound(entries: Lru, key: Key)
    requires DistinctKeys(entries)
    ensures forall e :: e in entries && e.key == key ==> Peek(entries, key) == Some(e)
  {
    forall e | e in entries && e.key == key
      ensures Peek(entries, key) == Some(e)
    {
      var i :| 0 <= i < |entries| && entries[i] == e;
      FindIsUnique(entries, i);
    }
  }

  lemma {:induction false} InsertForgetsByEviction(
      entries: Lru, capacity: nat, ttl: nat, key: Key, context: Context, now: int, wallNow: int, e: Entry)
    requires DistinctKeys(entries) && |entries| <= capacity && capacity > 0
    requires e in entries && e.key != key
    requires Peek(Insert(entries, capacity, ttl, key, context, now, wallNow), e.key).None?
    ensures |entries| == capacity && Peek(EvictPreferExpired(entries, now, wallNow, ttl), e.key).None?
  {
    EntriesAreFound(entries, e.key);
    var full := Peek(entries, key).None? && |entries| >= capacity;
    var room := if full then EvictPreferExpired(entries, now, wallNow, ttl) else entries;
    PopKeepsDistinct(room, key) by {
      if full { EvictOnlyForgets(entries, now, wallNow, ttl); }
    }
    var after := Insert(entries, capacity, ttl, key, context, now, wallNow);
    assert after[1..] == if Find(room, key).Some? then Pop(room, key) else room;
    assert Peek(room, e.key).None?;
  }

  /** No live entry is evicted while one that is not is in the cache, and then only the least
      recently used. */
  lemma {:induction false} StaleGoesFirst(entries: Lru, capacity: nat, ttl: nat, key: Key, context: Context, now: int, wallNow: int, e: Entry)
    requires DistinctKeys(entries) && |entries| <= capacity && capacity > 0
    requires e in entries && e.key != key && Alive(e, now, wallNow, ttl)
    requires Peek(Insert(entries, capacity, ttl, key, context, now, wallNow), e.key).None?
    ensures |entries| == capacity && e == entries[|entries| - 1]
    ensures forall other :: other in entries ==> Alive(other, now, wallNow, ttl)
  {
    var i :| 0 <= i < |entries| && entries[i] == e;
    AliveExactlyWhen(e, now, wallNow, ttl);
    InsertForgetsByEviction(entries, capacity, ttl, key, context, now, wallNow, e);
    EvictionTakes(entries, now, wallNow, ttl, i);
    AliveInBulk(entries, now, wallNow, ttl);
  }

  /** An entry that an eviction takes was stale, or the last one with none stale. */
  lemma {:induction false} EvictionTakes(entries: Lru, now: int, wallNow: int, ttl: nat, i: nat)
    requires DistinctKeys(entries) && i < |entries| && !IsStale(entries[i], now, wallNow, ttl)
    requires Peek(EvictPreferExpired(entries, now, wallNow, ttl), entries[i].key).None?
    ensures i == |entries| - 1
    ensures forall other :: other in entries ==> !IsStale(other, now, wallNow, ttl)
  {
    FindIsUnique(entries, i);
    var stale := FirstStale(entries, now, wallNow, ttl);
    if stale.Some? {
      PopKeepsDistinct(entries, entries[stale.value].key);
    } else {
      PopLruForgetsTheLast(entries, i);
    }
  }
}
