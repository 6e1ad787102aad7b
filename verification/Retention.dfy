/** Pruning expired check history in batches. */
module Retention {
  import opened Prelude

  datatype CheckRow = CheckRow(id: nat, checkedAt: int)

  datatype RetentionConfig = RetentionConfig(retention: nat, interval: nat, batchSize: nat)

  predicate ValidConfig(c: RetentionConfig) {
    c.retention > 0 && c.interval > 0 && c.batchSize > 0
  }

  predicate IsExpired(r: CheckRow, cutoff: int) { r.checkedAt < cutoff }

  function Expired(rows: set<CheckRow>, cutoff: int): set<CheckRow> {
    set r | r in rows && IsExpired(r, cutoff)
  }

  /** ORDER BY checked_at, id. */
  predicate Before(a: CheckRow, b: CheckRow) {
    a.checkedAt < b.checkedAt || (a.checkedAt == b.checkedAt && a.id < b.id)
  }

  predicate UniqueIds(rows: set<CheckRow>) {
    forall a, b :: a in rows && b in rows && a.id == b.id ==> a == b
  }

  predicate IsOldest(r: CheckRow, rows: set<CheckRow>) {
    r in rows && forall other :: other in rows && other != r ==> Before(r, other)
  }

  lemma {:induction false} OldestExists(rows: set<CheckRow>)
    requires rows != {} && UniqueIds(rows)
    ensures exists r :: IsOldest(r, rows)
  {
    var any :| any in rows;
    if rows == {any} {
      assert IsOldest(any, rows);
    } else {
      var rest := rows - {any};
      OldestExists(rest);
      var oldest :| IsOldest(oldest, rest);
      assert any.id != oldest.id;
      if Before(any, oldest) {
        forall other | other in rows && other != any
          ensures Before(any, other)
        {
          assert other in rest;
          assert other != oldest ==> Before(oldest, other);
        }
        assert IsOldest(any, rows);
      } else {
        assert IsOldest(oldest, rows);
      }
    }
  }

  /** Of the rows before, those that are gone are older than the cutoff, and older than every
      row that stays; of one instant the smaller ids go first. */
  predicate TakesOldest(before: set<CheckRow>, after: set<CheckRow>, cutoff: int) {
    && after <= before
    && forall gone :: gone in before - after ==>
         && gone.checkedAt < cutoff
         && forall kept :: kept in after ==>
              gone.checkedAt < kept.checkedAt || (gone.checkedAt == kept.checkedAt && gone.id < kept.id)
  }

  predicate NoneOlder(rows: set<CheckRow>, cutoff: int) { forall r :: r in rows ==> r.checkedAt >= cutoff }

  lemma {:induction false} PrunedInColumns(before: set<CheckRow>, after: set<CheckRow>, cutoff: int)
    requires after <= before && before - after <= Expired(before, cutoff)
    requires forall gone, kept :: gone in before - after && kept in Expired(after, cutoff) ==> Before(gone, kept)
    ensures TakesOldest(before, after, cutoff)
    ensures Expired(after, cutoff) == {} ==> NoneOlder(after, cutoff)
  {
    forall gone | gone in before - after
      ensures gone in Expired(before, cutoff)
    {
    }
    forall kept | kept in after
      ensures kept.checkedAt < cutoff <==> kept in Expired(after, cutoff)
    {
    }
  }

  /** The check table and one worker's next sweep time. */
  class History {
    var rows: set<CheckRow>
    var nextRunAt: int

    constructor (rows: set<CheckRow>, nextRunAt: int)
      ensures this.rows == rows && this.nextRunAt == nextRunAt
    {
      this.rows, this.nextRunAt := rows, nextRunAt;
    }

    /** Deletes up to `limit` expired rows, oldest first, and nothing else. */
    method PruneChecksOlderThan(cutoff: int, limit: nat) returns (deleted: nat)
      requires UniqueIds(rows)
      modifies this`rows
      ensures rows <= old(rows) && old(rows) - rows <= Expired(old(rows), cutoff)
      ensures deleted == |old(rows) - rows|
      ensures |Expired(old(rows), cutoff)| == |Expired(rows, cutoff)| + deleted
      ensures deleted == if |Expired(old(rows), cutoff)| < limit then |Expired(old(rows), cutoff)| else limit
      ensures forall gone, kept :: gone in old(rows) - rows && kept in Expired(rows, cutoff) ==> Before(gone, kept)
      ensures TakesOldest(old(rows), rows, cutoff)
      ensures deleted < limit ==> NoneOlder(rows, cutoff)
    {
      deleted := 0;
      while deleted < limit && Expired(rows, cutoff) != {}
        invariant deleted <= limit && rows <= old(rows)
        invariant old(rows) - rows <= Expired(old(rows), cutoff)
        invariant deleted == |old(rows) - rows|
        invariant |Expired(old(rows), cutoff)| == |Expired(rows, cutoff)| + deleted
        invariant forall gone, kept :: gone in old(rows) - rows && kept in Expired(rows, cutoff) ==> Before(gone, kept)
      {
        OldestExists(Expired(rows, cutoff));
        var r: CheckRow :| IsOldest(r, Expired(rows, cutoff));
        assert Expired(rows - {r}, cutoff) == Expired(rows, cutoff) - {r};
        assert old(rows) - (rows - {r}) == (old(rows) - rows) + {r};
        rows := rows - {r};
        deleted := deleted + 1;
      }
      PrunedInColumns(old(rows), rows, cutoff);
    }

    /** One call of the sweep at time `now`; another process may hold the sweep lock. */
    method PruneIfDue(now: int, lockFree: bool, c: RetentionConfig) returns (deleted: nat)
      requires UniqueIds(rows) && ValidConfig(c)
      modifies this
      ensures now < old(nextRunAt) ==> deleted == 0 && rows == old(rows) && nextRunAt == old(nextRunAt)
      ensures now >= old(nextRunAt) && !lockFree ==> deleted == 0 && rows == old(rows) && nextRunAt == now + c.interval
      ensures now >= old(nextRunAt) && lockFree ==> TakesOldest(old(rows), rows, now - c.retention)
      ensures now >= old(nextRunAt) && lockFree && deleted < c.batchSize ==> NoneOlder(rows, now - c.retention)
      ensures now >= old(nextRunAt) && lockFree ==>
        && rows <= old(rows) && old(rows) - rows <= Expired(old(rows), now - c.retention)
        && |Expired(old(rows), now - c.retention)| == |Expired(rows, now - c.retention)| + deleted
        && deleted <= c.batchSize
        && (deleted < c.batchSize ==> Expired(rows, now - c.retention) == {})
        && nextRunAt == now + if deleted == c.batchSize then 0 else c.interval
    {
      deleted := 0;
      if now < nextRunAt {
        return;
      }
      if !lockFree {
        nextRunAt := now + c.interval;
        return;
      }
      deleted := PruneChecksOlderThan(now - c.retention, c.batchSize);
      nextRunAt := if deleted >= c.batchSize then now else now + c.interval;
    }

    /** Back-to-back calls, the sweep lock free, at instants within one interval during
        which no further row expires: they number N / batchSize + 1 for N expired rows,
        and together delete exactly those. */
    method SweepUntilIdle(clock: nat -> int, c: RetentionConfig) returns (calls: nat)
      requires UniqueIds(rows) && ValidConfig(c) && nextRunAt <= clock(0)
      requires forall j: nat, k: nat :: j <= k ==> clock(j) <= clock(k) < clock(j) + c.interval
      requires forall k: nat, r :: r in rows ==>
        (IsExpired(r, clock(k) - c.retention) <==> IsExpired(r, clock(0) - c.retention))
      modifies this
      ensures calls == |Expired(old(rows), clock(0) - c.retention)| / c.batchSize + 1
      ensures rows == old(rows) - Expired(old(rows), clock(0) - c.retention)
      ensures rows == set r | r in old(rows) && r.checkedAt + c.retention >= clock(0)
      ensures nextRunAt == clock(calls - 1) + c.interval
    {
      calls := 0;
      ghost var cutoff := clock(0) - c.retention;
      ghost var expired := Expired(rows, cutoff);
      ghost var idle := false;
      while nextRunAt <= clock(calls)
        invariant idle <==> nextRunAt > clock(calls)
        invariant rows <= old(rows) && old(rows) - rows <= expired
        invariant !idle ==> |expired| == |Expired(rows, cutoff)| + calls * c.batchSize
        invariant idle ==>
          calls == |expired| / c.batchSize + 1 && Expired(rows, cutoff) == {} && nextRunAt == clock(calls - 1) + c.interval
        decreases !idle, |Expired(rows, cutoff)|
      {
        ghost var before := rows;
        assert Expired(before, clock(calls) - c.retention) == Expired(before, cutoff);
        var deleted := PruneIfDue(clock(calls), true, c);
        assert Expired(rows, clock(calls) - c.retention) == Expired(rows, cutoff);
        assert old(rows) - rows == (old(rows) - before) + (before - rows) && Expired(before, cutoff) <= expired;
        assert clock(calls) <= clock(calls + 1) < clock(calls) + c.interval;
        if deleted < c.batchSize {
          QuotientOf(|expired|, calls, c.batchSize, deleted);
          idle := true;
        } else {
          MulOneMore(calls, c.batchSize);
        }
        calls := calls + 1;
      }
      forall r | r in rows
        ensures r !in expired
      {
        assert r !in Expired(rows, cutoff);
      }
    }
  }

  lemma MulOneMore(q: nat, d: nat)
    ensures (q + 1) * d == q * d + d
  {
  }

  lemma MulMonotone(a: nat, b: nat, d: nat)
    requires a <= b
    ensures a * d <= b * d
  {
  }

  lemma QuotientOf(n: nat, q: nat, d: nat, r: nat)
    requires d > 0 && n == r + q * d && r < d
    ensures n / d == q
  {
    var actual := n / d;
    assert n == actual * d + n % d;
    if actual < q {
      MulOneMore(actual, d);
      MulMonotone(actual + 1, q, d);
    } else if actual > q {
      MulOneMore(q, d);
      MulMonotone(q + 1, actual, d);
    }
  }
}
