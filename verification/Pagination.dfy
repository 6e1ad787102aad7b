/** Keyset pages over the check history: one page with its cursor, and the loop that appends
    page after page. */
module Pagination {
  import opened Prelude

  const DEFAULT_CHECKS_LIMIT: nat := 500
  const MAX_CHECKS_LIMIT: nat := 2000

  datatype Row = Row(checkedAt: int, id: int, isSuccess: bool)

  datatype Cursor = Cursor(timestamp: int, id: int)

  datatype LimitError = Zero | TooLarge

  function EncodeCursor(r: Row): Cursor { Cursor(r.checkedAt, r.id) }

  predicate Below(r: Row, c: Cursor) { r.checkedAt < c.timestamp || (r.checkedAt == c.timestamp && r.id < c.id) }

  /** Newest first, and of one instant the larger id first; ids are unique. */
  ghost predicate Descending(rows: seq<Row>) {
    forall i, j :: 0 <= i < j < |rows| ==> Below(rows[j], EncodeCursor(rows[i]))
  }

  // --------------------------------------------------------------- one page

  predicate Shown(r: Row, cursor: Option<Cursor>, outcome: Option<bool>) {
    (cursor.Some? ==> Below(r, cursor.value)) && (outcome.Some? ==> r.isSuccess == outcome.value)
  }

  /** The rows of the history the query selects, in their order. */
  function Matching(rows: seq<Row>, cursor: Option<Cursor>, outcome: Option<bool>): seq<Row> {
    if rows == [] then []
    else if Shown(rows[0], cursor, outcome) then [rows[0]] + Matching(rows[1..], cursor, outcome)
    else Matching(rows[1..], cursor, outcome)
  }

  function ListBySite(rows: seq<Row>, cursor: Option<Cursor>, outcome: Option<bool>, limit: nat): seq<Row> {
    var all := Matching(rows, cursor, outcome);
    if |all| <= limit then all else all[..limit]
  }

  method PaginateVecWithCursor<T, C>(fetched: seq<T>, limit: nat, cursorOf: T -> C) returns (items: seq<T>, next: Option<C>)
    requires limit >= 1
    ensures items <= fetched
    ensures next.None? ==> items == fetched && |fetched| <= limit
    ensures next.Some? ==> |items| == limit < |fetched| && next.value == cursorOf(items[limit - 1])
  {
    items, next := fetched, None;
    if |items| > limit {
      next := Some(cursorOf(items[limit - 1]));
      items := items[..limit];
    }
  }

  function ChecksLimit(limit: Option<nat>): Result<nat, LimitError> {
    var value := if limit.None? then DEFAULT_CHECKS_LIMIT else limit.value;
    if value == 0 then Err(Zero) else if value > MAX_CHECKS_LIMIT then Err(TooLarge) else Ok(value)
  }

  /** The page of a history after a cursor, and the cursor after the page. */
  ghost predicate IsPage(rows: seq<Row>, cursor: Option<Cursor>, outcome: Option<bool>, limit: nat,
                         page: seq<Row>, next: Option<Cursor>)
  {
    var all := Matching(rows, cursor, outcome);
    if |all| <= limit then page == all && next == None
    else limit > 0 && page == all[..limit] && next == Some(EncodeCursor(page[limit - 1]))
  }

  method ListSiteChecks(rows: seq<Row>, queryLimit: Option<nat>, cursor: Option<Cursor>, outcome: Option<bool>)
      returns (result: Result<(seq<Row>, Option<Cursor>), LimitError>)
    ensures result.Err? <==> queryLimit == Some(0) || (queryLimit.Some? && queryLimit.value > MAX_CHECKS_LIMIT)
    ensures result.Ok? ==> IsPage(rows, cursor, outcome,
      if queryLimit.None? then DEFAULT_CHECKS_LIMIT else queryLimit.value, result.value.0, result.value.1)
  {
    var limit := ChecksLimit(queryLimit);
    if limit.Err? {
      return Err(limit.error);
    }
    var fetched := ListBySite(rows, cursor, outcome, limit.value + 1);
    var page, next := PaginateVecWithCursor(fetched, limit.value, r => EncodeCursor(r));
    return Ok((page, next));
  }

  // -------------------------------------------------------------- the page loop

  /** What the loop has shown, and whether it saw the last page. */
  datatype Loaded = Loaded(checks: seq<Row>, complete: bool)

  function Prepend(page: seq<Row>, rest: Loaded): Loaded { Loaded(page + rest.checks, rest.complete) }

  /** Page after page, each from the history as it is when that page is asked for. */
  function Load(histories: seq<seq<Row>>, cursor: Option<Cursor>, outcome: Option<bool>, limit: nat): Loaded
    requires limit >= 1
  {
    if histories == [] then Loaded([], false)
    else
      var all := Matching(histories[0], cursor, outcome);
      if |all| <= limit then Loaded(all, true)
      else
        Prepend(all[..limit], Load(histories[1..], Some(EncodeCursor(all[limit - 1])), outcome, limit))
  }

  lemma {:induction false} LoadStep(histories: seq<seq<Row>>, i: nat, cursor: Option<Cursor>, outcome: Option<bool>,
                                    limit: nat, page: seq<Row>, next: Option<Cursor>)
    requires limit >= 1 && i < |histories| && IsPage(histories[i], cursor, outcome, limit, page, next)
    ensures Load(histories[i..], cursor, outcome, limit)
      == if next.None? then Loaded(page, true) else Prepend(page, Load(histories[i + 1..], next, outcome, limit))
  {
    assert histories[i..][0] == histories[i] && histories[i..][1..] == histories[i + 1..];
  }

  lemma {:induction false} PrependTwice(first: seq<Row>, second: seq<Row>, rest: Loaded)
    ensures Prepend(first, Prepend(second, rest)) == Prepend(first + second, rest)
  {
  }

  method LoadChecks(histories: seq<seq<Row>>, outcome: Option<bool>, limit: nat) returns (checks: seq<Row>, complete: bool)
    requires 1 <= limit <= MAX_CHECKS_LIMIT
    ensures Loaded(checks, complete) == Load(histories, None, outcome, limit)
  {
    checks := [];
    var cursor: Option<Cursor> := None;
    assert histories[0..] == histories;
    for i := 0 to |histories|
      invariant Load(histories, None, outcome, limit) == Prepend(checks, Load(histories[i..], cursor, outcome, limit))
    {
      var result := ListSiteChecks(histories[i], Some(limit), cursor, outcome);
      var (page, next) := result.value;
      LoadStep(histories, i, cursor, outcome, limit, page, next);
      PrependTwice(checks, page, Load(histories[i + 1..], next, outcome, limit));
      checks, cursor := checks + page, next;
      if cursor.None? {
        return checks, true;
      }
    }
    return checks, false;
  }

  // --------------------------------------------------------- the history stands still

  lemma {:induction false} MatchingMembers(rows: seq<Row>, cursor: Option<Cursor>, outcome: Option<bool>)
    ensures forall r :: r in Matching(rows, cursor, outcome) <==> r in rows && Shown(r, cursor, outcome)
    ensures forall r :: r in Matching(rows, cursor, outcome) <==>
      && r in rows
      && (outcome == None || outcome == Some(r.isSuccess))
      && (cursor == None || r.checkedAt < cursor.value.timestamp
          || (r.checkedAt == cursor.value.timestamp && r.id < cursor.value.id))
  {
    if rows == [] {
    } else {
      MatchingMembers(rows[1..], cursor, outcome);
      assert rows == [rows[0]] + rows[1..];
    }
  }

  lemma {:induction false} MatchingDescends(rows: seq<Row>, cursor: Option<Cursor>, outcome: Option<bool>)
    requires Descending(rows)
    ensures Descending(Matching(rows, cursor, outcome))
  {
    if rows == [] {
    } else {
      MatchingDescends(rows[1..], cursor, outcome);
      MatchingMembers(rows[1..], cursor, outcome);
      var rest := Matching(rows[1..], cursor, outcome);
      forall j | 0 <= j < |rest|
        ensures Below(rest[j], EncodeCursor(rows[0]))
      {
        assert rest[j] in rest;
        var i :| 0 <= i < |rows[1..]| && rows[1..][i] == rest[j];
        assert rows[1 + i] == rest[j];
      }
    }
  }

  lemma {:induction false} MatchingAgrees(rows: seq<Row>, c: Option<Cursor>, d: Option<Cursor>, outcome: Option<bool>)
    requires forall i :: 0 <= i < |rows| ==> Shown(rows[i], c, outcome) == Shown(rows[i], d, outcome)
    ensures Matching(rows, c, outcome) == Matching(rows, d, outcome)
  {
    if rows == [] {
    } else {
      MatchingAgrees(rows[1..], c, d, outcome);
    }
  }

  lemma {:induction false} CursorAtFront(rows: seq<Row>, cursor: Option<Cursor>, outcome: Option<bool>)
    requires Descending(rows) && rows != [] && Shown(rows[0], cursor, outcome)
    ensures Matching(rows, Some(EncodeCursor(rows[0])), outcome) == Matching(rows[1..], cursor, outcome)
  {
    MatchingAgrees(rows[1..], cursor, Some(EncodeCursor(rows[0])), outcome);
  }

  lemma {:induction false} CursorFurtherOn(rows: seq<Row>, outcome: Option<bool>, r: Row)
    requires Descending(rows) && rows != [] && r in rows[1..]
    ensures Matching(rows, Some(EncodeCursor(r)), outcome) == Matching(rows[1..], Some(EncodeCursor(r)), outcome)
  {
    var i :| 0 <= i < |rows[1..]| && rows[1..][i] == r;
    assert Below(rows[i + 1], EncodeCursor(rows[0]));
  }

  /** Asking again from the cursor of a row continues right after that row. */
  lemma {:induction false} CursorContinues(rows: seq<Row>, cursor: Option<Cursor>, outcome: Option<bool>, k: nat)
    requires Descending(rows) && k < |Matching(rows, cursor, outcome)|
    ensures var all := Matching(rows, cursor, outcome);
      Matching(rows, Some(EncodeCursor(all[k])), outcome) == all[k + 1..]
  {
    var rest := Matching(rows[1..], cursor, outcome);
    var j := if Shown(rows[0], cursor, outcome) then k - 1 else k;
    if j < 0 {
      CursorAtFront(rows, cursor, outcome);
    } else {
      CursorContinues(rows[1..], cursor, outcome, j);
      MatchingMembers(rows[1..], cursor, outcome);
      assert rest[j] in rest;
      CursorFurtherOn(rows, outcome, rest[j]);
      assert Shown(rows[0], cursor, outcome) ==> ([rows[0]] + rest)[k] == rest[j] && ([rows[0]] + rest)[k + 1..] == rest[j + 1..];
    }
  }

  /** The first `count` rows were shown, and the end was seen exactly if these are all. */
  predicate ShowsFirst(loaded: Loaded, all: seq<Row>, count: nat) {
    && (loaded.complete <==> |all| <= count)
    && loaded.checks == if |all| <= count then all else all[..count]
  }

  lemma {:induction false} OnePageMore(rest: Loaded, all: seq<Row>, limit: nat, count: nat)
    requires limit < |all| && ShowsFirst(rest, all[limit..], count)
    ensures ShowsFirst(Prepend(all[..limit], rest), all, limit + count)
  {
    if |all| <= limit + count {
      assert all[..limit] + all[limit..] == all;
    } else {
      assert all[..limit] + all[limit..][..count] == all[..limit + count];
    }
  }

  lemma {:induction false} HistoryStandsStill(rows: seq<Row>, cursor: Option<Cursor>, outcome: Option<bool>, limit: nat, n: nat)
    requires limit >= 1 && n >= 1 && |Matching(rows, cursor, outcome)| > limit
    ensures Load(seq(n, _ => rows), cursor, outcome, limit)
      == Prepend(Matching(rows, cursor, outcome)[..limit],
          Load(seq(n - 1, _ => rows), Some(EncodeCursor(Matching(rows, cursor, outcome)[limit - 1])), outcome, limit))
  {
    assert seq(n, _ => rows)[1..] == seq(n - 1, _ => rows);
  }

  lemma {:induction false} Pages(n: nat, limit: nat)
    requires n >= 1
    ensures n * limit == limit + (n - 1) * limit
  {
  }

  lemma {:induction false} NextPages(rows: seq<Row>, cursor: Option<Cursor>, outcome: Option<bool>, limit: nat, n: nat, count: nat)
    requires limit >= 1 && n > 1 && Descending(rows) && |Matching(rows, cursor, outcome)| > limit
    requires var next := Some(EncodeCursor(Matching(rows, cursor, outcome)[limit - 1]));
      ShowsFirst(Load(seq(n - 1, _ => rows), next, outcome, limit), Matching(rows, next, outcome), count)
    ensures ShowsFirst(Load(seq(n, _ => rows), cursor, outcome, limit), Matching(rows, cursor, outcome), limit + count)
  {
    var all := Matching(rows, cursor, outcome);
    HistoryStandsStill(rows, cursor, outcome, limit, n);
    CursorContinues(rows, cursor, outcome, limit - 1);
    OnePageMore(Load(seq(n - 1, _ => rows), Some(EncodeCursor(all[limit - 1])), outcome, limit), all, limit, count);
  }

  lemma {:induction false} OnlyPage(rows: seq<Row>, cursor: Option<Cursor>, outcome: Option<bool>, limit: nat, n: nat)
    requires limit >= 1 && n >= 1 && (n == 1 || |Matching(rows, cursor, outcome)| <= limit)
    ensures var all, loaded := Matching(rows, cursor, outcome), Load(seq(n, _ => rows), cursor, outcome, limit);
      if |all| <= limit then loaded == Loaded(all, true) else loaded == Loaded(all[..limit], false)
  {
    if |Matching(rows, cursor, outcome)| > limit {
      HistoryStandsStill(rows, cursor, outcome, limit, 1);
    }
  }

  /** Over a history that stands still, `n` pages show its first n * limit rows, each once
      and in order; and the last page is reached exactly when that covers all of it. */
  lemma {:induction false} PagesCoverHistory(rows: seq<Row>, cursor: Option<Cursor>, outcome: Option<bool>, limit: nat, n: nat)
    requires limit >= 1 && n >= 1 && Descending(rows)
    ensures ShowsFirst(Load(seq(n, _ => rows), cursor, outcome, limit), Matching(rows, cursor, outcome), n * limit)
    decreases n
  {
    var all := Matching(rows, cursor, outcome);
    Pages(n, limit);
    if n == 1 || |all| <= limit {
      OnlyPage(rows, cursor, outcome, limit, n);
    } else {
      PagesCoverHistory(rows, Some(EncodeCursor(all[limit - 1])), outcome, limit, n - 1);
      NextPages(rows, cursor, outcome, limit, n, (n - 1) * limit);
    }
  }

  lemma {:induction false} MatchingEverything(rows: seq<Row>)
    ensures Matching(rows, None, None) == rows
  {
    if rows == [] {
    } else {
      MatchingEverything(rows[1..]);
    }
  }

  /** Loading until no cursor comes back yields every row exactly once, in order. */
  lemma {:induction false} EveryRowOnce(rows: seq<Row>, limit: nat, n: nat)
    requires limit >= 1 && n >= 1 && Descending(rows)
    ensures Load(seq(n, _ => rows), None, None, limit).complete <==> |rows| <= n * limit
    ensures Load(seq(n, _ => rows), None, None, limit).complete ==> Load(seq(n, _ => rows), None, None, limit).checks == rows
  {
    MatchingEverything(rows);
    PagesCoverHistory(rows, None, None, limit, n);
  }

  // --------------------------------------------------- the history changes meanwhile

  lemma {:induction false} DescendingAppend(upper: seq<Row>, lower: seq<Row>)
    requires Descending(upper) && Descending(lower) && upper != []
    requires forall r :: r in lower ==> Below(r, EncodeCursor(upper[|upper| - 1]))
    ensures Descending(upper + lower)
  {
    assert forall j :: 0 <= j < |lower| ==> lower[j] in lower;
  }

  predicate InEvery(r: Row, histories: seq<seq<Row>>) {
    forall i :: 0 <= i < |histories| ==> r in histories[i]
  }

  predicate InSome(r: Row, histories: seq<seq<Row>>) {
    exists i :: 0 <= i < |histories| && r in histories[i]
  }

  /** No row twice or out of order; only rows that were there; and, once complete, every
      row that was there all along. */
  ghost predicate Faithful(loaded: Loaded, histories: seq<seq<Row>>, cursor: Option<Cursor>, outcome: Option<bool>) {
    && Descending(loaded.checks)
    && (forall r :: r in loaded.checks ==> Shown(r, cursor, outcome) && InSome(r, histories))
    && (loaded.complete ==> forall r :: InEvery(r, histories) && Shown(r, cursor, outcome) ==> r in loaded.checks)
  }

  /** Whatever is added to or pruned from the history between two pages. */
  lemma {:induction false} LoadSurvivesChanges(histories: seq<seq<Row>>, cursor: Option<Cursor>, outcome: Option<bool>, limit: nat)
    requires limit >= 1
    requires forall i :: 0 <= i < |histories| ==> Descending(histories[i])
    ensures Faithful(Load(histories, cursor, outcome, limit), histories, cursor, outcome)
  {
    if histories == [] {
    } else {
      var all := Matching(histories[0], cursor, outcome);
      MatchingMembers(histories[0], cursor, outcome);
      MatchingDescends(histories[0], cursor, outcome);
      if |all| > limit {
        var next := Some(EncodeCursor(all[limit - 1]));
        LoadSurvivesChanges(histories[1..], next, outcome, limit);
        PageThenRest(histories, cursor, outcome, limit, Load(histories[1..], next, outcome, limit));
      }
    }
  }

  lemma {:induction false} PageThenRest(histories: seq<seq<Row>>, cursor: Option<Cursor>, outcome: Option<bool>, limit: nat,
                                        rest: Loaded)
    requires limit >= 1 && histories != [] && Descending(histories[0])
    requires |Matching(histories[0], cursor, outcome)| > limit
    requires Faithful(rest, histories[1..], Some(EncodeCursor(Matching(histories[0], cursor, outcome)[limit - 1])), outcome)
    ensures Faithful(Prepend(Matching(histories[0], cursor, outcome)[..limit], rest), histories, cursor, outcome)
  {
    var all := Matching(histories[0], cursor, outcome);
    var page, last := all[..limit], all[limit - 1];
    MatchingMembers(histories[0], cursor, outcome);
    MatchingDescends(histories[0], cursor, outcome);
    assert last in all && page[limit - 1] == last;
    DescendingAppend(page, rest.checks);
    forall r | r in page + rest.checks
      ensures Shown(r, cursor, outcome) && InSome(r, histories)
    {
      if r in page {
        assert r in all && r in histories[0];
      } else {
        var i :| 0 <= i < |histories[1..]| && r in histories[1..][i];
        assert r in histories[i + 1];
      }
    }
    forall r | InEvery(r, histories) && Shown(r, cursor, outcome) && rest.complete
      ensures r in page + rest.checks
    {
      assert r in histories[0];
      var k :| 0 <= k < |all| && all[k] == r;
      if k >= limit {
        assert Below(all[k], EncodeCursor(last));
        assert forall i :: 0 <= i < |histories[1..]| ==> histories[1..][i] == histories[i + 1];
      } else {
        assert page[k] == r;
      }
    }
  }
}
