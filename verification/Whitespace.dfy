/** Trimming, as Rust's standard strings do it. */
module Whitespace {

  /** Unicode White_Space. */
  predicate IsWhitespace(c: char) {
    || '\U{9}' <= c <= '\U{D}' || c == ' ' || c == '\U{85}' || c == '\U{A0}' || c == '\U{1680}'
    || '\U{2000}' <= c <= '\U{200A}' || c == '\U{2028}' || c == '\U{2029}' || c == '\U{202F}'
    || c == '\U{205F}' || c == '\U{3000}'
  }

  function Trim(s: string): (r: string)
    ensures r != "" ==> !IsWhitespace(r[0]) && !IsWhitespace(r[|r| - 1])
    ensures (s == "" || (!IsWhitespace(s[0]) && !IsWhitespace(s[|s| - 1]))) ==> r == s
    decreases |s|
  {
    if s == "" then s
    else if IsWhitespace(s[0]) then Trim(s[1..])
    else if IsWhitespace(s[|s| - 1]) then Trim(s[..|s| - 1])
    else s
  }

  predicate Blank(s: string) { forall i :: 0 <= i < |s| ==> IsWhitespace(s[i]) }

  predicate Around(s: string, front: string, middle: string, back: string) {
    s == front + middle + back && Blank(front) && Blank(back)
  }

  lemma {:induction false} MoreInFront(s: string, front: string, middle: string, back: string)
    requires s != "" && IsWhitespace(s[0]) && Around(s[1..], front, middle, back)
    ensures Around(s, [s[0]] + front, middle, back)
  {
  }

  lemma {:induction false} MoreBehind(s: string, front: string, middle: string, back: string)
    requires s != "" && IsWhitespace(s[|s| - 1]) && Around(s[..|s| - 1], front, middle, back)
    ensures Around(s, front, middle, back + [s[|s| - 1]])
  {
    assert s == s[..|s| - 1] + [s[|s| - 1]];
  }

  /** Trimming takes whitespace off the two ends, and nothing else. */
  lemma {:induction false} TrimTakesWhitespace(s: string) returns (front: string, back: string)
    ensures Around(s, front, Trim(s), back)
    decreases |s|
  {
    front, back := "", "";
    if s == "" {
    } else if IsWhitespace(s[0]) {
      front, back := TrimTakesWhitespace(s[1..]);
      MoreInFront(s, front, Trim(s), back);
      front := [s[0]] + front;
    } else if IsWhitespace(s[|s| - 1]) {
      front, back := TrimTakesWhitespace(s[..|s| - 1]);
      MoreBehind(s, front, Trim(s), back);
      back := back + [s[|s| - 1]];
    } else {
      assert "" + s + "" == s;
    }
  }

  lemma {:induction false} TrimmedAway(s: string)
    ensures Trim(s) == "" <==> Blank(s)
  {
    var front, back := TrimTakesWhitespace(s);
    if Trim(s) != "" {
      assert s[|front|] == Trim(s)[0];
    }
  }
}
