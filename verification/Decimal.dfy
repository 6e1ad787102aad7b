/** Unsigned decimal numerals. */
module Decimal {

  predicate IsDigit(c: char) { '0' <= c <= '9' }

  predicate AllDigits(s: string) { forall i :: 0 <= i < |s| ==> IsDigit(s[i]) }

  function Value(s: string): nat
    requires AllDigits(s)
  {
    if s == "" then 0 else 10 * Value(s[..|s| - 1]) + (s[|s| - 1] as nat - '0' as nat)
  }

  /** The usual spelling of a number, without leading zeros. */
  function Numeral(n: nat): (s: string)
    ensures s != "" && AllDigits(s) && Value(s) == n
  {
    var digit := ('0' as nat + n % 10) as char;
    if n < 10 then [digit]
    else
      assert (Numeral(n / 10) + [digit])[..|Numeral(n / 10)|] == Numeral(n / 10);
      Numeral(n / 10) + [digit]
  }

  lemma NumeralIsInjective(a: nat, b: nat)
    requires Numeral(a) == Numeral(b)
    ensures a == b
  {
    assert Value(Numeral(a)) == Value(Numeral(b));
  }

  /** A run of characters of one class can be told from a text that starts with another. */
  lemma {:induction false} RunsSplit(inRun: char -> bool, a: string, x: string, b: string, y: string)
    requires forall i :: 0 <= i < |a| ==> inRun(a[i])
    requires forall i :: 0 <= i < |b| ==> inRun(b[i])
    requires (x != "" ==> !inRun(x[0])) && (y != "" ==> !inRun(y[0]))
    requires a + x == b + y
    ensures a == b && x == y
  {
    var s, t := a + x, b + y;
    assert forall i :: 0 <= i < |a| ==> s[i] == a[i];
    assert forall i :: 0 <= i < |b| ==> t[i] == b[i];
    assert x != "" ==> s[|a|] == x[0];
    assert y != "" ==> t[|b|] == y[0];
    assert |a| == |b|;
    assert a == s[..|a|] == t[..|b|] == b;
    assert x == s[|a|..] == t[|b|..] == y;
  }
}
