/** Worker names: the sanitised host name, the identity of a process, and the name of each of
    its workers. The claim protocol relies on these names being distinct. */
module WorkerIdentity {
  import opened Prelude
  import opened Decimal
  import opened Whitespace

  predicate IsAlphanumeric(c: char) { '0' <= c <= '9' || 'a' <= c <= 'z' || 'A' <= c <= 'Z' }

  function Lower(c: char): char { if 'A' <= c <= 'Z' then (c as int - 'A' as int + 'a' as int) as char else c }

  // -------------------------------------------------------------- sanitising

  function TrimDashes(s: string): string
    decreases |s|
  {
    if s != "" && s[0] == '-' then TrimDashes(s[1..])
    else if s != "" && s[|s| - 1] == '-' then TrimDashes(s[..|s| - 1])
    else s
  }

  /** The loop: alphanumerics in lower case, one dash for each run of anything else. */
  function Scan(value: string, lastWasSeparator: bool): string {
    if value == "" then ""
    else if IsAlphanumeric(value[0]) then [Lower(value[0])] + Scan(value[1..], false)
    else if lastWasSeparator then Scan(value[1..], true)
    else "-" + Scan(value[1..], true)
  }

  method SanitizeWorkerIdComponent(value: string) returns (result: string)
    ensures result == Join(Words(value))
  {
    var sanitized, lastWasSeparator := "", false;
    for i := 0 to |value|
      invariant Scan(value, false) == sanitized + Scan(value[i..], lastWasSeparator)
    {
      ghost var rest := value[i..];
      assert rest[0] == value[i] && rest[1..] == value[i + 1..];
      if IsAlphanumeric(value[i]) {
        assert sanitized + ([Lower(value[i])] + Scan(rest[1..], false)) == sanitized + [Lower(value[i])] + Scan(rest[1..], false);
        sanitized, lastWasSeparator := sanitized + [Lower(value[i])], false;
      } else if !lastWasSeparator {
        assert sanitized + ("-" + Scan(rest[1..], true)) == sanitized + "-" + Scan(rest[1..], true);
        sanitized, lastWasSeparator := sanitized + "-", true;
      }
    }
    assert value[|value|..] == "" && sanitized + "" == sanitized;
    ScanIsWords(value);
    return TrimDashes(sanitized);
  }

  // ------------------------------------------------- what is left: the words

  /** The run of alphanumerics at the front. */
  function Run(s: string): (r: string)
    ensures r <= s && (forall i :: 0 <= i < |r| ==> IsAlphanumeric(r[i]))
    ensures |r| < |s| ==> !IsAlphanumeric(s[|r|])
  {
    if s != "" && IsAlphanumeric(s[0]) then [s[0]] + Run(s[1..]) else ""
  }

  function Lowered(s: string): (r: string)
    ensures |r| == |s| && forall i :: 0 <= i < |s| ==> r[i] == Lower(s[i])
  {
    seq(|s|, i requires 0 <= i < |s| => Lower(s[i]))
  }

  /** The maximal runs of alphanumerics, in lower case. */
  function Words(s: string): seq<string>
    decreases |s|
  {
    if s == "" then []
    else if !IsAlphanumeric(s[0]) then Words(s[1..])
    else [Lowered(Run(s))] + Words(s[|Run(s)|..])
  }

  function Join(words: seq<string>): string {
    if words == [] then "" else if |words| == 1 then words[0] else words[0] + ("-" + Join(words[1..]))
  }

  predicate IsWord(w: string) { w != "" && forall i :: 0 <= i < |w| ==> '0' <= w[i] <= '9' || 'a' <= w[i] <= 'z' }

  lemma {:induction false} WordsAreWords(s: string)
    ensures forall i :: 0 <= i < |Words(s)| ==> IsWord(Words(s)[i])
    decreases |s|
  {
    if s == "" {
    } else {
      WordsAreWords(if IsAlphanumeric(s[0]) then s[|Run(s)|..] else s[1..]);
    }
  }

  lemma {:induction false} ScanOfRun(s: string, separated: bool)
    requires s != "" && IsAlphanumeric(s[0])
    ensures Scan(s, separated) == Lowered(Run(s)) + Scan(s[|Run(s)|..], false)
    decreases |s|
  {
    var run, rest := Run(s), s[1..];
    assert Lowered(run) == [Lower(s[0])] + Lowered(Run(rest));
    if rest != "" && IsAlphanumeric(rest[0]) {
      ScanOfRun(rest, false);
      assert rest[|Run(rest)|..] == s[|run|..];
      assert Lowered(run) + Scan(s[|run|..], false) == [Lower(s[0])] + (Lowered(Run(rest)) + Scan(s[|run|..], false));
    } else {
      assert Run(rest) == "" && s[|run|..] == rest;
    }
  }

  /** A dash is left behind the words if the text does not end with one of them. */
  function Trailer(s: string): string {
    if Words(s) != [] && !IsAlphanumeric(s[|s| - 1]) then "-" else ""
  }

  lemma {:induction false} NoWords(s: string)
    requires Words(s) == []
    ensures forall i :: 0 <= i < |s| ==> !IsAlphanumeric(s[i])
  {
    if s == "" {
    } else {
      NoWords(s[1..]);
    }
  }

  lemma {:induction false} WordAlone(s: string, word: string, rest: string)
    requires s != "" && rest != "" && rest[|rest| - 1] == s[|s| - 1]
    requires Words(s) == [word] && Words(rest) == []
    ensures word + ("-" + (Join(Words(rest)) + Trailer(rest))) == Join(Words(s)) + Trailer(s)
  {
    NoWords(rest);
    assert Trailer(s) == "-" && Join(Words(s)) == word;
    assert "-" + ("" + "") == "-";
  }

  lemma {:induction false} WordAndMore(s: string, word: string, rest: string)
    requires s != "" && rest != "" && rest[|rest| - 1] == s[|s| - 1]
    requires Words(s) == [word] + Words(rest) && Words(rest) != []
    ensures word + ("-" + (Join(Words(rest)) + Trailer(rest))) == Join(Words(s)) + Trailer(s)
  {
    JoinMore(word, Words(rest));
    FourTexts(word, "-", Join(Words(rest)), Trailer(rest));
  }

  lemma {:induction false} FourTexts(a: string, b: string, c: string, d: string)
    ensures a + (b + (c + d)) == (a + (b + c)) + d
  {
  }

  lemma {:induction false} WordThenRest(s: string, word: string, rest: string)
    requires s != "" && rest != "" && rest[|rest| - 1] == s[|s| - 1]
    requires Words(s) == [word] + Words(rest)
    ensures word + ("-" + (Join(Words(rest)) + Trailer(rest))) == Join(Words(s)) + Trailer(s)
  {
    if Words(rest) == [] {
      assert [word] + [] == [word];
      WordAlone(s, word, rest);
    } else {
      WordAndMore(s, word, rest);
    }
  }

  lemma {:induction false} ScanAfterSeparator(s: string)
    ensures Scan(s, true) == Join(Words(s)) + Trailer(s)
    decreases |s|
  {
    if s == "" {
    } else if !IsAlphanumeric(s[0]) {
      ScanAfterSeparator(s[1..]);
    } else {
      var word, rest := Lowered(Run(s)), s[|Run(s)|..];
      ScanOfRun(s, true);
      if rest == "" {
        assert s[|s| - 1] == Run(s)[|s| - 1];
      } else {
        assert Scan(rest, false) == "-" + Scan(rest, true);
        ScanAfterSeparator(rest);
        WordThenRest(s, word, rest);
      }
    }
  }

  lemma {:induction false} JoinEnds(words: seq<string>)
    requires words != [] && forall i :: 0 <= i < |words| ==> IsWord(words[i])
    ensures Join(words) != "" && Join(words)[0] != '-' && Join(words)[|Join(words)| - 1] != '-'
  {
    if |words| > 1 {
      JoinEnds(words[1..]);
    }
  }

  lemma {:induction false} TrimAround(middle: string, left: string, right: string)
    requires middle == "" || (middle[0] != '-' && middle[|middle| - 1] != '-')
    requires left in ["", "-"] && right in ["", "-"]
    ensures TrimDashes(left + middle + right) == middle
  {
    var s := left + middle + right;
    var t := middle + right;
    if left == "-" {
      assert s[1..] == t;
    } else {
      assert s == t;
    }
    if right == "-" {
      assert t[..|t| - 1] == middle;
      assert TrimDashes(t) == middle by {
        if middle == "" { assert t == "-" && t[1..] == ""; }
      }
    } else {
      assert t == middle;
    }
  }

  /** A separator at the front leaves a dash of its own. */
  function Leader(s: string): string { if s != "" && !IsAlphanumeric(s[0]) then "-" else "" }

  lemma {:induction false} ScanFromStart(value: string)
    ensures Scan(value, false) == Leader(value) + Scan(value, true)
  {
    assert "" + Scan(value, true) == Scan(value, true);
  }

  lemma {:induction false} ScanIsWords(value: string)
    ensures TrimDashes(Scan(value, false)) == Join(Words(value))
  {
    var words := Words(value);
    ScanFromStart(value);
    ScanAfterSeparator(value);
    WordsAreWords(value);
    if words != [] {
      JoinEnds(words);
    }
    TrimAround(Join(words), Leader(value), Trailer(value));
    assert Leader(value) + (Join(words) + Trailer(value)) == Leader(value) + Join(words) + Trailer(value);
  }

  /** Lower-case letters, digits and single dashes, none at either end. */
  predicate Clean(s: string) {
    && (forall i :: 0 <= i < |s| ==> '0' <= s[i] <= '9' || 'a' <= s[i] <= 'z' || s[i] == '-')
    && (forall i :: 0 <= i < |s| - 1 ==> !(s[i] == '-' && s[i + 1] == '-'))
    && (s != "" ==> s[0] != '-' && s[|s| - 1] != '-')
  }

  lemma {:induction false} JoinIsClean(words: seq<string>)
    requires forall i :: 0 <= i < |words| ==> IsWord(words[i])
    ensures Clean(Join(words))
  {
    if |words| > 1 {
      JoinIsClean(words[1..]);
      JoinEnds(words[1..]);
    }
  }

  lemma {:induction false} CleanRun(s: string)
    requires Clean(s) && s != ""
    ensures Run(s) != "" && Lowered(Run(s)) == Run(s)
    ensures |Run(s)| < |s| ==> s[|Run(s)|] == '-' && s[|Run(s)| + 1..] != "" && Clean(s[|Run(s)| + 1..])
  {
    var n := |Run(s)|;
    if n < |s| {
      var rest := s[n + 1..];
      assert forall i :: 0 <= i < |rest| ==> rest[i] == s[n + 1 + i];
    }
  }

  lemma {:induction false} WordsOfRun(s: string)
    requires s != "" && IsAlphanumeric(s[0]) && |Run(s)| < |s|
    ensures Words(s) == [Lowered(Run(s))] + Words(s[|Run(s)| + 1..])
  {
    assert s[|Run(s)|..][1..] == s[|Run(s)| + 1..];
  }

  lemma {:induction false} JoinMore(word: string, words: seq<string>)
    requires words != []
    ensures Join([word] + words) == word + ("-" + Join(words))
  {
    assert ([word] + words)[1..] == words;
  }

  lemma {:induction false} CleanStays(s: string)
    requires Clean(s)
    ensures Join(Words(s)) == s
    decreases |s|
  {
    if s == "" {
    } else {
      CleanRun(s);
      if |Run(s)| == |s| {
        assert s[|Run(s)|..] == "" && Run(s) == s;
        assert Words(s) == [s];
      } else {
        CleanStays(s[|Run(s)| + 1..]);
        CleanStep(s, s[|Run(s)| + 1..]);
      }
    }
  }

  lemma {:induction false} CleanStep(s: string, rest: string)
    requires s != "" && Run(s) != "" && |Run(s)| < |s| && s[|Run(s)|] == '-' && rest == s[|Run(s)| + 1..]
    requires Lowered(Run(s)) == Run(s) && rest != "" && Join(Words(rest)) == rest
    ensures Join(Words(s)) == s
  {
    WordsOfRun(s);
    JoinMore(Run(s), Words(rest));
    assert s == Run(s) + ("-" + rest);
  }

  /** Sanitising yields clean text, leaves exactly the clean texts alone, and so doing it
      twice changes nothing more. */
  lemma {:induction false} SanitizingCleans(value: string)
    ensures Clean(Join(Words(value)))
    ensures Join(Words(value)) == value <==> Clean(value)
    ensures Join(Words(Join(Words(value)))) == Join(Words(value))
  {
    WordsAreWords(value);
    JoinIsClean(Words(value));
    CleanStays(Join(Words(value)));
    if Clean(value) {
      CleanStays(value);
    }
  }

  lemma {:induction false} RunBeforeSeparator(a: string, c: char, b: string)
    requires a != "" && !IsAlphanumeric(c)
    ensures Run(a + ([c] + b)) == Run(a)
  {
    var s := a + ([c] + b);
    assert s[1..] == a[1..] + ([c] + b);
    if |a| > 1 {
      RunBeforeSeparator(a[1..], c, b);
    } else {
      assert s[1..][0] == c && a[1..] == "";
    }
  }

  lemma {:induction false} WordsSplit(a: string, c: char, b: string)
    requires !IsAlphanumeric(c)
    ensures Words(a + ([c] + b)) == Words(a) + Words(b)
    decreases |a|
  {
    var s := a + ([c] + b);
    if a == "" {
      assert s == [c] + b && s[1..] == b;
    } else {
      var n := if IsAlphanumeric(a[0]) then |Run(a)| else 1;
      RunBeforeSeparator(a, c, b);
      assert s[n..] == a[n..] + ([c] + b);
      WordsSplit(a[n..], c, b);
    }
  }

  lemma {:induction false} JoinBoth(first: seq<string>, second: seq<string>)
    requires first != [] && second != []
    ensures Join(first + second) == Join(first) + ("-" + Join(second))
  {
    if |first| == 1 {
      JoinMore(first[0], second);
      assert first + second == [first[0]] + second;
    } else {
      JoinBoth(first[1..], second);
      JoinMore(first[0], first[1..] + second);
      assert first + second == [first[0]] + (first[1..] + second);
      FourTexts(first[0], "-", Join(first[1..]), "-" + Join(second));
    }
  }

  lemma {:induction false} NothingJoined(words: seq<string>)
    requires forall i :: 0 <= i < |words| ==> IsWord(words[i])
    ensures Join(words) == "" <==> words == []
  {
    if words != [] {
      JoinEnds(words);
    }
  }

  /** Letters and digits keep their order and their neighbours, in lower case, and whatever
      else stands between two of them turns into one dash. */
  lemma {:induction false} SanitizingSplits(a: string, c: char, b: string)
    ensures !IsAlphanumeric(c) ==>
      Join(Words(a + ([c] + b)))
        == if Join(Words(a)) == "" then Join(Words(b))
           else if Join(Words(b)) == "" then Join(Words(a))
           else Join(Words(a)) + ("-" + Join(Words(b)))
    ensures (forall i :: 0 <= i < |a| ==> IsAlphanumeric(a[i])) ==> Join(Words(a)) == Lowered(a)
  {
    if !IsAlphanumeric(c) {
      WordsSplit(a, c, b);
      WordsAreWords(a);
      WordsAreWords(b);
      NothingJoined(Words(a));
      NothingJoined(Words(b));
      if Words(a) == [] {
        assert [] + Words(b) == Words(b);
      } else if Words(b) == [] {
        assert Words(a) + [] == Words(a);
      } else {
        JoinBoth(Words(a), Words(b));
      }
    }
    if a != "" && forall i :: 0 <= i < |a| ==> IsAlphanumeric(a[i]) {
      assert Run(a) == a && a[|a|..] == "";
      assert Words(a) == [Lowered(a)];
    }
  }

  // ------------------------------------------------------------------- names

  function BuildWorkerId(workerIndex: nat, identity: string): string {
    "site-worker-" + (Numeral(workerIndex) + ("-" + identity))
  }

  /** Digits in front of a dash can be told from what follows it. */
  lemma {:induction false} DigitsBeforeDash(a: string, x: string, b: string, y: string)
    requires AllDigits(a) && AllDigits(b) && a + ("-" + x) == b + ("-" + y)
    ensures a == b && x == y
  {
    RunsSplit(IsDigit, a, "-" + x, b, "-" + y);
    assert x == ("-" + x)[1..] == ("-" + y)[1..] == y;
  }

  /** For every two identities whatever: the same name means the same worker. */
  lemma {:induction false} WorkerIdIsInjective(i: nat, x: string, j: nat, y: string)
    ensures BuildWorkerId(i, x) == BuildWorkerId(j, y) <==> i == j && x == y
  {
    if BuildWorkerId(i, x) == BuildWorkerId(j, y) {
      var prefix := "site-worker-";
      var a, b := Numeral(i) + ("-" + x), Numeral(j) + ("-" + y);
      assert a == (prefix + a)[|prefix|..] == (prefix + b)[|prefix|..] == b;
      DigitsBeforeDash(Numeral(i), x, Numeral(j), y);
      NumeralIsInjective(i, j);
    }
  }

  function Power16(n: nat): nat { if n == 0 then 1 else 16 * Power16(n - 1) }

  function HexDigit(d: nat): char
    requires d < 16
  {
    "0123456789abcdef"[d]
  }

  /** Hexadecimal, padded with zeros to the width. */
  function Hex(n: nat, width: nat): (s: string)
    requires n < Power16(width)
    ensures |s| == width
  {
    if width == 0 then "" else Hex(n / 16, width - 1) + [HexDigit(n % 16)]
  }

  lemma {:induction false} HexDigitIsInjective(d: nat, e: nat)
    requires d < 16 && e < 16 && HexDigit(d) == HexDigit(e)
    ensures d == e
  {
  }

  lemma {:induction false} HexIsInjective(m: nat, n: nat, width: nat)
    requires m < Power16(width) && n < Power16(width) && Hex(m, width) == Hex(n, width)
    ensures m == n
  {
    if width == 0 {
    } else {
      var s, t := Hex(m / 16, width - 1), Hex(n / 16, width - 1);
      SplitAtEnd(s, [HexDigit(m % 16)], t, [HexDigit(n % 16)]);
      HexIsInjective(m / 16, n / 16, width - 1);
      HexDigitIsInjective(m % 16, n % 16);
    }
  }

  /** The first host variable that is set and not blank. */
  function DetectHostname(hostname: Option<string>, computerName: Option<string>): Option<string> {
    if hostname.Some? && Trim(hostname.value) != "" then hostname
    else if computerName.Some? && Trim(computerName.value) != "" then computerName
    else None
  }

  /** Of the two variables the first that is set and not blank counts, if there is one. */
  lemma {:induction false} FirstNameCounts(hostname: Option<string>, computerName: Option<string>)
    ensures var detected := DetectHostname(hostname, computerName);
      var first, second := hostname.Some? && !Blank(hostname.value), computerName.Some? && !Blank(computerName.value);
      detected == if first then hostname else if second then computerName else None
  {
    if hostname.Some? {
      TrimmedAway(hostname.value);
    }
    if computerName.Some? {
      TrimmedAway(computerName.value);
    }
  }

  function HostPart(detected: Option<string>): string {
    if detected.None? || Join(Words(detected.value)) == "" then "unknown-host" else Join(Words(detected.value))
  }

  function ProcessIdentity(detected: Option<string>, pid: nat, random: nat): string
    requires random < Power16(16)
  {
    HostPart(detected) + ("-" + (Numeral(pid) + ("-" + Hex(random, 16))))
  }

  method BuildWorkerProcessIdentity(hostname: Option<string>, computerName: Option<string>, pid: nat, random: nat)
      returns (identity: string)
    requires random < Power16(16)
    ensures identity == ProcessIdentity(DetectHostname(hostname, computerName), pid, random)
  {
    var detected := DetectHostname(hostname, computerName);
    var host := "";
    if detected.Some? {
      host := SanitizeWorkerIdComponent(detected.value);
    }
    if host == "" {
      host := "unknown-host";
    }
    return host + ("-" + (Numeral(pid) + ("-" + Hex(random, 16))));
  }

  /** Digits behind the last dash can be told from what precedes it. */
  lemma {:induction false} DigitsAfterDash(x: string, a: string, y: string, b: string)
    requires AllDigits(a) && AllDigits(b) && x + ("-" + a) == y + ("-" + b)
    ensures a == b && x == y
  {
    var s, t := x + ("-" + a), y + ("-" + b);
    assert s[|x|] == '-' && t[|y|] == '-';
    assert forall i :: 0 <= i < |a| ==> s[|x| + 1 + i] == a[i];
    assert forall i :: 0 <= i < |b| ==> t[|y| + 1 + i] == b[i];
    assert |x| == |y|;
    assert x == s[..|x|] == t[..|y|] == y;
    assert a == s[|x| + 1..] == t[|y| + 1..] == b;
  }

  /** Two processes share an identity only if host part, process id and random number all
      agree; dashes and digits in host names cannot blur the parts. */
  lemma {:induction false} ProcessIdentityIsInjective(h: Option<string>, p: nat, r: nat, g: Option<string>, q: nat, s: nat)
    requires r < Power16(16) && s < Power16(16)
    ensures ProcessIdentity(h, p, r) == ProcessIdentity(g, q, s) <==> HostPart(h) == HostPart(g) && p == q && r == s
  {
    if ProcessIdentity(h, p, r) == ProcessIdentity(g, q, s) {
      PartsAreInjective(HostPart(h), Numeral(p), Hex(r, 16), HostPart(g), Numeral(q), Hex(s, 16));
      HexIsInjective(r, s, 16);
      NumeralIsInjective(p, q);
    }
  }

  lemma {:induction false} PartsAreInjective(x: string, a: string, u: string, y: string, b: string, v: string)
    requires AllDigits(a) && AllDigits(b) && |u| == |v|
    requires x + ("-" + (a + ("-" + u))) == y + ("-" + (b + ("-" + v)))
    ensures x == y && a == b && u == v
  {
    Regroup(x, a, u);
    Regroup(y, b, v);
    SplitAtEnd(x + ("-" + a), "-" + u, y + ("-" + b), "-" + v);
    SplitAtEnd("-", u, "-", v);
    DigitsAfterDash(x, a, y, b);
  }

  lemma {:induction false} Regroup(x: string, a: string, u: string)
    ensures x + ("-" + (a + ("-" + u))) == (x + ("-" + a)) + ("-" + u)
  {
  }

  lemma {:induction false} SplitAtEnd(x: string, a: string, y: string, b: string)
    requires |a| == |b| && x + a == y + b
    ensures x == y && a == b
  {
    assert x == (x + a)[..|x|] && a == (x + a)[|x|..];
    assert y == (y + b)[..|y|] && b == (y + b)[|y|..];
  }
}
