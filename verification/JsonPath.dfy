/** The path language of the JSON assertions: its parser, the exact set of spellings it
    accepts, and the resolver. */
module JsonPath {
  import opened Prelude
  import opened Decimal
  import opened Whitespace

  const USIZE_MAX: nat := 0xFFFF_FFFF_FFFF_FFFF

  datatype Token = Field(name: string) | Index(index: nat)

  datatype PathError = Blank | Invalid

  type Parsed = Result<seq<Token>, PathError>

  // ----------------------------------------------------------------- parser

  function Flush(tokens: seq<Token>, field: string): seq<Token> {
    if field == "" then tokens else tokens + [Field(field)]
  }

  function DigitRun(s: string): (r: string)
    ensures r <= s && AllDigits(r)
    ensures |r| < |s| ==> !IsDigit(s[|r|])
  {
    if s != "" && IsDigit(s[0]) then [s[0]] + DigitRun(s[1..]) else ""
  }

  /** The index between brackets, and what follows it; None if malformed or too large. */
  function ParseIndex(s: string): Option<(nat, string)> {
    var digits := DigitRun(s);
    if digits == "" || |digits| == |s| || s[|digits|] != ']' || Value(digits) > USIZE_MAX then None
    else Some((Value(digits), s[|digits| + 1..]))
  }

  /** The parser's loop: the rest of the text, and the three variables it updates. */
  function ParseFrom(rest: string, tokens: seq<Token>, field: string, justClosedIndex: bool): Parsed
    decreases |rest|
  {
    if rest == "" then
      if Flush(tokens, field) == [] then Err(Invalid) else Ok(Flush(tokens, field))
    else if rest[0] == '.' then
      if field != "" || justClosedIndex then ParseFrom(rest[1..], Flush(tokens, field), "", false) else Err(Invalid)
    else if rest[0] == '[' then
      match ParseIndex(rest[1..])
      case None => Err(Invalid)
      case Some((index, after)) => ParseFrom(after, Flush(tokens, field) + [Index(index)], "", true)
    else ParseFrom(rest[1..], tokens, field + [rest[0]], false)
  }

  /** Drops the root marker: '$', and one dot right after it. */
  function WithoutRoot(s: string): string {
    if s == "" || s[0] != '$' then s
    else if |s| > 1 && s[1] == '.' then s[2..]
    else s[1..]
  }

  function Parse(path: string): Parsed {
    var trimmed := Trim(path);
    if trimmed == "" then Err(Blank) else ParseFrom(WithoutRoot(trimmed), [], "", false)
  }

  /** A run of digits that cannot be extended is the run. */
  lemma {:induction false} MaximalRun(s: string, r: string)
    requires r <= s && AllDigits(r) && (|r| < |s| ==> !IsDigit(s[|r|]))
    ensures r == DigitRun(s)
  {
    var run := DigitRun(s);
    assert forall i :: 0 <= i < |run| ==> run[i] == s[i];
    assert forall i :: 0 <= i < |r| ==> r[i] == s[i];
  }

  /** The digits from a position on, pushed one by one. */
  method ReadDigits(text: string, start: nat) returns (digits: string)
    requires start <= |text|
    ensures digits == DigitRun(text[start..])
  {
    digits := "";
    var i := start;
    while i < |text| && IsDigit(text[i])
      invariant start <= i <= |text| && |digits| == i - start
      invariant forall k :: 0 <= k < |digits| ==> digits[k] == text[start + k] && IsDigit(digits[k])
    {
      digits := digits + [text[i]];
      i := i + 1;
    }
    MaximalRun(text[start..], digits);
  }

  /** Reads an index from just after its bracket, and where the text goes on. */
  method ReadIndex(text: string, start: nat) returns (read: Option<(nat, nat)>)
    requires start <= |text|
    ensures match ParseIndex(text[start..])
      case None => read == None
      case Some((index, after)) =>
        read.Some? && read.value.0 == index && start < read.value.1 <= |text| && text[read.value.1..] == after
  {
    var digits := ReadDigits(text, start);
    var i := start + |digits|;
    if i == |text| {
      return None;
    }
    assert text[start..][|digits|] == text[i] && text[start..][|digits| + 1..] == text[i + 1..];
    if text[i] != ']' || digits == "" || Value(digits) > USIZE_MAX {
      return None;
    }
    return Some((Value(digits), i + 1));
  }

  method ParseJsonPath(path: string) returns (result: Parsed)
    ensures result == Parse(path)
  {
    var trimmed := Trim(path);
    if trimmed == "" {
      return Err(Blank);
    }
    var i := 0;
    if trimmed[0] == '$' {
      i := if |trimmed| > 1 && trimmed[1] == '.' then 2 else 1;
    }
    assert trimmed[i..] == WithoutRoot(trimmed);
    var tokens: seq<Token> := [];
    var currentField, justClosedIndex := "", false;
    while i < |trimmed|
      invariant 0 <= i <= |trimmed|
      invariant Parse(path) == ParseFrom(trimmed[i..], tokens, currentField, justClosedIndex)
      decreases |trimmed| - i
    {
      var c := trimmed[i];
      assert trimmed[i..][1..] == trimmed[i + 1..];
      i := i + 1;
      if c == '.' {
        if currentField != "" {
          tokens, currentField, justClosedIndex := tokens + [Field(currentField)], "", false;
        } else if justClosedIndex {
          justClosedIndex := false;
        } else {
          return Err(Invalid);
        }
      } else if c == '[' {
        var read := ReadIndex(trimmed, i);
        if read.None? {
          return Err(Invalid);
        }
        if currentField != "" {
          tokens, currentField := tokens + [Field(currentField)], "";
        }
        tokens, i, justClosedIndex := tokens + [Index(read.value.0)], read.value.1, true;
      } else {
        currentField, justClosedIndex := currentField + [c], false;
      }
    }
    if currentField != "" {
      tokens := tokens + [Field(currentField)];
    }
    return if tokens == [] then Err(Invalid) else Ok(tokens);
  }

  // -------------------------------------------------------------- spellings

  /** A token as written: a field, or an index with its digits, and maybe a dot after. */
  datatype Piece = FieldPiece(name: string, dot: bool) | IndexPiece(digits: string, dot: bool)

  predicate PlainField(name: string) {
    forall i :: 0 <= i < |name| ==> name[i] != '.' && name[i] != '['
  }

  predicate WellFormedPiece(p: Piece) {
    match p
    case FieldPiece(name, _) => name != "" && PlainField(name)
    case IndexPiece(digits, _) => digits != "" && AllDigits(digits) && Value(digits) <= USIZE_MAX
  }

  /** Two fields need a dot between them; everywhere else the dot is optional. */
  predicate WellFormed(pieces: seq<Piece>) {
    && (forall i :: 0 <= i < |pieces| ==> WellFormedPiece(pieces[i]))
    && (forall i :: 0 <= i < |pieces| - 1 && pieces[i].FieldPiece? && pieces[i + 1].FieldPiece? ==> pieces[i].dot)
  }

  function DotThen(dot: bool, rest: string): string { if dot then "." + rest else rest }

  /** A piece written in front of the rest of the text. */
  function Write(p: Piece, rest: string): string {
    match p
    case FieldPiece(name, dot) => name + DotThen(dot, rest)
    case IndexPiece(digits, dot) => "[" + (digits + ("]" + DotThen(dot, rest)))
  }

  function Text(pieces: seq<Piece>): string {
    if pieces == [] then "" else Write(pieces[0], Text(pieces[1..]))
  }

  function PieceToken(p: Piece): Token
    requires WellFormedPiece(p)
  {
    match p
    case FieldPiece(name, _) => Field(name)
    case IndexPiece(digits, _) => Index(Value(digits))
  }

  function Tokens(pieces: seq<Piece>): seq<Token>
    requires WellFormed(pieces)
  {
    if pieces == [] then [] else [PieceToken(pieces[0])] + Tokens(pieces[1..])
  }

  /** No root marker, '$', or '$' and a dot; a text without marker must not look as if it
      had one. */
  predicate Root(root: string, text: string) {
    (root == "" && (text == "" || text[0] != '$')) || root == "$" || root == "$."
  }

  /** The trimmed text spells these tokens. */
  ghost predicate Spells(text: string, tokens: seq<Token>) {
    exists root, pieces {:trigger Root(root, Text(pieces))} :: WellFormed(pieces) && pieces != []
      && Root(root, Text(pieces)) && text == root + Text(pieces) && Tokens(pieces) == tokens
  }

  // ------------------------------------------------------ every spelling parses

  lemma {:induction false} FieldIsRead(name: string, rest: string, tokens: seq<Token>, field: string, closed: bool)
    requires name != "" && PlainField(name)
    ensures ParseFrom(name + rest, tokens, field, closed) == ParseFrom(rest, tokens, field + name, false)
    decreases |name|
  {
    assert (name + rest)[1..] == name[1..] + rest;
    if |name| > 1 {
      FieldIsRead(name[1..], rest, tokens, field + [name[0]], false);
      assert field + [name[0]] + name[1..] == field + name;
    } else {
      assert name == [name[0]];
      assert (name + rest)[1..] == rest;
    }
  }

  lemma {:induction false} DigitsAreRead(digits: string, rest: string)
    requires AllDigits(digits) && (rest == "" || !IsDigit(rest[0]))
    ensures DigitRun(digits + rest) == digits
  {
    if digits != "" {
      assert (digits + rest)[1..] == digits[1..] + rest;
      DigitsAreRead(digits[1..], rest);
    } else {
      assert digits + rest == rest;
    }
  }

  lemma {:induction false} IndexIsRead(digits: string, rest: string, tokens: seq<Token>, field: string, closed: bool)
    requires digits != "" && AllDigits(digits) && Value(digits) <= USIZE_MAX
    ensures ParseFrom("[" + (digits + ("]" + rest)), tokens, field, closed)
            == ParseFrom(rest, Flush(tokens, field) + [Index(Value(digits))], "", true)
  {
    var inner := digits + ("]" + rest);
    assert ("[" + inner)[1..] == inner;
    DigitsAreRead(digits, "]" + rest);
    assert inner[|digits|] == ']' && inner[|digits| + 1..] == rest;
  }

  lemma {:induction false} TextStart(pieces: seq<Piece>)
    requires WellFormed(pieces) && pieces != []
    ensures Text(pieces) != "" && Text(pieces)[0] != '.'
    ensures pieces[0].IndexPiece? ==> Text(pieces)[0] == '['
  {
  }

  /** What may follow a piece: never a dot; and after a field without one, no field. */
  predicate MayFollow(p: Piece, rest: string) {
    rest == "" || (rest[0] != '.' && (p.FieldPiece? && !p.dot ==> rest[0] == '['))
  }

  /** Before text that does not start with a dot, these parser states agree. */
  lemma {:induction false} PendingIsFlushed(rest: string, tokens: seq<Token>, name: string, closed: bool)
    requires tokens != [] || name != ""
    requires rest == "" || rest[0] == '[' || (name == "" && rest[0] != '.')
    ensures ParseFrom(rest, tokens, name, closed) == ParseFrom(rest, Flush(tokens, name), "", false)
  {
  }

  lemma {:induction false} DotIsSkipped(rest: string, tokens: seq<Token>, name: string, closed: bool)
    requires name != "" || closed
    ensures ParseFrom("." + rest, tokens, name, closed) == ParseFrom(rest, Flush(tokens, name), "", false)
  {
    assert ("." + rest)[1..] == rest;
  }

  /** The parser after a piece, its dot not yet read. */
  lemma {:induction false} DotOrNot(p: Piece, rest: string, tokens: seq<Token>)
    requires WellFormedPiece(p) && MayFollow(p, rest)
    ensures p.FieldPiece? ==>
      ParseFrom(DotThen(p.dot, rest), tokens, p.name, false) == ParseFrom(rest, tokens + [PieceToken(p)], "", false)
    ensures p.IndexPiece? && tokens != [] ==>
      ParseFrom(DotThen(p.dot, rest), tokens, "", true) == ParseFrom(rest, tokens, "", false)
  {
    var name, closed := if p.FieldPiece? then p.name else "", p.IndexPiece?;
    if p.dot {
      DotIsSkipped(rest, tokens, name, closed);
    } else if p.FieldPiece? || tokens != [] {
      PendingIsFlushed(rest, tokens, name, closed);
    }
  }

  lemma {:induction false} PieceParses(p: Piece, rest: string, tokens: seq<Token>)
    requires WellFormedPiece(p) && MayFollow(p, rest)
    ensures ParseFrom(Write(p, rest), tokens, "", false) == ParseFrom(rest, tokens + [PieceToken(p)], "", false)
  {
    var tail := DotThen(p.dot, rest);
    match p {
      case FieldPiece(name, _) =>
        FieldIsRead(name, tail, tokens, "", false);
        assert "" + name == name;
        DotOrNot(p, rest, tokens);
      case IndexPiece(digits, _) =>
        IndexIsRead(digits, tail, tokens, "", false);
        DotOrNot(p, rest, tokens + [PieceToken(p)]);
    }
  }

  lemma {:induction false} FirstPiece(pieces: seq<Piece>)
    requires WellFormed(pieces) && pieces != []
    ensures WellFormed(pieces[1..]) && MayFollow(pieces[0], Text(pieces[1..]))
  {
    var others := pieces[1..];
    assert forall i :: 0 <= i < |others| ==> others[i] == pieces[i + 1];
    if others != [] {
      TextStart(others);
      assert others[0] == pieces[1];
    }
  }

  lemma {:induction false} FirstPieceParses(pieces: seq<Piece>, tokens: seq<Token>)
    requires WellFormed(pieces) && pieces != []
    ensures WellFormed(pieces[1..])
    ensures ParseFrom(Text(pieces), tokens, "", false)
            == ParseFrom(Text(pieces[1..]), tokens + [PieceToken(pieces[0])], "", false)
  {
    FirstPiece(pieces);
    PieceParses(pieces[0], Text(pieces[1..]), tokens);
  }

  lemma Append3(a: seq<Token>, b: Token, c: seq<Token>)
    ensures a + [b] + c == a + ([b] + c)
  {
  }

  lemma {:induction false} PiecesParse(pieces: seq<Piece>, tokens: seq<Token>)
    requires WellFormed(pieces) && (pieces != [] || tokens != [])
    ensures ParseFrom(Text(pieces), tokens, "", false) == Ok(tokens + Tokens(pieces))
    decreases |pieces|
  {
    if pieces == [] {
      assert tokens + [] == tokens;
    } else {
      FirstPieceParses(pieces, tokens);
      PiecesParse(pieces[1..], tokens + [PieceToken(pieces[0])]);
      Append3(tokens, PieceToken(pieces[0]), Tokens(pieces[1..]));
    }
  }

  // ------------------------------------------------- everything parsed is spelled

  /** One more piece in front. */
  lemma {:induction false} Prepend(p: Piece, others: seq<Piece>)
    requires WellFormedPiece(p) && WellFormed(others)
    requires p.FieldPiece? && !p.dot ==> others == [] || others[0].IndexPiece?
    ensures WellFormed([p] + others)
    ensures Text([p] + others) == Write(p, Text(others))
    ensures Tokens([p] + others) == [PieceToken(p)] + Tokens(others)
  {
    var all := [p] + others;
    assert all[1..] == others;
    assert forall i :: 0 <= i < |others| ==> all[i + 1] == others[i];
    assert forall i :: 1 <= i < |all| ==> all[i] == others[i - 1];
  }

  /** The bracketed index at the front of a text that parses. */
  lemma {:induction false} IndexText(rest: string, index: nat, after: string)
    requires ParseIndex(rest) == Some((index, after))
    ensures var digits := DigitRun(rest);
      && WellFormedPiece(IndexPiece(digits, false)) && Value(digits) == index
      && rest == digits + ("]" + after)
  {
    var n := |DigitRun(rest)|;
    assert rest == rest[..n] + ([rest[n]] + rest[n + 1..]);
  }

  /** These pieces account for the text from here to the end and for the tokens parsed
      from it. With a field under way they spell it together with the rest; after an
      index, a dot may come first. */
  ghost predicate ReadsBack(rest: string, tokens: seq<Token>, field: string, parsed: seq<Token>,
                            dot: bool, pieces: seq<Piece>)
  {
    && WellFormed(pieces) && (field != "" ==> pieces != [] && pieces[0].FieldPiece?)
    && (if field == "" then rest == DotThen(dot, Text(pieces)) else !dot && field + rest == Text(pieces))
    && parsed == tokens + Tokens(pieces)
  }

  lemma {:induction false} EndPieces(tokens: seq<Token>, field: string) returns (pieces: seq<Piece>)
    requires PlainField(field)
    ensures ReadsBack("", tokens, field, Flush(tokens, field), false, pieces)
  {
    pieces := [];
    if field != "" {
      Prepend(FieldPiece(field, false), []);
      pieces := [FieldPiece(field, false)] + [];
    }
    assert field + "" == field;
  }

  lemma {:induction false} DotPieces(rest: string, tokens: seq<Token>, field: string, parsed: seq<Token>, others: seq<Piece>)
      returns (pieces: seq<Piece>)
    requires PlainField(field) && rest != "" && rest[0] == '.'
    requires ReadsBack(rest[1..], Flush(tokens, field), "", parsed, false, others)
    ensures ReadsBack(rest, tokens, field, parsed, field == "", pieces)
  {
    assert rest == "." + rest[1..];
    pieces := others;
    if field != "" {
      Prepend(FieldPiece(field, true), others);
      pieces := [FieldPiece(field, true)] + others;
      Append3(tokens, Field(field), Tokens(others));
    }
  }

  lemma {:induction false} BracketPieces(rest: string, tokens: seq<Token>, field: string, parsed: seq<Token>,
                                         index: nat, after: string, d: bool, others: seq<Piece>)
      returns (pieces: seq<Piece>)
    requires PlainField(field) && rest != "" && rest[0] == '[' && ParseIndex(rest[1..]) == Some((index, after))
    requires ReadsBack(after, Flush(tokens, field) + [Index(index)], "", parsed, d, others)
    ensures ReadsBack(rest, tokens, field, parsed, false, pieces)
  {
    IndexText(rest[1..], index, after);
    assert rest == "[" + rest[1..];
    var bracket := IndexPiece(DigitRun(rest[1..]), d);
    Prepend(bracket, others);
    pieces := [bracket] + others;
    Append3(Flush(tokens, field), Index(index), Tokens(others));
    if field != "" {
      var inner := pieces;
      Prepend(FieldPiece(field, false), inner);
      pieces := [FieldPiece(field, false)] + inner;
      Append3(tokens, Field(field), Tokens(inner));
    }
  }

  lemma {:induction false} CharPieces(rest: string, tokens: seq<Token>, field: string, parsed: seq<Token>, pieces: seq<Piece>)
    requires rest != "" && ReadsBack(rest[1..], tokens, field + [rest[0]], parsed, false, pieces)
    ensures ReadsBack(rest, tokens, field, parsed, false, pieces)
  {
    assert field + [rest[0]] + rest[1..] == field + rest;
    assert "" + rest == rest;
  }

  /** Reads the pieces back off a successful parse. */
  lemma {:induction false} ParsedPieces(rest: string, tokens: seq<Token>, field: string, closed: bool)
      returns (dot: bool, pieces: seq<Piece>)
    requires ParseFrom(rest, tokens, field, closed).Ok?
    requires PlainField(field) && (closed ==> field == "")
    ensures ReadsBack(rest, tokens, field, ParseFrom(rest, tokens, field, closed).value, dot, pieces)
    ensures dot ==> closed
    decreases |rest|
  {
    var parsed := ParseFrom(rest, tokens, field, closed).value;
    if rest == "" {
      dot := false;
      pieces := EndPieces(tokens, field);
    } else if rest[0] == '.' {
      var _, others := ParsedPieces(rest[1..], Flush(tokens, field), "", false);
      dot := field == "";
      pieces := DotPieces(rest, tokens, field, parsed, others);
    } else if rest[0] == '[' {
      var (index, after) := ParseIndex(rest[1..]).value;
      var d, others := ParsedPieces(after, Flush(tokens, field) + [Index(index)], "", true);
      dot := false;
      pieces := BracketPieces(rest, tokens, field, parsed, index, after, d, others);
    } else {
      dot, pieces := ParsedPieces(rest[1..], tokens, field + [rest[0]], false);
      CharPieces(rest, tokens, field, parsed, pieces);
    }
  }

  lemma {:induction false} ParsedIsSpelled(path: string)
    requires Parse(path).Ok?
    ensures Spells(Trim(path), Parse(path).value)
  {
    var text := Trim(path);
    var body := WithoutRoot(text);
    var _, pieces := ParsedPieces(body, [], "", false);
    ParseIsNeverEmpty(body, [], "", false);
    assert [] + Tokens(pieces) == Tokens(pieces) && Text(pieces) == body;
    var root := RootOf(text);
    assert Root(root, Text(pieces));
  }

  lemma {:induction false} RootOf(text: string) returns (root: string)
    requires text != ""
    ensures Root(root, WithoutRoot(text)) && text == root + WithoutRoot(text)
  {
    root := if text[0] != '$' then "" else if |text| > 1 && text[1] == '.' then "$." else "$";
    assert text == root + WithoutRoot(text);
  }

  lemma {:induction false} ParseIsNeverEmpty(rest: string, tokens: seq<Token>, field: string, closed: bool)
    ensures ParseFrom(rest, tokens, field, closed).Ok? ==> ParseFrom(rest, tokens, field, closed).value != []
    decreases |rest|
  {
    if rest == "" {
    } else {
      if rest[0] == '[' {
        match ParseIndex(rest[1..])
        case None =>
        case Some((index, after)) => ParseIsNeverEmpty(after, Flush(tokens, field) + [Index(index)], "", true);
      } else if rest[0] == '.' {
        ParseIsNeverEmpty(rest[1..], Flush(tokens, field), "", false);
      } else {
        ParseIsNeverEmpty(rest[1..], tokens, field + [rest[0]], false);
      }
    }
  }

  lemma {:induction false} RootIsDropped(root: string, text: string)
    requires Root(root, text) && text != "" && text[0] != '.'
    ensures WithoutRoot(root + text) == text
  {
    assert root == "" ==> root + text == text;
    assert root == "$" ==> (root + text)[1..] == text;
    assert root == "$." ==> (root + text)[2..] == text;
  }

  lemma {:induction false} PiecesAreParsed(root: string, pieces: seq<Piece>)
    requires WellFormed(pieces) && pieces != [] && Root(root, Text(pieces))
    ensures ParseFrom(WithoutRoot(root + Text(pieces)), [], "", false) == Ok(Tokens(pieces))
    ensures root + Text(pieces) != ""
  {
    TextStart(pieces);
    RootIsDropped(root, Text(pieces));
    PiecesParse(pieces, []);
    assert [] + Tokens(pieces) == Tokens(pieces);
  }

  lemma {:induction false} SpelledIsParsed(path: string, tokens: seq<Token>)
    requires Spells(Trim(path), tokens)
    ensures Parse(path) == Ok(tokens)
  {
    var text := Trim(path);
    var root, pieces :| WellFormed(pieces) && pieces != []
      && Root(root, Text(pieces)) && text == root + Text(pieces) && Tokens(pieces) == tokens;
    PiecesAreParsed(root, pieces);
  }

  /** The parser accepts exactly the spellings, and reads back the tokens they spell. */
  lemma {:induction false} ParsesExactlySpellings(path: string, tokens: seq<Token>)
    ensures Parse(path) == Ok(tokens) <==> Spells(Trim(path), tokens)
  {
    if Parse(path) == Ok(tokens) {
      ParsedIsSpelled(path);
    }
    if Spells(Trim(path), tokens) {
      SpelledIsParsed(path, tokens);
    }
  }

  // ------------------------------------------------------------- round trip

  predicate Sayable(t: Token) {
    match t
    case Field(name) => name != "" && PlainField(name)
    case Index(index) => index <= USIZE_MAX
  }

  /** Trimming leaves the end of the spelling alone. */
  predicate EndsVisibly(tokens: seq<Token>, dots: seq<bool>)
    requires tokens != [] && |dots| == |tokens|
  {
    var last := tokens[|tokens| - 1];
    dots[|dots| - 1] || last.Index? || (last.name != "" && !IsWhitespace(LastChar(last.name)))
  }

  /** A token spelled with a chosen dot after it. */
  function Piecewise(t: Token, dot: bool): Piece {
    match t case Field(name) => FieldPiece(name, dot) case Index(index) => IndexPiece(Numeral(index), dot)
  }

  /** Dots chosen at will, except that two fields in a row get theirs. */
  function PiecesFor(tokens: seq<Token>, dots: seq<bool>): (r: seq<Piece>)
    requires |dots| == |tokens|
    ensures |r| == |tokens|
    ensures forall i :: 0 <= i < |r| ==> r[i] == Piecewise(tokens[i],
      dots[i] || (i + 1 < |tokens| && tokens[i].Field? && tokens[i + 1].Field?))
  {
    seq(|tokens|, i requires 0 <= i < |tokens| => Piecewise(tokens[i],
      dots[i] || (i + 1 < |tokens| && tokens[i].Field? && tokens[i + 1].Field?)))
  }

  function Spelling(tokens: seq<Token>, rootDot: bool, dots: seq<bool>): string
    requires |dots| == |tokens|
  {
    (if rootDot then "$." else "$") + Text(PiecesFor(tokens, dots))
  }

  lemma {:induction false} TokensOfPieces(pieces: seq<Piece>, tokens: seq<Token>)
    requires WellFormed(pieces) && |pieces| == |tokens|
    requires forall i :: 0 <= i < |tokens| ==> PieceToken(pieces[i]) == tokens[i]
    ensures Tokens(pieces) == tokens
  {
    if pieces == [] {
    } else {
      TokensOfPieces(pieces[1..], tokens[1..]);
    }
  }

  function LastChar(s: string): char
    requires s != ""
  {
    s[|s| - 1]
  }

  lemma {:induction false} WriteEnd(p: Piece, rest: string)
    requires WellFormedPiece(p)
    ensures Write(p, rest) != ""
    ensures LastChar(Write(p, rest))
      == if rest != "" then LastChar(rest) else if p.dot then '.' else if p.IndexPiece? then ']' else LastChar(p.name)
  {
    var tail := DotThen(p.dot, rest);
    if p.IndexPiece? {
      var closing := "]" + tail;
      assert LastChar(p.digits + closing) == LastChar(closing);
    }
  }

  /** A text ends the way its last piece does. */
  lemma {:induction false} TextEnd(pieces: seq<Piece>)
    requires WellFormed(pieces) && pieces != []
    ensures Text(pieces) != ""
    ensures var last := pieces[|pieces| - 1];
      LastChar(Text(pieces)) == if last.dot then '.' else if last.IndexPiece? then ']' else LastChar(last.name)
  {
    WriteEnd(pieces[0], Text(pieces[1..]));
    if |pieces| > 1 {
      FirstPiece(pieces);
      TextEnd(pieces[1..]);
    }
  }

  lemma {:induction false} PieceIsWellFormed(t: Token, dot: bool)
    requires Sayable(t)
    ensures WellFormedPiece(Piecewise(t, dot)) && PieceToken(Piecewise(t, dot)) == t
  {
  }

  lemma {:induction false} PiecesForAreWellFormed(tokens: seq<Token>, dots: seq<bool>)
    requires tokens != [] && |dots| == |tokens|
    requires forall i :: 0 <= i < |tokens| ==> Sayable(tokens[i])
    ensures var pieces := PiecesFor(tokens, dots);
      && WellFormed(pieces) && pieces != []
      && (forall i :: 0 <= i < |tokens| ==> PieceToken(pieces[i]) == tokens[i])
  {
    var pieces := PiecesFor(tokens, dots);
    forall i | 0 <= i < |tokens|
      ensures WellFormedPiece(pieces[i]) && PieceToken(pieces[i]) == tokens[i]
    {
      PieceIsWellFormed(tokens[i], pieces[i].dot);
    }
  }

  lemma {:induction false} PiecesForEnd(tokens: seq<Token>, dots: seq<bool>)
    requires tokens != [] && |dots| == |tokens| && WellFormed(PiecesFor(tokens, dots))
    ensures Text(PiecesFor(tokens, dots)) != ""
    ensures EndsVisibly(tokens, dots) ==> !IsWhitespace(LastChar(Text(PiecesFor(tokens, dots))))
  {
    TextEnd(PiecesFor(tokens, dots));
  }

  lemma {:induction false} RootedIsTrimmed(root: string, text: string)
    requires root in ["$", "$."] && text != "" && !IsWhitespace(LastChar(text))
    ensures Trim(root + text) == root + text
  {
    assert (root + text)[0] == '$' && LastChar(root + text) == LastChar(text);
  }

  /** For every non-empty token list and every choice of the optional dots (after the root,
      around an index, trailing), parsing the '$' spelling gives back exactly that list; only
      a last field that ends in whitespace needs its trailing dot. */
  lemma {:induction false} ParseInvertsSpelling(tokens: seq<Token>, rootDot: bool, dots: seq<bool>)
    requires tokens != [] && |dots| == |tokens|
    requires (forall i :: 0 <= i < |tokens| ==> Sayable(tokens[i])) && EndsVisibly(tokens, dots)
    ensures Parse(Spelling(tokens, rootDot, dots)) == Ok(tokens)
  {
    var pieces := PiecesFor(tokens, dots);
    var root := if rootDot then "$." else "$";
    PiecesForAreWellFormed(tokens, dots);
    PiecesForEnd(tokens, dots);
    TokensOfPieces(pieces, tokens);
    PiecesAreParsed(root, pieces);
    RootedIsTrimmed(root, Text(pieces));
  }

  lemma {:induction false} SpelledAreSayable(pieces: seq<Piece>)
    requires WellFormed(pieces)
    ensures forall i :: 0 <= i < |Tokens(pieces)| ==> Sayable(Tokens(pieces)[i])
  {
    if pieces == [] {
    } else {
      SpelledAreSayable(pieces[1..]);
      assert Sayable(PieceToken(pieces[0]));
    }
  }

  /** The token lists that some path denotes: the non-empty ones whose fields are non-empty
      and free of '.' and '[' and whose indices fit a usize. */
  lemma {:induction false} ExpressibleExactlyWhen(tokens: seq<Token>)
    ensures (exists path :: Parse(path) == Ok(tokens))
            <==> tokens != [] && forall i :: 0 <= i < |tokens| ==> Sayable(tokens[i])
  {
    if tokens != [] && forall i :: 0 <= i < |tokens| ==> Sayable(tokens[i]) {
      var dots := seq(|tokens|, _ => true);
      ParseInvertsSpelling(tokens, true, dots);
      assert Parse(Spelling(tokens, true, dots)) == Ok(tokens);
    }
    forall path | Parse(path) == Ok(tokens)
      ensures tokens != [] && forall i :: 0 <= i < |tokens| ==> Sayable(tokens[i])
    {
      ParsesExactlySpellings(path, tokens);
      var root, pieces :| WellFormed(pieces) && pieces != []
        && Root(root, Text(pieces)) && Trim(path) == root + Text(pieces) && Tokens(pieces) == tokens;
      SpelledAreSayable(pieces);
    }
  }

  // ---------------------------------------------------------------- resolver

  /** The document type tells 1 from 1.0. */
  datatype Number = Whole(int) | Float(real)

  datatype Json =
    | JNull
    | JBool(bool)
    | JNumber(Number)
    | JString(string)
    | JArray(items: seq<Json>)
    | JObject(fields: map<string, Json>)

  function Child(value: Json, t: Token): Option<Json> {
    match (value, t)
    case (JObject(fields), Field(name)) => if name in fields then Some(fields[name]) else None
    case (JArray(items), Index(index)) => if index < |items| then Some(items[index]) else None
    case _ => None
  }

  function Resolve(value: Json, tokens: seq<Token>): Option<Json> {
    if tokens == [] then Some(value)
    else match Child(value, tokens[0]) case None => None case Some(next) => Resolve(next, tokens[1..])
  }

  method ResolveJsonPath(value: Json, path: string) returns (result: Result<Option<Json>, PathError>)
    ensures result == if Parse(path).Err? then Err(Parse(path).error) else Ok(Resolve(value, Parse(path).value))
  {
    var parsed := ParseJsonPath(path);
    if parsed.Err? {
      return Err(parsed.error);
    }
    var tokens, current := parsed.value, value;
    for i := 0 to |tokens|
      invariant Resolve(value, tokens) == Resolve(current, tokens[i..])
    {
      var next := Child(current, tokens[i]);
      if next.None? {
        return Ok(None);
      }
      current := next.value;
    }
    return Ok(Some(current));
  }

  /** Resolving a longer path is resolving its first part and then the second. */
  lemma {:induction false} ResolveConcat(value: Json, first: seq<Token>, second: seq<Token>)
    ensures Resolve(value, first + second)
      == match Resolve(value, first) case None => None case Some(middle) => Resolve(middle, second)
    decreases |first|
  {
    if first == [] {
      assert first + second == second;
    } else {
      assert (first + second)[1..] == first[1..] + second;
      var next := Child(value, first[0]);
      if next.Some? {
        ResolveConcat(next.value, first[1..], second);
      }
    }
  }

  ghost predicate IsSubterm(part: Json, whole: Json) {
    || part == whole
    || (whole.JArray? && exists i :: 0 <= i < |whole.items| && IsSubterm(part, whole.items[i]))
    || (whole.JObject? && exists k :: k in whole.fields && IsSubterm(part, whole.fields[k]))
  }

  /** Whatever a path finds is part of the document. */
  lemma {:induction false} HitsAreSubterms(value: Json, tokens: seq<Token>)
    requires Resolve(value, tokens).Some?
    ensures IsSubterm(Resolve(value, tokens).value, value)
    decreases |tokens|
  {
    if tokens == [] {
    } else {
      var next := Child(value, tokens[0]).value;
      HitsAreSubterms(next, tokens[1..]);
      assert value.JArray? ==> next == value.items[tokens[0].index];
      assert value.JObject? ==> next == value.fields[tokens[0].name];
    }
  }

  /** Every part has a list of tokens, though not always one that a path can denote. */
  lemma {:induction false} SubtermsCanBeFound(part: Json, whole: Json) returns (tokens: seq<Token>)
    requires IsSubterm(part, whole)
    ensures Resolve(whole, tokens) == Some(part)
    decreases whole
  {
    if part == whole {
      tokens := [];
    } else if whole.JArray? {
      var i :| 0 <= i < |whole.items| && IsSubterm(part, whole.items[i]);
      var deeper := SubtermsCanBeFound(part, whole.items[i]);
      tokens := [Index(i)] + deeper;
      assert tokens[1..] == deeper;
    } else {
      var k :| k in whole.fields && IsSubterm(part, whole.fields[k]);
      var deeper := SubtermsCanBeFound(part, whole.fields[k]);
      tokens := [Field(k)] + deeper;
      assert tokens[1..] == deeper;
    }
  }

  /** The part is reached from the document by one child or more, each of them under a key
      or at an index that a path can spell. */
  ghost predicate FoundBelow(part: Json, whole: Json) {
    || (whole.JArray? && exists i :: 0 <= i < |whole.items| && i <= USIZE_MAX
                                && (part == whole.items[i] || FoundBelow(part, whole.items[i])))
    || (whole.JObject? && exists k :: k in whole.fields && Sayable(Field(k))
                                 && (part == whole.fields[k] || FoundBelow(part, whole.fields[k])))
  }

  lemma {:induction false} FoundHasTokens(part: Json, whole: Json) returns (tokens: seq<Token>)
    requires FoundBelow(part, whole)
    ensures tokens != [] && Resolve(whole, tokens) == Some(part)
    ensures forall i :: 0 <= i < |tokens| ==> Sayable(tokens[i])
    decreases whole
  {
    var t: Token, next: Json;
    if whole.JArray? {
      var i :| 0 <= i < |whole.items| && i <= USIZE_MAX && (part == whole.items[i] || FoundBelow(part, whole.items[i]));
      t, next := Index(i), whole.items[i];
    } else {
      var k :| k in whole.fields && Sayable(Field(k)) && (part == whole.fields[k] || FoundBelow(part, whole.fields[k]));
      t, next := Field(k), whole.fields[k];
    }
    var deeper: seq<Token> := [];
    if part != next {
      deeper := FoundHasTokens(part, next);
    }
    tokens := [t] + deeper;
    assert tokens[1..] == deeper;
  }

  lemma {:induction false} TokensFind(whole: Json, tokens: seq<Token>)
    requires tokens != [] && (forall i :: 0 <= i < |tokens| ==> Sayable(tokens[i])) && Resolve(whole, tokens).Some?
    ensures FoundBelow(Resolve(whole, tokens).value, whole)
    decreases |tokens|
  {
    var next := Child(whole, tokens[0]).value;
    assert whole.JArray? ==> next == whole.items[tokens[0].index];
    assert whole.JObject? ==> next == whole.fields[tokens[0].name];
    if |tokens| > 1 {
      TokensFind(next, tokens[1..]);
    }
  }

  predicate Finds(path: string, whole: Json, part: Json) {
    Parse(path).Ok? && Resolve(whole, Parse(path).value) == Some(part)
  }

  /** Some path finds the part if and only if it lies below the document along keys and
      indices that a path can spell. */
  lemma {:induction false} FindableExactlyWhen(part: Json, whole: Json)
    ensures (exists path :: Finds(path, whole, part)) <==> FoundBelow(part, whole)
  {
    if FoundBelow(part, whole) {
      var tokens := FoundHasTokens(part, whole);
      ExpressibleExactlyWhen(tokens);
      var path :| Parse(path) == Ok(tokens);
      assert Finds(path, whole, part);
    }
    forall path | Finds(path, whole, part)
      ensures FoundBelow(part, whole)
    {
      ExpressibleExactlyWhen(Parse(path).value);
      assert Parse(path) == Ok(Parse(path).value);
      TokensFind(whole, Parse(path).value);
    }
  }

  /** An index path finds the item at that position, and nothing anywhere else. */
  lemma {:induction false} IndexPathFinds(whole: Json, part: Json, index: nat)
    requires index <= USIZE_MAX
    ensures Finds("$[" + (Numeral(index) + "]"), whole, part)
      <==> whole.JArray? && index < |whole.items| && part == whole.items[index]
  {
    var tokens := [Index(index)];
    var pieces := PiecesFor(tokens, [false]);
    ParseInvertsSpelling(tokens, false, [false]);
    assert pieces[1..] == [] && pieces[0] == IndexPiece(Numeral(index), false);
    assert "$" + Text(pieces) == "$[" + (Numeral(index) + "]");
    ResolveOne(whole, Index(index));
  }

  /** A field path finds the value under that key, and nothing anywhere else. */
  lemma {:induction false} FieldPathFinds(whole: Json, part: Json, name: string)
    requires name != "" && PlainField(name)
    ensures Finds("$." + (name + "."), whole, part)
      <==> whole.JObject? && name in whole.fields && part == whole.fields[name]
  {
    var tokens := [Field(name)];
    var pieces := PiecesFor(tokens, [true]);
    ParseInvertsSpelling(tokens, true, [true]);
    assert pieces[1..] == [] && pieces[0] == FieldPiece(name, true);
    assert Text(pieces) == name + DotThen(true, Text(pieces[1..])) == name + ".";
    ResolveOne(whole, Field(name));
  }

  lemma {:induction false} ResolveOne(whole: Json, t: Token)
    ensures Resolve(whole, [t]) == Child(whole, t)
  {
    assert [t][1..] == [];
  }

  /** Only a path of nothing but whitespace is reported as blank. */
  lemma {:induction false} BlankExactlyWhen(path: string)
    ensures Parse(path) == Err(PathError.Blank) <==> Whitespace.Blank(path)
  {
    TrimmedAway(path);
    if Trim(path) != "" {
      OtherErrorsAreInvalid(WithoutRoot(Trim(path)), [], "", false);
    }
  }

  lemma {:induction false} OtherErrorsAreInvalid(rest: string, tokens: seq<Token>, field: string, closed: bool)
    ensures ParseFrom(rest, tokens, field, closed) != Err(PathError.Blank)
    decreases |rest|
  {
    if rest == "" {
    } else if rest[0] == '.' {
      OtherErrorsAreInvalid(rest[1..], Flush(tokens, field), "", false);
    } else if rest[0] == '[' {
      var read := ParseIndex(rest[1..]);
      if read.Some? {
        OtherErrorsAreInvalid(read.value.1, Flush(tokens, field) + [Index(read.value.0)], "", true);
      }
    } else {
      OtherErrorsAreInvalid(rest[1..], tokens, field + [rest[0]], false);
    }
  }

  lemma {:induction false} FoundIsSmaller(part: Json, whole: Json)
    requires FoundBelow(part, whole)
    ensures part < whole
    decreases whole
  {
    if whole.JArray? {
      var i :| 0 <= i < |whole.items| && i <= USIZE_MAX && (part == whole.items[i] || FoundBelow(part, whole.items[i]));
      if part != whole.items[i] {
        FoundIsSmaller(part, whole.items[i]);
      }
    } else {
      var k :| k in whole.fields && Sayable(Field(k)) && (part == whole.fields[k] || FoundBelow(part, whole.fields[k]));
      if part != whole.fields[k] {
        FoundIsSmaller(part, whole.fields[k]);
      }
    }
  }

  /** In particular no path finds the document itself. */
  lemma {:induction false} DocumentIsNeverFound(whole: Json, path: string)
    ensures !Finds(path, whole, whole)
  {
    if Finds(path, whole, whole) {
      FindableExactlyWhen(whole, whole);
      FoundIsSmaller(whole, whole);
    }
  }
}
