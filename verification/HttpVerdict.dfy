/** The verdict on one HTTP response: the checker's assertion pipeline, and the flat, ordered
    list of assertions it decides. */
module HttpVerdict {
  import opened Prelude
  import opened Decimal
  import opened JsonPath

  // -------------------------------------------------------------- data model

  /** Header bytes that are visible text, or that are not. */
  datatype HeaderValue = Text(text: string) | NotText

  /** The libraries the checker calls: lossy UTF-8 decoding, the JSON parser, and the
      normalisation of a header name, which fails on an invalid one. */
  datatype Libraries = Libraries(
    decode: seq<bv8> -> string,
    parseJson: string -> Option<Json>,
    headerName: string -> Option<string>)

  /** A response: its body arrives in chunks, after which the connection may fail. */
  datatype Response = Response(
    status: int,
    elapsed: int,
    headers: map<string, HeaderValue>,
    chunks: seq<seq<bv8>>,
    failsAfter: bool)

  datatype HeaderAssertion = HeaderAssertion(name: string, equals: Option<string>, contains: Option<string>)

  datatype JsonValueAssertion = JsonValueAssertion(path: string, value: Json)

  datatype HttpAssertions = HttpAssertions(
    bodyMustContain: Option<string>,
    bodyMustNotContain: Option<string>,
    bodyMustContainTexts: seq<string>,
    bodyMustNotContainTexts: seq<string>,
    jsonPathExists: seq<string>,
    jsonPathEquals: seq<JsonValueAssertion>,
    jsonPathNotEquals: seq<JsonValueAssertion>,
    maxResponseTimeMs: Option<int>,
    requiredHeaderName: Option<string>,
    requiredHeaderValue: Option<string>,
    headerAssertions: seq<HeaderAssertion>,
    sslCertificateChecksEnabled: bool)
  {
    predicate NeedsJson() { jsonPathExists != [] || jsonPathEquals != [] || jsonPathNotEquals != [] }

    predicate NeedsBody() {
      || bodyMustContain.Some? || bodyMustNotContain.Some?
      || bodyMustContainTexts != [] || bodyMustNotContainTexts != [] || NeedsJson()
    }
  }

  /** The required header, or an entry of the header list. */
  datatype HeaderOwner = Required | Listed(index: nat)

  datatype HeaderPart = ItsName | Exists | Equals | Contains

  /** What an "assertion_failed" reason points at. */
  datatype Subject =
    | MaxResponseTime
    | Header(owner: HeaderOwner, part: HeaderPart)
    | BodyMustContain
    | BodyMustContainText(index: nat)
    | BodyMustNotContain
    | BodyMustNotContainText(index: nat)
    | JsonBody
    | JsonPathExists(index: nat)
    | JsonPathEquals(index: nat)
    | JsonPathNotEquals(index: nat)

  datatype Reason =
    | UnexpectedStatus
    | RedirectBlocked
    | ResponseReadError
    | ConnectError
    | TimedOut
    | RedirectError
    | RequestError
    | Unreachable(why: string)
    | AssertionFailed(subject: Subject)

  datatype CheckResult = CheckResult(
    isSuccess: bool,
    statusCode: Option<int>,
    failureReason: Option<Reason>,
    hasErrorMessage: bool)

  // ------------------------------------------------------ the flat assertions

  datatype Assertion =
    | StatusIs(expected: int)
    | WithinTime(max: int)
    | HeaderNamed(owner: HeaderOwner, name: string)
    | HeaderPresent(owner: HeaderOwner, name: string)
    | HeaderEquals(owner: HeaderOwner, name: string, text: string)
    | HeaderContains(owner: HeaderOwner, name: string, text: string)
    | BodyRead
    | BodyContains(subject: Subject, text: string)
    | BodyLacks(subject: Subject, text: string)
    | BodyIsJson
    | PathExists(index: nat, path: string)
    | PathEquals(index: nat, path: string, value: Json)
    | PathDiffers(index: nat, path: string, value: Json)

  /** What the assertions are about; no body means that reading it failed. */
  datatype Facts = Facts(
    status: int,
    elapsed: int,
    headers: map<string, HeaderValue>,
    body: Option<string>,
    libraries: Libraries)

  predicate OccursAt(part: string, whole: string, i: nat) {
    i + |part| <= |whole| && whole[i..i + |part|] == part
  }

  predicate Occurs(part: string, whole: string) { exists i: nat | i <= |whole| :: OccursAt(part, whole, i) }

  function HeaderOf(f: Facts, name: string): Option<HeaderValue> {
    match f.libraries.headerName(name)
    case None => None
    case Some(key) => if key in f.headers then Some(f.headers[key]) else None
  }

  function DocumentOf(f: Facts): Option<Json> {
    if f.body.None? then None else f.libraries.parseJson(f.body.value)
  }

  function PathValue(f: Facts, path: string): Option<Json> {
    if DocumentOf(f).None? || Parse(path).Err? then None else Resolve(DocumentOf(f).value, Parse(path).value)
  }

  predicate Holds(a: Assertion, f: Facts) {
    match a
    case StatusIs(expected) => f.status == expected
    case WithinTime(max) => f.elapsed <= max
    case HeaderNamed(_, name) => f.libraries.headerName(name).Some?
    case HeaderPresent(_, name) => HeaderOf(f, name).Some?
    case HeaderEquals(_, name, text) => HeaderOf(f, name) == Some(Text(text))
    case HeaderContains(_, name, text) =>
      HeaderOf(f, name).Some? && HeaderOf(f, name).value.Text? && Occurs(text, HeaderOf(f, name).value.text)
    case BodyRead => f.body.Some?
    case BodyContains(_, text) => f.body.Some? && Occurs(text, f.body.value)
    case BodyLacks(_, text) => f.body.Some? && !Occurs(text, f.body.value)
    case BodyIsJson => DocumentOf(f).Some?
    case PathExists(_, path) => PathValue(f, path).Some?
    case PathEquals(_, path, value) => PathValue(f, path) == Some(value)
    case PathDiffers(_, path, value) => PathValue(f, path).Some? && PathValue(f, path) != Some(value)
  }

  /** The reason reported when an assertion is the one that fails. */
  function ReasonFor(a: Assertion, f: Facts): Reason {
    match a
    case StatusIs(_) => if 300 <= f.status < 400 then RedirectBlocked else UnexpectedStatus
    case WithinTime(_) => AssertionFailed(MaxResponseTime)
    case HeaderNamed(owner, _) => AssertionFailed(Header(owner, ItsName))
    case HeaderPresent(owner, _) => AssertionFailed(Header(owner, Exists))
    case HeaderEquals(owner, _, _) => AssertionFailed(Header(owner, Equals))
    case HeaderContains(owner, _, _) => AssertionFailed(Header(owner, Contains))
    case BodyRead => ResponseReadError
    case BodyContains(subject, _) => AssertionFailed(subject)
    case BodyLacks(subject, _) => AssertionFailed(subject)
    case BodyIsJson => AssertionFailed(JsonBody)
    case PathExists(index, _) => AssertionFailed(JsonPathExists(index))
    case PathEquals(index, _, _) => AssertionFailed(JsonPathEquals(index))
    case PathDiffers(index, _, _) => AssertionFailed(JsonPathNotEquals(index))
  }

  // ------------------------------------------------------------ the fixed order

  function Optional(o: Option<string>, make: string -> Assertion): seq<Assertion> {
    if o.None? then [] else [make(o.value)]
  }

  function HeaderPlan(owner: HeaderOwner, a: HeaderAssertion): seq<Assertion> {
    [HeaderNamed(owner, a.name)]
    + ([HeaderPresent(owner, a.name)]
       + (Optional(a.equals, text => HeaderEquals(owner, a.name, text))
          + Optional(a.contains, text => HeaderContains(owner, a.name, text))))
  }

  function RequiredHeaderPlan(a: HttpAssertions): seq<Assertion> {
    if a.requiredHeaderName.None? then []
    else HeaderPlan(Required, HeaderAssertion(a.requiredHeaderName.value, a.requiredHeaderValue, None))
  }

  function HeadersPlan(headers: seq<HeaderAssertion>, from: nat): seq<Assertion>
    requires from <= |headers|
    decreases |headers| - from
  {
    if from == |headers| then [] else HeaderPlan(Listed(from), headers[from]) + HeadersPlan(headers, from + 1)
  }

  function TextsPlan(texts: seq<string>, make: (nat, string) -> Assertion): (r: seq<Assertion>)
    ensures |r| == |texts| && forall i :: 0 <= i < |r| ==> r[i] == make(i, texts[i])
  {
    seq(|texts|, i requires 0 <= i < |texts| => make(i, texts[i]))
  }

  function ValuesPlan(values: seq<JsonValueAssertion>, make: (nat, string, Json) -> Assertion): (r: seq<Assertion>)
    ensures |r| == |values| && forall i :: 0 <= i < |r| ==> r[i] == make(i, values[i].path, values[i].value)
  {
    seq(|values|, i requires 0 <= i < |values| => make(i, values[i].path, values[i].value))
  }

  function ContainPlan(a: HttpAssertions): seq<Assertion> {
    Optional(a.bodyMustContain, text => BodyContains(BodyMustContain, text))
    + TextsPlan(a.bodyMustContainTexts, (i: nat, text) => BodyContains(BodyMustContainText(i), text))
  }

  function LackPlan(a: HttpAssertions): seq<Assertion> {
    Optional(a.bodyMustNotContain, text => BodyLacks(BodyMustNotContain, text))
    + TextsPlan(a.bodyMustNotContainTexts, (i: nat, text) => BodyLacks(BodyMustNotContainText(i), text))
  }

  function PathsPlan(a: HttpAssertions): seq<Assertion> {
    TextsPlan(a.jsonPathExists, (i: nat, path) => PathExists(i, path))
    + (ValuesPlan(a.jsonPathEquals, (i: nat, path, value) => PathEquals(i, path, value))
       + ValuesPlan(a.jsonPathNotEquals, (i: nat, path, value) => PathDiffers(i, path, value)))
  }

  function JsonPlan(a: HttpAssertions): seq<Assertion> {
    if a.NeedsJson() then [BodyIsJson] + PathsPlan(a) else []
  }

  function BodyPlan(a: HttpAssertions): seq<Assertion> {
    if a.NeedsBody() then [BodyRead] + (ContainPlan(a) + (LackPlan(a) + JsonPlan(a))) else []
  }

  function TimePlan(a: HttpAssertions): seq<Assertion> {
    if a.maxResponseTimeMs.None? then [] else [WithinTime(a.maxResponseTimeMs.value)]
  }

  /** Everything configured, in the order in which it is decided. */
  function Plan(expected: int, a: HttpAssertions): seq<Assertion> {
    [StatusIs(expected)]
    + (TimePlan(a) + (RequiredHeaderPlan(a) + (HeadersPlan(a.headerAssertions, 0) + BodyPlan(a))))
  }

  /** The reason of the first assertion that fails, if one does. */
  function FirstFailure(plan: seq<Assertion>, f: Facts): Option<Reason> {
    if plan == [] then None
    else if Holds(plan[0], f) then FirstFailure(plan[1..], f)
    else Some(ReasonFor(plan[0], f))
  }

  predicate AllHold(plan: seq<Assertion>, f: Facts) {
    forall i :: 0 <= i < |plan| ==> Holds(plan[i], f)
  }

  predicate FirstFailing(plan: seq<Assertion>, f: Facts, k: int) {
    0 <= k < |plan| && !Holds(plan[k], f) && forall i :: 0 <= i < k ==> Holds(plan[i], f)
  }

  lemma {:induction false} NothingFails(plan: seq<Assertion>, f: Facts)
    ensures FirstFailure(plan, f) == None <==> AllHold(plan, f)
  {
    if plan == [] {
    } else {
      NothingFails(plan[1..], f);
      assert forall i :: 1 <= i < |plan| ==> plan[i] == plan[1..][i - 1];
    }
  }

  lemma {:induction false} FailsAt(plan: seq<Assertion>, f: Facts, k: int)
    requires FirstFailing(plan, f, k)
    ensures FirstFailure(plan, f) == Some(ReasonFor(plan[k], f))
  {
    if k == 0 {
    } else {
      FailsAt(plan[1..], f, k - 1);
    }
  }

  lemma {:induction false} FailurePosition(plan: seq<Assertion>, f: Facts) returns (k: int)
    requires !AllHold(plan, f)
    ensures FirstFailing(plan, f, k)
  {
    if Holds(plan[0], f) {
      assert forall i :: 1 <= i < |plan| ==> plan[i] == plan[1..][i - 1];
      k := FailurePosition(plan[1..], f);
      assert forall i :: 1 <= i < k + 1 ==> plan[i] == plan[1..][i - 1];
      k := k + 1;
    } else {
      k := 0;
    }
  }

  lemma {:induction false} FirstFailureConcat(first: seq<Assertion>, second: seq<Assertion>, f: Facts)
    ensures FirstFailure(first + second, f)
      == if FirstFailure(first, f).Some? then FirstFailure(first, f) else FirstFailure(second, f)
    decreases |first|
  {
    if first == [] {
      assert first + second == second;
    } else {
      assert (first + second)[1..] == first[1..] + second;
      FirstFailureConcat(first[1..], second, f);
    }
  }

  // -------------------------------------------------------------- the body

  function Flat(chunks: seq<seq<bv8>>): seq<bv8> {
    if chunks == [] then [] else chunks[0] + Flat(chunks[1..])
  }

  function Prefix(bytes: seq<bv8>, max: nat): seq<bv8> { if |bytes| <= max then bytes else bytes[..max] }

  /** At most `max` bytes of the body. A failing connection is noticed only while the cap
      is not reached, and always before the first chunk. */
  function CappedBody(chunks: seq<seq<bv8>>, failsAfter: bool, max: nat): Option<seq<bv8>> {
    if failsAfter && (chunks == [] || |Flat(chunks)| < max) then None else Some(Prefix(Flat(chunks), max))
  }

  lemma {:induction false} FlatSplit(chunks: seq<seq<bv8>>, i: nat)
    requires i <= |chunks|
    ensures Flat(chunks) == Flat(chunks[..i]) + Flat(chunks[i..])
  {
    if i == 0 {
    } else {
      FlatSplit(chunks[1..], i - 1);
      assert chunks[1..][..i - 1] == chunks[..i][1..] && chunks[1..][i - 1..] == chunks[i..];
    }
  }

  lemma {:induction false} FlatNext(chunks: seq<seq<bv8>>, i: nat)
    requires i < |chunks|
    ensures Flat(chunks[..i + 1]) == Flat(chunks[..i]) + chunks[i]
  {
    FlatSplit(chunks[..i + 1], i);
    assert chunks[..i + 1][..i] == chunks[..i] && chunks[..i + 1][i..] == [chunks[i]];
  }

  method ReadCappedBody(chunks: seq<seq<bv8>>, failsAfter: bool, max: nat) returns (body: Option<seq<bv8>>)
    ensures body == CappedBody(chunks, failsAfter, max)
  {
    var buf: seq<bv8>, i := [], 0;
    while i < |chunks|
      invariant 0 <= i <= |chunks|
      invariant buf == Prefix(Flat(chunks[..i]), max)
      invariant i > 0 ==> |buf| < max
    {
      var chunk := chunks[i];
      FlatNext(chunks, i);
      i := i + 1;
      var remaining := max - |buf|;
      buf := buf + chunk[..if |chunk| <= remaining then |chunk| else remaining];
      if |buf| >= max {
        FlatSplit(chunks, i);
        assert buf == Flat(chunks[..i])[..max] == Flat(chunks)[..max] == Prefix(Flat(chunks), max);
        return Some(buf);
      }
    }
    assert chunks[..i] == chunks;
    return if failsAfter then None else Some(buf);
  }

  /** However the same bytes are cut into chunks, the same body is read; except that with a
      cap of 0 a failing connection is noticed only if no chunk comes at all. */
  lemma {:induction false} ChunkBoundariesDoNotMatter(chunks: seq<seq<bv8>>, others: seq<seq<bv8>>, failsAfter: bool, max: nat)
    requires Flat(chunks) == Flat(others)
    ensures CappedBody(chunks, failsAfter, max) == CappedBody(others, failsAfter, max)
      <==> !(failsAfter && max == 0 && (chunks == []) != (others == []))
  {
    assert chunks == [] ==> Flat(chunks) == [];
    assert others == [] ==> Flat(others) == [];
  }

  // ----------------------------------------------------------- the pipeline

  /** The facts a response offers to a checker with this cap on the body. */
  function FactsOf(r: Response, maxBody: nat, libraries: Libraries): Facts {
    var body := CappedBody(r.chunks, r.failsAfter, maxBody);
    Facts(r.status, r.elapsed, r.headers, if body.None? then None else Some(libraries.decode(body.value)), libraries)
  }

  function EvaluateHeaderAssertion(headers: map<string, HeaderValue>, libraries: Libraries, a: HeaderAssertion,
                                   owner: HeaderOwner): Option<Reason>
  {
    match libraries.headerName(a.name)
    case None => Some(AssertionFailed(Header(owner, ItsName)))
    case Some(key) =>
      if key !in headers then Some(AssertionFailed(Header(owner, Exists)))
      else if a.equals.Some? && !(headers[key].Text? && headers[key].text == a.equals.value) then
        Some(AssertionFailed(Header(owner, Equals)))
      else if a.contains.Some? && !(headers[key].Text? && Occurs(a.contains.value, headers[key].text)) then
        Some(AssertionFailed(Header(owner, Contains)))
      else None
  }

  lemma {:induction false} HeaderVerdict(f: Facts, a: HeaderAssertion, owner: HeaderOwner)
    ensures EvaluateHeaderAssertion(f.headers, f.libraries, a, owner) == FirstFailure(HeaderPlan(owner, a), f)
  {
    var named, present := HeaderNamed(owner, a.name), HeaderPresent(owner, a.name);
    var equal := Optional(a.equals, text => HeaderEquals(owner, a.name, text));
    var contained := Optional(a.contains, text => HeaderContains(owner, a.name, text));
    FirstFailureConcat([named], [present] + (equal + contained), f);
    FirstFailureConcat([present], equal + contained, f);
    FirstFailureConcat(equal, contained, f);
  }

  method EvaluateHeaders(headers: map<string, HeaderValue>, libraries: Libraries, list: seq<HeaderAssertion>, ghost f: Facts)
      returns (failure: Option<Reason>)
    requires f.headers == headers && f.libraries == libraries
    ensures failure == FirstFailure(HeadersPlan(list, 0), f)
  {
    for i := 0 to |list|
      invariant FirstFailure(HeadersPlan(list, 0), f) == FirstFailure(HeadersPlan(list, i), f)
    {
      failure := EvaluateHeaderAssertion(headers, libraries, list[i], Listed(i));
      HeaderVerdict(f, list[i], Listed(i));
      FirstFailureConcat(HeaderPlan(Listed(i), list[i]), HeadersPlan(list, i + 1), f);
      if failure.Some? {
        return;
      }
    }
    return None;
  }

  method RequireTexts(body: string, a: HttpAssertions, ghost f: Facts) returns (failure: Option<Reason>)
    requires f.body == Some(body)
    ensures failure == FirstFailure(ContainPlan(a), f)
  {
    var texts := a.bodyMustContainTexts;
    ghost var single := Optional(a.bodyMustContain, text => BodyContains(BodyMustContain, text));
    ghost var listed := TextsPlan(texts, (i: nat, text) => BodyContains(BodyMustContainText(i), text));
    FirstFailureConcat(single, listed, f);
    if a.bodyMustContain.Some? && !Occurs(a.bodyMustContain.value, body) {
      return Some(AssertionFailed(BodyMustContain));
    }
    for i := 0 to |texts|
      invariant forall j :: 0 <= j < i ==> Holds(listed[j], f)
    {
      if !Occurs(texts[i], body) {
        FailsAt(listed, f, i);
        return Some(AssertionFailed(BodyMustContainText(i)));
      }
    }
    NothingFails(listed, f);
    return None;
  }

  method ForbidTexts(body: string, a: HttpAssertions, ghost f: Facts) returns (failure: Option<Reason>)
    requires f.body == Some(body)
    ensures failure == FirstFailure(LackPlan(a), f)
  {
    var texts := a.bodyMustNotContainTexts;
    ghost var single := Optional(a.bodyMustNotContain, text => BodyLacks(BodyMustNotContain, text));
    ghost var listed := TextsPlan(texts, (i: nat, text) => BodyLacks(BodyMustNotContainText(i), text));
    FirstFailureConcat(single, listed, f);
    if a.bodyMustNotContain.Some? && Occurs(a.bodyMustNotContain.value, body) {
      return Some(AssertionFailed(BodyMustNotContain));
    }
    for i := 0 to |texts|
      invariant forall j :: 0 <= j < i ==> Holds(listed[j], f)
    {
      if Occurs(texts[i], body) {
        FailsAt(listed, f, i);
        return Some(AssertionFailed(BodyMustNotContainText(i)));
      }
    }
    NothingFails(listed, f);
    return None;
  }

  method RequirePaths(json: Json, paths: seq<string>, ghost f: Facts, ghost plan: seq<Assertion>)
      returns (failure: Option<Reason>)
    requires DocumentOf(f) == Some(json)
    requires plan == TextsPlan(paths, (i: nat, path) => PathExists(i, path))
    ensures failure == FirstFailure(plan, f)
  {
    for i := 0 to |paths|
      invariant forall j :: 0 <= j < i ==> Holds(plan[j], f)
    {
      var found := ResolveJsonPath(json, paths[i]);
      if found.Err? || found.value.None? {
        FailsAt(plan, f, i);
        return Some(AssertionFailed(JsonPathExists(i)));
      }
    }
    NothingFails(plan, f);
    return None;
  }

  method RequireValues(json: Json, values: seq<JsonValueAssertion>, ghost f: Facts, ghost plan: seq<Assertion>)
      returns (failure: Option<Reason>)
    requires DocumentOf(f) == Some(json)
    requires plan == ValuesPlan(values, (i: nat, path, value) => PathEquals(i, path, value))
    ensures failure == FirstFailure(plan, f)
  {
    for i := 0 to |values|
      invariant forall j :: 0 <= j < i ==> Holds(plan[j], f)
    {
      var found := ResolveJsonPath(json, values[i].path);
      if found.Err? || found.value.None? || found.value.value != values[i].value {
        FailsAt(plan, f, i);
        return Some(AssertionFailed(JsonPathEquals(i)));
      }
    }
    NothingFails(plan, f);
    return None;
  }

  method ForbidValues(json: Json, values: seq<JsonValueAssertion>, ghost f: Facts, ghost plan: seq<Assertion>)
      returns (failure: Option<Reason>)
    requires DocumentOf(f) == Some(json)
    requires plan == ValuesPlan(values, (i: nat, path, value) => PathDiffers(i, path, value))
    ensures failure == FirstFailure(plan, f)
  {
    for i := 0 to |values|
      invariant forall j :: 0 <= j < i ==> Holds(plan[j], f)
    {
      var found := ResolveJsonPath(json, values[i].path);
      if found.Err? || found.value.None? || found.value.value == values[i].value {
        FailsAt(plan, f, i);
        return Some(AssertionFailed(JsonPathNotEquals(i)));
      }
    }
    NothingFails(plan, f);
    return None;
  }

  method EvaluateJson(body: string, a: HttpAssertions, libraries: Libraries, ghost f: Facts)
      returns (failure: Option<Reason>)
    requires f.body == Some(body) && f.libraries == libraries
    ensures failure == FirstFailure(JsonPlan(a), f)
  {
    if !a.NeedsJson() {
      return None;
    }
    var json := libraries.parseJson(body);
    ghost var exist := TextsPlan(a.jsonPathExists, (i: nat, path) => PathExists(i, path));
    ghost var equal := ValuesPlan(a.jsonPathEquals, (i: nat, path, value) => PathEquals(i, path, value));
    ghost var differ := ValuesPlan(a.jsonPathNotEquals, (i: nat, path, value) => PathDiffers(i, path, value));
    FirstFailureConcat([BodyIsJson], exist + (equal + differ), f);
    FirstFailureConcat(exist, equal + differ, f);
    FirstFailureConcat(equal, differ, f);
    if json.None? {
      return Some(AssertionFailed(JsonBody));
    }
    failure := RequirePaths(json.value, a.jsonPathExists, f, exist);
    if failure.None? {
      failure := RequireValues(json.value, a.jsonPathEquals, f, equal);
    }
    if failure.None? {
      failure := ForbidValues(json.value, a.jsonPathNotEquals, f, differ);
    }
  }

  // ---------------------------------------------- the plan, field by field

  /** A field of the assertion set asks for this assertion. */
  predicate Configured(expected: int, a: HttpAssertions, x: Assertion) {
    match x
    case StatusIs(status) => status == expected
    case WithinTime(max) => a.maxResponseTimeMs == Some(max)
    case HeaderNamed(Required, name) => a.requiredHeaderName == Some(name)
    case HeaderNamed(Listed(i), name) => i < |a.headerAssertions| && a.headerAssertions[i].name == name
    case HeaderPresent(Required, name) => a.requiredHeaderName == Some(name)
    case HeaderPresent(Listed(i), name) => i < |a.headerAssertions| && a.headerAssertions[i].name == name
    case HeaderEquals(Required, name, text) => a.requiredHeaderName == Some(name) && a.requiredHeaderValue == Some(text)
    case HeaderEquals(Listed(i), name, text) =>
      i < |a.headerAssertions| && a.headerAssertions[i].name == name && a.headerAssertions[i].equals == Some(text)
    case HeaderContains(Required, _, _) => false
    case HeaderContains(Listed(i), name, text) =>
      i < |a.headerAssertions| && a.headerAssertions[i].name == name && a.headerAssertions[i].contains == Some(text)
    case BodyRead =>
      a.bodyMustContain.Some? || a.bodyMustNotContain.Some? || a.bodyMustContainTexts != [] || a.bodyMustNotContainTexts != []
      || a.jsonPathExists != [] || a.jsonPathEquals != [] || a.jsonPathNotEquals != []
    case BodyContains(BodyMustContain, text) => a.bodyMustContain == Some(text)
    case BodyContains(BodyMustContainText(i), text) => i < |a.bodyMustContainTexts| && a.bodyMustContainTexts[i] == text
    case BodyContains(_, _) => false
    case BodyLacks(BodyMustNotContain, text) => a.bodyMustNotContain == Some(text)
    case BodyLacks(BodyMustNotContainText(i), text) => i < |a.bodyMustNotContainTexts| && a.bodyMustNotContainTexts[i] == text
    case BodyLacks(_, _) => false
    case BodyIsJson => a.jsonPathExists != [] || a.jsonPathEquals != [] || a.jsonPathNotEquals != []
    case PathExists(i, path) => i < |a.jsonPathExists| && a.jsonPathExists[i] == path
    case PathEquals(i, path, value) => i < |a.jsonPathEquals| && a.jsonPathEquals[i] == JsonValueAssertion(path, value)
    case PathDiffers(i, path, value) => i < |a.jsonPathNotEquals| && a.jsonPathNotEquals[i] == JsonValueAssertion(path, value)
  }

  lemma {:induction false} HeaderPlanHolds(owner: HeaderOwner, h: HeaderAssertion, x: Assertion)
    ensures x in HeaderPlan(owner, h) <==>
      || x == HeaderNamed(owner, h.name) || x == HeaderPresent(owner, h.name)
      || (x.HeaderEquals? && x.owner == owner && x.name == h.name && h.equals == Some(x.text))
      || (x.HeaderContains? && x.owner == owner && x.name == h.name && h.contains == Some(x.text))
  {
  }

  /** The entry at this index or a later one asks for the assertion. */
  predicate ListedFrom(headers: seq<HeaderAssertion>, from: nat, x: Assertion) {
    exists i: nat | i < |headers| :: from <= i && x in HeaderPlan(Listed(i), headers[i])
  }

  lemma {:induction false} HeadersPlanHolds(headers: seq<HeaderAssertion>, from: nat, x: Assertion)
    requires from <= |headers|
    ensures x in HeadersPlan(headers, from) <==> ListedFrom(headers, from, x)
    decreases |headers| - from
  {
    if from == |headers| {
    } else {
      HeadersPlanHolds(headers, from + 1, x);
      assert ListedFrom(headers, from, x) <==>
        x in HeaderPlan(Listed(from), headers[from]) || ListedFrom(headers, from + 1, x);
    }
  }

  lemma {:induction false} ContainPlanHolds(a: HttpAssertions, x: Assertion)
    ensures x in ContainPlan(a) <==> x.BodyContains? && Configured(0, a, x)
  {
    var listed := TextsPlan(a.bodyMustContainTexts, (i: nat, text) => BodyContains(BodyMustContainText(i), text));
    if x.BodyContains? && x.subject.BodyMustContainText? && x.subject.index < |listed| {
      assert listed[x.subject.index] in listed;
    }
  }

  lemma {:induction false} LackPlanHolds(a: HttpAssertions, x: Assertion)
    ensures x in LackPlan(a) <==> x.BodyLacks? && Configured(0, a, x)
  {
    var listed := TextsPlan(a.bodyMustNotContainTexts, (i: nat, text) => BodyLacks(BodyMustNotContainText(i), text));
    if x.BodyLacks? && x.subject.BodyMustNotContainText? && x.subject.index < |listed| {
      assert listed[x.subject.index] in listed;
    }
  }

  lemma {:induction false} PathsPlanHolds(a: HttpAssertions, x: Assertion)
    ensures x in PathsPlan(a) <==> (x.PathExists? || x.PathEquals? || x.PathDiffers?) && Configured(0, a, x)
  {
    var exist := TextsPlan(a.jsonPathExists, (i: nat, path) => PathExists(i, path));
    var equal := ValuesPlan(a.jsonPathEquals, (i: nat, path, value) => PathEquals(i, path, value));
    var differ := ValuesPlan(a.jsonPathNotEquals, (i: nat, path, value) => PathDiffers(i, path, value));
    if x.PathExists? && x.index < |exist| {
      assert exist[x.index] in exist;
    } else if x.PathEquals? && x.index < |equal| {
      assert equal[x.index] in equal;
    } else if x.PathDiffers? && x.index < |differ| {
      assert differ[x.index] in differ;
    }
  }

  lemma {:induction false} BodyPlanHolds(a: HttpAssertions, x: Assertion)
    ensures x in BodyPlan(a) <==>
      && (x.BodyRead? || x.BodyContains? || x.BodyLacks? || x.BodyIsJson? || x.PathExists? || x.PathEquals? || x.PathDiffers?)
      && Configured(0, a, x)
  {
    ContainPlanHolds(a, x);
    LackPlanHolds(a, x);
    PathsPlanHolds(a, x);
  }

  predicate IsHeaderAssertion(x: Assertion) {
    x.HeaderNamed? || x.HeaderPresent? || x.HeaderEquals? || x.HeaderContains?
  }

  lemma {:induction false} RequiredPlanHolds(a: HttpAssertions, x: Assertion)
    ensures x in RequiredHeaderPlan(a) <==> IsHeaderAssertion(x) && x.owner.Required? && Configured(0, a, x)
  {
    if a.requiredHeaderName.Some? {
      HeaderPlanHolds(Required, HeaderAssertion(a.requiredHeaderName.value, a.requiredHeaderValue, None), x);
    }
  }

  lemma {:induction false} ListedPlanHolds(a: HttpAssertions, x: Assertion, i: nat)
    requires i < |a.headerAssertions|
    ensures x in HeaderPlan(Listed(i), a.headerAssertions[i]) <==>
      IsHeaderAssertion(x) && x.owner == Listed(i) && Configured(0, a, x)
  {
    HeaderPlanHolds(Listed(i), a.headerAssertions[i], x);
  }

  lemma {:induction false} HeaderPlansHold(a: HttpAssertions, x: Assertion)
    ensures x in RequiredHeaderPlan(a) || x in HeadersPlan(a.headerAssertions, 0) <==> IsHeaderAssertion(x) && Configured(0, a, x)
  {
    RequiredPlanHolds(a, x);
    HeadersPlanHolds(a.headerAssertions, 0, x);
    if IsHeaderAssertion(x) && x.owner.Listed? && x.owner.index < |a.headerAssertions| {
      ListedPlanHolds(a, x, x.owner.index);
    }
    if ListedFrom(a.headerAssertions, 0, x) {
      var i: nat :| i < |a.headerAssertions| && x in HeaderPlan(Listed(i), a.headerAssertions[i]);
      ListedPlanHolds(a, x, i);
    }
  }

  /** The plan holds exactly what the fields ask for. */
  lemma {:induction false} PlanIsWhatIsConfigured(expected: int, a: HttpAssertions, x: Assertion)
    ensures x in Plan(expected, a) <==> Configured(expected, a, x)
  {
    var required, listed, body := RequiredHeaderPlan(a), HeadersPlan(a.headerAssertions, 0), BodyPlan(a);
    HeaderPlansHold(a, x);
    BodyPlanHolds(a, x);
    InEither(listed, body, x);
    InEither(required, listed + body, x);
    InEither(TimePlan(a), required + (listed + body), x);
    InEither([StatusIs(expected)], TimePlan(a) + (required + (listed + body)), x);
    FrontOfPlan(expected, a, x);
    if !x.StatusIs? {
      OnlyStatusCounts(expected, a, x);
    }
  }

  lemma {:induction false} InEither(p: seq<Assertion>, q: seq<Assertion>, x: Assertion)
    ensures x in p + q <==> x in p || x in q
  {
  }

  lemma {:induction false} FrontOfPlan(expected: int, a: HttpAssertions, x: Assertion)
    ensures x in [StatusIs(expected)] || x in TimePlan(a) <==> (x.StatusIs? || x.WithinTime?) && Configured(expected, a, x)
  {
  }

  lemma {:induction false} OnlyStatusCounts(expected: int, a: HttpAssertions, x: Assertion)
    requires !x.StatusIs?
    ensures Configured(expected, a, x) <==> Configured(0, a, x)
  {
  }

  // ------------------------------------------------- success, field by field

  ghost predicate Includes(whole: string, part: string) {
    exists before, after :: whole == before + (part + after)
  }

  lemma {:induction false} OccursIsIncludes(part: string, whole: string)
    ensures Occurs(part, whole) <==> Includes(whole, part)
  {
    if Occurs(part, whole) {
      var i: nat :| i <= |whole| && OccursAt(part, whole, i);
      assert whole == whole[..i] + (part + whole[i + |part|..]);
    }
    forall before, after | whole == before + (part + after)
      ensures Occurs(part, whole)
    {
      assert OccursAt(part, whole, |before|);
    }
  }

  /** The response carries the header, with the value and the part asked for, if any. */
  ghost predicate MeetsHeader(r: Response, libraries: Libraries, name: string, equals: Option<string>, contains: Option<string>) {
    && libraries.headerName(name).Some? && libraries.headerName(name).value in r.headers
    && var value := r.headers[libraries.headerName(name).value];
    && (equals.Some? ==> value == Text(equals.value))
    && (contains.Some? ==> value.Text? && Includes(value.text, contains.value))
  }

  ghost predicate MeetsTexts(a: HttpAssertions, body: string) {
    && (a.bodyMustContain.Some? ==> Includes(body, a.bodyMustContain.value))
    && (a.bodyMustNotContain.Some? ==> !Includes(body, a.bodyMustNotContain.value))
    && (forall i :: 0 <= i < |a.bodyMustContainTexts| ==> Includes(body, a.bodyMustContainTexts[i]))
    && (forall i :: 0 <= i < |a.bodyMustNotContainTexts| ==> !Includes(body, a.bodyMustNotContainTexts[i]))
  }

  ghost predicate FindsSome(path: string, json: Json) {
    exists part :: Finds(path, json, part)
  }

  ghost predicate FindsOther(path: string, json: Json, value: Json) {
    exists part :: part != value && Finds(path, json, part)
  }

  ghost predicate MeetsPaths(a: HttpAssertions, json: Json) {
    && (forall i :: 0 <= i < |a.jsonPathExists| ==> FindsSome(a.jsonPathExists[i], json))
    && (forall i :: 0 <= i < |a.jsonPathEquals| ==> Finds(a.jsonPathEquals[i].path, json, a.jsonPathEquals[i].value))
    && (forall i :: 0 <= i < |a.jsonPathNotEquals| ==>
          FindsOther(a.jsonPathNotEquals[i].path, json, a.jsonPathNotEquals[i].value))
  }

  /** What is asked of the body holds of its first `max` bytes, if anything is asked of it;
      it must then be readable, and JSON if a path is asked for. */
  ghost predicate MeetsBody(r: Response, a: HttpAssertions, max: nat, libraries: Libraries) {
    !Configured(0, a, BodyRead) ||
    (var bytes := Flat(r.chunks);
     && !(r.failsAfter && (r.chunks == [] || |bytes| < max))
     && var body := libraries.decode(if |bytes| <= max then bytes else bytes[..max]);
     && MeetsTexts(a, body)
     && (Configured(0, a, BodyIsJson) ==>
           libraries.parseJson(body).Some? && MeetsPaths(a, libraries.parseJson(body).value)))
  }

  /** Everything the assertion set asks for, read off its fields and the response. */
  ghost predicate Meets(r: Response, expected: int, a: HttpAssertions, max: nat, libraries: Libraries) {
    && r.status == expected
    && (a.maxResponseTimeMs.Some? ==> r.elapsed <= a.maxResponseTimeMs.value)
    && (a.requiredHeaderName.Some? ==> MeetsHeader(r, libraries, a.requiredHeaderName.value, a.requiredHeaderValue, None))
    && (forall i :: 0 <= i < |a.headerAssertions| ==>
          var h := a.headerAssertions[i]; MeetsHeader(r, libraries, h.name, h.equals, h.contains))
    && MeetsBody(r, a, max, libraries)
  }

  ghost predicate AllConfiguredHold(expected: int, a: HttpAssertions, f: Facts) {
    forall x :: Configured(expected, a, x) ==> Holds(x, f)
  }

  lemma {:induction false} PlanHoldsWhatIsConfigured(expected: int, a: HttpAssertions, f: Facts)
    ensures AllHold(Plan(expected, a), f) <==> AllConfiguredHold(expected, a, f)
  {
    var plan := Plan(expected, a);
    if AllHold(plan, f) {
      forall x | Configured(expected, a, x)
        ensures Holds(x, f)
      {
        PlanIsWhatIsConfigured(expected, a, x);
        var i :| 0 <= i < |plan| && plan[i] == x;
      }
    }
    if AllConfiguredHold(expected, a, f) {
      forall i | 0 <= i < |plan|
        ensures Holds(plan[i], f)
      {
        PlanIsWhatIsConfigured(expected, a, plan[i]);
      }
    }
  }

  lemma {:induction false} HeaderHolds(r: Response, max: nat, libraries: Libraries, owner: HeaderOwner, name: string, text: string)
    ensures var f := FactsOf(r, max, libraries);
      && (MeetsHeader(r, libraries, name, None, None) <==> Holds(HeaderNamed(owner, name), f) && Holds(HeaderPresent(owner, name), f))
      && (Holds(HeaderEquals(owner, name, text), f) <==> MeetsHeader(r, libraries, name, Some(text), None))
      && (Holds(HeaderContains(owner, name, text), f) <==> MeetsHeader(r, libraries, name, None, Some(text)))
  {
    var f := FactsOf(r, max, libraries);
    if HeaderOf(f, name).Some? && HeaderOf(f, name).value.Text? {
      OccursIsIncludes(text, HeaderOf(f, name).value.text);
    }
  }

  lemma {:induction false} PathHolds(f: Facts, index: nat, path: string, value: Json)
    requires DocumentOf(f).Some?
    ensures var json := DocumentOf(f).value;
      && (Holds(PathExists(index, path), f) <==> FindsSome(path, json))
      && (Holds(PathEquals(index, path, value), f) <==> Finds(path, json, value))
      && (Holds(PathDiffers(index, path, value), f) <==> FindsOther(path, json, value))
  {
    var found := PathValue(f, path);
    if found.Some? {
      assert Finds(path, DocumentOf(f).value, found.value);
    }
  }

  lemma {:induction false} BodyOf(r: Response, max: nat, libraries: Libraries)
    ensures var f, bytes := FactsOf(r, max, libraries), Flat(r.chunks);
      f.body == if r.failsAfter && (r.chunks == [] || |bytes| < max) then None
                else Some(libraries.decode(if |bytes| <= max then bytes else bytes[..max]))
  {
  }

  /** A configured assertion holds of a response that meets the assertion set. */
  lemma {:induction false} MeetingIsHolding(r: Response, expected: int, a: HttpAssertions, max: nat, libraries: Libraries, x: Assertion)
    requires Meets(r, expected, a, max, libraries) && Configured(expected, a, x)
    ensures Holds(x, FactsOf(r, max, libraries))
  {
    if IsHeaderAssertion(x) {
      HeaderHolds(r, max, libraries, x.owner, x.name, if x.HeaderEquals? || x.HeaderContains? then x.text else "");
      if x.owner.Listed? {
        var h := a.headerAssertions[x.owner.index];
        assert MeetsHeader(r, libraries, h.name, h.equals, h.contains);
      }
    } else if !x.StatusIs? && !x.WithinTime? {
      assert Configured(0, a, BodyRead) by { assert Configured(0, a, x); }
      BodyMeetingIsHolding(r, a, max, libraries, x);
    }
  }

  lemma {:induction false} BodyMeetingIsHolding(r: Response, a: HttpAssertions, max: nat, libraries: Libraries, x: Assertion)
    requires MeetsBody(r, a, max, libraries) && Configured(0, a, BodyRead) && Configured(0, a, x)
    requires !IsHeaderAssertion(x) && !x.StatusIs? && !x.WithinTime?
    ensures Holds(x, FactsOf(r, max, libraries))
  {
    var f := FactsOf(r, max, libraries);
    BodyOf(r, max, libraries);
    if x.BodyContains? || x.BodyLacks? {
      OccursIsIncludes(x.text, f.body.value);
    } else if x.PathExists? {
      assert Configured(0, a, BodyIsJson);
      PathHolds(f, x.index, x.path, JNull);
    } else if x.PathEquals? {
      assert Configured(0, a, BodyIsJson);
      PathHolds(f, x.index, x.path, x.value);
    } else if x.PathDiffers? {
      assert Configured(0, a, BodyIsJson);
      PathHolds(f, x.index, x.path, x.value);
    }
  }

  lemma {:induction false} HoldingMeetsHeader(r: Response, expected: int, a: HttpAssertions, max: nat, libraries: Libraries,
                                              owner: HeaderOwner, h: HeaderAssertion)
    requires AllConfiguredHold(expected, a, FactsOf(r, max, libraries))
    requires match owner
             case Required => a.requiredHeaderName == Some(h.name) && h.equals == a.requiredHeaderValue && h.contains == None
             case Listed(i) => i < |a.headerAssertions| && a.headerAssertions[i] == h
    ensures MeetsHeader(r, libraries, h.name, h.equals, h.contains)
  {
    assert Configured(expected, a, HeaderNamed(owner, h.name)) && Configured(expected, a, HeaderPresent(owner, h.name));
    HeaderHolds(r, max, libraries, owner, h.name, "");
    if h.equals.Some? {
      assert Configured(expected, a, HeaderEquals(owner, h.name, h.equals.value));
      HeaderHolds(r, max, libraries, owner, h.name, h.equals.value);
    }
    if h.contains.Some? {
      assert Configured(expected, a, HeaderContains(owner, h.name, h.contains.value));
      HeaderHolds(r, max, libraries, owner, h.name, h.contains.value);
    }
  }

  lemma {:induction false} HoldingMeetsTexts(expected: int, a: HttpAssertions, f: Facts)
    requires AllConfiguredHold(expected, a, f) && f.body.Some?
    ensures MeetsTexts(a, f.body.value)
  {
    var body := f.body.value;
    if a.bodyMustContain.Some? {
      assert Configured(expected, a, BodyContains(BodyMustContain, a.bodyMustContain.value));
      OccursIsIncludes(a.bodyMustContain.value, body);
    }
    if a.bodyMustNotContain.Some? {
      assert Configured(expected, a, BodyLacks(BodyMustNotContain, a.bodyMustNotContain.value));
      OccursIsIncludes(a.bodyMustNotContain.value, body);
    }
    forall i | 0 <= i < |a.bodyMustContainTexts|
      ensures Includes(body, a.bodyMustContainTexts[i])
    {
      assert Configured(expected, a, BodyContains(BodyMustContainText(i), a.bodyMustContainTexts[i]));
      OccursIsIncludes(a.bodyMustContainTexts[i], body);
    }
    forall i | 0 <= i < |a.bodyMustNotContainTexts|
      ensures !Includes(body, a.bodyMustNotContainTexts[i])
    {
      assert Configured(expected, a, BodyLacks(BodyMustNotContainText(i), a.bodyMustNotContainTexts[i]));
      OccursIsIncludes(a.bodyMustNotContainTexts[i], body);
    }
  }

  lemma {:induction false} HoldingMeetsPaths(expected: int, a: HttpAssertions, f: Facts)
    requires AllConfiguredHold(expected, a, f) && DocumentOf(f).Some?
    ensures MeetsPaths(a, DocumentOf(f).value)
  {
    var json := DocumentOf(f).value;
    forall i | 0 <= i < |a.jsonPathExists|
      ensures FindsSome(a.jsonPathExists[i], json)
    {
      assert Configured(expected, a, PathExists(i, a.jsonPathExists[i]));
      PathHolds(f, i, a.jsonPathExists[i], JNull);
    }
    forall i | 0 <= i < |a.jsonPathEquals|
      ensures Finds(a.jsonPathEquals[i].path, json, a.jsonPathEquals[i].value)
    {
      assert Configured(expected, a, PathEquals(i, a.jsonPathEquals[i].path, a.jsonPathEquals[i].value));
      PathHolds(f, i, a.jsonPathEquals[i].path, a.jsonPathEquals[i].value);
    }
    forall i | 0 <= i < |a.jsonPathNotEquals|
      ensures FindsOther(a.jsonPathNotEquals[i].path, json, a.jsonPathNotEquals[i].value)
    {
      assert Configured(expected, a, PathDiffers(i, a.jsonPathNotEquals[i].path, a.jsonPathNotEquals[i].value));
      PathHolds(f, i, a.jsonPathNotEquals[i].path, a.jsonPathNotEquals[i].value);
    }
  }

  lemma {:induction false} HoldingMeetsBody(r: Response, expected: int, a: HttpAssertions, max: nat, libraries: Libraries)
    requires AllConfiguredHold(expected, a, FactsOf(r, max, libraries))
    ensures MeetsBody(r, a, max, libraries)
  {
    var f := FactsOf(r, max, libraries);
    if Configured(0, a, BodyRead) {
      assert Configured(expected, a, BodyRead) && Holds(BodyRead, f);
      BodyOf(r, max, libraries);
      HoldingMeetsTexts(expected, a, f);
      if Configured(0, a, BodyIsJson) {
        assert Configured(expected, a, BodyIsJson) && Holds(BodyIsJson, f);
        HoldingMeetsPaths(expected, a, f);
      }
    }
  }

  lemma {:induction false} HoldingIsMeeting(r: Response, expected: int, a: HttpAssertions, max: nat, libraries: Libraries)
    requires AllConfiguredHold(expected, a, FactsOf(r, max, libraries))
    ensures Meets(r, expected, a, max, libraries)
  {
    var f := FactsOf(r, max, libraries);
    assert Configured(expected, a, StatusIs(expected)) && Holds(StatusIs(expected), f);
    if a.maxResponseTimeMs.Some? {
      var within := WithinTime(a.maxResponseTimeMs.value);
      assert Configured(expected, a, within) && Holds(within, f);
    }
    if a.requiredHeaderName.Some? {
      HoldingMeetsHeader(r, expected, a, max, libraries, Required,
        HeaderAssertion(a.requiredHeaderName.value, a.requiredHeaderValue, None));
    }
    forall i: nat | i < |a.headerAssertions|
      ensures var h := a.headerAssertions[i]; MeetsHeader(r, libraries, h.name, h.equals, h.contains)
    {
      HoldingMeetsHeader(r, expected, a, max, libraries, Listed(i), a.headerAssertions[i]);
    }
    HoldingMeetsBody(r, expected, a, max, libraries);
  }

  /** Every assertion of the plan holds if and only if the response meets the fields. */
  lemma {:induction false} PlanHoldsExactlyWhenMet(r: Response, expected: int, a: HttpAssertions, max: nat, libraries: Libraries)
    ensures AllHold(Plan(expected, a), FactsOf(r, max, libraries)) <==> Meets(r, expected, a, max, libraries)
  {
    PlanHoldsWhatIsConfigured(expected, a, FactsOf(r, max, libraries));
    if Meets(r, expected, a, max, libraries) {
      forall x | Configured(expected, a, x)
        ensures Holds(x, FactsOf(r, max, libraries))
      {
        MeetingIsHolding(r, expected, a, max, libraries, x);
      }
    }
    if AllConfiguredHold(expected, a, FactsOf(r, max, libraries)) {
      HoldingIsMeeting(r, expected, a, max, libraries);
    }
  }

  /** The four parts of the plan that come before the body. */
  lemma {:induction false} PlanInOrder(expected: int, a: HttpAssertions, f: Facts)
    ensures FirstFailure(Plan(expected, a), f)
      == if !Holds(StatusIs(expected), f) then Some(ReasonFor(StatusIs(expected), f))
         else if FirstFailure(TimePlan(a), f).Some? then FirstFailure(TimePlan(a), f)
         else if FirstFailure(RequiredHeaderPlan(a), f).Some? then FirstFailure(RequiredHeaderPlan(a), f)
         else if FirstFailure(HeadersPlan(a.headerAssertions, 0), f).Some? then FirstFailure(HeadersPlan(a.headerAssertions, 0), f)
         else FirstFailure(BodyPlan(a), f)
  {
    var headers, body := HeadersPlan(a.headerAssertions, 0), BodyPlan(a);
    FirstFailureConcat([StatusIs(expected)], TimePlan(a) + (RequiredHeaderPlan(a) + (headers + body)), f);
    FirstFailureConcat(TimePlan(a), RequiredHeaderPlan(a) + (headers + body), f);
    FirstFailureConcat(RequiredHeaderPlan(a), headers + body, f);
    FirstFailureConcat(headers, body, f);
  }

  /** The result is a success, without reason or message, if every assertion holds; and
      otherwise it carries the reason of the first that fails. */
  ghost predicate Judges(result: CheckResult, plan: seq<Assertion>, f: Facts) {
    && (result.isSuccess <==> AllHold(plan, f))
    && (result.isSuccess <==> result.failureReason.None?)
    && (result.isSuccess <==> !result.hasErrorMessage)
    && (!result.isSuccess ==>
          exists k :: FirstFailing(plan, f, k) && result.failureReason == Some(ReasonFor(plan[k], f)))
  }

  lemma {:induction false} FirstFailureJudges(result: CheckResult, plan: seq<Assertion>, f: Facts)
    requires result.failureReason == FirstFailure(plan, f)
    requires result.isSuccess == result.failureReason.None? == !result.hasErrorMessage
    ensures Judges(result, plan, f)
  {
    NothingFails(plan, f);
    if !result.isSuccess {
      var k := FailurePosition(plan, f);
      FailsAt(plan, f, k);
    }
  }

  /** The assertions on the body; the body is read only if there is one. */
  method EvaluateBody(r: Response, a: HttpAssertions, maxBody: nat, libraries: Libraries) returns (failure: Option<Reason>)
    ensures failure == FirstFailure(BodyPlan(a), FactsOf(r, maxBody, libraries))
  {
    if !a.NeedsBody() {
      return None;
    }
    ghost var f := FactsOf(r, maxBody, libraries);
    FirstFailureConcat([BodyRead], ContainPlan(a) + (LackPlan(a) + JsonPlan(a)), f);
    FirstFailureConcat(ContainPlan(a), LackPlan(a) + JsonPlan(a), f);
    FirstFailureConcat(LackPlan(a), JsonPlan(a), f);
    var bytes := ReadCappedBody(r.chunks, r.failsAfter, maxBody);
    if bytes.None? {
      return Some(ResponseReadError);
    }
    var body := libraries.decode(bytes.value);
    failure := RequireTexts(body, a, f);
    if failure.None? {
      failure := ForbidTexts(body, a, f);
    }
    if failure.None? {
      failure := EvaluateJson(body, a, libraries, f);
    }
  }

  // -------------------------------------------------- what a reason says

  predicate BlamesHeader(part: HeaderPart, h: HeaderAssertion, f: Facts) {
    match part
    case ItsName => f.libraries.headerName(h.name).None?
    case Exists => HeaderOf(f, h.name).None?
    case Equals => h.equals.Some? && HeaderOf(f, h.name) != Some(Text(h.equals.value))
    case Contains =>
      h.contains.Some? && !(HeaderOf(f, h.name).Some? && HeaderOf(f, h.name).value.Text?
                            && Occurs(h.contains.value, HeaderOf(f, h.name).value.text))
  }

  predicate BlamesSubject(subject: Subject, a: HttpAssertions, f: Facts) {
    match subject
    case MaxResponseTime => a.maxResponseTimeMs.Some? && f.elapsed > a.maxResponseTimeMs.value
    case Header(Required, part) =>
      a.requiredHeaderName.Some?
      && BlamesHeader(part, HeaderAssertion(a.requiredHeaderName.value, a.requiredHeaderValue, None), f)
    case Header(Listed(i), part) => i < |a.headerAssertions| && BlamesHeader(part, a.headerAssertions[i], f)
    case BodyMustContain => a.bodyMustContain.Some? && !(f.body.Some? && Occurs(a.bodyMustContain.value, f.body.value))
    case BodyMustContainText(i) =>
      i < |a.bodyMustContainTexts| && !(f.body.Some? && Occurs(a.bodyMustContainTexts[i], f.body.value))
    case BodyMustNotContain => a.bodyMustNotContain.Some? && (f.body.Some? ==> Occurs(a.bodyMustNotContain.value, f.body.value))
    case BodyMustNotContainText(i) =>
      i < |a.bodyMustNotContainTexts| && (f.body.Some? ==> Occurs(a.bodyMustNotContainTexts[i], f.body.value))
    case JsonBody => DocumentOf(f).None?
    case JsonPathExists(i) => i < |a.jsonPathExists| && PathValue(f, a.jsonPathExists[i]).None?
    case JsonPathEquals(i) =>
      i < |a.jsonPathEquals| && PathValue(f, a.jsonPathEquals[i].path) != Some(a.jsonPathEquals[i].value)
    case JsonPathNotEquals(i) =>
      i < |a.jsonPathNotEquals| && PathValue(f, a.jsonPathNotEquals[i].path) in {None, Some(a.jsonPathNotEquals[i].value)}
  }

  /** The field that a reason points at asks for something that the answer does not have. */
  predicate Blames(reason: Reason, expected: int, a: HttpAssertions, f: Facts) {
    match reason
    case UnexpectedStatus => f.status != expected && !(300 <= f.status <= 399)
    case RedirectBlocked => f.status != expected && 300 <= f.status <= 399
    case ResponseReadError => f.body.None?
    case AssertionFailed(subject) => BlamesSubject(subject, a, f)
    case _ => false
  }

  lemma {:induction false} FailureIsBlamed(expected: int, a: HttpAssertions, x: Assertion, f: Facts)
    requires Configured(expected, a, x) && !Holds(x, f)
    ensures Blames(ReasonFor(x, f), expected, a, f)
  {
  }

  /** Whatever reason comes out, it is true of the field it names. */
  lemma {:induction false} ReasonsAreTrue(expected: int, a: HttpAssertions, f: Facts)
    ensures var reason := FirstFailure(Plan(expected, a), f); reason.Some? ==> Blames(reason.value, expected, a, f)
  {
    var plan := Plan(expected, a);
    NothingFails(plan, f);
    if !AllHold(plan, f) {
      var k := FailurePosition(plan, f);
      FailsAt(plan, f, k);
      PlanIsWhatIsConfigured(expected, a, plan[k]);
      FailureIsBlamed(expected, a, plan[k], f);
    }
  }

  method JudgeResponse(r: Response, expected: int, a: HttpAssertions, maxBody: nat, libraries: Libraries)
      returns (result: CheckResult)
    ensures result.statusCode == Some(r.status)
    ensures result.isSuccess <==> Meets(r, expected, a, maxBody, libraries)
    ensures r.status != expected ==>
      result.failureReason == Some(if 300 <= r.status <= 399 then RedirectBlocked else UnexpectedStatus)
    ensures r.status == expected && a.maxResponseTimeMs.Some? && r.elapsed > a.maxResponseTimeMs.value ==>
      result.failureReason == Some(AssertionFailed(MaxResponseTime))
    ensures result.failureReason.Some? ==> Blames(result.failureReason.value, expected, a, FactsOf(r, maxBody, libraries))
    ensures Judges(result, Plan(expected, a), FactsOf(r, maxBody, libraries))
  {
    ghost var f := FactsOf(r, maxBody, libraries);
    PlanInOrder(expected, a, f);
    var isSuccess := r.status == expected;
    var failureReason :=
      if isSuccess then None else if 300 <= r.status < 400 then Some(RedirectBlocked) else Some(UnexpectedStatus);
    var hasErrorMessage := !isSuccess;

    if isSuccess && a.maxResponseTimeMs.Some? && r.elapsed > a.maxResponseTimeMs.value {
      isSuccess, failureReason, hasErrorMessage := false, Some(AssertionFailed(MaxResponseTime)), true;
    }
    if isSuccess && a.requiredHeaderName.Some? {
      var required := HeaderAssertion(a.requiredHeaderName.value, a.requiredHeaderValue, None);
      HeaderVerdict(f, required, Required);
      var failure := EvaluateHeaderAssertion(r.headers, libraries, required, Required);
      if failure.Some? {
        isSuccess, failureReason, hasErrorMessage := false, failure, true;
      }
    }
    if isSuccess {
      var failure := EvaluateHeaders(r.headers, libraries, a.headerAssertions, f);
      if failure.Some? {
        isSuccess, failureReason, hasErrorMessage := false, failure, true;
      }
    }
    if isSuccess {
      var failure := EvaluateBody(r, a, maxBody, libraries);
      if failure.Some? {
        isSuccess, failureReason, hasErrorMessage := false, failure, true;
      }
    }
    result := CheckResult(isSuccess, Some(r.status), failureReason, hasErrorMessage);
    FirstFailureJudges(result, Plan(expected, a), f);
    ReasonsAreTrue(expected, a, f);
    PlanHoldsExactlyWhenMet(r, expected, a, maxBody, libraries);
  }

  datatype Send =
    | SendFailed(isConnect: bool, isTimeout: bool, isRedirect: bool)
    | Answered(response: Response)

  /** What each stage of the request comes to: the reason why the target, its certificate or
      the client is refused, if it is, and how sending ends. */
  datatype Attempt = Attempt(target: Option<string>, certificate: Option<string>, client: Option<string>, send: Send)

  function ClassifyRequestError(isConnect: bool, isTimeout: bool, isRedirect: bool): Reason {
    if isConnect then ConnectError else if isTimeout then TimedOut else if isRedirect then RedirectError else RequestError
  }

  /** Nothing keeps the request from being sent; certificates count only if they are checked. */
  predicate GoesOut(attempt: Attempt, a: HttpAssertions) {
    && attempt.target.None? && attempt.client.None?
    && (a.sslCertificateChecksEnabled ==> attempt.certificate.None?)
  }

  method CheckUrl(attempt: Attempt, expected: int, a: HttpAssertions, maxBody: nat, libraries: Libraries)
      returns (result: CheckResult)
    ensures result.isSuccess <==> result.failureReason.None? && !result.hasErrorMessage
    ensures result.isSuccess ==> GoesOut(attempt, a) && attempt.send.Answered?
    ensures GoesOut(attempt, a) && attempt.send.Answered? ==>
      (result.isSuccess <==> Meets(attempt.send.response, expected, a, maxBody, libraries))
    ensures result.statusCode.Some? <==> GoesOut(attempt, a) && attempt.send.Answered?
    ensures GoesOut(attempt, a) && attempt.send.Answered? ==>
      Judges(result, Plan(expected, a), FactsOf(attempt.send.response, maxBody, libraries))
    ensures GoesOut(attempt, a) && attempt.send.Answered? && result.failureReason.Some? ==>
      Blames(result.failureReason.value, expected, a, FactsOf(attempt.send.response, maxBody, libraries))
    ensures attempt.target.Some? ==> result.failureReason == Some(Unreachable(attempt.target.value))
    ensures attempt.target.None? && a.sslCertificateChecksEnabled && attempt.certificate.Some? ==>
      result.failureReason == Some(Unreachable(attempt.certificate.value))
    ensures attempt.target.None? && (a.sslCertificateChecksEnabled ==> attempt.certificate.None?) && attempt.client.Some? ==>
      result.failureReason == Some(Unreachable(attempt.client.value))
    ensures GoesOut(attempt, a) && attempt.send.SendFailed? ==>
      var sent, reason := attempt.send, result.failureReason;
      && (reason == Some(ConnectError) <==> sent.isConnect)
      && (reason == Some(TimedOut) <==> sent.isTimeout && !sent.isConnect)
      && (reason == Some(RedirectError) <==> sent.isRedirect && !sent.isTimeout && !sent.isConnect)
      && reason.Some? && reason.value in {ConnectError, TimedOut, RedirectError, RequestError}
  {
    if attempt.target.Some? {
      return CheckResult(false, None, Some(Unreachable(attempt.target.value)), true);
    }
    if a.sslCertificateChecksEnabled && attempt.certificate.Some? {
      return CheckResult(false, None, Some(Unreachable(attempt.certificate.value)), true);
    }
    if attempt.client.Some? {
      return CheckResult(false, None, Some(Unreachable(attempt.client.value)), true);
    }
    match attempt.send
    case SendFailed(c, t, d) => result := CheckResult(false, None, Some(ClassifyRequestError(c, t, d)), true);
    case Answered(response) => result := JudgeResponse(response, expected, a, maxBody, libraries);
  }

  // ------------------------------------------------------------ reasons as texts

  predicate IsNameChar(c: char) { 'a' <= c <= 'z' || c == '_' }

  predicate IsName(s: string) { forall i :: 0 <= i < |s| ==> IsNameChar(s[i]) }

  function PartText(part: HeaderPart): (s: string)
    ensures s != "" ==> s[0] == '.'
  {
    match part case ItsName => "" case Exists => ".exists" case Equals => ".equals" case Contains => ".contains"
  }

  function SubjectName(subject: Subject): string {
    match subject
    case MaxResponseTime => "max_response_time_ms"
    case Header(Required, _) => "required_header"
    case Header(Listed(_), _) => "header_assertions"
    case BodyMustContain => "body_must_contain"
    case BodyMustContainText(_) => "body_must_contain_texts"
    case BodyMustNotContain => "body_must_not_contain"
    case BodyMustNotContainText(_) => "body_must_not_contain_texts"
    case JsonBody => "json_body"
    case JsonPathExists(_) => "json_path_exists"
    case JsonPathEquals(_) => "json_path_equals"
    case JsonPathNotEquals(_) => "json_path_not_equals"
  }

  /** The index in brackets and the header part, as far as the subject has them. */
  function IndexOf(subject: Subject): Option<nat> {
    match subject
    case Header(Listed(index), _) => Some(index)
    case BodyMustContainText(index) => Some(index)
    case BodyMustNotContainText(index) => Some(index)
    case JsonPathExists(index) => Some(index)
    case JsonPathEquals(index) => Some(index)
    case JsonPathNotEquals(index) => Some(index)
    case _ => None
  }

  function PartOf(subject: Subject): HeaderPart {
    match subject case Header(_, part) => part case _ => ItsName
  }

  function SuffixText(index: Option<nat>, part: HeaderPart): (s: string)
    ensures s != "" ==> s[0] == '[' || s[0] == '.'
  {
    if index.None? then PartText(part) else "[" + (Numeral(index.value) + ("]" + PartText(part)))
  }

  function SubjectText(subject: Subject): string {
    SubjectName(subject) + SuffixText(IndexOf(subject), PartOf(subject))
  }

  function ReasonText(reason: Reason): string {
    match reason
    case UnexpectedStatus => "unexpected_status"
    case RedirectBlocked => "redirect_blocked"
    case ResponseReadError => "response_read_error"
    case ConnectError => "connect_error"
    case TimedOut => "timeout"
    case RedirectError => "redirect_error"
    case RequestError => "request_error"
    case Unreachable(why) => why
    case AssertionFailed(subject) => "assertion_failed:" + SubjectText(subject)
  }

  lemma {:induction false} SuffixIsInjective(i: Option<nat>, p: HeaderPart, j: Option<nat>, q: HeaderPart)
    requires SuffixText(i, p) == SuffixText(j, q)
    ensures i == j && p == q
  {
    if i.Some? && j.Some? {
      var x, y := "]" + PartText(p), "]" + PartText(q);
      var s, t := Numeral(i.value) + x, Numeral(j.value) + y;
      assert s == ("[" + s)[1..] == ("[" + t)[1..] == t;
      RunsSplit(IsDigit, Numeral(i.value), x, Numeral(j.value), y);
      NumeralIsInjective(i.value, j.value);
      assert PartText(p) == x[1..] == y[1..] == PartText(q);
    }
    PartIsInjective(p, q);
  }

  lemma {:induction false} PartIsInjective(p: HeaderPart, q: HeaderPart)
    ensures PartText(p) == PartText(q) ==> p == q
  {
    assert ".exists"[2] == 'x' && ".equals"[2] == 'q';
  }

  lemma {:induction false} HeaderNames()
    ensures IsName("max_response_time_ms") && IsName("required_header") && IsName("header_assertions")
  {
  }

  lemma {:induction false} BodyNames()
    ensures IsName("body_must_contain") && IsName("body_must_contain_texts")
    ensures IsName("body_must_not_contain") && IsName("body_must_not_contain_texts")
  {
  }

  lemma {:induction false} JsonNames()
    ensures IsName("json_body") && IsName("json_path_exists")
    ensures IsName("json_path_equals") && IsName("json_path_not_equals")
  {
  }

  lemma {:induction false} NamesAreNames(subject: Subject)
    ensures IsName(SubjectName(subject))
  {
    HeaderNames();
    BodyNames();
    JsonNames();
  }

  /** Which of the eleven names a subject has. */
  function Kind(subject: Subject): nat {
    match subject
    case MaxResponseTime => 0
    case Header(Required, _) => 1
    case Header(Listed(_), _) => 2
    case BodyMustContain => 3
    case BodyMustContainText(_) => 4
    case BodyMustNotContain => 5
    case BodyMustNotContainText(_) => 6
    case JsonBody => 7
    case JsonPathExists(_) => 8
    case JsonPathEquals(_) => 9
    case JsonPathNotEquals(_) => 10
  }

  lemma {:induction false} NamesDiffer(s: Subject, t: Subject)
    requires SubjectName(s) == SubjectName(t)
    ensures Kind(s) == Kind(t)
  {
    assert "max_response_time_ms"[0] == 'm' && "json_path_not_equals"[0] == 'j';
    assert "header_assertions"[0] == 'h' && "body_must_contain"[0] == 'b';
    assert "json_path_exists"[11] == 'x' && "json_path_equals"[11] == 'q';
  }

  lemma {:induction false} NameAndSuffixAgree(s: Subject, t: Subject)
    requires SubjectText(s) == SubjectText(t)
    ensures SubjectName(s) == SubjectName(t)
    ensures SuffixText(IndexOf(s), PartOf(s)) == SuffixText(IndexOf(t), PartOf(t))
  {
    NamesAreNames(s);
    NamesAreNames(t);
    var suffix, other := SuffixText(IndexOf(s), PartOf(s)), SuffixText(IndexOf(t), PartOf(t));
    assert suffix != "" ==> !IsNameChar(suffix[0]);
    assert other != "" ==> !IsNameChar(other[0]);
    RunsSplit(IsNameChar, SubjectName(s), suffix, SubjectName(t), other);
  }

  lemma {:induction false} KindAndPlaceSuffice(s: Subject, t: Subject)
    requires Kind(s) == Kind(t) && IndexOf(s) == IndexOf(t) && PartOf(s) == PartOf(t)
    ensures s == t
  {
  }

  lemma {:induction false} SubjectTextIsInjective(s: Subject, t: Subject)
    requires SubjectText(s) == SubjectText(t)
    ensures s == t
  {
    NameAndSuffixAgree(s, t);
    NamesDiffer(s, t);
    SuffixIsInjective(IndexOf(s), PartOf(s), IndexOf(t), PartOf(t));
    KindAndPlaceSuffice(s, t);
  }

  lemma {:induction false} SamePrefix(prefix: string, s: string, t: string)
    requires prefix + s == prefix + t
    ensures s == t
  {
    assert s == (prefix + s)[|prefix|..] == (prefix + t)[|prefix|..] == t;
  }

  lemma {:induction false} FailureTextsDiffer(s: Subject, t: Subject)
    requires ReasonText(AssertionFailed(s)) == ReasonText(AssertionFailed(t))
    ensures s == t
  {
    SamePrefix("assertion_failed:", SubjectText(s), SubjectText(t));
    SubjectTextIsInjective(s, t);
  }

  /** Different reasons have different texts, the free text of a refusal aside. */
  lemma {:induction false} ReasonTextIsInjective(r: Reason, q: Reason)
    requires !r.Unreachable? && !q.Unreachable? && ReasonText(r) == ReasonText(q)
    ensures r == q
  {
    if r.AssertionFailed? && q.AssertionFailed? {
      FailureTextsDiffer(r.subject, q.subject);
    } else if r.AssertionFailed? || q.AssertionFailed? {
      AssertionsStandOut(r);
      AssertionsStandOut(q);
    } else {
      OtherTextsDiffer(r, q);
    }
  }

  lemma {:induction false} OtherTextsDiffer(r: Reason, q: Reason)
    requires !r.Unreachable? && !r.AssertionFailed? && !q.Unreachable? && !q.AssertionFailed?
    requires ReasonText(r) == ReasonText(q)
    ensures r == q
  {
    assert "connect_error"[0] == 'c' && "request_error"[0] == 'r';
  }

  lemma {:induction false} AssertionsStandOut(r: Reason)
    requires !r.Unreachable?
    ensures r.AssertionFailed? <==> |ReasonText(r)| > 16 && ReasonText(r)[16] == ':'
  {
    assert "unexpected_status"[16] == 's' && "response_read_error"[16] == 'r' && "assertion_failed:"[16] == ':';
  }

  // ---------------------------------------------------- a reason names one assertion

  /** The stage that reports a reason, and the place within the stage. */
  function RankOf(reason: Reason): (nat, nat) {
    match reason
    case UnexpectedStatus => (0, 0)
    case RedirectBlocked => (0, 0)
    case ResponseReadError => (4, 0)
    case AssertionFailed(MaxResponseTime) => (1, 0)
    case AssertionFailed(Header(Required, part)) => (2, PartRank(part))
    case AssertionFailed(Header(Listed(index), part)) => (3, 4 * index + PartRank(part))
    case AssertionFailed(BodyMustContain) => (5, 0)
    case AssertionFailed(BodyMustContainText(index)) => (6, index)
    case AssertionFailed(BodyMustNotContain) => (7, 0)
    case AssertionFailed(BodyMustNotContainText(index)) => (8, index)
    case AssertionFailed(JsonBody) => (9, 0)
    case AssertionFailed(JsonPathExists(index)) => (10, index)
    case AssertionFailed(JsonPathEquals(index)) => (11, index)
    case AssertionFailed(JsonPathNotEquals(index)) => (12, index)
    case _ => (13, 0)
  }

  function PartRank(part: HeaderPart): nat {
    match part case ItsName => 0 case Exists => 1 case Equals => 2 case Contains => 3
  }

  function Rank(a: Assertion, f: Facts): (nat, nat) { RankOf(ReasonFor(a, f)) }

  predicate Before(x: (nat, nat), y: (nat, nat)) { x.0 < y.0 || (x.0 == y.0 && x.1 < y.1) }

  /** Ranks increase along the list, from `lo` on and before `hi`. */
  predicate Ranked(plan: seq<Assertion>, f: Facts, lo: (nat, nat), hi: (nat, nat)) {
    && (forall i :: 0 <= i < |plan| ==> !Before(Rank(plan[i], f), lo) && Before(Rank(plan[i], f), hi))
    && (forall i, j :: 0 <= i < j < |plan| ==> Before(Rank(plan[i], f), Rank(plan[j], f)))
  }

  lemma {:induction false} RankedConcat(p: seq<Assertion>, q: seq<Assertion>, f: Facts,
                                        lo: (nat, nat), mid: (nat, nat), hi: (nat, nat))
    requires Ranked(p, f, lo, mid) && Ranked(q, f, mid, hi)
    requires !Before(mid, lo) && !Before(hi, mid)
    ensures Ranked(p + q, f, lo, hi)
  {
    var all := p + q;
    assert forall i :: 0 <= i < |all| ==> all[i] == if i < |p| then p[i] else q[i - |p|];
  }

  /** A list with the ranks of one stage, from a place on. */
  lemma {:induction false} StageRanked(plan: seq<Assertion>, f: Facts, stage: nat, place: nat, hi: (nat, nat))
    requires forall i :: 0 <= i < |plan| ==> Rank(plan[i], f) == (stage, place + i)
    requires stage < hi.0 || (stage == hi.0 && place + |plan| <= hi.1)
    ensures Ranked(plan, f, (stage, place), hi)
  {
    forall i, j | 0 <= i < j < |plan|
      ensures Before(Rank(plan[i], f), Rank(plan[j], f))
    {
      assert Rank(plan[i], f) == (stage, place + i);
    }
  }

  lemma {:induction false} HeaderRanked(owner: HeaderOwner, a: HeaderAssertion, f: Facts)
    ensures var stage, place := if owner.Required? then 2 else 3, if owner.Required? then 0 else 4 * owner.index;
      Ranked(HeaderPlan(owner, a), f, (stage, place), (stage, place + 4))
  {
    var stage, place: nat := if owner.Required? then 2 else 3, if owner.Required? then 0 else 4 * owner.index;
    var equal := Optional(a.equals, text => HeaderEquals(owner, a.name, text));
    var contain := Optional(a.contains, text => HeaderContains(owner, a.name, text));
    StageRanked(equal, f, stage, place + 2, (stage, place + 3));
    StageRanked(contain, f, stage, place + 3, (stage, place + 4));
    RankedConcat(equal, contain, f, (stage, place + 2), (stage, place + 3), (stage, place + 4));
    StageRanked([HeaderPresent(owner, a.name)], f, stage, place + 1, (stage, place + 2));
    RankedConcat([HeaderPresent(owner, a.name)], equal + contain, f, (stage, place + 1), (stage, place + 2), (stage, place + 4));
    StageRanked([HeaderNamed(owner, a.name)], f, stage, place, (stage, place + 1));
    RankedConcat([HeaderNamed(owner, a.name)], [HeaderPresent(owner, a.name)] + (equal + contain), f,
      (stage, place), (stage, place + 1), (stage, place + 4));
  }

  lemma {:induction false} HeadersRanked(headers: seq<HeaderAssertion>, from: nat, f: Facts)
    requires from <= |headers|
    ensures Ranked(HeadersPlan(headers, from), f, (3, 4 * from), (4, 0))
    decreases |headers| - from
  {
    if from < |headers| {
      HeaderRanked(Listed(from), headers[from], f);
      HeadersRanked(headers, from + 1, f);
      RankedConcat(HeaderPlan(Listed(from), headers[from]), HeadersPlan(headers, from + 1), f,
        (3, 4 * from), (3, 4 * (from + 1)), (4, 0));
    }
  }

  lemma {:induction false} ContainRanked(a: HttpAssertions, f: Facts)
    ensures Ranked(ContainPlan(a), f, (5, 0), (7, 0))
  {
    var single := Optional(a.bodyMustContain, text => BodyContains(BodyMustContain, text));
    var listed := TextsPlan(a.bodyMustContainTexts, (i: nat, text) => BodyContains(BodyMustContainText(i), text));
    StageRanked(single, f, 5, 0, (6, 0));
    StageRanked(listed, f, 6, 0, (7, 0));
    RankedConcat(single, listed, f, (5, 0), (6, 0), (7, 0));
  }

  lemma {:induction false} LackRanked(a: HttpAssertions, f: Facts)
    ensures Ranked(LackPlan(a), f, (7, 0), (9, 0))
  {
    var single := Optional(a.bodyMustNotContain, text => BodyLacks(BodyMustNotContain, text));
    var listed := TextsPlan(a.bodyMustNotContainTexts, (i: nat, text) => BodyLacks(BodyMustNotContainText(i), text));
    StageRanked(single, f, 7, 0, (8, 0));
    StageRanked(listed, f, 8, 0, (9, 0));
    RankedConcat(single, listed, f, (7, 0), (8, 0), (9, 0));
  }

  lemma {:induction false} PathsRanked(a: HttpAssertions, f: Facts)
    ensures Ranked(PathsPlan(a), f, (10, 0), (13, 0))
  {
    var exist := TextsPlan(a.jsonPathExists, (i: nat, path) => PathExists(i, path));
    var equal := ValuesPlan(a.jsonPathEquals, (i: nat, path, value) => PathEquals(i, path, value));
    var differ := ValuesPlan(a.jsonPathNotEquals, (i: nat, path, value) => PathDiffers(i, path, value));
    StageRanked(exist, f, 10, 0, (11, 0));
    StageRanked(equal, f, 11, 0, (12, 0));
    StageRanked(differ, f, 12, 0, (13, 0));
    RankedConcat(equal, differ, f, (11, 0), (12, 0), (13, 0));
    RankedConcat(exist, equal + differ, f, (10, 0), (11, 0), (13, 0));
  }

  lemma {:induction false} BodyRanked(a: HttpAssertions, f: Facts)
    ensures Ranked(BodyPlan(a), f, (4, 0), (13, 0))
  {
    PathsRanked(a, f);
    StageRanked([BodyIsJson], f, 9, 0, (10, 0));
    RankedConcat([BodyIsJson], PathsPlan(a), f, (9, 0), (10, 0), (13, 0));
    LackRanked(a, f);
    RankedConcat(LackPlan(a), JsonPlan(a), f, (7, 0), (9, 0), (13, 0));
    ContainRanked(a, f);
    RankedConcat(ContainPlan(a), LackPlan(a) + JsonPlan(a), f, (5, 0), (7, 0), (13, 0));
    StageRanked([BodyRead], f, 4, 0, (5, 0));
    RankedConcat([BodyRead], ContainPlan(a) + (LackPlan(a) + JsonPlan(a)), f, (4, 0), (5, 0), (13, 0));
  }

  lemma {:induction false} HeadersAndBodyRanked(a: HttpAssertions, f: Facts)
    ensures Ranked(RequiredHeaderPlan(a) + (HeadersPlan(a.headerAssertions, 0) + BodyPlan(a)), f, (2, 0), (13, 0))
  {
    var headers, body := HeadersPlan(a.headerAssertions, 0), BodyPlan(a);
    HeadersRanked(a.headerAssertions, 0, f);
    BodyRanked(a, f);
    RankedConcat(headers, body, f, (3, 0), (4, 0), (13, 0));
    if a.requiredHeaderName.Some? {
      HeaderRanked(Required, HeaderAssertion(a.requiredHeaderName.value, a.requiredHeaderValue, None), f);
    }
    RankedConcat(RequiredHeaderPlan(a), headers + body, f, (2, 0), (3, 0), (13, 0));
  }

  lemma {:induction false} PlanRanked(expected: int, a: HttpAssertions, f: Facts)
    ensures Ranked(Plan(expected, a), f, (0, 0), (13, 0))
  {
    var rest := RequiredHeaderPlan(a) + (HeadersPlan(a.headerAssertions, 0) + BodyPlan(a));
    HeadersAndBodyRanked(a, f);
    StageRanked(TimePlan(a), f, 1, 0, (2, 0));
    RankedConcat(TimePlan(a), rest, f, (1, 0), (2, 0), (13, 0));
    StageRanked([StatusIs(expected)], f, 0, 0, (1, 0));
    RankedConcat([StatusIs(expected)], TimePlan(a) + rest, f, (0, 0), (1, 0), (13, 0));
  }

  /** The order is fixed, and no two assertions of one check share a reason: the reason
      of a failed check points at exactly one of them. */
  lemma {:induction false} ReasonNamesOneAssertion(expected: int, a: HttpAssertions, f: Facts, i: nat, j: nat)
    requires i < j < |Plan(expected, a)|
    ensures ReasonText(ReasonFor(Plan(expected, a)[i], f)) != ReasonText(ReasonFor(Plan(expected, a)[j], f))
    ensures Before(Rank(Plan(expected, a)[i], f), Rank(Plan(expected, a)[j], f))
  {
    PlanRanked(expected, a, f);
    var r, q := ReasonFor(Plan(expected, a)[i], f), ReasonFor(Plan(expected, a)[j], f);
    if ReasonText(r) == ReasonText(q) {
      ReasonTextIsInjective(r, q);
    }
  }
}
