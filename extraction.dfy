/** The vision-model half of the car actions, `processCarImageAI`
    (actions/cars.ts:40-144), once the model call and `JSON.parse` are
    replaced by their outcomes. */
module Extraction {
  import opened Wrappers
  import opened Fences

  /** A value `JSON.parse` can produce. */
  datatype JsonValue =
    | JNull
    | JBool(b: bool)
    | JNumber(n: real)
    | JString(s: string)
    | JArray(items: seq<JsonValue>)
    | JObject(members: map<string, JsonValue>)

  /** The outcome of `JSON.parse` on the cleaned text. */
  datatype ParseResult = SyntaxError | Parsed(value: JsonValue)

  /** What the image read and the model call (`fileToBase64`,
      `generateContent`, `response.text()`) ended with: the reply text, or a
      thrown value, with its message when it is an `Error`. */
  datatype ModelCall = Replied(text: string) | Threw(message: Option<string>)

  /** The `{success, data}` / `{success, error}` object the action returns. */
  datatype AnalysisResult = Extracted(data: JsonValue) | NotExtracted(error: string)

  /** A call that returns a value or raises an exception with a message. */
  datatype Completion<T> = Returned(value: T) | Raised(message: string)

  const RequiredFields: seq<string> :=
    ["make", "model", "year", "color", "bodyType", "price", "mileage",
     "fuelType", "transmission", "description", "confidence"]

  const ParseFailure: string := "Failed to parse AI response"
  const ServiceErrorPrefix: string := "Gemini API error: "
  const MissingKeyMessage: string := "Gemini API key is not configured"

  /** Values the `in` operator accepts; on any other value it throws a TypeError. */
  predicate IsObjectLike(v: JsonValue) {
    v.JObject? || v.JArray?
  }

  /** `key in v` for a required field name. None of these names is an array
      index, `length`, or a member of the object or array prototypes, so only
      an object's own members answer yes. */
  predicate HasField(v: JsonValue, key: string)
    requires IsObjectLike(v)
  {
    v.JObject? && key in v.members
  }

  /** `a` is `b` with some elements left out, order kept. */
  predicate IsSubsequence<T(==)>(a: seq<T>, b: seq<T>)
    decreases |b|
  {
    if a == [] then true
    else if b == [] then false
    else (a[0] == b[0] && IsSubsequence(a[1..], b[1..])) || IsSubsequence(a, b[1..])
  }

  predicate Distinct<T(==)>(s: seq<T>) {
    forall i, j :: 0 <= i < j < |s| ==> s[i] != s[j]
  }

  /** `fields.filter(field => !(field in v))`. */
  function MissingAmong(v: JsonValue, fields: seq<string>): (r: seq<string>)
    requires IsObjectLike(v)
    ensures forall f :: f in r <==> f in fields && !HasField(v, f)
    ensures IsSubsequence(r, fields)
  {
    if fields == [] then []
    else if HasField(v, fields[0]) then MissingAmong(v, fields[1..])
    else [fields[0]] + MissingAmong(v, fields[1..])
  }

  /** The missing-field list of actions/cars.ts:100-116, or None when the
      `in` test throws because the parsed value is not an object. */
  function MissingFields(v: JsonValue): (r: Option<seq<string>>)
    ensures r.None? <==> !IsObjectLike(v)
    ensures r.Some? ==> forall f :: f in r.value <==> f in RequiredFields && !(v.JObject? && f in v.members)
  {
    if IsObjectLike(v) then Some(MissingAmong(v, RequiredFields)) else None
  }

  /** The inner `try` of actions/cars.ts:97-134 applied to the raw reply: the
      cleaned text is parsed; a syntax error, a value `in` rejects, or a missing
      field all end in the same failure object, and otherwise the parsed value
      is returned unchanged, its field values unchecked. */
  function AnalyzeReply(text: string, parse: string -> ParseResult): (r: AnalysisResult)
    ensures r.Extracted? <==>
      var p := parse(CleanResponse(text));
      p.Parsed? && p.value.JObject? && forall f :: f in RequiredFields ==> f in p.value.members
    ensures r.Extracted? ==> Parsed(r.data) == parse(CleanResponse(text))
    ensures r.NotExtracted? ==> r.error == ParseFailure
  {
    match parse(CleanResponse(text))
    case SyntaxError => NotExtracted(ParseFailure)
    case Parsed(v) =>
      match MissingFields(v)
      case None => NotExtracted(ParseFailure)
      case Some(missing) =>
        if |missing| > 0 then
          assert missing[0] in missing;
          NotExtracted(ParseFailure)
        else Extracted(v)
  }

  /** `!process.env.GEMINI_API_KEY`: unset or empty. */
  predicate KeyMissing(apiKey: Option<string>) {
    apiKey.None? || apiKey.value == ""
  }

  /** `processCarImageAI`: a missing key or a failed model call raises an
      exception whose message starts with "Gemini API error: "; everything
      after a reply is received is reported in the returned object. */
  function ProcessCarImageAI(apiKey: Option<string>, call: ModelCall, parse: string -> ParseResult)
    : (r: Completion<AnalysisResult>)
    ensures r.Raised? <==> KeyMissing(apiKey) || call.Threw?
    ensures r.Raised? ==> ServiceErrorPrefix <= r.message
    ensures KeyMissing(apiKey) ==> r.message == ServiceErrorPrefix + MissingKeyMessage
    ensures !KeyMissing(apiKey) && call.Threw? ==>
      r.message == ServiceErrorPrefix + (if call.message.Some? then call.message.value else "Unknown error")
    ensures !KeyMissing(apiKey) && call.Replied? ==> r.value == AnalyzeReply(call.text, parse)
  {
    if KeyMissing(apiKey) then Raised(ServiceErrorPrefix + MissingKeyMessage)
    else match call
      case Threw(message) =>
        Raised(ServiceErrorPrefix + (if message.Some? then message.value else "Unknown error"))
      case Replied(text) => Returned(AnalyzeReply(text, parse))
  }

  // ---------------------------------------------------------------------
  // Properties of the field check

  lemma {:induction false} SubsequenceMembers<T>(a: seq<T>, b: seq<T>, x: T)
    requires IsSubsequence(a, b) && x in a
    ensures x in b
    decreases |b|
  {
    if a[0] == b[0] && IsSubsequence(a[1..], b[1..]) {
      if x != a[0] {
        SubsequenceMembers(a[1..], b[1..], x);
      }
    } else {
      SubsequenceMembers(a, b[1..], x);
    }
  }

  /** Over a list without repetitions, a subsequence is determined by its
      members. */
  lemma {:induction false} SubsequenceDeterminedByMembers<T>(a: seq<T>, c: seq<T>, b: seq<T>)
    requires Distinct(b) && IsSubsequence(a, b) && IsSubsequence(c, b)
    requires forall x :: x in a <==> x in c
    ensures a == c
    decreases |b|
  {
    assert a == [] <==> c == [] by {
      if a != [] { assert a[0] in a; }
      if c != [] { assert c[0] in c; }
    }
    if a != [] {
      var b' := b[1..];
      assert Distinct(b');
      assert b[0] !in b';
      var aHead := a[0] == b[0] && IsSubsequence(a[1..], b');
      var cHead := c[0] == b[0] && IsSubsequence(c[1..], b');
      if aHead && cHead {
        forall x ensures x in a[1..] <==> x in c[1..] {
          if x in a[1..] { SubsequenceMembers(a[1..], b', x); }
          if x in c[1..] { SubsequenceMembers(c[1..], b', x); }
          assert x in a <==> x == a[0] || x in a[1..];
          assert x in c <==> x == c[0] || x in c[1..];
        }
        SubsequenceDeterminedByMembers(a[1..], c[1..], b');
      } else if !aHead && !cHead {
        SubsequenceDeterminedByMembers(a, c, b');
      } else if aHead {
        SubsequenceMembers(c, b', a[0]);
      } else {
        SubsequenceMembers(a, b', c[0]);
      }
    }
  }

  lemma RequiredFieldsDistinct()
    ensures Distinct(RequiredFields)
  {
  }

  /** The missing-field list is exactly the required names the object lacks,
      in the fixed order of the required list: any list with those members
      that keeps that order is this list. */
  lemma MissingFieldsIsOrderedFilter(v: JsonValue, candidate: seq<string>)
    requires IsObjectLike(v)
    requires IsSubsequence(candidate, RequiredFields)
    requires forall f :: f in candidate <==> f in RequiredFields && !HasField(v, f)
    ensures MissingFields(v) == Some(candidate)
  {
    RequiredFieldsDistinct();
    SubsequenceDeterminedByMembers(candidate, MissingAmong(v, RequiredFields), RequiredFields);
  }

  /** A reply lacking only `confidence` reports exactly that field missing
      and is rejected with the generic parse failure. */
  lemma MissingConfidenceRejected(m: map<string, JsonValue>, text: string, parse: string -> ParseResult)
    requires forall f :: f in RequiredFields && f != "confidence" ==> f in m
    requires "confidence" !in m
    requires parse(CleanResponse(text)) == Parsed(JObject(m))
    ensures MissingFields(JObject(m)) == Some(["confidence"])
    ensures AnalyzeReply(text, parse) == NotExtracted(ParseFailure)
  {
    assert RequiredFields[10] == "confidence";
    var candidate := ["confidence"];
    assert IsSubsequence(candidate, RequiredFields[10..]);
    assert IsSubsequence(candidate, RequiredFields) by {
      var k := 10;
      while k > 0
        invariant 0 <= k <= 10
        invariant IsSubsequence(candidate, RequiredFields[k..])
      {
        assert RequiredFields[k - 1..][1..] == RequiredFields[k..];
        k := k - 1;
      }
    }
    MissingFieldsIsOrderedFilter(JObject(m), candidate);
  }

  /** Whether a reply is accepted depends only on which names its parsed
      object has, never on their values: two replies whose objects have the
      same names are both accepted or both rejected, so years, prices and
      confidences pass through without any range check. */
  lemma AcceptanceIgnoresValues(text1: string, m1: map<string, JsonValue>,
                                text2: string, m2: map<string, JsonValue>,
                                parse: string -> ParseResult)
    requires parse(CleanResponse(text1)) == Parsed(JObject(m1))
    requires parse(CleanResponse(text2)) == Parsed(JObject(m2))
    requires m1.Keys == m2.Keys
    ensures AnalyzeReply(text1, parse).Extracted? <==> AnalyzeReply(text2, parse).Extracted?
    ensures AnalyzeReply(text1, parse).Extracted? ==>
      AnalyzeReply(text1, parse).data == JObject(m1) && AnalyzeReply(text2, parse).data == JObject(m2)
  {
  }

  /** A reply wrapped in a code fence is judged exactly as its bare body. */
  lemma FencedReplyJudgedAsBody(body: string, tagged: bool, parse: string -> ParseResult)
    requires '`' !in body
    ensures var open := if tagged then "```json\n" else "```\n";
      AnalyzeReply(open + body + "\n```", parse) == AnalyzeReply(body, parse)
  {
    FencedBodyCleansToBody(body, tagged);
  }
}
