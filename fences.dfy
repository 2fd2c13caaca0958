/** Clean-up of the vision model's reply before it is parsed
    (actions/cars.ts:95): every match of the global pattern
    ```(?:json)?\n? is deleted, then the text is trimmed. */
module Fences {
  import opened JsText

  /** Three backticks start at position `k` of `s`. */
  predicate MarkerAt(s: string, k: int) {
    0 <= k && k + 3 <= |s| && s[k] == '`' && s[k + 1] == '`' && s[k + 2] == '`'
  }

  predicate MarkerFree(s: string) {
    forall k :: 0 <= k < |s| ==> !MarkerAt(s, k)
  }

  /** Length of the pattern's match at the start of `s`: the three backticks,
      then `json` if it follows, then one line feed if it follows. Both optional
      parts are greedy and nothing after them can fail, so the match never
      backtracks. */
  function MatchLength(s: string): (n: nat)
    requires MarkerAt(s, 0)
    ensures 3 <= n <= |s| && n <= 8
  {
    var afterTag := if 7 <= |s| && s[3..7] == "json" then 7 else 3;
    if afterTag < |s| && s[afterTag] == '\n' then afterTag + 1 else afterTag
  }

  /** `s.replace(/```(?:json)?\n?/g, '')`: scanning left to right, a match is
      deleted and the scan resumes after it; any other character is kept. */
  function StripFences(s: string): (r: string)
    ensures |r| <= |s|
    decreases |s|
  {
    if s == [] then []
    else if MarkerAt(s, 0) then StripFences(s[MatchLength(s)..])
    else [s[0]] + StripFences(s[1..])
  }

  /** The text handed to the JSON parser. */
  function CleanResponse(text: string): string {
    Trim(StripFences(text))
  }

  /** If the stripped text starts with two backticks, so did the input. */
  lemma {:induction false} StrippedStartsWithTwoBackticks(t: string)
    requires |StripFences(t)| >= 2 && StripFences(t)[0] == '`' && StripFences(t)[1] == '`'
    ensures |t| >= 2 && t[0] == '`' && t[1] == '`'
  {
    if !MarkerAt(t, 0) {
      var rest := StripFences(t[1..]);
      assert StripFences(t) == [t[0]] + rest;
      assert rest[0] == '`';
      StrippedStartsWithBacktick(t[1..]);
    }
  }

  lemma StrippedStartsWithBacktick(t: string)
    requires |StripFences(t)| >= 1 && StripFences(t)[0] == '`'
    ensures |t| >= 1 && t[0] == '`'
  {
  }

  /** Stripping leaves no three backticks in a row anywhere: every fence
      marker is gone, including any formed by deleting another marker. */
  lemma {:induction false} StripFencesLeavesNoMarker(s: string)
    ensures MarkerFree(StripFences(s))
    decreases |s|
  {
    if s == [] {
    } else if MarkerAt(s, 0) {
      StripFencesLeavesNoMarker(s[MatchLength(s)..]);
    } else {
      var rest := StripFences(s[1..]);
      StripFencesLeavesNoMarker(s[1..]);
      var r := StripFences(s);
      assert r == [s[0]] + rest;
      forall k | 0 <= k
        ensures !MarkerAt(r, k)
      {
        if k == 0 {
          if |rest| >= 2 && rest[0] == '`' && rest[1] == '`' {
            StrippedStartsWithTwoBackticks(s[1..]);
          }
        } else if MarkerAt(r, k) {
          assert MarkerAt(rest, k - 1);
        }
      }
    }
  }

  /** Text without a marker passes through unchanged. */
  lemma {:induction false} StripFencesKeepsMarkerFree(s: string)
    requires MarkerFree(s)
    ensures StripFences(s) == s
    decreases |s|
  {
    if s != [] {
      assert !MarkerAt(s, 0);
      assert forall k :: MarkerAt(s[1..], k) ==> MarkerAt(s, k + 1);
      StripFencesKeepsMarkerFree(s[1..]);
    }
  }

  /** Stripping is idempotent. */
  lemma StripFencesIdempotent(s: string)
    ensures StripFences(StripFences(s)) == StripFences(s)
  {
    StripFencesLeavesNoMarker(s);
    StripFencesKeepsMarkerFree(StripFences(s));
  }

  /** A prefix without backticks is kept as it is. */
  lemma {:induction false} StripFencesKeepsPlainPrefix(x: string, y: string)
    requires '`' !in x
    ensures StripFences(x + y) == x + StripFences(y)
    decreases |x|
  {
    if x != [] {
      assert !MarkerAt(x + y, 0);
      assert (x + y)[1..] == x[1..] + y;
      StripFencesKeepsPlainPrefix(x[1..], y);
    } else {
      assert x + y == y;
    }
  }

  /** The usual fenced reply — an opening fence (bare or tagged `json`) with
      its line feed, a body without backticks, a line feed and a closing
      fence — is cleaned to the trimmed body, exactly as the bare body is. */
  lemma FencedBodyCleansToBody(body: string, tagged: bool)
    requires '`' !in body
    ensures var open := if tagged then "```json\n" else "```\n";
      CleanResponse(open + body + "\n```") == Trim(body) == CleanResponse(body)
  {
    var open := if tagged then "```json\n" else "```\n";
    var s := open + body + "\n```";
    assert MarkerAt(s, 0);
    if tagged {
      assert s[3..7] == "json" && s[7] == '\n';
    } else {
      assert s[3] == '\n';
    }
    assert MatchLength(s) == |open|;
    assert s[|open|..] == (body + "\n") + "```";
    StripFencesKeepsPlainPrefix(body + "\n", "```");
    assert MarkerAt("```", 0) && MatchLength("```") == 3;
    assert StripFences("```") == StripFences([]);
    assert StripFences(s) == body + "\n";
    TrimIgnoresAppendedWhitespace(body, "\n");
    StripFencesKeepsPlainPrefix(body, []);
    assert body + [] == body;
  }
}
