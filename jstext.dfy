/** The JavaScript string built-ins the car actions rely on:
    `String.prototype.trim`, and the decimal text a template literal
    produces for a non-negative integer. */
module JsText {

  /** A character `trim` removes: an ECMAScript WhiteSpace (tab, vertical tab,
      form feed, the byte order mark and every space separator) or
      LineTerminator (line feed, carriage return, line and paragraph separator). */
  predicate IsWhitespace(c: char) {
    c == '\t' || c == '\U{B}' || c == '\U{C}' || c == ' ' || c == '\U{A0}' || c == '\U{FEFF}'
    || c == '\U{1680}' || ('\U{2000}' <= c <= '\U{200A}') || c == '\U{202F}' || c == '\U{205F}'
    || c == '\U{3000}' || c == '\n' || c == '\r' || c == '\U{2028}' || c == '\U{2029}'
  }

  predicate AllWhitespace(s: string) {
    forall k :: 0 <= k < |s| ==> IsWhitespace(s[k])
  }

  /** Number of whitespace characters at the start of `s`. */
  function LeadingWhitespace(s: string): (k: nat)
    ensures k <= |s|
    ensures forall m :: 0 <= m < k ==> IsWhitespace(s[m])
    ensures k == |s| || !IsWhitespace(s[k])
  {
    if s == [] || !IsWhitespace(s[0]) then 0 else 1 + LeadingWhitespace(s[1..])
  }

  /** Number of whitespace characters at the end of `s`. */
  function TrailingWhitespace(s: string): (k: nat)
    ensures k <= |s|
    ensures forall m :: |s| - k <= m < |s| ==> IsWhitespace(s[m])
    ensures k == |s| || !IsWhitespace(s[|s| - 1 - k])
  {
    if s == [] || !IsWhitespace(s[|s| - 1]) then 0 else 1 + TrailingWhitespace(s[..|s| - 1])
  }

  /** `s.trim()`: `s` without its leading and trailing whitespace. */
  function Trim(s: string): string {
    var t := s[LeadingWhitespace(s)..];
    t[..|t| - TrailingWhitespace(t)]
  }

  /** What `trim` returns is the slice of `s` left after removing only
      whitespace from both ends, and it neither starts nor ends with whitespace. */
  lemma TrimIsWhitespaceFreeCore(s: string)
    ensures var r := Trim(s);
      (r == [] || (!IsWhitespace(r[0]) && !IsWhitespace(r[|r| - 1])))
      && exists i, j :: 0 <= i <= j <= |s| && r == s[i..j]
           && AllWhitespace(s[..i]) && AllWhitespace(s[j..])
  {
    var i := LeadingWhitespace(s);
    var t := s[i..];
    var k := TrailingWhitespace(t);
    var j := i + |t| - k;
    var r := Trim(s);
    SliceOfSlice(s, i, |t| - k);
    assert r == s[i..j];
    assert AllWhitespace(s[..i]) by {
      forall m | 0 <= m < i
        ensures IsWhitespace(s[..i][m])
      {
        assert s[..i][m] == s[m];
      }
    }
    assert AllWhitespace(s[j..]) by {
      forall m | 0 <= m < |s| - j
        ensures IsWhitespace(s[j..][m])
      {
        assert s[j..][m] == t[|t| - k + m];
      }
    }
    if r != [] {
      assert r[0] == t[0];
      assert r[|r| - 1] == t[|t| - 1 - k];
    }
  }

  lemma SliceOfSlice<T>(s: seq<T>, i: nat, n: nat)
    requires i + n <= |s|
    ensures s[i..][..n] == s[i..i + n]
  {
  }

  /** Appending whitespace does not change what `trim` returns. */
  lemma TrimIgnoresAppendedWhitespace(s: string, w: string)
    requires AllWhitespace(w)
    ensures Trim(s + w) == Trim(s)
  {
    var i := LeadingWhitespace(s);
    if i == |s| {
      assert AllWhitespace(s + w);
      TrimOfWhitespace(s + w);
      TrimOfWhitespace(s);
    } else {
      TrimWithWhitespaceSuffix(s, w, i);
    }
  }

  lemma TrimOfWhitespace(s: string)
    requires AllWhitespace(s)
    ensures Trim(s) == []
  {
    LeadingCountOfWhitespace(s);
  }

  lemma TrimWithWhitespaceSuffix(s: string, w: string, i: nat)
    requires AllWhitespace(w) && i == LeadingWhitespace(s) && i < |s|
    ensures Trim(s + w) == Trim(s)
  {
    LeadingCountWithSuffix(s, w, i);
    var t := s[i..];
    SuffixOfAppend(s, w, i);
    TrailingCountWithSuffix(t, w);
    var n := |t| - TrailingWhitespace(t);
    assert |t + w| - TrailingWhitespace(t + w) == n;
    PrefixOfAppend(t, w, n);
  }

  lemma SuffixOfAppend<T>(s: seq<T>, w: seq<T>, i: nat)
    requires i <= |s|
    ensures (s + w)[i..] == s[i..] + w
  {
  }

  lemma PrefixOfAppend<T>(t: seq<T>, w: seq<T>, n: nat)
    requires n <= |t|
    ensures (t + w)[..n] == t[..n]
  {
  }

  lemma LeadingCountOfWhitespace(s: string)
    requires AllWhitespace(s)
    ensures LeadingWhitespace(s) == |s|
  {
  }

  lemma LeadingCountWithSuffix(s: string, w: string, i: nat)
    requires i == LeadingWhitespace(s) && i < |s|
    ensures LeadingWhitespace(s + w) == i
  {
    assert forall m :: 0 <= m < |s| ==> (s + w)[m] == s[m];
  }

  lemma {:induction false} TrailingCountWithSuffix(t: string, w: string)
    requires AllWhitespace(w)
    requires t != [] && !IsWhitespace(t[0])
    ensures TrailingWhitespace(t + w) == TrailingWhitespace(t) + |w|
  {
    if w != [] {
      var w' := w[..|w| - 1];
      assert (t + w)[..|t + w| - 1] == t + w';
      TrailingCountWithSuffix(t, w');
    } else {
      assert t + w == t;
    }
  }

  /** Trimming twice is trimming once. */
  lemma TrimIdempotent(s: string)
    ensures Trim(Trim(s)) == Trim(s)
  {
    TrimIsWhitespaceFreeCore(s);
    var r := Trim(s);
    if r != [] {
      assert LeadingWhitespace(r) == 0;
      assert TrailingWhitespace(r) == 0;
    }
  }

  predicate IsDigit(c: char) {
    '0' <= c <= '9'
  }

  predicate AllDigits(s: string) {
    forall k :: 0 <= k < |s| ==> IsDigit(s[k])
  }

  function DigitChar(d: nat): (c: char)
    requires d < 10
    ensures IsDigit(c)
  {
    ('0' as int + d) as char
  }

  function DigitValue(c: char): (d: nat)
    requires IsDigit(c)
    ensures d < 10
  {
    c as int - '0' as int
  }

  /** The text `${n}` gives for a non-negative integer `n`: its decimal digits,
      most significant first, with no leading zero. */
  function DecimalString(n: nat): (s: string)
    ensures |s| > 0 && AllDigits(s)
    ensures |s| > 1 ==> s[0] != '0'
  {
    if n < 10 then [DigitChar(n)] else DecimalString(n / 10) + [DigitChar(n % 10)]
  }

  /** The number a string of decimal digits denotes. */
  function DecimalValue(s: string): nat
    requires AllDigits(s)
  {
    if s == [] then 0 else DecimalValue(s[..|s| - 1]) * 10 + DigitValue(s[|s| - 1])
  }

  /** Reading back the decimal text of `n` gives `n`. */
  lemma {:induction false} DecimalRoundTrip(n: nat)
    ensures DecimalValue(DecimalString(n)) == n
  {
    if n >= 10 {
      DecimalRoundTrip(n / 10);
      var s := DecimalString(n);
      assert s[..|s| - 1] == DecimalString(n / 10);
    }
  }

  /** Distinct numbers have distinct decimal texts. */
  lemma DecimalStringInjective(a: nat, b: nat)
    requires DecimalString(a) == DecimalString(b)
    ensures a == b
  {
    DecimalRoundTrip(a);
    DecimalRoundTrip(b);
  }
}
