/** The JavaScript primitives the structural engine leans on, stated over
    Dafny strings and exact reals: String.prototype.trim, the regular
    expression /^\d/, a string's `length` (counted in UTF-16 code units) and
    Math.round. */
module JsPrims {

  /** ECMAScript WhiteSpace and LineTerminator code points: exactly what
      String.prototype.trim strips from both ends. */
  predicate IsJsWhitespace(c: char) {
    || c == '\t' || c == '\n' || c == '\U{000B}' || c == '\U{000C}' || c == '\r'
    || c == ' ' || c == '\U{00A0}' || c == '\U{1680}'
    || ('\U{2000}' <= c <= '\U{200A}')
    || c == '\U{2028}' || c == '\U{2029}' || c == '\U{202F}' || c == '\U{205F}'
    || c == '\U{3000}' || c == '\U{FEFF}'
  }

  /** `\d` in a regular expression without the `u` flag: an ASCII digit. */
  predicate IsAsciiDigit(c: char) {
    '0' <= c <= '9'
  }

  predicate AllWhitespace(s: string) {
    forall j :: 0 <= j < |s| ==> IsJsWhitespace(s[j])
  }

  /** Drops leading whitespace: the result is a suffix of `s`, everything cut
      off is whitespace, and the result does not start with whitespace. */
  function TrimStart(s: string): (r: string)
    ensures |r| <= |s| && r == s[|s| - |r|..]
    ensures forall j :: 0 <= j < |s| - |r| ==> IsJsWhitespace(s[j])
    ensures |r| > 0 ==> !IsJsWhitespace(r[0])
  {
    if |s| > 0 && IsJsWhitespace(s[0]) then TrimStart(s[1..]) else s
  }

  /** Drops trailing whitespace: the result is a prefix of `s`, everything cut
      off is whitespace, and the result does not end with whitespace. */
  function TrimEnd(s: string): (r: string)
    ensures |r| <= |s| && r == s[..|r|]
    ensures forall j :: |r| <= j < |s| ==> IsJsWhitespace(s[j])
    ensures |r| > 0 ==> !IsJsWhitespace(r[|r| - 1])
  {
    if |s| > 0 && IsJsWhitespace(s[|s| - 1]) then TrimEnd(s[..|s| - 1]) else s
  }

  /** String.prototype.trim. A trimmed string is empty exactly when the
      original consists of whitespace only, and a non-empty one neither
      starts nor ends with whitespace. */
  function Trim(s: string): (r: string)
    ensures |r| <= |s|
    ensures |r| == 0 <==> AllWhitespace(s)
    ensures |r| > 0 ==> !IsJsWhitespace(r[0]) && !IsJsWhitespace(r[|r| - 1])
  {
    var t := TrimStart(s);
    var r := TrimEnd(t);
    assert |t| > 0 ==> t[0] == s[|s| - |t|];
    assert |r| > 0 ==> r[0] == t[0];
    assert AllWhitespace(s) ==> |t| == 0;
    r
  }

  /** What `TrimStart` cuts is a whitespace prefix. */
  lemma TrimStartCut(s: string)
    ensures var a := |s| - |TrimStart(s)|;
      AllWhitespace(s[..a]) && TrimStart(s) == s[a..]
  {
    var a := |s| - |TrimStart(s)|;
    forall j | 0 <= j < a
      ensures IsJsWhitespace(s[..a][j])
    {
      assert s[..a][j] == s[j];
    }
  }

  /** What `TrimEnd` cuts is a whitespace suffix. */
  lemma TrimEndCut(t: string)
    ensures var n := |TrimEnd(t)|;
      AllWhitespace(t[n..]) && TrimEnd(t) == t[..n]
  {
    var n := |TrimEnd(t)|;
    forall j | 0 <= j < |t| - n
      ensures IsJsWhitespace(t[n..][j])
    {
      assert t[n..][j] == t[n + j];
    }
  }

  /** `r` is the slice of `s` starting at `a`, and everything of `s` before
      and after it is whitespace. */
  predicate IsWhitespaceFramedSlice(s: string, r: string, a: int) {
    && 0 <= a && a + |r| <= |s| && r == s[a..a + |r|]
    && AllWhitespace(s[..a]) && AllWhitespace(s[a + |r|..])
  }

  /** Cutting a whitespace prefix off `s` and then a whitespace suffix off
      what remains leaves a whitespace-framed slice of `s`. */
  lemma CutTwice(s: string, t: string, r: string)
    requires |t| <= |s| && t == s[|s| - |t|..] && AllWhitespace(s[..|s| - |t|])
    requires |r| <= |t| && r == t[..|r|] && AllWhitespace(t[|r|..])
    ensures IsWhitespaceFramedSlice(s, r, |s| - |t|)
  {
    var a := |s| - |t|;
    assert s[a + |r|..] == t[|r|..];
  }

  /** `trim()` cuts whitespace only, and only from the two ends: the result
      is the slice of `s` between a whitespace prefix (as long as what
      `TrimStart` drops) and a whitespace suffix. With `Trim`'s own contract
      (the slice neither starts nor ends with whitespace), it is the longest
      such slice. */
  lemma TrimIsSlice(s: string)
    ensures IsWhitespaceFramedSlice(s, Trim(s), |s| - |TrimStart(s)|)
  {
    var t := TrimStart(s);
    assert Trim(s) == TrimEnd(t);
    TrimStartCut(s);
    TrimEndCut(t);
    CutTwice(s, t, Trim(s));
  }

  /** `/^\d/.test(t)`. */
  predicate StartsWithDigit(t: string) {
    |t| > 0 && IsAsciiDigit(t[0])
  }

  /** A digit is never whitespace. */
  lemma DigitIsNotWhitespace(c: char)
    requires IsAsciiDigit(c)
    ensures !IsJsWhitespace(c)
  {
  }

  /** `s` has an ASCII digit at `k` preceded by whitespace only. */
  predicate DigitFirstAt(s: string, k: int) {
    0 <= k < |s| && IsAsciiDigit(s[k]) && forall j :: 0 <= j < k ==> IsJsWhitespace(s[j])
  }

  /** The first character of the trimmed string sits at the first index of
      `s` that is not whitespace. */
  lemma TrimFirstChar(s: string)
    ensures var a := |s| - |TrimStart(s)|;
      (|Trim(s)| > 0 <==> a < |s|) && (a < |s| ==> Trim(s)[0] == s[a])
  {
    var t := TrimStart(s);
    var r := TrimEnd(t);
    if |t| > 0 {
      assert |r| > 0 && r[0] == t[0];
    }
  }

  /** A digit preceded by whitespace only is the first character of the
      trimmed string. */
  lemma DigitFirstAtTrims(s: string, k: int)
    requires DigitFirstAt(s, k)
    ensures StartsWithDigit(Trim(s))
  {
    var a := |s| - |TrimStart(s)|;
    TrimFirstChar(s);
    DigitIsNotWhitespace(s[k]);
    assert a <= k;
    assert !IsJsWhitespace(s[a]) by {
      assert |TrimStart(s)| > 0;
    }
    assert a == k;
  }

  /** The first non-whitespace character of a trimmed string is the first
      non-whitespace character of the original: `/^\d/.test(s.trim())` holds
      exactly when the first character of `s` that is not whitespace is an
      ASCII digit. */
  lemma TrimmedStartsWithDigit(s: string)
    ensures StartsWithDigit(Trim(s)) <==> exists k :: DigitFirstAt(s, k)
  {
    TrimFirstChar(s);
    if StartsWithDigit(Trim(s)) {
      assert DigitFirstAt(s, |s| - |TrimStart(s)|);
    }
    if k :| DigitFirstAt(s, k) {
      DigitFirstAtTrims(s, k);
    }
  }

  /** The number of UTF-16 code units of `s`, which is what a JavaScript
      string's `length` counts: one per character of the Basic Multilingual
      Plane, two (a surrogate pair) per character above it. */
  function Utf16Length(s: string): (n: nat)
    ensures |s| <= n <= 2 * |s|
    ensures n == |s| <==> forall j :: 0 <= j < |s| ==> (s[j] as int) < 0x1_0000
  {
    if |s| == 0 then 0
    else (if (s[0] as int) < 0x1_0000 then 1 else 2) + Utf16Length(s[1..])
  }

  /** Math.round: the nearest integer, halves rounded towards +infinity. */
  function JsRound(v: real): (k: int)
    ensures k as real - 0.5 <= v < k as real + 0.5
  {
    (v + 0.5).Floor
  }
}
