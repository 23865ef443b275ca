/**
 * String operations the chat code relies on: Java's `String.trim`, the
 * JavaScript `String.prototype.trim`, Java's `equalsIgnoreCase`, and the
 * '/'-separated tokenisation Spring's AntPathMatcher applies to destinations.
 */
module Text {

  /** Java `String.trim` strips every char whose code is at most U+0020. */
  predicate IsJavaTrimmable(c: char) {
    c <= ' '
  }

  /** The chars JavaScript's `trim` strips: WhiteSpace and LineTerminator of ECMA-262 (section 12.2 and 12.3). */
  predicate IsJsWhitespace(c: char) {
    || c == '\t' || c == '\n' || c == '\U{000B}' || c == '\U{000C}' || c == '\r' || c == ' '
    || c == '\U{00A0}' || c == '\U{1680}' || ('\U{2000}' <= c <= '\U{200A}')
    || c == '\U{2028}' || c == '\U{2029}' || c == '\U{202F}' || c == '\U{205F}'
    || c == '\U{3000}' || c == '\U{FEFF}'
  }

  /** `s` without its leading chars that satisfy `space`. */
  function TrimStart(s: string, space: char -> bool): (r: string)
    ensures |r| <= |s| && r == s[|s| - |r|..]
    ensures forall i | 0 <= i < |s| - |r| :: space(s[i])
    ensures |r| > 0 ==> !space(r[0])
  {
    if |s| > 0 && space(s[0]) then
      var r := TrimStart(s[1..], space);
      assert s[1..][|s| - 1 - |r|..] == s[|s| - |r|..];
      assert forall i | 1 <= i < |s| - |r| :: s[i] == s[1..][i - 1];
      r
    else s
  }

  /** `s` without its trailing chars that satisfy `space`. */
  function TrimEnd(s: string, space: char -> bool): (r: string)
    ensures |r| <= |s| && r == s[..|r|]
    ensures forall i | |r| <= i < |s| :: space(s[i])
    ensures |r| > 0 ==> !space(r[|r| - 1])
  {
    if |s| > 0 && space(s[|s| - 1]) then
      var r := TrimEnd(s[..|s| - 1], space);
      assert s[..|s| - 1][..|r|] == s[..|r|];
      r
    else s
  }

  /** Both ends stripped: the middle of `s` that starts and ends with a non-space. */
  function Trim(s: string, space: char -> bool): (r: string)
    ensures |r| <= |s|
    ensures |r| > 0 ==> !space(r[0]) && !space(r[|r| - 1])
  {
    var a := TrimStart(s, space);
    var r := TrimEnd(a, space);
    assert |r| > 0 ==> r[0] == a[0];
    r
  }

  /** The trim is the infix of `s` between a leading and a trailing run of spaces. */
  lemma {:induction false} TrimIsInfix(s: string, space: char -> bool) returns (k: nat)
    ensures k + |Trim(s, space)| <= |s|
    ensures Trim(s, space) == s[k..k + |Trim(s, space)|]
    ensures forall i | 0 <= i < k :: space(s[i])
    ensures forall i | k + |Trim(s, space)| <= i < |s| :: space(s[i])
  {
    var a := TrimStart(s, space);
    var r := TrimEnd(a, space);
    assert Trim(s, space) == r;
    k := |s| - |a|;
    assert a == s[k..];
    assert a[..|r|] == s[k..k + |r|];
    forall i | k + |r| <= i < |s|
      ensures space(s[i])
    {
      assert s[i] == a[i - k];
    }
  }

  function JavaTrim(s: string): string {
    Trim(s, IsJavaTrimmable)
  }

  function JsTrim(s: string): string {
    Trim(s, IsJsWhitespace)
  }

  /** A string that starts and ends with a non-space is its own trim. */
  lemma {:induction false} TrimOfTrimmed(s: string, space: char -> bool)
    requires |s| > 0 ==> !space(s[0]) && !space(s[|s| - 1])
    ensures Trim(s, space) == s
  {
  }

  /** Trimming twice is trimming once. */
  lemma TrimIdempotent(s: string, space: char -> bool)
    ensures Trim(Trim(s, space), space) == Trim(s, space)
  {
    TrimOfTrimmed(Trim(s, space), space);
  }

  /** The trim is empty exactly when every char of `s` is a space. */
  lemma {:induction false} TrimEmptyIffAllSpace(s: string, space: char -> bool)
    ensures Trim(s, space) == "" <==> forall i | 0 <= i < |s| :: space(s[i])
  {
    var r := Trim(s, space);
    var k := TrimIsInfix(s, space);
    if r != "" {
      assert s[k] == r[0];
    }
  }

  /** ASCII upper-casing; the only folding Java applies to the letters of "General". */
  function AsciiUpper(c: char): char {
    if 'a' <= c <= 'z' then (c as int - 32) as char else c
  }

  /** Java `String.equalsIgnoreCase`, restricted to ASCII case folding. */
  predicate EqualsIgnoreCase(a: string, b: string) {
    |a| == |b| && forall i | 0 <= i < |a| :: a[i] == b[i] || AsciiUpper(a[i]) == AsciiUpper(b[i])
  }

  /** The length of the leading run of `s` that holds no '/'. */
  function SegmentLength(s: string): (n: nat)
    ensures n <= |s|
    ensures forall i | 0 <= i < n :: s[i] != '/'
    ensures n < |s| ==> s[n] == '/'
  {
    if |s| == 0 || s[0] == '/' then 0 else 1 + SegmentLength(s[1..])
  }

  /**
   * AntPathMatcher's tokenisation of a path: split on '/', empty tokens
   * dropped, tokens not trimmed.
   */
  function Tokens(s: string): (ts: seq<string>)
    ensures forall i | 0 <= i < |ts| :: |ts[i]| > 0 && '/' !in ts[i]
    decreases |s|
  {
    if |s| == 0 then []
    else if s[0] == '/' then Tokens(s[1..])
    else
      var n := SegmentLength(s);
      [s[..n]] + Tokens(s[n..])
  }

  /** A path written as '/' followed by '/'-joined non-empty segments tokenises back to those segments. */
  lemma {:induction false} TokensOfJoined(segments: seq<string>)
    requires forall i | 0 <= i < |segments| :: |segments[i]| > 0 && '/' !in segments[i]
    ensures Tokens(Join(segments)) == segments
    decreases |segments|
  {
    if |segments| > 0 {
      TokensOfLeading(segments[0], Join(segments[1..]));
      TokensOfJoined(segments[1..]);
    }
  }

  /** A leading '/'-delimited segment is the first token, and the rest tokenises on its own. */
  lemma {:induction false} TokensOfLeading(a: string, rest: string)
    requires |a| > 0 && '/' !in a
    requires |rest| == 0 || rest[0] == '/'
    ensures Tokens("/" + a + rest) == [a] + Tokens(rest)
  {
    var s := "/" + a + rest;
    assert s[1..] == a + rest;
    SegmentLengthOfPrefix(a, rest);
    assert (a + rest)[..|a|] == a;
    assert (a + rest)[|a|..] == rest;
  }

  /** '/' in front of every segment: the inverse of `Tokens` on canonical paths. */
  function Join(segments: seq<string>): (s: string)
    ensures |s| == 0 || s[0] == '/'
  {
    if |segments| == 0 then "" else "/" + segments[0] + Join(segments[1..])
  }

  lemma {:induction false} SegmentLengthOfPrefix(a: string, rest: string)
    requires |a| > 0 && '/' !in a
    requires |rest| == 0 || rest[0] == '/'
    ensures SegmentLength(a + rest) == |a|
    decreases |a|
  {
    if |a| > 1 {
      assert (a + rest)[1..] == a[1..] + rest;
      SegmentLengthOfPrefix(a[1..], rest);
    } else {
      assert (a + rest)[1..] == rest;
    }
  }
}
