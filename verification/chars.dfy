/** Character classes and the string primitives the loader borrows from JavaScript:
    the `\s` class, greedy runs of a character class, and `String.prototype.trim`. */
module Chars {

  /** The whitespace characters that stand for JavaScript's `\s` class and for what
      `trim` removes: space, tab, line feed, carriage return, form feed, vertical tab. */
  predicate IsWs(c: char) {
    c == ' ' || c == '\t' || c == '\n' || c == '\r' || c == '\U{C}' || c == '\U{B}'
  }

  predicate NotWs(c: char) {
    !IsWs(c)
  }

  /** The two quote characters of the class `["']`. */
  predicate IsQuote(c: char) {
    c == '"' || c == '\''
  }

  predicate NotQuote(c: char) {
    !IsQuote(c)
  }

  /** The class `[A-Z]` of the pattern `/^[A-Z-]/`. */
  predicate IsUpperAscii(c: char) {
    'A' <= c <= 'Z'
  }

  predicate AllWs(s: string) {
    forall i :: 0 <= i < |s| ==> IsWs(s[i])
  }

  predicate NoWs(s: string) {
    forall i :: 0 <= i < |s| ==> !IsWs(s[i])
  }

  predicate NoQuote(s: string) {
    forall i :: 0 <= i < |s| ==> !IsQuote(s[i])
  }

  /** `s` begins with `t`. */
  predicate StartsWith(s: string, t: string) {
    |t| <= |s| && s[..|t|] == t
  }

  /** The length of the longest prefix of `s` whose characters all satisfy `p`: what
      a greedy `[...]*` over a character class consumes. */
  function SpanLen(s: string, p: char -> bool): (n: nat)
    ensures n <= |s|
    ensures forall i :: 0 <= i < n ==> p(s[i])
    ensures n == |s| || !p(s[n])
  {
    if |s| == 0 || !p(s[0]) then 0 else 1 + SpanLen(s[1..], p)
  }

  /** The greedy run is the only prefix that is made of `p`-characters and cannot be
      extended: a greedy star over a class never needs to backtrack. */
  lemma {:induction false} SpanLenUnique(s: string, p: char -> bool, n: nat)
    requires n <= |s|
    requires forall i :: 0 <= i < n ==> p(s[i])
    requires n == |s| || !p(s[n])
    ensures SpanLen(s, p) == n
  {
    if n > 0 {
      assert p(s[0]);
      forall i | 0 <= i < n - 1
        ensures p(s[1..][i])
      {
        assert s[1..][i] == s[i + 1];
      }
      SpanLenUnique(s[1..], p, n - 1);
    }
  }

  /** `s` with its leading whitespace removed. */
  function SkipWs(s: string): (r: string)
    ensures |r| <= |s|
    ensures r == [] || !IsWs(r[0])
  {
    s[SpanLen(s, IsWs)..]
  }

  /** The index just past the last non-whitespace character of `s`, or 0 when there
      is none. */
  function EndOfContent(s: string): (e: nat)
    ensures e <= |s|
    ensures forall i :: e <= i < |s| ==> IsWs(s[i])
    ensures e == 0 || !IsWs(s[e - 1])
  {
    if |s| == 0 || !IsWs(s[|s| - 1]) then |s| else EndOfContent(s[..|s| - 1])
  }

  /** `String.prototype.trim`: no whitespace at either end of the result, and an
      empty result exactly for a blank input. */
  function Trim(s: string): (r: string)
    ensures r == [] <==> AllWs(s)
    ensures r != [] ==> !IsWs(r[0]) && !IsWs(r[|r| - 1])
  {
    var a := SpanLen(s, IsWs);
    var e := EndOfContent(s);
    if a < e then s[a..e] else []
  }

  /** What `trim` keeps is a contiguous middle part of the input, between a
      whitespace-only head and a whitespace-only tail. */
  lemma TrimIsMiddle(s: string)
    ensures exists k :: 0 <= k <= |s| - |Trim(s)| && AllWs(s[..k]) && s[k..k + |Trim(s)|] == Trim(s)
                        && AllWs(s[k + |Trim(s)|..])
  {
    var a := SpanLen(s, IsWs);
    var e := EndOfContent(s);
    if a < e {
      assert AllWs(s[..a]);
      assert AllWs(s[e..]);
    } else {
      assert AllWs(s[..|s|]);
      assert s[..|s|] == s;
    }
  }

  /** `trim` changes nothing exactly when there is no whitespace at either end. */
  lemma TrimFixedPoint(s: string)
    ensures Trim(s) == s <==> (s == [] || (!IsWs(s[0]) && !IsWs(s[|s| - 1])))
  {
    if s != [] && !IsWs(s[0]) && !IsWs(s[|s| - 1]) {
      assert SpanLen(s, IsWs) == 0;
      assert EndOfContent(s) == |s|;
      assert s[0..|s|] == s;
    }
  }

  /** Trimming twice is trimming once. */
  lemma TrimIdempotent(s: string)
    ensures Trim(Trim(s)) == Trim(s)
  {
    TrimFixedPoint(Trim(s));
  }

  /** A whitespace-free string is its own trim. */
  lemma TrimNoWs(s: string)
    requires NoWs(s)
    ensures Trim(s) == s
  {
    TrimFixedPoint(s);
  }

  /** Trimming keeps only characters of the input, so it cannot bring in a quote. */
  lemma TrimKeepsQuoteFreedom(s: string)
    requires NoQuote(s)
    ensures NoQuote(Trim(s))
  {
    var a := SpanLen(s, IsWs);
    var e := EndOfContent(s);
    if a < e {
      var r := s[a..e];
      forall i | 0 <= i < |r|
        ensures !IsQuote(r[i])
      {
        assert r[i] == s[a + i];
      }
    }
  }

  /** A slice of a quote-free string is quote-free. */
  lemma NoQuoteSlice(s: string, i: nat, j: nat)
    requires NoQuote(s) && i <= j <= |s|
    ensures NoQuote(s[i..j])
  {
    forall k | 0 <= k < j - i
      ensures !IsQuote(s[i..j][k])
    {
      assert s[i..j][k] == s[i + k];
    }
  }
}
