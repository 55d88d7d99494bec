/** Whitespace tokenising: JavaScript's `split(/\s+/)`, the reference notion of the
    class-name tokens of a string, and `join(' ')`. */
module Tokens {
  import opened Chars

  /** A list of class-name tokens: each one non-empty and free of whitespace. */
  predicate WellFormedTokens(ws: seq<string>) {
    forall i :: 0 <= i < |ws| ==> ws[i] != [] && NoWs(ws[i])
  }

  /** A string in normal form: no whitespace at either end, and every whitespace
      character is a single space between two non-whitespace characters. */
  predicate Normalized(s: string) {
    && (s == [] || (!IsWs(s[0]) && !IsWs(s[|s| - 1])))
    && forall i :: 0 <= i < |s| && IsWs(s[i]) ==>
         s[i] == ' ' && 0 < i < |s| - 1 && !IsWs(s[i - 1]) && !IsWs(s[i + 1])
  }

  /** `s.split(/\s+/)`: the pieces between maximal whitespace runs. As in
      JavaScript, the first piece is empty exactly when the text is empty or starts
      with whitespace (`SplitWsFirst`), and every piece strictly between the first
      and the last is non-empty (`SplitWsMiddle`). */
  function SplitWs(s: string): (pieces: seq<string>)
    ensures |pieces| >= 1
    ensures forall i :: 0 <= i < |pieces| ==> NoWs(pieces[i])
    decreases |s|
  {
    var n := SpanLen(s, NotWs);
    TokenAtFront(s);
    if n == |s| then
      assert s[..n] == s;
      [s]
    else
      SkipWsShorter(s[n..]);
      var tail := SplitWs(SkipWs(s[n..]));
      AllNoWsCons(s[..n], tail);
      [s[..n]] + tail
  }

  /** One step of `SplitWs`: the greedy non-whitespace run at the front, then the
      pieces of what follows the whitespace run after it. */
  lemma SplitWsStep(s: string)
    ensures var n := SpanLen(s, NotWs);
            if n == |s| then SplitWs(s) == [s]
            else s[n..] != [] && IsWs(s[n..][0]) && SplitWs(s) == [s[..n]] + SplitWs(SkipWs(s[n..]))
  {
    var n := SpanLen(s, NotWs);
    if n == |s| {
      assert s[..n] == s;
    } else {
      assert s[n..][0] == s[n];
    }
  }

  /** The first piece of `split(/\s+/)` is empty exactly when the text is empty or
      starts with whitespace. */
  lemma SplitWsFirst(s: string)
    ensures SplitWs(s)[0] == [] <==> (s == [] || IsWs(s[0]))
  {
    SplitWsStep(s);
    var n := SpanLen(s, NotWs);
    if n > 0 {
      assert NotWs(s[0]);
    }
  }

  /** Every piece of `split(/\s+/)` strictly between the first and the last is
      non-empty: the empty pieces sit only at the ends. */
  lemma {:induction false} SplitWsMiddle(s: string)
    ensures var p := SplitWs(s);
            forall i :: 0 < i < |p| - 1 ==> p[i] != []
    decreases |s|
  {
    SplitWsStep(s);
    var n := SpanLen(s, NotWs);
    if n < |s| {
      var t := SkipWs(s[n..]);
      SkipWsShorter(s[n..]);
      SplitWsMiddle(t);
      SplitWsFirst(t);
      var p := SplitWs(s);
      var tail := SplitWs(t);
      if t == [] {
        SplitWsStep(t);
      } else {
        forall i | 0 < i < |p| - 1
          ensures p[i] != []
        {
          assert p[i] == tail[i - 1];
        }
      }
    }
  }

  /** The greedy run of non-whitespace at the front of `s` is whitespace-free. */
  lemma TokenAtFront(s: string)
    ensures NoWs(s[..SpanLen(s, NotWs)])
  {
    var n := SpanLen(s, NotWs);
    forall i | 0 <= i < n
      ensures !IsWs(s[..n][i])
    {
      assert NotWs(s[i]);
    }
  }

  /** Skipping the whitespace at the front of a text that starts with whitespace
      shortens it. */
  lemma SkipWsShorter(t: string)
    requires t != [] && IsWs(t[0])
    ensures |SkipWs(t)| < |t|
  {
    assert SpanLen(t, IsWs) > 0;
  }

  lemma AllNoWsCons(w: string, tail: seq<string>)
    requires NoWs(w)
    requires forall i :: 0 <= i < |tail| ==> NoWs(tail[i])
    ensures forall i :: 0 <= i < |[w] + tail| ==> NoWs(([w] + tail)[i])
  {
    forall i | 0 <= i < |[w] + tail|
      ensures NoWs(([w] + tail)[i])
    {
      if i > 0 {
        assert ([w] + tail)[i] == tail[i - 1];
      }
    }
  }

  /** The class-name tokens of `s`: its maximal runs of non-whitespace characters,
      in order. */
  function Words(s: string): (ws: seq<string>)
    ensures WellFormedTokens(ws)
    decreases |s|
  {
    var t := SkipWs(s);
    if t == [] then
      []
    else
      var n := SpanLen(t, NotWs);
      assert n > 0 by {
        assert NotWs(t[0]);
      }
      TokenAtFront(t);
      var tail := Words(t[n..]);
      WellFormedCons(t[..n], tail);
      [t[..n]] + tail
  }

  /** `list.join(' ')`: one space between neighbours, nothing at the ends. */
  function JoinSpace(ws: seq<string>): (r: string)
    ensures ws != [] ==> |r| == |Flatten(ws)| + |ws| - 1
  {
    if |ws| == 0 then []
    else if |ws| == 1 then ws[0]
    else ws[0] + " " + JoinSpace(ws[1..])
  }

  /** `list.filter(Boolean)` on strings: the empty string is falsy. */
  function DropEmpty(xs: seq<string>): (r: seq<string>)
    ensures forall i :: 0 <= i < |r| ==> r[i] != []
    ensures |r| <= |xs|
    ensures forall x :: x in r <==> x in xs && x != []
  {
    if xs == [] then []
    else if xs[0] == [] then DropEmpty(xs[1..])
    else [xs[0]] + DropEmpty(xs[1..])
  }

  /** `filter(Boolean)` works piece by piece, so it keeps the order and the
      repetitions of the strings it does not drop. */
  lemma {:induction false} DropEmptyConcat(a: seq<string>, b: seq<string>)
    ensures DropEmpty(a + b) == DropEmpty(a) + DropEmpty(b)
    decreases |a|
  {
    if a == [] {
      assert a + b == b;
    } else {
      assert (a + b)[0] == a[0];
      assert (a + b)[1..] == a[1..] + b;
      DropEmptyConcat(a[1..], b);
    }
  }

  /** On one string, `filter(Boolean)` drops it exactly when it is empty. */
  lemma DropEmptySingle(x: string)
    ensures DropEmpty([x]) == (if x == [] then [] else [x])
  {
    assert [x][1..] == [];
  }

  /** Concatenation of all tokens. */
  function Flatten(ws: seq<string>): string
  {
    if ws == [] then [] else ws[0] + Flatten(ws[1..])
  }

  /** `item.replace(/\s+/g, '')`: the non-whitespace characters of `s`, in order. */
  function NonWsChars(s: string): (r: string)
    ensures NoWs(r)
  {
    if s == [] then []
    else if IsWs(s[0]) then NonWsChars(s[1..])
    else [s[0]] + NonWsChars(s[1..])
  }

  lemma SkipWsNonWs(s: string)
    requires s == [] || !IsWs(s[0])
    ensures SkipWs(s) == s
  {
    assert SpanLen(s, IsWs) == 0;
  }

  lemma SkipWsAllWs(s: string)
    requires AllWs(s)
    ensures SkipWs(s) == []
  {
    SpanLenUnique(s, IsWs, |s|);
  }

  /** Leading whitespace does not change the tokens. */
  lemma WordsSkipLeadingWs(s: string)
    ensures Words(SkipWs(s)) == Words(s)
  {
    SkipWsNonWs(SkipWs(s));
  }

  /** A string has no tokens exactly when it is whitespace only. */
  lemma WordsEmpty(s: string)
    ensures Words(s) == [] <==> AllWs(s)
  {
    if AllWs(s) {
      SkipWsAllWs(s);
    } else {
      var n := SpanLen(s, IsWs);
      assert n < |s|;
    }
  }

  /** What `split(/\s+/).filter(Boolean)` keeps is exactly the token list. */
  lemma {:induction false} SplitDropEmptyIsWords(s: string)
    ensures DropEmpty(SplitWs(s)) == Words(s)
    decreases |s|
  {
    var n := SpanLen(s, NotWs);
    if n == |s| {
      if n == 0 {
        assert s == [];
      } else {
        SkipWsNonWs(s);
        assert s[..n] == s && s[n..] == [];
        assert Words(s) == [s] + Words([]);
      }
    } else {
      var rest := s[n..];
      var next := SkipWs(rest);
      assert SplitWs(s) == [s[..n]] + SplitWs(next);
      SplitDropEmptyIsWords(next);
      WordsSkipLeadingWs(rest);
      if n == 0 {
        assert rest == s;
        assert DropEmpty(SplitWs(s)) == DropEmpty(SplitWs(next));
      } else {
        SkipWsNonWs(s);
        assert DropEmpty(SplitWs(s)) == [s[..n]] + DropEmpty(SplitWs(next));
        assert Words(s) == [s[..n]] + Words(rest);
      }
    }
  }

  /** Whitespace removal works piece by piece. */
  lemma NonWsCharsConcat(a: string, b: string)
    ensures NonWsChars(a + b) == NonWsChars(a) + NonWsChars(b)
  {
    if a == [] {
      assert a + b == b;
    } else {
      assert (a + b)[1..] == a[1..] + b;
    }
  }

  lemma NonWsCharsAllWs(s: string)
    requires AllWs(s)
    ensures NonWsChars(s) == []
  {
  }

  lemma NonWsCharsNoWs(s: string)
    requires NoWs(s)
    ensures NonWsChars(s) == s
  {
  }

  /** The tokens, put back together, are exactly the non-whitespace characters of
      the input: tokenising loses only whitespace. */
  lemma {:induction false} WordsKeepContent(s: string)
    ensures Flatten(Words(s)) == NonWsChars(s)
    decreases |s|
  {
    var t := SkipWs(s);
    NonWsCharsSkipWs(s);
    if t != [] {
      var n := SpanLen(t, NotWs);
      var w := t[..n];
      var rest := t[n..];
      calc {
        Flatten(Words(s));
        Flatten([w] + Words(rest));
        { assert ([w] + Words(rest))[1..] == Words(rest); }
        w + Flatten(Words(rest));
        { WordsKeepContent(rest); }
        w + NonWsChars(rest);
        { NonWsCharsNoWs(w); }
        NonWsChars(w) + NonWsChars(rest);
        { NonWsCharsConcat(w, rest); assert t == w + rest; }
        NonWsChars(t);
      }
    }
  }

  /** Leading whitespace holds no non-whitespace characters. */
  lemma NonWsCharsSkipWs(s: string)
    ensures NonWsChars(SkipWs(s)) == NonWsChars(s)
  {
    var a := SpanLen(s, IsWs);
    assert s == s[..a] + s[a..];
    NonWsCharsConcat(s[..a], s[a..]);
    NonWsCharsAllWs(s[..a]);
  }

  /** A token followed by whitespace (or nothing) is the first token. */
  lemma WordsCons(w: string, rest: string)
    requires w != [] && NoWs(w)
    requires rest == [] || IsWs(rest[0])
    ensures Words(w + rest) == [w] + Words(rest)
  {
    var s := w + rest;
    SkipWsNonWs(s);
    SpanLenUnique(s, NotWs, |w|);
    assert s[..|w|] == w;
    assert s[|w|..] == rest;
  }

  /** A token, one space, then text that starts with a token (or nothing). */
  lemma WordsConsSpace(w: string, j: string)
    requires w != [] && NoWs(w)
    requires j == [] || !IsWs(j[0])
    ensures Words(w + " " + j) == [w] + Words(j)
  {
    var rest := " " + j;
    assert w + " " + j == w + rest;
    WordsCons(w, rest);
    SkipWsNonWs(j);
    assert SpanLen(rest, IsWs) == 1;
    assert rest[1..] == j;
    WordsSkipLeadingWs(rest);
  }

  /** Tokenising a single-space join of tokens gives the tokens back. */
  lemma {:induction false} WordsOfJoin(ws: seq<string>)
    requires WellFormedTokens(ws)
    ensures Words(JoinSpace(ws)) == ws
  {
    if |ws| == 1 {
      WordsCons(ws[0], []);
      assert ws[0] + [] == ws[0];
    } else if |ws| > 1 {
      var tl := ws[1..];
      WellFormedTail(ws);
      WordsOfJoin(tl);
      JoinStartsWithToken(tl);
      var j := JoinSpace(tl);
      WordsConsSpace(ws[0], j);
      assert JoinSpace(ws) == ws[0] + " " + j;
      assert ws == [ws[0]] + tl;
    }
  }

  lemma WellFormedCons(w: string, tail: seq<string>)
    requires w != [] && NoWs(w) && WellFormedTokens(tail)
    ensures WellFormedTokens([w] + tail)
  {
    forall i | 0 <= i < |[w] + tail|
      ensures ([w] + tail)[i] != [] && NoWs(([w] + tail)[i])
    {
      if i > 0 {
        assert ([w] + tail)[i] == tail[i - 1];
      }
    }
  }

  lemma WellFormedTail(ws: seq<string>)
    requires WellFormedTokens(ws) && ws != []
    ensures WellFormedTokens(ws[1..])
  {
    var tl := ws[1..];
    forall i | 0 <= i < |tl|
      ensures tl[i] != [] && NoWs(tl[i])
    {
      assert tl[i] == ws[i + 1];
    }
  }

  /** A join of tokens starts and ends with (non-whitespace) token characters. */
  lemma {:induction false} JoinStartsWithToken(ws: seq<string>)
    requires WellFormedTokens(ws) && ws != []
    ensures JoinSpace(ws) != []
    ensures JoinSpace(ws)[0] == ws[0][0]
    ensures JoinSpace(ws)[|JoinSpace(ws)| - 1] == ws[|ws| - 1][|ws[|ws| - 1]| - 1]
  {
    if |ws| > 1 {
      var tl := ws[1..];
      WellFormedTail(ws);
      JoinStartsWithToken(tl);
      SpacedEdges(ws[0], JoinSpace(tl));
      assert tl[|tl| - 1] == ws[|ws| - 1];
    }
  }

  /** The first character of `a + " " + j` is that of `a`, the last that of `j`. */
  lemma SpacedEdges(a: string, j: string)
    requires a != [] && j != []
    ensures (a + " " + j)[0] == a[0]
    ensures (a + " " + j)[|a + " " + j| - 1] == j[|j| - 1]
  {
  }

  /** A single-space join of tokens is in normal form. */
  lemma {:induction false} JoinNormalized(ws: seq<string>)
    requires WellFormedTokens(ws)
    ensures Normalized(JoinSpace(ws))
  {
    if |ws| == 0 {
    } else if |ws| == 1 {
      assert NoWs(ws[0]);
    } else {
      var w := ws[0];
      var j := JoinSpace(ws[1..]);
      var s := w + " " + j;
      assert JoinSpace(ws) == s;
      JoinNormalized(ws[1..]);
      JoinStartsWithToken(ws);
      JoinStartsWithToken(ws[1..]);
      assert NoWs(w);
      forall i | 0 <= i < |s| && IsWs(s[i])
        ensures s[i] == ' ' && 0 < i < |s| - 1 && !IsWs(s[i - 1]) && !IsWs(s[i + 1])
      {
        if i == |w| {
          assert s[i - 1] == w[|w| - 1];
          assert s[i + 1] == j[0];
        } else if i > |w| {
          assert s[i] == j[i - |w| - 1];
          assert i - |w| - 1 > 0;
          assert s[i - 1] == j[i - |w| - 2];
          assert s[i + 1] == j[i - |w|];
        }
      }
    }
  }

  /** Tokens are cut from their input, so a quote-free input has quote-free tokens. */
  lemma {:induction false} WordsNoQuote(s: string)
    requires NoQuote(s)
    ensures forall i :: 0 <= i < |Words(s)| ==> NoQuote(Words(s)[i])
    decreases |s|
  {
    var t := SkipWs(s);
    SkipWsNoQuote(s);
    if t != [] {
      var n := SpanLen(t, NotWs);
      var w := t[..n];
      var rest := t[n..];
      NoQuoteSlice(t, 0, n);
      NoQuoteSlice(t, n, |t|);
      assert t[0..n] == w && t[n..|t|] == rest;
      WordsNoQuote(rest);
      assert Words(s) == [w] + Words(rest);
      AllNoQuoteCons(w, Words(rest));
    }
  }

  lemma AllNoQuoteCons(w: string, tail: seq<string>)
    requires NoQuote(w)
    requires forall i :: 0 <= i < |tail| ==> NoQuote(tail[i])
    ensures forall i :: 0 <= i < |[w] + tail| ==> NoQuote(([w] + tail)[i])
  {
    forall i | 0 <= i < |[w] + tail|
      ensures NoQuote(([w] + tail)[i])
    {
      if i > 0 {
        assert ([w] + tail)[i] == tail[i - 1];
      }
    }
  }

  lemma SkipWsNoQuote(s: string)
    requires NoQuote(s)
    ensures NoQuote(SkipWs(s))
  {
    var a := SpanLen(s, IsWs);
    NoQuoteSlice(s, a, |s|);
    assert s[a..|s|] == s[a..];
  }

  /** Joining quote-free tokens with spaces brings in no quote. */
  lemma {:induction false} JoinNoQuote(ws: seq<string>)
    requires forall i :: 0 <= i < |ws| ==> NoQuote(ws[i])
    ensures NoQuote(JoinSpace(ws))
  {
    if |ws| > 1 {
      var tl := ws[1..];
      assert forall i :: 0 <= i < |tl| ==> NoQuote(tl[i]) by {
        forall i | 0 <= i < |tl|
          ensures NoQuote(tl[i])
        {
          assert tl[i] == ws[i + 1];
        }
      }
      JoinNoQuote(tl);
      var j := JoinSpace(tl);
      var s := ws[0] + " " + j;
      forall k | 0 <= k < |s|
        ensures !IsQuote(s[k])
      {
        if k < |ws[0]| {
          assert s[k] == ws[0][k];
        } else if k > |ws[0]| {
          assert s[k] == j[k - |ws[0]| - 1];
        }
      }
    }
  }
}
