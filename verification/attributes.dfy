/** The `className` attribute rewrite: the global replacement of every match of
    `className\s*[:=]\s*["']([^"']*)["']` by `className:"<prefixed class list>"`,
    modelled as a left-to-right scanner over the source text. */
module Attributes {
  import opened Wrappers
  import opened Chars
  import opened Tokens
  import opened Prefixer

  /** The literal the pattern starts with; the match is case-sensitive. */
  const AttrName: string := "className"

  /** One match of the pattern, cut at its parts: the whitespace before the separator,
      the separator, the whitespace after it, the opening quote, the captured class
      list and the closing quote. */
  datatype Match = Match(gap1: string, sep: char, gap2: string, open: char, classes: string, close: char)
  {
    /** Every part lies in the character class the pattern gives it. The two quotes
        are matched independently, so they need not be the same character. */
    predicate WellFormed() {
      && AllWs(gap1)
      && (sep == ':' || sep == '=')
      && AllWs(gap2)
      && IsQuote(open)
      && NoQuote(classes)
      && IsQuote(close)
    }

    /** The source text the match covers. */
    function Text(): string {
      TextThen([])
    }

    /** The source text the match covers, followed by `rest`. */
    function TextThen(rest: string): string {
      AttrName + AfterName(rest)
    }

    /** The part of `TextThen(rest)` after the attribute name. */
    function AfterName(rest: string): string {
      gap1 + ([sep] + (gap2 + ([open] + (classes + ([close] + rest)))))
    }
  }

  /** `s` split after the greedy run of `p`-characters at its start. */
  function SplitSpan(s: string, p: char -> bool): (r: (string, string))
    ensures r.0 + r.1 == s
    ensures forall i :: 0 <= i < |r.0| ==> p(r.0[i])
    ensures r.1 == [] || !p(r.1[0])
  {
    var n := SpanLen(s, p);
    assert s[..n] + s[n..] == s;
    (s[..n], s[n..])
  }

  /** A run of `p`-characters followed by something that does not start with one is
      split exactly there. */
  lemma SplitSpanOf(w: string, rest: string, p: char -> bool)
    requires forall i :: 0 <= i < |w| ==> p(w[i])
    requires rest == [] || !p(rest[0])
    ensures SplitSpan(w + rest, p) == (w, rest)
  {
    var s := w + rest;
    forall i | 0 <= i < |w|
      ensures p(s[i])
    {
      assert s[i] == w[i];
    }
    SpanLenUnique(s, p, |w|);
    assert s[..|w|] == w;
    assert s[|w|..] == rest;
  }

  /** `[^"']*["']`: the captured class list and the closing quote, then the rest. */
  function ParseClassList(t: string): (r: Option<(string, char, string)>)
    ensures r.Some? ==> NoQuote(r.value.0) && IsQuote(r.value.1)
    ensures r.Some? ==> t == r.value.0 + ([r.value.1] + r.value.2)
  {
    var (cls, r3) := SplitSpan(t, NotQuote);
    if r3 == [] then None
    else
      assert NoQuote(cls) by {
        forall i | 0 <= i < |cls|
          ensures !IsQuote(cls[i])
        {
          assert NotQuote(cls[i]);
        }
      }
      assert r3 == [r3[0]] + r3[1..];
      Some((cls, r3[0], r3[1..]))
  }

  /** `\s*["']` followed by the class list: the whitespace, the opening quote and
      what `ParseClassList` finds after it. */
  function ParseValue(t: string): (r: Option<(string, char, string, char, string)>)
    ensures r.Some? ==> AllWs(r.value.0) && IsQuote(r.value.1) && NoQuote(r.value.2) && IsQuote(r.value.3)
    ensures r.Some? ==> t == r.value.0 + ([r.value.1] + (r.value.2 + ([r.value.3] + r.value.4)))
  {
    var (g2, r2) := SplitSpan(t, IsWs);
    if r2 == [] || !IsQuote(r2[0]) then None
    else
      var v := ParseClassList(r2[1..]);
      if v.None? then None
      else
        var (cls, close, rest) := v.value;
        ConsParts(t, g2, r2, cls + ([close] + rest));
        Some((g2, r2[0], cls, close, rest))
  }

  /** `t` cut into a run, one character and what follows. */
  lemma ConsParts(t: string, run: string, r: string, after: string)
    requires t == run + r && r != [] && r[1..] == after
    ensures t == run + ([r[0]] + after)
  {
    assert r == [r[0]] + r[1..];
  }

  /** `\s*[:=]` followed by the value: everything of a match after `className`. */
  function ParseAfterName(t: string): (r: Option<(Match, string)>)
    ensures r.Some? ==> r.value.0.WellFormed()
    ensures r.Some? ==> t == r.value.0.AfterName(r.value.1)
  {
    var (g1, r1) := SplitSpan(t, IsWs);
    if r1 == [] || !(r1[0] == ':' || r1[0] == '=') then None
    else
      var v := ParseValue(r1[1..]);
      if v.None? then None
      else
        var (g2, open, cls, close, rest) := v.value;
        var m := Match(g1, r1[0], g2, open, cls, close);
        ConsParts(t, g1, r1, g2 + ([open] + (cls + ([close] + rest))));
        Some((m, rest))
  }

  /** Tries the pattern at the start of `s`. On success it gives the match and the
      text after it, and the match is well formed and covers exactly the text it
      was cut from. */
  function MatchAt(s: string): (r: Option<(Match, string)>)
    ensures r.Some? ==> r.value.0.WellFormed() && s == r.value.0.TextThen(r.value.1)
  {
    if !StartsWith(s, AttrName) then None
    else
      assert s == AttrName + s[|AttrName|..];
      ParseAfterName(s[|AttrName|..])
  }

  lemma ParseClassListOf(cls: string, close: char, rest: string)
    requires NoQuote(cls) && IsQuote(close)
    ensures ParseClassList(cls + ([close] + rest)) == Some((cls, close, rest))
  {
    assert forall i :: 0 <= i < |cls| ==> NotQuote(cls[i]);
    SplitSpanOf(cls, [close] + rest, NotQuote);
    assert ([close] + rest)[1..] == rest;
  }

  lemma ParseValueOf(gap: string, open: char, cls: string, close: char, rest: string)
    requires AllWs(gap) && IsQuote(open) && NoQuote(cls) && IsQuote(close)
    ensures ParseValue(gap + ([open] + (cls + ([close] + rest)))) == Some((gap, open, cls, close, rest))
  {
    var t := cls + ([close] + rest);
    SplitSpanOf(gap, [open] + t, IsWs);
    assert ([open] + t)[1..] == t;
    ParseClassListOf(cls, close, rest);
  }

  lemma ParseAfterNameOf(m: Match, rest: string)
    requires m.WellFormed()
    ensures ParseAfterName(m.AfterName(rest)) == Some((m, rest))
  {
    var t := m.gap2 + ([m.open] + (m.classes + ([m.close] + rest)));
    SplitSpanOf(m.gap1, [m.sep] + t, IsWs);
    assert ([m.sep] + t)[1..] == t;
    ParseValueOf(m.gap2, m.open, m.classes, m.close, rest);
  }

  /** Every well-formed match is found where it starts, with the rest of the text
      after it: together with the contract of `MatchAt`, the pattern matches at the
      start of `s` exactly when `s` begins with a well-formed match, and that match
      is unique. */
  lemma MatchAtComplete(m: Match, rest: string)
    requires m.WellFormed()
    ensures MatchAt(m.TextThen(rest)) == Some((m, rest))
  {
    var s := m.TextThen(rest);
    var t := m.AfterName(rest);
    assert s[..|AttrName|] == AttrName;
    assert s[|AttrName|..] == t;
    ParseAfterNameOf(m, rest);
  }

  /** The match text followed by `rest` is the match text, then `rest`. */
  lemma TextThenSplit(m: Match, rest: string)
    ensures m.TextThen(rest) == m.Text() + rest
  {
    var c := m.classes;
    assert c + ([m.close] + rest) == (c + [m.close]) + rest;
    var v := [m.open] + (c + [m.close]);
    assert [m.open] + ((c + [m.close]) + rest) == v + rest;
    var w := m.gap2 + v;
    assert m.gap2 + (v + rest) == w + rest;
    var x := [m.sep] + w;
    assert [m.sep] + (w + rest) == x + rest;
    var y := m.gap1 + x;
    assert m.gap1 + (x + rest) == y + rest;
    assert AttrName + (y + rest) == (AttrName + y) + rest;
    assert c + [m.close] == c + ([m.close] + []);
  }

  /** The text a rewritten attribute is replaced by: always `className`, a colon and
      double quotes, whatever separator, spacing and quotes the source used. Between
      the quotes are the prefixed tokens of the class list. */
  function Replacement(prefix: string, m: Match): (r: string)
    ensures StartsWith(r, AttrName + ":\"") && |r| >= |AttrName| + 3 && r[|r| - 1] == '"'
    ensures NoWs(prefix) ==> Words(r[|AttrName| + 2..|r| - 1]) == PrefixAll(prefix, Words(m.classes))
  {
    var body := PrefixClassString(prefix, m.classes);
    Enclosed(AttrName + ":\"", body);
    PrefixedTokensIf(prefix, m.classes);
    AttrName + ":\"" + body + "\""
  }

  lemma Enclosed(head: string, body: string)
    ensures var r := head + body + "\"";
            StartsWith(r, head) && |r| == |head| + |body| + 1 && r[|r| - 1] == '"' && r[|head|..|r| - 1] == body
  {
    var r := head + body + "\"";
    assert r[..|head|] == head;
    assert r[|head|..|r| - 1] == body;
  }

  lemma PrefixedTokensIf(prefix: string, classNames: string)
    ensures NoWs(prefix) ==> Words(PrefixClassString(prefix, classNames)) == PrefixAll(prefix, Words(classNames))
  {
    if NoWs(prefix) {
      PrefixedTokens(prefix, classNames);
    }
  }

  lemma StartsWithConcat(a: string, b: string, h: string)
    requires StartsWith(a, h)
    ensures StartsWith(a + b, h)
  {
    assert (a + b)[..|h|] == a[..|h|];
  }

  /** `source.replace(classNameRegex, ...)`: scan from the left; where a match starts,
      emit its replacement and continue after it; elsewhere copy one character. A
      non-empty text never rewrites to nothing, text before a match is copied, and a
      match at the front becomes `className:"`. The whole output is pinned down by
      `RewriteIsRenderedScan` (it is the rendering of a leftmost scan of the input)
      together with `ScanUnique` (that scan is the only one). */
  function RewriteAttributes(prefix: string, s: string): (r: string)
    ensures s != [] ==> r != []
    ensures s != [] && !StartsWith(s, AttrName) ==> r[0] == s[0]
    ensures MatchAt(s).Some? ==> StartsWith(r, AttrName + ":\"")
    decreases |s|
  {
    if s == [] then []
    else
      match MatchAt(s)
      case Some((m, rest)) =>
        var head := Replacement(prefix, m);
        StartsWithConcat(head, RewriteAttributes(prefix, rest), AttrName + ":\"");
        head + RewriteAttributes(prefix, rest)
      case None => [s[0]] + RewriteAttributes(prefix, s[1..])
  }

  /** A piece of the scan: a copied character or a matched attribute. */
  datatype Piece = Verbatim(c: char) | Attribute(m: Match)

  /** The source text the pieces cover. */
  function Source(pieces: seq<Piece>): string
  {
    if pieces == [] then []
    else
      match pieces[0]
      case Verbatim(c) => [c] + Source(pieces[1..])
      case Attribute(m) => m.Text() + Source(pieces[1..])
  }

  /** The output the pieces produce: a copied character stays as it is, a matched
      attribute becomes its replacement. */
  function Render(prefix: string, pieces: seq<Piece>): string
  {
    if pieces == [] then []
    else
      match pieces[0]
      case Verbatim(c) => [c] + Render(prefix, pieces[1..])
      case Attribute(m) => Replacement(prefix, m) + Render(prefix, pieces[1..])
  }

  /** No well-formed match starts at the beginning of `s`. */
  ghost predicate NoMatchAt(s: string) {
    forall m: Match :: m.WellFormed() ==> !StartsWith(s, m.Text())
  }

  /** `pieces` is the leftmost, non-overlapping reading of `s` that a global regular
      expression replacement makes: a match is taken wherever one starts, and a
      character is copied only where none does. */
  ghost predicate IsLeftmostScan(s: string, pieces: seq<Piece>)
    decreases |pieces|
  {
    if pieces == [] then s == []
    else
      match pieces[0]
      case Verbatim(c) =>
        s != [] && s[0] == c && NoMatchAt(s) && IsLeftmostScan(s[1..], pieces[1..])
      case Attribute(m) =>
        m.WellFormed() && StartsWith(s, m.Text()) && IsLeftmostScan(s[|m.Text()|..], pieces[1..])
  }

  lemma NoMatchWhenNone(s: string)
    requires MatchAt(s).None?
    ensures NoMatchAt(s)
  {
    forall m: Match | m.WellFormed()
      ensures !StartsWith(s, m.Text())
    {
      if StartsWith(s, m.Text()) {
        var rest := s[|m.Text()|..];
        assert s == m.Text() + rest;
        TextThenSplit(m, rest);
        MatchAtComplete(m, rest);
      }
    }
  }

  /** A leftmost scan covers its text exactly. */
  lemma {:induction false} ScanCoversSource(s: string, pieces: seq<Piece>)
    requires IsLeftmostScan(s, pieces)
    ensures Source(pieces) == s
    decreases |pieces|
  {
    if pieces != [] {
      match pieces[0]
      case Verbatim(c) =>
        ScanCoversSource(s[1..], pieces[1..]);
        assert s == [c] + s[1..];
      case Attribute(m) =>
        ScanCoversSource(s[|m.Text()|..], pieces[1..]);
        assert s == m.Text() + s[|m.Text()|..];
    }
  }

  /** The rewrite is the rendering of the leftmost scan of its input: the scan covers
      the input piece by piece, and in the output every character outside the
      matched attributes is copied unchanged and in place. */
  lemma {:induction false} RewriteIsRenderedScan(prefix: string, s: string) returns (pieces: seq<Piece>)
    ensures IsLeftmostScan(s, pieces)
    ensures Source(pieces) == s
    ensures RewriteAttributes(prefix, s) == Render(prefix, pieces)
    decreases |s|
  {
    if s == [] {
      pieces := [];
    } else {
      match MatchAt(s)
      case Some((m, rest)) =>
        var tail := RewriteIsRenderedScan(prefix, rest);
        pieces := [Attribute(m)] + tail;
        assert pieces[1..] == tail;
        TextThenSplit(m, rest);
        assert s[|m.Text()|..] == rest;
      case None =>
        NoMatchWhenNone(s);
        var tail := RewriteIsRenderedScan(prefix, s[1..]);
        pieces := [Verbatim(s[0])] + tail;
        assert pieces[1..] == tail;
    }
    ScanCoversSource(s, pieces);
  }

  /** The leftmost scan of a text is unique: the pattern has no choice points. */
  lemma {:induction false} ScanUnique(s: string, p1: seq<Piece>, p2: seq<Piece>)
    requires IsLeftmostScan(s, p1) && IsLeftmostScan(s, p2)
    ensures p1 == p2
    decreases |p1|
  {
    if p1 != [] && p2 != [] {
      match (p1[0], p2[0])
      case (Verbatim(c1), Verbatim(c2)) =>
        ScanUnique(s[1..], p1[1..], p2[1..]);
        assert p1 == [p1[0]] + p1[1..] && p2 == [p2[0]] + p2[1..];
      case (Attribute(m1), Attribute(m2)) =>
        SameMatch(s, m1, m2);
        ScanUnique(s[|m1.Text()|..], p1[1..], p2[1..]);
        assert p1 == [p1[0]] + p1[1..] && p2 == [p2[0]] + p2[1..];
      case (Verbatim(c1), Attribute(m2)) =>
        assert false;
      case (Attribute(m1), Verbatim(c2)) =>
        assert false;
    }
  }

  /** Two well-formed matches at the start of the same text are the same match. */
  lemma SameMatch(s: string, m1: Match, m2: Match)
    requires m1.WellFormed() && StartsWith(s, m1.Text())
    requires m2.WellFormed() && StartsWith(s, m2.Text())
    ensures m1 == m2
  {
    var rest1 := s[|m1.Text()|..];
    var rest2 := s[|m2.Text()|..];
    assert s == m1.Text() + rest1;
    assert s == m2.Text() + rest2;
    TextThenSplit(m1, rest1);
    TextThenSplit(m2, rest2);
    MatchAtComplete(m1, rest1);
    MatchAtComplete(m2, rest2);
  }

  /** A text in which `className` never occurs comes out unchanged. */
  lemma {:induction false} RewriteWithoutAttributeName(prefix: string, s: string)
    requires forall i :: 0 <= i <= |s| ==> !StartsWith(s[i..], AttrName)
    ensures RewriteAttributes(prefix, s) == s
    decreases |s|
  {
    if s != [] {
      assert !StartsWith(s[0..], AttrName);
      assert s[0..] == s;
      assert MatchAt(s).None?;
      forall i | 0 <= i <= |s[1..]|
        ensures !StartsWith(s[1..][i..], AttrName)
      {
        assert s[1..][i..] == s[i + 1..];
      }
      RewriteWithoutAttributeName(prefix, s[1..]);
      assert s == [s[0]] + s[1..];
    }
  }

  /** A well-formed match at the front is replaced and the scan resumes right after
      it. */
  lemma RewriteAtMatch(prefix: string, m: Match, rest: string)
    requires m.WellFormed()
    ensures RewriteAttributes(prefix, m.Text() + rest) == Replacement(prefix, m) + RewriteAttributes(prefix, rest)
  {
    TextThenSplit(m, rest);
    MatchAtComplete(m, rest);
  }

  /** The output does not depend on how the attribute was spelled: two matches with
      the same class list, whatever their separators, spacing and quotes, are
      rewritten to the same text. */
  lemma RewriteIgnoresSpelling(prefix: string, m1: Match, m2: Match, rest: string)
    requires m1.WellFormed() && m2.WellFormed() && m1.classes == m2.classes
    ensures RewriteAttributes(prefix, m1.Text() + rest) == RewriteAttributes(prefix, m2.Text() + rest)
    ensures RewriteAttributes(prefix, m1.Text() + rest)
         == AttrName + ":\"" + PrefixClassString(prefix, m1.classes) + "\"" + RewriteAttributes(prefix, rest)
  {
    RewriteAtMatch(prefix, m1, rest);
    RewriteAtMatch(prefix, m2, rest);
  }

  /** The opening and closing quotes are matched independently: a value opened with
      `"` ends at the first `'`, and the rewrite resumes right after that apostrophe. */
  lemma MixedQuotesAccepted(prefix: string, classes: string, rest: string)
    requires NoQuote(classes)
    ensures RewriteAttributes(prefix, AttrName + "=\"" + classes + "'" + rest)
         == AttrName + ":\"" + PrefixClassString(prefix, classes) + "\"" + RewriteAttributes(prefix, rest)
  {
    var m := Match([], '=', [], '"', classes, '\'');
    assert m.WellFormed();
    assert m.Text() + rest == AttrName + "=\"" + classes + "'" + rest;
    RewriteAtMatch(prefix, m, rest);
  }

  /** A rewritten attribute is itself a match of the pattern, with a colon, no spacing
      and double quotes around the prefixed class list (when the prefix has no quote
      in it). */
  lemma ReplacementIsMatch(prefix: string, m: Match)
    requires NoQuote(prefix) && m.WellFormed()
    ensures Replacement(prefix, m) == Match([], ':', [], '"', PrefixClassString(prefix, m.classes), '"').Text()
    ensures Match([], ':', [], '"', PrefixClassString(prefix, m.classes), '"').WellFormed()
  {
    PrefixedNoQuote(prefix, m.classes);
    CanonicalText(PrefixClassString(prefix, m.classes));
  }

  /** The canonical spelling `className:"<classes>"` of a match. */
  lemma CanonicalText(classes: string)
    ensures Match([], ':', [], '"', classes, '"').Text() == AttrName + ":\"" + classes + "\""
  {
    var m := Match([], ':', [], '"', classes, '"');
    assert m.AfterName([]) == [':'] + (['"'] + (classes + ['"']));
    assert [':'] + (['"'] + (classes + ['"'])) == ":\"" + classes + "\"";
  }

  /** Running the rewrite over its own output prefixes the class list a second time,
      so on a non-blank class list the attribute rewrite is not idempotent. */
  lemma RewriteTwice(prefix: string, m: Match, rest: string)
    requires NoQuote(prefix) && m.WellFormed()
    ensures RewriteAttributes(prefix, Replacement(prefix, m) + rest)
         == AttrName + ":\"" + PrefixClassString(prefix, PrefixClassString(prefix, m.classes)) + "\""
            + RewriteAttributes(prefix, rest)
  {
    var m2 := Match([], ':', [], '"', PrefixClassString(prefix, m.classes), '"');
    ReplacementIsMatch(prefix, m);
    RewriteAtMatch(prefix, m2, rest);
  }
}
