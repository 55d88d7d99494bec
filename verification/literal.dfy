/** The replacement the loader makes for each text matched by the pattern built
    from a quoted string literal of a `classnames(...)` call: the quotes are dropped,
    the rest trimmed and prefixed, and the result put back between double quotes. */
module ClassnamesLiteral {
  import opened Chars
  import opened Tokens
  import opened Prefixer

  /** `text.replace(/['"]/g, '')`: every quote character removed. */
  function RemoveQuotes(s: string): (r: string)
    ensures NoQuote(r)
    ensures |r| <= |s|
  {
    if s == [] then []
    else (if IsQuote(s[0]) then [] else [s[0]]) + RemoveQuotes(s[1..])
  }

  /** Quote removal works piece by piece. */
  lemma {:induction false} RemoveQuotesConcat(a: string, b: string)
    ensures RemoveQuotes(a + b) == RemoveQuotes(a) + RemoveQuotes(b)
  {
    if a == [] {
      assert a + b == b;
    } else {
      var h := if IsQuote(a[0]) then [] else [a[0]];
      assert (a + b)[0] == a[0];
      assert (a + b)[1..] == a[1..] + b;
      RemoveQuotesConcat(a[1..], b);
      assert RemoveQuotes(a + b) == h + (RemoveQuotes(a[1..]) + RemoveQuotes(b));
      assert RemoveQuotes(a) == h + RemoveQuotes(a[1..]);
    }
  }

  /** A lone quote character is removed. With `RemoveQuotesConcat` and
      `RemoveQuotesKeeps` this pins quote removal down on every text: each quote
      goes, every other character stays, in order. */
  lemma RemoveQuotesOfQuote(q: char)
    requires IsQuote(q)
    ensures RemoveQuotes([q]) == []
  {
    assert [q][1..] == [];
  }

  /** Quote removal deletes nothing but quotes: a quote-free text is kept whole. */
  lemma {:induction false} RemoveQuotesKeeps(s: string)
    requires NoQuote(s)
    ensures RemoveQuotes(s) == s
  {
    if s != [] {
      RemoveQuotesKeeps(s[1..]);
      assert s == [s[0]] + s[1..];
    }
  }

  /** The class name a literal is rewritten to: `prefix-` followed by the trimmed,
      quote-free contents. It is quote-free when the prefix is, and the part after
      `prefix-` has no whitespace at either end. */
  function LiteralClassName(prefix: string, text: string): (r: string)
    ensures StartsWith(r, prefix + "-")
    ensures NoQuote(prefix) ==> NoQuote(r)
    ensures var body := r[|prefix| + 1..];
            body == [] || (!IsWs(body[0]) && !IsWs(body[|body| - 1]))
  {
    var body := Trim(RemoveQuotes(text));
    TrimKeepsQuoteFreedom(RemoveQuotes(text));
    var r := prefix + "-" + body;
    assert r[..|prefix| + 1] == prefix + "-";
    assert r[|prefix| + 1..] == body;
    assert NoQuote(prefix) ==> NoQuote(r) by {
      if NoQuote(prefix) {
        forall k | 0 <= k < |r|
          ensures !IsQuote(r[k])
        {
          if k < |prefix| {
            assert r[k] == prefix[k];
          } else if k > |prefix| {
            assert r[k] == body[k - |prefix| - 1];
          }
        }
      }
    }
    r
  }

  /** The replacement text for one literal: its class name between double quotes.
      Whatever quotes the source used, the result opens and closes with `"`; when the
      prefix has no quote, there is no other quote in it. */
  function RewriteLiteral(prefix: string, text: string): (r: string)
    ensures |r| >= |prefix| + 3
    ensures r[0] == '"' && r[|r| - 1] == '"'
    ensures StartsWith(r[1..], prefix + "-")
    ensures NoQuote(prefix) ==> NoQuote(r[1..|r| - 1])
  {
    var name := LiteralClassName(prefix, text);
    var r := "\"" + name + "\"";
    assert r[1..|r| - 1] == name;
    assert r[1..][..|prefix| + 1] == name[..|prefix| + 1];
    r
  }

  /** Quote removal on a literal in either quote style with quote-free contents gives
      back the contents. */
  lemma RemoveQuotesOfQuoted(open: char, contents: string, close: char)
    requires IsQuote(open) && IsQuote(close) && NoQuote(contents)
    ensures RemoveQuotes([open] + contents + [close]) == contents
  {
    RemoveQuotesConcat([open] + contents, [close]);
    RemoveQuotesConcat([open], contents);
    RemoveQuotesKeeps(contents);
    RemoveQuotesOfQuote(open);
    RemoveQuotesOfQuote(close);
  }

  /** A literal in either quote style, whose contents have no quotes, is replaced by
      the double-quoted, prefixed, trimmed contents: the quote style of the source is
      not kept. */
  lemma RewriteQuotedLiteral(prefix: string, open: char, contents: string, close: char)
    requires IsQuote(open) && IsQuote(close) && NoQuote(contents)
    ensures LiteralClassName(prefix, [open] + contents + [close]) == prefix + "-" + Trim(contents)
    ensures RewriteLiteral(prefix, [open] + contents + [close]) == "\"" + (prefix + "-" + Trim(contents)) + "\""
  {
    RemoveQuotesOfQuoted(open, contents, close);
  }

  /** A single-quoted and a double-quoted literal with the same contents are
      replaced by the same text. */
  lemma QuoteStyleIrrelevant(prefix: string, contents: string)
    requires NoQuote(contents)
    ensures RewriteLiteral(prefix, "'" + contents + "'") == RewriteLiteral(prefix, "\"" + contents + "\"")
  {
    assert "'" + contents + "'" == ['\''] + contents + ['\''];
    assert "\"" + contents + "\"" == ['"'] + contents + ['"'];
    RewriteQuotedLiteral(prefix, '\'', contents, '\'');
    RewriteQuotedLiteral(prefix, '"', contents, '"');
  }

  /** Whatever text the pattern built from a literal matched, its contents become one
      class name: whitespace inside is kept, so for a matched text `"a b"` only `a`
      gets the prefix, unlike the attribute rewrite, which prefixes every token. */
  lemma LiteralPrefixesOnce(prefix: string, contents: string)
    requires NoQuote(contents)
    requires contents != [] && !IsWs(contents[0]) && !IsWs(contents[|contents| - 1])
    ensures RewriteLiteral(prefix, "\"" + contents + "\"") == "\"" + (prefix + "-" + contents) + "\""
  {
    TrimFixedPoint(contents);
    assert "\"" + contents + "\"" == ['"'] + contents + ['"'];
    RewriteQuotedLiteral(prefix, '"', contents, '"');
  }

  /** The literals are taken from the call text after all its whitespace was removed.
      When the pattern built from such a literal matches only itself (it has no
      regular-expression metacharacters), the replacement is the prefixed contents with
      their whitespace removed, and the trim has nothing to do. */
  lemma CleanedLiteralReplacement(prefix: string, open: char, contents: string, close: char)
    requires IsQuote(open) && IsQuote(close) && NoQuote(contents)
    ensures NonWsChars([open] + contents + [close]) == [open] + NonWsChars(contents) + [close]
    ensures RewriteLiteral(prefix, NonWsChars([open] + contents + [close]))
         == "\"" + (prefix + "-" + NonWsChars(contents)) + "\""
  {
    NonWsCharsConcat([open] + contents, [close]);
    NonWsCharsConcat([open], contents);
    NonWsCharsNoWs([open]);
    NonWsCharsNoWs([close]);
    var inner := NonWsChars(contents);
    NoQuoteOfNonWs(contents);
    TrimNoWs(inner);
    RewriteQuotedLiteral(prefix, open, inner, close);
  }

  /** Removing whitespace adds no quotes. */
  lemma {:induction false} NoQuoteOfNonWs(s: string)
    requires NoQuote(s)
    ensures NoQuote(NonWsChars(s))
  {
    if s != [] {
      NoQuoteOfNonWs(s[1..]);
    }
  }

  /** Quote removal drops a quote inside the contents too: stringBetweenQuotesRegex
      finds `"it's"` as one literal, and its class name loses the apostrophe. */
  lemma RemoveInnerQuote(open: char, a: string, q: char, b: string, close: char)
    requires IsQuote(open) && IsQuote(q) && IsQuote(close) && NoQuote(a) && NoQuote(b)
    ensures RemoveQuotes([open] + a + [q] + b + [close]) == a + b
  {
    var u := [open] + a;
    var v := [q] + b + [close];
    assert [open] + a + [q] + b + [close] == u + v;
    RemoveQuotesConcat(u, v);
    RemoveQuotesOpened(open, a);
    RemoveQuotesOfQuoted(q, b, close);
  }

  lemma RemoveQuotesOpened(open: char, a: string)
    requires IsQuote(open) && NoQuote(a)
    ensures RemoveQuotes([open] + a) == a
  {
    RemoveQuotesConcat([open], a);
    RemoveQuotesOfQuote(open);
    RemoveQuotesKeeps(a);
  }

  /** A literal with a quote of the other style inside is rewritten to one class name
      without that quote: the two sides are joined. */
  lemma InnerQuoteLiteral(prefix: string, open: char, a: string, q: char, b: string, close: char)
    requires IsQuote(open) && IsQuote(q) && IsQuote(close) && NoQuote(a) && NoQuote(b)
    requires a + b == [] || (!IsWs((a + b)[0]) && !IsWs((a + b)[|a + b| - 1]))
    ensures RewriteLiteral(prefix, [open] + a + [q] + b + [close]) == "\"" + (prefix + "-" + (a + b)) + "\""
  {
    RemoveInnerQuote(open, a, q, b, close);
    TrimFixedPoint(a + b);
  }

  /** With the default prefix, the literal `"it's"` becomes `"app-its"`. */
  lemma ApostropheExample(text: string)
    requires text == "\"it's\""
    ensures RewriteLiteral(DefaultPrefix, text) == "\"app-its\""
  {
    var a, b := "it", "s";
    assert text == ['"'] + a + ['\''] + b + ['"'];
    InnerQuoteLiteral(DefaultPrefix, '"', a, '\'', b, '"');
    assert "\"" + (DefaultPrefix + "-" + (a + b)) + "\"" == "\"app-its\"";
  }
}
