/** The ignore predicates: `classMatchesTest`, which checks a class name against an
    ignore setting, and `ignoreClassName`, which decides whether a class name is
    exempt. The module-level list the loader fills is passed in explicitly. */
module Ignore {
  import opened Chars
  import opened ClassnamesLiteral

  /** The `ignore` argument of `classMatchesTest`, without its regular-expression
      forms: absent (`null`/`undefined`), a string, or an array of strings. */
  datatype IgnoreValue = Absent | Text(value: string) | List(items: seq<string>)

  /** JavaScript falsiness of the setting: absent, or the empty string. An array is
      truthy even when empty. */
  predicate IsFalsy(ignore: IgnoreValue) {
    ignore.Absent? || ignore == Text([])
  }

  /** `items.some(test => name === test)`, stopping at the first hit. */
  function SomeEquals(items: seq<string>, name: string): (r: bool)
    ensures r <==> name in items
  {
    if items == [] then false
    else items[0] == name || SomeEquals(items[1..], name)
  }

  /** `classMatchesTest` for the string and array cases: false for a falsy setting;
      otherwise the trimmed name is compared with the string, or looked up in the
      array. */
  function ClassMatchesTest(className: string, ignore: IgnoreValue): (r: bool)
    ensures IsFalsy(ignore) ==> !r
    ensures ignore.Text? ==> (r <==> ignore.value != [] && Trim(className) == ignore.value)
    ensures ignore.List? ==> (r <==> Trim(className) in ignore.items)
  {
    if IsFalsy(ignore) then false
    else
      var name := Trim(className);
      match ignore
      case List(items) => SomeEquals(items, name)
      case Text(t) => name == t
  }

  /** Surrounding whitespace on the class name never changes the answer of
      `classMatchesTest`. */
  lemma ClassMatchesIgnoresPadding(className: string, ignore: IgnoreValue)
    ensures ClassMatchesTest(Trim(className), ignore) == ClassMatchesTest(className, ignore)
  {
    TrimIdempotent(className);
  }

  /** A string setting with whitespace at either end matches no class name, since the
      name is trimmed before the comparison. */
  lemma PaddedTextNeverMatches(className: string, t: string)
    requires t != [] && (IsWs(t[0]) || IsWs(t[|t| - 1]))
    ensures !ClassMatchesTest(className, Text(t))
  {
  }

  /** `/^[A-Z-]/` on the untrimmed name. */
  predicate StartsUpperOrDash(className: string) {
    className != [] && (IsUpperAscii(className[0]) || className[0] == '-')
  }

  /** `ignoreClassName` with the loader's list as a parameter: a name is exempt when
      its trimmed form is in the list, it is blank, it starts with an upper-case
      ASCII letter or a dash, or it is itself in the list. */
  function IgnoreClassName(className: string, ignore: seq<string>): (r: bool)
    ensures r <==> || Trim(className) in ignore
                   || AllWs(className)
                   || StartsUpperOrDash(className)
                   || className in ignore
  {
    || ClassMatchesTest(className, List(ignore))
    || Trim(className) == []
    || StartsUpperOrDash(className)
    || SomeEquals(ignore, className)
  }

  /** The entries the loader puts in its list are rewritten `classnames` literals,
      which begin with a double quote. A class name without quotes therefore never
      matches one of them, and is exempt only when blank or when it starts with an
      upper-case letter or a dash. */
  lemma LoaderEntriesExemptNothing(className: string, prefix: string, literals: seq<string>)
    requires NoQuote(className)
    ensures var ignore := seq(|literals|, i requires 0 <= i < |literals| => RewriteLiteral(prefix, literals[i]));
            IgnoreClassName(className, ignore) <==> AllWs(className) || StartsUpperOrDash(className)
  {
    var ignore := seq(|literals|, i requires 0 <= i < |literals| => RewriteLiteral(prefix, literals[i]));
    TrimKeepsQuoteFreedom(className);
    var t := Trim(className);
    forall i | 0 <= i < |ignore|
      ensures ignore[i] != className && ignore[i] != t
    {
      assert ignore[i][0] == '"';
      if className != [] {
        assert !IsQuote(className[0]);
      }
      if t != [] {
        assert !IsQuote(t[0]);
      }
    }
  }

  /** As written, the loader records each replacement with its quotes, so the class
      name a literal was rewritten to is never exempt by way of the list: with a
      prefix such as the default `app`, `ignoreClassName` rejects every one of them. */
  lemma LiteralNamesNotExemptAsWritten(prefix: string, literals: seq<string>, i: nat)
    requires i < |literals|
    requires NoQuote(prefix) && prefix != [] && !IsWs(prefix[0])
    requires !IsUpperAscii(prefix[0]) && prefix[0] != '-'
    ensures var recorded := seq(|literals|, j requires 0 <= j < |literals| => RewriteLiteral(prefix, literals[j]));
            !IgnoreClassName(LiteralClassName(prefix, literals[i]), recorded)
  {
    var name := LiteralClassName(prefix, literals[i]);
    assert name[0] == prefix[0];
    LoaderEntriesExemptNothing(name, prefix, literals);
  }

  /** Recording the class names without their quotes makes every rewritten literal's
      class name exempt. */
  lemma RecordedNamesExempt(prefix: string, literals: seq<string>, i: nat)
    requires i < |literals|
    ensures var recorded := seq(|literals|, j requires 0 <= j < |literals| => LiteralClassName(prefix, literals[j]));
            IgnoreClassName(LiteralClassName(prefix, literals[i]), recorded)
  {
    var recorded := seq(|literals|, j requires 0 <= j < |literals| => LiteralClassName(prefix, literals[j]));
    assert recorded[i] == LiteralClassName(prefix, literals[i]);
  }
}
