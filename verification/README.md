# classname-prefixer-js, modelled in Dafny

This project models the webpack loader in `index.js`. The loader namespaces CSS
class names by rewriting raw source text with regular expressions. It works in two
phases, in this order:

- the quoted string literals inside each `classnames(...)` call are taken from the
  call text after all its whitespace is removed; each is turned into a regular
  expression, and every text that expression matches in the source becomes
  `"prefix-<matched text without quotes, trimmed>"`, which is also pushed onto a
  module-level list;
- then every `className` attribute written as `className`, optional whitespace, `:`
  or `=`, optional whitespace and a quoted class list becomes
  `className:"<prefixed list>"`; in the prefixed list every whitespace-separated
  token `t` becomes `prefix-t`, and the tokens are joined by single spaces.

The file also defines two predicates that decide whether a class name is exempt.
`ignoreClassName` calls `classMatchesTest` (index.js:51) and reads the list the
first phase fills. Nothing calls `ignoreClassName`, and neither predicate is
exported (index.js:80-81).

The prefix is the `prefix` option, or `app` when that option is missing or empty.

Strings are `seq<char>`. The six ASCII whitespace characters (space, tab, line feed,
carriage return, form feed, vertical tab) stand for JavaScript's `\s` class and for
what `trim` removes. The regular expression `className\s*[:=]\s*["']([^"']*)["']`
with the `g` flag is modelled as a leftmost, non-overlapping scanner: where a match
starts it is replaced and the scan resumes after it; elsewhere one character is
copied. Its character classes follow one another without overlap, so a match at a
position is unique and the scanner never backtracks.

`index.js` rewrites source text with regular expressions; it does not parse it.

Modules, in dependency order: `Wrappers` (an `Option` type), `Chars` (character
classes, greedy runs, `trim`), `Tokens` (`split(/\s+/)`, `filter(Boolean)`,
`join(' ')` and the reference tokenisation `Words`), `Prefixer` (the class-list
callback and the default prefix), `Attributes` (the attribute scanner),
`ClassnamesLiteral` (the per-literal replacement) and `Ignore` (the two predicates).

## Model

| member | source | states |
|---|---|---|
| Prefixer.EffectivePrefix | index.js:12-14 | The prefix is never empty, so the `if (prefix)` branch always runs. A non-empty option is used as given; a missing or empty option gives `app`. |
| Prefixer.PrefixClassString | index.js:39-41 | Splitting on whitespace runs, mapping each piece with the trim-and-prefix callback, dropping empty strings and joining with spaces gives the single-space join of the input's tokens, each prefixed. |
| Prefixer.MapPieces | index.js:39-40 | `map` gives a list of the same length whose element at each position is the callback applied to the piece at that position. |
| Prefixer.DropEmptyMapPieces | index.js:39-41 | For whitespace-free pieces, mapping with the callback and then dropping empty strings equals dropping empty pieces and then prefixing each one. |
| Prefixer.PrefixPiece | index.js:40 | The `map` callback gives the empty string exactly for a blank piece; for any other piece it gives `prefix-` followed by the trimmed piece. |
| Prefixer.PrefixedTokens | index.js:39-41 | For a whitespace-free prefix, the output's tokens are exactly `prefix-t` for each input token `t`, in order and one for one; each output token starts with `prefix-`. |
| Prefixer.PrefixedShape | index.js:40-41 | For a whitespace-free prefix, the output has no empty tokens, single spaces between tokens and no whitespace at either end; it is empty exactly when the input is blank. |
| Prefixer.PrefixTwice | index.js:40 | For a whitespace-free prefix, a second pass prefixes every token again, so the prefixer is not idempotent on any non-blank input. |
| Prefixer.DoublePrefixExample | index.js:40 | With the default prefix `app`, the class list `app-btn` becomes `app-app-btn`. |
| Prefixer.TwoTokenExample | index.js:39-41 | With prefix `app`, `btn primary` becomes `app-btn app-primary`. |
| Prefixer.PrefixedNoQuote | index.js:40-43 | A quote-free prefix and class list give a quote-free prefixed list, so it fits between the double quotes of the output. |
| Tokens.SplitWs | index.js:39 | `split(/\s+/)` always yields at least one piece, and no piece contains whitespace. |
| Tokens.SplitWsFirst | index.js:39 | The first piece of `split(/\s+/)` is empty exactly when the text is empty or starts with whitespace. |
| Tokens.SplitWsMiddle | index.js:39 | Every piece of `split(/\s+/)` strictly between the first and the last is non-empty. |
| Tokens.DropEmpty | index.js:41 | No empty string survives `filter(Boolean)`, every non-empty string of the list is still there, and the result is no longer than the list. |
| Tokens.DropEmptyConcat | index.js:41 | `filter(Boolean)` on a concatenation is the concatenation of the filtered parts, so order and repetitions are kept. |
| Tokens.DropEmptySingle | index.js:41 | A single string is dropped exactly when it is empty. With `Tokens.DropEmptyConcat` this fixes the filter on every list. |
| Tokens.JoinSpace | index.js:41 | A non-empty list joins to a string as long as all its strings together plus one separator between each pair of neighbours. |
| Tokens.SplitDropEmptyIsWords | index.js:39-41 | Splitting on whitespace runs and dropping the empty pieces gives exactly the whitespace-separated tokens of the input. |
| Tokens.WordsEmpty | index.js:40-41 | A string has no tokens exactly when it is blank. |
| Tokens.NonWsChars | index.js:20 | Removing whitespace leaves a whitespace-free string. Its partners `Tokens.NonWsCharsConcat` and `Tokens.WordsKeepContent` show it works piece by piece and keeps every other character in order. |
| Tokens.NonWsCharsConcat | index.js:20 | Whitespace removal distributes over concatenation. |
| Tokens.WordsKeepContent | index.js:39 | The tokens, concatenated, are the input's non-whitespace characters in order: tokenising loses nothing but whitespace. |
| Tokens.WordsOfJoin | index.js:41 | Joining non-empty, whitespace-free tokens with single spaces and tokenising again gives back the same tokens. |
| Tokens.JoinNormalized | index.js:41 | Joining such tokens with single spaces gives a string with no whitespace at either end and no run of two spaces. |
| Chars.SpanLen | index.js:3 | A greedy run of a character class stops at the first character outside the class, or at the end of the text. |
| Chars.SpanLenUnique | index.js:3 | The greedy run is the only prefix made of class characters that cannot be extended, so the pattern never backtracks. |
| Chars.Trim | index.js:40 | `trim` leaves no whitespace at either end, and gives the empty string exactly for a blank input. |
| Chars.TrimIsMiddle | index.js:40 | What `trim` keeps is a contiguous part of the input between a whitespace-only head and a whitespace-only tail. |
| Chars.TrimFixedPoint | index.js:40 | `trim` changes a string exactly when it has whitespace at one of its ends. |
| Chars.TrimIdempotent | index.js:57 | Trimming twice is the same as trimming once. |
| Attributes.MatchAt | index.js:3 | A match found at the start of a text is well formed: whitespace runs, `:` or `=`, quotes, and a quote-free class list. It covers exactly the text it was cut from. |
| Attributes.MatchAtComplete | index.js:3 | Every well-formed match is found at the start of the text it begins, with exactly the remaining text after it. |
| Attributes.SameMatch | index.js:3 | Two well-formed matches at the start of the same text are equal. |
| Attributes.Replacement | index.js:43 | The replacement of a match starts with `className:"` and ends with `"`. For a whitespace-free prefix, the tokens between the quotes are the match's class tokens, each prefixed. |
| Attributes.RewriteAttributes | index.js:36-44 | A non-empty text never rewrites to the empty string. A text that does not start with `className` keeps its first character. A match at the front of the text becomes `className:"`. |
| Attributes.RewriteIsRenderedScan | index.js:36 | The rewrite is the rendering of a leftmost scan of its input. The scan covers the input piece by piece; every character outside a match is copied unchanged and in place, and each match becomes its replacement. |
| Attributes.ScanUnique | index.js:36 | A text has only one leftmost scan. |
| Attributes.RewriteWithoutAttributeName | index.js:36 | A text in which `className` does not occur comes out unchanged. |
| Attributes.RewriteAtMatch | index.js:36-44 | A match at the front is replaced by its replacement, and the rewrite continues right after the match. |
| Attributes.RewriteIgnoresSpelling | index.js:37-43 | A match always becomes `className:"<prefixed list>"`. Separator, spacing and quote style do not affect the output. |
| Attributes.MixedQuotesAccepted | index.js:3 | A value opened with `"` is closed by the first `'`, and the rewrite resumes after that apostrophe. |
| Attributes.ReplacementIsMatch | index.js:43 | With a quote-free prefix, a replacement is itself a well-formed match with a colon, no spacing and double quotes. |
| Attributes.RewriteTwice | index.js:36-44 | With a quote-free prefix, rewriting the output again prefixes the class list a second time. So on a non-blank class list the attribute rewrite is not idempotent (see `Prefixer.PrefixTwice`); `className:""` rewrites to itself. |
| ClassnamesLiteral.RemoveQuotes | index.js:26 | Removing every `'` and `"` leaves a quote-free string that is no longer than the input. |
| ClassnamesLiteral.RemoveQuotesConcat | index.js:26 | Quote removal distributes over concatenation. |
| ClassnamesLiteral.RemoveQuotesOfQuote | index.js:26 | A lone `'` or `"` is removed. With the two lemmas around it, this fixes quote removal on every text. |
| ClassnamesLiteral.RemoveQuotesKeeps | index.js:26 | Quote removal keeps a quote-free string whole, so it deletes nothing but quotes. |
| ClassnamesLiteral.LiteralClassName | index.js:26 | The class name a literal is rewritten to starts with `prefix-`. The part after `prefix-` has no whitespace at either end. It is quote-free when the prefix is. |
| ClassnamesLiteral.RewriteLiteral | index.js:26 | The replacement starts and ends with `"`, whatever quotes the source used, and its body starts with `prefix-`. With a quote-free prefix there is no other quote inside. |
| ClassnamesLiteral.RewriteQuotedLiteral | index.js:26 | A literal in either quote style with quote-free contents becomes `"` + prefix + `-` + the trimmed contents + `"`; its class name is prefix + `-` + the trimmed contents. |
| ClassnamesLiteral.QuoteStyleIrrelevant | index.js:26 | Single- and double-quoted literals with the same contents get the same replacement. |
| ClassnamesLiteral.LiteralPrefixesOnce | index.js:26 | The contents of a matched text are prefixed as one class name: inner whitespace is kept, so for a matched text `"a b"` only `a` gets the prefix. The loader reaches such a text only through a pattern with metacharacters, as `"a.b"` matching `"a b"`. |
| ClassnamesLiteral.CleanedLiteralReplacement | index.js:20-26 | Removing whitespace from a quoted literal keeps its quotes and removes the whitespace inside. When the pattern built from it matches only itself, the replacement is `"` + prefix + `-` + the contents without whitespace + `"`. |
| ClassnamesLiteral.RemoveInnerQuote | index.js:26 | A literal holding a quote of the other style, such as `"it's"`, loses that quote too, and the two sides are joined. |
| ClassnamesLiteral.InnerQuoteLiteral | index.js:26 | Such a literal becomes `"` + prefix + `-` + the joined sides + `"`. |
| ClassnamesLiteral.ApostropheExample | index.js:26 | With the default prefix, the literal `"it's"` becomes `"app-its"`. |
| Ignore.SomeEquals | index.js:62-65 | `some` with `===` holds exactly when the name is an element of the list. |
| Ignore.ClassMatchesTest | index.js:54-68 | A falsy setting (absent or empty string) matches nothing. A string matches exactly when it equals the trimmed name. An array matches exactly when one of its elements equals the trimmed name. |
| Ignore.ClassMatchesIgnoresPadding | index.js:57 | Whitespace around the class name never changes the answer. |
| Ignore.PaddedTextNeverMatches | index.js:57-68 | A string setting with whitespace at one of its ends matches no class name. |
| Ignore.IgnoreClassName | index.js:50-52 | A name is exempt exactly when one of these holds: its trimmed form is in the list, it is blank, it starts with an ASCII capital or `-`, or the name itself is in the list. |
| Ignore.LoaderEntriesExemptNothing | index.js:26-27 | When the list holds rewritten literals, a quote-free name is exempt only when it is blank or starts with an ASCII capital or `-`. |
| Ignore.LiteralNamesNotExemptAsWritten | index.js:26-27 | Take the list as the loader fills it, and a prefix like `app`. The class name any recorded literal produced is not exempt. |
| Ignore.RecordedNamesExempt | index.js:51 | If the list holds the class names without their quotes, every rewritten literal's class name is exempt. |

## Left out

- The webpack glue: `this.getOptions()`, the unused `inputSourceMap` argument and the CommonJS exports (index.js:9-11, 80-81). The option value becomes a parameter of `Prefixer.EffectivePrefix`.
- The whitespace removal at index.js:20 happens before the pattern of index.js:25 is built. So the pattern for `classnames("btn primary")` is `"btnprimary"`, which does not match the source text `"btn primary"`: a literal with inner whitespace is not matched by its own pattern unless that pattern has a metacharacter that matches whitespace, as `classnames("a.* b")` gives the pattern `"a.*b"`, which matches `"a.* b"`. The `.trim()` at index.js:26 has an effect only when a metacharacter in the pattern matches whitespace. Regular-expression matching of the built pattern is not modelled, so the model states the replacement for a metacharacter-free pattern (`ClassnamesLiteral.CleanedLiteralReplacement`) and for any matched text, but not which texts are matched.
- The discovery of `classnames(...)` calls and of the quoted strings inside them (index.js:16-24). This includes the global replace built with `new RegExp(classString, 'g')` (index.js:25). That pattern comes from unescaped source text, so its meaning depends on regular-expression metacharacters. Only the per-literal replacement (index.js:26) is modelled, so the loader as a whole, with its two phases in sequence, is not one function here. That phase runs first and replaces the quoted text everywhere in the file. So an attribute value equal to a literal of some `classnames` call, such as `className="btn"` next to `classnames("btn")`, is prefixed twice (`className:"app-app-btn"`). The model does not show this interaction.
- The module-level `ignore` array and its growth across calls (index.js:6, 27). It is hidden shared state, so the list is a parameter of `Ignore.IgnoreClassName`.
- The `RegExp` branches of `classMatchesTest` (index.js:59, 63). They delegate to the JavaScript regular-expression engine.
- `getQueryParameterByName` (index.js:71-78). It is an unrelated utility that builds a regular expression from its input.
- Prefixer.EffectivePrefix: option values that are not strings are not modelled. A falsy one such as `0` or `false` gives `app`; a truthy number is turned into a string by the template literals.
- Tokens.SplitWs: that the last piece is empty exactly when the text is empty or ends with whitespace is not stated. The output of the class-list callback does not depend on it, because `Tokens.SplitDropEmptyIsWords` fixes the pieces that survive `filter(Boolean)`.
- Ignore.ClassMatchesTest: values that are neither a string, an array of strings nor absent (numbers, objects, array elements that are not strings) are not modelled.
- Chars.IsWs: the Unicode space characters and line terminators that JavaScript's `\s` and `trim` also cover (no-break space, U+2028, and others) are not modelled. Only the six ASCII whitespace characters are.

## Findings

| source | as written | input that shows it | evidently intended | confidence | as-written member | corrected member |
|---|---|---|---|---|---|---|
| index.js:26-27 | Each rewritten `classnames` literal is recorded in the ignore list with its surrounding double quotes. | With prefix `app`, the literal `"btn"` is recorded as `"app-btn"` with quotes. `ignoreClassName("app-btn")` is then false. | Record the class name `app-btn` without quotes, so that names produced by the literal rewrite are exempt. | low; not executed (`ignoreClassName` is not exported, so its callers are not visible) | Ignore.LiteralNamesNotExemptAsWritten | Ignore.RecordedNamesExempt |
