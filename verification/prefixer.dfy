/** The class-string prefixer of the loader: the callback that turns the captured
    class list of a `className` attribute into its prefixed form, and the choice of
    prefix from the loader options. */
module Prefixer {
  import opened Wrappers
  import opened Chars
  import opened Tokens

  /** The prefix used when the `prefix` option is missing or empty. */
  const DefaultPrefix: string := "app"

  /** `options.prefix || 'app'`: a missing or empty option falls back to the default,
      so the prefix is never empty and the rewriting branch guarded by `if (prefix)`
      always runs. */
  function EffectivePrefix(option: Option<string>): (prefix: string)
    ensures prefix != []
    ensures option.Some? && option.value != [] ==> prefix == option.value
    ensures option.None? || option.value == [] ==> prefix == DefaultPrefix
  {
    match option
    case Some(p) => if p != [] then p else DefaultPrefix
    case None => DefaultPrefix
  }

  /** One class name with the namespace put in front of it. */
  function AddPrefix(prefix: string, token: string): string
  {
    prefix + "-" + token
  }

  /** Every token of a list prefixed, in order. */
  function PrefixAll(prefix: string, ws: seq<string>): (r: seq<string>)
    ensures |r| == |ws|
    ensures forall i :: 0 <= i < |ws| ==> r[i] == AddPrefix(prefix, ws[i])
  {
    seq(|ws|, i requires 0 <= i < |ws| => AddPrefix(prefix, ws[i]))
  }

  /** The `map` callback: a piece that is blank after trimming becomes the empty
      string, any other piece is trimmed and prefixed. Its result is empty exactly
      for a blank piece, so `filter(Boolean)` drops exactly the blank pieces. */
  function PrefixPiece(prefix: string, piece: string): (r: string)
    ensures r == [] <==> AllWs(piece)
    ensures r != [] ==> StartsWith(r, prefix + "-") && r[|prefix| + 1..] == Trim(piece)
  {
    if Trim(piece) != [] then AddPrefix(prefix, Trim(piece)) else []
  }

  /** `pieces.map(callback)`: every piece through the callback, in place. */
  function MapPieces(prefix: string, pieces: seq<string>): (r: seq<string>)
    ensures |r| == |pieces|
    ensures forall i :: 0 <= i < |pieces| ==> r[i] == PrefixPiece(prefix, pieces[i])
  {
    if pieces == [] then [] else [PrefixPiece(prefix, pieces[0])] + MapPieces(prefix, pieces[1..])
  }

  /** On a whitespace-free piece the callback drops the empty piece and prefixes
      any other. */
  lemma PrefixPieceNoWs(prefix: string, piece: string)
    requires NoWs(piece)
    ensures piece == [] ==> PrefixPiece(prefix, piece) == []
    ensures piece != [] ==> PrefixPiece(prefix, piece) == AddPrefix(prefix, piece) != []
  {
    TrimNoWs(piece);
  }

  lemma MapPiecesCons(prefix: string, pieces: seq<string>)
    requires pieces != []
    ensures MapPieces(prefix, pieces) == [PrefixPiece(prefix, pieces[0])] + MapPieces(prefix, pieces[1..])
  {
  }

  lemma PrefixAllCons(prefix: string, w: string, ws: seq<string>)
    ensures PrefixAll(prefix, [w] + ws) == [AddPrefix(prefix, w)] + PrefixAll(prefix, ws)
  {
  }

  /** Prefixing whitespace-free pieces and then dropping the empty results is the same
      as dropping the empty pieces and prefixing what is left. */
  lemma {:induction false} DropEmptyMapPieces(prefix: string, pieces: seq<string>)
    requires forall i :: 0 <= i < |pieces| ==> NoWs(pieces[i])
    ensures DropEmpty(MapPieces(prefix, pieces)) == PrefixAll(prefix, DropEmpty(pieces))
  {
    if pieces != [] {
      var head := pieces[0];
      var tail := pieces[1..];
      assert forall i :: 0 <= i < |tail| ==> NoWs(tail[i]) by {
        forall i | 0 <= i < |tail|
          ensures NoWs(tail[i])
        {
          assert tail[i] == pieces[i + 1];
        }
      }
      DropEmptyMapPieces(prefix, tail);
      PrefixPieceNoWs(prefix, head);
      MapPiecesCons(prefix, pieces);
      var mapped := [PrefixPiece(prefix, head)] + MapPieces(prefix, tail);
      assert mapped[1..] == MapPieces(prefix, tail);
      if head != [] {
        assert DropEmpty(mapped) == [mapped[0]] + DropEmpty(MapPieces(prefix, tail));
        assert DropEmpty(pieces) == [head] + DropEmpty(tail);
        PrefixAllCons(prefix, head, DropEmpty(tail));
      } else {
        assert DropEmpty(mapped) == DropEmpty(MapPieces(prefix, tail));
      }
    }
  }

  /** The class-string prefixer: `split(/\s+/)`, the `map` callback, `filter(Boolean)`
      and `join(' ')`. Its result is the single-space join of the input's tokens,
      each one prefixed. */
  function PrefixClassString(prefix: string, classNames: string): (r: string)
    ensures r == JoinSpace(PrefixAll(prefix, Words(classNames)))
  {
    var pieces := SplitWs(classNames);
    DropEmptyMapPieces(prefix, pieces);
    SplitDropEmptyIsWords(classNames);
    JoinSpace(DropEmpty(MapPieces(prefix, pieces)))
  }

  /** With a whitespace-free prefix, prefixed tokens are tokens again. */
  lemma PrefixAllWellFormed(prefix: string, ws: seq<string>)
    requires NoWs(prefix)
    requires WellFormedTokens(ws)
    ensures WellFormedTokens(PrefixAll(prefix, ws))
  {
    var r := PrefixAll(prefix, ws);
    forall i | 0 <= i < |r|
      ensures r[i] != [] && NoWs(r[i])
    {
      var t := r[i];
      assert t == prefix + "-" + ws[i];
      forall k | 0 <= k < |t|
        ensures !IsWs(t[k])
      {
        if k < |prefix| {
          assert t[k] == prefix[k];
        } else if k > |prefix| {
          assert t[k] == ws[i][k - |prefix| - 1];
        }
      }
    }
  }

  /** The output's tokens are exactly `prefix-t` for each token `t` of the input, in
      the same order and one for one. */
  lemma PrefixedTokens(prefix: string, classNames: string)
    requires NoWs(prefix)
    ensures Words(PrefixClassString(prefix, classNames)) == PrefixAll(prefix, Words(classNames))
    ensures |Words(PrefixClassString(prefix, classNames))| == |Words(classNames)|
    ensures forall i :: 0 <= i < |Words(classNames)| ==>
              StartsWith(Words(PrefixClassString(prefix, classNames))[i], prefix + "-")
  {
    var ws := Words(classNames);
    PrefixAllWellFormed(prefix, ws);
    WordsOfJoin(PrefixAll(prefix, ws));
    forall i | 0 <= i < |ws|
      ensures StartsWith(PrefixAll(prefix, ws)[i], prefix + "-")
    {
      assert PrefixAll(prefix, ws)[i] == (prefix + "-") + ws[i];
    }
  }

  /** The output has no empty tokens, single spaces between tokens and no whitespace
      at either end; it is empty exactly when the input is blank. */
  lemma PrefixedShape(prefix: string, classNames: string)
    requires NoWs(prefix)
    ensures Normalized(PrefixClassString(prefix, classNames))
    ensures PrefixClassString(prefix, classNames) == [] <==> AllWs(classNames)
  {
    var ws := Words(classNames);
    PrefixAllWellFormed(prefix, ws);
    JoinNormalized(PrefixAll(prefix, ws));
    WordsEmpty(classNames);
    if ws != [] {
      JoinStartsWithToken(PrefixAll(prefix, ws));
    }
  }

  /** Prefixing is not idempotent: a second pass prefixes every token again, so the
      result changes whenever there is at least one token. */
  lemma PrefixTwice(prefix: string, classNames: string)
    requires NoWs(prefix)
    ensures Words(PrefixClassString(prefix, PrefixClassString(prefix, classNames)))
         == PrefixAll(prefix, PrefixAll(prefix, Words(classNames)))
    ensures !AllWs(classNames) ==>
              PrefixClassString(prefix, PrefixClassString(prefix, classNames))
              != PrefixClassString(prefix, classNames)
  {
    var once := PrefixClassString(prefix, classNames);
    var twice := PrefixClassString(prefix, once);
    PrefixedTokens(prefix, classNames);
    PrefixedTokens(prefix, once);
    WordsEmpty(classNames);
    if !AllWs(classNames) {
      var ws := Words(classNames);
      assert |Words(twice)[0]| > |Words(once)[0]|;
    }
  }

  /** With a quote-free prefix and class list, the prefixed class list is quote-free:
      it can be put back between double quotes. */
  lemma PrefixedNoQuote(prefix: string, classNames: string)
    requires NoQuote(prefix) && NoQuote(classNames)
    ensures NoQuote(PrefixClassString(prefix, classNames))
  {
    var ws := Words(classNames);
    WordsNoQuote(classNames);
    var ps := PrefixAll(prefix, ws);
    forall i | 0 <= i < |ps|
      ensures NoQuote(ps[i])
    {
      var t := ps[i];
      assert t == prefix + "-" + ws[i];
      forall k | 0 <= k < |t|
        ensures !IsQuote(t[k])
      {
        if k < |prefix| {
          assert t[k] == prefix[k];
        } else if k > |prefix| {
          assert t[k] == ws[i][k - |prefix| - 1];
        }
      }
    }
    JoinNoQuote(ps);
  }

  /** With the default prefix, the class list `app-btn` becomes `app-app-btn`. */
  lemma DoublePrefixExample(classNames: string)
    requires classNames == "app-btn"
    ensures PrefixClassString(DefaultPrefix, classNames) == "app-app-btn"
  {
    assert NoWs(classNames) by {
      forall i | 0 <= i < |classNames|
        ensures !IsWs(classNames[i])
      {
      }
    }
    SingleToken(DefaultPrefix, classNames);
    assert AddPrefix(DefaultPrefix, classNames) == "app-app-btn" by {
      assert DefaultPrefix + "-" == "app-";
      assert "app-" + classNames == "app-app-btn";
    }
  }

  /** A class list that is one token gets that token prefixed. */
  lemma SingleToken(prefix: string, w: string)
    requires w != [] && NoWs(w)
    ensures PrefixClassString(prefix, w) == AddPrefix(prefix, w)
  {
    WordsCons(w, []);
    assert w + [] == w;
    assert PrefixAll(prefix, [w]) == [AddPrefix(prefix, w)];
  }

  /** The two-token example: `btn primary` becomes `app-btn app-primary`. */
  lemma TwoTokenExample()
    ensures PrefixClassString("app", "btn primary") == "app-btn app-primary"
  {
    var ws := ["btn", "primary"];
    var r := PrefixAll("app", ws);
    assert r == ["app-btn", "app-primary"] by {
      assert AddPrefix("app", "btn") == "app-btn";
      assert AddPrefix("app", "primary") == "app-primary";
    }
    assert JoinSpace(r) == "app-btn app-primary";
    assert JoinSpace(ws) == "btn primary";
    WordsOfJoin(ws);
  }
}
