/**
  The meaning of a pattern, independent of how it is matched: the pattern is a
  sequence of tokens, and a string matches if it can be cut into one piece per
  token, each piece such as its token stands for.
*/
module FnmatchMeaning {
  import opened Wrappers
  import opened CStrings
  import opened Fnmatch

  datatype Token = AnyChar | AnyRun | Literal(c: char)

  /** The tokens of a pattern; none if it ends in a backslash that escapes
      nothing. */
  function Tokens(p: string, i: nat, f: Flags): Option<seq<Token>>
    requires i <= |p|
    decreases |p| - i
  {
    if i == |p| then Some([])
    else if p[i] == '\\' && !f.noescape then
      if i + 1 == |p| then None
      else match Tokens(p, i + 2, f) case None => None case Some(rest) => Some([Literal(p[i + 1])] + rest)
    else
      var t := if p[i] == '?' then AnyChar else if p[i] == '*' then AnyRun else Literal(p[i]);
      match Tokens(p, i + 1, f) case None => None case Some(rest) => Some([t] + rest)
  }

  predicate Stands(t: Token, piece: string, f: Flags) {
    match t
    case AnyChar => |piece| == 1 && Wild(piece[0], f)
    case AnyRun => forall i | 0 <= i < |piece| :: Wild(piece[i], f)
    case Literal(c) => |piece| == 1 && Fold(piece[0], f) == Fold(c, f)
  }

  function Concat(pieces: seq<string>): string {
    if pieces == [] then [] else pieces[0] + Concat(pieces[1..])
  }

  ghost predicate CutsInto(toks: seq<Token>, pieces: seq<string>, s: string, f: Flags) {
    && |pieces| == |toks|
    && (forall i | 0 <= i < |toks| :: Stands(toks[i], pieces[i], f))
    && Concat(pieces) == s
  }

  ghost predicate Language(toks: seq<Token>, s: string, f: Flags) {
    exists pieces: seq<string> :: CutsInto(toks, pieces, s, f)
  }

  /** What fnmatch promises: the pattern matches the string or, under
      FNM_LEADING_DIR, a part of it that a slash follows. */
  ghost predicate Meaning(p: string, s: string, f: Flags) {
    && Tokens(p, 0, f).Some?
    && exists m | 0 <= m <= |s| ::
         (m == |s| || (f.leadingDir && s[m] == '/')) && Language(Tokens(p, 0, f).value, s[..m], f)
  }

  lemma AddPiece(t: Token, toks: seq<Token>, piece: string, pieces: seq<string>, s: string, f: Flags)
    requires Stands(t, piece, f) && CutsInto(toks, pieces, s, f)
    ensures CutsInto([t] + toks, [piece] + pieces, piece + s, f)
  {
  }

  lemma RemovePiece(toks: seq<Token>, pieces: seq<string>, s: string, f: Flags)
    requires toks != [] && CutsInto(toks, pieces, s, f)
    ensures var n := |pieces[0]|;
            n <= |s| && s[..n] == pieces[0] && Stands(toks[0], pieces[0], f) && CutsInto(toks[1..], pieces[1..], s[n..], f)
  {
  }

  function TokenAt(p: string, i: nat, f: Flags): Token
    requires i < |p| && !Dangling(p, i, f)
  {
    if Escape(p, i, f) then Literal(p[i + 1])
    else if p[i] == '?' then AnyChar
    else if p[i] == '*' then AnyRun
    else Literal(p[i])
  }

  lemma TokensStep(p: string, i: nat, f: Flags)
    requires i < |p| && !Dangling(p, i, f)
    ensures var rest := Tokens(p, Next(p, i, f), f);
            Tokens(p, i, f) == if rest.Some? then Some([TokenAt(p, i, f)] + rest.value) else None
  {
  }

  /** One token and the piece it stands for. */
  lemma StandsIff(p: string, i: nat, s: string, j: nat, k: nat, f: Flags)
    requires i < |p| && !Dangling(p, i, f) && j <= k <= |s|
    ensures Stands(TokenAt(p, i, f), s[j..k], f) <==>
            if p[i] == '*' then AllWild(s, j, k, f) else k == j + 1 && One(p, i, s[j], f)
  {
  }

  lemma JoinSlices(s: string, j: nat, k: nat, m: nat)
    requires j <= k <= m <= |s|
    ensures s[j..k] + s[k..m] == s[j..m]
  {
  }

  lemma {:induction false} GlobCuts(p: string, i: nat, s: string, j: nat, f: Flags) returns (m: nat, pieces: seq<string>)
    requires i <= |p| && j <= |s| && Glob(p, i, s, j, f)
    ensures Tokens(p, i, f).Some? && j <= m <= |s| && (m == |s| || (f.leadingDir && s[m] == '/'))
    ensures CutsInto(Tokens(p, i, f).value, pieces, s[j..m], f)
    decreases |p| - i
  {
    if i == |p| {
      m, pieces := j, [];
    } else {
      var k := j + 1;
      if p[i] == '*' {
        k :| j <= k <= |s| && AllWild(s, j, k, f) && Glob(p, i + 1, s, k, f);
      }
      var rest;
      m, rest := GlobCuts(p, Next(p, i, f), s, k, f);
      TokensStep(p, i, f);
      StandsIff(p, i, s, j, k, f);
      AddPiece(TokenAt(p, i, f), Tokens(p, Next(p, i, f), f).value, s[j..k], rest, s[k..m], f);
      pieces := [s[j..k]] + rest;
      JoinSlices(s, j, k, m);
    }
  }

  lemma {:induction false} CutsGlob(p: string, i: nat, s: string, j: nat, m: nat, pieces: seq<string>, f: Flags)
    requires i <= |p| && j <= m <= |s| && (m == |s| || (f.leadingDir && s[m] == '/'))
    requires Tokens(p, i, f).Some? && CutsInto(Tokens(p, i, f).value, pieces, s[j..m], f)
    ensures Glob(p, i, s, j, f)
    decreases |p| - i
  {
    if i < |p| {
      TokensStep(p, i, f);
      RemovePiece(Tokens(p, i, f).value, pieces, s[j..m], f);
      var k := j + |pieces[0]|;
      assert s[j..m][..k - j] == s[j..k] && s[j..m][k - j..] == s[k..m];
      assert Tokens(p, i, f).value[1..] == Tokens(p, Next(p, i, f), f).value;
      CutsGlob(p, Next(p, i, f), s, k, m, pieces[1..], f);
      StandsIff(p, i, s, j, k, f);
    }
  }

  /** The recursive relation the matcher is proved against is the meaning. */
  lemma GlobIsMeaning(p: string, s: string, f: Flags)
    ensures Glob(p, 0, s, 0, f) <==> Meaning(p, s, f)
  {
    if Glob(p, 0, s, 0, f) {
      var m, pieces := GlobCuts(p, 0, s, 0, f);
      assert s[0..m] == s[..m];
    }
    if Meaning(p, s, f) {
      var m :| 0 <= m <= |s| && (m == |s| || (f.leadingDir && s[m] == '/')) &&
               Language(Tokens(p, 0, f).value, s[..m], f);
      var pieces :| CutsInto(Tokens(p, 0, f).value, pieces, s[..m], f);
      assert s[0..m] == s[..m];
      CutsGlob(p, 0, s, 0, m, pieces, f);
    }
  }

  /** fnmatch: 0 iff the string is in the language of the pattern, but for one
      family of patterns under FNM_PATHNAME. */
  method FnmatchString(pattern: string, str: string, f: Flags) returns (result: int)
    requires CString(pattern) && CString(str) && NoBracket(pattern, 0, f)
    ensures result == 0 <==> Meaning(pattern, str, f) && !Lost(pattern, 0, f)
    ensures result == 0 || result == FNM_NOMATCH
  {
    GlobIsMeaning(pattern, str, f);
    ghost var d;
    var ends;
    result, ends, d := Match(pattern, 0, str, 0, f, false);
  }

  // ---------------------------------------------------------------------
  // Exactly when fnmatch means what the pattern says

  /** A string the pattern matches, if it matches any. */
  function Sample(p: string, i: nat, f: Flags): string
    requires i <= |p|
    decreases |p| - i
  {
    if i == |p| || Dangling(p, i, f) then []
    else if p[i] == '*' then Sample(p, i + 1, f)
    else [if p[i] == '?' then 'x' else if Escape(p, i, f) then p[i + 1] else p[i]] + Sample(p, Next(p, i, f), f)
  }

  lemma {:induction false} SampleMatches(p: string, i: nat, f: Flags)
    requires i <= |p| && Tokens(p, i, f).Some? && CString(p)
    ensures Glob(p, i, Sample(p, i, f), 0, f) && CString(Sample(p, i, f))
    decreases |p| - i
  {
    var s := Sample(p, i, f);
    if i < |p| {
      if p[i] == '*' {
        SampleMatches(p, i + 1, f);
        assert AllWild(s, 0, 0, f);
      } else {
        var next := Next(p, i, f);
        SampleMatches(p, next, f);
        Shift(p, next, s, 1, s[1..], 0, f);
      }
    }
  }

  lemma {:induction false} Shift(p: string, i: nat, s: string, j: nat, t: string, k: nat, f: Flags)
    requires i <= |p| && j <= |s| && k <= |t| && s[j..] == t[k..]
    ensures Glob(p, i, s, j, f) <==> Glob(p, i, t, k, f)
    decreases |p| - i
  {
    Suffix(s, j, t, k);
    if i < |p| && p[i] == '*' {
      forall x | j <= x <= |s|
        ensures (AllWild(s, j, x, f) && Glob(p, i + 1, s, x, f)) <==> (AllWild(t, k, x - j + k, f) && Glob(p, i + 1, t, x - j + k, f))
      {
        Shift(p, i + 1, s, x, t, x - j + k, f);
        assert forall y | j <= y < x :: s[y] == t[y - j + k];
        assert forall y | k <= y < x - j + k :: t[y] == s[y - k + j];
      }
      if Glob(p, i, t, k, f) {
        var y :| k <= y <= |t| && AllWild(t, k, y, f) && Glob(p, i + 1, t, y, f);
        assert AllWild(s, j, y - k + j, f) && Glob(p, i + 1, s, y - k + j, f);
      }
    } else if i < |p| && !Dangling(p, i, f) && j < |s| {
      Shift(p, Next(p, i, f), s, j + 1, t, k + 1, f);
    }
  }

  lemma Suffix(s: string, j: nat, t: string, k: nat)
    requires j <= |s| && k <= |t| && s[j..] == t[k..]
    ensures |s| - j == |t| - k
    ensures forall x | j <= x < |s| :: s[x] == t[x - j + k]
    ensures forall x | j <= x <= |s| :: s[x..] == t[x - j + k..]
  {
  }

  /** fnmatch agrees with the meaning of the pattern on every string iff the
      pattern has no star in front of an escaped slash under FNM_PATHNAME, or ends
      in a backslash that escapes nothing, when it matches no string anyway. */
  lemma AgreesExactlyWhen(p: string, f: Flags)
    requires CString(p)
    ensures (forall s | CString(s) :: (Meaning(p, s, f) && !Lost(p, 0, f) <==> Meaning(p, s, f)))
            <==> !Lost(p, 0, f) || Tokens(p, 0, f).None?
  {
    if Lost(p, 0, f) && Tokens(p, 0, f).Some? {
      SampleMatches(p, 0, f);
      var s := Sample(p, 0, f);
      GlobIsMeaning(p, s, f);
      assert CString(s) && Meaning(p, s, f);
    }
  }

  /** An escaped slash behind a star: the pattern means what its unescaped form
      means, and fnmatch does not match it. */
  lemma EscapedSlashExample()
    ensures var p, s, f := "*\\/b", "a/b", Flags(false, true, false, false);
            Meaning(p, s, f) && Lost(p, 0, f)
  {
    var p, s, f := "*\\/b", "a/b", Flags(false, true, false, false);
    assert Glob(p, 4, s, 3, f);
    assert Glob(p, 3, s, 2, f);
    assert Glob(p, 1, s, 1, f);
    assert AllWild(s, 0, 1, f);
    assert Glob(p, 0, s, 0, f);
    GlobIsMeaning(p, s, f);
    assert SkipRun(p, 1) == 1;
    assert SkipRun(p, 0) == 1;
  }
}
