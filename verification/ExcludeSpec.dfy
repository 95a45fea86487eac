/**
  What an exclusion list means, and why looking a name up in a table of patterns
  is the same as matching it against each of them.
*/
module ExcludeSpec {
  import opened Wrappers
  import opened CStrings
  import opened Fnmatch
  import opened FnmatchMeaning

  /** The EXCLUDE_* and FNM_* bits of a pattern without regular expressions and
      case folding. */
  datatype Options = Options(including: bool, anchored: bool, wildcards: bool, leadingDir: bool, noescape: bool, pathname: bool)

  function FnFlags(o: Options): Flags {
    Flags(o.noescape, o.pathname, o.leadingDir, false)
  }

  /** What fnmatch says of a pattern with a bracket expression. */
  type Brackets = (string, string, Flags) -> bool

  // ---------------------------------------------------------------------
  // One pattern against one name

  /** Equal, or with leadingDir equal up to a slash. */
  predicate Plain(t: string, s: string, leadingDir: bool) {
    t == s || (leadingDir && |t| < |s| && s[..|t|] == t && s[|t|] == '/')
  }

  ghost predicate FnmatchAccepts(p: string, s: string, f: Flags, br: Brackets) {
    if NoBracket(p, 0, f) then Meaning(p, s, f) && !Lost(p, 0, f) else br(p, s, f)
  }

  ghost predicate Accepts(p: string, s: string, o: Options, br: Brackets) {
    if o.wildcards then FnmatchAccepts(p, s, FnFlags(o), br) else Plain(p, s, o.leadingDir)
  }

  /** Matching may start at the beginning and, unless anchored, behind a slash
      that no slash follows. */
  predicate Start(f: string, a: nat, o: Options)
    requires a <= |f|
  {
    a == 0 || (!o.anchored && f[a - 1] == '/' && (a < |f| ==> f[a] != '/'))
  }

  ghost predicate Direct(p: string, f: string, o: Options, br: Brackets) {
    exists a | 0 <= a <= |f| :: Start(f, a, o) && Accepts(p, f[a..], o, br)
  }

  // ---------------------------------------------------------------------
  // Patterns that are kept in tables

  /** A wildcard that is not escaped. */
  predicate Special(p: string, i: nat, f: Flags)
    requires i <= |p|
    decreases |p| - i
  {
    i < |p| && !Dangling(p, i, f) &&
    ((!Escape(p, i, f) && (p[i] == '?' || p[i] == '*' || p[i] == '[')) || Special(p, Next(p, i, f), f))
  }

  function Unescape(p: string): (r: string)
    ensures |r| <= |p|
  {
    if p == "" then ""
    else if p[0] == '\\' && |p| > 1 then [p[1]] + Unescape(p[2..])
    else [p[0]] + Unescape(p[1..])
  }

  function Stored(p: string, o: Options): string {
    if o.wildcards && !o.noescape then Unescape(p) else p
  }

  /** Names that are looked up start behind any slash... */
  predicate TableStart(f: string, a: nat, o: Options)
    requires a <= |f|
  {
    a == 0 || (!o.anchored && f[a - 1] == '/')
  }

  /** ...and, with leadingDir, end in front of any. */
  predicate TableEnd(f: string, b: nat, o: Options)
    requires b <= |f|
  {
    b == |f| || (o.leadingDir && f[b] == '/')
  }

  ghost predicate Named(t: string, f: string, o: Options) {
    exists a, b | 0 <= a <= b <= |f| :: TableStart(f, a, o) && TableEnd(f, b, o) && f[a..b] == t
  }

  ghost predicate DirectPlain(t: string, f: string, o: Options) {
    exists a | 0 <= a <= |f| :: Start(f, a, o) && Plain(t, f[a..], o.leadingDir)
  }

  /** No slash follows a slash, except that with leadingDir what follows may
      repeat how the name begins. */
  predicate SingleSlashes(f: string, leadingDir: bool) {
    forall a | 0 < a < |f| && f[a - 1] == '/' && f[a] == '/' ::
      leadingDir && f[|f| - a] == '/' && f[a..] == f[..|f| - a]
  }

  lemma DirectIsNamed(t: string, f: string, o: Options)
    requires DirectPlain(t, f, o)
    ensures Named(t, f, o)
  {
    var a :| 0 <= a <= |f| && Start(f, a, o) && Plain(t, f[a..], o.leadingDir);
    assert f[a..a + |t|] == t;
    assert TableStart(f, a, o) && TableEnd(f, a + |t|, o);
  }

  lemma NamedIsDirect(t: string, f: string, o: Options)
    requires Named(t, f, o) && (o.anchored || SingleSlashes(f, o.leadingDir))
    ensures DirectPlain(t, f, o)
  {
    var a, b :| 0 <= a <= b <= |f| && TableStart(f, a, o) && TableEnd(f, b, o) && f[a..b] == t;
    if Start(f, a, o) {
      assert f[a..][..b - a] == t;
    } else {
      var tail, c := f[a..], b - a;
      assert tail == f[..|f| - a];
      assert f[..c] == tail[..c] == t;
      assert f[c] == '/' by {
        if b < |f| {
          assert f[b] == tail[c] == f[c];
        }
      }
      assert f[0..] == f;
      assert Start(f, 0, o) && Plain(t, f[0..], o.leadingDir);
    }
  }

  /** Looking a name up agrees with matching it, whatever the patterns, iff the
      patterns are anchored or the name has single slashes. */
  lemma TableAgreesExactlyWhen(f: string, o: Options)
    ensures (forall t :: Named(t, f, o) <==> DirectPlain(t, f, o)) <==> o.anchored || SingleSlashes(f, o.leadingDir)
  {
    if o.anchored || SingleSlashes(f, o.leadingDir) {
      forall t
        ensures Named(t, f, o) <==> DirectPlain(t, f, o)
      {
        if Named(t, f, o) { NamedIsDirect(t, f, o); }
        if DirectPlain(t, f, o) { DirectIsNamed(t, f, o); }
      }
    } else {
      var t := RepeatedSlash(f, o);
    }
  }

  /** Behind a slash that follows a slash the table finds what matching does not. */
  lemma RepeatedSlash(f: string, o: Options) returns (t: string)
    requires !o.anchored && !SingleSlashes(f, o.leadingDir)
    ensures Named(t, f, o) && !DirectPlain(t, f, o) && exists a | 0 <= a <= |f| :: t == f[a..]
  {
    var a :| 0 < a < |f| && f[a - 1] == '/' && f[a] == '/' &&
             !(o.leadingDir && f[|f| - a] == '/' && f[a..] == f[..|f| - a]);
    t := f[a..];
    assert TableStart(f, a, o) && TableEnd(f, |f|, o) && f[a..|f|] == t;
  }

  // ---------------------------------------------------------------------
  // A pattern without wildcards means its unescaped text

  lemma {:induction false} UnescapeStep(p: string, i: nat, f: Flags)
    requires i < |p| && !f.noescape
    ensures Unescape(p[i..]) == if Escape(p, i, f) && !Dangling(p, i, f) then [p[i + 1]] + Unescape(p[i + 2..])
                                else [p[i]] + Unescape(p[i + 1..])
  {
  }

  /** The text of a wildcard-free pattern from i on. */
  function Text(p: string, i: nat, f: Flags): string
    requires i <= |p|
  {
    if f.noescape then p[i..] else Unescape(p[i..])
  }

  lemma {:induction false} LiteralGlob(p: string, i: nat, s: string, j: nat, f: Flags)
    requires i <= |p| && j <= |s| && !f.casefold && !Special(p, i, f) && Tokens(p, i, f).Some?
    ensures Glob(p, i, s, j, f) <==> Plain(Text(p, i, f), s[j..], f.leadingDir)
    decreases |p| - i
  {
    var t, u := Text(p, i, f), s[j..];
    if i == |p| {
      assert t == [];
    } else {
      var c, next := if Escape(p, i, f) then p[i + 1] else p[i], Next(p, i, f);
      var rest := Text(p, next, f);
      if f.noescape {
        assert t == [c] + rest;
      } else {
        UnescapeStep(p, i, f);
      }
      if j < |s| {
        LiteralGlob(p, next, s, j + 1, f);
        assert u == [s[j]] + s[j + 1..];
        PlainStep(c, rest, s[j], s[j + 1..], f.leadingDir);
      }
    }
  }

  lemma PlainStep(c: char, t: string, d: char, s: string, leadingDir: bool)
    ensures Plain([c] + t, [d] + s, leadingDir) <==> c == d && Plain(t, s, leadingDir)
  {
    var ct, ds := [c] + t, [d] + s;
    assert ct[0] == c && ct[1..] == t && ds[0] == d && ds[1..] == s;
    if |t| < |s| {
      assert ds[..|ct|] == [d] + s[..|t|];
      assert ds[..|ct|][0] == d && ds[..|ct|][1..] == s[..|t|];
    }
  }

  lemma {:induction false} UnescapeKeepsCString(p: string)
    requires CString(p)
    ensures CString(Unescape(p))
  {
    if p != "" {
      UnescapeKeepsCString(if p[0] == '\\' && |p| > 1 then p[2..] else p[1..]);
    }
  }

  lemma {:induction false} WildcardFree(p: string, i: nat, f: Flags)
    requires i <= |p| && !Special(p, i, f)
    ensures NoBracket(p, i, f) && !StarEscapedSlash(p, i, f)
    decreases |p| - i
  {
    if i < |p| && !Dangling(p, i, f) {
      WildcardFree(p, Next(p, i, f), f);
    }
  }

  /** Unless it ends in a backslash that escapes nothing, a pattern without
      wildcards matches a name iff its stored form does. */
  lemma StoredMeans(p: string, s: string, o: Options, br: Brackets)
    requires !(o.wildcards && Special(p, 0, FnFlags(o)))
    requires o.wildcards ==> Tokens(p, 0, FnFlags(o)).Some?
    ensures Accepts(p, s, o, br) <==> Plain(Stored(p, o), s, o.leadingDir)
  {
    if o.wildcards {
      var f := FnFlags(o);
      WildcardFree(p, 0, f);
      GlobIsMeaning(p, s, f);
      LiteralGlob(p, 0, s, 0, f);
      assert p[0..] == p && s[0..] == s;
    }
  }

  /** That is exact: with such a backslash the stored form matches its own text,
      and fnmatch matches nothing. */
  lemma StoredMeansExactlyWhen(p: string, o: Options, br: Brackets)
    requires CString(p) && o.wildcards && !Special(p, 0, FnFlags(o))
    ensures (forall s | CString(s) :: Accepts(p, s, o, br) <==> Plain(Stored(p, o), s, o.leadingDir))
            <==> Tokens(p, 0, FnFlags(o)).Some?
  {
    var f := FnFlags(o);
    if Tokens(p, 0, f).Some? {
      forall s | CString(s)
        ensures Accepts(p, s, o, br) <==> Plain(Stored(p, o), s, o.leadingDir)
      {
        StoredMeans(p, s, o, br);
      }
    } else {
      WildcardFree(p, 0, f);
      UnescapeKeepsCString(p);
      var s := Stored(p, o);
      assert CString(s) && Plain(Stored(p, o), s, o.leadingDir) && !Accepts(p, s, o, br);
    }
  }

  lemma LoneBackslashMatchesNothing(p: string, f: string, o: Options, br: Brackets)
    requires o.wildcards && !Special(p, 0, FnFlags(o)) && Tokens(p, 0, FnFlags(o)).None?
    ensures !Direct(p, f, o, br)
  {
    WildcardFree(p, 0, FnFlags(o));
    forall a | 0 <= a <= |f|
      ensures !Accepts(p, f[a..], o, br)
    {
      assert !Meaning(p, f[a..], FnFlags(o));
    }
  }

  // ---------------------------------------------------------------------
  // The list

  /** One call of add_exclude; not kept if hash_insert ran out of memory, which
      goes unreported. */
  datatype Added = Added(pattern: string, options: Options, kept: bool)

  predicate Hashed(x: Added) {
    !(x.options.wildcards && Special(x.pattern, 0, FnFlags(x.options)))
  }

  /** The option applies to the name. */
  ghost predicate Matches(x: Added, f: string, br: Brackets) {
    (Hashed(x) ==> x.kept) && Direct(x.pattern, f, x.options, br)
  }

  /** The rule: the last option that matches decides; if none does, the opposite
      of the first; without options nothing is excluded. */
  ghost predicate Decides(added: seq<Added>, f: string, br: Brackets, excluded: bool) {
    && (added == [] ==> !excluded)
    && (forall i | 0 <= i < |added| && Matches(added[i], f, br) && (forall j | i < j < |added| :: !Matches(added[j], f, br)) ::
          excluded == !added[i].options.including)
    && ((forall i | 0 <= i < |added| :: !Matches(added[i], f, br)) && added != [] ==> excluded == added[0].options.including)
  }

  /** The option, if it went into a table, matches this name there iff it does
      directly. */
  predicate Faithful(x: Added, f: string) {
    Hashed(x) && x.kept ==>
      && (x.options.wildcards ==> Tokens(x.pattern, 0, FnFlags(x.options)).Some?)
      && (x.options.anchored || SingleSlashes(f, x.options.leadingDir))
  }

  /** The pattern, if it went into a table, does not end in a backslash that
      escapes nothing. */
  predicate Complete(x: Added) {
    CString(x.pattern) && (Hashed(x) && x.kept && x.options.wildcards ==> Tokens(x.pattern, 0, FnFlags(x.options)).Some?)
  }

  /** ...and this is so for all options of a list, all of which have
      FNM_LEADING_DIR if leadingDir is set. */
  predicate AllComplete(added: seq<Added>, leadingDir: bool) {
    added != [] && forall i | 0 <= i < |added| :: Complete(added[i]) && (leadingDir ==> added[i].options.leadingDir)
  }

  lemma FaithfulMatches(x: Added, f: string, br: Brackets)
    requires Hashed(x) && x.kept && Faithful(x, f)
    ensures Matches(x, f, br) <==> Named(Stored(x.pattern, x.options), f, x.options)
  {
    var t, o := Stored(x.pattern, x.options), x.options;
    TableAgreesExactlyWhen(f, o);
    assert Named(t, f, o) <==> DirectPlain(t, f, o);
    forall a | 0 <= a <= |f|
      ensures Accepts(x.pattern, f[a..], o, br) <==> Plain(t, f[a..], o.leadingDir)
    {
      StoredMeans(x.pattern, f[a..], o, br);
    }
    if Matches(x, f, br) {
      var a :| 0 <= a <= |f| && Start(f, a, o) && Accepts(x.pattern, f[a..], o, br);
      assert Plain(t, f[a..], o.leadingDir);
    }
  }

  /** The rule, for one more option. */
  lemma DecidesAppend(before: seq<Added>, x: Added, f: string, br: Brackets, excluded: bool)
    requires before != [] ==> Decides(before, f, br, excluded)
    ensures Decides(before + [x], f, br,
                    if Matches(x, f, br) then !x.options.including
                    else if before == [] then x.options.including
                    else excluded)
  {
    var n, added := |before|, before + [x];
    assert added[n] == x && forall i | 0 <= i < n :: added[i] == before[i];
    if !Matches(x, f, br) && before == [] {
      assert added[0] == x;
    }
  }

  /** The rule determines the answer. */
  lemma RuleIsDeterministic(added: seq<Added>, f: string, br: Brackets, e1: bool, e2: bool)
    requires Decides(added, f, br, e1) && Decides(added, f, br, e2)
    ensures e1 == e2
  {
    if !(forall i | 0 <= i < |added| :: !Matches(added[i], f, br)) {
      var i := LastMatch(added, f, br);
    }
  }

  lemma {:induction false} LastMatch(added: seq<Added>, f: string, br: Brackets) returns (i: nat)
    requires exists k | 0 <= k < |added| :: Matches(added[k], f, br)
    ensures i < |added| && Matches(added[i], f, br) && forall j | i < j < |added| :: !Matches(added[j], f, br)
  {
    i := |added| - 1;
    while !Matches(added[i], f, br)
      invariant i < |added| && forall j | i < j < |added| :: !Matches(added[j], f, br)
      decreases i
    {
      i := i - 1;
    }
  }
}
