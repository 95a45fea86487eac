/**
  What patterns and exclusion options mean, told by their characters and flags
  alone: one law for each way a pattern can begin, which together determine the
  meaning of every pattern, and laws for the options.
*/
module PatternLaws {
  import opened Wrappers
  import opened CStrings
  import opened Fnmatch
  import opened FnmatchMeaning
  import opened ExcludeSpec
  import opened Excluding

  // ---------------------------------------------------------------------
  // One character

  /** The two cases of one letter. */
  predicate Cases(c: char, d: char) {
    'A' <= c <= 'Z' && d as int == c as int + 32
  }

  /** Characters that an ordinary character of a pattern stands for. */
  predicate Alike(c: char, d: char, casefold: bool) {
    c == d || (casefold && (Cases(c, d) || Cases(d, c)))
  }

  /** Two characters fold alike iff they are equal or, under FNM_CASEFOLD, the two
      cases of one letter. */
  lemma FoldsAlike(c: char, d: char, f: Flags)
    ensures Fold(c, f) == Fold(d, f) <==> Alike(c, d, f.casefold)
  {
  }

  // ---------------------------------------------------------------------
  // The first token of a pattern

  lemma {:induction false} GlobTail(q: string, i: nat, p: string, k: nat, s: string, j: nat, f: Flags)
    requires i <= |q| && k <= |p| && q[i..] == p[k..] && j <= |s|
    ensures Glob(q, i, s, j, f) <==> Glob(p, k, s, j, f)
    decreases |q| - i
  {
    Suffix(q, i, p, k);
    if i < |q| {
      if q[i] == '*' {
        var i', k' := i + 1, k + 1;
        forall x: nat | j <= x <= |s|
          ensures Glob(q, i', s, x, f) <==> Glob(p, k', s, x, f)
        {
          GlobTail(q, i', p, k', s, x, f);
        }
      } else if !Dangling(q, i, f) && j < |s| {
        GlobTail(q, Next(q, i, f), p, Next(p, k, f), s, j + 1, f);
      }
    }
  }

  /** The rest p of a pattern of which n characters have been used, against the rest
      of a string. */
  lemma RestMeans(q: string, n: nat, s: string, j: nat, f: Flags)
    requires n <= |q| && j <= |s|
    ensures Glob(q, n, s, j, f) <==> Meaning(q[n..], s[j..], f)
  {
    GlobTail(q, n, q[n..], 0, s, j, f);
    Shift(q[n..], 0, s, j, s[j..], 0, f);
    GlobIsMeaning(q[n..], s[j..], f);
  }

  lemma WholeMeans(q: string, s: string, f: Flags)
    ensures Glob(q, 0, s, 0, f) <==> Meaning(q, s, f)
  {
    GlobIsMeaning(q, s, f);
  }

  /** The empty pattern matches nothing but the end, or with FNM_LEADING_DIR a slash
      and what follows. */
  lemma EmptyPattern(s: string, f: Flags)
    ensures Meaning("", s, f) <==> s == "" || (f.leadingDir && s[0] == '/')
  {
    WholeMeans("", s, f);
  }

  /** "?" stands for one character, not a slash under FNM_PATHNAME. */
  lemma QuestionMark(p: string, s: string, f: Flags)
    ensures Meaning("?" + p, s, f) <==> s != "" && !(f.pathname && s[0] == '/') && Meaning(p, s[1..], f)
  {
    var q := "?" + p;
    WholeMeans(q, s, f);
    assert q[0] == '?' && q[1..] == p;
    if s != "" {
      RestMeans(q, 1, s, 1, f);
    }
  }

  /** "*" stands for nothing, or for one more character than it may stand for anyway,
      not a slash under FNM_PATHNAME. */
  lemma StarPattern(p: string, s: string, f: Flags)
    ensures Meaning("*" + p, s, f) <==>
            Meaning(p, s, f) || (s != "" && !(f.pathname && s[0] == '/') && Meaning("*" + p, s[1..], f))
  {
    var q := "*" + p;
    assert q[0] == '*' && q[1..] == p;
    WholeMeans(q, s, f);
    RestMeans(q, 1, s, 0, f);
    assert s[0..] == s;
    if Meaning(p, s, f) {
      assert AllWild(s, 0, 0, f) && Glob(q, 1, s, 0, f);
    }
    if s != "" {
      RestMeans(q, 0, s, 1, f);
      assert q[0..] == q;
      StarTakes(q, s, f);
    }
  }

  lemma StarTakes(q: string, s: string, f: Flags)
    requires q != "" && q[0] == '*' && s != ""
    ensures Glob(q, 0, s, 0, f) <==> Glob(q, 1, s, 0, f) || (Wild(s[0], f) && Glob(q, 0, s, 1, f))
  {
    if Glob(q, 0, s, 0, f) && !Glob(q, 1, s, 0, f) {
      var k: nat :| 0 <= k <= |s| && AllWild(s, 0, k, f) && Glob(q, 1, s, k, f);
      assert Wild(s[0], f) && AllWild(s, 1, k, f);
    }
    if Glob(q, 1, s, 0, f) {
      assert AllWild(s, 0, 0, f);
    }
    if Wild(s[0], f) && Glob(q, 0, s, 1, f) {
      var k: nat :| 1 <= k <= |s| && AllWild(s, 1, k, f) && Glob(q, 1, s, k, f);
      assert AllWild(s, 0, k, f);
    }
  }

  /** Any other character stands for itself; a backslash only under FNM_NOESCAPE. */
  lemma OrdinaryCharacter(c: char, p: string, s: string, f: Flags)
    requires c != '?' && c != '*' && (c != '\\' || f.noescape)
    ensures Meaning([c] + p, s, f) <==> s != "" && Alike(s[0], c, f.casefold) && Meaning(p, s[1..], f)
  {
    var q := [c] + p;
    WholeMeans(q, s, f);
    assert q[0] == c && q[1..] == p;
    if s != "" {
      FoldsAlike(s[0], c, f);
      RestMeans(q, 1, s, 1, f);
    }
  }

  /** Without FNM_NOESCAPE a backslash makes the next character stand for itself, and
      matches nothing at the end of a pattern. */
  lemma EscapedCharacter(c: char, p: string, s: string, f: Flags)
    requires !f.noescape
    ensures Meaning("\\" + ([c] + p), s, f) <==> s != "" && Alike(s[0], c, f.casefold) && Meaning(p, s[1..], f)
    ensures !Meaning("\\", s, f)
  {
    var q := "\\" + ([c] + p);
    WholeMeans(q, s, f);
    WholeMeans("\\", s, f);
    assert q[0] == '\\' && q[1] == c && q[2..] == p;
    if s != "" {
      FoldsAlike(s[0], c, f);
      RestMeans(q, 2, s, 1, f);
    }
  }

  // ---------------------------------------------------------------------
  // Patterns that fnmatch does not match, and wildcards

  lemma {:induction false} RunTail(q: string, i: nat, p: string, k: nat)
    requires i <= |q| && k <= |p| && q[i..] == p[k..]
    ensures SkipRun(q, i) - i == SkipRun(p, k) - k
    ensures EscapedSlashAt(q, SkipRun(q, i)) == EscapedSlashAt(p, SkipRun(p, k))
    decreases |q| - i
  {
    Suffix(q, i, p, k);
    if i < |q| && (q[i] == '?' || q[i] == '*') {
      RunTail(q, i + 1, p, k + 1);
    }
  }

  lemma {:induction false} LostTail(q: string, i: nat, p: string, k: nat, f: Flags)
    requires i <= |q| && k <= |p| && q[i..] == p[k..]
    ensures StarEscapedSlash(q, i, f) == StarEscapedSlash(p, k, f)
    ensures NoBracket(q, i, f) == NoBracket(p, k, f) && Special(q, i, f) == Special(p, k, f)
    decreases |q| - i
  {
    Suffix(q, i, p, k);
    if i < |q| && !Dangling(q, i, f) {
      RunTail(q, i, p, k);
      LostTail(q, Next(q, i, f), p, Next(p, k, f), f);
    }
  }

  /** A pattern is lost iff under FNM_PATHNAME, where backslashes escape, a star in it
      has nothing but wildcards between it and an escaped slash. */
  lemma LostPatterns(c: char, p: string, f: Flags)
    ensures !Lost("", 0, f) && (Lost(p, 0, f) ==> f.pathname && !f.noescape)
    ensures c != '*' && (c != '\\' || f.noescape) ==> (Lost([c] + p, 0, f) <==> Lost(p, 0, f))
    ensures !f.noescape ==> (Lost("\\" + ([c] + p), 0, f) <==> Lost(p, 0, f)) && !Lost("\\", 0, f)
    ensures f.pathname && !f.noescape ==> (Lost("*" + p, 0, f) <==> SlashBehindRun(p) || Lost(p, 0, f))
  {
    var q, e := [c] + p, "\\" + ([c] + p);
    assert q[1..] == p && e[2..] == p && p[0..] == p;
    LostTail(q, 1, p, 0, f);
    LostTail(e, 2, p, 0, f);
    LostBehindStar("*" + p, p, f);
  }

  lemma LostBehindStar(q: string, p: string, f: Flags)
    requires q == "*" + p
    ensures StarEscapedSlash(q, 0, f) <==> SlashBehindRun(p) || StarEscapedSlash(p, 0, f)
  {
    assert q[0] == '*' && q[1..] == p && p[0..] == p;
    LostTail(q, 1, p, 0, f);
    RunTail(q, 1, p, 0);
    RunIsSkipped(p);
  }

  /** Wildcards, and then an escaped slash. */
  predicate SlashBehindRun(p: string) {
    p != "" && if p[0] == '*' || p[0] == '?' then SlashBehindRun(p[1..]) else |p| > 1 && p[0] == '\\' && p[1] == '/'
  }

  lemma {:induction false} RunIsSkipped(p: string)
    ensures SlashBehindRun(p) == EscapedSlashAt(p, SkipRun(p, 0))
  {
    if p != "" && (p[0] == '*' || p[0] == '?') {
      RunIsSkipped(p[1..]);
      RunTail(p, 1, p[1..], 0);
    }
  }

  /** A pattern has wildcards iff some "?", "*" or "[" in it is not escaped. */
  lemma HasWildcard(c: char, p: string, f: Flags)
    ensures !Special("", 0, f)
    ensures c in {'?', '*', '['} ==> Special([c] + p, 0, f)
    ensures c !in {'?', '*', '['} && (c != '\\' || f.noescape) ==> (Special([c] + p, 0, f) <==> Special(p, 0, f))
    ensures !f.noescape ==> (Special("\\" + ([c] + p), 0, f) <==> Special(p, 0, f)) && !Special("\\", 0, f)
  {
    var q, e := [c] + p, "\\" + ([c] + p);
    assert q[1..] == p && e[2..] == p && p[0..] == p;
    LostTail(q, 1, p, 0, f);
    LostTail(e, 2, p, 0, f);
  }

  // ---------------------------------------------------------------------
  // Options of an exclusion list

  /** An option "?" or "*" takes no slash under FNM_PATHNAME. */
  lemma WildcardOptions(s: string, o: Options, br: Brackets)
    requires o.wildcards
    ensures Accepts("?", s, o, br) <==>
              s != "" && !(o.pathname && s[0] == '/') && (|s| == 1 || (o.leadingDir && s[1] == '/'))
    ensures Accepts("*", s, o, br) <==> !o.pathname || o.leadingDir || '/' !in s
    decreases |s|
  {
    var f := FnFlags(o);
    assert "?" + "" == "?" && "*" + "" == "*";
    QuestionMark("", s, f);
    StarPattern("", s, f);
    EmptyPattern(s, f);
    if s != "" {
      EmptyPattern(s[1..], f);
      WildcardOptions(s[1..], o, br);
    }
  }

  /** With FNM_NOESCAPE a backslash in an option is an ordinary character, and
      without it lets "*" stand for itself. */
  lemma EscapeOptions(s: string, o: Options, br: Brackets)
    requires o.wildcards && !o.leadingDir
    ensures !o.noescape ==> (Accepts("\\*", s, o, br) <==> s == "*")
    ensures o.noescape ==> (Accepts("\\*", s, o, br) <==> s != "" && s[0] == '\\' && Accepts("*", s[1..], o, br))
  {
    var f := FnFlags(o);
    assert "\\" + (['*'] + "") == "\\*" && ['\\'] + "*" == "\\*";
    if !o.noescape {
      EscapedCharacter('*', "", s, f);
    } else {
      OrdinaryCharacter('\\', "*", s, f);
    }
    if s != "" {
      EmptyPattern(s[1..], f);
    }
  }

  /** Where an option without wildcards is found in a name: behind nothing or,
      unless it is anchored, behind a slash that no slash follows; and in front of
      nothing or, with FNM_LEADING_DIR, of a slash. */
  predicate Around(pre: string, t: string, post: string, o: Options) {
    && (pre == "" || (!o.anchored && pre[|pre| - 1] == '/' && (t + post != "" ==> (t + post)[0] != '/')))
    && (post == "" || (o.leadingDir && post[0] == '/'))
  }

  lemma FoundInName(t: string, f: string, o: Options, br: Brackets, pre: string, post: string)
    requires !o.wildcards && f == pre + (t + post) && Around(pre, t, post, o)
    ensures Direct(t, f, o, br)
  {
    var a := |pre|;
    assert f[a..] == t + post && Start(f, a, o);
    assert post == "" ==> f[a..] == t;
    assert post != "" ==> f[a..][..|t|] == t && f[a..][|t|] == post[0];
    assert Accepts(t, f[a..], o, br);
  }

  lemma WhereFound(t: string, f: string, o: Options, br: Brackets, a: nat) returns (pre: string, post: string)
    requires !o.wildcards && a <= |f| && Start(f, a, o) && Accepts(t, f[a..], o, br)
    ensures Around(pre, t, post, o) && f == pre + (t + post)
  {
    var rest := f[a..];
    pre, post := f[..a], rest[|t|..];
    assert rest == t + post && f == pre + rest;
    assert a > 0 ==> pre[a - 1] == f[a - 1];
    assert rest != "" ==> rest[0] == f[a];
    assert post != "" ==> post[0] == rest[|t|];
  }

  /** An option without wildcards matches a name exactly there. */
  lemma LiteralOption(t: string, f: string, o: Options, br: Brackets)
    requires !o.wildcards
    ensures Direct(t, f, o, br) <==> exists pre, post :: Around(pre, t, post, o) && f == pre + (t + post)
  {
    if Direct(t, f, o, br) {
      var a: nat :| 0 <= a <= |f| && Start(f, a, o) && Accepts(t, f[a..], o, br);
      var pre, post := WhereFound(t, f, o, br, a);
    }
    if exists pre, post :: Around(pre, t, post, o) && f == pre + (t + post) {
      var pre, post :| Around(pre, t, post, o) && f == pre + (t + post);
      FoundInName(t, f, o, br, pre, post);
    }
  }

  /** "Exclude a, include a/b", with FNM_LEADING_DIR: the last option that matches
      decides, and what matches none is not excluded. */
  lemma TwoOptionsExample(added: seq<Added>, f: string, br: Brackets)
    requires added == [Added("a", Options(false, true, false, true, false, false), true),
                       Added("a/b", Options(true, true, false, true, false, false), true)]
    ensures f == "a/c" ==> Excluded(Compile(added), f, br)
    ensures f == "a/b" || f == "z" ==> !Excluded(Compile(added), f, br)
  {
    OptionsOfExample(added[0], added[1], f, br);
    CompileDecides(added, f, br);
  }

  lemma OptionsOfExample(x: Added, y: Added, f: string, br: Brackets)
    requires x == Added("a", Options(false, true, false, true, false, false), true)
    requires y == Added("a/b", Options(true, true, false, true, false, false), true)
    ensures f == "a/c" ==> Matches(x, f, br) && !Matches(y, f, br)
    ensures f == "a/b" ==> Matches(y, f, br)
    ensures f == "z" ==> !Matches(x, f, br) && !Matches(y, f, br)
  {
    LiteralOption("a", f, x.options, br);
    LiteralOption("a/b", f, y.options, br);
    if f == "a/c" {
      assert Around("", "a", "/c", x.options) && "" + ("a" + "/c") == f;
    } else if f == "a/b" {
      assert Around("", "a/b", "", y.options) && "" + ("a/b" + "") == f;
    }
  }
}
