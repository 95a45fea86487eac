/**
  fnmatch for patterns of ordinary characters, `?`, `*` and backslash escapes:
  the matcher commits to the leftmost match of each segment between stars, and
  never backs up over a star.
*/
module Fnmatch {
  import opened Wrappers
  import opened CStrings

  const FNM_NOMATCH := 1

  datatype Flags = Flags(noescape: bool, pathname: bool, leadingDir: bool, casefold: bool)

  // ---------------------------------------------------------------------
  // What a pattern means

  /** tolower in the C locale, under FNM_CASEFOLD. */
  function Fold(c: char, f: Flags): char {
    if f.casefold && 'A' <= c <= 'Z' then c - 'A' + 'a' else c
  }

  /** A character that `?` and `*` may stand for. */
  predicate Wild(c: char, f: Flags) {
    !(f.pathname && c == '/')
  }

  predicate AllWild(s: string, from: nat, to: nat, f: Flags)
    requires to <= |s|
  {
    forall x | from <= x < to :: Wild(s[x], f)
  }

  predicate Escape(p: string, i: nat, f: Flags)
    requires i < |p|
  {
    p[i] == '\\' && !f.noescape
  }

  /** A backslash with nothing to escape; it matches nothing. */
  predicate Dangling(p: string, i: nat, f: Flags)
    requires i < |p|
  {
    Escape(p, i, f) && i + 1 == |p|
  }

  /** The token at i, not a star, matches the single character c. */
  predicate One(p: string, i: nat, c: char, f: Flags)
    requires i < |p| && !Dangling(p, i, f)
  {
    if p[i] == '?' then Wild(c, f)
    else if Escape(p, i, f) then Fold(c, f) == Fold(p[i + 1], f)
    else Fold(c, f) == Fold(p[i], f)
  }

  /** Where the token after the one at i begins. */
  function Next(p: string, i: nat, f: Flags): nat
    requires i < |p| && !Dangling(p, i, f)
  {
    if Escape(p, i, f) then i + 2 else i + 1
  }

  /** The pattern from i on matches the string from j on; under FNM_LEADING_DIR
      what is left of the string may begin with a slash. */
  ghost predicate Glob(p: string, i: nat, s: string, j: nat, f: Flags)
    requires i <= |p| && j <= |s|
    decreases |p| - i
  {
    if i == |p| then j == |s| || (f.leadingDir && s[j] == '/')
    else if p[i] == '*' then exists k | j <= k <= |s| :: AllWild(s, j, k, f) && Glob(p, i + 1, s, k, f)
    else if Dangling(p, i, f) then false
    else j < |s| && One(p, i, s[j], f) && Glob(p, Next(p, i, f), s, j + 1, f)
  }

  // ---------------------------------------------------------------------
  // The segment up to the next star

  datatype Segment = Fails | Ends | Stops(p: nat, n: nat)

  /** Match token by token up to the end of the pattern or the next star. */
  function Walk(p: string, i: nat, s: string, j: nat, f: Flags): (w: Segment)
    requires i <= |p| && j <= |s|
    ensures w.Stops? ==> i <= w.p < |p| && j <= w.n <= |s| && p[w.p] == '*'
    decreases |p| - i
  {
    if i == |p| then (if j == |s| || (f.leadingDir && s[j] == '/') then Ends else Fails)
    else if p[i] == '*' then Stops(i, j)
    else if Dangling(p, i, f) then Fails
    else if j < |s| && One(p, i, s[j], f) then Walk(p, Next(p, i, f), s, j + 1, f)
    else Fails
  }

  lemma {:induction false} WalkDecides(p: string, i: nat, s: string, j: nat, f: Flags)
    requires i <= |p| && j <= |s|
    ensures var w := Walk(p, i, s, j, f);
            Glob(p, i, s, j, f) <==> w.Ends? || (w.Stops? && Glob(p, w.p, s, w.n, f))
    decreases |p| - i
  {
    if i < |p| && p[i] != '*' && !Dangling(p, i, f) && j < |s| && One(p, i, s[j], f) {
      WalkDecides(p, Next(p, i, f), s, j + 1, f);
    }
  }

  /** The heart of the greedy argument.  If the segment at i matches both at j and
      further right at k, and the characters between are such as a star may
      swallow, then the same holds behind the segment. */
  lemma {:induction false} SegmentShift(p: string, i: nat, s: string, j: nat, k: nat, f: Flags)
    requires i <= |p| && j <= k <= |s| && AllWild(s, j, k, f)
    requires Walk(p, i, s, j, f).Stops? && !Walk(p, i, s, k, f).Fails?
    ensures var w, v := Walk(p, i, s, j, f), Walk(p, i, s, k, f);
            v.Stops? && v.p == w.p && w.n <= v.n && AllWild(s, w.n, v.n, f)
    decreases |p| - i
  {
    if p[i] != '*' {
      assert j < k ==> Wild(s[j], f);
      SegmentShift(p, Next(p, i, f), s, j + 1, k + 1, f);
    }
  }

  /** Committing to the leftmost match of a segment loses nothing. */
  lemma LeftmostSuffices(p: string, i: nat, s: string, j: nat, k: nat, f: Flags)
    requires i <= |p| && j <= k <= |s| && AllWild(s, j, k, f)
    requires Walk(p, i, s, j, f).Stops? && Glob(p, i, s, k, f)
    ensures Glob(p, i, s, j, f)
  {
    WalkDecides(p, i, s, k, f);
    SegmentShift(p, i, s, j, k, f);
    var w, v := Walk(p, i, s, j, f), Walk(p, i, s, k, f);
    var m :| v.n <= m <= |s| && AllWild(s, v.n, m, f) && Glob(p, v.p + 1, s, m, f);
    assert AllWild(s, w.n, m, f);
    WalkDecides(p, i, s, j, f);
  }

  // ---------------------------------------------------------------------
  // A run of stars and question marks

  ghost predicate Star(p: string, i: nat, s: string, j: nat, f: Flags)
    requires i <= |p| && j <= |s|
  {
    exists k | j <= k <= |s| :: AllWild(s, j, k, f) && Glob(p, i, s, k, f)
  }

  lemma StarStar(p: string, i: nat, s: string, j: nat, f: Flags)
    requires i < |p| && p[i] == '*' && j <= |s|
    ensures Star(p, i, s, j, f) <==> Star(p, i + 1, s, j, f)
  {
    if Star(p, i, s, j, f) {
      var k :| j <= k <= |s| && AllWild(s, j, k, f) && Glob(p, i, s, k, f);
      var m :| k <= m <= |s| && AllWild(s, k, m, f) && Glob(p, i + 1, s, m, f);
      assert AllWild(s, j, m, f);
    }
    if Star(p, i + 1, s, j, f) {
      assert AllWild(s, j, j, f) && Glob(p, i, s, j, f);
    }
  }

  lemma StarQuestion(p: string, i: nat, s: string, j: nat, f: Flags)
    requires i < |p| && p[i] == '?' && j <= |s|
    ensures Star(p, i, s, j, f) <==> j < |s| && Wild(s[j], f) && Star(p, i + 1, s, j + 1, f)
  {
    if Star(p, i, s, j, f) {
      var k :| j <= k <= |s| && AllWild(s, j, k, f) && Glob(p, i, s, k, f);
      assert j < k ==> Wild(s[j], f);
      assert AllWild(s, j + 1, k + 1, f) && Glob(p, i + 1, s, k + 1, f);
    }
    if j < |s| && Wild(s[j], f) && Star(p, i + 1, s, j + 1, f) {
      var k :| j + 1 <= k <= |s| && AllWild(s, j + 1, k, f) && Glob(p, i + 1, s, k, f);
      assert Wild(s[k - 1], f);
      assert AllWild(s, j, k - 1, f) && Glob(p, i, s, k - 1, f);
    }
  }

  // ---------------------------------------------------------------------
  // A slash behind a star

  function SkipRun(p: string, i: nat): (r: nat)
    requires i <= |p|
    ensures i <= r <= |p|
    ensures forall x | i <= x < r :: p[x] == '?' || p[x] == '*'
    ensures r < |p| ==> p[r] != '?' && p[r] != '*'
    decreases |p| - i
  {
    if i < |p| && (p[i] == '?' || p[i] == '*') then SkipRun(p, i + 1) else i
  }

  predicate EscapedSlashAt(p: string, i: nat) {
    i + 1 < |p| && p[i] == '\\' && p[i + 1] == '/'
  }

  /** The pattern from i on has a star, or a run of wildcards beginning with one,
      right in front of an escaped slash. */
  predicate StarEscapedSlash(p: string, i: nat, f: Flags)
    requires i <= |p|
    decreases |p| - i
  {
    if i == |p| then false
    else if p[i] == '*' then EscapedSlashAt(p, SkipRun(p, i)) || StarEscapedSlash(p, i + 1, f)
    else if Dangling(p, i, f) then false
    else StarEscapedSlash(p, Next(p, i, f), f)
  }

  /** Such a pattern is never matched under FNM_PATHNAME: the search behind the
      star stops at the first slash. */
  predicate Lost(p: string, i: nat, f: Flags)
    requires i <= |p|
  {
    f.pathname && !f.noescape && StarEscapedSlash(p, i, f)
  }

  lemma {:induction false} WalkKeepsLost(p: string, i: nat, s: string, j: nat, f: Flags)
    requires i <= |p| && j <= |s|
    ensures var w := Walk(p, i, s, j, f);
            && (w.Ends? ==> !StarEscapedSlash(p, i, f))
            && (w.Stops? ==> StarEscapedSlash(p, i, f) == StarEscapedSlash(p, w.p, f))
    decreases |p| - i
  {
    if i < |p| && p[i] != '*' && !Dangling(p, i, f) && j < |s| && One(p, i, s[j], f) {
      WalkKeepsLost(p, Next(p, i, f), s, j + 1, f);
    }
  }

  // ---------------------------------------------------------------------
  // The matcher

  /** No bracket expression begins at or behind i. */
  predicate NoBracket(p: string, i: nat, f: Flags)
    requires i <= |p|
    decreases |p| - i
  {
    i == |p| || Dangling(p, i, f) || (p[i] != '[' && NoBracket(p, Next(p, i, f), f))
  }

  lemma {:induction false} WalkKeepsNoBracket(p: string, i: nat, s: string, j: nat, f: Flags)
    requires i <= |p| && j <= |s| && NoBracket(p, i, f)
    ensures var w := Walk(p, i, s, j, f); w.Stops? ==> NoBracket(p, w.p, f)
    decreases |p| - i
  {
    if i < |p| && p[i] != '*' && !Dangling(p, i, f) && j < |s| && One(p, i, s[j], f) {
      WalkKeepsNoBracket(p, Next(p, i, f), s, j + 1, f);
    }
  }

  /** memchr for a slash, or the end of the string when there is none. */
  method NextSlash(s: string, from: nat) returns (k: nat)
    requires from <= |s|
    ensures from <= k <= |s| && forall x | from <= x < k :: s[x] != '/'
    ensures k < |s| ==> s[k] == '/'
  {
    k := from;
    while k < |s| && s[k] != '/'
      invariant from <= k <= |s| && forall x | from <= x < k :: s[x] != '/'
    {
      k := k + 1;
    }
  }

  /** What the code behind a star does next. */
  datatype Verdict = Return(result: int) | Continue(p: nat, n: nat)

  /** The switch of internal_fnmatch on an element of the pattern that is not a
      star: does it match the next character?  p is behind it. */
  method Element(pattern: string, p0: nat, str: string, n: nat, f: Flags) returns (ok: bool, p: nat)
    requires p0 < |pattern| && pattern[p0] != '*' && pattern[p0] != '[' && n <= |str| && CString(pattern)
    ensures ok <==> !Dangling(pattern, p0, f) && n < |str| && One(pattern, p0, str[n], f)
    ensures ok ==> p == Next(pattern, p0, f)
  {
    var c := Fold(pattern[p0], f);
    p := p0 + 1;
    if c == '?' {
      if n == |str| {
        return false, p;
      } else if str[n] == '/' && f.pathname {
        return false, p;
      }
    } else if c == '\\' {
      if !f.noescape {
        c := Char(pattern, p);
        if c == '\0' {
          return false, p;
        }
        p := p + 1;
        c := Fold(c, f);
      }
      if n == |str| || Fold(str[n], f) != c {
        return false, p;
      }
    } else if n == |str| || c != Fold(str[n], f) {
      return false, p;
    }
    ok := true;
  }

  /** internal_fnmatch on pattern[p0..] and string[n0..].  With wantEnds (a
      non-null ends argument) it stops at the next star and reports where; depth
      is the depth of its recursion. */
  method Match(pattern: string, p0: nat, str: string, n0: nat, f: Flags, wantEnds: bool)
    returns (result: int, ends: Option<(nat, nat)>, ghost depth: nat)
    requires p0 <= |pattern| && n0 <= |str| && CString(pattern) && CString(str) && NoBracket(pattern, p0, f)
    ensures wantEnds ==> (result == 0 <==> !Walk(pattern, p0, str, n0, f).Fails?)
    ensures wantEnds && result == 0 ==>
              ends == match Walk(pattern, p0, str, n0, f) case Stops(p, n) => Some((p, n)) case _ => None
    ensures !wantEnds ==> (result == 0 <==> Glob(pattern, p0, str, n0, f) && !Lost(pattern, p0, f))
    ensures result == 0 || result == FNM_NOMATCH
    ensures wantEnds ==> depth == 0
    ensures !f.pathname ==> depth <= 1
    decreases |pattern| - p0, 1
  {
    var p, n := p0, n0;
    ends, depth := None, 0;
    while p < |pattern|
      invariant p0 <= p <= |pattern| && n0 <= n <= |str| && ends == None && NoBracket(pattern, p, f)
      invariant wantEnds ==> Walk(pattern, p0, str, n0, f) == Walk(pattern, p, str, n, f)
      invariant !wantEnds ==> (Glob(pattern, p0, str, n0, f) <==> Glob(pattern, p, str, n, f))
      invariant !wantEnds ==> Lost(pattern, p0, f) == Lost(pattern, p, f)
      invariant wantEnds ==> depth == 0
      invariant !f.pathname ==> depth <= 1
      decreases |pattern| - p
    {
      if pattern[p] == '*' {
        if wantEnds {
          return 0, Some((p, n)), depth;
        }
        var verdict, d := AfterStar(pattern, p + 1, str, n, f);
        depth := if d > depth then d else depth;
        if verdict.Return? {
          return verdict.result, None, depth;
        }
        p, n := verdict.p, verdict.n;
      } else {
        var ok, next := Element(pattern, p, str, n, f);
        if !ok {
          return FNM_NOMATCH, None, depth;
        }
        p, n := next, n + 1;
      }
    }
    if n == |str| {
      return 0, None, depth;
    }
    if f.leadingDir && str[n] == '/' {
      return 0, None, depth;
    }
    return FNM_NOMATCH, None, depth;
  }

  /** The code for a star at pattern[p0 - 1]. */
  method AfterStar(pattern: string, p0: nat, str: string, n0: nat, f: Flags) returns (v: Verdict, ghost depth: nat)
    requires 0 < p0 <= |pattern| && pattern[p0 - 1] == '*' && n0 <= |str|
    requires CString(pattern) && CString(str) && NoBracket(pattern, p0, f)
    ensures v.Return? ==> (v.result == 0 <==> Star(pattern, p0, str, n0, f) && !Lost(pattern, p0 - 1, f))
    ensures v.Return? ==> v.result == 0 || v.result == FNM_NOMATCH
    ensures v.Continue? ==> p0 <= v.p < |pattern| && n0 <= v.n <= |str|
    ensures v.Continue? ==> (Star(pattern, p0, str, n0, f) <==> Glob(pattern, v.p, str, v.n, f))
    ensures v.Continue? ==> Lost(pattern, p0 - 1, f) == Lost(pattern, v.p, f) && NoBracket(pattern, v.p, f)
    ensures !f.pathname ==> depth <= 1
    decreases |pattern| - p0, 3
  {
    var p, n := p0, n0;
    depth := 0;
    var c := Char(pattern, p);
    while c == '?' || c == '*'
      invariant p0 <= p <= |pattern| && n0 <= n <= |str| && c == Char(pattern, p) && NoBracket(pattern, p, f)
      invariant Star(pattern, p0, str, n0, f) <==> Star(pattern, p, str, n, f)
      invariant StarEscapedSlash(pattern, p0 - 1, f) ==
                (EscapedSlashAt(pattern, SkipRun(pattern, p)) || StarEscapedSlash(pattern, p, f))
      decreases |pattern| - p
    {
      if c == '?' {
        StarQuestion(pattern, p, str, n, f);
        if n == |str| {
          return Return(FNM_NOMATCH), depth;
        } else if str[n] == '/' && f.pathname {
          return Return(FNM_NOMATCH), depth;
        } else {
          n := n + 1;
        }
      } else {
        StarStar(pattern, p, str, n, f);
      }
      p := p + 1;
      c := Char(pattern, p);
    }
    if c == '\0' {
      var result := TrailingStar(pattern, str, n, f);
      v := Return(result);
    } else if c == '/' && f.pathname {
      v, depth := StarSlash(pattern, p, str, n, f);
    } else {
      v, depth := Search(pattern, p, str, n, f);
    }
  }

  /** A star with nothing behind it. */
  method TrailingStar(pattern: string, str: string, n: nat, f: Flags) returns (result: int)
    requires n <= |str|
    ensures result == 0 <==> Star(pattern, |pattern|, str, n, f)
    ensures result == 0 || result == FNM_NOMATCH
  {
    result := if f.pathname then FNM_NOMATCH else 0;
    var k := NextSlash(str, n);
    if f.pathname {
      if f.leadingDir {
        result := 0;
      } else if k == |str| {
        result := 0;
      }
      assert AllWild(str, n, k, f) && (result == 0 ==> Glob(pattern, |pattern|, str, k, f));
    } else {
      assert AllWild(str, n, |str|, f) && Glob(pattern, |pattern|, str, |str|, f);
    }
  }

  /** A slash behind the star, under FNM_PATHNAME: it can only be the next one. */
  method StarSlash(pattern: string, p: nat, str: string, n0: nat, f: Flags) returns (v: Verdict, ghost depth: nat)
    requires p < |pattern| && pattern[p] == '/' && f.pathname && n0 <= |str|
    requires CString(pattern) && CString(str) && NoBracket(pattern, p, f)
    ensures v.Return? && (v.result == 0 <==> Star(pattern, p, str, n0, f) && !Lost(pattern, p, f))
    ensures v.result == 0 || v.result == FNM_NOMATCH
    decreases |pattern| - p, 2
  {
    var n := n0;
    depth := 0;
    while n < |str| && str[n] != '/'
      invariant n0 <= n <= |str| && AllWild(str, n0, n, f)
    {
      n := n + 1;
    }
    v := Return(FNM_NOMATCH);
    if n < |str| && str[n] == '/' {
      var result, _, d := Match(pattern, p + 1, str, n + 1, f, false);
      depth := d + 1;
      if result == 0 {
        v := Return(0);
      }
      assert Glob(pattern, p, str, n, f) <==> Glob(pattern, p + 1, str, n + 1, f);
    }
  }

  /** The segment at p, tried from n0 on, matches first at n: from here on the
      matcher is committed. */
  lemma FoundSegment(pattern: string, p: nat, str: string, n0: nat, n: nat, f: Flags)
    requires p < |pattern| && pattern[p] != '?' && pattern[p] != '*' && n0 <= n < |str|
    requires AllWild(str, n0, n, f) && Wild(str[n], f)
    requires forall k | n0 <= k < n :: !Glob(pattern, p, str, k, f)
    requires !Walk(pattern, p, str, n, f).Fails?
    ensures var w := Walk(pattern, p, str, n, f);
            && (w.Ends? ==> Star(pattern, p, str, n0, f) && !StarEscapedSlash(pattern, p, f))
            && (w.Stops? ==> w.p > p && (Star(pattern, p, str, n0, f) <==> Glob(pattern, w.p, str, w.n, f))
                             && StarEscapedSlash(pattern, p, f) == StarEscapedSlash(pattern, w.p, f))
    ensures f.pathname && !f.noescape ==> !EscapedSlashAt(pattern, p)
  {
    var w := Walk(pattern, p, str, n, f);
    WalkKeepsLost(pattern, p, str, n, f);
    WalkDecides(pattern, p, str, n, f);
    if w.Stops? && Star(pattern, p, str, n0, f) {
      var k :| n0 <= k <= |str| && AllWild(str, n0, k, f) && Glob(pattern, p, str, k, f);
      LeftmostSuffices(pattern, p, str, n, k, f);
    }
  }

  /** The segment at p does not match anywhere before endp: then the star cannot
      match either, unless what follows it is an escaped slash. */
  lemma NoSegment(pattern: string, p: nat, str: string, n0: nat, endp: nat, f: Flags)
    requires p < |pattern| && pattern[p] != '?' && pattern[p] != '*' && n0 <= endp <= |str|
    requires !(pattern[p] == '/' && f.pathname)
    requires endp < |str| ==> f.pathname && str[endp] == '/'
    requires forall k | n0 <= k < endp :: !Glob(pattern, p, str, k, f)
    ensures Star(pattern, p, str, n0, f) ==> f.pathname && !f.noescape && EscapedSlashAt(pattern, p)
  {
  }

  /** Look for the leftmost place where the segment behind the star matches. */
  method Search(pattern: string, p: nat, str: string, n0: nat, f: Flags) returns (v: Verdict, ghost depth: nat)
    requires p < |pattern| && pattern[p] != '?' && pattern[p] != '*' && n0 <= |str|
    requires !(pattern[p] == '/' && f.pathname)
    requires CString(pattern) && CString(str) && NoBracket(pattern, p, f)
    ensures v.Return? ==>
              (v.result == 0 <==> Star(pattern, p, str, n0, f) &&
                                  !(f.pathname && !f.noescape && (EscapedSlashAt(pattern, p) || StarEscapedSlash(pattern, p, f))))
    ensures v.Return? ==> v.result == 0 || v.result == FNM_NOMATCH
    ensures v.Continue? ==> p < v.p < |pattern| && n0 <= v.n <= |str|
    ensures v.Continue? ==> (Star(pattern, p, str, n0, f) <==> Glob(pattern, v.p, str, v.n, f))
    ensures v.Continue? ==> (f.pathname && !f.noescape ==> !EscapedSlashAt(pattern, p))
    ensures v.Continue? ==> Lost(pattern, p, f) == Lost(pattern, v.p, f) && NoBracket(pattern, v.p, f)
    ensures depth <= 1
    decreases |pattern| - p, 2
  {
    var endp := |str|;
    if f.pathname {
      endp := NextSlash(str, n0);
    }
    var c := pattern[p];
    if c == '\\' && !f.noescape {
      c := Char(pattern, p + 1);
    }
    c := Fold(c, f);
    depth := 0;
    var n := n0;
    while n < endp
      invariant n0 <= n <= endp && depth <= 1
      invariant forall k | n0 <= k < n :: !Glob(pattern, p, str, k, f)
    {
      WalkDecides(pattern, p, str, n, f);
      if Fold(str[n], f) == c {
        var result, ends, d := Match(pattern, p, str, n, f, true);
        depth := d + 1;
        if result == 0 {
          FoundSegment(pattern, p, str, n0, n, f);
          WalkKeepsNoBracket(pattern, p, str, n, f);
          if ends == None {
            return Return(0), depth;
          }
          return Continue(ends.value.0, ends.value.1), depth;
        }
      }
      n := n + 1;
    }
    NoSegment(pattern, p, str, n0, endp, f);
    return Return(FNM_NOMATCH), depth;
  }
}
