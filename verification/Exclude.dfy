/**
  The exclusion list: options are compiled into segments, newest first, some with
  the patterns in a table and some with an array of them.
*/
module Excluding {
  import opened Wrappers
  import opened CStrings
  import opened Fnmatch
  import opened FnmatchMeaning
  import opened ExcludeSpec

  // ---------------------------------------------------------------------
  // Patterns

  /** fnmatch_pattern_has_wildcards. */
  method HasWildcards(str: string, o: Options) returns (r: bool)
    requires CString(str)
    ensures r == Special(str, 0, FnFlags(o))
  {
    var i := 0;
    while true
      invariant 0 <= i <= |str|
      invariant Special(str, 0, FnFlags(o)) == Special(str, i, FnFlags(o))
      decreases |str| - i
    {
      var c := Char(str, i);
      if c == '\\' {
        i := i + 1;
        i := i + if !o.noescape && Char(str, i) != '\0' then 1 else 0;
      } else if c == '?' || c == '*' || c == '[' {
        return true;
      } else if c == '\0' {
        return false;
      } else {
        i := i + 1;
      }
    }
  }

  /** The first part of the result, and what is still to be read from q on. */
  ghost predicate Unescaping(p: string, done: string, q: nat) {
    q <= |p| && Unescape(p) == done + Unescape(p[q..])
  }

  /** One round of the loop of unescape_pattern, on values: the character at x is
      the next to be written, or x is the end. */
  lemma UnescapeRound(p: string, done: string, q: nat, x: nat)
    requires CString(p) && Unescaping(p, done, q)
    requires x == q + if Char(p, q) == '\\' && Char(p, q + 1) != '\0' then 1 else 0
    ensures x < |p| ==> p[x] != '\0' && Unescaping(p, done + [p[x]], x + 1)
    ensures x >= |p| ==> x == |p| && Unescape(p) == done
  {
    if q < |p| {
      UnescapeStep(p, q, Flags(false, false, false, false));
      Reassociate(done, p[x], Unescape(p[x + 1..]));
    }
  }

  lemma Reassociate(s: string, c: char, t: string)
    ensures s + ([c] + t) == s + [c] + t
  {
  }

  /** The character of p that is written next; x is where it is. */
  method NextCharacter(str: array<char>, q: nat, ghost p: string, ghost done: string) returns (c: char, x: nat)
    requires |p| < str.Length && CString(p) && Unescaping(p, done, q)
    requires str[|p|] == '\0' && forall y | q <= y < |p| :: str[y] == p[y]
    ensures q <= x <= |p| && c == str[x]
    ensures if c == '\0' then x == |p| && Unescape(p) == done else x < |p| && Unescaping(p, done + [c], x + 1)
  {
    assert str[q] == Char(p, q) && (q < |p| ==> str[q + 1] == Char(p, q + 1));
    x := q + if str[q] == '\\' && str[q + 1] != '\0' then 1 else 0;
    UnescapeRound(p, done, q, x);
    c := str[x];
  }

  /** unescape_pattern, in place on a string of length n and its NUL. */
  method UnescapePattern(str: array<char>, n: nat) returns (ghost m: nat)
    requires n < str.Length && str[n] == '\0' && CString(str[..n])
    modifies str
    ensures m <= n && str[..m] == Unescape(old(str[..n])) && str[m] == '\0'
    ensures str[n + 1..] == old(str[n + 1..])
  {
    ghost var p, done := str[..n], "";
    var i, q := 0, 0;
    assert p[0..] == p && Unescaping(p, done, 0);
    while true
      invariant 0 <= i <= q <= n && i == |done| && Unescaping(p, done, q)
      invariant forall x | q <= x <= n :: str[x] == old(str[x])
      invariant str[n + 1..] == old(str[n + 1..])
      invariant forall x | 0 <= x < i :: str[x] == done[x]
      decreases n - q
    {
      assert forall y | q <= y < n :: str[y] == p[y];
      var c, x := NextCharacter(str, q, p, done);
      str[i] := c;
      if c == '\0' {
        assert str[..i] == done;
        break;
      }
      done := done + [c];
      i, q := i + 1, x + 1;
    }
    m := i;
  }

  /** fnmatch_no_wildcards, 0 for a match. */
  method FnmatchNoWildcards(pattern: string, f: string, o: Options) returns (r: int)
    requires CString(f)
    ensures r == 0 <==> Plain(pattern, f, o.leadingDir)
  {
    if !o.leadingDir {
      r := if pattern == f then 0 else 1;
    } else {
      var patlen := |pattern|;
      r := if patlen <= |f| && f[..patlen] == pattern then 0 else 1;
      if r == 0 {
        r := Char(f, patlen) as int;
        if r == '/' as int {
          r := 0;
        }
      }
    }
  }

  /** One call through the function pointer of exclude_fnmatch. */
  method Matcher(pattern: string, f: string, o: Options, br: Brackets) returns (r: int)
    requires CString(pattern) && CString(f)
    ensures r == 0 <==> Accepts(pattern, f, o, br)
  {
    if !o.wildcards {
      r := FnmatchNoWildcards(pattern, f, o);
    } else if NoBracket(pattern, 0, FnFlags(o)) {
      r := FnmatchString(pattern, f, FnFlags(o));
    } else {
      r := if br(pattern, f, FnFlags(o)) then 0 else FNM_NOMATCH;
    }
  }

  /** exclude_fnmatch. */
  method ExcludeFnmatch(pattern: string, f: string, o: Options, br: Brackets) returns (matched: bool)
    requires CString(pattern) && CString(f)
    ensures matched <==> Direct(pattern, f, o, br)
  {
    var r := Matcher(pattern, f, o, br);
    matched := r == 0;
    assert f[0..] == f;
    if !o.anchored {
      var p := 0;
      while p < |f| && !matched
        invariant 0 <= p <= |f|
        invariant matched ==> Direct(pattern, f, o, br)
        invariant !matched ==> forall a | 0 <= a <= p && Start(f, a, o) :: !Accepts(pattern, f[a..], o, br)
      {
        if f[p] == '/' && Char(f, p + 1) != '/' {
          r := Matcher(pattern, f[p + 1..], o, br);
          matched := r == 0;
          assert Start(f, p + 1, o);
        }
        p := p + 1;
      }
    }
  }

  // ---------------------------------------------------------------------
  // Segments

  datatype Segment =
    | HashSegment(options: Options, table: set<string>)
    | PatternSegment(options: Options, patterns: seq<(string, Options)>)

  /** What the hash segment finds: a name of f that is in the table. */
  ghost predicate Hit(seg: Segment, f: string, a: nat, b: nat)
    requires seg.HashSegment? && a <= b <= |f|
  {
    TableStart(f, a, seg.options) && TableEnd(f, b, seg.options) && f[a..b] in seg.table
  }

  ghost predicate SegmentMatches(seg: Segment, f: string, br: Brackets) {
    match seg
    case HashSegment(o, table) => exists a, b | 0 <= a <= b <= |f| :: Hit(seg, f, a, b)
    case PatternSegment(o, ps) => exists i | 0 <= i < |ps| :: Direct(ps[i].0, f, ps[i].1, br)
  }

  predicate WellFormed(seg: Segment) {
    seg.PatternSegment? ==> forall i | 0 <= i < |seg.patterns| :: CString(seg.patterns[i].0)
  }

  /** file_pattern_matches. */
  method FilePatternMatches(seg: Segment, f: string, br: Brackets) returns (r: bool)
    requires seg.PatternSegment? && WellFormed(seg) && CString(f)
    ensures r == SegmentMatches(seg, f, br)
  {
    var i := 0;
    while i < |seg.patterns|
      invariant 0 <= i <= |seg.patterns|
      invariant forall k | 0 <= k < i :: !Direct(seg.patterns[k].0, f, seg.patterns[k].1, br)
    {
      r := ExcludeFnmatch(seg.patterns[i].0, f, seg.patterns[i].1, br);
      if r {
        return true;
      }
      i := i + 1;
    }
    return false;
  }

  /** strcpy of f[a..] and its NUL. */
  method Copy(buffer: array<char>, f: string, a: nat)
    requires a <= |f| && buffer.Length == |f| + 1
    modifies buffer
    ensures buffer[..|f| - a] == f[a..] && buffer[|f| - a] == '\0'
  {
    var i := 0;
    while i < |f| - a
      invariant 0 <= i <= |f| - a && buffer[..i] == f[a..][..i]
    {
      buffer[i] := f[a + i];
      i := i + 1;
    }
    buffer[i] := '\0';
  }

  /** strrchr for a slash in the first len characters; len if there is none. */
  method LastSlash(buffer: array<char>, len: nat) returns (k: nat)
    requires len <= buffer.Length
    ensures k <= len && (k < len ==> buffer[k] == '/')
    ensures forall x | (if k < len then k + 1 else 0) <= x < len :: buffer[x] != '/'
  {
    k := len;
    while k > 0
      invariant k <= len && forall x | k <= x < len :: buffer[x] != '/'
    {
      if buffer[k - 1] == '/' {
        return k - 1;
      }
      k := k - 1;
    }
    return len;
  }

  /** If f[a..q] is not in the table, the next name that may be is cut off at the
      last slash before q. */
  lemma NoHitBehind(seg: Segment, f: string, a: nat, p: nat, q: nat)
    requires seg.HashSegment? && a <= p < q <= |f| && f[a..q] !in seg.table
    requires forall b | q < b <= |f| :: !Hit(seg, f, a, b)
    requires forall b | p < b < q :: f[b] != '/'
    ensures forall b | p < b <= |f| :: !Hit(seg, f, a, b)
  {
  }

  lemma NoHitAtAll(seg: Segment, f: string, a: nat, q: nat)
    requires seg.HashSegment? && a <= q <= |f| && f[a..q] !in seg.table
    requires forall b | q < b <= |f| :: !Hit(seg, f, a, b)
    requires !seg.options.leadingDir || forall b | a <= b < q :: f[b] != '/'
    ensures forall b | a <= b <= |f| :: !Hit(seg, f, a, b)
  {
  }

  /** The lookups for one start of the name: all of it, then, with
      FNM_LEADING_DIR, cut off at ever earlier slashes. */
  method LookupFrom(seg: Segment, f: string, a: nat, buffer: array<char>) returns (r: bool)
    requires seg.HashSegment? && a <= |f| && TableStart(f, a, seg.options) && buffer.Length == |f| + 1
    modifies buffer
    ensures r <==> exists b | a <= b <= |f| :: Hit(seg, f, a, b)
  {
    Copy(buffer, f, a);
    var len := |f| - a;
    assert buffer[..len] == f[a..a + len];
    while true
      invariant 0 <= len <= |f| - a && buffer[..len] == f[a..a + len] && TableEnd(f, a + len, seg.options)
      invariant forall b | a + len < b <= |f| :: !Hit(seg, f, a, b)
      decreases len
    {
      if buffer[..len] in seg.table {
        assert Hit(seg, f, a, a + len);
        return true;
      }
      if seg.options.leadingDir {
        var p := LastSlash(buffer, len);
        assert forall b | a <= b < a + len :: f[b] == f[a..a + len][b - a] == buffer[b - a];
        if p < len {
          NoHitBehind(seg, f, a, a + p, a + len);
          assert f[a..a + p] == buffer[..p] && f[a + p] == '/';
          buffer[p] := '\0';
          len := p;
          continue;
        }
      }
      NoHitAtAll(seg, f, a, a + len);
      return false;
    }
  }

  /** file_name_matches. */
  method FileNameMatches(seg: Segment, f: string, buffer: array<char>) returns (r: bool)
    requires seg.HashSegment? && buffer.Length == |f| + 1
    modifies buffer
    ensures forall br :: r == SegmentMatches(seg, f, br)
  {
    var a: int := 0;
    while true
      invariant 0 <= a <= |f| && TableStart(f, a, seg.options)
      invariant forall x, b | 0 <= x < a && x <= b <= |f| :: !Hit(seg, f, x, b)
      decreases |f| - a
    {
      var found := LookupFrom(seg, f, a, buffer);
      if found {
        return true;
      }
      if seg.options.anchored {
        break;
      }
      var k := NextSlash(f, a);
      if k == |f| {
        break;
      }
      forall x, b | a < x <= k && x <= b <= |f|
        ensures !Hit(seg, f, x, b)
      {
        assert f[x - 1] != '/';
      }
      a := k + 1;
    }
    return false;
  }

  // ---------------------------------------------------------------------
  // The list

  predicate SameTable(o1: Options, o2: Options) {
    o1.including == o2.including && o1.anchored == o2.anchored && o1.leadingDir == o2.leadingDir
  }

  /** Where an option goes. */
  function Attach(segments: seq<Segment>, x: Added): (r: seq<Segment>)
    ensures r != []
  {
    if Hashed(x) then
      var t := if x.kept then {Stored(x.pattern, x.options)} else {};
      if segments != [] && segments[0].HashSegment? && SameTable(segments[0].options, x.options)
      then [segments[0].(table := segments[0].table + t)] + segments[1..]
      else [HashSegment(x.options, t)] + segments
    else
      var t := [(x.pattern, x.options)];
      if segments != [] && segments[0].PatternSegment? && segments[0].options.including == x.options.including
      then [segments[0].(patterns := segments[0].patterns + t)] + segments[1..]
      else [PatternSegment(x.options, t)] + segments
  }

  /** The table that the pattern would go into exists and has it already. */
  predicate InTable(segments: seq<Segment>, pattern: string, o: Options) {
    && segments != [] && segments[0].HashSegment? && SameTable(segments[0].options, o)
    && Stored(pattern, o) in segments[0].table
  }

  function Compile(added: seq<Added>): (r: seq<Segment>)
    ensures added != [] ==> r != []
  {
    if added == [] then [] else Attach(Compile(added[..|added| - 1]), added[|added| - 1])
  }

  ghost predicate Excluded(segments: seq<Segment>, f: string, br: Brackets)
    requires segments != []
  {
    if SegmentMatches(segments[0], f, br) then !segments[0].options.including
    else if |segments| == 1 then segments[0].options.including
    else Excluded(segments[1..], f, br)
  }

  /** A pattern added to a table is found iff it is among the names of f. */
  lemma TableGrows(seg: Segment, t: set<string>, s: string, f: string, br: Brackets)
    requires seg.HashSegment? && t <= {s}
    ensures SegmentMatches(seg.(table := seg.table + t), f, br) <==>
            SegmentMatches(seg, f, br) || (s in t && Named(s, f, seg.options))
  {
    var grown := seg.(table := seg.table + t);
    if SegmentMatches(grown, f, br) {
      var a, b :| 0 <= a <= b <= |f| && Hit(grown, f, a, b);
      assert f[a..b] in seg.table ==> Hit(seg, f, a, b);
    }
    if SegmentMatches(seg, f, br) {
      var a, b :| 0 <= a <= b <= |f| && Hit(seg, f, a, b);
      assert Hit(grown, f, a, b);
    }
    if s in t && Named(s, f, seg.options) {
      var a, b :| 0 <= a <= b <= |f| && TableStart(f, a, seg.options) && TableEnd(f, b, seg.options) && f[a..b] == s;
      assert Hit(grown, f, a, b);
    }
  }

  lemma PatternsGrow(seg: Segment, p: string, o: Options, f: string, br: Brackets)
    requires seg.PatternSegment?
    ensures SegmentMatches(seg.(patterns := seg.patterns + [(p, o)]), f, br) <==>
            SegmentMatches(seg, f, br) || Direct(p, f, o, br)
  {
    var grown := seg.(patterns := seg.patterns + [(p, o)]);
    assert grown.patterns[|seg.patterns|] == (p, o);
    assert forall i | 0 <= i < |seg.patterns| :: grown.patterns[i] == seg.patterns[i];
  }

  lemma SameNames(t: string, f: string, o1: Options, o2: Options)
    requires SameTable(o1, o2)
    ensures Named(t, f, o1) <==> Named(t, f, o2)
  {
  }

  /** One more option: if it matches it decides, and otherwise nothing changes. */
  lemma AttachDecides(segments: seq<Segment>, x: Added, f: string, br: Brackets)
    requires Faithful(x, f)
    ensures Excluded(Attach(segments, x), f, br) ==
            if Matches(x, f, br) then !x.options.including
            else if segments == [] then x.options.including
            else Excluded(segments, f, br)
  {
    var head := Attach(segments, x)[0];
    var s := Stored(x.pattern, x.options);
    var t := if x.kept then {s} else {};
    if Hashed(x) {
      if x.kept {
        FaithfulMatches(x, f, br);
      }
      if segments != [] && segments[0].HashSegment? && SameTable(segments[0].options, x.options) {
        TableGrows(segments[0], t, s, f, br);
        SameNames(s, f, segments[0].options, x.options);
      } else {
        var empty := HashSegment(x.options, {});
        TableGrows(empty, t, s, f, br);
        assert empty.table + t == t;
        assert forall a, b | 0 <= a <= b <= |f| :: !Hit(empty, f, a, b);
      }
    } else if segments != [] && segments[0].PatternSegment? && segments[0].options.including == x.options.including {
      PatternsGrow(segments[0], x.pattern, x.options, f, br);
    } else {
      var empty := PatternSegment(x.options, []);
      PatternsGrow(empty, x.pattern, x.options, f, br);
      assert empty.patterns + [(x.pattern, x.options)] == [(x.pattern, x.options)];
    }
  }

  /** The segments follow the rule. */
  lemma {:induction false} CompileDecides(added: seq<Added>, f: string, br: Brackets)
    requires added != [] && forall i | 0 <= i < |added| :: Faithful(added[i], f)
    ensures Decides(added, f, br, Excluded(Compile(added), f, br))
  {
    var n := |added| - 1;
    var before, x := added[..n], added[n];
    if before != [] {
      CompileDecides(before, f, br);
    }
    assert added == before + [x];
    OneMoreDecides(before, x, f, br);
  }

  lemma CompileAppend(before: seq<Added>, x: Added)
    ensures Compile(before + [x]) == Attach(Compile(before), x)
  {
    assert (before + [x])[..|before|] == before;
  }

  lemma OneMoreDecides(before: seq<Added>, x: Added, f: string, br: Brackets)
    requires Faithful(x, f) && (before != [] ==> Decides(before, f, br, Excluded(Compile(before), f, br)))
    ensures Decides(before + [x], f, br, Excluded(Compile(before + [x]), f, br))
  {
    CompileAppend(before, x);
    AttachDecides(Compile(before), x, f, br);
    DecidesAppend(before, x, f, br, before != [] && Excluded(Compile(before), f, br));
  }

  /** A list of a single pattern without wildcards, which is found in its table
      and does not match. */
  lemma OnlyInTable(x: Added, f: string, br: Brackets)
    requires Hashed(x) && x.kept && !x.options.including
    requires Named(Stored(x.pattern, x.options), f, x.options) && !Matches(x, f, br)
    ensures Excluded(Compile([x]), f, br) && !Decides([x], f, br, true)
  {
    var o, t := x.options, Stored(x.pattern, x.options);
    SoleSegment(x);
    TableFinds(HashSegment(o, {t}), t, f, br);
    assert !Matches([x][0], f, br);
  }

  lemma SoleSegment(x: Added)
    requires Hashed(x) && x.kept
    ensures Compile([x]) == [HashSegment(x.options, {Stored(x.pattern, x.options)})]
  {
    assert [] + [x] == [x];
    CompileAppend([], x);
  }

  lemma TableFinds(seg: Segment, t: string, f: string, br: Brackets)
    requires seg.HashSegment? && t in seg.table && Named(t, f, seg.options)
    ensures SegmentMatches(seg, f, br)
  {
    var a, b :| 0 <= a <= b <= |f| && TableStart(f, a, seg.options) && TableEnd(f, b, seg.options) && f[a..b] == t;
    assert Hit(seg, f, a, b);
  }

  /** For a name, all lists of complete options follow the rule iff the name has
      single slashes; if all options have FNM_LEADING_DIR, iff it has them but for
      repeating how it begins. */
  lemma ListAgreesExactlyWhen(f: string, leadingDir: bool, br: Brackets)
    requires CString(f)
    ensures (forall added | AllComplete(added, leadingDir) :: Decides(added, f, br, Excluded(Compile(added), f, br)))
            <==> SingleSlashes(f, leadingDir)
  {
    if SingleSlashes(f, leadingDir) {
      forall added | AllComplete(added, leadingDir)
        ensures Decides(added, f, br, Excluded(Compile(added), f, br))
      {
        assert forall i | 0 <= i < |added| :: Faithful(added[i], f);
        CompileDecides(added, f, br);
      }
    } else {
      var o := Options(false, false, false, leadingDir, false, false);
      var t := RepeatedSlash(f, o);
      var x := Added(t, o, true);
      PlainIsDirect(x, f, br);
      OnlyInTable(x, f, br);
      assert AllComplete([x], leadingDir);
    }
  }

  lemma PlainIsDirect(x: Added, f: string, br: Brackets)
    requires !x.options.wildcards && x.kept
    ensures Matches(x, f, br) <==> DirectPlain(x.pattern, f, x.options)
  {
    if DirectPlain(x.pattern, f, x.options) {
      var a :| 0 <= a <= |f| && Start(f, a, x.options) && Plain(x.pattern, f[a..], x.options.leadingDir);
      assert Accepts(x.pattern, f[a..], x.options, br);
    }
  }

  /** A name with two slashes in a row is found in the table and does not match:
      the list excludes it, and the rule does not. */
  lemma DoubleSlashExample(br: Brackets)
    ensures var o := Options(false, false, false, false, false, false);
            var x, f := Added("/b", o, true), "a//b";
            Excluded(Compile([x]), f, br) && !Matches(x, f, br) && !Decides([x], f, br, true)
  {
    var o := Options(false, false, false, false, false, false);
    var x, f := Added("/b", o, true), "a//b";
    assert TableStart(f, 2, o) && TableEnd(f, 4, o) && f[2..4] == "/b";
    forall a | 0 <= a <= |f|
      ensures !(Start(f, a, o) && Accepts("/b", f[a..], o, br))
    {
      if a == 0 {
        assert f[0..] == f;
      } else if a == 2 {
        assert f[2] == '/';
      } else if a == 3 {
        assert f[3..] == "b";
      }
    }
    OnlyInTable(x, f, br);
  }

  /** A pattern with a lone backslash at its end is found in the table as it
      stands, and fnmatch matches nothing with it. */
  lemma LoneBackslashExample(br: Brackets)
    ensures var o := Options(false, true, true, false, false, false);
            var x, f := Added("a\\", o, true), "a\\";
            Excluded(Compile([x]), f, br) && !Matches(x, f, br) && !Decides([x], f, br, true)
  {
    var o := Options(false, true, true, false, false, false);
    var x, f := Added("a\\", o, true), "a\\";
    assert !Special(f, 0, FnFlags(o)) && Tokens(f, 0, FnFlags(o)).None?;
    LoneBackslashMatchesNothing(f, f, o, br);
    assert Unescape(f[1..]) == f[1..];
    assert TableStart(f, 0, o) && TableEnd(f, 2, o) && f[0..2] == f;
    OnlyInTable(x, f, br);
  }

  class Exclude {
    var segments: seq<Segment>   // newest first
    ghost var added: seq<Added>  // oldest first
    const brackets: Brackets

    ghost predicate Valid()
      reads this
    {
      segments == Compile(added) && forall i | 0 <= i < |added| :: CString(added[i].pattern)
    }

    /** new_exclude. */
    constructor (br: Brackets)
      ensures Valid() && added == [] && brackets == br
    {
      segments, added, brackets := [], [], br;
    }

    /** hash_insert of a copy of the pattern, unescaped where escapes are in
        force.  memory says whether it is granted what it may ask for; without, it
        loses a pattern that is not in the table yet. */
    method Insert(pattern: string, o: Options, memory: bool) returns (kept: bool)
      requires CString(pattern) && segments != [] && segments[0].HashSegment?
      modifies this`segments
      ensures kept <==> memory || Stored(pattern, o) in old(segments)[0].table
      ensures segments == [old(segments)[0].(table := old(segments)[0].table + if kept then {Stored(pattern, o)} else {})] + old(segments)[1..]
    {
      var n := |pattern|;
      var str := new char[n + 1](i => if 0 <= i < n then pattern[i] else '\0');
      assert str[..n] == pattern;
      ghost var m := n;
      if o.wildcards && !o.noescape {
        m := UnescapePattern(str, n);
        UnescapeKeepsCString(pattern);
      }
      var len := 0;
      while str[len] != '\0'
        invariant 0 <= len <= m && str[..m] == Stored(pattern, o) && str[m] == '\0' && CString(str[..m])
        decreases m - len
      {
        len := len + 1;
      }
      assert len == m;
      kept := memory || str[..len] in segments[0].table;
      var t := if kept then {str[..len]} else {};
      segments := [segments[0].(table := segments[0].table + t)] + segments[1..];
    }

    /** add_exclude for a pattern with wildcards. */
    method AddToPatterns(pattern: string, o: Options)
      requires !Hashed(Added(pattern, o, true))
      modifies this`segments
      ensures segments == Attach(old(segments), Added(pattern, o, true))
    {
      if !(segments != [] && segments[0].PatternSegment? && segments[0].options.including == o.including) {
        segments := [PatternSegment(o, [])] + segments;
        assert segments[1..] == old(segments);
        assert segments[0].patterns + [(pattern, o)] == [(pattern, o)];
      }
      segments := [segments[0].(patterns := segments[0].patterns + [(pattern, o)])] + segments[1..];
    }

    /** add_exclude for a pattern without. */
    method AddToTable(pattern: string, o: Options, memory: bool) returns (kept: bool)
      requires CString(pattern) && Hashed(Added(pattern, o, true))
      modifies this`segments
      ensures kept <==> memory || InTable(old(segments), pattern, o)
      ensures segments == Attach(old(segments), Added(pattern, o, kept))
    {
      if !(segments != [] && segments[0].HashSegment? && SameTable(segments[0].options, o)) {
        segments := [HashSegment(o, {})] + segments;
        assert segments[1..] == old(segments);
      }
      kept := Insert(pattern, o, memory);
      ghost var empty: set<string>, t: set<string> := {}, if kept then {Stored(pattern, o)} else {};
      assert empty + t == t;
    }

    /** add_exclude.  A pattern that goes into a table is lost iff hash_insert has no
        memory and does not find it there. */
    method AddExclude(pattern: string, o: Options, memory: bool) returns (ghost kept: bool)
      requires Valid() && CString(pattern)
      modifies this
      ensures Valid()
      ensures kept <==> memory || !Hashed(Added(pattern, o, true)) || InTable(Compile(old(added)), pattern, o)
      ensures added == old(added) + [Added(pattern, o, kept)]
    {
      kept := true;
      var has := false;
      if o.wildcards {
        has := HasWildcards(pattern, o);
      }
      if has {
        AddToPatterns(pattern, o);
      } else {
        var inserted := AddToTable(pattern, o, memory);
        kept := inserted;
      }
      ghost var x := Added(pattern, o, kept);
      CompileAppend(added, x);
      added := added + [x];
      assert forall i | 0 <= i < |added| :: CString(added[i].pattern);
    }

    /** excluded_file_name: the answer of the rule. */
    method ExcludedFileName(f: string) returns (r: bool)
      requires Valid() && CString(f)
      ensures if added == [] then !r else r == Excluded(Compile(added), f, brackets)
      ensures (forall i | 0 <= i < |added| :: Faithful(added[i], f)) ==> Decides(added, f, brackets, r)
    {
      if segments == [] {
        return false;
      }
      CompileIsWellFormed(added);
      var filename: array?<char> := null;
      var invert := false;
      var seg := 0;
      assert segments[0..] == segments;
      while true
        invariant 0 <= seg < |segments| && !invert
        invariant filename != null ==> filename.Length == |f| + 1 && fresh(filename)
        invariant Excluded(segments, f, brackets) == Excluded(segments[seg..], f, brackets)
        decreases |segments| - seg
      {
        var matched;
        if segments[seg].HashSegment? {
          if filename == null {
            filename := new char[|f| + 1];
          }
          matched := FileNameMatches(segments[seg], f, filename);
        } else {
          matched := FilePatternMatches(segments[seg], f, brackets);
        }
        assert matched == SegmentMatches(segments[seg], f, brackets);
        assert segments[seg..][0] == segments[seg] && segments[seg..][1..] == segments[seg + 1..];
        if matched {
          break;
        }
        if seg + 1 == |segments| {
          invert := true;
          break;
        }
        seg := seg + 1;
      }
      r := invert != !segments[seg].options.including;
      if forall i | 0 <= i < |added| :: Faithful(added[i], f) {
        CompileDecides(added, f, brackets);
      }
    }
  }

  lemma {:induction false} CompileIsWellFormed(added: seq<Added>)
    requires forall i | 0 <= i < |added| :: CString(added[i].pattern)
    ensures forall s | 0 <= s < |Compile(added)| :: WellFormed(Compile(added)[s])
  {
    if added != [] {
      CompileIsWellFormed(added[..|added| - 1]);
    }
  }
}
