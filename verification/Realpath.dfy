/**
  realpath: one loop that keeps the resolved prefix in one buffer and splices
  the targets of symbolic links in front of the unread suffix in another.  It
  computes what component-by-component resolution (PathNames.Resolve) computes.
*/
module Realpath {
  import opened Wrappers
  import opened PathNames

  /** EOTHER is whatever getcwd sets. */
  datatype Errno = ENOENT | ENOTDIR | EINVAL | ELOOP | EOTHER
  datatype Result = Name(text: string) | Failure(errno: Errno)

  // ---------------------------------------------------------------------
  // The queries on the file system

  datatype LinkText = Target(text: string) | Failed(errno: Errno)

  /** Why a name is not found whose components but the last are resolved. */
  function LookupErrno(fs: FileSystem, p: Path): Errno {
    if IsDir(fs, Parent(p)) then ENOENT else ENOTDIR
  }

  /** readlink, for a name all of whose components but the last are resolved. */
  function Readlink(fs: FileSystem, file: string): LinkText {
    var p := Components(file, 0);
    if p !in fs then Failed(LookupErrno(fs, p))
    else match fs[p]
      case Link(target) => Target(target)
      case _ => Failed(EINVAL)
  }

  /** dir_check, for a name that is not that of a symbolic link: the error, if it
      does not name a directory. */
  function DirCheck(fs: FileSystem, file: string): Option<Errno> {
    var p := Components(file, 0);
    if IsDir(fs, p) then None
    else if p in fs then Some(ENOTDIR)
    else Some(LookupErrno(fs, p))
  }

  // ---------------------------------------------------------------------
  // suffix_requires_dir_check

  /** Components that no later lookup will check: "." at the end, or "..", with
      nothing but "." before it. */
  predicate NeedsDir(comps: Path) {
    comps != [] && (comps[0] == ".." || (comps[0] == "." && (|comps| == 1 || NeedsDir(comps[1..]))))
  }

  /** A component that starts with a dot: ".", "..", or something longer. */
  lemma NameAtDot(s: string, dot: nat)
    requires dot < |s| && s[dot] == '.'
    ensures var c := Components(s, dot);
            && c != []
            && (dot + 1 == |s| || s[dot + 1] == '/' ==> c == ["."] + Components(s, dot + 1))
            && (dot + 1 < |s| && s[dot + 1] == '.' && (dot + 2 == |s| || s[dot + 2] == '/') ==> c[0] == "..")
            && (dot + 1 < |s| && s[dot + 1] != '/' && !(s[dot + 1] == '.' && (dot + 2 == |s| || s[dot + 2] == '/'))
                ==> c[0] != "." && c[0] != "..")
  {
    var e := EndOfName(s, dot);
    assert s[dot..e][0] == '.';
    if dot + 1 == |s| || s[dot + 1] == '/' {
      assert e == dot + 1;
      assert s[dot..e] == ".";
    } else {
      assert e == EndOfName(s, dot + 1);
      assert s[dot..e][1] == s[dot + 1];
      if dot + 2 == |s| || s[dot + 2] == '/' {
        assert e == dot + 2;
      } else {
        assert e == EndOfName(s, dot + 2) && e > dot + 2;
      }
      if s[dot + 1] == '.' && e == dot + 2 {
        assert s[dot..e] == "..";
      }
    }
  }

  /** What follows a slash decides, or else what follows "." there. */
  lemma BehindSlash(s: string, i: nat, j: nat)
    requires i < |s| && s[i] == '/' && j == SkipSlashes(s, i)
    ensures j == |s| ==> NeedsDir(Components(s, i))
    ensures j < |s| && s[j] != '.' ==> !NeedsDir(Components(s, i))
    ensures j < |s| && s[j] == '.' ==>
              var dots := j + 1 < |s| && s[j + 1] == '.' && (j + 2 == |s| || s[j + 2] == '/');
              NeedsDir(Components(s, i)) ==
                if j + 1 == |s| || dots then true else if s[j + 1] == '/' then NeedsDir(Components(s, j + 1)) else false
  {
    if j < |s| {
      assert Components(s, i) == Components(s, j);
      if s[j] == '.' {
        NameAtDot(s, j);
        if j + 1 < |s| && s[j + 1] == '/' {
          DotSlash(Components(s, j), Components(s, j + 1));
        }
      } else {
        assert s[j..EndOfName(s, j)][0] == s[j];
      }
    }
  }

  lemma DotSlash(comps: Path, rest: Path)
    requires comps == ["."] + rest && rest != []
    ensures NeedsDir(comps) == NeedsDir(rest)
  {
  }

  method PastSlashes(s: string, at: nat) returns (end: nat)
    requires at < |s| && s[at] == '/'
    ensures at < end <= |s| && end == SkipSlashes(s, at)
  {
    end := at + 1;
    while end < |s| && s[end] == '/'
      invariant at < end <= |s| && SkipSlashes(s, at) == SkipSlashes(s, end)
    {
      end := end + 1;
    }
  }

  method SuffixRequiresDirCheck(s: string, start: nat) returns (b: bool)
    requires start <= |s| && (start < |s| ==> s[start] == '/')
    ensures b <==> NeedsDir(Components(s, start))
  {
    var end := start;
    while end < |s| && s[end] == '/'
      invariant start <= end <= |s|
      invariant NeedsDir(Components(s, start)) == (end < |s| && s[end] == '/' && NeedsDir(Components(s, end)))
      decreases |s| - end
    {
      var verdict, next := PastDot(s, end);
      if verdict.Some? {
        return verdict.value;
      }
      end := next;
    }
    return false;
  }

  /** The body of the loop: the slashes and the dot behind them decide, or what
      follows the dot does. */
  method PastDot(s: string, at: nat) returns (verdict: Option<bool>, end: nat)
    requires at < |s| && s[at] == '/'
    ensures verdict.Some? ==> verdict.value == NeedsDir(Components(s, at))
    ensures verdict.None? ==>
              && at < end <= |s|
              && NeedsDir(Components(s, at)) == (end < |s| && s[end] == '/' && NeedsDir(Components(s, end)))
  {
    end := PastSlashes(s, at);
    BehindSlash(s, at, end);
    if end == |s| {
      return Some(true), end;
    }
    if s[end] != '.' {
      return Some(false), end;
    }
    end := end + 1;
    if end == |s| || (s[end] == '.' && (end + 1 == |s| || s[end + 1] == '/')) {
      return Some(true), end;
    }
    verdict := None;
  }

  // ---------------------------------------------------------------------
  // The prefix buffer

  /** The buffer up to dest shows the path cur, perhaps with a slash behind it. */
  predicate Shows(rname: string, cur: Path) {
    rname == Render(cur) || (cur != [] && rname == Render(cur) + "/")
  }

  /** A path ends in its last component, behind its parent and a slash. */
  lemma LastComponent(cur: Path) returns (base: string, last: string)
    requires cur != [] && Proper(cur)
    ensures Render(cur) == base + last && '/' !in last && base != "" && base[|base|-1] == '/'
    ensures Shows(base, Parent(cur))
  {
    base, last := Join(Parent(cur)) + "/", cur[|cur|-1];
    assert ProperName(last);
  }

  /** Characters go away back to the last slash. */
  method BackToSlash(rname: string, ghost base: string, ghost last: string) returns (dest: string)
    requires rname == base + last && '/' !in last && base != "" && base[|base|-1] == '/'
    ensures dest == base
  {
    forall i | |base| <= i < |rname|
      ensures rname[i] != '/'
    {
      assert rname[i] == last[i - |base|];
    }
    assert rname[|base|-1] == '/' && rname[..|base|] == base;
    dest := rname;
    while |dest| > 0 && dest[|dest|-1] != '/'
      invariant |base| <= |dest| <= |rname| && dest == rname[..|dest|]
      decreases |dest|
    {
      dest := dest[..|dest|-1];
    }
  }

  /** Back up to the previous component; at the root, stay. */
  method BackUp(rname: string, ghost cur: Path) returns (dest: string)
    requires Shows(rname, cur) && Proper(cur)
    ensures Shows(dest, Parent(cur))
  {
    dest := rname;
    if |dest| > 1 {
      ghost var base, last := LastComponent(cur);
      dest := dest[..|dest|-1];
      ghost var rest := if rname == base + last then last[..|last|-1] else last;
      assert dest == base + rest;
      dest := BackToSlash(dest, base, rest);
    }
  }

  /** A component goes behind the prefix. */
  method Append(rname: string, c: string, ghost cur: Path) returns (dest: string)
    requires Shows(rname, cur) && Proper(cur) && ProperName(c)
    ensures dest == Render(cur + [c]) && Components(dest, 0) == cur + [c]
  {
    ComponentsOfJoin(cur);
    dest := rname;
    if dest[|dest|-1] != '/' {
      dest := dest + "/";
    }
    assert dest == Join(cur) + "/";
    dest := dest + c;
    assert (cur + [c])[..|cur|] == cur;
    ComponentsOfJoin(cur + [c]);
  }

  // ---------------------------------------------------------------------
  // The loop

  lemma RestOfText(text: string, end: nat)
    requires end <= |text|
    ensures Components(text[end..], 0) == Components(text, end)
  {
    TailComponents(text, end, text[end..], 0);
  }

  /** A link: its target, spliced in front of the rest, is resolved next. */
  lemma LinkStep(fs: FileSystem, cur: Path, c: string, text: string, end: nat, budget: nat, target: string, spliced: string)
    requires ProperName(c) && IsDir(fs, cur) && cur + [c] in fs && fs[cur + [c]] == Link(target)
    requires end <= |text| && (end < |text| ==> text[end] == '/') && spliced == target + text[end..]
    ensures Resolve(fs, cur, [c] + Components(text, end), budget) ==
            if budget == 0 then Loop else Resolve(fs, LinkBase(cur, target), Components(spliced, 0), budget - 1)
  {
    var rest := Components(text, end);
    assert ([c] + rest)[1..] == rest;
    if budget > 0 {
      RestOfText(text, end);
      SpliceIsRecursion(fs, LinkBase(cur, target), target, text[end..], budget - 1);
    }
  }

  /** Anything else: a missing name, or one that stays in the prefix. */
  lemma PlainStep(fs: FileSystem, cur: Path, c: string, rest: Path, budget: nat)
    requires ProperName(c) && !(cur + [c] in fs && fs[cur + [c]].Link?)
    ensures !IsDir(fs, cur) ==> Resolve(fs, cur, [c] + rest, budget) == NotDirectory
    ensures IsDir(fs, cur) && cur + [c] !in fs ==> Resolve(fs, cur, [c] + rest, budget) == NoEntry
    ensures IsDir(fs, cur) && cur + [c] in fs ==> Resolve(fs, cur, [c] + rest, budget) == Resolve(fs, cur + [c], rest, budget)
    ensures IsDir(fs, cur) && cur + [c] in fs && !IsDir(fs, cur + [c]) && NeedsDir(rest) ==>
              Resolve(fs, cur + [c], rest, budget) == NotDirectory
  {
  }

  /** The loop's variables: the prefix buffer up to dest, the text that start and
      end point into, start itself, and num_links. */
  datatype State = State(rname: string, text: string, start: nat, numLinks: nat)

  /** What is left to do from here has the outcome that the whole has. */
  ghost predicate OnTrack(fs: FileSystem, st: State, cur: Path, threshold: nat, expected: Outcome) {
    && st.start <= |st.text| && st.numLinks <= threshold
    && Resolved(fs, cur) && Shows(st.rname, cur)
    && (IsDir(fs, cur) || !NeedsDir(Components(st.text, st.start)))
    && expected == Resolve(fs, cur, Components(st.text, st.start), threshold - st.numLinks)
  }

  datatype Next = Go(st: State) | Stop(errno: Errno)

  ghost function Verdict(expected: Outcome): Result {
    match expected
    case Ok(p, _) => Name(Render(p))
    case Loop => Failure(ELOOP)
    case NoEntry => Failure(ENOENT)
    case NotDirectory => Failure(ENOTDIR)
  }

  /** Find the next component: text[start..end], empty if there is none. */
  method NextComponent(text: string, from: nat) returns (start: nat, end: nat)
    requires from < |text|
    ensures from <= start <= end <= |text|
    ensures end < |text| ==> text[end] == '/'
    ensures start == end ==> Components(text, from) == ["."]
    ensures start < end ==> Components(text, from) == [text[start..end]] + Components(text, end) && '/' !in text[start..end]
  {
    start := from;
    while start < |text| && text[start] == '/'
      invariant from <= start <= |text| && SkipSlashes(text, from) == SkipSlashes(text, start)
    {
      start := start + 1;
    }
    end := start;
    while end < |text| && text[end] != '/'
      invariant start <= end <= |text| && EndOfName(text, start) == EndOfName(text, end)
    {
      end := end + 1;
    }
  }

  /** Behind one link too many. */
  lemma TooManyLinks(fs: FileSystem, c: string, target: string, text: string, end: nat, cur: Path)
    requires Tree(fs) && ProperName(c) && end <= |text| && (end < |text| ==> text[end] == '/')
    requires cur + [c] in fs && fs[cur + [c]] == Link(target)
    ensures Resolve(fs, cur, [c] + Components(text, end), 0) == Loop
  {
    assert IsDir(fs, cur);
    LinkStep(fs, cur, c, text, end, 0, target, target + text[end..]);
  }

  /** Behind a link the loop is on track in the directory where the target starts,
      with the target in front of the rest. */
  lemma AfterLink(fs: FileSystem, cur: Path, c: string, text: string, end: nat, target: string, expected: Outcome,
                  rname: string, spliced: string, numLinks: nat, left: nat, threshold: nat)
    requires Tree(fs) && ProperName(c) && end <= |text| && (end < |text| ==> text[end] == '/')
    requires cur + [c] in fs && fs[cur + [c]] == Link(target)
    requires expected == Resolve(fs, cur, [c] + Components(text, end), left + 1)
    requires spliced == target + text[end..] && Shows(rname, LinkBase(cur, target)) && numLinks + left == threshold
    ensures OnTrack(fs, State(rname, spliced, 0, numLinks), LinkBase(cur, target), threshold, expected)
  {
    var base := LinkBase(cur, target);
    assert IsDir(fs, cur) && IsDir(fs, base);
    LinkStep(fs, cur, c, text, end, left + 1, target, spliced);
    Settled(fs, rname, spliced, numLinks, base, left, threshold, expected);
  }

  lemma Settled(fs: FileSystem, rname: string, text: string, numLinks: nat, base: Path, left: nat, threshold: nat, expected: Outcome)
    requires IsDir(fs, base) && Shows(rname, base) && numLinks + left == threshold
    requires expected == Resolve(fs, base, Components(text, 0), left)
    ensures OnTrack(fs, State(rname, text, 0, numLinks), base, threshold, expected)
  {
  }

  /** The prefix behind a link: the root, or the directory that the link is in. */
  method NewPrefix(file: string, target: string, ghost c: string, ghost cur: Path) returns (rname: string)
    requires Proper(cur) && ProperName(c) && file == Render(cur + [c])
    ensures Shows(rname, LinkBase(cur, target))
  {
    if target != "" && target[0] == '/' {
      rname := "/";
    } else {
      assert (cur + [c])[..|cur|] == cur;
      rname := BackUp(file, cur + [c]);
    }
  }

  /** A component that is a symbolic link. */
  method StepLink(fs: FileSystem, st: State, c: string, file: string, target: string, end: nat,
                  ghost cur: Path, threshold: nat, ghost expected: Outcome)
    returns (next: Next, ghost cur': Path)
    requires Tree(fs) && ProperName(c) && end <= |st.text| && (end < |st.text| ==> st.text[end] == '/')
    requires st.numLinks <= threshold && IsDir(fs, cur) && file == Render(cur + [c])
    requires cur + [c] in fs && fs[cur + [c]] == Link(target)
    requires expected == Resolve(fs, cur, [c] + Components(st.text, end), threshold - st.numLinks)
    ensures next.Stop? ==> Failure(next.errno) == Verdict(expected)
    ensures next.Go? ==> OnTrack(fs, next.st, cur', threshold, expected) && next.st.numLinks == st.numLinks + 1
  {
    cur' := LinkBase(cur, target);
    var numLinks := st.numLinks + 1;
    if numLinks > threshold {
      TooManyLinks(fs, c, target, st.text, end, cur);
      return Stop(ELOOP), cur';
    }
    var text := target + st.text[end..];
    var rname := NewPrefix(file, target, c, cur);
    next := Go(State(rname, text, 0, numLinks));
    AfterLink(fs, cur, c, st.text, end, target, expected, rname, text, numLinks, threshold - numLinks, threshold);
  }

  /** Behind any other name: it does not exist, or is no directory where one is
      needed, or the loop is on track with the name in the prefix. */
  lemma AfterName(fs: FileSystem, st: State, c: string, end: nat, cur: Path, threshold: nat, expected: Outcome)
    requires Tree(fs) && ProperName(c) && end <= |st.text| && st.numLinks <= threshold
    requires !(cur + [c] in fs && fs[cur + [c]].Link?)
    requires expected == Resolve(fs, cur, [c] + Components(st.text, end), threshold - st.numLinks)
    ensures var path := cur + [c];
            if path in fs && (IsDir(fs, path) || !NeedsDir(Components(st.text, end)))
            then OnTrack(fs, State(Render(path), st.text, end, st.numLinks), path, threshold, expected)
            else Verdict(expected) == Failure(if path in fs then ENOTDIR else LookupErrno(fs, path))
  {
    assert Parent(cur + [c]) == cur;
    PlainStep(fs, cur, c, Components(st.text, end), threshold - st.numLinks);
  }

  /** A component that is a name, ending at end. */
  method StepName(fs: FileSystem, st: State, c: string, end: nat, ghost cur: Path, threshold: nat, ghost expected: Outcome)
    returns (next: Next, ghost cur': Path)
    requires Tree(fs) && ProperName(c) && end <= |st.text| && (end < |st.text| ==> st.text[end] == '/')
    requires st.numLinks <= threshold && Resolved(fs, cur) && Shows(st.rname, cur)
    requires expected == Resolve(fs, cur, [c] + Components(st.text, end), threshold - st.numLinks)
    ensures next.Stop? ==> Failure(next.errno) == Verdict(expected)
    ensures next.Go? ==> OnTrack(fs, next.st, cur', threshold, expected)
    ensures next.Go? ==> next.st.numLinks == st.numLinks + 1 ||
                         (next.st.numLinks == st.numLinks && next.st.text == st.text && next.st.start == end)
  {
    cur' := cur + [c];
    assert cur'[..|cur|] == cur;
    var rname := Append(st.rname, c, cur);
    var link := Readlink(fs, rname);
    if link.Target? {
      next, cur' := StepLink(fs, st, c, rname, link.text, end, cur, threshold, expected);
    } else {
      next := StepPlain(fs, st, c, rname, link.errno, end, cur, threshold, expected);
    }
  }

  /** readlink failed, with EINVAL for what exists. */
  method StepPlain(fs: FileSystem, st: State, c: string, rname: string, errno: Errno, end: nat,
                   ghost cur: Path, threshold: nat, ghost expected: Outcome)
    returns (next: Next)
    requires Tree(fs) && ProperName(c) && end <= |st.text| && (end < |st.text| ==> st.text[end] == '/')
    requires st.numLinks <= threshold && rname == Render(cur + [c]) && Components(rname, 0) == cur + [c]
    requires !(cur + [c] in fs && fs[cur + [c]].Link?) && Readlink(fs, rname) == Failed(errno)
    requires expected == Resolve(fs, cur, [c] + Components(st.text, end), threshold - st.numLinks)
    ensures next.Stop? ==> Failure(next.errno) == Verdict(expected)
    ensures next.Go? ==> next == Go(State(rname, st.text, end, st.numLinks)) && OnTrack(fs, next.st, cur + [c], threshold, expected)
  {
    AfterName(fs, st, c, end, cur, threshold, expected);
    var check := SuffixRequiresDirCheck(st.text, end);
    if check {
      var error := DirCheck(fs, rname);
      if error.Some? {
        return Stop(error.value);
      }
    } else if errno != EINVAL {
      return Stop(errno);
    }
    next := Go(State(rname, st.text, end, st.numLinks));
  }

  /** "." and "..". */
  method StepDots(fs: FileSystem, st: State, c: string, end: nat, ghost cur: Path, threshold: nat, ghost expected: Outcome)
    returns (next: State, ghost cur': Path)
    requires Tree(fs) && c in {".", ".."} && st.start < end <= |st.text|
    requires OnTrack(fs, st, cur, threshold, expected)
    requires Components(st.text, st.start) == [c] + Components(st.text, end)
    ensures OnTrack(fs, next, cur', threshold, expected)
    ensures next.text == st.text && next.start == end && next.numLinks == st.numLinks
  {
    ghost var rest := Components(st.text, end);
    assert ([c] + rest)[1..] == rest;
    cur' := cur;
    var rname := st.rname;
    if c == ".." {
      rname := BackUp(st.rname, cur);
      cur' := Parent(cur);
      ParentIsDir(fs, cur);
    } else if !IsDir(fs, cur) {
      DotIsNeutral(fs, cur, rest, threshold - st.numLinks);
    }
    next := State(rname, st.text, end, st.numLinks);
  }

  lemma Finished(fs: FileSystem, st: State, cur: Path, threshold: nat, expected: Outcome)
    requires OnTrack(fs, st, cur, threshold, expected)
    requires st.start == |st.text| || Components(st.text, st.start) == ["."]
    ensures Verdict(expected) == Name(Render(cur))
  {
    var comps, left := Components(st.text, st.start), threshold - st.numLinks;
    if st.start < |st.text| {
      assert comps[1..] == [] && NeedsDir(comps);
      assert Resolve(fs, cur, comps, left) == Resolve(fs, cur, comps[1..], left);
    }
    assert Resolve(fs, cur, [], left) == Ok(cur, left);
  }

  /** The result of realpath, from resolution component by component. */
  ghost function Canonical(fs: FileSystem, cwd: Option<Path>, name: string, threshold: nat): Result {
    if name == "" then Failure(ENOENT)
    else if Absolute(name) then Verdict(Resolve(fs, [], Components(name, 0), threshold))
    else if cwd.None? then Failure(EOTHER)
    else Verdict(Resolve(fs, cwd.value, Components(name, 0), threshold))
  }

  /** realpath_stk.  cwd is what getcwd returns, if it returns; threshold is
      __eloop_threshold(). */
  method RealpathStk(fs: FileSystem, cwd: Option<Path>, name: string, threshold: nat) returns (r: Result)
    requires Tree(fs) && (cwd.Some? ==> IsDir(fs, cwd.value))
    ensures r == Canonical(fs, cwd, name, threshold)
  {
    if name == "" {
      return Failure(ENOENT);
    }
    var rname := "/";
    ghost var cur: Path := [];
    if name[0] != '/' {
      if cwd == None {
        return Failure(EOTHER);
      }
      rname, cur := Render(cwd.value), cwd.value;
    }
    ghost var expected := Resolve(fs, cur, Components(name, 0), threshold);
    var st := State(rname, name, 0, 0);
    while st.start < |st.text|
      invariant OnTrack(fs, st, cur, threshold, expected)
      decreases threshold - st.numLinks, |st.text| - st.start
    {
      var start, end := NextComponent(st.text, st.start);
      if start == end {
        break;
      }
      var c := st.text[start..end];
      if c == "." || c == ".." {
        st, cur := StepDots(fs, st, c, end, cur, threshold, expected);
      } else {
        var next;
        next, cur := StepName(fs, st, c, end, cur, threshold, expected);
        if next.Stop? {
          return Failure(next.errno);
        }
        st := next.st;
      }
    }
    Finished(fs, st, cur, threshold, expected);
    rname := StripSlash(st.rname, cur);
    return Name(rname);
  }

  /** A slash that is left at the end goes away. */
  method StripSlash(rname: string, ghost cur: Path) returns (r: string)
    requires Shows(rname, cur) && Proper(cur)
    ensures r == Render(cur)
  {
    ComponentsOfJoin(cur);
    r := rname;
    if |r| > 1 && r[|r|-1] == '/' {
      r := r[..|r|-1];
    }
  }

  // ---------------------------------------------------------------------
  // What realpath promises of its result

  /** Absolute, no empty component, no slash at the end except for the root. */
  predicate Clean(s: string) {
    && s != "" && s[0] == '/'
    && (|s| > 1 ==> s[|s|-1] != '/')
    && NoDoubleSlash(s)
  }

  predicate NoDoubleSlash(s: string) {
    forall i | 0 < i < |s| :: !(s[i - 1] == '/' && s[i] == '/')
  }

  lemma OneMoreName(t: string, c: string)
    requires NoDoubleSlash(t) && (t != "" ==> t[|t|-1] != '/') && ProperName(c)
    ensures NoDoubleSlash(t + "/" + c)
  {
  }

  lemma {:induction false} JoinIsClean(p: Path)
    requires Proper(p)
    ensures NoDoubleSlash(Join(p))
  {
    if p != [] {
      var init, c := p[..|p|-1], p[|p|-1];
      assert ProperName(c);
      JoinIsClean(init);
      ComponentsOfJoin(init);
      OneMoreName(Join(init), c);
    }
  }

  lemma RenderIsClean(p: Path)
    requires Proper(p)
    ensures Clean(Render(p))
  {
    ComponentsOfJoin(p);
    JoinIsClean(p);
  }

  /** A successful realpath returns a clean name, without "." and ".." components,
      of something that exists and is no symbolic link, every proper prefix being
      a directory; and resolving that name gives the name again, whatever limit
      there is on links. */
  lemma ResultIsCanonical(fs: FileSystem, base: Path, name: string, threshold: nat, limit: nat)
    requires Tree(fs) && IsDir(fs, base)
    requires Resolve(fs, base, Components(name, 0), threshold).Ok?
    ensures var p := Resolve(fs, base, Components(name, 0), threshold).path;
            && Proper(p) && Clean(Render(p)) && Resolved(fs, p)
            && (p != [] ==> Components(Render(p), 0) == p)
            && (forall k | 0 <= k < |p| :: IsDir(fs, p[..k]))
            && Verdict(Resolve(fs, [], Components(Render(p), 0), limit)) == Name(Render(p))
  {
    ResolvedResult(fs, base, Components(name, 0), threshold);
    var p := Resolve(fs, base, Components(name, 0), threshold).path;
    RenderIsClean(p);
    ComponentsOfJoin(p);
    CanonicalIsFixed(fs, p, limit);
    forall k | 0 <= k < |p|
      ensures IsDir(fs, p[..k])
    {
      PrefixesAreDirs(fs, p, k);
    }
  }
}
