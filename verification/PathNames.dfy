/**
  File names as strings and as sequences of components, and the meaning of a
  name over a tree of directories, files and symbolic links (section 4.13,
  Pathname Resolution, of POSIX.1-2017 Base Definitions).
*/
module PathNames {
  type Path = seq<string>

  datatype Node = Dir | File | Link(target: string)
  type FileSystem = map<Path, Node>

  /** What a directory entry can be called. */
  predicate ProperName(c: string) {
    c != "" && c != "." && c != ".." && '/' !in c
  }

  predicate Proper(p: Path) {
    forall i | 0 <= i < |p| :: ProperName(p[i])
  }

  /** A tree: the root is a directory, and everything else is in one. */
  ghost predicate Tree(fs: FileSystem) {
    && [] in fs && fs[[]] == Dir
    && (forall p | p in fs :: Proper(p))
    && (forall p, c | p + [c] in fs :: IsDir(fs, p))
  }

  predicate IsDir(fs: FileSystem, p: Path) {
    p in fs && fs[p] == Dir
  }

  predicate Resolved(fs: FileSystem, p: Path) {
    p in fs && !fs[p].Link?
  }

  function Parent(p: Path): Path {
    if p == [] then [] else p[..|p|-1]
  }

  lemma ParentIsDir(fs: FileSystem, p: Path)
    requires Tree(fs) && p in fs
    ensures IsDir(fs, Parent(p))
  {
    if p != [] {
      assert p == Parent(p) + [p[|p|-1]];
    }
  }

  predicate Absolute(s: string) {
    s != "" && s[0] == '/'
  }

  // ---------------------------------------------------------------------
  // Cutting a name into components

  function SkipSlashes(s: string, i: nat): (j: nat)
    requires i <= |s|
    ensures i <= j <= |s| && (forall x | i <= x < j :: s[x] == '/') && (j < |s| ==> s[j] != '/')
    decreases |s| - i
  {
    if i < |s| && s[i] == '/' then SkipSlashes(s, i + 1) else i
  }

  function EndOfName(s: string, i: nat): (j: nat)
    requires i <= |s|
    ensures i <= j <= |s| && (forall x | i <= x < j :: s[x] != '/') && (j < |s| ==> s[j] == '/')
    decreases |s| - i
  {
    if i < |s| && s[i] != '/' then EndOfName(s, i + 1) else i
  }

  /** The components of s from i on.  Slashes separate; slashes at the end mean
      the same as "/." there. */
  function Components(s: string, i: nat): Path
    requires i <= |s|
    decreases |s| - i
  {
    if i == |s| then []
    else if s[i] == '/' then
      var j := SkipSlashes(s, i);
      if j == |s| then ["."] else Components(s, j)
    else
      var e := EndOfName(s, i);
      [s[i..e]] + Components(s, e)
  }

  /** u is what s ends with, from d on. */
  predicate Ends(s: string, d: nat, u: string) {
    |s| == d + |u| && forall x | 0 <= x < |u| :: s[d + x] == u[x]
  }

  lemma ComponentsOfTail(t: string, u: string, k: nat)
    requires k <= |u|
    ensures Components(t + u, |t| + k) == Components(u, k)
  {
    TailComponents(t + u, |t|, u, k);
  }

  lemma {:induction false} TailComponents(s: string, d: nat, u: string, k: nat)
    requires Ends(s, d, u) && k <= |u|
    ensures Components(s, d + k) == Components(u, k)
    decreases |u| - k
  {
    if k < |u| {
      if u[k] == '/' {
        TailComponents(s, d, u, SkipSlashes(u, k));
        BehindSlashes(s, d, u, k);
      } else {
        TailComponents(s, d, u, EndOfName(u, k));
        BehindName(s, d, u, k);
      }
    }
  }

  lemma BehindSlashes(s: string, d: nat, u: string, k: nat)
    requires Ends(s, d, u) && k < |u| && u[k] == '/'
    requires Components(s, d + SkipSlashes(u, k)) == Components(u, SkipSlashes(u, k))
    ensures Components(s, d + k) == Components(u, k)
  {
    assert s[d + k] == u[k];
    TailSlashes(s, d, u, k);
    SlashesStep(s, d + k, u, k);
  }

  lemma BehindName(s: string, d: nat, u: string, k: nat)
    requires Ends(s, d, u) && k < |u| && u[k] != '/'
    requires Components(s, d + EndOfName(u, k)) == Components(u, EndOfName(u, k))
    ensures Components(s, d + k) == Components(u, k)
  {
    assert s[d + k] == u[k];
    TailSlashes(s, d, u, k);
    TailSlice(s, d, u, k, EndOfName(u, k));
    NameStep(s, d + k, u, k);
  }

  lemma TailSlice(s: string, d: nat, u: string, k: nat, e: nat)
    requires Ends(s, d, u) && k <= e <= |u|
    ensures s[d + k..d + e] == u[k..e]
  {
  }

  /** Two places where slashes start and where the same follows. */
  lemma SlashesStep(s: string, i: nat, u: string, k: nat)
    requires i < |s| && k < |u| && s[i] == u[k] == '/'
    requires SkipSlashes(s, i) == |s| <==> SkipSlashes(u, k) == |u|
    requires Components(s, SkipSlashes(s, i)) == Components(u, SkipSlashes(u, k))
    ensures Components(s, i) == Components(u, k)
  {
  }

  /** The same for a name. */
  lemma NameStep(s: string, i: nat, u: string, k: nat)
    requires i < |s| && k < |u| && s[i] == u[k] != '/'
    requires s[i..EndOfName(s, i)] == u[k..EndOfName(u, k)]
    requires Components(s, EndOfName(s, i)) == Components(u, EndOfName(u, k))
    ensures Components(s, i) == Components(u, k)
  {
  }

  lemma {:induction false} TailSlashes(s: string, d: nat, u: string, k: nat)
    requires Ends(s, d, u) && k <= |u|
    ensures SkipSlashes(s, d + k) == d + SkipSlashes(u, k)
    ensures EndOfName(s, d + k) == d + EndOfName(u, k)
    decreases |u| - k
  {
    if k < |u| {
      assert s[d + k] == u[k];
      TailSlashes(s, d, u, k + 1);
    }
  }

  lemma SlashesOfTail(t: string, u: string, k: nat)
    requires k <= |u|
    ensures SkipSlashes(t + u, |t| + k) == |t| + SkipSlashes(u, k)
    ensures EndOfName(t + u, |t| + k) == |t| + EndOfName(u, k)
  {
    TailSlashes(t + u, |t|, u, k);
  }

  lemma {:induction false} SlashesOfHead(t: string, u: string, i: nat)
    requires i <= |t|
    ensures var j := SkipSlashes(t, i); SkipSlashes(t + u, i) == if j < |t| then j else |t| + SkipSlashes(u, 0)
    ensures var e := EndOfName(t, i); EndOfName(t + u, i) == if e < |t| then e else |t| + EndOfName(u, 0)
    decreases |t| - i
  {
    if i < |t| {
      assert (t + u)[i] == t[i];
      SlashesOfHead(t, u, i + 1);
    } else {
      SlashesOfTail(t, u, 0);
    }
  }

  lemma {:induction false} SlashAtEnd(t: string, i: nat)
    requires i < |t| && t[|t|-1] == '/'
    ensures var a := Components(t, i); a != [] && a[|a|-1] == "."
    decreases |t| - i
  {
    if t[i] == '/' {
      var j := SkipSlashes(t, i);
      if j < |t| {
        SlashAtEnd(t, j);
      }
    } else {
      SlashAtEnd(t, EndOfName(t, i));
    }
  }

  function DropDot(t: string, i: nat, u: string): Path
    requires i <= |t|
  {
    var a := Components(t, i);
    if u != "" && i < |t| && t[|t|-1] == '/' && a != [] then a[..|a|-1] else a
  }

  /** Splicing: the components of t followed by u, where u is empty or starts with
      a slash.  A "." that stood for slashes at the end of t goes away. */
  lemma {:induction false} ComponentsOfSplice(t: string, u: string, i: nat)
    requires i <= |t| && (u == "" || u[0] == '/')
    ensures Components(t + u, i) == DropDot(t, i, u) + Components(u, 0)
    decreases |t| - i
  {
    var s := t + u;
    SlashesOfHead(t, u, i);
    if i == |t| {
      ComponentsOfTail(t, u, 0);
    } else if t[i] == '/' {
      assert s[i] == '/';
      var j := SkipSlashes(t, i);
      if j < |t| {
        ComponentsOfSplice(t, u, j);
      } else {
        SpliceSlashes(t, u, i);
      }
    } else {
      var e := EndOfName(t, i);
      ComponentsOfSplice(t, u, e);
      SpliceName(t, u, i, e);
    }
  }

  lemma SpliceSlashes(t: string, u: string, i: nat)
    requires i < |t| && t[i] == '/' && SkipSlashes(t, i) == |t| && (u == "" || u[0] == '/')
    ensures Components(t + u, i) == DropDot(t, i, u) + Components(u, 0)
  {
    var k := SkipSlashes(u, 0);
    SlashesOfHead(t, u, i);
    ComponentsOfTail(t, u, k);
    assert (t + u)[i] == '/';
    assert Components(t, i) == ["."] && ["."][..0] == [];
    if u == "" {
      assert t + u == t && Components(u, 0) == [];
    }
  }

  lemma SpliceName(t: string, u: string, i: nat, e: nat)
    requires i < |t| && t[i] != '/' && e == EndOfName(t, i) && (u == "" || u[0] == '/')
    requires EndOfName(t + u, i) == e
    requires Components(t + u, e) == DropDot(t, e, u) + Components(u, 0)
    ensures Components(t + u, i) == DropDot(t, i, u) + Components(u, 0)
  {
    var s, a, b := t + u, Components(t, e), Components(u, 0);
    assert s[i] == t[i] && s[i..e] == t[i..e];
    var first := [t[i..e]];
    assert Components(s, i) == first + Components(s, e) && Components(t, i) == first + a;
    if u != "" && t[|t|-1] == '/' && e < |t| {
      SlashAtEnd(t, e);
      PrependDropped(first, a, b);
    } else {
      Prepend(first, a, b);
    }
  }

  lemma Prepend(first: Path, a: Path, b: Path)
    ensures first + (a + b) == first + a + b
  {
  }

  lemma PrependDropped(first: Path, a: Path, b: Path)
    requires a != []
    ensures first + (a[..|a|-1] + b) == (first + a)[..|first + a|-1] + b
  {
  }

  // ---------------------------------------------------------------------
  // Writing a path out

  function Join(p: Path): string {
    if p == [] then "" else Join(p[..|p|-1]) + "/" + p[|p|-1]
  }

  /** The canonical name of a path. */
  function Render(p: Path): string {
    if p == [] then "/" else Join(p)
  }

  lemma {:induction false} ComponentsOfJoin(p: Path)
    requires Proper(p)
    ensures Components(Join(p), 0) == p
    ensures p != [] ==> Join(p) != "" && Join(p)[0] == '/' && Join(p)[|Join(p)|-1] != '/'
  {
    if p != [] {
      var init, c := p[..|p|-1], p[|p|-1];
      assert ProperName(c) && p == init + [c];
      ComponentsOfJoin(init);
      OneMoreComponent(Join(init), c);
      assert Join(p) == Join(init) + "/" + c;
    }
  }

  lemma OneMoreComponent(t: string, c: string)
    requires ProperName(c) && (t != "" ==> t[|t|-1] != '/')
    ensures Components(t + "/" + c, 0) == Components(t, 0) + [c]
  {
    var u := "/" + c;
    ComponentsOfSplice(t, u, 0);
    OneComponent(c);
    assert t + "/" + c == t + u;
  }

  lemma OneComponent(c: string)
    requires ProperName(c)
    ensures Components(c, 0) == [c] && Components("/" + c, 0) == [c]
  {
    assert EndOfName(c, 0) == |c| && c[0..|c|] == c;
    ComponentsOfTail("/", c, 0);
    var u := "/" + c;
    assert u[1] == c[0];
    assert SkipSlashes(u, 0) == SkipSlashes(u, 1) == 1;
  }

  // ---------------------------------------------------------------------
  // Resolution

  datatype Outcome = Ok(path: Path, left: nat) | Loop | NoEntry | NotDirectory

  /** Resolve the components one by one, starting in cur.  Each is looked up in a
      directory; a symbolic link is itself resolved, from the root or from the
      directory it is in, and resolution goes on from where it leads.  At most
      budget links are followed. */
  function Resolve(fs: FileSystem, cur: Path, comps: Path, budget: nat): (r: Outcome)
    ensures r.Ok? ==> r.left <= budget
    decreases budget, |comps|
  {
    if comps == [] then Ok(cur, budget)
    else if !IsDir(fs, cur) then NotDirectory
    else
      var c, rest := comps[0], comps[1..];
      if c == "." then Resolve(fs, cur, rest, budget)
      else if c == ".." then Resolve(fs, Parent(cur), rest, budget)
      else if cur + [c] !in fs then NoEntry
      else match fs[cur + [c]]
        case Link(target) =>
          if budget == 0 then Loop
          else
            (match Resolve(fs, LinkBase(cur, target), Components(target, 0), budget - 1)
             case Ok(p, left) => Resolve(fs, p, rest, left)
             case failure => failure)
        case _ => Resolve(fs, cur + [c], rest, budget)
  }

  function LinkBase(cur: Path, target: string): Path {
    if Absolute(target) then [] else cur
  }

  /** Resolving a + b is resolving a and going on with b. */
  lemma {:induction false} ResolveAppend(fs: FileSystem, cur: Path, a: Path, b: Path, budget: nat)
    ensures Resolve(fs, cur, a + b, budget) ==
            match Resolve(fs, cur, a, budget) case Ok(p, left) => Resolve(fs, p, b, left) case failure => failure
    decreases budget, |a|
  {
    if a == [] {
      assert a + b == b;
    } else {
      var c, rest := a[0], a[1..];
      assert (a + b)[0] == c && (a + b)[1..] == rest + b;
      if IsDir(fs, cur) {
        if c == "." {
          ResolveAppend(fs, cur, rest, b, budget);
        } else if c == ".." {
          ResolveAppend(fs, Parent(cur), rest, b, budget);
        } else if cur + [c] in fs {
          if fs[cur + [c]].Link? {
            if budget > 0 {
              var target := fs[cur + [c]].target;
              var r := Resolve(fs, LinkBase(cur, target), Components(target, 0), budget - 1);
              if r.Ok? {
                ResolveAppend(fs, r.path, rest, b, r.left);
              }
            }
          } else {
            ResolveAppend(fs, cur + [c], rest, b, budget);
          }
        }
      }
    }
  }

  /** "." changes nothing if more components follow. */
  lemma DotIsNeutral(fs: FileSystem, cur: Path, rest: Path, budget: nat)
    requires rest != []
    ensures Resolve(fs, cur, ["."] + rest, budget) == Resolve(fs, cur, rest, budget)
  {
  }

  /** Following a link by splicing its target in front of the rest of the name is
      following it by recursion. */
  lemma SpliceIsRecursion(fs: FileSystem, cur: Path, target: string, tail: string, budget: nat)
    requires tail == "" || tail[0] == '/'
    ensures Resolve(fs, cur, Components(target + tail, 0), budget) ==
            match Resolve(fs, cur, Components(target, 0), budget)
            case Ok(p, left) => Resolve(fs, p, Components(tail, 0), left)
            case failure => failure
  {
    var a, b := Components(target, 0), Components(tail, 0);
    ComponentsOfSplice(target, tail, 0);
    ResolveAppend(fs, cur, a, b, budget);
    if tail != "" && target != "" && target[|target|-1] == '/' {
      SlashAtEnd(target, 0);
      var init := a[..|a|-1];
      assert a == init + ["."];
      assert a + b == init + (["."] + b);
      ResolveAppend(fs, cur, init, ["."] + b, budget);
      ResolveAppend(fs, cur, init, b, budget);
      var r := Resolve(fs, cur, init, budget);
      if r.Ok? {
        assert b != [];
        DotIsNeutral(fs, r.path, b, r.left);
      }
    }
  }

  // ---------------------------------------------------------------------
  // What a resolved name looks like

  lemma {:induction false} ResolvedResult(fs: FileSystem, cur: Path, comps: Path, budget: nat)
    requires Tree(fs) && Resolved(fs, cur)
    ensures var r := Resolve(fs, cur, comps, budget); r.Ok? ==> Resolved(fs, r.path)
    decreases budget, |comps|
  {
    if comps != [] && IsDir(fs, cur) {
      var c, rest := comps[0], comps[1..];
      if c == "." {
        ResolvedResult(fs, cur, rest, budget);
      } else if c == ".." {
        ParentIsDir(fs, cur);
        ResolvedResult(fs, Parent(cur), rest, budget);
      } else if cur + [c] in fs {
        if fs[cur + [c]].Link? {
          if budget > 0 {
            var target := fs[cur + [c]].target;
            ResolvedResult(fs, LinkBase(cur, target), Components(target, 0), budget - 1);
            var r := Resolve(fs, LinkBase(cur, target), Components(target, 0), budget - 1);
            if r.Ok? {
              ResolvedResult(fs, r.path, rest, r.left);
            }
          }
        } else {
          ResolvedResult(fs, cur + [c], rest, budget);
        }
      }
    }
  }

  /** Every prefix of an existing path exists, and every proper one is a directory. */
  lemma {:induction false} PrefixesAreDirs(fs: FileSystem, p: Path, k: nat)
    requires Tree(fs) && p in fs && k < |p|
    ensures IsDir(fs, p[..k])
    decreases |p| - k
  {
    assert p[..k+1] == p[..k] + [p[k]];
    if k == |p| - 1 {
      assert p[..k+1] == p;
    } else {
      PrefixesAreDirs(fs, p, k + 1);
    }
  }

  lemma {:induction false} ResolveExisting(fs: FileSystem, p: Path, k: nat, budget: nat)
    requires Tree(fs) && Resolved(fs, p) && k <= |p|
    ensures Resolve(fs, p[..k], p[k..], budget) == Ok(p, budget)
    decreases |p| - k
  {
    if k < |p| {
      PrefixesAreDirs(fs, p, k);
      assert ProperName(p[k]);
      assert p[..k] + [p[k]] == p[..k+1] && p[k..][1..] == p[k+1..];
      if k + 1 < |p| {
        PrefixesAreDirs(fs, p, k + 1);
      } else {
        assert p[..k+1] == p;
      }
      ResolveExisting(fs, p, k + 1, budget);
    } else {
      assert p[..k] == p;
    }
  }

  /** Resolving a canonical name leads back to the same path, following no link. */
  lemma CanonicalIsFixed(fs: FileSystem, p: Path, budget: nat)
    requires Tree(fs) && Resolved(fs, p)
    ensures Resolve(fs, [], Components(Render(p), 0), budget) == Ok(p, budget)
  {
    if p == [] {
      assert SkipSlashes("/", 0) == SkipSlashes("/", 1) == 1;
      assert Components("/", 0) == ["."];
      assert Resolve(fs, [], ["."], budget) == Resolve(fs, [], [], budget);
    } else {
      ComponentsOfJoin(p);
      ResolveExisting(fs, p, 0, budget);
      assert p[..0] == [] && p[0..] == p;
    }
  }
}
