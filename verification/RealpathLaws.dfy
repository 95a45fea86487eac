/**
  What realpath returns, told by the characters of the name and the entries of
  the directories alone: one law for each way a name can begin.  Together they
  determine the result for every name, as each leads to a name with fewer
  characters or to one link fewer.
*/
module RealpathLaws {
  import opened Wrappers
  import opened PathNames
  import opened Realpath

  // ---------------------------------------------------------------------
  // Components of a name that begins with a component, or with a slash

  lemma {:induction false} NameEnds(c: string, tail: string, i: nat)
    requires i <= |c| && '/' !in c && (tail == "" || tail[0] == '/')
    ensures EndOfName(c + tail, i) == |c|
    decreases |c| - i
  {
    if i < |c| {
      assert (c + tail)[i] == c[i];
      NameEnds(c, tail, i + 1);
    }
  }

  lemma FirstComponent(c: string, tail: string)
    requires c != "" && '/' !in c && (tail == "" || tail[0] == '/')
    ensures Components(c + tail, 0) == [c] + Components(tail, 0)
  {
    var s := c + tail;
    NameEnds(c, tail, 0);
    assert s[0] == c[0] && s[0..|c|] == c;
    ComponentsOfTail(c, tail, 0);
  }

  lemma LeadingSlash(s: string)
    ensures s == "" ==> Components("/" + s, 0) == ["."]
    ensures s != "" ==> Components("/" + s, 0) == Components(s, 0)
  {
    var t := "/" + s;
    assert SkipSlashes(t, 0) == SkipSlashes(t, 1);
    SlashesOfTail("/", s, 0);
    ComponentsOfTail("/", s, SkipSlashes(s, 0));
  }

  /** A relative name, from its first component on. */
  lemma Begins(fs: FileSystem, cur: Path, c: string, tail: string, threshold: nat)
    requires c != "" && '/' !in c && (tail == "" || tail[0] == '/')
    ensures Canonical(fs, Some(cur), c + tail, threshold) == Verdict(Resolve(fs, cur, [c] + Components(tail, 0), threshold))
  {
    FirstComponent(c, tail);
    assert (c + tail)[0] == c[0];
  }

  lemma Alone(fs: FileSystem, cur: Path, c: string, threshold: nat)
    requires c != "" && '/' !in c
    ensures Canonical(fs, Some(cur), c, threshold) == Verdict(Resolve(fs, cur, [c] + [], threshold))
  {
    Begins(fs, cur, c, "", threshold);
    assert c + "" == c;
  }

  lemma NothingLeft(fs: FileSystem, cur: Path, threshold: nat)
    ensures Verdict(Resolve(fs, cur, [], threshold)) == Name(Render(cur))
  {
  }

  lemma DotFirst(fs: FileSystem, cur: Path, rest: Path, threshold: nat)
    requires IsDir(fs, cur)
    ensures Resolve(fs, cur, ["."] + rest, threshold) == Resolve(fs, cur, rest, threshold)
  {
    assert (["."] + rest)[1..] == rest;
  }

  lemma DotsFirst(fs: FileSystem, cur: Path, rest: Path, threshold: nat)
    requires IsDir(fs, cur)
    ensures Resolve(fs, cur, [".."] + rest, threshold) == Resolve(fs, if cur == [] then [] else cur[..|cur|-1], rest, threshold)
  {
    assert ([".."] + rest)[1..] == rest;
  }

  // ---------------------------------------------------------------------
  // Where a name starts

  /** The name "" is an error, "/" is the root, and what follows a slash at the
      beginning is looked up from the root, wherever the call is made. */
  lemma FromTheRoot(fs: FileSystem, cwd: Option<Path>, s: string, threshold: nat)
    requires Tree(fs)
    ensures Canonical(fs, cwd, "", threshold) == Failure(ENOENT)
    ensures Canonical(fs, cwd, "/", threshold) == Name("/")
    ensures s != "" ==> Canonical(fs, cwd, "/" + s, threshold) == Canonical(fs, Some([]), s, threshold)
    ensures s != "" && s[0] != '/' ==> Canonical(fs, None, s, threshold) == Failure(EOTHER)
  {
    LeadingSlash("");
    LeadingSlash(s);
    assert "/" + "" == "/" && ["."] + [] == ["."];
    DotFirst(fs, [], [], threshold);
    NothingLeft(fs, [], threshold);
  }

  // ---------------------------------------------------------------------
  // The first component

  /** "." stays in the directory, and slashes behind it are one. */
  lemma DotStays(fs: FileSystem, cur: Path, s: string, threshold: nat)
    requires IsDir(fs, cur)
    ensures Canonical(fs, Some(cur), ".", threshold) == Name(Render(cur))
    ensures Canonical(fs, Some(cur), "./", threshold) == Name(Render(cur))
    ensures Canonical(fs, Some(cur), ".//" + s, threshold) == Canonical(fs, Some(cur), "./" + s, threshold)
    ensures s != "" && s[0] != '/' ==> Canonical(fs, Some(cur), "./" + s, threshold) == Canonical(fs, Some(cur), s, threshold)
  {
    Alone(fs, cur, ".", threshold);
    DotFirst(fs, cur, [], threshold);
    NothingLeft(fs, cur, threshold);
    DotSlashAlone(fs, cur, threshold);
    DotSlashes(fs, cur, s, threshold);
    if s != "" && s[0] != '/' {
      DotSlash(fs, cur, s, threshold);
    }
  }

  lemma DotSlashAlone(fs: FileSystem, cur: Path, threshold: nat)
    requires IsDir(fs, cur)
    ensures Canonical(fs, Some(cur), "./", threshold) == Name(Render(cur))
  {
    Begins(fs, cur, ".", "/", threshold);
    LeadingSlash("");
    assert "." + "/" == "./" && "/" + "" == "/" && ["."] + [] == ["."];
    DotFirst(fs, cur, ["."], threshold);
    DotFirst(fs, cur, [], threshold);
    NothingLeft(fs, cur, threshold);
  }

  lemma DotSlashes(fs: FileSystem, cur: Path, s: string, threshold: nat)
    ensures Canonical(fs, Some(cur), ".//" + s, threshold) == Canonical(fs, Some(cur), "./" + s, threshold)
  {
    SlashMore(fs, cur, ".", "/" + s, "//" + s, threshold);
    assert "." + ("/" + s) == "./" + s && "." + ("//" + s) == ".//" + s && "/" + ("/" + s) == "//" + s;
  }

  lemma SlashMore(fs: FileSystem, cur: Path, c: string, tail: string, longer: string, threshold: nat)
    requires c != "" && '/' !in c && tail != "" && tail[0] == '/' && longer == "/" + tail
    ensures Canonical(fs, Some(cur), c + longer, threshold) == Canonical(fs, Some(cur), c + tail, threshold)
  {
    Begins(fs, cur, c, tail, threshold);
    Begins(fs, cur, c, longer, threshold);
    LeadingSlash(tail);
  }

  lemma DotSlash(fs: FileSystem, cur: Path, s: string, threshold: nat)
    requires IsDir(fs, cur) && s != "" && s[0] != '/'
    ensures Canonical(fs, Some(cur), "./" + s, threshold) == Canonical(fs, Some(cur), s, threshold)
  {
    Begins(fs, cur, ".", "/" + s, threshold);
    LeadingSlash(s);
    assert "." + ("/" + s) == "./" + s;
    DotFirst(fs, cur, Components(s, 0), threshold);
  }

  /** ".." goes up by one name, and stays at the root. */
  lemma DotsGoUp(fs: FileSystem, cur: Path, s: string, threshold: nat)
    requires Tree(fs) && IsDir(fs, cur)
    ensures var up := if cur == [] then [] else cur[..|cur|-1];
            && Canonical(fs, Some(cur), "..", threshold) == Name(Render(up))
            && Canonical(fs, Some(cur), "../" + s, threshold) == Canonical(fs, Some(up), "./" + s, threshold)
  {
    var up := if cur == [] then [] else cur[..|cur|-1];
    ParentIsDir(fs, cur);
    Alone(fs, cur, "..", threshold);
    DotsFirst(fs, cur, [], threshold);
    NothingLeft(fs, up, threshold);
    DotsSlash(fs, cur, up, s, threshold);
  }

  lemma DotsSlash(fs: FileSystem, cur: Path, up: Path, s: string, threshold: nat)
    requires IsDir(fs, cur) && IsDir(fs, up) && up == if cur == [] then [] else cur[..|cur|-1]
    ensures Canonical(fs, Some(cur), "../" + s, threshold) == Canonical(fs, Some(up), "./" + s, threshold)
  {
    Begins(fs, cur, "..", "/" + s, threshold);
    Begins(fs, up, ".", "/" + s, threshold);
    assert ".." + ("/" + s) == "../" + s && "." + ("/" + s) == "./" + s;
    var rest := Components("/" + s, 0);
    DotsFirst(fs, cur, rest, threshold);
    DotFirst(fs, up, rest, threshold);
  }

  /** A name that is not in the directory is an error, whatever follows it. */
  lemma NoSuchName(fs: FileSystem, cur: Path, c: string, tail: string, threshold: nat)
    requires IsDir(fs, cur) && ProperName(c) && (tail == "" || tail[0] == '/')
    requires cur + [c] !in fs
    ensures Canonical(fs, Some(cur), c + tail, threshold) == Failure(ENOENT)
  {
    FirstComponent(c, tail);
  }

  lemma NameFirst(fs: FileSystem, cur: Path, c: string, rest: Path, threshold: nat)
    requires IsDir(fs, cur) && ProperName(c) && cur + [c] in fs && !fs[cur + [c]].Link?
    ensures Resolve(fs, cur, [c] + rest, threshold) == Resolve(fs, cur + [c], rest, threshold)
  {
    assert ([c] + rest)[1..] == rest;
  }

  /** A name that is there and no link is resolved if nothing follows it.  A
      directory is searched for what follows; for another file that is an error,
      even if only slashes follow. */
  lemma NameIsThere(fs: FileSystem, cur: Path, c: string, s: string, threshold: nat)
    requires IsDir(fs, cur) && ProperName(c)
    requires cur + [c] in fs && !fs[cur + [c]].Link?
    ensures Canonical(fs, Some(cur), c, threshold) == Name(Render(cur + [c]))
    ensures Canonical(fs, Some(cur), c + "/" + s, threshold) ==
            if fs[cur + [c]] == File then Failure(ENOTDIR) else Canonical(fs, Some(cur + [c]), "./" + s, threshold)
  {
    Alone(fs, cur, c, threshold);
    NameFirst(fs, cur, c, [], threshold);
    NothingLeft(fs, cur + [c], threshold);
    var tail := "/" + s;
    Begins(fs, cur, c, tail, threshold);
    Begins(fs, cur + [c], ".", tail, threshold);
    assert c + tail == c + "/" + s && "." + tail == "./" + s;
    NameFirst(fs, cur, c, Components(tail, 0), threshold);
    if fs[cur + [c]] == Dir {
      DotFirst(fs, cur + [c], Components(tail, 0), threshold);
    }
  }

  /** A symbolic link counts as its target, in the directory that the link is in,
      or from the root if the target begins with a slash; an empty target is that
      directory.  One link too many is an error. */
  lemma LinkIsItsTarget(fs: FileSystem, cur: Path, c: string, target: string, tail: string, threshold: nat)
    requires Tree(fs) && IsDir(fs, cur) && ProperName(c) && (tail == "" || tail[0] == '/')
    requires cur + [c] in fs && fs[cur + [c]] == Link(target)
    ensures Canonical(fs, Some(cur), c + tail, threshold) ==
            if threshold == 0 then Failure(ELOOP)
            else if target == "" then Canonical(fs, Some(cur), "." + tail, threshold - 1)
            else if target[0] == '/' then Canonical(fs, None, target + tail, threshold - 1)
            else Canonical(fs, Some(cur), target + tail, threshold - 1)
  {
    var text := c + tail;
    FirstComponent(c, tail);
    assert text[|c|..] == tail;
    ComponentsOfTail(c, tail, 0);
    LinkStep(fs, cur, c, text, |c|, threshold, target, target + tail);
    if threshold > 0 && target == "" {
      FirstComponent(".", tail);
      assert "" + tail == tail;
      DotFirst(fs, cur, Components(tail, 0), threshold - 1);
    }
  }

  /** A link to another name in its own directory. */
  lemma SiblingLink(fs: FileSystem, cur: Path, c: string, d: string, threshold: nat)
    requires Tree(fs) && IsDir(fs, cur) && ProperName(c) && ProperName(d)
    requires cur + [c] in fs && fs[cur + [c]] == Link(d)
    requires cur + [d] in fs && !fs[cur + [d]].Link? && threshold > 0
    ensures Canonical(fs, Some(cur), c, threshold) == Name(Render(cur + [d]))
  {
    LinkIsItsTarget(fs, cur, c, d, "", threshold);
    assert c + "" == c && d + "" == d;
    NameIsThere(fs, cur, d, "", threshold - 1);
  }

  // ---------------------------------------------------------------------
  // An example

  /** /a is a directory with a file b and a link l to "b"; /r is a link to "/a". */
  const Home: FileSystem :=
    map[[] := Dir, ["a"] := Dir, ["a", "b"] := File, ["a", "l"] := Link("b"), ["r"] := Link("/a")]

  lemma InItsParent(p: Path, c: string)
    requires p + [c] in Home
    ensures p == [] || p == ["a"]
  {
    var q := p + [c];
    assert |q| == |p| + 1 && q[0] == if p == [] then c else p[0];
  }

  lemma HomeIsTree()
    ensures Tree(Home)
  {
    var a: Path, ab: Path, al: Path, r: Path := ["a"], ["a", "b"], ["a", "l"], ["r"];
    assert a[..0] == r[..0] == [] && ab[..1] == al[..1] == a;
    forall p, c | p + [c] in Home
      ensures IsDir(Home, p)
    {
      InItsParent(p, c);
    }
  }

  lemma RenderExample()
    ensures Render([]) == "/" && Render(["a"]) == "/a" && Render(["a", "b"]) == "/a/b"
  {
    assert ["a", "b"][..1] == ["a"] && ["a"][..0] == [];
    assert Join(["a"]) == "" + "/" + "a" == "/a";
    assert Join(["a", "b"]) == Join(["a"]) + "/" + "b";
  }

  /** realpath ("/a/l") is "/a/b"; with a slash behind it, it is an error, and so it
      is if no link may be followed.  Through /r the same file is found. */
  lemma RealpathExample(cwd: Option<Path>, name: string, threshold: nat)
    ensures name == "/a/l" ==> Canonical(Home, cwd, name, threshold) == if threshold > 0 then Name("/a/b") else Failure(ELOOP)
    ensures name == "/a/l/" && threshold > 0 ==> Canonical(Home, cwd, name, threshold) == Failure(ENOTDIR)
    ensures name == "/a/x" ==> Canonical(Home, cwd, name, threshold) == Failure(ENOENT)
    ensures name == "/r/b" && threshold > 0 ==> Canonical(Home, cwd, name, threshold) == Name("/a/b")
  {
    HomeIsTree();
    if name == "/a/l" {
      InA(cwd, name, "l", threshold);
      LinkInA(name[3..], threshold);
    } else if name == "/a/l/" && threshold > 0 {
      InA(cwd, name, "l/", threshold);
      NotInA(name[3..], threshold);
    } else if name == "/a/x" {
      InA(cwd, name, "x", threshold);
      NotInA(name[3..], threshold);
    } else if name == "/r/b" && threshold > 0 {
      assert "/" + name[1..] == name;
      FromTheRoot(Home, cwd, name[1..], threshold);
      ThroughR(name[1..], "r", name[2..], "/a", "b", "/a" + name[2..], threshold);
    }
  }

  lemma LinkInA(name: string, threshold: nat)
    requires name == "l"
    ensures Canonical(Home, Some(["a"]), name, threshold) == if threshold > 0 then Name("/a/b") else Failure(ELOOP)
  {
    var a: Path := ["a"];
    HomeIsTree();
    RenderExample();
    assert a + [name] == ["a", "l"] && a + ["b"] == ["a", "b"];
    if threshold > 0 {
      SiblingLink(Home, a, name, "b", threshold);
    } else {
      LinkIsItsTarget(Home, a, name, "b", "", 0);
      assert name + "" == name;
    }
  }

  lemma NotInA(name: string, threshold: nat)
    requires (name == "l/" && threshold > 0) || name == "x"
    ensures Canonical(Home, Some(["a"]), name, threshold) == Failure(if name == "x" then ENOENT else ENOTDIR)
  {
    var a: Path := ["a"];
    HomeIsTree();
    assert a + ["l"] == ["a", "l"] && a + ["b"] == ["a", "b"] && a + ["x"] == ["a", "x"];
    if name == "x" {
      NoSuchName(Home, a, name, "", threshold);
      assert name + "" == name;
    } else {
      LinkIsItsTarget(Home, a, "l", "b", "/", threshold);
      NameIsThere(Home, a, "b", "", threshold - 1);
      assert "l" + "/" == name && "b" + "/" + "" == "b" + "/";
    }
  }

  lemma ThroughR(name: string, c: string, tail: string, target: string, b: string, spliced: string, threshold: nat)
    requires name == c + tail && c == "r" && target == "/a" && b == "b" && threshold > 0
    requires tail == "/" + b && spliced == target + tail
    ensures Canonical(Home, Some([]), name, threshold) == Name("/a/b")
  {
    var root: Path := [];
    HomeIsTree();
    assert root + [c] == ["r"];
    LinkIsItsTarget(Home, root, c, target, tail, threshold);
    assert spliced == "/a/" + b;
    FindB(spliced, b, threshold - 1);
  }

  lemma FindB(name: string, b: string, threshold: nat)
    requires name == "/a/" + b && b == "b"
    ensures Canonical(Home, None, name, threshold) == Name("/a/b")
  {
    var a: Path := ["a"];
    HomeIsTree();
    RenderExample();
    assert a + [b] == ["a", "b"];
    InA(None, name, b, threshold);
    NameIsThere(Home, a, b, "", threshold);
  }

  /** A name in /a. */
  lemma InA(cwd: Option<Path>, name: string, s: string, threshold: nat)
    requires s != "" && s[0] != '/' && name == "/a/" + s
    ensures Canonical(Home, cwd, name, threshold) == Canonical(Home, Some(["a"]), s, threshold)
  {
    var root: Path := [];
    HomeIsTree();
    FromTheRoot(Home, cwd, "a/" + s, threshold);
    assert "/" + ("a/" + s) == name && "a" + "/" + s == "a/" + s && root + ["a"] == ["a"];
    NameIsThere(Home, root, "a", s, threshold);
    DotStays(Home, ["a"], s, threshold);
  }
}
