/**
 Walking up a path with `PathDir`, and the tree that clean relative paths form.  A path lies under
 a directory exactly when it starts with the directory and a slash; the walk meets exactly those
 directories, each shorter than the one before, and then ends.  Two directories a path lies under
 lie on one line, and a clean relative path is a name, or its parent, a slash and a name.
 */
module PathTree {
  import opened Paths

  // PathDir gets shorter until it is stuck

  lemma {:induction false} JoinLength(cs: seq<string>, last: string)
    ensures |Join(cs + [last])| == |Join(cs)| + |last| + if cs == [] then 0 else 1
  {
    if cs == [] {
      assert cs + [last] == [last];
    } else {
      JoinConcat(cs, [last]);
    }
  }

  lemma PushLength(out: seq<string>, part: string, rooted: bool)
    ensures |Join(Push(out, part, rooted))| <= |Join(out + [part])|
  {
    JoinLength(out, part);
    if out != [] {
      assert out == out[..|out| - 1] + [out[|out| - 1]];
      JoinLength(out[..|out| - 1], out[|out| - 1]);
    }
  }

  lemma {:induction false} JoinMono(a: seq<string>, b: seq<string>, tail: seq<string>)
    requires |Join(a)| <= |Join(b)| && (a != [] ==> b != [])
    ensures |Join(a + tail)| <= |Join(b + tail)|
  {
    if tail == [] {
      assert a + tail == a && b + tail == b;
    } else {
      if a != [] { JoinConcat(a, tail); } else { assert a + tail == tail; }
      if b != [] { JoinConcat(b, tail); } else { assert b + tail == tail; }
    }
  }

  lemma {:induction false} FoldLength(out: seq<string>, parts: seq<string>, rooted: bool)
    ensures |Join(Fold(out, parts, rooted))| <= |Join(out + parts)|
    decreases |parts|
  {
    if parts == [] {
      assert out + parts == out;
    } else {
      hide Join;
      var next := Push(out, parts[0], rooted);
      FoldLength(next, parts[1..], rooted);
      PushLength(out, parts[0], rooted);
      JoinMono(next, out + [parts[0]], parts[1..]);
      assert out + [parts[0]] + parts[1..] == out + parts;
    }
  }

  /** Cleaning never makes a path longer. */
  lemma CleanLength(p: string)
    requires p != ""
    ensures |Clean(p)| <= |p|
  {
    hide Join;
    JoinSplit(p);
    assert [] + Split(p) == Split(p);
    FoldLength([], Split(p), p[0] == '/');
    if p[0] == '/' {
      var parts := Split(p);
      SplitCons(p[0], p[1..]);
      assert p == [p[0]] + p[1..];
      assert parts[0] == "" && parts[1..] == Split(p[1..]);
      assert Fold([], parts, true) == Fold([], parts[1..], true);
      FoldLength([], parts[1..], true);
      assert [] + parts[1..] == parts[1..];
      JoinSplit(p[1..]);
    }
  }

  lemma CleanTrailingSlash(p: string)
    requires p != ""
    ensures Clean(p + "/") == Clean(p)
  {
    hide Split, Join;
    SplitConcat(p, "");
    assert p + "/" + "" == p + "/";
    assert Split("") == [""] by { SplitSingle(""); }
    FoldConcat([], Split(p), [""], p[0] == '/');
  }

  lemma PathDirShorter(p: string)
    ensures PathDir(p) == p || PathDir(p) == "." || |PathDir(p)| < |p|
    ensures PathDir(p) != ""
  {
    var d := DirPart(p);
    if d != "" {
      var front := d[..|d| - 1];
      assert d == front + "/";
      if front == "" {
        assert Split("/") == ["", ""];
        assert Fold([], ["", ""], true) == Fold([], [""], true);
        assert Clean(d) == "/";
        DirPartPrefix(p);
        assert p[0] == '/';
        assert |p| == 1 ==> p == "/";
      } else {
        CleanTrailingSlash(front);
        CleanLength(front);
      }
      assert |Clean(d)| > 0 by { CleanNonEmpty(d); }
    }
  }

  lemma {:induction false} DirPartPrefix(p: string)
    ensures |DirPart(p)| <= |p| && p[..|DirPart(p)|] == DirPart(p)
  {
    if p != "" && p[|p| - 1] != '/' {
      DirPartPrefix(p[..|p| - 1]);
    }
  }

  lemma CleanNonEmpty(p: string)
    ensures Clean(p) != ""
  {
    if p != "" && p[0] != '/' {
      var out := Fold([], Split(p), false);
      if out != [] {
        FoldNoEmpty([], Split(p));
        assert out[0] != "";
      }
    }
  }

  lemma {:induction false} FoldNoEmpty(out: seq<string>, parts: seq<string>)
    requires "" !in out
    ensures "" !in Fold(out, parts, false)
    decreases |parts|
  {
    if parts != [] {
      FoldNoEmpty(Push(out, parts[0], false), parts[1..]);
    }
  }

  /** The directories the program visits when it walks up from `p`, `p` included. */
  function Chain(p: string): set<string>
    decreases if p == "." || p == "" then 0 else |p|
  {
    if p == "." || p == "" then {}
    else
      PathDirShorter(p);
      {p} + if PathDir(p) == p then {} else Chain(PathDir(p))
  }

  function Ancestors(p: string): set<string> {
    Chain(PathDir(p))
  }

  lemma {:induction false} ChainShort(p: string, a: string)
    requires a in Chain(p)
    ensures |a| <= |p|
    decreases if p == "." || p == "" then 0 else |p|
  {
    hide PathDir;
    PathDirShorter(p);
    if a != p {
      ChainShort(PathDir(p), a);
    }
  }

  // Clean relative paths

  predicate Under(p: string, dir: string) {
    HasPrefix(p, dir + "/")
  }

  lemma {:induction false} DirPartOf(dir: string, last: string)
    requires '/' !in last
    ensures DirPart(dir + "/" + last) == dir + "/"
    ensures DirPart(last) == ""
  {
    var p := dir + "/" + last;
    if last == "" {
      assert p == dir + "/";
    } else {
      DirPartOf(dir, last[..|last| - 1]);
      assert p[..|p| - 1] == dir + "/" + last[..|last| - 1];
    }
  }

  lemma CleanRelativeFixed(p: string)
    requires CleanRelative(p)
    ensures p != "" && p != "." && p[0] != '/' && Clean(p) == p
  {
    hide Join;
    JoinSplit(p);
    FoldNormal([], Split(p), false);
    assert [] + Split(p) == Split(p);
    assert Normal(Split(p)[0]);
    if p != "" {
      SplitCons(p[0], p[1..]);
      assert p == [p[0]] + p[1..];
    }
    SplitSingle(".");
    SplitSingle("");
  }

  /** A clean relative path is a single component, or its parent, a slash and a component. */
  lemma ParentAndName(p: string) returns (name: string)
    requires CleanRelative(p)
    ensures Normal(name)
    ensures PathDir(p) == "." ==> p == name
    ensures PathDir(p) != "." ==> p == PathDir(p) + "/" + name && CleanRelative(PathDir(p))
  {
    hide Join, Split, Fold, Clean, DirPart;
    var cs := Split(p);
    name := cs[|cs| - 1];
    JoinSplit(p);
    assert cs == cs[..|cs| - 1] + [name];
    if |cs| == 1 {
      assert cs == [name];
      JoinOne(name);
      DirPartOf("", name);
      CleanEmpty();
    } else {
      var front := cs[..|cs| - 1];
      JoinConcat(front, [name]);
      JoinOne(name);
      DirPartOf(Join(front), name);
      SplitJoin(front);
      CleanRelativeFixed(Join(front));
      CleanTrailingSlash(Join(front));
    }
  }

  lemma JoinOne(c: string)
    ensures Join([c]) == c
  {
  }

  lemma CleanEmpty()
    ensures Clean("") == "."
  {
  }

  lemma UnderChild(dir: string, name: string, d: string)
    requires '/' !in name
    ensures Under(dir + "/" + name, d) <==> d == dir || Under(dir, d)
    ensures !Under(name, d)
  {
    var p := dir + "/" + name;
    assert (d + "/")[|d|] == '/';
    assert forall i | 0 <= i < |name| :: name[i] != '/';
    assert forall i | |dir| < i < |p| :: p[i] == name[i - |dir| - 1] != '/';
    if Under(p, d) {
      assert p[..|d| + 1][|d|] == '/';
      if |d| == |dir| {
        assert d == p[..|d|] == dir;
      } else {
        assert dir[..|d| + 1] == p[..|d| + 1] == d + "/";
      }
    }
    if Under(dir, d) {
      assert p[..|d| + 1] == dir[..|d| + 1];
    }
    assert |d| < |name| ==> name[..|d| + 1][|d|] != '/';
  }

  /** The directories met on the way up are exactly those the path starts with. */
  lemma {:induction false} AncestorsAreUnder(p: string)
    requires CleanRelative(p)
    ensures forall d :: d in Ancestors(p) <==> Under(p, d)
    decreases |p|
  {
    hide Under, Clean, CleanRelative;
    var name := ParentAndName(p);
    var dir := PathDir(p);
    if dir == "." {
      forall d ensures !Under(p, d) { UnderChild("", name, d); }
    } else {
      AncestorsAreUnder(dir);
      CleanRelativeFixed(dir);
      PathDirShorter(dir);
      var up := ParentAndName(dir);
      forall d ensures Under(p, d) <==> d == dir || Under(dir, d) { UnderChild(dir, name, d); }
    }
  }

  lemma UnderTransitive(p: string, d: string, e: string)
    requires Under(p, d) && Under(d, e)
    ensures Under(p, e)
  {
    assert p[..|e| + 1] == p[..|d| + 1][..|e| + 1];
    assert (d + "/")[..|e| + 1] == d[..|e| + 1];
  }

  /** Two directories a path lies under lie on one line. */
  lemma UnderComparable(p: string, d: string, e: string)
    requires Under(p, d) && Under(p, e)
    ensures d == e || Under(d, e) || Under(e, d)
  {
    if |d| == |e| {
      assert d == p[..|d|] && e == p[..|e|];
    } else if |d| > |e| {
      assert d == p[..|d| + 1][..|d|];
      assert d[..|e| + 1] == p[..|e| + 1];
    } else {
      assert e == p[..|e| + 1][..|e|];
      assert e[..|d| + 1] == p[..|d| + 1];
    }
  }

  lemma CleanUnder(p: string, d: string)
    requires CleanRelative(p) && Under(p, d)
    ensures CleanRelative(d) && CleanRelative(p[|d| + 1..])
    ensures p == d + "/" + p[|d| + 1..]
  {
    hide Split;
    var rest := p[|d| + 1..];
    assert p == d + "/" + rest;
    SplitConcat(d, rest);
  }

  lemma CleanConcat(d: string, rest: string)
    requires CleanRelative(d) && CleanRelative(rest)
    ensures CleanRelative(d + "/" + rest)
  {
    hide Split;
    SplitConcat(d, rest);
  }
}
