/**
 Joining a caller's path to a clean directory.  The caller may write dots, double slashes and
 parent steps; the join is cleaned lexically, and the program then tests whether the result starts
 with the directory and a slash.  What passes that test is the directory, a slash and a clean
 relative path, so nothing outside the directory can be named, whatever the caller put in.
 */
module PathBelow {
  import opened Paths
  import opened PathTree

  function LastPart(p: string): string {
    Split(p)[|Split(p)| - 1]
  }

  /** A clean path that ends in an ordinary component: not `/`, not `.`, not made of `..` alone. */
  predicate CleanDirectory(p: string) {
    Clean(p) == p && Normal(LastPart(p))
  }

  /** A relative path without a parent step cleans to nothing or to a clean relative path. */
  lemma CleanWithoutParent(p: string)
    requires p != "" && p[0] != '/' && ".." !in Split(p)
    ensures Clean(p) == "." || CleanRelative(Clean(p))
  {
    hide Split, Fold, Join;
    FoldNoParent([], Split(p));
    var out := Fold([], Split(p), false);
    if out != [] {
      SplitJoin(out);
    }
  }

  function Rooted(p: string): bool {
    p != "" && p[0] == '/'
  }

  /** What is left of a path's components when it is cleaned. */
  function Steps(p: string): seq<string> {
    Fold([], Split(p), Rooted(p))
  }

  function Render(out: seq<string>, rooted: bool): string {
    if rooted then Abs(out) else if out == [] then "." else Join(out)
  }

  /** A parent step in what is left over only ever comes first. */
  ghost predicate DotsFirst(out: seq<string>) {
    (forall c :: c in out ==> Normal(c) || c == "..") &&
    forall i, j | 0 <= i < j < |out| :: out[j] == ".." ==> out[i] == ".."
  }

  ghost predicate Tidy(out: seq<string>, rooted: bool) {
    DotsFirst(out) && (rooted ==> ".." !in out)
  }

  lemma {:induction false} FoldTidy(out: seq<string>, parts: seq<string>, rooted: bool)
    requires Tidy(out, rooted)
    requires forall c :: c in parts ==> '/' !in c
    ensures Tidy(Fold(out, parts, rooted), rooted)
    decreases |parts|
  {
    hide Tidy;
    if parts != [] {
      assert parts[0] in parts;
      PushTidy(out, parts[0], rooted);
      FoldTidy(Push(out, parts[0], rooted), parts[1..], rooted);
    }
  }

  lemma PushTidy(out: seq<string>, part: string, rooted: bool)
    requires Tidy(out, rooted) && '/' !in part
    ensures Tidy(Push(out, part, rooted), rooted)
  {
    if part == ".." && (out == [] || out[|out| - 1] == "..") && !rooted {
      assert forall i | 0 <= i < |out| :: out[i] == "..";
    }
  }

  /** Tidy components are left alone. */
  lemma {:induction false} FoldTidyFixed(out: seq<string>, more: seq<string>, rooted: bool)
    requires Tidy(out + more, rooted)
    ensures Fold(out, more, rooted) == out + more
    decreases |more|
  {
    if more == [] {
      assert out + more == out;
    } else {
      var next := out + [more[0]];
      assert next + more[1..] == out + more;
      assert (out + more)[|out|] == more[0] && more[0] in out + more;
      if more[0] == ".." && out != [] {
        assert (out + more)[|out| - 1] == out[|out| - 1] == "..";
      }
      FoldTidyFixed(next, more[1..], rooted);
    }
  }

  /** Rendering tidy components gives a clean path with just these components. */
  lemma TidyRender(out: seq<string>, rooted: bool)
    requires Tidy(out, rooted)
    ensures var p := Render(out, rooted);
            Rooted(p) == rooted && Steps(p) == out && Clean(p) == p &&
            (out != [] ==> Split(p) == (if rooted then [""] else []) + out)
  {
    hide Split, Join, Fold;
    var p := Render(out, rooted);
    assert forall c :: c in out ==> '/' !in c && c != "";
    if rooted {
      assert forall c :: c in out ==> Normal(c);
      var cs: Components := out;
      FoldAbs(cs);
      SplitAbs(cs);
    } else if out == [] {
      SplitSingle(".");
      assert Fold([], ["."], false) == [] by { FoldDot(); }
    } else {
      SplitJoin(out);
      assert [] + out == out;
      FoldTidyFixed([], out, false);
      FirstOfJoin(out);
      assert out[0] in out && out[0][0] in out[0];
    }
  }

  lemma FoldDot()
    ensures Fold([], ["."], false) == []
  {
  }

  lemma FirstOfJoin(out: seq<string>)
    requires out != [] && out[0] != ""
    ensures Join(out) != "" && Join(out)[0] == out[0][0]
  {
  }

  /** A clean path is its components, rendered. */
  lemma CleanIsTidy(p: string)
    requires Clean(p) == p
    ensures Tidy(Steps(p), Rooted(p)) && p == Render(Steps(p), Rooted(p))
  {
    hide Split, Join, Fold;
    FoldTidy([], Split(p), Rooted(p));
  }

  /** Its last component is that of its string; it has none only when it is `/` or `.`. */
  lemma CleanLast(p: string)
    requires Clean(p) == p
    ensures Steps(p) == [] <==> p == "/" || p == "."
    ensures Steps(p) != [] ==> LastPart(p) == Steps(p)[|Steps(p)| - 1]
    ensures Steps(p) == [] ==> !Normal(LastPart(p))
  {
    hide Split, Join, Fold, Clean;
    CleanIsTidy(p);
    TidyRender(Steps(p), Rooted(p));
    TidyRender([], true);
    TidyRender([], false);
    SplitSingle(".");
    SplitSlash();
    assert Render([], true) == "/" by { RenderNothing(); }
    assert Render([], false) == ".";
  }

  lemma RenderNothing()
    ensures Render([], true) == "/"
  {
  }

  lemma SplitSlash()
    ensures Split("/") == ["", ""]
  {
  }

  lemma RenderInjective(a: seq<string>, b: seq<string>, rooted: bool)
    requires Tidy(a, rooted) && Tidy(b, rooted) && Render(a, rooted) == Render(b, rooted)
    ensures a == b
  {
    hide Render, Steps;
    TidyRender(a, rooted);
    TidyRender(b, rooted);
  }

  /** `core.Path(dir, part)` folds the components of the part onto those of the directory. */
  lemma JoinedSteps(dir: string, part: string)
    requires dir != ""
    ensures var out := Fold(Steps(dir), Split(part), Rooted(dir));
            PathJoin([dir, part]) == Render(out, Rooted(dir)) && Tidy(out, Rooted(dir))
  {
    hide Fold, Join, Split;
    FoldTidy([], Split(dir), Rooted(dir));
    FoldTidy(Steps(dir), Split(part), Rooted(dir));
    KeptTwo(dir, part);
    if part == "" {
      SplitSingle("");
      FoldOne(Steps(dir), Rooted(dir));
    } else {
      SplitConcat(dir, part);
      FoldConcat([], Split(dir), Split(part), Rooted(dir));
    }
  }

  lemma FoldOne(out: seq<string>, rooted: bool)
    ensures Fold(out, [""], rooted) == out
  {
  }

  lemma RenderConcat(cs: seq<string>, tail: seq<string>, rooted: bool)
    requires cs != [] && tail != []
    ensures Render(cs + tail, rooted) == Render(cs, rooted) + "/" + Join(tail)
  {
    hide Join;
    JoinConcat(cs, tail);
    Associative("/", Join(cs) + "/", Join(tail));
    Associative("/", Join(cs), "/");
  }

  /** The prefix test on strings is the prefix test on components, but nothing passes it below `/` or `.`. */
  lemma RenderPrefix(cs: seq<string>, out: seq<string>, rooted: bool)
    requires Tidy(cs, rooted) && Tidy(out, rooted)
    ensures HasPrefix(Render(out, rooted), Render(cs, rooted) + "/") <==> cs != [] && |cs| < |out| && out[..|cs|] == cs
    ensures cs != [] && |cs| < |out| && out[..|cs|] == cs ==>
              Render(out, rooted) == Render(cs, rooted) + "/" + Join(out[|cs|..])
  {
    hide Join, Split, Render;
    var (p, dir) := (Render(out, rooted), Render(cs, rooted));
    if cs != [] && |cs| < |out| && out[..|cs|] == cs {
      assert out == cs + out[|cs|..];
      RenderConcat(cs, out[|cs|..], rooted);
      PrefixOf(dir, Join(out[|cs|..]));
    }
    if HasPrefix(p, dir + "/") {
      PrefixIsSteps(cs, out, rooted);
    }
  }

  lemma PrefixOf(dir: string, rest: string)
    ensures HasPrefix(dir + "/" + rest, dir + "/")
  {
  }

  lemma PrefixIsSteps(cs: seq<string>, out: seq<string>, rooted: bool)
    requires Tidy(cs, rooted) && Tidy(out, rooted)
    requires HasPrefix(Render(out, rooted), Render(cs, rooted) + "/")
    ensures cs != [] && |cs| < |out| && out[..|cs|] == cs
  {
    hide Join, Split, Fold, Steps, Clean, Render;
    var (p, dir) := (Render(out, rooted), Render(cs, rooted));
    var rest := p[|dir| + 1..];
    assert p == dir + "/" + rest;
    SplitConcat(dir, rest);
    TidyRender(out, rooted);
    TidyRender(cs, rooted);
    RenderLength(out, rooted);
    var front := if rooted then [""] else [];
    assert Split(p) == front + out;
    SplitOfNothing(rooted);
    assert out != [] && out[0] in out && Split(p)[|front|] == out[0];
    assert cs != [];
    assert front + out == front + cs + Split(rest);
    assert out == (front + out)[|front|..] == cs + Split(rest);
  }

  lemma RenderLength(out: seq<string>, rooted: bool)
    ensures out == [] ==> |Render(out, rooted)| == 1
    ensures |Render([], rooted)| == 1
  {
  }

  lemma SplitOfNothing(rooted: bool)
    ensures Split(Render([], rooted)) == if rooted then ["", ""] else ["."]
  {
    SplitSlash();
    SplitSingle(".");
  }

  /** Where the directory part of a rendered path ends. */
  lemma RenderDirPart(front: seq<string>, name: string, rooted: bool)
    requires '/' !in name
    ensures DirPart(Render(front + [name], rooted)) ==
            if front == [] then (if rooted then "/" else "") else Render(front, rooted) + "/"
  {
    hide Join, DirPart;
    JoinOne(name);
    if front == [] {
      assert front + [name] == [name];
      assert "/" + name == "" + "/" + name;
      DirPartOf("", name);
      assert "" + "/" == "/";
    } else {
      RenderConcat(front, [name], rooted);
      hide Render;
      DirPartOf(Render(front, rooted), name);
    }
  }

  /** The parent of a path is its components without the last, and its base is the last. */
  lemma RenderParent(out: seq<string>, rooted: bool)
    requires Tidy(out, rooted) && out != []
    ensures PathDir(Render(out, rooted)) == Render(out[..|out| - 1], rooted)
    ensures PathBase(Render(out, rooted)) == out[|out| - 1]
  {
    var (front, name) := (out[..|out| - 1], out[|out| - 1]);
    assert out == front + [name] && name in out;
    assert Tidy(front, rooted);
    assert name != "" && '/' !in name;
    hide *;
    TidyRender(front, rooted);
    RenderDirPart(front, name, rooted);
    CleanEmpty();
    CleanSlash();
    RenderNothing();
    ParentOf(Render(out, rooted), front, name, rooted);
  }

  lemma ParentOf(p: string, front: seq<string>, name: string, rooted: bool)
    requires p == Render(front + [name], rooted) && name != "" && '/' !in name
    requires Clean(Render(front, rooted)) == Render(front, rooted)
    requires DirPart(p) == if front == [] then (if rooted then "/" else "") else Render(front, rooted) + "/"
    ensures PathDir(p) == Render(front, rooted) && PathBase(p) == name
  {
    hide Split, Fold, Join, Clean, DirPart;
    CleanEmpty();
    CleanSlash();
    RenderNothing();
    JoinOne(name);
    if front == [] {
      assert front + [name] == [name];
    } else {
      RenderConcat(front, [name], rooted);
      CleanTrailingSlash(Render(front, rooted));
    }
    assert p[|p| - 1] == name[|name| - 1] != '/';
    TrimNothing(p);
    assert p[|DirPart(p)|..] == name;
  }

  lemma CleanSlash()
    ensures Clean("/") == "/"
  {
  }

  /** The root and `.` are their own parents; no other clean path is its own. */
  lemma OwnParent(p: string)
    requires Clean(p) == p
    ensures PathDir(p) == p <==> p == "/" || p == "."
    ensures p == "/" || p == "." ==> PathBase(p) == p
  {
    hide Split, Fold, Join, Clean, DirPart, Render, Steps;
    CleanLast(p);
    CleanIsTidy(p);
    if Steps(p) == [] {
      ParentOfNothing();
    } else {
      var out := Steps(p);
      RenderParent(out, Rooted(p));
      assert Tidy(out[..|out| - 1], Rooted(p));
      if PathDir(p) == p {
        RenderInjective(out[..|out| - 1], out, Rooted(p));
      }
    }
  }

  lemma ParentOfNothing()
    ensures PathDir("/") == "/" && PathDir(".") == "." && PathBase("/") == "/" && PathBase(".") == "."
  {
    assert DirPart("/") == "/" && DirPart(".") == "";
    assert Clean("/") == "/" && Clean("") == ".";
  }

  /** Only a clean path is a clean path's prefix before a slash. */
  lemma PrefixOfCleanIsClean(p: string, dir: string)
    requires Clean(p) == p && dir != "" && HasPrefix(p, dir + "/")
    ensures Clean(dir) == dir
  {
    hide Join, Split, Fold, Clean, Render, Steps, Rooted;
    var (out, rooted) := (Steps(p), Rooted(p));
    CleanIsTidy(p);
    TidyRender(out, rooted);
    RenderLength(out, rooted);
    var rest := p[|dir| + 1..];
    assert p == dir + "/" + rest;
    SplitConcat(dir, rest);
    JoinSplit(dir);
    var parts := Split(dir);
    var front := if rooted then [""] else [];
    assert Split(p) == front + out == parts + Split(rest);
    if rooted && |parts| == 1 {
      assert parts == [Split(p)[0]] == [""];
      JoinOne("");
    }
    var cs := parts[|front|..];
    assert parts == front + cs by { assert rooted ==> parts[0] == Split(p)[0] == ""; }
    assert cs == (front + out)[|front|..|parts|] == out[..|cs|];
    assert Tidy(cs, rooted);
    if rooted {
      JoinCons("", cs);
      assert "" + "/" + Join(cs) == "/" + Join(cs);
    }
    RenderIs(cs, rooted);
    assert dir == Render(cs, rooted) by { assert parts == front + cs; assert !rooted ==> front + cs == cs; }
    TidyRender(cs, rooted);
  }

  lemma RenderIs(cs: seq<string>, rooted: bool)
    requires cs != []
    ensures Render(cs, rooted) == if rooted then "/" + Join(cs) else Join(cs)
  {
  }

  /** The clean relative rest of a join, when the result stays below a directory with an ordinary name. */
  lemma JoinedBelow(dir: string, part: string) returns (rest: string)
    requires CleanDirectory(dir) && HasPrefix(PathJoin([dir, part]), dir + "/")
    ensures CleanRelative(rest) && PathJoin([dir, part]) == dir + "/" + rest
  {
    hide Fold, Join, Split, Clean, Render, Steps;
    CleanIsTidy(dir);
    CleanLast(dir);
    CleanEmpty();
    JoinedSteps(dir, part);
    var cs, out := Steps(dir), Fold(Steps(dir), Split(part), Rooted(dir));
    RenderPrefix(cs, out, Rooted(dir));
    var tail := out[|cs|..];
    rest := Join(tail);
    forall c | c in tail ensures Normal(c) {
      var i :| 0 <= i < |tail| && tail[i] == c;
      assert out[|cs| + i] == c && out[|cs| - 1] == cs[|cs| - 1] != "..";
      assert c in out;
    }
    SplitJoin(tail);
  }

  /** A clean relative path is a clean directory, and so is one below another. */
  lemma CleanDirectoryBelow(dir: string, rest: string)
    requires CleanRelative(rest)
    ensures CleanDirectory(rest)
    ensures CleanDirectory(dir) ==> CleanDirectory(dir + "/" + rest)
  {
    hide Split, Join, Fold, Clean, Render, Steps;
    CleanRelativeFixed(rest);
    assert LastPart(rest) in Split(rest);
    if CleanDirectory(dir) {
      CleanIsTidy(dir);
      CleanLast(dir);
      var (cs, tail) := (Steps(dir), Split(rest));
      assert Tidy(cs + tail, Rooted(dir)) by { TidyBelow(cs, tail, Rooted(dir)); }
      JoinSplit(rest);
      RenderConcat(cs, tail, Rooted(dir));
      TidyRender(cs + tail, Rooted(dir));
      SplitConcat(dir, rest);
    }
  }

  lemma TidyBelow(cs: seq<string>, tail: Components, rooted: bool)
    requires Tidy(cs, rooted)
    ensures Tidy(cs + tail, rooted)
  {
    var out := cs + tail;
    forall j | |cs| <= j < |out| ensures Normal(out[j]) {
      assert out[j] == tail[j - |cs|] && tail[j - |cs|] in tail;
    }
  }

  /** Joining a clean relative path is plain concatenation. */
  lemma JoinClean(dir: string, rest: string)
    requires CleanDirectory(dir) && CleanRelative(rest)
    ensures PathJoin([dir, rest]) == dir + "/" + rest
  {
    hide Clean, CleanRelative, Split;
    CleanRelativeFixed(rest);
    CleanDirectoryBelow(dir, rest);
    assert dir != "" by { CleanEmpty(); }
    KeptTwo(dir, rest);
  }

  lemma KeptTwo(a: string, b: string)
    requires a != ""
    ensures PathJoin([a, b]) == Clean(if b == "" then a else a + "/" + b)
  {
    assert [a, b][1..] == [b];
    assert NonEmpty([b]) == if b == "" then [] else [b];
    if b == "" {
      assert NonEmpty([a, b]) == [a];
    } else {
      assert NonEmpty([a, b]) == [a, b];
      assert Join([a, b]) == a + "/" + b;
    }
  }

  lemma NormalIsClean(name: string)
    requires Normal(name)
    ensures CleanRelative(name)
  {
    SplitSingle(name);
  }

  lemma TrimNothing(p: string)
    requires p != "" && p[|p| - 1] != '/'
    ensures TrimTrailingSlashes(p) == p
  {
  }

  /** The part before the first slash is determined. */
  lemma FirstSlash(a: string, x: string, b: string, y: string)
    requires '/' !in a && '/' !in b && a + "/" + x == b + "/" + y
    ensures a == b && x == y
  {
    var s := a + "/" + x;
    assert s[|a|] == '/' && (b + "/" + y)[|b|] == '/';
    assert forall i | 0 <= i < |a| :: s[i] == a[i] != '/';
    assert forall i | 0 <= i < |b| :: (b + "/" + y)[i] == b[i] != '/';
    assert |a| == |b|;
    assert a == s[..|a|] && b == (b + "/" + y)[..|b|];
    assert x == s[|a| + 1..] && y == (b + "/" + y)[|b| + 1..];
  }

  // Relative paths walked from the top

  /** Cleaned as a relative path, the same names come after parent steps that cleaning at the top drops. */
  lemma {:induction false} FoldFromTop(dots: seq<string>, names: Components, parts: seq<string>)
    returns (more: seq<string>, kept: Components)
    requires (forall c :: c in dots ==> c == "..") && forall c :: c in parts ==> '/' !in c
    ensures forall c :: c in more ==> c == ".."
    ensures Fold(dots + names, parts, false) == more + kept && Fold(names, parts, true) == kept
    decreases |parts|
  {
    if parts == [] {
      more, kept := dots, names;
    } else {
      assert parts[0] in parts && forall c :: c in parts[1..] ==> c in parts;
      var d, n := PushFromTop(dots, names, parts[0]);
      more, kept := FoldFromTop(d, n, parts[1..]);
    }
  }

  lemma PushFromTop(dots: seq<string>, names: Components, part: string) returns (d: seq<string>, n: Components)
    requires (forall c :: c in dots ==> c == "..") && '/' !in part
    ensures forall c :: c in d ==> c == ".."
    ensures Push(dots + names, part, false) == d + n && Push(names, part, true) == n
  {
    var all := dots + names;
    d, n := dots, names;
    if part == ".." {
      if names == [] {
        d := dots + [".."];
        assert all == dots;
        assert dots != [] ==> dots[|dots| - 1] in dots;
      } else {
        n := names[..|names| - 1];
        assert all[|all| - 1] == names[|names| - 1] && names[|names| - 1] in names;
        assert all[..|all| - 1] == dots + n;
      }
      assert d + n == Push(all, part, false);
    } else if part != "" && part != "." {
      n := names + [part];
      assert all + [part] == dots + n;
    }
  }

  /** The components of a cleaned relative path: dots, then the names it has when walked from the top. */
  lemma RelativeParts(path: string) returns (dots: seq<string>)
    requires path == "" || path[0] != '/'
    ensures forall c :: c in dots ==> c == "." || c == ".."
    ensures var clean := PathJoin([path]);
            NonEmpty(Split(clean)) == dots + Fold([], Split(path), true) &&
            !HasPrefix(clean, "/") && PathJoin([clean]) == clean
  {
    var clean := PathJoin([path]);
    assert NonEmpty([path]) == if path == "" then [] else [path];
    if path == "" {
      dots := [];
      assert Split("") == [""] && NonEmpty([""]) == [] && Fold([], [""], true) == [];
    } else {
      var names: Components;
      dots, names := FoldFromTop([], [], Split(path));
      var none: seq<string> := [];
      assert none + none == none;
      assert clean == Clean(path) == Render(dots + names, false);
      RelativeRender(dots, names);
      if dots + names == [] {
        dots := ["."];
      }
    }
  }

  lemma DotsThenNames(dots: seq<string>, names: Components)
    requires forall c :: c in dots ==> c == ".."
    ensures Tidy(dots + names, false)
  {
    var out := dots + names;
    forall i | 0 <= i < |out| ensures if i < |dots| then out[i] == ".." else Normal(out[i]) {
      assert i < |dots| ==> dots[i] in dots;
      assert i >= |dots| ==> names[i - |dots|] in names;
    }
    assert !Normal("..");
  }

  lemma RelativeRender(dots: seq<string>, names: Components)
    requires forall c :: c in dots ==> c == ".."
    ensures var (out, clean) := (dots + names, Render(dots + names, false));
            NonEmpty(Split(clean)) == (if out == [] then ["."] else out) &&
            !HasPrefix(clean, "/") && PathJoin([clean]) == clean
  {
    hide Split, Fold, Render, Clean, Steps, DotsFirst, Join, Normal;
    var (out, clean) := (dots + names, Render(dots + names, false));
    DotsThenNames(dots, names);
    TidyRender(out, false);
    RenderNotEmpty(out);
    assert [] + out == out;
    NonEmptyAll(out);
    assert NonEmpty([clean]) == [clean];
    assert !HasPrefix(clean, "/") by { assert !Rooted(clean); }
    JoinOne(clean);
  }

  lemma RenderNotEmpty(out: seq<string>)
    requires Tidy(out, false)
    ensures Render(out, false) != "" && forall c :: c in out ==> c != ""
    ensures out == [] ==> NonEmpty(Split(Render(out, false))) == ["."]
  {
    assert forall c :: c in out ==> c != "";
    if out != [] {
      assert out[0] in out;
    } else {
      SplitSingle(".");
      assert NonEmpty(["."]) == ["."];
    }
  }
}
