/**
 What cleaning a path means, in laws about the text of the path: empty names and dots go, a name and
 the parent step after it go, parent steps at the top of an absolute path go, and what has none of
 these stays as it is.  Every path can be brought into that last form by the laws before it, so they
 leave no choice of what cleaning gives.
 */
module PathLaws {
  import opened Paths
  import opened PathTree
  import opened PathBelow

  // Prefixes and suffixes

  lemma PrefixMeans(s: string, prefix: string)
    ensures HasPrefix(s, prefix) <==> exists rest :: s == prefix + rest
    ensures TrimPrefix(prefix + s, prefix) == s
    ensures !HasPrefix(s, prefix) ==> TrimPrefix(s, prefix) == s
  {
    if HasPrefix(s, prefix) {
      assert s == prefix + s[|prefix|..];
    }
    if rest :| s == prefix + rest {
      assert s[..|prefix|] == prefix;
    }
    assert (prefix + s)[..|prefix|] == prefix && (prefix + s)[|prefix|..] == s;
  }

  lemma SuffixMeans(s: string, suffix: string)
    ensures HasSuffix(s, suffix) <==> exists front :: s == front + suffix
  {
    if HasSuffix(s, suffix) {
      assert s == s[..|s| - |suffix|] + suffix;
    }
    if front :| s == front + suffix {
      assert s[|s| - |suffix|..] == suffix;
    }
  }

  lemma SlashesMean(p: string)
    ensures |NormaliseSlashes(p)| == |p|
    ensures forall i | 0 <= i < |p| :: NormaliseSlashes(p)[i] == if p[i] == '\\' then '/' else p[i]
  {
  }

  // Folding

  /** Parts that leave every list of components as it is can be left out. */
  lemma FoldWithout(out: seq<string>, a: seq<string>, idle: seq<string>, b: seq<string>, rooted: bool)
    requires Fold(Fold(out, a, rooted), idle, rooted) == Fold(out, a, rooted)
    ensures Fold(out, a + idle + b, rooted) == Fold(out, a + b, rooted)
  {
    hide Fold;
    FoldConcat(out, a + idle, b, rooted);
    FoldConcat(out, a, idle, rooted);
    FoldConcat(out, a, b, rooted);
  }

  lemma FoldIdle(out: seq<string>, name: string, rooted: bool)
    ensures Fold(out, [""], rooted) == out && Fold(out, ["."], rooted) == out
    ensures Normal(name) ==> Fold(out, [name, ".."], rooted) == out
    ensures Fold([], [".."], true) == []
  {
    assert Fold(out, [""], rooted) == Fold(out, [], rooted);
    assert Fold(out, ["."], rooted) == Fold(out, [], rooted);
    if Normal(name) {
      assert [name, ".."][1..] == [".."] && [".."][1..] == [];
      assert Fold(out, [name, ".."], rooted) == Fold(out + [name], [".."], rooted);
      assert Fold(out + [name], [".."], rooted) == Fold(out, [], rooted) by {
        assert (out + [name])[..|out + [name]| - 1] == out;
      }
    }
    assert Fold([], [".."], true) == Fold([], [], true);
  }

  // Cleaning

  lemma CleanIs(p: string)
    ensures p != "" ==> Clean(p) == Render(Fold([], Split(p), p[0] == '/'), p[0] == '/')
    ensures Clean("") == "."
  {
  }

  /** Two paths with the same start and the same components left over clean to the same. */
  lemma SameClean(p: string, q: string)
    requires p != "" && q != "" && p[0] == q[0]
    requires Fold([], Split(p), p[0] == '/') == Fold([], Split(q), q[0] == '/')
    ensures Clean(p) == Clean(q)
  {
    hide Split, Fold, Render;
    CleanIs(p);
    CleanIs(q);
  }

  /** Whatever stands idly between two slashes goes. */
  lemma CleanWithout(a: string, idle: string, b: string)
    requires forall out, rooted :: Fold(out, Split(idle), rooted) == out
    ensures Clean(a + "/" + idle + "/" + b) == Clean(a + "/" + b)
  {
    hide Split, Fold, Clean;
    var (p, q) := (a + "/" + idle + "/" + b, a + "/" + b);
    assert p[0] == q[0] == if a == "" then '/' else a[0];
    SplitConcat(a + "/" + idle, b);
    SplitConcat(a, idle);
    SplitConcat(a, b);
    FoldWithout([], Split(a), Split(idle), Split(b), p[0] == '/');
    SameClean(p, q);
  }

  lemma CleanDropsDots(a: string, b: string)
    ensures Clean(a + "/./" + b) == Clean(a + "/" + b)
    ensures Clean(a + "//" + b) == Clean(a + "/" + b)
  {
    hide Split, Fold, Clean;
    SplitSingle(".");
    SplitSingle("");
    forall out: seq<string>, rooted ensures Fold(out, ["."], rooted) == out && Fold(out, [""], rooted) == out {
      FoldIdle(out, "", rooted);
    }
    CleanWithout(a, ".", b);
    CleanWithout(a, "", b);
    assert a + "/" + "." + "/" + b == a + "/./" + b && a + "/" + "" + "/" + b == a + "//" + b;
  }

  /** A name and the parent step after it cancel. */
  lemma CleanCancels(a: string, name: string, b: string)
    requires Normal(name)
    ensures Clean(a + "/" + name + "/../" + b) == Clean(a + "/" + b)
  {
    hide Split, Fold, Clean;
    SplitConcat(name, "..");
    SplitSingle(name);
    SplitSingle("..");
    assert [name] + [".."] == [name, ".."];
    forall out: seq<string>, rooted ensures Fold(out, [name, ".."], rooted) == out {
      FoldIdle(out, name, rooted);
    }
    CleanWithout(a, name + "/" + "..", b);
    assert a + "/" + (name + "/" + "..") + "/" + b == a + "/" + name + "/../" + b;
  }

  /** There is nothing above the top. */
  lemma CleanTop(b: string)
    ensures Clean("/../" + b) == Clean("/" + b)
  {
    hide Split, Fold, Clean;
    var (p, q) := ("/../" + b, "/" + b);
    assert p == "/.." + "/" + b && "/.." == "" + "/" + ".." && q == "" + "/" + b;
    SplitConcat("/..", b);
    SplitConcat("", "..");
    SplitConcat("", b);
    SplitSingle("");
    SplitSingle("..");
    FoldIdle([], "", true);
    assert Fold([], [""], true) == [];
    FoldWithout([], [""], [".."], Split(b), true);
    SameClean(p, q);
  }

  /** The same at the end of a path. */
  lemma CleanEnds(p: string, name: string)
    requires p != "" && Normal(name)
    ensures Clean(p + "/") == Clean(p) && Clean(p + "/.") == Clean(p) && Clean(p + "/" + name + "/..") == Clean(p)
  {
    hide Split, Fold, Clean;
    var rooted := p[0] == '/';
    SplitSingle("");
    SplitSingle(".");
    SplitSingle("..");
    SplitSingle(name);
    SplitConcat(p, "");
    SplitConcat(p, ".");
    SplitConcat(p + "/" + name, "..");
    SplitConcat(p, name);
    assert p + "/" + "" == p + "/" && p + "/" + "." == p + "/." && p + "/" + name + "/" + ".." == p + "/" + name + "/..";
    var out := Fold([], Split(p), rooted);
    FoldIdle(out, name, rooted);
    FoldConcat([], Split(p), [""], rooted);
    FoldConcat([], Split(p), ["."], rooted);
    FoldConcat([], Split(p), [name, ".."], rooted);
    assert Split(p) + [name] + [".."] == Split(p) + [name, ".."];
    SameClean(p + "/", p);
    SameClean(p + "/.", p);
    SameClean(p + "/" + name + "/..", p);
  }

  /** Clean components are kept, in order, after parent steps of a relative path or after the first slash. */
  lemma CleanKeeps(steps: seq<string>, rooted: bool)
    requires (forall c :: c in steps ==> Normal(c) || (c == ".." && !rooted))
    requires forall i, j | 0 <= i < j < |steps| :: steps[j] == ".." ==> steps[i] == ".."
    requires steps != []
    ensures Clean(if rooted then "/" + Join(steps) else Join(steps)) == if rooted then "/" + Join(steps) else Join(steps)
  {
    hide Split, Fold, Clean, Join;
    TidyRender(steps, rooted);
    RenderIs(steps, rooted);
  }

  /** Joining passes over empty parts, and of nothing makes nothing. */
  lemma JoinMeans(a: string, b: string)
    requires a != "" && b != ""
    ensures PathJoin([a, b]) == Clean(a + "/" + b)
    ensures PathJoin([a, ""]) == PathJoin(["", a]) == PathJoin([a]) == Clean(a)
    ensures PathJoin([]) == PathJoin([""]) == PathJoin(["", ""]) == ""
  {
    hide Clean;
    assert NonEmpty([]) == [];
    assert [a][1..] == [] && [b][1..] == [] && [""][1..] == [];
    assert NonEmpty([a]) == [a] && NonEmpty([b]) == [b] && NonEmpty([""]) == [];
    assert [a, b][1..] == [b] && [a, ""][1..] == [""] && ["", a][1..] == [a] && ["", ""][1..] == [""];
    assert NonEmpty([a, b]) == [a, b] && NonEmpty([a, ""]) == [a] && NonEmpty(["", a]) == [a] && NonEmpty(["", ""]) == [];
    assert Join([a, b]) == a + "/" + b && Join([a]) == a;
  }

  lemma CleanIdempotent(p: string)
    ensures Clean(Clean(p)) == Clean(p)
  {
    hide Split, Fold, Clean, Render;
    CleanIs(p);
    if p == "" {
      TidyRender([], false);
      assert Render([], false) == "." by { DotRendered(); }
    } else {
      FoldTidy([], Split(p), p[0] == '/');
      TidyRender(Fold([], Split(p), p[0] == '/'), p[0] == '/');
    }
  }

  lemma DotRendered()
    ensures Render([], false) == "."
  {
  }

  // Bases and parents

  /** The base is what follows the last slash; slashes at the end do not count. */
  lemma BaseMeans(dir: string, name: string)
    requires name != "" && '/' !in name
    ensures PathBase(dir + "/" + name) == name && PathBase(name) == name
    ensures PathBase(dir + "/" + name + "/") == name
    ensures PathBase("") == "." && PathBase("/") == "/"
    ensures PathDir(dir + "/" + name) == Clean(dir + "/") && PathDir(name) == "."
  {
    hide Split, Fold, Join, Clean;
    var p := dir + "/" + name;
    DirPartOf(dir, name);
    assert p[|p| - 1] == name[|name| - 1] && name[|name| - 1] in name;
    assert (p + "/")[..|p|] == p;
    TrimNothing(p);
    TrimNothing(name);
    assert TrimTrailingSlashes(p + "/") == p;
    ParentOfNothing();
    CleanEmpty();
    assert p[|dir + "/"|..] == name;
  }

  /** Walking up from a path below a directory meets the directory, and then what lies above that. */
  lemma AncestorsBelow(dir: string, name: string)
    requires name != "" && '/' !in name
    ensures Clean(dir) == dir && dir != "/" && dir != "." ==> Ancestors(dir + "/" + name) == Ancestors(dir) + {dir}
    ensures Ancestors("/" + name) == {"/"} && Ancestors(name) == {}
  {
    hide Split, Fold, Clean, PathDir, PathBase;
    BaseMeans(dir, name);
    BaseMeans("", name);
    assert "" + "/" + name == "/" + name && "" + "/" == "/";
    CleanSlash();
    ParentOfNothing();
    if Clean(dir) == dir && dir != "/" && dir != "." {
      CleanEmpty();
      CleanEnds(dir, "n");
      OwnParent(dir);
    }
  }
}
