/**
 Concrete inputs at which a layer does less than one might expect.  Each is reached from an empty
 medium or an empty node tree by a few ordinary calls, and each belongs to a theorem elsewhere that
 says for all inputs when the layer does what one expects; the lemmas here only show that the other
 side of such a condition is not empty.
 */
module Counterexamples {
  import opened Paths
  import opened PathTree
  import opened PrefixMaps
  import opened MemoryState
  import opened MemoryTree
  import NodeState
  import NodeListing
  import NodeListingOrder
  import CubeState
  import ArchiveWalk
  import ArchiveExtract

  lemma Names()
    ensures CleanRelative("a") && CleanRelative("a/b") && CleanRelative("x") && CleanRelative("x/y") && CleanRelative("d/d") &&
            CleanRelative("d") && CleanRelative("a\\b")
    ensures Ancestors("a") == {} && Ancestors("x") == {} && Ancestors("d") == {} && Ancestors("a\\b") == {}
    ensures Ancestors("a/b") == {"a"} && Ancestors("x/y") == {"x"} && Ancestors("d/d") == {"d"}
  {
    hide Ancestors, CleanRelative;
    TopName("a");
    TopName("x");
    TopName("d");
    TopName("a\\b");
    assert "a" + "/" + "b" == "a/b" && "x" + "/" + "y" == "x/y" && "d" + "/" + "d" == "d/d";
    TwoNames("a", "b");
    TwoNames("x", "y");
    TwoNames("d", "d");
  }

  lemma UnderSlash(p: string, d: string)
    ensures Under(p, d) ==> |d| < |p| && p[|d|] == '/' && p[..|d|] == d
  {
    if Under(p, d) {
      assert p[|d|] == (d + "/")[|d|];
    }
  }

  lemma TopName(p: string)
    requires Normal(p)
    ensures CleanRelative(p) && Ancestors(p) == {}
  {
    hide Ancestors, Under;
    SplitSingle(p);
    AncestorsAreUnder(p);
    forall d ensures !Under(p, d) {
      UnderSlash(p, d);
    }
  }

  lemma OneSlash(a: string, b: string, i: nat)
    requires '/' !in a && '/' !in b && i < |a + "/" + b|
    ensures (a + "/" + b)[i] == '/' ==> i == |a|
  {
    var p := a + "/" + b;
    if i < |a| {
      assert p[i] == a[i] && a[i] in a;
    } else if i > |a| {
      assert p[i] == b[i - |a| - 1] && b[i - |a| - 1] in b;
    }
  }

  lemma TwoNames(a: string, b: string)
    requires Normal(a) && Normal(b)
    ensures CleanRelative(a + "/" + b) && Ancestors(a + "/" + b) == {a}
  {
    hide Ancestors, Under, Split;
    SplitConcat(a, b);
    SplitSingle(a);
    SplitSingle(b);
    AncestorsAreUnder(a + "/" + b);
    forall d ensures Under(a + "/" + b, d) <==> d == a {
      OnlyAncestor(a, b, d);
    }
  }

  lemma OnlyAncestor(a: string, b: string, d: string)
    requires '/' !in a && '/' !in b
    ensures Under(a + "/" + b, d) <==> d == a
  {
    var p := a + "/" + b;
    assert p[..|a| + 1] == a + "/" && p[..|a|] == a;
    UnderSlash(p, d);
    if |d| < |p| {
      OneSlash(a, b, |d|);
    }
  }

  /** The first file of a medium. */
  lemma FirstWrite(p: string, content: Bytes, now: Time)
    ensures WriteMode(EMPTY, p, content, DEFAULT_MODE, now) ==
            Step(Done, Mem(map[p := content], map[p := DEFAULT_MODE], Ancestors(p), map[p := now]))
  {
    hide Ancestors;
    assert !HasFileAncestor(EMPTY, p);
    assert {} + Ancestors(p) == Ancestors(p);
  }

  /** A directory, or a file below, put where a file is. */
  lemma DirectoryOverFile(content: Bytes, data: Bytes, now: Time)
    ensures var m := WriteMode(EMPTY, "a", content, DEFAULT_MODE, now).mem;
            Tree(m) && "a" in m.files &&
            "a" in EnsureDir(m, "a/b").mem.files && "a" in EnsureDir(m, "a/b").mem.dirs &&
            "a" in CloseWriter(m, "a/b", data, DEFAULT_MODE, now).mem.files &&
            "a" in CloseWriter(m, "a/b", data, DEFAULT_MODE, now).mem.dirs
  {
    hide Ancestors, CleanRelative;
    Names();
    FirstWrite("a", content, now);
  }

  lemma ChildName(p: string, name: string)
    requires CleanRelative(p) && Normal(name)
    ensures CleanRelative(p + "/" + name) && Ancestors(p + "/" + name) == Ancestors(p) + {p}
  {
    hide Ancestors, Under, Split;
    SplitConcat(p, name);
    SplitSingle(name);
    AncestorsAreUnder(p);
    AncestorsAreUnder(p + "/" + name);
    forall d ensures Under(p + "/" + name, d) <==> d == p || Under(p, d) {
      UnderChild(p, name, d);
    }
  }

  lemma UnderChild(p: string, name: string, d: string)
    requires '/' !in name
    ensures Under(p + "/" + name, d) <==> d == p || Under(p, d)
  {
    var q := p + "/" + name;
    assert q[..|p| + 1] == p + "/" && q[..|p|] == p;
    UnderSlash(q, d);
    if |p| < |d| < |q| {
      assert q[|d|] == name[|d| - |p| - 1] && name[|d| - |p| - 1] in name;
    }
    if |d| < |p| {
      assert q[..|d| + 1] == p[..|d| + 1];
    }
  }

  lemma DeepNames()
    ensures CleanRelative("a") && CleanRelative("a/b") && CleanRelative("a/b/b") && CleanRelative("a/b/b/b") &&
            CleanRelative("a/b/b/x") && CleanRelative("a/b/b/b/x")
    ensures Ancestors("a") == {} && Ancestors("a/b") == {"a"} && Ancestors("a/b/b") == {"a", "a/b"}
    ensures Ancestors("a/b/b/b") == {"a", "a/b", "a/b/b"} && Ancestors("a/b/b/x") == {"a", "a/b", "a/b/b"}
    ensures Ancestors("a/b/b/b/x") == {"a", "a/b", "a/b/b", "a/b/b/b"}
  {
    hide Ancestors, CleanRelative;
    TopName("a");
    assert "a" + "/" + "b" == "a/b" && "a/b" + "/" + "b" == "a/b/b" && "a/b/b" + "/" + "b" == "a/b/b/b";
    assert "a/b/b" + "/" + "x" == "a/b/b/x" && "a/b/b/b" + "/" + "x" == "a/b/b/b/x";
    ChildName("a", "b");
    ChildName("a/b", "b");
    ChildName("a/b/b", "b");
    ChildName("a/b/b", "x");
    ChildName("a/b/b/b", "x");
  }

  /** A file at `a/b/b/b/x` in directories that were ensured. */
  ghost function DeepMedium(content: Bytes, now: Time): Mem {
    WriteMode(EnsureDir(EMPTY, "a/b/b/b").mem, "a/b/b/b/x", content, DEFAULT_MODE, now).mem
  }

  lemma DeepMediumIs(content: Bytes, now: Time)
    ensures var (m, f) := (DeepMedium(content, now), "a/b/b/b/x");
            m == Mem(map[f := content], map[f := DEFAULT_MODE], {"a", "a/b", "a/b/b", "a/b/b/b"}, map[f := now]) && Tree(m)
  {
    DeepNames();
    hide Ancestors, CleanRelative;
    var ensured := EnsureDir(EMPTY, "a/b/b/b").mem;
    assert ensured.dirs == {"a", "a/b", "a/b/b", "a/b/b/b"} && !HasFileAncestor(ensured, "a/b/b/b/x");
    assert |"a/b/b/b/x"| == 9 && |"a/b/b/b"| == 7 && |"a/b/b"| == 5 && |"a/b"| == 3 && |"a"| == 1;
    assert DeepMedium(content, now).dirs == ensured.dirs;
  }

  ghost predicate Outcome(m: Mem, from: string, to: string, orders: Orders, tree: bool) {
    LegalOrders(m, from, to, orders) && (Tree(RenameDirectory(m, from, to, orders)) <==> tree)
  }

  /**
   Renaming `a/b` up to `a` with a file at `a/b/b/b/x`: in one order of the map the new directory of
   the file is lost, in another it is not.
   */
  lemma UpwardRenameOrderShows(content: Bytes, now: Time)
    ensures var m := DeepMedium(content, now);
            Tree(m) &&
            (exists orders :: Outcome(m, "a/b", "a", orders, true)) && (exists orders :: Outcome(m, "a/b", "a", orders, false))
  {
    DeepMediumIs(content, now);
    hide *;
    SomeOrderBreaks(DeepMedium(content, now));
    SomeOrderKeeps(DeepMedium(content, now), content, now);
  }

  lemma SomeOrderBreaks(m: Mem)
    requires Tree(m) && m.dirs == {"a", "a/b", "a/b/b", "a/b/b/b"} && "a/b/b/b/x" in m.files
    ensures exists orders :: Outcome(m, "a/b", "a", orders, false)
  {
    hide *;
    DeepNames();
    ShiftedRest("a/b", "a", "b/b");
    ShiftedRest("a/b", "a", "b");
    ShiftedRest("a/b/b/b", "a", "x");
    assert "a/b" + "/" + "b/b" == "a/b/b/b" && "a/b" + "/" + "b" == "a/b/b" && "a/b/b/b" + "/" + "x" == "a/b/b/b/x";
    assert "a" + "/" + "b/b" == "a/b/b";
    assert |"a"| == 1 && |"a/b"| == 3;
    ChainIs(m, "a/b", "a", "a/b/b/b", "a/b/b/b/x");
    BreakingIsOutcome(m, "a/b", "a");
  }

  lemma ShiftedRest(from: string, to: string, rest: string)
    ensures Under(from + "/" + rest, from) && Shifted(from + "/" + rest, from, to) == to + "/" + rest
  {
    UnderRest(from, rest);
  }

  lemma ChainIs(m: Mem, from: string, to: string, d: string, p: string)
    requires d in m.dirs && Under(d, from) && Shifted(d, from, to) in m.dirs && Under(Shifted(d, from, to), from)
    requires p in m.files && Under(p, d)
    ensures !ChainsEmpty(m, from, to)
  {
    hide Under, Shifted;
    assert Chained(m, from, to, d) && Stored(m, p);
  }

  lemma UpwardPrefixes()
    ensures ChildPrefix("a/b") == "a/b/" && ChildPrefix("a") == "a/"
  {
    hide CleanRelative, ChildPrefix, Ancestors;
    DeepNames();
    ChildPrefixOfClean("a/b");
    ChildPrefixOfClean("a");
    assert "a/b" + "/" == "a/b/" && "a" + "/" == "a/";
  }

  lemma BreakingIsOutcome(m: Mem, from: string, to: string)
    requires from != to && !ChainsEmpty(m, from, to) && Tree(m) && from in m.dirs && CleanRelative(to)
    ensures exists orders :: Outcome(m, from, to, orders, false)
  {
    hide ChainsEmpty, Tree, CleanRelative, RenameDirectory, LegalOrders, FitsTree;
    RenameDirectoryTree(m, from, to);
    var orders :| !RenamedIsTree(m, from, to, orders);
    assert Outcome(m, from, to, orders, false);
  }

  lemma SomeOrderKeeps(m: Mem, content: Bytes, now: Time)
    requires var f := "a/b/b/b/x";
             m == Mem(map[f := content], map[f := DEFAULT_MODE], {"a", "a/b", "a/b/b", "a/b/b/b"}, map[f := now])
    ensures exists orders :: Outcome(m, "a/b", "a", orders, true)
  {
    hide *;
    UpwardPrefixes();
    RaisedPaths();
    var orders := Orders(["a/b/b/b/x"], ["a/b/b", "a/b/b/b"]);
    KeepingOrdersAreLegal(m);
    KeepingOrdersResult(m, content, now);
    KeptTree(content, now);
    OutcomeIs(m, "a/b", "a", orders);
  }

  lemma OutcomeIs(m: Mem, from: string, to: string, orders: Orders)
    requires LegalOrders(m, from, to, orders) && Tree(RenameDirectory(m, from, to, orders))
    ensures exists orders :: Outcome(m, from, to, orders, true)
  {
    hide LegalOrders, Tree, RenameDirectory;
    assert Outcome(m, from, to, orders, true);
  }

  lemma KeepingOrdersAreLegal(m: Mem)
    requires m.files.Keys == {"a/b/b/b/x"} && m.dirs == {"a", "a/b", "a/b/b", "a/b/b/b"}
    requires ChildPrefix("a/b") == "a/b/"
    requires HasPrefix("a/b/b", "a/b/") && HasPrefix("a/b/b/b", "a/b/") && HasPrefix("a/b/b/b/x", "a/b/")
    requires |"a"| == 1 && |"a/b"| == 3 && |"a/b/b"| == 5 && |"a/b/b/b"| == 7
    ensures LegalOrders(m, "a/b", "a", Orders(["a/b/b/b/x"], ["a/b/b", "a/b/b/b"]))
  {
    assert !HasPrefix("a", "a/b/") by { assert |"a/b/"| == 4; }
    hide HasPrefix, ChildPrefix;
    var (o, p, q, r) := ("a", "a/b", "a/b/b", "a/b/b/b");
    assert RetargetedDirs(m, p, o) == {o, q, r};
    assert (set d | d in RetargetedDirs(m, p, o) && HasPrefix(d, "a/b/")) == {q, r};
    assert (set f | f in m.files && HasPrefix(f, "a/b/")) == {"a/b/b/b/x"};
    TwoEnumerate(q, r);
    OneEnumerates("a/b/b/b/x");
  }

  lemma TwoEnumerate(a: string, b: string)
    requires a != b
    ensures Enumerates([a, b], {a, b})
  {
  }

  lemma OneEnumerates(a: string)
    ensures Enumerates([a], {a})
  {
  }

  lemma KeepingOrdersResult(m: Mem, content: Bytes, now: Time)
    requires var f := "a/b/b/b/x";
             m == Mem(map[f := content], map[f := DEFAULT_MODE], {"a", "a/b", "a/b/b", "a/b/b/b"}, map[f := now])
    requires ChildPrefix("a/b") == "a/b/" && ChildPrefix("a") == "a/"
    requires HasPrefix("a/b/b", "a/b/") && HasPrefix("a/b/b/b", "a/b/") && HasPrefix("a/b/b/b/x", "a/b/")
    requires Moved("a/b/b", "a/b/", "a/") == "a/b" && Moved("a/b/b/b", "a/b/", "a/") == "a/b/b"
    requires Moved("a/b/b/b/x", "a/b/", "a/") == "a/b/b/x"
    requires |"a"| == 1 && |"a/b"| == 3 && |"a/b/b"| == 5 && |"a/b/b/b"| == 7 && |"a/b/b/x"| == 7 && |"a/b/b/b/x"| == 9
    requires LegalOrders(m, "a/b", "a", Orders(["a/b/b/b/x"], ["a/b/b", "a/b/b/b"]))
    ensures RenameDirectory(m, "a/b", "a", Orders(["a/b/b/b/x"], ["a/b/b", "a/b/b/b"])) == KeptMedium(content, now)
  {
    hide HasPrefix, Moved, ChildPrefix, LegalOrders, MoveAll, MoveDirectories;
    MoveOne(content, "a/b/b/b/x", "a/b/b/x");
    MoveOne(DEFAULT_MODE, "a/b/b/b/x", "a/b/b/x");
    MoveOne(now, "a/b/b/b/x", "a/b/b/x");
    var (o, p, q, r) := ("a", "a/b", "a/b/b", "a/b/b/b");
    assert RetargetedDirs(m, p, o) == {o, q, r};
    MoveTwoDirectories({o, q, r}, q, r);
    assert {o, q, r} + {p} - {q} + {q} - {r} == {o, p, q};
  }

  ghost function KeptMedium(content: Bytes, now: Time): Mem {
    var g := "a/b/b/x";
    Mem(map[g := content], map[g := DEFAULT_MODE], {"a", "a/b", "a/b/b"}, map[g := now])
  }

  lemma MoveOne<V>(value: V, f: string, g: string)
    requires HasPrefix(f, "a/b/") && Moved(f, "a/b/", "a/") == g && f != g
    ensures MoveAll(map[f := value], [f], "a/b/", "a/") == map[g := value]
  {
    hide HasPrefix, Moved;
    assert [f][1..] == [];
    assert MoveKey(map[f := value], f, g) == map[g := value];
  }

  lemma KeptTree(content: Bytes, now: Time)
    ensures Tree(KeptMedium(content, now))
  {
    DeepNames();
    RaisedPaths();
    hide CleanRelative, Ancestors;
  }

  lemma RaisedPaths()
    ensures HasPrefix("a/b/b", "a/b/") && HasPrefix("a/b/b/b", "a/b/") && HasPrefix("a/b/b/b/x", "a/b/")
    ensures Moved("a/b/b", "a/b/", "a/") == "a/b" && Moved("a/b/b/b", "a/b/", "a/") == "a/b/b"
    ensures Moved("a/b/b/b/x", "a/b/", "a/") == "a/b/b/x"
    ensures |"a"| == 1 && |"a/b"| == 3 && |"a/b/b"| == 5 && |"a/b/b/b"| == 7 && |"a/b/b/x"| == 7 && |"a/b/b/b/x"| == 9
  {
    hide HasPrefix, Moved;
    Raised("b");
    Raised("b/b");
    Raised("b/b/x");
    assert "a/b/" + "b" == "a/b/b" && "a/b/" + "b/b" == "a/b/b/b" && "a/b/" + "b/b/x" == "a/b/b/b/x";
    assert "a/" + "b" == "a/b" && "a/" + "b/b" == "a/b/b" && "a/" + "b/b/x" == "a/b/b/x";
  }

  lemma Raised(rest: string)
    ensures HasPrefix("a/b/" + rest, "a/b/") && Moved("a/b/" + rest, "a/b/", "a/") == "a/" + rest
  {
  }

  lemma MoveTwoDirectories(dirs: set<string>, d: string, e: string)
    requires HasPrefix(d, "a/b/") && HasPrefix(e, "a/b/")
    ensures MoveDirectories(dirs, [d, e], "a/b/", "a/") ==
            dirs + {Moved(d, "a/b/", "a/")} - {d} + {Moved(e, "a/b/", "a/")} - {e}
  {
    hide HasPrefix, Moved;
    var next := dirs + {Moved(d, "a/b/", "a/")} - {d};
    assert [d, e][1..] == [e] && [e][1..] == [];
    assert MoveDirectories(next, [e], "a/b/", "a/") == next + {Moved(e, "a/b/", "a/")} - {e};
  }

  /** One file below a directory that is not stored: an append to the directory is refused, a write is not. */
  lemma ImpliedRefusesAppend(m: Mem, more: Bytes, now: Time)
    requires m.files.Keys == {"x/y"} && m.dirs == {}
    ensures CubeState.PlainAppendClose(m, "x", more, now) == CubeState.CubeStep(CubeState.AppendFailed, m)
    ensures WriteMode(m, "x", more, DEFAULT_MODE, now).status == Done
  {
    hide Ancestors, CleanRelative;
    Names();
    assert "x/y" in m.files && HasPrefix("x/y", WithSlash("x"));
    assert HasFileBelow(m, WithSlash("x"));
  }

  /** A file renamed to `x/y` makes such a directory. */
  lemma AppendToImplied(content: Bytes, more: Bytes, now: Time)
    ensures var m := WriteMode(EMPTY, "a", content, DEFAULT_MODE, now).mem;
            LegalOrders(m, "a", "x/y", Orders([], [])) &&
            var r := Rename(m, "a", "x/y", Orders([], [])).mem;
            CubeState.PlainAppendClose(r, "x", more, now) == CubeState.CubeStep(CubeState.AppendFailed, r) &&
            WriteMode(r, "x", more, DEFAULT_MODE, now).status == Done
  {
    hide *;
    Names();
    FirstWrite("a", content, now);
    var m := WriteMode(EMPTY, "a", content, DEFAULT_MODE, now).mem;
    OneFileOrders(m);
    OneFileRenamed(m);
    ImpliedRefusesAppend(Rename(m, "a", "x/y", Orders([], [])).mem, more, now);
  }

  lemma OneFileRenamed(m: Mem)
    requires m.files.Keys == {"a"} && m.dirs == {} && LegalOrders(m, "a", "x/y", Orders([], []))
    ensures var r := Rename(m, "a", "x/y", Orders([], [])).mem; r.files.Keys == {"x/y"} && r.dirs == {}
  {
    hide RenameDirectory, LegalOrders;
    assert "a" in m.files && "a" != "x/y";
    assert Rename(m, "a", "x/y", Orders([], [])).mem == RenameFile(m, "a", "x/y");
    assert forall k :: k in m.files ==> k == "a";
  }

  lemma OneFileOrders(m: Mem)
    requires m.files.Keys == {"a"} && m.dirs == {}
    ensures LegalOrders(m, "a", "x/y", Orders([], []))
  {
    NotBelowA();
    hide HasPrefix, ChildPrefix;
    assert (set f | f in m.files && HasPrefix(f, ChildPrefix("a"))) == {};
    assert RetargetedDirs(m, "a", "x/y") == {"x/y"} - {"a"};
    assert (set d | d in RetargetedDirs(m, "a", "x/y") && HasPrefix(d, ChildPrefix("a"))) == {};
  }

  lemma NotBelowA()
    ensures !HasPrefix("a", ChildPrefix("a")) && !HasPrefix("x/y", ChildPrefix("a"))
  {
    var prefix := ChildPrefix("a");
    assert "a"[..0] == "";
    assert prefix == "a" + "/" && |prefix| == 2 && prefix[0] == 'a';
    if |prefix| <= |"x/y"| {
      assert "x/y"[..|prefix|][0] == 'x';
    }
  }

  /** With a file at `a` and one at `a/b`, what `a` is depends on the order of the map. */
  lemma ListingDepends(content: Bytes, now: Time)
    ensures var m := NodeState.AddData(NodeState.AddData(map[], "a", content, now), "a/b", content, now);
            !NodeListingOrder.OrderIndependent(m, "", now)
  {
    var m := NodeState.AddData(NodeState.AddData(map[], "a", content, now), "a/b", content, now);
    BothStored(content, now);
    NodeClash(m);
    hide *;
    NodeListingOrder.ReadDirExact(m, "", now) by { TopPrefix(); }
    ClashIs(m);
  }

  lemma BothStored(content: Bytes, now: Time)
    ensures var m := NodeState.AddData(NodeState.AddData(map[], "a", content, now), "a/b", content, now);
            "a" in m && "a/b" in m
  {
    hide NodeState.AddData;
    PlainData(map[], "a", content, now);
    ChildData(map["a" := NodeState.FileValue(content, now)], "a", "b", content, now);
    assert "a" + "/" + "b" == "a/b";
  }

  lemma ChildData(m: NodeState.Files, a: string, b: string, content: Bytes, now: Time)
    requires a != "" && b != "" && '/' !in a && '/' !in b
    ensures NodeState.AddData(m, a + "/" + b, content, now) == m[a + "/" + b := NodeState.FileValue(content, now)]
  {
    var name := a + "/" + b;
    assert name[0] == a[0] && a[0] in a;
    assert name[|name| - 1] == b[|b| - 1] && b[|b| - 1] in b;
  }

  lemma NodeClash(m: NodeState.Files)
    requires "a" in m && "a/b" in m
    ensures NodeListing.Clashes(m, "", "a")
  {
    assert "" + "a" == "a" && "a" + "/" == "a/";
    assert HasPrefix("a/b", "a/") by { assert "a/b"[..2] == "a/"; }
  }

  lemma TopPrefix()
    ensures NodeListing.IsDirectoryPrefix("")
  {
  }

  lemma ClashIs(m: NodeState.Files)
    requires NodeListing.Clashes(m, "", "a")
    ensures !NodeListing.NoClash(m, "")
  {
    hide NodeListing.Clashes;
  }

  /** A node file renamed to `a/` is not in the archive any more. */
  lemma SlashedKeyIsLost(content: Bytes, now: Time, order: seq<string>)
    requires var m := NodeState.Rename(NodeState.AddData(map[], "a", content, now), "a", "a/");
             Enumerates(order, m.Keys)
    ensures var m := NodeState.Rename(NodeState.AddData(map[], "a", content, now), "a", "a/");
            !(NodeState.ToTar(m, order).Some? && NodeState.Load(NodeState.ToTar(m, order).value, map[]) == NodeState.Ok(m))
  {
    var m := NodeState.Rename(NodeState.AddData(map[], "a", content, now), "a", "a/");
    hide *;
    PlainData(map[], "a", content, now);
    SlashAfter("a");
    assert "a" + "/" == "a/";
    NodeState.RenameFileExact(NodeState.AddData(map[], "a", content, now), "a", "a/");
    UnsafeIsLost(m, "a/", order);
  }

  lemma UnsafeIsLost(m: NodeState.Files, key: string, order: seq<string>)
    requires Enumerates(order, m.Keys) && key in m && HasSuffix(key, "/")
    ensures !(NodeState.ToTar(m, order).Some? && NodeState.Load(NodeState.ToTar(m, order).value, map[]) == NodeState.Ok(m))
  {
    assert !NodeState.TarSafe(key);
    hide NodeState.Load, NodeState.ToTar, NodeState.TarSafe, Enumerates, HasSuffix;
    NodeState.TarRoundTrip(m, order);
  }

  lemma PlainData(m: NodeState.Files, name: string, content: Bytes, now: Time)
    requires name != "" && '/' !in name
    ensures NodeState.AddData(m, name, content, now) == m[name := NodeState.FileValue(content, now)]
  {
    assert name[0] in name && name[|name| - 1] in name;
  }

  lemma SlashAfter(name: string)
    ensures name != name + "/" && HasSuffix(name + "/", "/")
  {
    assert |name + "/"| == |name| + 1;
  }

  /** One file at `d/d` is enough for an archive that never completes. */
  lemma ArchiveNeverCompletes(content: Bytes, now: Time, log: seq<ArchiveWalk.Item>, depth: nat)
    ensures var m := WriteMode(EMPTY, "d/d", content, DEFAULT_MODE, now).mem;
            Tree(m) && !ArchiveWalk.Archives(m, log, depth)
  {
    hide Ancestors, CleanRelative, ArchiveWalk.Archives;
    Names();
    FirstWrite("d/d", content, now);
    var m := WriteMode(EMPTY, "d/d", content, DEFAULT_MODE, now).mem;
    assert "d" + "/" + "d" == "d/d" && Stored(m, "d/d");
    assert ArchiveWalk.ConfusedAt(m, "d");
    ArchiveWalk.ArchiveExact(m);
  }

  /** A name with a backslash can be packed and is refused when unpacked. */
  lemma BackslashIsRefused(content: Bytes, now: Time, clock: string -> Time, outcome: ArchiveWalk.Outcome, after: Mem,
      depth: nat)
    requires depth > 0
    requires var m := WriteMode(EMPTY, "a\\b", content, DEFAULT_MODE, now).mem;
             ArchiveExtract.Extracts(m, EMPTY, clock, outcome, after, depth)
    ensures outcome == ArchiveWalk.Stopped
  {
    hide Ancestors, CleanRelative, ArchiveExtract.Extracts;
    Names();
    FirstWrite("a\\b", content, now);
    var m := WriteMode(EMPTY, "a\\b", content, DEFAULT_MODE, now).mem;
    assert Tree(m) && !ArchiveWalk.Confused(m);
    assert "a\\b"[1] == '\\' && "a\\b" in m.files;
    ArchiveExtract.EmptyAccepts(m.files);
    var done := ArchiveExtract.ExtractExact(m, EMPTY, clock, outcome, after, depth);
  }
}
