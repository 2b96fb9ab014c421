/**
 When the flat maps of the in-memory medium (go/io.go) form a tree, and exactly when each
 operation on clean relative paths keeps it one.
 */
module MemoryTree {
  import opened Paths
  import opened PathTree
  import opened PrefixMaps
  import opened MemoryState
  import opened MemoryRename

  // A tree: no path is both a file and a directory, and every ancestor of a stored path is a stored directory.

  predicate Stored(m: Mem, path: string) {
    path in m.files || path in m.dirs
  }

  ghost predicate Tree(m: Mem) {
    (forall p :: Stored(m, p) ==> CleanRelative(p) && Ancestors(p) <= m.dirs) &&
    m.files.Keys !! m.dirs
  }

  /** The same said with prefixes instead of walks. */
  lemma TreeUnder(m: Mem, p: string, d: string)
    requires Tree(m) && Stored(m, p) && Under(p, d)
    ensures d in m.dirs && d !in m.files
  {
    AncestorsAreUnder(p);
  }

  lemma TreeFromUnder(m: Mem)
    requires forall p :: Stored(m, p) ==> CleanRelative(p)
    requires forall p, d :: Stored(m, p) && Under(p, d) ==> d in m.dirs
    requires m.files.Keys !! m.dirs
    ensures Tree(m)
  {
    hide Under, CleanRelative, Ancestors;
    forall p | Stored(m, p) ensures Ancestors(p) <= m.dirs {
      AncestorsAreUnder(p);
    }
  }

  lemma UnderNotSelf(p: string)
    ensures !Under(p, p)
  {
  }

  lemma ChildPrefixOfClean(p: string)
    requires CleanRelative(p)
    ensures ChildPrefix(p) == p + "/" && WithSlash(p) == p + "/"
  {
    hide Split, Join;
    CleanRelativeFixed(p);
    assert !Normal("");
    if HasSuffix(p, "/") {
      TrailingSlashPart(p);
    }
  }

  lemma TrailingSlashPart(p: string)
    requires HasSuffix(p, "/")
    ensures "" in Split(p)
  {
    hide Split;
    var front := p[..|p| - 1];
    SplitConcat(front, "");
    assert p == front + p[|p| - 1..] == front + "/" + "";
    SplitSingle("");
    assert "" in [""];
  }

  /** In a tree the only directories there are, are the stored ones. */
  lemma TreeDirectories(m: Mem, path: string)
    requires Tree(m) && CleanRelative(path)
    ensures DirectoryExists(m, path) <==> path in m.dirs
  {
    hide CleanRelative, Ancestors;
    CleanRelativeFixed(path);
    ChildPrefixOfClean(path);
    if f :| f in m.files && HasPrefix(f, path + "/") {
      TreeUnder(m, f, path);
    }
    if d :| d in m.dirs && HasPrefix(d, path + "/") {
      TreeUnder(m, d, path);
    }
  }

  // Operations that add paths

  lemma WithFileTree(m: Mem, path: string, content: Bytes, mode: Mode, now: Time)
    requires Tree(m) && CleanRelative(path) && path !in m.dirs
    ensures Tree(WithFile(m, path, content, mode, now)) <==> !HasFileAncestor(m, path)
  {
    hide CleanRelative, Ancestors;
    var r := WithFile(m, path, content, mode, now);
    AncestorsAreUnder(path);
    UnderNotSelf(path);
    if !HasFileAncestor(m, path) {
      forall p | Stored(r, p) ensures CleanRelative(p) && forall d :: Under(p, d) ==> d in r.dirs {
        AddedIsUnder(m, path, p);
      }
      hide Under;
      TreeFromUnder(r);
    } else {
      var a :| a in Ancestors(path) && a in m.files;
      assert a in r.files && a in r.dirs;
    }
  }

  lemma AddedIsUnder(m: Mem, path: string, p: string)
    requires Tree(m) && CleanRelative(path)
    requires Stored(m, p) || p in Ancestors(path) || p == path
    ensures CleanRelative(p)
    ensures forall d :: Under(p, d) ==> d in m.dirs || d in Ancestors(path)
  {
    AncestorsAreUnder(path);
    hide Ancestors;
    if p == path {
    } else if p in Ancestors(path) {
      CleanUnder(path, p);
      forall d | Under(p, d) ensures d in Ancestors(path) { UnderTransitive(path, p, d); }
    } else {
      forall d | Under(p, d) ensures d in m.dirs { TreeUnder(m, p, d); }
    }
  }

  lemma WriteModeTree(m: Mem, path: string, content: Bytes, mode: Mode, now: Time)
    requires Tree(m) && CleanRelative(path)
    ensures Tree(WriteMode(m, path, content, mode, now).mem)
  {
    hide WithFile;
    if path !in m.dirs {
      WithFileTree(m, path, content, mode, now);
    }
  }

  /** Closing a writer checks no ancestor: it keeps the tree exactly when none is a file. */
  lemma CloseWriterTree(m: Mem, path: string, data: Bytes, mode: Mode, now: Time)
    requires Tree(m) && CleanRelative(path)
    ensures Tree(CloseWriter(m, path, data, mode, now).mem) <==> path in m.dirs || !HasFileAncestor(m, path)
  {
    hide WithFile;
    if path !in m.dirs {
      WithFileTree(m, path, data, mode, now);
    }
  }

  /** Neither does EnsureDir. */
  lemma EnsureDirTree(m: Mem, path: string)
    requires Tree(m) && CleanRelative(path)
    ensures Tree(EnsureDir(m, path).mem) <==> path in m.files || !HasFileAncestor(m, path)
  {
    hide CleanRelative, Ancestors;
    var r := EnsureDir(m, path).mem;
    AncestorsAreUnder(path);
    if path !in m.files {
      if !HasFileAncestor(m, path) {
        forall p | Stored(r, p) ensures CleanRelative(p) && forall d :: Under(p, d) ==> d in r.dirs {
          AddedIsUnder(m, path, p);
        }
        hide Under;
        TreeFromUnder(r);
      } else {
        var a :| a in Ancestors(path) && a in m.files;
        assert a in r.files && a in r.dirs;
      }
    }
  }

  // Operations that take paths away, on any path at all

  lemma DeleteTree(m: Mem, path: string)
    requires Tree(m)
    ensures Tree(Delete(m, path).mem)
  {
    hide CleanRelative, Ancestors;
    var r := Delete(m, path).mem;
    forall p, d | Stored(r, p) && Under(p, d) ensures d in r.dirs {
      TreeUnder(m, p, d);
      if d == path && path !in m.files {
        assert CleanRelative(path);
        ChildPrefixOfClean(path);
      }
    }
    TreeFromUnder(r);
  }

  lemma DoomedBelow(m: Mem, p: string, d: string, path: string)
    requires Tree(m) && Stored(m, p) && Under(p, d) && Doomed(d, path)
    ensures Doomed(p, path)
  {
    hide Ancestors, CleanRelative;
    TreeUnder(m, p, d);
    var prefix := WithSlash(path);
    if d == path {
      assert CleanRelative(d);
      ChildPrefixOfClean(d);
    } else {
      assert p[..|d| + 1] == d + "/";
      assert p[..|prefix|] == d[..|prefix|];
    }
  }

  lemma DeleteAllTree(m: Mem, path: string)
    requires Tree(m)
    ensures Tree(DeleteAll(m, path).mem)
  {
    hide CleanRelative, Ancestors, Doomed, Under;
    var r := WithoutTree(m, path);
    forall p, d | Stored(r, p) && Under(p, d) ensures d in r.dirs {
      TreeUnder(m, p, d);
      if Doomed(d, path) {
        DoomedBelow(m, p, d, path);
      }
    }
    TreeFromUnder(r);
  }

  // Renames

  /**
   Renaming a file keeps the tree exactly when it is renamed onto itself (which drops it) or
   the new path is no directory and all the new path's ancestors are stored.
   */
  lemma RenameFileTree(m: Mem, from: string, to: string)
    requires Tree(m) && from in m.files && CleanRelative(to)
    ensures Tree(RenameFile(m, from, to)) <==> from == to || (to !in m.dirs && Ancestors(to) <= m.dirs)
  {
    hide CleanRelative, Ancestors;
    var r := RenameFile(m, from, to);
    assert r.dirs == m.dirs;
    if from == to || (to !in m.dirs && Ancestors(to) <= m.dirs) {
      assert forall p :: Stored(r, p) ==> Stored(m, p) || (p == to && from != to);
    } else {
      assert to in r.files;
      assert Stored(r, to);
    }
  }

  /** What is stored there is not itself moved by the rename. */
  predicate Stays(p: string, from: string) {
    p != from && !Under(p, from)
  }

  /** A file and a directory would land on the same path. */
  ghost predicate Clash(m: Mem, from: string, to: string) {
    exists rest ::
      Stays(to + "/" + rest, from) &&
      ((from + "/" + rest in m.files && to + "/" + rest in m.dirs) ||
       (from + "/" + rest in m.dirs && to + "/" + rest in m.files))
  }

  lemma SlashedPrefix(p: string, d: string)
    ensures HasPrefix(p + "/", d + "/") <==> p == d || Under(p, d)
  {
    assert (p + "/")[..|p|] == p && (d + "/")[..|d|] == d;
    if |p| > |d| {
      assert (p + "/")[..|d| + 1] == p[..|d| + 1];
    }
  }

  /** Off one line no move runs into another. */
  lemma OffLineMovesApart(m: Mem, from: string, to: string)
    requires CleanRelative(from) && CleanRelative(to) && from != to && !Under(from, to) && !Under(to, from)
    ensures MovesApart(m, from, to)
  {
    hide CleanRelative, Unchained;
    ChildPrefixOfClean(from);
    ChildPrefixOfClean(to);
    SlashedPrefix(from, to);
    SlashedPrefix(to, from);
    IncomparableUnchained(m.files.Keys, from + "/", to + "/");
    IncomparableUnchained(RetargetedDirs(m, from, to), from + "/", to + "/");
  }

  /** Where a path below `from` goes. */
  function Shifted(p: string, from: string, to: string): string
    requires Under(p, from)
  {
    to + "/" + p[|from| + 1..]
  }

  /** Whenever one moved directory takes the place of another, it has nothing in it. */
  ghost predicate ChainsEmpty(m: Mem, from: string, to: string) {
    forall d | d in m.dirs && Under(d, from) :: Chained(m, from, to, d) ==> forall p :: Stored(m, p) ==> !Under(p, d)
  }

  predicate Chained(m: Mem, from: string, to: string, d: string)
    requires Under(d, from)
  {
    Shifted(d, from, to) in m.dirs && Under(Shifted(d, from, to), from)
  }

  lemma ApartChainsEmpty(m: Mem, from: string, to: string)
    requires CleanRelative(from) && CleanRelative(to) && from != to && !Under(to, from) && MovesApart(m, from, to)
    ensures ChainsEmpty(m, from, to)
  {
    hide CleanRelative;
    ChildPrefixOfClean(from);
    ChildPrefixOfClean(to);
    UnderNotSelf(from);
    forall d | d in m.dirs && Under(d, from) ensures !Chained(m, from, to, d) {
      assert d != from && d in RetargetedDirs(m, from, to);
      assert Shifted(d, from, to) == Moved(d, from + "/", to + "/");
    }
  }

  /** Something stored at `from/rest` arrives at `to/rest`. */
  predicate ArrivesAt(keys: set<string>, from: string, to: string, p: string) {
    Under(p, to) && from + "/" + p[|to| + 1..] in keys
  }

  /** What the renamed state stores at a path at most and at least, whatever the order of the loops. */
  lemma RenamedBounds(m: Mem, from: string, to: string, orders: Orders, p: string)
    requires CleanRelative(from) && CleanRelative(to) && from != to && !Under(to, from) && LegalOrders(m, from, to, orders)
    ensures var (r, arrives) := (RenameDirectory(m, from, to, orders), ArrivesAt(m.files.Keys, from, to, p));
            (p in r.files ==> arrives || (p in m.files && !Under(p, from))) &&
            ((arrives || p in m.files) && !(p in m.files && Under(p, from)) ==> p in r.files)
    ensures var (r, arrives) := (RenameDirectory(m, from, to, orders), ArrivesAt(m.dirs, from, to, p));
            (p in r.dirs ==> p == to || arrives || (p in m.dirs && Stays(p, from))) &&
            (p == to || ((arrives || (p in m.dirs && p != from)) && !(p in m.dirs && Under(p, from))) ==> p in r.dirs)
  {
    hide CleanRelative, MoveAll, MoveDirectories;
    ChildPrefixOfClean(from);
    ChildPrefixOfClean(to);
    var dirs := RetargetedDirs(m, from, to);
    MoveAllBounds(m.files, orders.files, from + "/", to + "/", p);
    DirsOrder(m, from, to, orders);
    MoveDirectoriesMarks(dirs, orders.dirs, from + "/", to + "/");
    MoveAllBounds(Marks(dirs), orders.dirs, from + "/", to + "/", p);
    UnderNotSelf(to);
    UnderNotSelf(from);
    if Under(p, to) {
      assert Origin(p, from + "/", to + "/") == from + "/" + p[|to| + 1..];
      assert Under(Origin(p, from + "/", to + "/"), from);
    }
  }

  lemma DirsOrder(m: Mem, from: string, to: string, orders: Orders)
    requires LegalOrders(m, from, to, orders)
    ensures var dirs := RetargetedDirs(m, from, to);
            Enumerates(orders.dirs, set d | d in Marks(dirs) && HasPrefix(d, ChildPrefix(from))) &&
            (forall d :: d in orders.dirs ==> HasPrefix(d, ChildPrefix(from)) && d in dirs) &&
            Distinct(orders.dirs)
  {
    hide HasPrefix;
    var dirs := RetargetedDirs(m, from, to);
    assert forall d :: d in Marks(dirs) <==> d in dirs;
  }

  /** The moves of a directory onto itself drop what lies below. */
  lemma {:induction false} MoveAllOnto<V>(m: map<string, V>, order: seq<string>, prefix: string)
    requires forall k :: k in order ==> HasPrefix(k, prefix)
    ensures MoveAll(m, order, prefix, prefix) == m - set k | k in order
    decreases |order|
  {
    if order == [] {
      assert m - {} == m;
    } else {
      assert order[0] in order;
      assert Moved(order[0], prefix, prefix) == order[0];
      MoveAllOnto(m - {order[0]}, order[1..], prefix);
      assert forall k :: k in order <==> k == order[0] || k in order[1..];
      assert MoveKey(m, order[0], order[0]) == m - {order[0]};
    }
  }

  lemma {:induction false} MoveDirectoriesOnto(dirs: set<string>, order: seq<string>, prefix: string)
    requires forall d :: d in order ==> HasPrefix(d, prefix)
    ensures MoveDirectories(dirs, order, prefix, prefix) == dirs - set d | d in order
    decreases |order|
  {
    if order != [] {
      assert order[0] in order;
      assert Moved(order[0], prefix, prefix) == order[0];
      assert dirs + {order[0]} - {order[0]} == dirs - {order[0]};
      MoveDirectoriesOnto(dirs - {order[0]}, order[1..], prefix);
      assert forall k :: k in order <==> k == order[0] || k in order[1..];
    }
  }

  /** Renaming a directory onto itself deletes it with all that lies below. */
  lemma RenameOntoItselfDeletes(m: Mem, path: string, orders: Orders)
    requires path != "" && path !in m.files && LegalOrders(m, path, path, orders)
    ensures RenameDirectory(m, path, path, orders) == WithoutTree(m, path)
  {
    var prefix := ChildPrefix(path);
    hide HasPrefix, ChildPrefix, WithSlash;
    assert prefix == WithSlash(path) by { SamePrefix(path); }
    MoveAllOnto(m.files, orders.files, prefix);
    MoveAllOnto(m.modes, orders.files, prefix);
    MoveAllOnto(m.times, orders.files, prefix);
    MoveDirectoriesOnto(RetargetedDirs(m, path, path), orders.dirs, prefix);
    var gone := set f | f in orders.files;
    assert gone == set f | f in m.files && Doomed(f, path);
    assert Spared(m.files, path) == m.files - gone;
    assert m.dirs + {path} - {path} - (set d | d in orders.dirs) == set d | d in m.dirs && !Doomed(d, path);
  }

  lemma SamePrefix(path: string)
    requires path != ""
    ensures ChildPrefix(path) == WithSlash(path)
  {
  }

  /** Moved further down, something stays below the old path, and the old path itself is gone. */
  lemma {:induction false} DownLeavesOrphan(dirs: set<string>, order: seq<string>, from: string, to: string)
    returns (d: string)
    requires forall k :: k in order ==> HasPrefix(k, from + "/")
    requires Under(to, from) && from !in dirs && exists x :: x in dirs && Under(x, from)
    ensures var r := MoveDirectories(dirs, order, from + "/", to + "/"); d in r && Under(d, from) && from !in r
    decreases |order|
  {
    hide HasPrefix, Moved, Under;
    if order == [] {
      d :| d in dirs && Under(d, from);
    } else {
      assert order[0] in order;
      var dest := Moved(order[0], from + "/", to + "/");
      LandsBelow(from, to, order[0]);
      assert dest in dirs + {dest} - {order[0]};
      d := DownLeavesOrphan(dirs + {dest} - {order[0]}, order[1..], from, to);
    }
  }

  lemma LandsBelow(from: string, to: string, k: string)
    requires Under(to, from) && HasPrefix(k, from + "/")
    ensures var dest := Moved(k, from + "/", to + "/"); Under(dest, from) && dest != from && dest != k
  {
    var dest := Moved(k, from + "/", to + "/");
    assert dest[..|from| + 1] == to[..|from| + 1];
    assert |dest| == |to| + |k| - |from| > |k|;
  }

  /** Renaming a directory to a path below itself never leaves a tree. */
  lemma RenameIntoItselfBreaks(m: Mem, from: string, to: string, orders: Orders)
    requires Tree(m) && from in m.dirs && CleanRelative(to) && Under(to, from) && LegalOrders(m, from, to, orders)
    ensures !Tree(RenameDirectory(m, from, to, orders))
  {
    hide Tree, CleanRelative, HasPrefix, Under, Moved;
    StoredIsClean(m, from);
    ChildPrefixOfClean(from);
    ChildPrefixOfClean(to);
    assert to in RetargetedDirs(m, from, to) by { UnderNotSelf(from); }
    var d := DownLeavesOrphan(RetargetedDirs(m, from, to), orders.dirs, from, to);
    var r := RenameDirectory(m, from, to, orders);
    assert Stored(r, d) && from !in r.dirs;
    if Tree(r) {
      TreeUnder(r, d, from);
    }
  }

  lemma StoredIsClean(m: Mem, p: string)
    requires Tree(m) && Stored(m, p)
    ensures CleanRelative(p) && !(p in m.files && p in m.dirs)
  {
  }

  /** What can be looked up before a directory is renamed to a path not below it. */
  ghost predicate FitsTree(m: Mem, from: string, to: string) {
    to !in m.files && Ancestors(to) <= m.dirs && !Clash(m, from, to)
  }

  /**
   Renaming a directory keeps the tree in every order of the maps exactly when it is onto itself,
   or the new path does not lie below it, is no file, has its ancestors stored, no file meets a
   directory, and no directory with something in it takes the place of a moved one.
   */
  lemma RenameDirectoryTree(m: Mem, from: string, to: string)
    requires Tree(m) && from in m.dirs && CleanRelative(to)
    ensures (forall orders :: RenamedIsTree(m, from, to, orders)) <==>
            from == to || (!Under(to, from) && FitsTree(m, from, to) && ChainsEmpty(m, from, to))
  {
    hide RenameDirectory, FitsTree, ChainsEmpty, LegalOrders, CleanRelative, Tree, WithoutTree, Under;
    StoredIsClean(m, from);
    if from == to {
      forall orders | LegalOrders(m, from, to, orders) ensures Tree(RenameDirectory(m, from, to, orders)) {
        CleanRelativeFixed(from);
        RenameOntoItselfDeletes(m, from, orders);
        DeleteAllTree(m, from);
      }
    } else if Under(to, from) {
      var orders := SomeOrders(m, from, to);
      RenameIntoItselfBreaks(m, from, to, orders);
      assert !RenamedIsTree(m, from, to, orders);
    } else if !ChainsEmpty(m, from, to) {
      var orders := BreakingOrders(m, from, to);
      assert !RenamedIsTree(m, from, to, orders);
    } else {
      forall orders | LegalOrders(m, from, to, orders)
        ensures Tree(RenameDirectory(m, from, to, orders)) <==> FitsTree(m, from, to)
      {
        RenameDirectoryInOrder(m, from, to, orders);
      }
      var orders := SomeOrders(m, from, to);
      assert RenamedIsTree(m, from, to, orders) <==> FitsTree(m, from, to);
    }
  }

  ghost predicate RenamedIsTree(m: Mem, from: string, to: string, orders: Orders) {
    LegalOrders(m, from, to, orders) ==> Tree(RenameDirectory(m, from, to, orders))
  }

  lemma SomeOrders(m: Mem, from: string, to: string) returns (orders: Orders)
    ensures LegalOrders(m, from, to, orders)
  {
    hide Enumerates;
    var files := SomeOrder(set f | f in m.files && HasPrefix(f, ChildPrefix(from)));
    var dirs := SomeOrder(set d | d in RetargetedDirs(m, from, to) && HasPrefix(d, ChildPrefix(from)));
    orders := Orders(files, dirs);
  }

  /** Where chains are empty, as they are off one line, that holds order by order. */
  lemma RenameDirectoryInOrder(m: Mem, from: string, to: string, orders: Orders)
    requires Tree(m) && LegalOrders(m, from, to, orders)
    requires from in m.dirs && CleanRelative(to) && from != to && !Under(to, from) && ChainsEmpty(m, from, to)
    ensures Tree(RenameDirectory(m, from, to, orders)) <==> FitsTree(m, from, to)
  {
    hide RenameDirectory, FitsTree, ChainsEmpty, LegalOrders, CleanRelative, Tree, Under;
    if FitsTree(m, from, to) {
      RenameKeepsTree(m, from, to, orders);
    } else if Tree(RenameDirectory(m, from, to, orders)) {
      RenamedTreeShows(m, from, to, orders);
    }
  }

  lemma RenameKeepsTree(m: Mem, from: string, to: string, orders: Orders)
    requires Tree(m) && CleanRelative(to) && from in m.dirs && from != to && !Under(to, from)
    requires LegalOrders(m, from, to, orders) && FitsTree(m, from, to) && ChainsEmpty(m, from, to)
    ensures Tree(RenameDirectory(m, from, to, orders))
  {
    hide RenameDirectory, Ancestors, CleanRelative, Under, ChainsEmpty, LegalOrders, Clash;
    var r := RenameDirectory(m, from, to, orders);
    forall p ensures !(p in r.files && p in r.dirs) {
      RenamedDisjoint(m, from, to, orders, p);
    }
    forall p | Stored(r, p) ensures CleanRelative(p) && forall d :: Under(p, d) ==> d in r.dirs {
      RenamedStored(m, from, to, orders, p);
    }
    TreeFromUnder(r);
  }

  lemma RenamedDisjoint(m: Mem, from: string, to: string, orders: Orders, p: string)
    requires Tree(m) && CleanRelative(to) && from in m.dirs && from != to && !Under(to, from)
    requires LegalOrders(m, from, to, orders) && to !in m.files && !Clash(m, from, to)
    ensures var r := RenameDirectory(m, from, to, orders); !(p in r.files && p in r.dirs)
  {
    hide RenameDirectory, Ancestors, CleanRelative, LegalOrders;
    assert Stored(m, from);
    RenamedBounds(m, from, to, orders, p);
    UnderNotSelf(to);
    if Under(p, to) {
      var rest := p[|to| + 1..];
      assert p == to + "/" + rest;
      assert !(Stays(to + "/" + rest, from) && from + "/" + rest in m.files && to + "/" + rest in m.dirs);
      assert !(Stays(to + "/" + rest, from) && from + "/" + rest in m.dirs && to + "/" + rest in m.files);
    }
  }

  lemma RenamedStored(m: Mem, from: string, to: string, orders: Orders, p: string)
    requires Tree(m) && CleanRelative(to) && from in m.dirs && from != to && !Under(to, from)
    requires LegalOrders(m, from, to, orders) && Ancestors(to) <= m.dirs && ChainsEmpty(m, from, to)
    requires Stored(RenameDirectory(m, from, to, orders), p)
    ensures CleanRelative(p) && forall d :: Under(p, d) ==> d in RenameDirectory(m, from, to, orders).dirs
  {
    hide RenameDirectory, Ancestors, CleanRelative, Under, LegalOrders, ChainsEmpty;
    assert Stored(m, from);
    RenamedBounds(m, from, to, orders, p);
    if ArrivesAt(m.files.Keys + m.dirs, from, to, p) {
      SplitAtDirectory(p, to);
      ArrivedStored(m, from, to, orders, p, p[|to| + 1..]);
    } else if p == to {
      AncestorsAreUnder(to);
      forall d | Under(p, d) ensures d in RenameDirectory(m, from, to, orders).dirs {
        RenamedBounds(m, from, to, orders, d);
        AncestorStays(from, to, d);
      }
    } else {
      forall d | Under(p, d) ensures d in RenameDirectory(m, from, to, orders).dirs {
        TreeUnder(m, p, d);
        RenamedBounds(m, from, to, orders, d);
        if Under(d, from) {
          UnderTransitive(p, d, from);
        }
      }
    }
  }

  /** What arrived finds its directories: they arrived too, or are those above the new path. */
  lemma ArrivedStored(m: Mem, from: string, to: string, orders: Orders, p: string, rest: string)
    requires Tree(m) && CleanRelative(to) && from in m.dirs && from != to && !Under(to, from)
    requires LegalOrders(m, from, to, orders) && Ancestors(to) <= m.dirs && ChainsEmpty(m, from, to)
    requires p == to + "/" + rest && Stored(m, from + "/" + rest)
    ensures CleanRelative(p) && forall d :: Under(p, d) ==> d in RenameDirectory(m, from, to, orders).dirs
  {
    hide RenameDirectory, Ancestors, CleanRelative, Under, LegalOrders, ChainsEmpty;
    assert Stored(m, from);
    AncestorsAreUnder(to);
    var origin := from + "/" + rest;
    UnderRest(from, rest);
    UnderRest(to, rest);
    CleanUnder(origin, from);
    CleanConcat(to, rest);
    forall d | Under(p, d) ensures d in RenameDirectory(m, from, to, orders).dirs {
      RenamedBounds(m, from, to, orders, d);
      UnderComparable(p, to, d);
      if Under(d, to) {
        SplitAtDirectory(d, to);
        var e := from + "/" + d[|to| + 1..];
        UnderMoved(to, from, rest, d[|to| + 1..]);
        TreeUnder(m, origin, e);
        UnderRest(from, d[|to| + 1..]);
        NotTakenOver(m, from, to, origin, e);
      } else if Under(to, d) {
        AncestorStays(from, to, d);
      }
    }
  }

  /** A directory with something in it does not take the place of a moved one. */
  lemma NotTakenOver(m: Mem, from: string, to: string, p: string, d: string)
    requires ChainsEmpty(m, from, to) && Stored(m, p) && Under(p, d) && d in m.dirs && Under(d, from)
    ensures var e := to + "/" + d[|from| + 1..]; !(e in m.dirs && Under(e, from))
  {
    assert !Chained(m, from, to, d);
  }

  lemma UnderRest(d: string, rest: string)
    ensures Under(d + "/" + rest, d) && (d + "/" + rest)[|d| + 1..] == rest
  {
  }

  lemma SplitAtDirectory(p: string, d: string)
    requires Under(p, d)
    ensures |p| > |d| && p == d + "/" + p[|d| + 1..]
  {
  }

  lemma UnderMoved(to: string, from: string, rest: string, below: string)
    requires Under(to + "/" + rest, to + "/" + below)
    ensures Under(from + "/" + rest, from + "/" + below)
  {
    var (p, d) := (to + "/" + rest, to + "/" + below);
    assert rest[..|below| + 1] == p[..|d| + 1][|to| + 1..] == (d + "/")[|to| + 1..] == below + "/";
    var (q, e) := (from + "/" + rest, from + "/" + below);
    assert q[..|e| + 1] == from + "/" + rest[..|below| + 1];
  }

  lemma AncestorStays(from: string, to: string, d: string)
    requires Under(to, d) && !Under(to, from)
    ensures !Under(d, from) && d != from && !Under(d, to)
  {
    if Under(d, from) {
      UnderTransitive(to, d, from);
    }
  }

  /** A renamed state that is a tree tells that the conditions held before. */
  lemma RenamedTreeShows(m: Mem, from: string, to: string, orders: Orders)
    requires Tree(m) && CleanRelative(to) && from in m.dirs && from != to && !Under(to, from)
    requires LegalOrders(m, from, to, orders) && Tree(RenameDirectory(m, from, to, orders))
    ensures FitsTree(m, from, to)
  {
    hide RenameDirectory, Ancestors, CleanRelative, Under, LegalOrders;
    assert Stored(m, from);
    var r := RenameDirectory(m, from, to, orders);
    RenamedBounds(m, from, to, orders, to);
    UnderNotSelf(to);
    AncestorsAreUnder(to);
    assert Stored(r, to);
    forall d | Under(to, d) ensures d in m.dirs {
      TreeUnder(r, to, d);
      RenamedBounds(m, from, to, orders, d);
      AncestorStays(from, to, d);
    }
    forall rest | Stays(to + "/" + rest, from)
      ensures !(from + "/" + rest in m.files && to + "/" + rest in m.dirs) &&
              !(from + "/" + rest in m.dirs && to + "/" + rest in m.files)
    {
      UnderRest(to, rest);
      RenamedBounds(m, from, to, orders, to + "/" + rest);
    }
  }

  /** Two moved directories in a chain, the first of them not empty: some order takes the second away for good. */
  lemma BreakingOrders(m: Mem, from: string, to: string) returns (orders: Orders)
    requires Tree(m) && CleanRelative(to) && from in m.dirs && from != to && !Under(to, from)
    requires !ChainsEmpty(m, from, to)
    ensures LegalOrders(m, from, to, orders) && !Tree(RenameDirectory(m, from, to, orders))
  {
    hide CleanRelative, Under, LegalOrders, RenameDirectory, Chained, Shifted;
    var d :| d in m.dirs && Under(d, from) && Chained(m, from, to, d) && exists p :: Stored(m, p) && Under(p, d);
    var p :| Stored(m, p) && Under(p, d);
    UnderTransitive(p, d, from);
    var (q, gone) := (Shifted(p, from, to), Shifted(d, from, to));
    ShiftedUnder(from, to, d, p);
    orders := ChainOrders(m, from, to, d, p);
    if Tree(RenameDirectory(m, from, to, orders)) {
      TreeUnder(RenameDirectory(m, from, to, orders), q, gone);
    }
  }

  lemma ShiftedUnder(from: string, to: string, d: string, p: string)
    requires Under(d, from) && Under(p, d) && Under(p, from)
    ensures Under(Shifted(p, from, to), Shifted(d, from, to))
    ensures |Shifted(p, from, to)| > |Shifted(d, from, to)|
  {
    var (q, e) := (Shifted(p, from, to), Shifted(d, from, to));
    assert p[..|d| + 1] == d + "/";
    assert q[..|e| + 1] == to + "/" + p[..|d| + 1][|from| + 1..];
  }

  lemma ShiftedMoves(from: string, to: string, a: string)
    requires Under(a, from)
    ensures HasPrefix(a, from + "/") && Moved(a, from + "/", to + "/") == Shifted(a, from, to)
    ensures |Shifted(a, from, to)| == |a| + |to| - |from|
  {
  }

  /** A chain of moves leads upwards. */
  lemma ChainsLeadUp(from: string, to: string, d: string)
    requires from != to && !Under(to, from) && Under(d, from) && Under(Shifted(d, from, to), from)
    ensures |to| < |from|
  {
    var e := Shifted(d, from, to);
    assert e == from + "/" + e[|from| + 1..];
    FrontsNest(to, d[|from| + 1..], from, e[|from| + 1..]);
  }

  lemma FrontsNest(a: string, x: string, b: string, y: string)
    requires a + "/" + x == b + "/" + y
    ensures |a| < |b| || a == b || Under(a, b)
  {
    var p := a + "/" + x;
    assert p[..|a|] == a && p[..|b| + 1] == b + "/" && p[..|b|] == b;
    if |a| > |b| {
      assert a[..|b| + 1] == p[..|b| + 1];
    }
  }

  lemma ChainOrders(m: Mem, from: string, to: string, d: string, p: string) returns (orders: Orders)
    requires CleanRelative(from) && CleanRelative(to) && from != to && !Under(to, from)
    requires d in m.dirs && Under(d, from) && Chained(m, from, to, d)
    requires Stored(m, p) && !(p in m.files && p in m.dirs) && Under(p, d) && Under(p, from)
    ensures LegalOrders(m, from, to, orders)
    ensures var r := RenameDirectory(m, from, to, orders);
            Stored(r, Shifted(p, from, to)) && Shifted(d, from, to) !in r.dirs
  {
    ChildPrefixOfClean(from);
    ChildPrefixOfClean(to);
    ChainsLeadUp(from, to, d);
    ShiftedUnder(from, to, d, p);
    ShiftedMoves(from, to, d);
    ShiftedMoves(from, to, p);
    UnderNotSelf(from);
    var dirs := RetargetedDirs(m, from, to);
    assert d in dirs && Shifted(d, from, to) in dirs && (p in m.dirs <==> p in dirs);
    assert |p| > |d|;
    assert HasPrefix(Shifted(d, from, to), from + "/");
    StoredHas(m, dirs, p);
    hide *;
    var files: seq<string>;
    if p in m.files {
      files := LateOrder(m.files, from + "/", to + "/", p);
    } else {
      files := SomeOrder(set f | f in m.files && HasPrefix(f, from + "/"));
    }
    var order := LosingOrder(Marks(dirs), from + "/", to + "/", d, p);
    orders := Orders(files, order);
    RenamedWith(m, from, to, orders);
    ResultHas(RenameDirectory(m, from, to, orders), Shifted(p, from, to));
  }

  lemma StoredHas(m: Mem, dirs: set<string>, p: string)
    ensures Stored(m, p) <==> p in m.files || p in m.dirs
    ensures forall d :: d in Marks(dirs) <==> d in dirs
  {
  }

  lemma ResultHas(m: Mem, p: string)
    ensures Stored(m, p) <==> p in m.files || p in m.dirs
  {
  }

  lemma RenamedWith(m: Mem, from: string, to: string, orders: Orders)
    requires ChildPrefix(from) == from + "/" && ChildPrefix(to) == to + "/"
    requires Enumerates(orders.files, set f | f in m.files && HasPrefix(f, from + "/"))
    requires Enumerates(orders.dirs, set d | d in Marks(RetargetedDirs(m, from, to)) && HasPrefix(d, from + "/"))
    ensures LegalOrders(m, from, to, orders)
    ensures var r := RenameDirectory(m, from, to, orders);
            r.files == MoveAll(m.files, orders.files, from + "/", to + "/") &&
            r.dirs == MoveAll(Marks(RetargetedDirs(m, from, to)), orders.dirs, from + "/", to + "/").Keys
  {
    hide HasPrefix, MoveAll, MoveDirectories, ChildPrefix;
    var dirs := RetargetedDirs(m, from, to);
    assert forall d :: d in Marks(dirs) <==> d in dirs;
    MoveDirectoriesMarks(dirs, orders.dirs, from + "/", to + "/");
  }

  // Runs

  predicate OnCleanPaths(op: Op) {
    match op
    case OpDelete(_) => true
    case OpDeleteAll(_) => true
    case OpRename(from, to, _) => CleanRelative(from) && CleanRelative(to)
    case _ => CleanRelative(op.path)
  }

  /** What a caller can look up before the call to know that the tree will stay one. */
  ghost predicate Careful(m: Mem, op: Op) {
    match op
    case OpWrite(_, _, _, _) => true
    case OpClose(path, _, _, _) => path in m.dirs || !HasFileAncestor(m, path)
    case OpEnsureDir(path) => path in m.files || !HasFileAncestor(m, path)
    case OpDelete(_) => true
    case OpDeleteAll(_) => true
    case OpRename(from, to, _) =>
      if from in m.files then from == to || (to !in m.dirs && Ancestors(to) <= m.dirs)
      else from in m.dirs && from != to ==> !Under(to, from) && FitsTree(m, from, to) && ChainsEmpty(m, from, to)
  }

  /** The operation going through its maps in the given orders, if it goes through any. */
  function InOrders(op: Op, orders: Orders): Op {
    if op.OpRename? then OpRename(op.path, op.to, orders) else op
  }

  ghost predicate LeavesTree(m: Mem, op: Op, orders: Orders) {
    Legal(m, InOrders(op, orders)) ==> Tree(Apply(m, InOrders(op, orders)).mem)
  }

  /** An operation on clean paths leaves a tree, whatever the order of the maps, exactly when it is careful. */
  lemma TreeStep(m: Mem, op: Op)
    requires Tree(m) && OnCleanPaths(op)
    ensures (forall orders :: LeavesTree(m, op, orders)) <==> Careful(m, op)
  {
    if op.OpRename? {
      RenameTreeStep(m, op);
    } else {
      hide Tree, DirectoryExists, HasFileAncestor, CleanRelative, WithFile;
      assert LeavesTree(m, op, Orders([], [])) <==> Tree(Apply(m, op).mem);
      assert forall orders :: LeavesTree(m, op, orders) <==> LeavesTree(m, op, Orders([], []));
      match op
      case OpWrite(path, content, mode, now) => WriteModeTree(m, path, content, mode, now);
      case OpClose(path, content, mode, now) => CloseWriterTree(m, path, content, mode, now);
      case OpEnsureDir(path) => EnsureDirTree(m, path);
      case OpDelete(path) => DeleteTree(m, path);
      case OpDeleteAll(path) => DeleteAllTree(m, path);
    }
  }

  lemma RenameTreeStep(m: Mem, op: Op)
    requires Tree(m) && op.OpRename? && OnCleanPaths(op)
    ensures (forall orders :: LeavesTree(m, op, orders)) <==> Careful(m, op)
  {
    hide Tree, DirectoryExists, CleanRelative, LegalOrders, RenameFile, RenameDirectory, Under, Ancestors, FitsTree, ChainsEmpty;
    var (from, to) := (op.path, op.to);
    TreeDirectories(m, from);
    var some := SomeOrders(m, from, to);
    if from in m.files {
      RenameFileTree(m, from, to);
      assert LeavesTree(m, op, some) <==> Tree(RenameFile(m, from, to));
    } else if from in m.dirs {
      RenameDirectoryTree(m, from, to);
      forall orders ensures LeavesTree(m, op, orders) <==> RenamedIsTree(m, from, to, orders) {
      }
    }
  }

  /** For a fresh target whose ancestors are stored only one rename is not careful: that of a directory into itself. */
  lemma FreshTargetIsCareful(m: Mem, from: string, to: string, orders: Orders)
    requires Tree(m) && CleanRelative(to) && !Exists(m, to) && Ancestors(to) <= m.dirs
    ensures Careful(m, OpRename(from, to, orders)) <==> !(from in m.dirs && Under(to, from))
  {
    hide CleanRelative, Ancestors, ChainsEmpty, MovesApart, Under;
    TreeDirectories(m, to);
    UnderNotSelf(from);
    if from in m.dirs && !Under(to, from) {
      FreshIsOffLine(m, from, to);
      OffLineMovesApart(m, from, to);
      ApartChainsEmpty(m, from, to);
    }
    if Clash(m, from, to) {
      var rest :| (from + "/" + rest in m.files && to + "/" + rest in m.dirs) ||
                  (from + "/" + rest in m.dirs && to + "/" + rest in m.files);
      assert Stored(m, to + "/" + rest);
      UnderRest(to, rest);
      TreeUnder(m, to + "/" + rest, to);
    }
  }

  lemma FreshIsOffLine(m: Mem, from: string, to: string)
    requires Tree(m) && from in m.dirs && to !in m.dirs
    ensures CleanRelative(from) && from != to && !Under(from, to)
  {
    hide CleanRelative;
    assert Stored(m, from);
    if Under(from, to) {
      TreeUnder(m, from, to);
    }
  }

  /** Every run of careful operations on clean paths, from the empty medium, stays a tree. */
  lemma {:induction false} TreeReachable(states: seq<Mem>, ops: seq<Op>)
    requires IsRun(states, ops) && states[0] == EMPTY
    requires forall i | 0 <= i < |ops| :: OnCleanPaths(ops[i]) && Careful(states[i], ops[i])
    ensures forall i | 0 <= i < |states| :: Tree(states[i])
  {
    EmptyTree();
    hide Apply, Legal, Tree, Careful, OnCleanPaths;
    for i := 0 to |ops|
      invariant forall j | 0 <= j <= i :: Tree(states[j])
    {
      CarefulStep(states[i], ops[i]);
    }
  }

  lemma CarefulStep(m: Mem, op: Op)
    requires Tree(m) && Legal(m, op) && OnCleanPaths(op) && Careful(m, op)
    ensures Tree(Apply(m, op).mem)
  {
    hide Apply, Legal, Tree, Careful, OnCleanPaths;
    TreeStep(m, op);
    var orders := if op.OpRename? then op.orders else Orders([], []);
    assert InOrders(op, orders) == op;
    assert LeavesTree(m, op, orders);
  }

  lemma EmptyTree()
    ensures Tree(EMPTY)
  {
  }
}
