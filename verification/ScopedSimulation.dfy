/**
 Each operation of a scoped medium commutes with looking only at what lies below its root
 (go/workspace/workspace.go over go/io.go): the view simulates a private in-memory medium.
 */
module ScopedSimulation {
  import opened Paths
  import opened PathTree
  import opened PrefixMaps
  import opened MemoryState
  import opened MemoryTree
  import opened ScopedState

  function InAll(root: string, order: seq<string>): (s: seq<string>)
    ensures |s| == |order|
  {
    seq(|order|, i requires 0 <= i < |order| => In(root, order[i]))
  }

  /** The operation the scoped medium passes on: every path with the root in front. */
  function Scoped(root: string, op: Op): Op {
    match op
    case OpWrite(path, content, mode, now) => OpWrite(In(root, path), content, mode, now)
    case OpClose(path, content, mode, now) => OpClose(In(root, path), content, mode, now)
    case OpEnsureDir(path) => OpEnsureDir(In(root, path))
    case OpDelete(path) => OpDelete(In(root, path))
    case OpDeleteAll(path) => OpDeleteAll(In(root, path))
    case OpRename(path, to, orders) =>
      OpRename(In(root, path), In(root, to), Orders(InAll(root, orders.files), InAll(root, orders.dirs)))
  }

  predicate CleanOp(op: Op) {
    CleanRelative(op.path) && (op.OpRename? ==> CleanRelative(op.to))
  }

  ghost predicate Simulates(before: Mem, after: Mem, root: string, private: Mem) {
    Project(after, root) == private && SameOutside(before, after, root)
  }

  lemma OutsideKeepsAnchor(m: Mem, n: Mem, root: string)
    requires Anchored(m, root) && SameOutside(m, n, root)
    ensures Anchored(n, root)
  {
    hide Under, CleanRelative, Ancestors;
    AncestorsAreUnder(root);
    UnderNotSelf(root);
    forall a | a in Ancestors(root) ensures !Under(a, root) {
      NotUnderBoth(root, a);
    }
  }

  lemma NotUnderBoth(p: string, d: string)
    requires Under(p, d)
    ensures !Under(d, p)
  {
  }

  // The maps

  lemma BelowUpdate<V>(m: map<string, V>, root: string, p: string, v: V)
    ensures Inside(m[In(root, p) := v], root) == Inside(m, root)[p := v]
  {
    hide Inside, In;
    var (a, b) := (Inside(m[In(root, p) := v], root), Inside(m, root)[p := v]);
    forall k ensures (k in a <==> k in b) && (k in a ==> a[k] == b[k]) {
      BelowAt(m[In(root, p) := v], root, k);
      BelowAt(m, root, k);
      if In(root, k) == In(root, p) {
        InInjective(root, k, p);
      }
    }
  }

  lemma BelowRemove<V>(m: map<string, V>, root: string, gone: set<string>, below: set<string>)
    requires forall k :: In(root, k) in gone <==> k in below
    ensures Inside(m - gone, root) == Inside(m, root) - below
  {
    hide Inside, In;
    var (a, b) := (Inside(m - gone, root), Inside(m, root) - below);
    forall k ensures (k in a <==> k in b) && (k in a ==> a[k] == b[k]) {
      BelowAt(m - gone, root, k);
      BelowAt(m, root, k);
    }
  }

  lemma OneBelow(root: string, p: string)
    ensures forall k :: In(root, k) in {In(root, p)} <==> k in {p}
  {
    hide In;
    forall k | In(root, k) == In(root, p) ensures k == p {
      InInjective(root, k, p);
    }
  }

  lemma BelowMoveKey<V>(m: map<string, V>, root: string, from: string, to: string)
    ensures Inside(MoveKey(m, In(root, from), In(root, to)), root) == MoveKey(Inside(m, root), from, to)
  {
    hide Inside, In;
    BelowAt(m, root, from);
    if In(root, from) in m {
      BelowUpdate(m, root, to, m[In(root, from)]);
      OneBelow(root, from);
      BelowRemove(m[In(root, to) := m[In(root, from)]], root, {In(root, from)}, {from});
    }
  }

  lemma DirsUpdate(dirs: set<string>, root: string, more: set<string>, moreBelow: set<string>, gone: set<string>,
      goneBelow: set<string>)
    requires forall k :: In(root, k) in more <==> k in moreBelow
    requires forall k :: In(root, k) in gone <==> k in goneBelow
    ensures DirsBelow(dirs + more - gone, root) == DirsBelow(dirs, root) + moreBelow - goneBelow
  {
    hide DirsBelow, In;
    forall k ensures k in DirsBelow(dirs + more - gone, root) <==> k in DirsBelow(dirs, root) + moreBelow - goneBelow {
      DirsBelowAt(dirs + more - gone, root, k);
      DirsBelowAt(dirs, root, k);
    }
  }

  /** The moved key seen from inside. */
  lemma MovedIn(root: string, k: string, from: string, to: string)
    requires HasPrefix(k, from + "/")
    ensures HasPrefix(In(root, k), In(root, from) + "/")
    ensures Moved(In(root, k), In(root, from) + "/", In(root, to) + "/") == In(root, Moved(k, from + "/", to + "/"))
  {
    var (p, q) := (from + "/", In(root, from) + "/");
    assert q == root + "/" + p;
    var rest := k[|p|..];
    assert k == p + rest;
    assert In(root, k) == q + rest;
    assert In(root, to) + "/" + rest == root + "/" + (to + "/" + rest);
  }

  lemma {:induction false} BelowMoveAll<V>(m: map<string, V>, root: string, order: seq<string>, from: string,
      to: string)
    requires forall k :: k in order ==> HasPrefix(k, from + "/")
    requires forall k :: k in InAll(root, order) ==> HasPrefix(k, In(root, from) + "/")
    ensures Inside(MoveAll(m, InAll(root, order), In(root, from) + "/", In(root, to) + "/"), root) ==
            MoveAll(Inside(m, root), order, from + "/", to + "/")
    decreases |order|
  {
    hide Inside, In, HasPrefix, Moved, MoveKey;
    if order != [] {
      var first, rest := order[0], order[1..];
      assert first in order;
      assert InAll(root, order)[0] == In(root, first);
      assert In(root, first) in InAll(root, order);
      assert InAll(root, order)[1..] == InAll(root, rest);
      MovedIn(root, first, from, to);
      var dest := Moved(first, from + "/", to + "/");
      BelowMoveKey(m, root, first, dest);
      BelowMoveAll(MoveKey(m, In(root, first), In(root, dest)), root, rest, from, to);
    }
  }

  lemma {:induction false} DirsMoveAll(dirs: set<string>, root: string, order: seq<string>, from: string, to: string)
    requires forall k :: k in order ==> HasPrefix(k, from + "/")
    requires forall k :: k in InAll(root, order) ==> HasPrefix(k, In(root, from) + "/")
    ensures DirsBelow(MoveDirectories(dirs, InAll(root, order), In(root, from) + "/", In(root, to) + "/"), root) ==
            MoveDirectories(DirsBelow(dirs, root), order, from + "/", to + "/")
    decreases |order|
  {
    hide DirsBelow, In, HasPrefix, Moved;
    if order != [] {
      var first, rest := order[0], order[1..];
      assert first in order;
      assert InAll(root, order)[0] == In(root, first);
      assert In(root, first) in InAll(root, order);
      assert InAll(root, order)[1..] == InAll(root, rest);
      MovedIn(root, first, from, to);
      var dest := Moved(first, from + "/", to + "/");
      OneBelow(root, dest);
      OneBelow(root, first);
      DirsUpdate(dirs, root, {In(root, dest)}, {dest}, {In(root, first)}, {first});
      DirsMoveAll(dirs + {In(root, dest)} - {In(root, first)}, root, rest, from, to);
    }
  }

  // The operations

  lemma FileAncestorIn(m: Mem, root: string, p: string)
    requires Anchored(m, root) && CleanRelative(p)
    ensures HasFileAncestor(m, In(root, p)) <==> HasFileAncestor(Project(m, root), p)
  {
    hide CleanRelative, Ancestors, In, Inside, Under;
    if a :| a in Ancestors(In(root, p)) && a in m.files {
      AncestorsIn(root, p, a);
      InStripped(root, a);
      if Under(a, root) {
        var k := Stripped(root, a);
        AncestorsIn(root, p, k);
        BelowAt(m.files, root, k);
      }
    }
    if k :| k in Ancestors(p) && k in Project(m, root).files {
      AncestorsIn(root, p, k);
      BelowAt(m.files, root, k);
    }
  }

  /** The directories above a path, seen from inside; outside they are there already. */
  lemma AncestorDirsIn(m: Mem, root: string, p: string)
    requires Anchored(m, root) && CleanRelative(p)
    ensures DirsBelow(m.dirs + Ancestors(In(root, p)), root) == DirsBelow(m.dirs, root) + Ancestors(p)
    ensures forall d | !Under(d, root) :: d in Ancestors(In(root, p)) ==> d in m.dirs
  {
    hide CleanRelative, Ancestors, Inside, DirsBelow, In, Under;
    var q := In(root, p);
    forall k ensures In(root, k) in Ancestors(q) <==> k in Ancestors(p) { AncestorsIn(root, p, k); }
    DirsUpdate(m.dirs, root, Ancestors(q), Ancestors(p), {}, {});
    assert m.dirs + Ancestors(q) - {} == m.dirs + Ancestors(q);
    assert DirsBelow(m.dirs, root) + Ancestors(p) - {} == DirsBelow(m.dirs, root) + Ancestors(p);
    forall d | !Under(d, root) && d in Ancestors(q) ensures d in m.dirs { AncestorsIn(root, p, d); }
  }

  lemma OneDirIn(dirs: set<string>, root: string, p: string)
    ensures DirsBelow(dirs + {In(root, p)}, root) == DirsBelow(dirs, root) + {p}
  {
    hide DirsBelow, In;
    OneBelow(root, p);
    DirsUpdate(dirs, root, {In(root, p)}, {p}, {}, {});
    assert dirs + {In(root, p)} - {} == dirs + {In(root, p)};
    assert DirsBelow(dirs, root) + {p} - {} == DirsBelow(dirs, root) + {p};
  }

  lemma WithFileIn(m: Mem, root: string, p: string, content: Bytes, mode: Mode, now: Time)
    requires Anchored(m, root) && CleanRelative(p)
    ensures Simulates(m, WithFile(m, In(root, p), content, mode, now), root, WithFile(Project(m, root), p, content, mode, now))
  {
    hide CleanRelative, Ancestors, Inside, DirsBelow, In, Under, Anchored;
    BelowUpdate(m.files, root, p, content);
    BelowUpdate(m.modes, root, p, mode);
    BelowUpdate(m.times, root, p, now);
    AncestorDirsIn(m, root, p);
    InStripped(root, p);
  }

  lemma EnsureDirIn(m: Mem, root: string, p: string)
    requires Anchored(m, root) && CleanRelative(p)
    ensures EnsureDir(m, In(root, p)).status == EnsureDir(Project(m, root), p).status
    ensures Simulates(m, EnsureDir(m, In(root, p)).mem, root, EnsureDir(Project(m, root), p).mem)
  {
    hide CleanRelative, Ancestors, Inside, DirsBelow, In, Under, Anchored;
    BelowAt(m.files, root, p);
    AncestorDirsIn(m, root, p);
    OneDirIn(m.dirs + Ancestors(In(root, p)), root, p);
    InStripped(root, p);
  }

  /** Taking away paths below the root, seen from inside and from outside. */
  lemma RemovedIn(m: Mem, root: string, gone: set<string>, below: set<string>, dirs: set<string>,
      dirsBelow: set<string>)
    requires forall k :: In(root, k) in gone <==> k in below
    requires forall k :: In(root, k) in dirs <==> k in dirsBelow
    requires forall k :: k in gone || k in dirs ==> Under(k, root)
    ensures var n := Project(m, root);
            Simulates(m, Mem(m.files - gone, m.modes - gone, m.dirs - dirs, m.times - gone), root,
                      Mem(n.files - below, n.modes - below, n.dirs - dirsBelow, n.times - below))
  {
    hide Inside, DirsBelow, In, Under;
    BelowRemove(m.files, root, gone, below);
    BelowRemove(m.modes, root, gone, below);
    BelowRemove(m.times, root, gone, below);
    DirsUpdate(m.dirs, root, {}, {}, dirs, dirsBelow);
    assert m.dirs + {} == m.dirs && DirsBelow(m.dirs, root) + {} == DirsBelow(m.dirs, root);
  }

  lemma DeleteFileIn(m: Mem, root: string, p: string)
    ensures Simulates(m, WithoutFile(m, In(root, p)), root, WithoutFile(Project(m, root), p))
    ensures Simulates(m, m.(dirs := m.dirs - {In(root, p)}), root, Project(m, root).(dirs := Project(m, root).dirs - {p}))
  {
    hide Inside, DirsBelow, In, Under, Simulates;
    OneBelow(root, p);
    InStripped(root, p);
    RemovedIn(m, root, {In(root, p)}, {p}, {}, {});
    RemovedIn(m, root, {}, {}, {In(root, p)}, {p});
    var n := Project(m, root);
    assert m.dirs - {} == m.dirs && n.dirs - {} == n.dirs;
    NothingLess(m);
    NothingLess(n);
  }

  lemma NothingLess(m: Mem)
    ensures m.files - {} == m.files && m.modes - {} == m.modes && m.times - {} == m.times
  {
  }

  lemma DeleteIn(m: Mem, root: string, p: string)
    requires Anchored(m, root) && CleanRelative(p)
    ensures Delete(m, In(root, p)).status == Delete(Project(m, root), p).status
    ensures Simulates(m, Delete(m, In(root, p)).mem, root, Delete(Project(m, root), p).mem)
  {
    hide CleanRelative, Ancestors, Project, In, Under, DirectoryExists, HasChildren, Simulates, WithoutFile, Anchored;
    AnchoredIsClean(m, root);
    PathIn(m, root, p);
    DirectoryIn(m, root, p);
    DeleteFileIn(m, root, p);
    SimulatesNothing(m, root);
  }

  lemma DoomedIn(root: string, p: string, k: string)
    requires CleanRelative(root) && CleanRelative(p)
    ensures Doomed(In(root, k), In(root, p)) <==> Doomed(k, p)
    ensures Doomed(k, In(root, p)) ==> Under(k, root)
  {
    hide CleanRelative, In, Under, HasPrefix;
    CleanIn(root, p);
    ChildPrefixOfClean(p);
    ChildPrefixOfClean(In(root, p));
    PrefixIn(root, k, p);
    InStripped(root, p);
    if In(root, k) == In(root, p) {
      InInjective(root, k, p);
    }
  }

  function DoomedFiles(m: Mem, path: string): set<string> {
    set k | k in m.files && Doomed(k, path)
  }

  lemma WithoutTreeIs(m: Mem, path: string)
    ensures WithoutTree(m, path) ==
            Mem(m.files - DoomedFiles(m, path), m.modes - DoomedFiles(m, path),
                m.dirs - (set d | d in m.dirs && Doomed(d, path)), m.times - DoomedFiles(m, path))
  {
    hide Doomed;
    assert Spared(m.files, path) == m.files - DoomedFiles(m, path);
  }

  lemma DeleteAllIn(m: Mem, root: string, p: string)
    requires Anchored(m, root) && CleanRelative(p)
    ensures DeleteAll(m, In(root, p)).status == DeleteAll(Project(m, root), p).status
    ensures Simulates(m, DeleteAll(m, In(root, p)).mem, root, DeleteAll(Project(m, root), p).mem)
  {
    hide *;
    AnchoredIsClean(m, root);
    var (q, n) := (In(root, p), Project(m, root));
    var (dirs, dirsBelow) := (set d | d in m.dirs && Doomed(d, q), set d | d in n.dirs && Doomed(d, p));
    forall k | k in DoomedFiles(m, q) || k in dirs ensures Under(k, root) {
      DoomedIn(root, p, k) by { DoomedFileIs(m, q, k); }
      DoomedFileIs(m, q, k);
    }
    DoomedSetsIn(m, root, p);
    RemovedIn(m, root, DoomedFiles(m, q), DoomedFiles(n, p), dirs, dirsBelow);
    WithoutTreeIs(m, q);
    WithoutTreeIs(n, p);
    DoomedFound(m, root, p);
    DeleteAllIs(m, q);
    DeleteAllIs(n, p);
  }

  lemma DoomedFileIs(m: Mem, path: string, k: string)
    ensures k in DoomedFiles(m, path) ==> Doomed(k, path)
  {
  }

  lemma AnchoredIsClean(m: Mem, root: string)
    requires Anchored(m, root)
    ensures CleanRelative(root)
  {
  }

  lemma DeleteAllIs(m: Mem, path: string)
    ensures DeleteAll(m, path).mem == WithoutTree(m, path)
  {
  }

  lemma DoomedSetsIn(m: Mem, root: string, p: string)
    requires CleanRelative(root) && CleanRelative(p)
    ensures forall k :: In(root, k) in DoomedFiles(m, In(root, p)) <==> k in DoomedFiles(Project(m, root), p)
    ensures var n := Project(m, root);
            forall k :: In(root, k) in (set d | d in m.dirs && Doomed(d, In(root, p))) <==> k in (set d | d in n.dirs && Doomed(d, p))
  {
    hide CleanRelative, Inside, DirsBelow, In, Doomed;
    forall k ensures In(root, k) in DoomedFiles(m, In(root, p)) <==> k in DoomedFiles(Project(m, root), p) {
      DoomedIn(root, p, k);
      BelowAt(m.files, root, k);
    }
    var n := Project(m, root);
    forall k ensures In(root, k) in (set d | d in m.dirs && Doomed(d, In(root, p))) <==> k in (set d | d in n.dirs && Doomed(d, p)) {
      DoomedIn(root, p, k);
      DirsBelowAt(m.dirs, root, k);
    }
  }

  lemma DoomedFound(m: Mem, root: string, p: string)
    requires CleanRelative(root) && CleanRelative(p)
    ensures DeleteAll(m, In(root, p)).status == DeleteAll(Project(m, root), p).status
  {
    hide CleanRelative, Inside, DirsBelow, In, Doomed, Under, WithoutTree;
    var (q, n) := (In(root, p), Project(m, root));
    if f :| f in m.files && Doomed(f, q) {
      DoomedIn(root, p, f);
      InStripped(root, f);
      DoomedIn(root, p, Stripped(root, f));
      BelowAt(m.files, root, Stripped(root, f));
    }
    if d :| d in m.dirs && Doomed(d, q) {
      DoomedIn(root, p, d);
      InStripped(root, d);
      DoomedIn(root, p, Stripped(root, d));
      DirsBelowAt(m.dirs, root, Stripped(root, d));
    }
    if f :| f in n.files && Doomed(f, p) {
      DoomedIn(root, p, f);
      BelowAt(m.files, root, f);
    }
    if d :| d in n.dirs && Doomed(d, p) {
      DoomedIn(root, p, d);
      DirsBelowAt(m.dirs, root, d);
    }
  }

  lemma RenameFileIn(m: Mem, root: string, from: string, to: string)
    requires CleanRelative(root)
    ensures Simulates(m, RenameFile(m, In(root, from), In(root, to)), root, RenameFile(Project(m, root), from, to))
  {
    hide Inside, DirsBelow, In, Under;
    BelowMoveKey(m.files, root, from, to);
    BelowMoveKey(m.modes, root, from, to);
    BelowMoveKey(m.times, root, from, to);
    InStripped(root, from);
    InStripped(root, to);
  }

  lemma {:induction false} MoveAllOutside<V>(m: map<string, V>, order: seq<string>, from: string, to: string,
      key: string)
    requires forall k :: k in order ==> HasPrefix(k, from)
    requires !HasPrefix(key, from) && !HasPrefix(key, to)
    ensures var r := MoveAll(m, order, from, to); (key in r <==> key in m) && (key in m ==> r[key] == m[key])
    decreases |order|
  {
    if order != [] {
      assert order[0] in order;
      MovedBack(order[0], from, to);
      hide HasPrefix, Moved;
      MoveAllOutside(MoveKey(m, order[0], Moved(order[0], from, to)), order[1..], from, to, key);
    }
  }

  lemma {:induction false} MoveDirectoriesOutside(dirs: set<string>, order: seq<string>, from: string, to: string,
      key: string)
    requires forall k :: k in order ==> HasPrefix(k, from)
    requires !HasPrefix(key, from) && !HasPrefix(key, to)
    ensures key in MoveDirectories(dirs, order, from, to) <==> key in dirs
    decreases |order|
  {
    if order != [] {
      assert order[0] in order;
      MovedBack(order[0], from, to);
      hide HasPrefix, Moved;
      MoveDirectoriesOutside(dirs + {Moved(order[0], from, to)} - {order[0]}, order[1..], from, to, key);
    }
  }

  /** A clean rename spelled with its prefixes. */
  lemma RenameDirectoryIs(m: Mem, from: string, to: string, orders: Orders)
    requires CleanRelative(from) && CleanRelative(to) && LegalOrders(m, from, to, orders)
    ensures forall k :: k in orders.files ==> HasPrefix(k, from + "/")
    ensures forall k :: k in orders.dirs ==> HasPrefix(k, from + "/")
    ensures RenameDirectory(m, from, to, orders) ==
            Mem(MoveAll(m.files, orders.files, from + "/", to + "/"),
                MoveAll(m.modes, orders.files, from + "/", to + "/"),
                MoveDirectories(m.dirs + {to} - {from}, orders.dirs, from + "/", to + "/"),
                MoveAll(m.times, orders.files, from + "/", to + "/"))
  {
    hide CleanRelative, MoveAll, MoveDirectories, HasPrefix;
    ChildPrefixOfClean(from);
    ChildPrefixOfClean(to);
  }

  lemma RenameDirectoryIn(m: Mem, root: string, from: string, to: string, orders: Orders)
    requires CleanRelative(root) && CleanRelative(from) && CleanRelative(to)
    requires LegalOrders(Project(m, root), from, to, orders)
    requires LegalOrders(m, In(root, from), In(root, to), Orders(InAll(root, orders.files), InAll(root, orders.dirs)))
    ensures Simulates(m, RenameDirectory(m, In(root, from), In(root, to), Orders(InAll(root, orders.files), InAll(root, orders.dirs))),
                      root, RenameDirectory(Project(m, root), from, to, orders))
  {
    hide CleanRelative, Inside, DirsBelow, In, Under, HasPrefix, LegalOrders, MoveAll, MoveDirectories, RenameDirectory;
    var (f, t) := (In(root, from), In(root, to));
    var (files, dirs) := (InAll(root, orders.files), InAll(root, orders.dirs));
    CleanIn(root, from);
    CleanIn(root, to);
    RenameDirectoryIs(m, f, t, Orders(files, dirs));
    RenameDirectoryIs(Project(m, root), from, to, orders);
    BelowMoveAll(m.files, root, orders.files, from, to);
    BelowMoveAll(m.modes, root, orders.files, from, to);
    BelowMoveAll(m.times, root, orders.files, from, to);
    OneBelow(root, to);
    OneBelow(root, from);
    DirsUpdate(m.dirs, root, {t}, {to}, {f}, {from});
    DirsMoveAll(m.dirs + {t} - {f}, root, orders.dirs, from, to);
    InStripped(root, from);
    InStripped(root, to);
    forall k | !Under(k, root) ensures !HasPrefix(k, f + "/") && !HasPrefix(k, t + "/") {
      PrefixIn(root, k, from);
      PrefixIn(root, k, to);
    }
    RenameOutside(m, root, f, t, Orders(files, dirs));
  }

  lemma RenameOutside(m: Mem, root: string, f: string, t: string, orders: Orders)
    requires forall k :: k in orders.files || k in orders.dirs ==> HasPrefix(k, f + "/")
    requires forall k :: !Under(k, root) ==> !HasPrefix(k, f + "/") && !HasPrefix(k, t + "/")
    requires Under(f, root) && Under(t, root)
    ensures SameOutside(m, Mem(MoveAll(m.files, orders.files, f + "/", t + "/"),
                               MoveAll(m.modes, orders.files, f + "/", t + "/"),
                               MoveDirectories(m.dirs + {t} - {f}, orders.dirs, f + "/", t + "/"),
                               MoveAll(m.times, orders.files, f + "/", t + "/")), root)
  {
    hide Under, HasPrefix, MoveAll, MoveDirectories;
    forall k | !Under(k, root)
      ensures k in MoveDirectories(m.dirs + {t} - {f}, orders.dirs, f + "/", t + "/") <==> k in m.dirs {
      MoveDirectoriesOutside(m.dirs + {t} - {f}, orders.dirs, f + "/", t + "/", k);
    }
    MapsOutside(m.files, root, f, t, orders.files);
    MapsOutside(m.modes, root, f, t, orders.files);
    MapsOutside(m.times, root, f, t, orders.files);
  }

  lemma MapsOutside<V>(m: map<string, V>, root: string, f: string, t: string, order: seq<string>)
    requires forall k :: k in order ==> HasPrefix(k, f + "/")
    requires forall k :: !Under(k, root) ==> !HasPrefix(k, f + "/") && !HasPrefix(k, t + "/")
    ensures var r := MoveAll(m, order, f + "/", t + "/");
            forall k :: !Under(k, root) ==> (k in r <==> k in m) && (k in m ==> r[k] == m[k])
  {
    hide Under, HasPrefix, MoveAll;
    var r := MoveAll(m, order, f + "/", t + "/");
    forall k | !Under(k, root) ensures (k in r <==> k in m) && (k in m ==> r[k] == m[k]) {
      MoveAllOutside(m, order, f + "/", t + "/", k);
    }
  }

  // Orders

  lemma EnumeratesIn(root: string, order: seq<string>, s: set<string>, below: set<string>)
    requires forall k :: In(root, k) in s <==> k in below
    requires forall k :: k in s ==> Under(k, root)
    ensures Enumerates(InAll(root, order), s) <==> Enumerates(order, below)
  {
    hide In, Under;
    var all := InAll(root, order);
    if Enumerates(order, below) {
      forall k ensures k in all <==> k in s {
        if k in all {
          var i :| 0 <= i < |order| && all[i] == k;
          assert order[i] in order;
        }
        if k in s {
          InStripped(root, k);
          assert Stripped(root, k) in order;
          var i :| 0 <= i < |order| && order[i] == Stripped(root, k);
          assert all[i] == k;
        }
      }
      forall i, j | 0 <= i < j < |all| ensures all[i] != all[j] {
        if all[i] == all[j] {
          InInjective(root, order[i], order[j]);
        }
      }
    }
    if Enumerates(all, s) {
      forall k ensures k in order <==> k in below {
        if k in order {
          var i :| 0 <= i < |order| && order[i] == k;
          assert all[i] in all;
        }
        if k in below {
          assert In(root, k) in all;
          var i :| 0 <= i < |order| && all[i] == In(root, k);
          InInjective(root, order[i], k);
        }
      }
      forall i, j | 0 <= i < j < |order| ensures order[i] != order[j] {
        assert all[i] != all[j];
      }
    }
  }

  lemma OrdersIn(m: Mem, root: string, from: string, to: string, orders: Orders)
    requires CleanRelative(root) && CleanRelative(from) && CleanRelative(to)
    ensures LegalOrders(m, In(root, from), In(root, to), Orders(InAll(root, orders.files), InAll(root, orders.dirs))) <==>
            LegalOrders(Project(m, root), from, to, orders)
  {
    hide CleanRelative, Inside, DirsBelow, In, Under, HasPrefix, Enumerates;
    var n := Project(m, root);
    CleanIn(root, from);
    ChildPrefixOfClean(from);
    ChildPrefixOfClean(In(root, from));
    var (f, t) := (In(root, from), In(root, to));
    var (files, filesBelow) := (set k | k in m.files && HasPrefix(k, f + "/"), set k | k in n.files && HasPrefix(k, from + "/"));
    var (dirs, dirsBelow) := (set k | k in RetargetedDirs(m, f, t) && HasPrefix(k, f + "/"),
                              set k | k in RetargetedDirs(n, from, to) && HasPrefix(k, from + "/"));
    forall k ensures In(root, k) in files <==> k in filesBelow {
      PrefixIn(root, k, from);
      BelowAt(m.files, root, k);
    }
    forall k ensures In(root, k) in dirs <==> k in dirsBelow {
      PrefixIn(root, k, from);
      OneBelow(root, to);
      OneBelow(root, from);
      DirsBelowAt(m.dirs, root, k);
    }
    forall k | k in files || k in dirs ensures Under(k, root) { PrefixIn(root, k, from); }
    EnumeratesIn(root, orders.files, files, filesBelow);
    EnumeratesIn(root, orders.dirs, dirs, dirsBelow);
  }

  /** Whatever orders the medium underneath takes, they are orders of the private medium with the root in front. */
  lemma OrdersComeFromInside(m: Mem, root: string, from: string, to: string, orders: Orders) returns (inside: Orders)
    requires CleanRelative(root) && CleanRelative(from) && CleanRelative(to)
    requires LegalOrders(m, In(root, from), In(root, to), orders)
    ensures orders == Orders(InAll(root, inside.files), InAll(root, inside.dirs))
    ensures LegalOrders(Project(m, root), from, to, inside)
  {
    hide CleanRelative, In, Under, LegalOrders;
    CleanIn(root, from);
    CleanIn(root, to);
    RenameDirectoryIs(m, In(root, from), In(root, to), orders);
    var files := StrippedAll(root, orders.files, from);
    var dirs := StrippedAll(root, orders.dirs, from);
    inside := Orders(files, dirs);
    OrdersIn(m, root, from, to, inside);
  }

  lemma StrippedAll(root: string, order: seq<string>, from: string) returns (inside: seq<string>)
    requires forall k :: k in order ==> HasPrefix(k, In(root, from) + "/")
    ensures order == InAll(root, inside)
  {
    hide In, Under, HasPrefix;
    forall i | 0 <= i < |order| ensures Under(order[i], root) && In(root, Stripped(root, order[i])) == order[i] {
      assert order[i] in order;
      PrefixIn(root, order[i], from);
      InStripped(root, order[i]);
    }
    inside := seq(|order|, i requires 0 <= i < |order| => Stripped(root, order[i]));
  }

  // The simulation

  lemma LegalIn(m: Mem, root: string, op: Op)
    requires CleanRelative(root) && CleanOp(op)
    ensures Legal(m, Scoped(root, op)) <==> Legal(Project(m, root), op)
  {
    hide CleanRelative, LegalOrders, In, Project;
    if op.OpRename? {
      OrdersIn(m, root, op.path, op.to, op.orders);
    }
  }

  lemma WriteIn(m: Mem, root: string, p: string, content: Bytes, mode: Mode, now: Time)
    requires Anchored(m, root) && CleanRelative(p)
    ensures WriteMode(m, In(root, p), content, mode, now).status == WriteMode(Project(m, root), p, content, mode, now).status
    ensures Simulates(m, WriteMode(m, In(root, p), content, mode, now).mem, root, WriteMode(Project(m, root), p, content, mode, now).mem)
    ensures CloseWriter(m, In(root, p), content, mode, now).status == CloseWriter(Project(m, root), p, content, mode, now).status
    ensures Simulates(m, CloseWriter(m, In(root, p), content, mode, now).mem, root,
                      CloseWriter(Project(m, root), p, content, mode, now).mem)
  {
    hide CleanRelative, Project, In, Simulates, Anchored, WithFile, HasFileAncestor;
    FileAncestorIn(m, root, p);
    PathIn(m, root, p);
    WithFileIn(m, root, p, content, mode, now);
    SimulatesNothing(m, root);
  }

  lemma RenameIn(m: Mem, root: string, from: string, to: string, orders: Orders)
    requires CleanRelative(root) && CleanRelative(from) && CleanRelative(to)
    requires LegalOrders(Project(m, root), from, to, orders)
    requires LegalOrders(m, In(root, from), In(root, to), Orders(InAll(root, orders.files), InAll(root, orders.dirs)))
    ensures var orders' := Orders(InAll(root, orders.files), InAll(root, orders.dirs));
            var (a, b) := (Rename(m, In(root, from), In(root, to), orders'), Rename(Project(m, root), from, to, orders));
            a.status == b.status && Simulates(m, a.mem, root, b.mem)
  {
    hide CleanRelative, Project, In, Simulates, LegalOrders, RenameFile, RenameDirectory, DirectoryExists, HasChildren;
    PathIn(m, root, from);
    DirectoryIn(m, root, from);
    RenameFileIn(m, root, from, to);
    RenameDirectoryIn(m, root, from, to, orders);
    SimulatesNothing(m, root);
  }

  /**
   One operation through the scoped medium: the same outcome as on the private medium, the
   private medium's new state below the root, and nothing changed outside the root.
   */
  lemma ScopedStep(m: Mem, root: string, op: Op)
    requires Anchored(m, root) && CleanOp(op) && Legal(Project(m, root), op)
    ensures Legal(m, Scoped(root, op))
    ensures Apply(m, Scoped(root, op)).status == Apply(Project(m, root), op).status
    ensures Simulates(m, Apply(m, Scoped(root, op)).mem, root, Apply(Project(m, root), op).mem)
    ensures Anchored(Apply(m, Scoped(root, op)).mem, root)
  {
    hide CleanRelative, LegalOrders, In, Project, Simulates, Anchored, SameOutside,
      WriteMode, CloseWriter, EnsureDir, Delete, DeleteAll, Rename, InAll;
    AnchoredIsClean(m, root);
    LegalIn(m, root, op);
    match op {
      case OpWrite(p, content, mode, now) => WriteIn(m, root, p, content, mode, now);
      case OpClose(p, content, mode, now) => WriteIn(m, root, p, content, mode, now);
      case OpEnsureDir(p) => EnsureDirIn(m, root, p);
      case OpDelete(p) => DeleteIn(m, root, p);
      case OpDeleteAll(p) => DeleteAllIn(m, root, p);
      case OpRename(from, to, orders) => RenameIn(m, root, from, to, orders);
    }
    SimulatesOutside(m, Apply(m, Scoped(root, op)).mem, root, Apply(Project(m, root), op).mem);
    OutsideKeepsAnchor(m, Apply(m, Scoped(root, op)).mem, root);
  }

  lemma SimulatesNothing(m: Mem, root: string)
    ensures Simulates(m, m, root, Project(m, root))
  {
  }

  lemma SimulatesOutside(m: Mem, n: Mem, root: string, private: Mem)
    requires Simulates(m, n, root, private)
    ensures SameOutside(m, n, root)
  {
  }

  lemma PathIn(m: Mem, root: string, p: string)
    ensures In(root, p) in m.files <==> p in Project(m, root).files
    ensures In(root, p) in m.dirs <==> p in Project(m, root).dirs
  {
    hide In, Inside, DirsBelow;
    BelowAt(m.files, root, p);
    DirsBelowAt(m.dirs, root, p);
  }

  ghost predicate IsScopedRun(root: string, states: seq<Mem>, ops: seq<Op>) {
    |states| == |ops| + 1 &&
    forall i | 0 <= i < |ops| ::
      CleanOp(ops[i]) && Legal(states[i], Scoped(root, ops[i])) && states[i + 1] == Apply(states[i], Scoped(root, ops[i])).mem
  }

  /** A run through the scoped medium is, below the root, the same run of a private medium. */
  lemma {:induction false} ScopedRun(root: string, states: seq<Mem>, ops: seq<Op>)
    requires IsScopedRun(root, states, ops) && Anchored(states[0], root)
    ensures IsRun(seq(|states|, i requires 0 <= i < |states| => Project(states[i], root)), ops)
    ensures forall i | 0 <= i < |states| :: Anchored(states[i], root) && SameOutside(states[0], states[i], root)
  {
    hide Anchored, Legal, Apply, Scoped, Project, CleanOp, Simulates, SameOutside;
    SimulatesNothing(states[0], root);
    SimulatesOutside(states[0], states[0], root, Project(states[0], root));
    for n := 0 to |ops|
      invariant forall i | 0 <= i <= n :: Anchored(states[i], root) && SameOutside(states[0], states[i], root)
      invariant forall i | 0 <= i < n ::
                  Legal(Project(states[i], root), ops[i]) &&
                  Project(states[i + 1], root) == Apply(Project(states[i], root), ops[i]).mem
    {
      AnchoredIsClean(states[n], root);
      LegalIn(states[n], root, ops[n]);
      ScopedStep(states[n], root, ops[n]);
      SimulatesIs(states[n], states[n + 1], root, Apply(Project(states[n], root), ops[n]).mem);
      OutsideTransitive(states[0], states[n], states[n + 1], root);
    }
  }

  lemma SimulatesIs(m: Mem, n: Mem, root: string, private: Mem)
    requires Simulates(m, n, root, private)
    ensures Project(n, root) == private && SameOutside(m, n, root)
  {
  }

  lemma OutsideTransitive(a: Mem, b: Mem, c: Mem, root: string)
    requires SameOutside(a, b, root) && SameOutside(b, c, root)
    ensures SameOutside(a, c, root)
  {
    hide Under;
  }

  /** Two workspaces neither of which lies in the other never see each other's operations. */
  lemma WorkspacesApart(m: Mem, n: Mem, mine: string, other: string)
    requires SameOutside(m, n, mine) && mine != other && !Under(mine, other) && !Under(other, mine)
    ensures Project(n, other) == Project(m, other)
    ensures Anchored(m, other) ==> Anchored(n, other)
  {
    hide Inside, DirsBelow, In, Under, CleanRelative, Ancestors;
    forall k ensures !Under(In(other, k), mine) {
      InStripped(other, k);
      if Under(In(other, k), mine) {
        UnderComparable(In(other, k), other, mine);
      }
    }
    SameInside(m.files, n.files, other);
    SameInside(m.modes, n.modes, other);
    SameInside(m.times, n.times, other);
    forall k ensures k in DirsBelow(n.dirs, other) <==> k in DirsBelow(m.dirs, other) {
      DirsBelowAt(m.dirs, other, k);
      DirsBelowAt(n.dirs, other, k);
    }
    if Anchored(m, other) {
      AncestorsAreUnder(other);
      forall a | a in Ancestors(other) ensures !Under(a, mine) {
        if Under(a, mine) {
          UnderTransitive(other, a, mine);
        }
      }
    }
  }

  lemma SameInside<V>(a: map<string, V>, b: map<string, V>, root: string)
    requires forall k :: (In(root, k) in a <==> In(root, k) in b) && (In(root, k) in a ==> a[In(root, k)] == b[In(root, k)])
    ensures Inside(a, root) == Inside(b, root)
  {
    hide Inside, In;
    var (x, y) := (Inside(a, root), Inside(b, root));
    forall k ensures (k in x <==> k in y) && (k in x ==> x[k] == y[k]) {
      BelowAt(a, root, k);
      BelowAt(b, root, k);
    }
  }
}
