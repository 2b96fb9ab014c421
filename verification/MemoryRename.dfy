/**
 The in-place directory rename of the in-memory medium (go/io.go): when neither prefix
 lies inside the other, every order of its two loops is one simultaneous substitution; when one
 does, this holds exactly where no move runs into another.
 */
module MemoryRename {
  import opened Paths
  import opened PrefixMaps
  import opened MemoryState

  /** All the directories at once, the renamed one included. */
  function SubstitutedDirs(dirs: set<string>, from: string, to: string): set<string> {
    set d | d in dirs :: Renamed(d, from, to)
  }

  function RenameAtOnce(m: Mem, from: string, to: string): Mem {
    Mem(Substituted(m.files, ChildPrefix(from), ChildPrefix(to)),
        Substituted(m.modes, ChildPrefix(from), ChildPrefix(to)),
        SubstitutedDirs(RetargetedDirs(m, from, to), ChildPrefix(from), ChildPrefix(to)),
        Substituted(m.times, ChildPrefix(from), ChildPrefix(to)))
  }

  function Marks(dirs: set<string>): map<string, bool> {
    map d | d in dirs :: true
  }

  lemma {:induction false} MoveDirectoriesMarks(dirs: set<string>, order: seq<string>, from: string, to: string)
    requires forall k :: k in order ==> HasPrefix(k, from) && k in dirs
    requires forall i, j | 0 <= i < j < |order| :: order[i] != order[j]
    ensures MoveDirectories(dirs, order, from, to) == MoveAll(Marks(dirs), order, from, to).Keys
    decreases |order|
  {
    if order != [] {
      var first := order[0];
      assert first in order;
      var dest := Moved(first, from, to);
      var next := dirs + {dest} - {first};
      forall k | k in order[1..] ensures HasPrefix(k, from) && k in next {
        var i :| 0 <= i < |order[1..]| && order[1..][i] == k;
        assert order[i + 1] == k != order[0];
        assert k in order;
      }
      assert MoveKey(Marks(dirs), first, dest) == Marks(next);
      MoveDirectoriesMarks(next, order[1..], from, to);
    }
  }

  lemma MarksSubstituted(dirs: set<string>, from: string, to: string)
    ensures Substituted(Marks(dirs), from, to).Keys == SubstitutedDirs(dirs, from, to)
  {
    assert forall d :: d in Marks(dirs) <==> d in dirs;
    assert Substituted(Marks(dirs), from, to).Keys == set x | x in Marks(dirs) :: Renamed(x, from, to);
  }

  /** No file and no directory to be moved goes where another one to be moved still is. */
  predicate MovesApart(m: Mem, from: string, to: string) {
    Unchained(m.files.Keys, ChildPrefix(from), ChildPrefix(to)) &&
    Unchained(RetargetedDirs(m, from, to), ChildPrefix(from), ChildPrefix(to))
  }

  lemma RenameIsAtOnce(m: Mem, from: string, to: string, orders: Orders)
    requires SameKeys(m) && LegalOrders(m, from, to, orders) && MovesApart(m, from, to)
    ensures RenameDirectory(m, from, to, orders) == RenameAtOnce(m, from, to)
  {
    var (source, target) := (ChildPrefix(from), ChildPrefix(to));
    var dirs := RetargetedDirs(m, from, to);
    MovesApartIs(m, from, to);
    hide *;
    RenamedFiles(m, from, to, orders);
    MoveAllSubstitutes(m.files, orders.files, source, target);
    MoveAllSubstitutes(m.modes, orders.files, source, target);
    MoveAllSubstitutes(m.times, orders.files, source, target);
    MoveAllSubstitutes(Marks(dirs), orders.dirs, source, target);
    MoveDirectoriesMarks(dirs, orders.dirs, source, target);
    MarksSubstituted(dirs, source, target);
    RenameUnfold(m, from, to, orders);
  }

  lemma MovesApartIs(m: Mem, from: string, to: string)
    requires SameKeys(m) && MovesApart(m, from, to)
    ensures Unchained(m.files.Keys, ChildPrefix(from), ChildPrefix(to))
    ensures Unchained(m.modes.Keys, ChildPrefix(from), ChildPrefix(to))
    ensures Unchained(m.times.Keys, ChildPrefix(from), ChildPrefix(to))
    ensures Unchained(Marks(RetargetedDirs(m, from, to)).Keys, ChildPrefix(from), ChildPrefix(to))
  {
    hide Unchained;
    assert Marks(RetargetedDirs(m, from, to)).Keys == RetargetedDirs(m, from, to);
  }

  /** With neither path below the other, every order of the loops is the simultaneous substitution. */
  lemma RenameDirectorySubstitutes(m: Mem, from: string, to: string, orders: Orders)
    requires SameKeys(m) && LegalOrders(m, from, to, orders)
    requires Incomparable(ChildPrefix(from), ChildPrefix(to))
    ensures RenameDirectory(m, from, to, orders) == RenameAtOnce(m, from, to)
  {
    hide RenameDirectory, RenameAtOnce, LegalOrders, Unchained, Incomparable;
    IncomparableUnchained(m.files.Keys, ChildPrefix(from), ChildPrefix(to));
    IncomparableUnchained(RetargetedDirs(m, from, to), ChildPrefix(from), ChildPrefix(to));
    RenameIsAtOnce(m, from, to, orders);
  }

  ghost predicate AtOnceInOrder(m: Mem, from: string, to: string, orders: Orders) {
    LegalOrders(m, from, to, orders) ==> RenameDirectory(m, from, to, orders) == RenameAtOnce(m, from, to)
  }

  /**
   Nested and equal paths included: the rename is the simultaneous substitution in every
   order of its loops exactly when no move runs into another.
   */
  lemma RenameDirectoryExact(m: Mem, from: string, to: string)
    requires SameKeys(m)
    ensures (forall orders :: AtOnceInOrder(m, from, to, orders)) <==> MovesApart(m, from, to)
  {
    hide RenameDirectory, RenameAtOnce, LegalOrders, Unchained, SameKeys;
    if MovesApart(m, from, to) {
      forall orders | LegalOrders(m, from, to, orders) ensures AtOnceInOrder(m, from, to, orders) {
        RenameIsAtOnce(m, from, to, orders);
      }
    } else {
      var orders := LosingOrders(m, from, to);
      assert !AtOnceInOrder(m, from, to, orders);
    }
  }

  lemma LosingOrders(m: Mem, from: string, to: string) returns (orders: Orders)
    requires !MovesApart(m, from, to)
    ensures LegalOrders(m, from, to, orders)
    ensures RenameDirectory(m, from, to, orders) != RenameAtOnce(m, from, to)
  {
    hide MoveAll, MoveDirectories, Substituted, SubstitutedDirs, HasPrefix, Enumerates, Unchained;
    var (source, target) := (ChildPrefix(from), ChildPrefix(to));
    var dirs := RetargetedDirs(m, from, to);
    var files := SomeOrder(set f | f in m.files && HasPrefix(f, source));
    var directories := SomeOrder(set d | d in dirs && HasPrefix(d, source));
    if !Unchained(m.files.Keys, source, target) {
      files := ChainLoses(m.files, source, target);
    } else {
      assert Marks(dirs).Keys == dirs;
      directories := ChainLoses(Marks(dirs), source, target);
      MarksMoved(dirs, directories, source, target);
    }
    orders := Orders(files, directories);
  }

  lemma MarksMoved(dirs: set<string>, order: seq<string>, from: string, to: string)
    requires Enumerates(order, set d | d in Marks(dirs) && HasPrefix(d, from))
    requires MoveAll(Marks(dirs), order, from, to) != Substituted(Marks(dirs), from, to)
    ensures Enumerates(order, set d | d in dirs && HasPrefix(d, from))
    ensures MoveDirectories(dirs, order, from, to) != SubstitutedDirs(dirs, from, to)
  {
    hide MoveAll, MoveDirectories, Substituted, SubstitutedDirs, HasPrefix;
    assert (set d | d in Marks(dirs) && HasPrefix(d, from)) == set d | d in dirs && HasPrefix(d, from);
    MoveDirectoriesMarks(dirs, order, from, to);
    MarksSubstituted(dirs, from, to);
    OnlyKeysMatter(MoveAll(Marks(dirs), order, from, to), Substituted(Marks(dirs), from, to)) by {
      AllMarked(dirs, order, from, to);
    }
  }

  lemma OnlyKeysMatter(a: map<string, bool>, b: map<string, bool>)
    requires (forall k :: k in a ==> a[k]) && (forall k :: k in b ==> b[k])
    ensures a.Keys == b.Keys ==> a == b
  {
    assert forall k :: k in a <==> k in a.Keys;
    assert forall k :: k in b <==> k in b.Keys;
  }

  lemma AllMarked(dirs: set<string>, order: seq<string>, from: string, to: string)
    requires forall k :: k in order ==> HasPrefix(k, from)
    ensures var a := MoveAll(Marks(dirs), order, from, to); forall k :: k in a ==> a[k]
    ensures var b := Substituted(Marks(dirs), from, to); forall k :: k in b ==> b[k]
  {
    MarkedMoves(Marks(dirs), order, from, to);
  }

  lemma {:induction false} MarkedMoves(marks: map<string, bool>, order: seq<string>, from: string, to: string)
    requires (forall k :: k in marks ==> marks[k]) && forall k :: k in order ==> HasPrefix(k, from)
    ensures var a := MoveAll(marks, order, from, to); forall k :: k in a ==> a[k]
    decreases |order|
  {
    hide HasPrefix;
    if order != [] {
      assert order[0] in order;
      var next := MoveKey(marks, order[0], Moved(order[0], from, to));
      assert forall k :: k in next ==> next[k];
      MarkedMoves(next, order[1..], from, to);
      assert MoveAll(marks, order, from, to) == MoveAll(next, order[1..], from, to);
    }
  }

  lemma RenamedFiles(m: Mem, from: string, to: string, orders: Orders)
    requires SameKeys(m) && LegalOrders(m, from, to, orders)
    ensures Enumerates(orders.files, set k | k in m.files && HasPrefix(k, ChildPrefix(from)))
    ensures Enumerates(orders.files, set k | k in m.modes && HasPrefix(k, ChildPrefix(from)))
    ensures Enumerates(orders.files, set k | k in m.times && HasPrefix(k, ChildPrefix(from)))
    ensures var dirs := RetargetedDirs(m, from, to);
            Enumerates(orders.dirs, set k | k in Marks(dirs) && HasPrefix(k, ChildPrefix(from))) &&
            (forall k :: k in orders.dirs ==> HasPrefix(k, ChildPrefix(from)) && k in dirs) &&
            forall i, j | 0 <= i < j < |orders.dirs| :: orders.dirs[i] != orders.dirs[j]
  {
    assert forall k :: k in m.files <==> k in m.files.Keys;
    assert forall k :: k in m.modes <==> k in m.modes.Keys;
    assert forall k :: k in m.times <==> k in m.times.Keys;
  }

  lemma RenameUnfold(m: Mem, from: string, to: string, orders: Orders)
    requires LegalOrders(m, from, to, orders)
    ensures RenameDirectory(m, from, to, orders) ==
            Mem(MoveAll(m.files, orders.files, ChildPrefix(from), ChildPrefix(to)),
                MoveAll(m.modes, orders.files, ChildPrefix(from), ChildPrefix(to)),
                MoveDirectories(RetargetedDirs(m, from, to), orders.dirs, ChildPrefix(from), ChildPrefix(to)),
                MoveAll(m.times, orders.files, ChildPrefix(from), ChildPrefix(to)))
    ensures RenameAtOnce(m, from, to) ==
            Mem(Substituted(m.files, ChildPrefix(from), ChildPrefix(to)),
                Substituted(m.modes, ChildPrefix(from), ChildPrefix(to)),
                SubstitutedDirs(RetargetedDirs(m, from, to), ChildPrefix(from), ChildPrefix(to)),
                Substituted(m.times, ChildPrefix(from), ChildPrefix(to)))
  {
  }

  /** Everything outside both subtrees is as it was. */
  lemma RenameDirectoryOutside(m: Mem, from: string, to: string, orders: Orders, key: string)
    requires SameKeys(m) && LegalOrders(m, from, to, orders)
    requires Incomparable(ChildPrefix(from), ChildPrefix(to))
    requires !HasPrefix(key, ChildPrefix(from)) && !HasPrefix(key, ChildPrefix(to))
    ensures var r := RenameDirectory(m, from, to, orders);
            (key in r.files <==> key in m.files) && (key in m.files ==> r.files[key] == m.files[key]) &&
            (key in r.modes <==> key in m.modes) && (key in m.modes ==> r.modes[key] == m.modes[key]) &&
            (key in r.times <==> key in m.times) && (key in m.times ==> r.times[key] == m.times[key]) &&
            (key != from && key != to ==> (key in r.dirs <==> key in m.dirs))
  {
    hide MoveAll, MoveDirectories, Substituted;
    RenameDirectorySubstitutes(m, from, to, orders);
    SubstitutedAt(m.files, key, ChildPrefix(from), ChildPrefix(to));
    SubstitutedAt(m.modes, key, ChildPrefix(from), ChildPrefix(to));
    SubstitutedAt(m.times, key, ChildPrefix(from), ChildPrefix(to));
    SubstitutedDirAt(RetargetedDirs(m, from, to), ChildPrefix(from), ChildPrefix(to), key);
  }

  lemma SubstitutedDirAt(dirs: set<string>, from: string, to: string, key: string)
    requires Incomparable(from, to)
    ensures key in SubstitutedDirs(dirs, from, to) <==>
            if HasPrefix(key, to) then Origin(key, from, to) in dirs || key in dirs
            else key in dirs && !HasPrefix(key, from)
  {
    if HasPrefix(key, to) {
      var origin := Origin(key, from, to);
      MovedBack(key, to, from);
      IncomparableApart(key, to, from);
      assert Renamed(origin, from, to) == key;
      assert Renamed(key, from, to) == key;
    } else if key in dirs && !HasPrefix(key, from) {
      assert Renamed(key, from, to) == key;
    }
    if d :| d in dirs && Renamed(d, from, to) == key {
      if HasPrefix(d, from) {
        MovedBack(d, from, to);
      }
    }
  }

  /** A renamed file arrives with its content exactly when the two paths differ; renamed onto itself it is gone. */
  lemma RenameFileExact(m: Mem, from: string, to: string)
    requires SameKeys(m) && from in m.files
    ensures var r := RenameFile(m, from, to);
            (to in r.files && r.files[to] == m.files[from] && r.modes[to] == m.modes[from] <==> from != to) &&
            from !in r.files
  {
    MoveKeyKeys(m.files, m.modes, from, to);
    var r := RenameFile(m, from, to);
    assert to in r.files ==> to in r.modes by { assert r.files.Keys == r.modes.Keys; }
  }

  /**
   With the target inside the source the order shows: renaming `a` to `a/a` may lose the
   file that was at `a/a/x`, or keep it, depending on how the map is walked.
   */
  lemma NestedRenameOrderShows(x: Bytes, y: Bytes)
    ensures var files := map["a/x" := x, "a/a/x" := y];
            MoveAll(files, ["a/x", "a/a/x"], "a/", "a/a/") == map["a/a/a/x" := x] &&
            MoveAll(files, ["a/a/x", "a/x"], "a/", "a/a/") == map["a/a/x" := x, "a/a/a/x" := y]
  {
    var files := map["a/x" := x, "a/a/x" := y];
    var (p, q, r) := ("a/x", "a/a/x", "a/a/a/x");
    assert Moved(p, "a/", "a/a/") == q && Moved(q, "a/", "a/a/") == r;
    assert p != q && q != r && p != r by { assert |p| == 3 && |q| == 5 && |r| == 7; }
    assert [p, q][1..] == [q] && [q, p][1..] == [p];
    assert MoveKey(files, p, q) == map[q := x];
    assert MoveKey(map[q := x], q, r) == map[r := x];
    assert MoveKey(files, q, r) == map[p := x, r := y];
    assert MoveKey(map[p := x, r := y], p, q) == map[q := x, r := y];
    MoveTwo(files, p, q, "a/", "a/a/");
    MoveTwo(files, q, p, "a/", "a/a/");
  }

  lemma MoveTwo<V>(m: map<string, V>, a: string, b: string, from: string, to: string)
    requires HasPrefix(a, from) && HasPrefix(b, from)
    ensures MoveAll(m, [a, b], from, to) == MoveKey(MoveKey(m, a, Moved(a, from, to)), b, Moved(b, from, to))
  {
    var next := MoveKey(m, a, Moved(a, from, to));
    assert [a, b][1..] == [b] && [b][1..] == [];
    assert MoveAll(next, [b], from, to) == MoveAll(MoveKey(next, b, Moved(b, from, to)), [], from, to);
  }
}
