/**
 The recursive walk behind packing and unpacking a cube (go/cube/cube.go).  For a tree this
 module says exactly when it comes to an end, and that it then visits every file once.
 */
module ArchiveWalk {
  import opened Paths
  import opened PathTree
  import opened PathBelow
  import PathLaws
  import opened MemoryState
  import opened MemoryTree
  import opened DirEntries
  import opened MemoryListing

  function ArchiveChildPath(parent: string, name: string): string {
    var child := TrimPrefix(Clean(name), "/");
    if child == "." then parent
    else if parent == "" then child
    else if child == parent || HasPrefix(child, parent + "/") then child
    else PathJoin([parent, child])
  }

  /** What the walk looks at in a directory entry. */
  datatype Seen = Seen(name: string, isDir: bool)

  /** A file the walk visits. */
  datatype Item = Item(name: string, content: Bytes)

  /** `Stopped`: the visitor failed on the last item.  `TooDeep`: the calls nest deeper than there is stack. */
  datatype Outcome = Completed | Failed | Stopped | TooDeep

  ghost predicate ShowsEntry(m: Mem, prefix: string, e: Seen) {
    if e.isDir then exists p :: ShowsDirectory(m, p, prefix) && NameBelow(p, prefix) == e.name
    else e.name != "" && '/' !in e.name && prefix + e.name in m.files
  }

  ghost predicate Names(entries: seq<Seen>, name: string) {
    exists e :: e in entries && e.name == name
  }

  /** A directory listed the way a tree lists it, in any order. */
  ghost predicate Shows(m: Mem, dir: string, entries: seq<Seen>) {
    && (forall i, j | 0 <= i < j < |entries| :: entries[i].name != entries[j].name)
    && (forall e :: e in entries ==> ShowsEntry(m, ChildPrefix(dir), e))
    && (forall p :: Stored(m, p) && Below(p, ChildPrefix(dir)) ==> Names(entries, NameBelow(p, ChildPrefix(dir))))
  }

  /** The walk of a directory, with room for `depth` nested calls, visits `log` and ends with `outcome`. */
  ghost predicate Walks(m: Mem, dir: string, log: seq<Item>, outcome: Outcome, depth: nat)
    decreases depth, 0
  {
    if depth == 0 then log == [] && outcome == TooDeep
    else if !Lists(m, dir) then log == [] && outcome == Failed
    else exists entries :: Shows(m, dir, entries) && WalksEntries(m, dir, entries, log, outcome, depth - 1)
  }

  ghost predicate WalksEntries(m: Mem, dir: string, entries: seq<Seen>, log: seq<Item>, outcome: Outcome, depth: nat)
    decreases depth, |entries| + 1
  {
    if entries == [] then log == [] && outcome == Completed
    else
      var child := ArchiveChildPath(dir, entries[0].name);
      if entries[0].isDir then
        exists cut: nat, below | cut <= |log| :: WalksBoth(m, dir, child, entries[1..], log, cut, below, outcome, depth)
      else if child !in m.files then log == [] && outcome == Failed
      else
        log != [] && log[0] == Item(child, m.files[child]) &&
        ((outcome == Stopped && |log| == 1) || WalksEntries(m, dir, entries[1..], log[1..], outcome, depth))
  }

  /** A subdirectory, and, when its walk came to its end, the entries after it. */
  ghost predicate WalksBoth(m: Mem, dir: string, child: string, rest: seq<Seen>, log: seq<Item>, cut: nat,
      below: Outcome, outcome: Outcome, depth: nat)
    requires cut <= |log|
    decreases depth, |rest| + 2, 1
  {
    Walks(m, child, log[..cut], below, depth) &&
    if below == Completed then WalksEntries(m, dir, rest, log[cut..], outcome, depth)
    else outcome == below && cut == |log|
  }

  /** A directory at the top holds a child of its own name. */
  ghost predicate Confused(m: Mem) {
    exists d :: ConfusedAt(m, d)
  }

  predicate ConfusedAt(m: Mem, d: string) {
    d in m.dirs && '/' !in d && Stored(m, d + "/" + d)
  }

  // Children

  lemma ChildPathOf(dir: string, name: string)
    requires Listable(dir) && Normal(name)
    ensures ArchiveChildPath(dir, name) == if dir == name then dir else Joined(dir, name)
  {
    hide Split, Fold, Join, Clean, PathJoin, CleanRelative;
    NormalIsClean(name);
    CleanRelativeFixed(name);
    assert !HasPrefix(name, "/");
    if dir != "" {
      assert !HasPrefix(name, dir + "/") by { NoSlashPrefix(name, dir); }
      CleanDirectoryBelow("", dir);
      JoinClean(dir, name);
    }
  }

  /** Names that are no ordinary components: what cleans to nothing is the directory, and a whole path stays one. */
  lemma ChildPathEdges(dir: string, p: string)
    requires Listable(dir) && CleanRelative(p)
    ensures ArchiveChildPath(dir, "") == ArchiveChildPath(dir, ".") == ArchiveChildPath(dir, "/") == dir
    ensures ArchiveChildPath("", p) == ArchiveChildPath("", "/" + p) == ArchiveChildPath("", p + "/") == p
    ensures dir != "" ==> ArchiveChildPath(dir, dir + "/" + p) == ArchiveChildPath(dir, "/" + dir + "/" + p) == dir + "/" + p
  {
    hide Clean, CleanRelative, ArchiveChildPath, HasPrefix;
    EmptyChild(dir);
    if dir != "" {
      BelowIsClean(dir, p);
      WholeChild(dir, p);
    }
    TopChildren(p);
  }

  lemma EmptyChild(dir: string)
    requires Listable(dir)
    ensures ArchiveChildPath(dir, "") == ArchiveChildPath(dir, ".") == ArchiveChildPath(dir, "/") == dir
  {
    hide Clean, CleanRelative, Join;
    assert Clean("") == Clean(".") == "." && Clean("/") == "/" by { CleanTops(); }
    assert TrimPrefix("/", "/") == "" && TrimPrefix(".", "/") == "." by { assert "/"[1..] == "" && "."[..1] == "."; }
    if dir != "" {
      CleanRelativeFixed(dir);
      OneKept(dir);
    }
  }

  lemma OneKept(dir: string)
    requires dir != ""
    ensures Join(NonEmpty([dir, ""])) == dir && NonEmpty([dir, ""]) != []
  {
    assert [dir, ""][1..] == [""] && [""][1..] == [];
    assert NonEmpty([""]) == NonEmpty([]) == [];
  }

  lemma TopChildren(p: string)
    requires CleanRelative(p)
    ensures ArchiveChildPath("", p) == ArchiveChildPath("", "/" + p) == ArchiveChildPath("", p + "/") == p
  {
    hide Clean, CleanRelative, HasPrefix;
    SlashedClean(p);
    assert Normal("a");
    PathLaws.CleanEnds(p, "a");
  }

  lemma WholeChild(dir: string, p: string)
    requires dir != "" && CleanRelative(dir + "/" + p)
    ensures ArchiveChildPath(dir, dir + "/" + p) == ArchiveChildPath(dir, "/" + dir + "/" + p) == dir + "/" + p
  {
    hide Clean, CleanRelative;
    var whole := dir + "/" + p;
    SlashedClean(whole);
    assert HasPrefix(whole, dir + "/") by { assert whole[..|dir| + 1] == dir + "/"; }
    assert "/" + dir + "/" + p == "/" + whole;
  }

  lemma CleanTops()
    ensures Clean("") == Clean(".") == "." && Clean("/") == "/"
  {
  }

  lemma BelowIsClean(dir: string, p: string)
    requires CleanRelative(dir) && CleanRelative(p)
    ensures CleanRelative(dir + "/" + p)
  {
    SplitConcat(dir, p);
  }

  lemma SlashedClean(p: string)
    requires CleanRelative(p)
    ensures p != "" && Clean(p) == p && !HasPrefix(p, "/") && p != "."
    ensures Clean("/" + p) == "/" + p && TrimPrefix("/" + p, "/") == p
  {
    CleanRelativeFixed(p);
    JoinSplit(p);
    assert forall i | 0 <= i < |Split(p)| :: Split(p)[i] in Split(p);
    PathLaws.CleanKeeps(Split(p), true);
    assert ("/" + p)[1..] == p;
  }

  lemma NoSlashPrefix(name: string, dir: string)
    requires '/' !in name
    ensures !HasPrefix(name, dir + "/")
  {
    assert (dir + "/")[|dir|] == '/';
    assert |dir| < |name| ==> name[..|dir| + 1][|dir|] == name[|dir|] != '/';
  }

  /** The files an entry stands for. */
  predicate Covers(dir: string, name: string, file: string) {
    file == Joined(dir, name) || Under(file, Joined(dir, name))
  }

  lemma CoveredOnce(dir: string, a: string, b: string, file: string)
    requires Normal(a) && Normal(b) && Covers(dir, a, file) && Covers(dir, b, file)
    ensures a == b
  {
    hide Under;
    var (p, q) := (Joined(dir, a), Joined(dir, b));
    if file != p && file != q {
      UnderComparable(file, p, q);
    }
    SiblingsApart(dir, a, b);
    SiblingsApart(dir, b, a);
  }

  lemma SiblingsApart(dir: string, a: string, b: string)
    requires Normal(a) && Normal(b)
    ensures !Under(Joined(dir, a), Joined(dir, b))
    ensures Joined(dir, a) == Joined(dir, b) ==> a == b
  {
    if dir == "" {
      UnderChild("", a, b);
    } else {
      UnderChild(dir, a, dir + "/" + b);
      assert |dir| < |dir + "/" + b|;
      assert !Under(dir, dir + "/" + b);
      if dir + "/" + a == dir + "/" + b {
        assert a == (dir + "/" + a)[|dir| + 1..] == b;
      }
    }
  }

  lemma CoveredIsBelow(dir: string, name: string, file: string)
    requires Listable(dir) && Normal(name) && Covers(dir, name, file)
    ensures Below(file, ChildPrefix(dir))
  {
    hide CleanRelative;
    if dir != "" {
      ChildPrefixOfClean(dir);
      var p := dir + "/" + name;
      assert |file| >= |p| && file[..|p|] == p;
      assert file[..|dir| + 1] == p[..|dir| + 1] == dir + "/";
    }
  }

  /** In a tree, the entries of a directory are its children, and every child has one. */
  lemma ShownChild(m: Mem, dir: string, e: Seen)
    requires Tree(m) && Listable(dir) && ShowsEntry(m, ChildPrefix(dir), e)
    ensures Normal(e.name) && CleanRelative(Joined(dir, e.name))
    ensures if e.isDir then Joined(dir, e.name) in m.dirs else Joined(dir, e.name) in m.files
  {
    hide Ancestors, CleanRelative, ChildPrefix, Split, Under, Less;
    var prefix := ChildPrefix(dir);
    var q := Joined(dir, e.name);
    if e.isDir {
      var p :| ShowsDirectory(m, p, prefix) && NameBelow(p, prefix) == e.name;
      NameBelowClean(m, dir, p);
      if Under(p, q) {
        TreeUnder(m, p, q);
      }
    } else {
      var p := prefix + e.name;
      FirstOf(e.name);
      assert p[|prefix|..] == e.name;
      assert Stored(m, p);
      NameBelowClean(m, dir, p);
    }
  }

  lemma BelowIsCovered(m: Mem, dir: string, file: string)
    requires Tree(m) && Listable(dir) && Stored(m, file) && Below(file, ChildPrefix(dir))
    ensures Covers(dir, NameBelow(file, ChildPrefix(dir)), file)
  {
    NameBelowClean(m, dir, file);
  }

  // What a walk visits

  /** Each item is a file of the tree with its content, and no file is visited twice. */
  ghost predicate Items(m: Mem, log: seq<Item>) {
    (forall i | 0 <= i < |log| :: log[i].name in m.files && log[i].content == m.files[log[i].name]) &&
    (forall i, j | 0 <= i < j < |log| :: log[i].name != log[j].name)
  }

  predicate Visited(log: seq<Item>, file: string) {
    exists i :: 0 <= i < |log| && log[i].name == file
  }

  predicate OneCovers(dir: string, entries: seq<Seen>, file: string) {
    exists e :: e in entries && Covers(dir, e.name, file)
  }

  /** Every item is below one of the entries. */
  predicate Within(dir: string, entries: seq<Seen>, log: seq<Item>) {
    forall i | 0 <= i < |log| :: OneCovers(dir, entries, log[i].name)
  }

  ghost predicate AllVisited(m: Mem, dir: string, entries: seq<Seen>, log: seq<Item>) {
    forall f, e :: f in m.files && e in entries && Covers(dir, e.name, f) ==> Visited(log, f)
  }

  function DirsUnder(m: Mem, dir: string): set<string> {
    set d | d in m.dirs && Below(d, ChildPrefix(dir))
  }

  /** Entries that are children, each with a name of its own. */
  ghost predicate Children(m: Mem, dir: string, entries: seq<Seen>) {
    && (forall i, j | 0 <= i < j < |entries| :: entries[i].name != entries[j].name)
    && (forall e :: e in entries ==> ShowsEntry(m, ChildPrefix(dir), e))
  }

  ghost predicate WalkStart(m: Mem, dir: string) {
    Tree(m) && !Confused(m) && Listable(dir) && (dir == "" || dir in m.dirs)
  }

  lemma {:induction false} SubsetSize<T>(a: set<T>, b: set<T>)
    requires a <= b
    ensures |a| <= |b|
  {
    assert b == a + (b - a);
  }

  /** Going down into a directory leaves fewer directories below. */
  lemma FewerBelow(m: Mem, dir: string, name: string)
    requires Tree(m) && Listable(dir) && Normal(name) && Joined(dir, name) in m.dirs
    ensures |DirsUnder(m, Joined(dir, name))| < |DirsUnder(m, dir)|
  {
    hide Under, Below, CleanRelative, Ancestors;
    var child := Joined(dir, name);
    var (below, above) := (DirsUnder(m, child), DirsUnder(m, dir));
    CoveredIsBelow(dir, name, child);
    assert Stored(m, child);
    forall d | d in below ensures d in above && d != child {
      BelowChild(child, d);
      UnderNotSelf(child);
      CoveredIsBelow(dir, name, d);
    }
    SubsetSize(below + {child}, above);
  }

  lemma BelowChild(child: string, file: string)
    requires CleanRelative(child)
    ensures Below(file, ChildPrefix(child)) ==> Under(file, child)
    ensures Under(file, child) && file != child + "/" ==> Below(file, ChildPrefix(child))
  {
    hide CleanRelative;
    ChildPrefixOfClean(child);
  }

  ghost predicate CoveredBy(dir: string, name: string, log: seq<Item>) {
    forall i | 0 <= i < |log| :: Covers(dir, name, log[i].name)
  }

  ghost predicate AllOf(m: Mem, dir: string, name: string, log: seq<Item>) {
    forall f :: f in m.files && Covers(dir, name, f) ==> Visited(log, f)
  }

  /** The items of one entry, then those of the entries after it. */
  lemma ItemsJoin(m: Mem, dir: string, entries: seq<Seen>, first: seq<Item>, second: seq<Item>)
    requires Tree(m) && Listable(dir) && Children(m, dir, entries) && entries != []
    requires Items(m, first) && CoveredBy(dir, entries[0].name, first)
    requires Items(m, second) && Within(dir, entries[1..], second)
    ensures Items(m, first + second) && Within(dir, entries, first + second)
  {
    hide Covers, ShowsEntry, Tree, Listable, ChildPrefix, Joined;
    var log := first + second;
    assert forall e :: e in entries[1..] ==> e in entries;
    forall i, j | 0 <= i < |first| && 0 <= j < |second| ensures first[i].name != second[j].name {
      assert OneCovers(dir, entries[1..], second[j].name);
      var k := CoveringEntry(dir, entries, second[j].name);
      assert entries[0] in entries && entries[k] in entries;
      ShownChild(m, dir, entries[0]);
      ShownChild(m, dir, entries[k]);
      if first[i].name == second[j].name {
        CoveredOnce(dir, entries[0].name, entries[k].name, first[i].name);
      }
    }
    forall i | 0 <= i < |log| ensures OneCovers(dir, entries, log[i].name) {
      if i < |first| {
        assert entries[0] in entries;
      } else {
        assert OneCovers(dir, entries[1..], second[i - |first|].name);
      }
    }
  }

  lemma CoveringEntry(dir: string, entries: seq<Seen>, file: string) returns (k: nat)
    requires entries != [] && OneCovers(dir, entries[1..], file)
    ensures 1 <= k < |entries| && Covers(dir, entries[k].name, file)
  {
    hide Covers;
    var e :| e in entries[1..] && Covers(dir, e.name, file);
    var j :| 0 <= j < |entries[1..]| && entries[1..][j] == e;
    k := j + 1;
  }

  lemma VisitedJoin(m: Mem, dir: string, entries: seq<Seen>, first: seq<Item>, second: seq<Item>)
    requires entries != [] && AllOf(m, dir, entries[0].name, first) && AllVisited(m, dir, entries[1..], second)
    ensures AllVisited(m, dir, entries, first + second)
  {
    hide Covers;
    var log := first + second;
    forall f, e | f in m.files && e in entries && Covers(dir, e.name, f) ensures Visited(log, f) {
      if e in entries[1..] {
        var i :| 0 <= i < |second| && second[i].name == f;
        assert log[|first| + i].name == f;
      } else {
        assert e == entries[0];
        var i :| 0 <= i < |first| && first[i].name == f;
        assert log[i].name == f;
      }
    }
  }

  /** Without a confused directory a child is its parent and its name joined. */
  lemma ChildOfEntry(m: Mem, dir: string, e: Seen)
    requires WalkStart(m, dir) && ShowsEntry(m, ChildPrefix(dir), e)
    ensures ArchiveChildPath(dir, e.name) == Joined(dir, e.name)
    ensures if e.isDir then WalkStart(m, Joined(dir, e.name)) else Joined(dir, e.name) in m.files
    ensures Normal(e.name)
  {
    hide CleanRelative, Ancestors, ChildPrefix, ArchiveChildPath, ShowsEntry;
    ShownChild(m, dir, e);
    ChildPathOf(dir, e.name);
    assert !ConfusedAt(m, dir);
  }

  /** The files below a subdirectory are those its entry covers. */
  lemma SubdirectoryFiles(m: Mem, dir: string, name: string, log: seq<Item>)
    requires Tree(m) && Normal(name) && Joined(dir, name) in m.dirs && Items(m, log)
    requires forall i | 0 <= i < |log| :: Below(log[i].name, ChildPrefix(Joined(dir, name)))
    ensures CoveredBy(dir, name, log)
    ensures (forall f :: f in m.files && Below(f, ChildPrefix(Joined(dir, name))) ==> Visited(log, f)) ==> AllOf(m, dir, name, log)
  {
    hide CleanRelative, Ancestors, ChildPrefix, Under, Below, Normal, Joined;
    var child := Joined(dir, name);
    assert Stored(m, child);
    forall i | 0 <= i < |log| ensures Covers(dir, name, log[i].name) { BelowChild(child, log[i].name); }
    forall f | f in m.files && Covers(dir, name, f) ensures Below(f, ChildPrefix(child)) {
      assert Stored(m, f) && f != child;
      CleanNoTrailingSlash(f, child);
      BelowChild(child, f);
    }
  }

  lemma CleanNoTrailingSlash(p: string, d: string)
    requires CleanRelative(p)
    ensures p != d + "/"
  {
    hide Split;
    assert !Normal("");
    if p == d + "/" {
      TrailingSlashPart(p);
    }
  }

  /** A file is all its entry covers. */
  lemma FileAlone(m: Mem, dir: string, name: string)
    requires Tree(m) && Joined(dir, name) in m.files
    ensures var log := [Item(Joined(dir, name), m.files[Joined(dir, name)])];
            Items(m, log) && CoveredBy(dir, name, log) && AllOf(m, dir, name, log)
  {
    hide CleanRelative, Ancestors, Under, Joined;
    var child := Joined(dir, name);
    var log := [Item(child, m.files[child])];
    assert log[0].name == child;
    forall f | f in m.files && Covers(dir, name, f) ensures f == child {
      if Under(f, child) {
        assert Stored(m, f);
        TreeUnder(m, f, child);
      }
    }
  }

  /**
   The walk of a tree with no confused directory never fails, visits only files below the
   directory, each once, all of them when it completes, and completes unless stopped when
   there is room for one call for each directory.
   */
  lemma {:induction false} WalkSound(m: Mem, dir: string, log: seq<Item>, outcome: Outcome, depth: nat)
    requires WalkStart(m, dir) && Walks(m, dir, log, outcome, depth)
    ensures outcome != Failed && Items(m, log)
    ensures forall i | 0 <= i < |log| :: Below(log[i].name, ChildPrefix(dir))
    ensures outcome == Completed ==> forall f :: f in m.files && Below(f, ChildPrefix(dir)) ==> Visited(log, f)
    ensures depth > |DirsUnder(m, dir)| ==> outcome != TooDeep
    decreases depth, 0
  {
    hide WalkStart, WalksEntries, ShowsEntry, Below, ChildPrefix, NameBelow, DirsUnder, Covers, Stored;
    if depth > 0 {
      StartLists(m, dir);
      var entries: seq<Seen> :| Shows(m, dir, entries) && WalksEntries(m, dir, entries, log, outcome, depth - 1);
      EntriesSound(m, dir, entries, log, outcome, depth - 1);
      StartIs(m, dir);
      forall i | 0 <= i < |log| ensures Below(log[i].name, ChildPrefix(dir)) {
        assert OneCovers(dir, entries, log[i].name);
        var e: Seen :| e in entries && Covers(dir, e.name, log[i].name);
        ShownChild(m, dir, e);
        CoveredIsBelow(dir, e.name, log[i].name);
      }
      if outcome == Completed {
        forall f | f in m.files && Below(f, ChildPrefix(dir)) ensures Visited(log, f) {
          FileStored(m, f);
          BelowIsCovered(m, dir, f);
          assert Names(entries, NameBelow(f, ChildPrefix(dir)));
        }
      }
    }
  }

  lemma FileStored(m: Mem, f: string)
    requires f in m.files
    ensures Stored(m, f)
  {
  }

  lemma StartLists(m: Mem, dir: string)
    requires WalkStart(m, dir)
    ensures Lists(m, dir)
  {
  }

  lemma StartIs(m: Mem, dir: string)
    requires WalkStart(m, dir)
    ensures Tree(m) && Listable(dir)
  {
  }

  lemma {:induction false} EntriesSound(m: Mem, dir: string, entries: seq<Seen>, log: seq<Item>, outcome: Outcome,
      depth: nat)
    requires WalkStart(m, dir) && Children(m, dir, entries) && WalksEntries(m, dir, entries, log, outcome, depth)
    ensures outcome != Failed && Items(m, log) && Within(dir, entries, log)
    ensures outcome == Completed ==> AllVisited(m, dir, entries, log)
    ensures depth >= |DirsUnder(m, dir)| ==> outcome != TooDeep
    decreases depth, |entries| + 1
  {
    hide WalkStart, ShowsEntry, Below, ChildPrefix, NameBelow, DirsUnder, Covers, Stored, Walks, ArchiveChildPath,
      Joined, Items, Within, AllVisited, AllOf, CoveredBy, Visited;
    if entries == [] {
      NoEntries(m, dir);
    } else {
      var e, rest := entries[0], entries[1..];
      assert e in entries;
      StartIs(m, dir);
      ChildOfEntry(m, dir, e);
      RestAreChildren(m, dir, entries);
      var child := Joined(dir, e.name);
      if e.isDir {
        var cut: nat, below :| cut <= |log| && WalksBoth(m, dir, child, rest, log, cut, below, outcome, depth);
        WalkSound(m, child, log[..cut], below, depth);
        StartIsDirectory(m, dir, e);
        FewerBelow(m, dir, e.name);
        SubdirectoryFiles(m, dir, e.name, log[..cut]);
        if below == Completed {
          EntriesSound(m, dir, rest, log[cut..], outcome, depth);
          EntriesJoin(m, dir, entries, log, cut, outcome);
        } else {
          FirstOnly(m, dir, entries, log);
          assert log[..cut] == log;
        }
      } else {
        var one := [Item(child, m.files[child])];
        FileAlone(m, dir, e.name);
        if outcome == Stopped && |log| == 1 {
          assert log == one;
          FirstOnly(m, dir, entries, log);
        } else {
          assert log[..1] == one;
          EntriesSound(m, dir, rest, log[1..], outcome, depth);
          EntriesJoin(m, dir, entries, log, 1, outcome);
        }
      }
    }
  }

  lemma NoEntries(m: Mem, dir: string)
    ensures Items(m, []) && Within(dir, [], []) && AllVisited(m, dir, [], [])
  {
  }

  lemma RestAreChildren(m: Mem, dir: string, entries: seq<Seen>)
    requires Children(m, dir, entries) && entries != []
    ensures Children(m, dir, entries[1..])
  {
    hide ShowsEntry;
  }

  lemma StartIsDirectory(m: Mem, dir: string, e: Seen)
    requires WalkStart(m, dir) && ShowsEntry(m, ChildPrefix(dir), e) && e.isDir
    ensures Joined(dir, e.name) in m.dirs
  {
    ShownChild(m, dir, e);
  }

  lemma FirstOnly(m: Mem, dir: string, entries: seq<Seen>, log: seq<Item>)
    requires entries != []
    ensures CoveredBy(dir, entries[0].name, log) ==> Within(dir, entries, log)
  {
    hide Covers;
    assert entries[0] in entries;
  }

  lemma EntriesJoin(m: Mem, dir: string, entries: seq<Seen>, log: seq<Item>, cut: nat, outcome: Outcome)
    requires cut <= |log| && entries != []
    requires Tree(m) && Listable(dir) && Children(m, dir, entries)
    requires Items(m, log[..cut]) && CoveredBy(dir, entries[0].name, log[..cut]) && AllOf(m, dir, entries[0].name, log[..cut])
    requires Items(m, log[cut..]) && Within(dir, entries[1..], log[cut..])
    requires outcome == Completed ==> AllVisited(m, dir, entries[1..], log[cut..])
    ensures Items(m, log) && Within(dir, entries, log)
    ensures outcome == Completed ==> AllVisited(m, dir, entries, log)
  {
    hide *;
    assert log[..cut] + log[cut..] == log;
    ItemsJoin(m, dir, entries, log[..cut], log[cut..]);
    if outcome == Completed {
      VisitedJoin(m, dir, entries, log[..cut], log[cut..]);
    }
  }

  // A confused directory

  /** Walking a directory that holds a child of its own name never completes. */
  lemma {:induction false} ConfusedStuck(m: Mem, d: string, log: seq<Item>, outcome: Outcome, depth: nat)
    requires Tree(m) && ConfusedAt(m, d) && Walks(m, d, log, outcome, depth)
    ensures outcome != Completed
    decreases depth, 0
  {
    hide Tree, ConfusedAt, WalksEntries, Lists, Shows, ArchiveChildPath, Names, Listable;
    if depth > 0 && Lists(m, d) {
      var entries: seq<Seen> :| Shows(m, d, entries) && WalksEntries(m, d, entries, log, outcome, depth - 1);
      OwnChild(m, d);
      NamedByShows(m, d, entries, d + "/" + d);
      ConfusedIsListable(m, d);
      EntriesStuck(m, d, d, entries, log, outcome, depth - 1);
    }
  }

  lemma NamedByShows(m: Mem, dir: string, entries: seq<Seen>, p: string)
    requires Shows(m, dir, entries) && Stored(m, p) && Below(p, ChildPrefix(dir))
    ensures Names(entries, NameBelow(p, ChildPrefix(dir)))
  {
  }

  lemma OwnChild(m: Mem, d: string)
    requires Tree(m) && ConfusedAt(m, d)
    ensures var p := d + "/" + d;
            Stored(m, p) && Below(p, ChildPrefix(d)) && NameBelow(p, ChildPrefix(d)) == d
  {
    hide Ancestors, CleanRelative, Split;
    assert Stored(m, d);
    ChildPrefixOfClean(d);
    CleanRelativeFixed(d);
    assert (d + "/" + d)[|d + "/"|..] == d;
    SplitSingle(d);
  }

  lemma ConfusedIsListable(m: Mem, d: string)
    requires Tree(m) && ConfusedAt(m, d)
    ensures Listable(d) && ArchiveChildPath(d, d) == d && ArchiveChildPath("", d) == d && d !in m.files
  {
    hide Ancestors, CleanRelative, ArchiveChildPath, Split;
    assert Stored(m, d);
    CleanRelativeFixed(d);
    SplitSingle(d);
    assert CleanRelative(d) ==> Normal(d) by { CleanSingle(d); }
    ChildPathOf(d, d);
    ChildPathOf("", d);
  }

  lemma CleanSingle(d: string)
    requires CleanRelative(d) && '/' !in d
    ensures Normal(d)
  {
    SplitSingle(d);
    assert Normal(Split(d)[0]);
  }

  lemma {:induction false} EntriesStuck(m: Mem, dir: string, d: string, entries: seq<Seen>, log: seq<Item>,
      outcome: Outcome, depth: nat)
    requires Tree(m) && ConfusedAt(m, d) && Names(entries, d) && ArchiveChildPath(dir, d) == d && d !in m.files
    requires WalksEntries(m, dir, entries, log, outcome, depth)
    ensures outcome != Completed
    decreases depth, |entries| + 1
  {
    hide Tree, ConfusedAt, ArchiveChildPath, Walks;
    var e, rest := entries[0], entries[1..];
    var child := ArchiveChildPath(dir, e.name);
    if e.name != d {
      var other :| other in entries && other.name == d;
      assert other in rest;
    }
    if e.isDir {
      var cut: nat, below :| cut <= |log| && WalksBoth(m, dir, child, rest, log, cut, below, outcome, depth);
      if e.name == d {
        ConfusedStuck(m, d, log[..cut], below, depth);
      } else if below == Completed {
        EntriesStuck(m, dir, d, rest, log[cut..], outcome, depth);
      }
    } else if child in m.files && !(outcome == Stopped && |log| == 1) {
      EntriesStuck(m, dir, d, rest, log[1..], outcome, depth);
    }
  }

  /** From the top the confused directory is reached, unless the walk ends before. */
  lemma {:induction false} ConfusedNeverCompletes(m: Mem, log: seq<Item>, outcome: Outcome, depth: nat)
    requires Tree(m) && Confused(m) && Walks(m, "", log, outcome, depth)
    ensures outcome != Completed
  {
    hide Tree, ConfusedAt, WalksEntries, Lists, Shows, ArchiveChildPath, Names, Listable;
    var d :| ConfusedAt(m, d);
    if depth > 0 && Lists(m, "") {
      var entries: seq<Seen> :| Shows(m, "", entries) && WalksEntries(m, "", entries, log, outcome, depth - 1);
      TopChild(m, d);
      NamedByShows(m, "", entries, d);
      ConfusedIsListable(m, d);
      EntriesStuck(m, "", d, entries, log, outcome, depth - 1);
    }
  }

  lemma TopChild(m: Mem, d: string)
    requires Tree(m) && ConfusedAt(m, d)
    ensures Stored(m, d) && Below(d, ChildPrefix("")) && NameBelow(d, ChildPrefix("")) == d
  {
    hide Ancestors, CleanRelative, Split;
    assert Stored(m, d);
    CleanRelativeFixed(d);
    SplitSingle(d);
    assert d[0..] == d;
  }

  // Every directory can be listed and walked

  lemma {:induction false} SomeEntries(m: Mem, prefix: string, names: set<string>) returns (entries: seq<Seen>)
    requires forall n :: n in names ==> ShowsEntry(m, prefix, Seen(n, false)) || ShowsEntry(m, prefix, Seen(n, true))
    ensures forall i, j | 0 <= i < j < |entries| :: entries[i].name != entries[j].name
    ensures forall e :: e in entries ==> ShowsEntry(m, prefix, e)
    ensures forall n :: n in names <==> Names(entries, n)
    decreases names
  {
    hide ShowsEntry;
    if names == {} {
      entries := [];
    } else {
      var n :| n in names;
      var rest := SomeEntries(m, prefix, names - {n});
      var e := if ShowsEntry(m, prefix, Seen(n, false)) then Seen(n, false) else Seen(n, true);
      entries := [e] + rest;
      assert e in entries;
      assert !Names(rest, n);
      forall x ensures x in names <==> Names(entries, x) {
        if Names(rest, x) {
          var o :| o in rest && o.name == x;
          assert o in entries;
        }
        if Names(entries, x) && x != n {
          var o :| o in entries && o.name == x;
          assert o in rest;
        }
        assert x in names - {n} <==> Names(rest, x);
      }
    }
  }

  lemma NameShows(m: Mem, prefix: string, p: string)
    requires Stored(m, p) && Below(p, prefix)
    ensures var n := NameBelow(p, prefix); ShowsEntry(m, prefix, Seen(n, false)) || ShowsEntry(m, prefix, Seen(n, true))
  {
    hide Split;
    var rest := p[|prefix|..];
    assert p == prefix + rest;
    FirstOf(rest);
    if p in m.dirs || '/' in rest {
      assert ShowsDirectory(m, p, prefix);
      assert ShowsEntry(m, prefix, Seen(NameBelow(p, prefix), true));
    } else {
      assert ShowsEntry(m, prefix, Seen(NameBelow(p, prefix), false));
    }
  }

  lemma SomeShows(m: Mem, dir: string) returns (entries: seq<Seen>)
    ensures Shows(m, dir, entries)
  {
    hide ShowsEntry, NameBelow, ChildPrefix, Below;
    var prefix := ChildPrefix(dir);
    var names := set p | p in m.files.Keys + m.dirs && Below(p, prefix) :: NameBelow(p, prefix);
    forall n | n in names ensures ShowsEntry(m, prefix, Seen(n, false)) || ShowsEntry(m, prefix, Seen(n, true)) {
      var p :| p in m.files.Keys + m.dirs && Below(p, prefix) && NameBelow(p, prefix) == n;
      NameShows(m, prefix, p);
    }
    entries := SomeEntries(m, prefix, names);
    forall p | Stored(m, p) && Below(p, prefix) ensures Names(entries, NameBelow(p, prefix)) {
      assert NameBelow(p, prefix) in names;
    }
  }

  lemma {:induction false} SomeWalk(m: Mem, dir: string, depth: nat) returns (log: seq<Item>, outcome: Outcome)
    ensures Walks(m, dir, log, outcome, depth) && outcome != Stopped
    decreases depth, 0
  {
    hide Shows, WalksEntries;
    if depth == 0 {
      log, outcome := [], TooDeep;
    } else if !Lists(m, dir) {
      log, outcome := [], Failed;
    } else {
      var entries := SomeShows(m, dir);
      log, outcome := SomeEntriesWalk(m, dir, entries, depth - 1);
    }
  }

  lemma {:induction false} SomeEntriesWalk(m: Mem, dir: string, entries: seq<Seen>,
      depth: nat) returns (log: seq<Item>, outcome: Outcome)
    ensures WalksEntries(m, dir, entries, log, outcome, depth) && outcome != Stopped
    decreases depth, |entries| + 1
  {
    hide Walks, ArchiveChildPath;
    if entries == [] {
      log, outcome := [], Completed;
    } else {
      var child := ArchiveChildPath(dir, entries[0].name);
      if entries[0].isDir {
        var first, below := SomeWalk(m, child, depth);
        if below == Completed {
          var second, end := SomeEntriesWalk(m, dir, entries[1..], depth);
          log, outcome := first + second, end;
          assert log[..|first|] == first && log[|first|..] == second;
          assert WalksBoth(m, dir, child, entries[1..], log, |first|, below, outcome, depth);
        } else {
          log, outcome := first, below;
          assert log[..|first|] == first;
          assert WalksBoth(m, dir, child, entries[1..], log, |first|, below, outcome, depth);
        }
      } else if child in m.files {
        var second, end := SomeEntriesWalk(m, dir, entries[1..], depth);
        log, outcome := [Item(child, m.files[child])] + second, end;
        assert log[1..] == second;
      } else {
        log, outcome := [], Failed;
      }
    }
  }

  /** A walk of the whole tree that came to its end. */
  ghost predicate Archives(m: Mem, log: seq<Item>, depth: nat) {
    Walks(m, "", log, Completed, depth)
  }

  /** The log is the tree's path-to-content map, written down once in some order. */
  ghost predicate IsMap(log: seq<Item>, files: map<string, Bytes>) {
    (forall i | 0 <= i < |log| :: log[i].name in files && log[i].content == files[log[i].name]) &&
    (forall i, j | 0 <= i < j < |log| :: log[i].name != log[j].name) &&
    (forall f :: f in files ==> Visited(log, f))
  }

  /**
   The archive walk of a tree can come to its end exactly when no directory at the top holds
   a child of its own name; then one call for each directory is room enough, and every walk
   that ends has written down exactly the path-to-content map, each file once.
   */
  lemma ArchiveExact(m: Mem)
    requires Tree(m)
    ensures (exists log, depth :: Archives(m, log, depth)) <==> !Confused(m)
    ensures forall log, depth :: Archives(m, log, depth) ==> IsMap(log, m.files)
    ensures !Confused(m) ==>
              forall log, outcome, depth | depth > |m.dirs| && Walks(m, "", log, outcome, depth) ::
                outcome == Completed || outcome == Stopped
  {
    hide Tree, Confused, Walks, Listable, Items, Below, ChildPrefix;
    forall log, depth | Archives(m, log, depth) ensures !Confused(m) && IsMap(log, m.files) {
      if Confused(m) {
        ConfusedNeverCompletes(m, log, Completed, depth);
      }
      ArchiveIsMap(m, log, depth);
    }
    if !Confused(m) {
      TopIsStart(m);
      SubsetSize(DirsUnder(m, ""), m.dirs);
      forall log, outcome, depth | depth > |m.dirs| && Walks(m, "", log, outcome, depth)
        ensures outcome == Completed || outcome == Stopped {
        WalkSound(m, "", log, outcome, depth);
      }
      var log, outcome := SomeWalk(m, "", |m.dirs| + 1);
      assert Archives(m, log, |m.dirs| + 1);
    }
  }

  lemma TopIsStart(m: Mem)
    requires Tree(m) && !Confused(m)
    ensures WalkStart(m, "")
  {
  }

  lemma ArchiveIsMap(m: Mem, log: seq<Item>, depth: nat)
    requires Tree(m) && !Confused(m) && Archives(m, log, depth)
    ensures IsMap(log, m.files)
  {
    hide Confused, Walks, Listable, Tree, CleanRelative;
    TopIsStart(m);
    WalkSound(m, "", log, Completed, depth);
    forall f | f in m.files ensures Visited(log, f) {
      FileAtTop(m, f);
    }
  }

  lemma FileAtTop(m: Mem, f: string)
    requires Tree(m) && f in m.files
    ensures Below(f, ChildPrefix(""))
  {
    assert Stored(m, f);
    CleanRelativeFixed(f);
  }
}
