/**
 Unpacking a cube (go/cube/cube.go): the walk of ArchiveWalk, writing each file under its
 validated name; and packing followed by unpacking.
 */
module ArchiveExtract {
  import opened Options
  import opened Paths
  import opened PathTree
  import opened PathBelow
  import opened MemoryState
  import opened MemoryTree
  import opened MemoryListing
  import opened ArchiveWalk

  datatype Validated = Valid(name: string) | Skip | Invalid

  function ValidatedTarEntryName(rawName: string): Validated {
    if rawName == "" then Skip
    else if HasPrefix(rawName, "/") || '\\' in rawName then Invalid
    else
      var name := TrimPrefix(rawName, "/");
      if name == "" || HasSuffix(name, "/") then Skip
      else if HasParentPathSegment(name) then Invalid
      else
        var clean := Clean(name);
        if clean == "." || clean == "" || clean == ".." || HasPrefix(clean, "../") then Invalid else Valid(clean)
  }

  predicate HasParentPathSegment(name: string) {
    ".." in Split(name)
  }

  /**
   Exactly which raw names are accepted, and which are passed over; an accepted name is the clean path, and it cannot
   lead out.
   */
  lemma ValidatedExact(rawName: string)
    ensures var v := ValidatedTarEntryName(rawName);
            (v.Valid? <==>
               rawName != "" && rawName[0] != '/' && rawName[|rawName| - 1] != '/' && '\\' !in rawName &&
               ".." !in Split(rawName) && Clean(rawName) != ".") &&
            (v.Valid? ==> v.name == Clean(rawName) && CleanRelative(v.name)) &&
            (v.Skip? <==>
               rawName == "" || (rawName[0] != '/' && rawName[|rawName| - 1] == '/' && '\\' !in rawName))
  {
    hide Split, Clean, CleanRelative, HasPrefix, HasSuffix, TrimPrefix;
    SlashEnds(rawName);
    if rawName != "" && rawName[0] != '/' && ".." !in Split(rawName) {
      CleanWithoutParent(rawName);
      if Clean(rawName) != "." {
        CleanRelativeFixed(Clean(rawName));
        ParentPrefix(Clean(rawName));
      }
    }
  }

  lemma SlashEnds(p: string)
    ensures HasPrefix(p, "/") <==> p != "" && p[0] == '/'
    ensures HasSuffix(p, "/") <==> p != "" && p[|p| - 1] == '/'
    ensures !HasPrefix(p, "/") ==> TrimPrefix(p, "/") == p
  {
  }

  lemma ParentPrefix(p: string)
    requires CleanRelative(p)
    ensures !HasPrefix(p, "../") && p != ".."
  {
    hide Split;
    SplitSingle("..");
    assert !Normal("..");
    if HasPrefix(p, "../") {
      CleanUnder(p, "..");
    }
  }

  /** A clean relative path is its own entry name, unless a backslash is in it. */
  lemma ValidatedClean(name: string)
    requires CleanRelative(name)
    ensures ValidatedTarEntryName(name) == if '\\' in name then Invalid else Valid(name)
  {
    hide Split, Fold, Join, Clean;
    CleanRelativeFixed(name);
    ParentPrefix(name);
    CleanNoTrailingSlash(name, name[..|name| - 1]);
    assert name == name[..|name| - 1] + [name[|name| - 1]];
    assert !Normal("..");
  }

  /** One file written to the destination; none when the entry is refused or the write fails. */
  ghost function WriteItem(dest: Mem, item: Item, now: Time): Option<Mem> {
    match ValidatedTarEntryName(item.name)
    case Skip => Some(dest)
    case Invalid => None
    case Valid(name) =>
      var step := WriteMode(dest, name, item.content, DEFAULT_MODE, now);
      if step.status == Done then Some(step.mem) else None
  }

  /** What writing one entry does: a file at its path unless something is in the way, nothing for a directory, no way out. */
  lemma ItemWritten(dest: Mem, p: string, content: Bytes, now: Time)
    requires CleanRelative(p) && '\\' !in p
    ensures WriteItem(dest, Item(p, content), now) ==
            if Open(dest, p) then Some(WithFile(dest, p, content, 420, now)) else None
    ensures WriteItem(dest, Item("", content), now) == Some(dest)
    ensures WriteItem(dest, Item(p + "/", content), now) == Some(dest)
    ensures WriteItem(dest, Item("/" + p, content), now) == None
    ensures WriteItem(dest, Item("../" + p, content), now) == None
  {
    hide Split, Clean, CleanRelative, ValidatedTarEntryName, HasFileAncestor;
    CleanRelativeFixed(p);
    ValidatedClean(p);
    ValidatedExact(p);
    ValidatedExact("");
    ValidatedExact(p + "/");
    ValidatedExact("/" + p);
    ValidatedExact("../" + p);
    assert ".." + "/" + p == "../" + p;
    SplitConcat("..", p);
    SplitSingle("..");
  }

  /** The visits written one after the other; a walk is stopped when the last write fails. */
  ghost predicate Writes(dest: Mem, log: seq<Item>, clock: string -> Time, outcome: Outcome, after: Mem)
    decreases |log|
  {
    if log == [] then outcome != Stopped && after == dest
    else
      var written := WriteItem(dest, log[0], clock(log[0].name));
      if written.Some? then Writes(written.value, log[1..], clock, outcome, after)
      else outcome == Stopped && |log| == 1 && after == dest
  }

  ghost predicate Extracts(node: Mem, dest: Mem, clock: string -> Time, outcome: Outcome, after: Mem, depth: nat) {
    exists log :: ExtractsBy(node, dest, clock, log, outcome, after, depth)
  }

  ghost predicate ExtractsBy(node: Mem, dest: Mem, clock: string -> Time, log: seq<Item>, outcome: Outcome,
      after: Mem, depth: nat) {
    Walks(node, "", log, outcome, depth) && Writes(dest, log, clock, outcome, after)
  }

  /** The directories above a set of files. */
  function Implied(files: set<string>): set<string> {
    set f, a | f in files && a in Ancestors(f) :: a
  }

  function Taken(files: map<string, Bytes>, names: set<string>): map<string, Bytes>
    requires names <= files.Keys
  {
    map f | f in names :: files[f]
  }

  function Modes(names: set<string>): map<string, Mode> {
    map f | f in names :: DEFAULT_MODE
  }

  function Times(names: set<string>, clock: string -> Time): map<string, Time> {
    map f | f in names :: clock(f)
  }

  /** A medium after the given files of the node were written to it. */
  function Restored(dest: Mem, node: Mem, names: set<string>, clock: string -> Time): Mem
    requires names <= node.files.Keys
  {
    Mem(dest.files + Taken(node.files, names), dest.modes + Modes(names), dest.dirs + Implied(names),
        dest.times + Times(names, clock))
  }

  /** The name is kept by the validation, and the medium has room for a file of that name. */
  ghost predicate Accepts(dest: Mem, name: string) {
    '\\' !in name && Open(dest, name)
  }

  ghost predicate AcceptsAll(dest: Mem, files: map<string, Bytes>) {
    forall f :: f in files ==> Accepts(dest, f)
  }

  lemma WriteOne(dest: Mem, node: Mem, names: set<string>, clock: string -> Time, name: string)
    requires Tree(node) && names <= node.files.Keys && name in node.files
    ensures WriteItem(Restored(dest, node, names, clock), Item(name, node.files[name]), clock(name)) ==
            if Accepts(dest, name) then Some(Restored(dest, node, names + {name}, clock)) else None
  {
    hide CleanRelative, ValidatedTarEntryName, WithFile, Restored, HasFileAncestor, Tree;
    FileIsClean(node, name);
    ValidatedClean(name);
    NothingInTheWay(dest, node, names, clock, name);
    RestoredOneMore(dest, node, names, clock, name);
  }

  lemma FileIsClean(m: Mem, name: string)
    requires Tree(m) && name in m.files
    ensures CleanRelative(name)
  {
    assert Stored(m, name);
  }

  /** No file restored before is a directory that `name` needs, or needs `name` as one. */
  lemma NothingInTheWay(dest: Mem, node: Mem, names: set<string>, clock: string -> Time, name: string)
    requires Tree(node) && names <= node.files.Keys && name in node.files
    ensures Open(Restored(dest, node, names, clock), name) <==> Open(dest, name)
  {
    hide Ancestors, CleanRelative;
    assert Stored(node, name);
    forall f | f in names ensures Ancestors(f) <= node.dirs {
      assert Stored(node, f);
    }
    assert name !in Implied(names);
    assert forall a :: a in Ancestors(name) ==> a !in names;
  }

  lemma RestoredOneMore(dest: Mem, node: Mem, names: set<string>, clock: string -> Time, name: string)
    requires names <= node.files.Keys && name in node.files
    ensures WithFile(Restored(dest, node, names, clock), name, node.files[name], DEFAULT_MODE, clock(name)) ==
            Restored(dest, node, names + {name}, clock)
  {
    hide Ancestors, Implied, Taken, Modes, Times;
    ImpliedOneMore(names, name);
    EntriesOneMore(node.files, names, clock, name);
    UpdatedSum(dest.files, Taken(node.files, names), name, node.files[name]);
    UpdatedSum(dest.modes, Modes(names), name, DEFAULT_MODE);
    UpdatedSum(dest.times, Times(names, clock), name, clock(name));
    assert dest.dirs + Implied(names) + Ancestors(name) == dest.dirs + (Implied(names) + Ancestors(name));
  }

  lemma EntriesOneMore(files: map<string, Bytes>, names: set<string>, clock: string -> Time, name: string)
    requires names <= files.Keys && name in files
    ensures Taken(files, names + {name}) == Taken(files, names)[name := files[name]]
    ensures Modes(names + {name}) == Modes(names)[name := DEFAULT_MODE]
    ensures Times(names + {name}, clock) == Times(names, clock)[name := clock(name)]
  {
  }

  lemma UpdatedSum<V>(m: map<string, V>, more: map<string, V>, name: string, value: V)
    ensures (m + more)[name := value] == m + more[name := value]
  {
  }

  lemma ImpliedOneMore(names: set<string>, name: string)
    ensures Implied(names + {name}) == Implied(names) + Ancestors(name)
  {
    hide Ancestors;
    forall a ensures a in Implied(names + {name}) <==> a in Implied(names) || a in Ancestors(name) {
      if a in Implied(names + {name}) {
        var f :| f in names + {name} && a in Ancestors(f);
      }
      assert name in names + {name};
    }
  }

  function LogNames(log: seq<Item>): set<string> {
    set i | 0 <= i < |log| :: log[i].name
  }

  ghost predicate Refused(dest: Mem, log: seq<Item>) {
    exists i :: 0 <= i < |log| && !Accepts(dest, log[i].name)
  }

  /** Files of a tree are written up to the first that the destination does not accept. */
  lemma {:induction false} WritesAll(dest: Mem, node: Mem, names: set<string>, log: seq<Item>, clock: string -> Time,
      outcome: Outcome, after: Mem) returns (done: set<string>)
    requires Tree(node) && names <= node.files.Keys
    requires forall i | 0 <= i < |log| :: log[i].name in node.files && log[i].content == node.files[log[i].name]
    requires Writes(Restored(dest, node, names, clock), log, clock, outcome, after)
    ensures outcome == Stopped <==> Refused(dest, log)
    ensures names <= done <= names + LogNames(log) && done <= node.files.Keys && after == Restored(dest, node, done, clock)
    ensures outcome != Stopped ==> done == names + LogNames(log)
    ensures forall f :: f in done && f !in names ==> Accepts(dest, f)
    decreases |log|
  {
    hide Tree, Restored, WriteItem, Accepts, LogNames, Refused;
    RestLog(dest, log);
    if log == [] {
      done := names;
    } else {
      var item := log[0];
      assert item == Item(item.name, node.files[item.name]);
      WriteOne(dest, node, names, clock, item.name);
      if Accepts(dest, item.name) {
        done := WritesAll(dest, node, names + {item.name}, log[1..], clock, outcome, after);
        assert names + {item.name} + LogNames(log[1..]) == names + LogNames(log);
      } else {
        done := names;
      }
    }
  }

  lemma RestLog(dest: Mem, log: seq<Item>)
    ensures log == [] ==> LogNames(log) == {} && !Refused(dest, log)
    ensures log != [] ==> LogNames(log) == {log[0].name} + LogNames(log[1..])
    ensures log != [] ==> (Refused(dest, log) <==> !Accepts(dest, log[0].name) || Refused(dest, log[1..]))
  {
    hide Accepts;
    if log != [] {
      forall n ensures n in LogNames(log) <==> n == log[0].name || n in LogNames(log[1..]) {
        if n in LogNames(log) {
          var i :| 0 <= i < |log| && log[i].name == n;
          assert i > 0 ==> log[1..][i - 1].name == n;
        }
        if n in LogNames(log[1..]) {
          var i :| 0 <= i < |log[1..]| && log[1..][i].name == n;
          assert log[i + 1].name == n;
        }
      }
      if i :| 0 <= i < |log| && !Accepts(dest, log[i].name) && i > 0 {
        assert !Accepts(dest, log[1..][i - 1].name);
      }
      if i :| 0 <= i < |log[1..]| && !Accepts(dest, log[1..][i].name) {
        assert !Accepts(dest, log[i + 1].name);
      }
    }
  }

  ghost predicate NoBackslash(files: map<string, Bytes>) {
    forall f :: f in files ==> '\\' !in f
  }

  /**
   Unpacking a tree into any medium, in whatever order its directories are listed, with room for
   one call for each directory: it completes exactly when the medium accepts every file.  It then holds
   the node's files and the directories above them besides what it held; otherwise only some of them.
   */
  lemma ExtractExact(node: Mem, dest: Mem, clock: string -> Time, outcome: Outcome, after: Mem, depth: nat)
    returns (done: set<string>)
    requires Tree(node) && !Confused(node) && depth > |node.dirs|
    requires Extracts(node, dest, clock, outcome, after, depth)
    ensures outcome == if AcceptsAll(dest, node.files) then Completed else Stopped
    ensures done <= node.files.Keys && after == Restored(dest, node, done, clock)
    ensures outcome == Completed <==> done == node.files.Keys
    ensures forall f :: f in done ==> Accepts(dest, f)
  {
    hide Tree, Confused, Walks, Writes, Below, ChildPrefix, Accepts, Restored, Refused, LogNames;
    var log: seq<Item> :| ExtractsBy(node, dest, clock, log, outcome, after, depth);
    NothingRestored(dest, node, clock);
    TopIsStart(node);
    WalkSound(node, "", log, outcome, depth);
    ArchiveExact(node);
    done := WritesAll(dest, node, {}, log, clock, outcome, after);
    assert {} + LogNames(log) == LogNames(log);
    LoggedFiles(dest, node, log);
    if outcome == Completed {
      WholeLog(node, log, depth);
    }
  }

  lemma LoggedFiles(dest: Mem, node: Mem, log: seq<Item>)
    requires forall i | 0 <= i < |log| :: log[i].name in node.files
    ensures Refused(dest, log) ==> !AcceptsAll(dest, node.files)
    ensures !Refused(dest, log) && LogNames(log) == node.files.Keys ==> AcceptsAll(dest, node.files)
  {
    hide Accepts;
    if !Refused(dest, log) && LogNames(log) == node.files.Keys {
      forall f | f in node.files ensures Accepts(dest, f) {
        assert f in LogNames(log);
        var i :| 0 <= i < |log| && log[i].name == f;
      }
    }
  }

  lemma WholeLog(node: Mem, log: seq<Item>, depth: nat)
    requires Tree(node) && !Confused(node) && Archives(node, log, depth)
    ensures LogNames(log) == node.files.Keys
  {
    hide Tree, Confused, Archives;
    ArchiveIsMap(node, log, depth);
    forall f | f in node.files ensures f in LogNames(log) {
      assert Visited(log, f);
      var i :| 0 <= i < |log| && log[i].name == f;
    }
  }

  lemma NothingRestored(dest: Mem, node: Mem, clock: string -> Time)
    ensures Restored(dest, node, {}, clock) == dest
  {
    assert Implied({}) == {};
  }

  /** An empty medium accepts every file whose name has no backslash. */
  lemma EmptyAccepts(files: map<string, Bytes>)
    ensures AcceptsAll(EMPTY, files) <==> NoBackslash(files)
  {
    hide Ancestors;
  }

  // Packing, then unpacking

  /** A data node after the calls of AddData: the last content of each name. */
  function Packed(log: seq<Item>): map<string, Bytes> {
    if log == [] then map[]
    else Packed(log[..|log| - 1])[log[|log| - 1].name := log[|log| - 1].content]
  }

  lemma {:induction false} PackedIs(log: seq<Item>, files: map<string, Bytes>)
    requires forall i | 0 <= i < |log| :: log[i].name in files && log[i].content == files[log[i].name]
    ensures forall f :: f in Packed(log) <==> Visited(log, f)
    ensures forall f :: f in Packed(log) ==> f in files && Packed(log)[f] == files[f]
  {
    if log != [] {
      var front := log[..|log| - 1];
      PackedIs(front, files);
      forall f ensures f in Packed(log) <==> Visited(log, f) {
        if Visited(log, f) {
          var i :| 0 <= i < |log| && log[i].name == f;
          assert i < |front| ==> front[i].name == f;
        }
        if Visited(front, f) {
          var i :| 0 <= i < |front| && front[i].name == f;
          assert log[i].name == f;
        }
        assert log[|log| - 1].name == f ==> Visited(log, f);
      }
    }
  }

  /** A data node seen as a tree: it knows files, and directories only as what lies above them. */
  function AsTree(files: map<string, Bytes>): Mem {
    Mem(files, map f | f in files :: DEFAULT_MODE, Implied(files.Keys), map f | f in files :: ZERO_TIME)
  }

  lemma AsTreeFiles(files: map<string, Bytes>)
    ensures AsTree(files).files == files
  {
  }

  lemma RestoredAll(dest: Mem, node: Mem, clock: string -> Time)
    ensures var after := Restored(dest, node, node.files.Keys, clock);
            after.files == dest.files + node.files && after.dirs == dest.dirs + Implied(node.files.Keys)
  {
    hide Implied;
    assert Taken(node.files, node.files.Keys) == node.files;
  }

  lemma AsTreeIsTree(m: Mem)
    requires Tree(m)
    ensures Tree(AsTree(m.files)) && AsTree(m.files).dirs <= m.dirs
    ensures Confused(AsTree(m.files)) ==> Confused(m)
  {
    hide Ancestors, CleanRelative, Under;
    var n := AsTree(m.files);
    forall d | d in n.dirs ensures d in m.dirs {
      var f :| f in m.files.Keys && d in Ancestors(f);
      assert Stored(m, f);
    }
    forall p | Stored(n, p) ensures CleanRelative(p) && forall d :: Under(p, d) ==> d in n.dirs {
      assert Stored(m, p);
      AboveImplied(m, p);
    }
    TreeFromUnder(n);
    if d :| ConfusedAt(n, d) {
      assert ConfusedAt(m, d);
    }
  }

  lemma AboveImplied(m: Mem, p: string)
    requires Tree(m) && (p in m.files || p in Implied(m.files.Keys))
    ensures forall d :: Under(p, d) ==> d in Implied(m.files.Keys)
  {
    hide CleanRelative, Under, Ancestors;
    var f :| f in m.files.Keys && (p == f || p in Ancestors(f));
    assert Stored(m, f);
    AncestorsAreUnder(f);
    forall d | Under(p, d) ensures d in Implied(m.files.Keys) {
      if p != f {
        UnderTransitive(f, p, d);
      }
      assert d in Ancestors(f);
    }
  }

  /**
   Pack a tree and unpack the result into any medium: when packing came to its end, unpacking
   completes exactly when the medium accepts every file, and then it holds every path with its
   content, whatever the orders of the listings, besides what it held.  Empty directories are not kept.
   */
  lemma PackUnpack(m: Mem, dest: Mem, log: seq<Item>, depth: nat, clock: string -> Time, outcome: Outcome, after: Mem,
      room: nat)
    requires Tree(m) && Archives(m, log, depth)
    requires room > |m.dirs| && Extracts(AsTree(Packed(log)), dest, clock, outcome, after, room)
    ensures Packed(log) == m.files
    ensures outcome == if AcceptsAll(dest, m.files) then Completed else Stopped
    ensures outcome == Completed ==> after.files == dest.files + m.files && after.dirs == dest.dirs + Implied(m.files.Keys)
    ensures dest == EMPTY ==> (outcome == Completed <==> NoBackslash(m.files)) && (outcome == Completed ==> after.files == m.files)
  {
    hide Tree, Confused, Archives, Extracts, Implied, NoBackslash, Packed, Walks, AsTree, AcceptsAll, Restored;
    ArchiveExact(m);
    PackedIs(log, m.files);
    assert Packed(log) == m.files;
    AsTreeIsTree(m);
    AsTreeFiles(m.files);
    RestoredAll(dest, AsTree(m.files), clock);
    SubsetSize(AsTree(m.files).dirs, m.dirs);
    var done := ExtractExact(AsTree(m.files), dest, clock, outcome, after, room);
    EmptyAccepts(m.files);
    assert map[] + m.files == m.files;
  }
}
