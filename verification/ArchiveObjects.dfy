/** The two recursions of a cube archive as the program runs them (go/cube/cube.go). */
module ArchiveObjects {
  import opened Options
  import opened Paths
  import opened MemoryState
  import opened MemoryTree
  import opened DirEntries
  import opened MemoryListing
  import opened ArchiveWalk
  import opened ArchiveExtract
  import MemoryMedium

  // One adds the files of an in-memory medium to a data node, the other writes the files of a data
  // node to an in-memory medium.  Both are proved to be walks of ArchiveWalk; `depth` is the number of
  // nested calls the stack has room for.

  /** The part of Borg's data node that packing uses. */
  class DataNode {
    var files: map<string, Bytes>

    constructor ()
      ensures files == map[]
    {
      files := map[];
    }

    method AddData(name: string, content: Bytes)
      modifies this
      ensures files == old(files)[name := content]
    {
      files := files[name := content];
    }
  }

  function AddAll(files: map<string, Bytes>, log: seq<Item>): map<string, Bytes>
    decreases |log|
  {
    if log == [] then files else AddAll(files[log[0].name := log[0].content], log[1..])
  }

  lemma {:induction false} AddAllJoin(files: map<string, Bytes>, a: seq<Item>, b: seq<Item>)
    ensures AddAll(files, a + b) == AddAll(AddAll(files, a), b)
    decreases |a|
  {
    if a == [] {
      assert a + b == b;
    } else {
      assert (a + b)[1..] == a[1..] + b;
      AddAllJoin(files[a[0].name := a[0].content], a[1..], b);
    }
  }

  /** Adding a log to an empty data node is packing it. */
  lemma {:induction false} AddAllIsPacked(log: seq<Item>)
    ensures AddAll(map[], log) == Packed(log)
    decreases |log|
  {
    if log != [] {
      var front, last := log[..|log| - 1], log[|log| - 1];
      assert log == front + [last];
      AddAllJoin(map[], front, [last]);
      AddAllIsPacked(front);
      assert [last][1..] == [];
    }
  }

  function SeenAll(entries: seq<DirEntry>): (seen: seq<Seen>)
    ensures |seen| == |entries|
  {
    seq(|entries|, i requires 0 <= i < |entries| => Seen(entries[i].name, entries[i].isDir))
  }

  /** A listing of the in-memory medium shows the directory. */
  lemma ListingShows(m: Mem, dir: string, entries: seq<DirEntry>)
    requires Listing(m, dir, entries)
    ensures Shows(m, dir, SeenAll(entries))
  {
    hide Below, NameBelow, ChildPrefix, Stored, Split, Less;
    var (seen, prefix) := (SeenAll(entries), ChildPrefix(dir));
    forall i, j | 0 <= i < j < |seen| ensures seen[i].name != seen[j].name {
      LessTotal(entries[i].name, entries[j].name);
    }
    forall e | e in seen ensures ShowsEntry(m, prefix, e) {
      var i :| 0 <= i < |seen| && seen[i] == e;
      assert entries[i] in entries;
      assert EntryOf(m, prefix, entries[i]);
    }
    forall p | Stored(m, p) && Below(p, prefix) ensures Names(seen, NameBelow(p, prefix)) {
      assert HasName(entries, NameBelow(p, prefix));
      var e :| e in entries && e.name == NameBelow(p, prefix);
      var i :| 0 <= i < |entries| && entries[i] == e;
      assert seen[i] in seen;
    }
  }

  // A walk from its first entries to its last

  /** What was visited up to entry `i`, followed by a walk of the rest, is a walk of all entries. */
  ghost predicate Continues(m: Mem, dir: string, entries: seq<Seen>, i: nat, log: seq<Item>, depth: nat)
    requires i <= |entries|
  {
    forall more, outcome :: WalksEntries(m, dir, entries[i..], more, outcome, depth) ==>
                            WalksEntries(m, dir, entries, log + more, outcome, depth)
  }

  lemma ContinuesStart(m: Mem, dir: string, entries: seq<Seen>, depth: nat)
    ensures Continues(m, dir, entries, 0, [], depth)
  {
    hide WalksEntries;
    assert entries[0..] == entries;
    forall more: seq<Item> ensures [] + more == more {
    }
  }

  lemma EndsWith(m: Mem, dir: string, entries: seq<Seen>, i: nat, log: seq<Item>, depth: nat, more: seq<Item>,
      outcome: Outcome)
    requires i <= |entries| && Continues(m, dir, entries, i, log, depth)
    requires WalksEntries(m, dir, entries[i..], more, outcome, depth)
    ensures WalksEntries(m, dir, entries, log + more, outcome, depth)
  {
    hide WalksEntries;
  }

  lemma FileNext(m: Mem, dir: string, entries: seq<Seen>, i: nat, log: seq<Item>, depth: nat, child: string)
    requires i < |entries| && Continues(m, dir, entries, i, log, depth) && !entries[i].isDir
    requires child == ArchiveChildPath(dir, entries[i].name) && child in m.files
    ensures Continues(m, dir, entries, i + 1, log + [Item(child, m.files[child])], depth)
    ensures WalksEntries(m, dir, entries, log + [Item(child, m.files[child])], Stopped, depth)
  {
    hide ArchiveChildPath;
    var item := Item(child, m.files[child]);
    assert entries[i..][1..] == entries[i + 1..];
    forall more: seq<Item>, outcome | WalksEntries(m, dir, entries[i + 1..], more, outcome, depth)
      ensures WalksEntries(m, dir, entries, log + [item] + more, outcome, depth) {
      assert ([item] + more)[1..] == more;
      assert WalksEntries(m, dir, entries[i..], [item] + more, outcome, depth);
      EndsWith(m, dir, entries, i, log, depth, [item] + more, outcome);
      assert log + ([item] + more) == log + [item] + more;
    }
    assert WalksEntries(m, dir, entries[i..], [item], Stopped, depth);
    EndsWith(m, dir, entries, i, log, depth, [item], Stopped);
  }

  lemma DirectoryNext(m: Mem, dir: string, entries: seq<Seen>, i: nat, log: seq<Item>, depth: nat,
      below: seq<Item>, outcome: Outcome)
    requires i < |entries| && Continues(m, dir, entries, i, log, depth) && entries[i].isDir
    requires Walks(m, ArchiveChildPath(dir, entries[i].name), below, outcome, depth)
    ensures outcome == Completed ==> Continues(m, dir, entries, i + 1, log + below, depth)
    ensures outcome != Completed ==> WalksEntries(m, dir, entries, log + below, outcome, depth)
  {
    hide ArchiveChildPath, Walks;
    var child := ArchiveChildPath(dir, entries[i].name);
    assert entries[i..][1..] == entries[i + 1..];
    if outcome == Completed {
      forall more: seq<Item>, end | WalksEntries(m, dir, entries[i + 1..], more, end, depth)
        ensures WalksEntries(m, dir, entries, log + below + more, end, depth) {
        assert (below + more)[..|below|] == below && (below + more)[|below|..] == more;
        assert WalksBoth(m, dir, child, entries[i + 1..], below + more, |below|, Completed, end, depth);
        assert WalksEntries(m, dir, entries[i..], below + more, end, depth);
        EndsWith(m, dir, entries, i, log, depth, below + more, end);
        assert log + (below + more) == log + below + more;
      }
    } else {
      assert below[..|below|] == below;
      assert WalksBoth(m, dir, child, entries[i + 1..], below, |below|, outcome, outcome, depth);
      assert WalksEntries(m, dir, entries[i..], below, outcome, depth);
      EndsWith(m, dir, entries, i, log, depth, below, outcome);
    }
  }

  lemma MissingFile(m: Mem, dir: string, entries: seq<Seen>, i: nat, log: seq<Item>, depth: nat)
    requires i < |entries| && Continues(m, dir, entries, i, log, depth) && !entries[i].isDir
    requires ArchiveChildPath(dir, entries[i].name) !in m.files
    ensures WalksEntries(m, dir, entries, log, Failed, depth)
  {
    hide ArchiveChildPath;
    EndsWith(m, dir, entries, i, log, depth, [], Failed);
    assert log + [] == log;
  }

  lemma NoMoreEntries(m: Mem, dir: string, entries: seq<Seen>, log: seq<Item>, depth: nat)
    requires Continues(m, dir, entries, |entries|, log, depth)
    ensures WalksEntries(m, dir, entries, log, Completed, depth)
  {
    assert entries[|entries|..] == [];
    EndsWith(m, dir, entries, |entries|, log, depth, [], Completed);
    assert log + [] == log;
  }

  lemma WalkOf(m: Mem, dir: string, entries: seq<Seen>, log: seq<Item>, outcome: Outcome, depth: nat)
    requires depth > 0 && Lists(m, dir) && Shows(m, dir, entries) && WalksEntries(m, dir, entries, log, outcome, depth - 1)
    ensures Walks(m, dir, log, outcome, depth)
  {
    hide Shows, WalksEntries;
  }

  // Packing

  method AddMediumPath(source: MemoryMedium.MemoryMedium, directoryPath: string, dataNode: DataNode, depth: nat)
    returns (outcome: Outcome, ghost log: seq<Item>)
    modifies dataNode
    ensures Walks(source.State(), directoryPath, log, outcome, depth) && outcome != Stopped
    ensures dataNode.files == AddAll(old(dataNode.files), log)
    decreases depth
  {
    hide Lists, Shows, Listing, WalksEntries, Continues, ArchiveChildPath;
    ghost var m := source.State();
    log := [];
    if depth == 0 {
      return TooDeep, [];
    }
    var listed := source.List(directoryPath);
    if listed.None? {
      return Failed, [];
    }
    var entries := SeenAll(listed.value);
    ListingShows(m, directoryPath, listed.value);
    ContinuesStart(m, directoryPath, entries, depth - 1);
    for i := 0 to |entries|
      invariant Continues(m, directoryPath, entries, i, log, depth - 1)
      invariant dataNode.files == AddAll(old(dataNode.files), log)
    {
      var childPath := ArchiveChildPath(directoryPath, entries[i].name);
      if entries[i].isDir {
        ghost var below;
        outcome, below := AddMediumPath(source, childPath, dataNode, depth - 1);
        AddAllJoin(old(dataNode.files), log, below);
        DirectoryNext(m, directoryPath, entries, i, log, depth - 1, below, outcome);
        log := log + below;
        if outcome != Completed {
          WalkOf(m, directoryPath, entries, log, outcome, depth);
          return;
        }
      } else {
        var content := source.ReadFile(childPath);
        if content.None? {
          MissingFile(m, directoryPath, entries, i, log, depth - 1);
          WalkOf(m, directoryPath, entries, log, Failed, depth);
          return Failed, log;
        }
        dataNode.AddData(childPath, content.value);
        FileNext(m, directoryPath, entries, i, log, depth - 1, childPath);
        AddAllJoin(old(dataNode.files), log, [Item(childPath, content.value)]);
        AddAllOne(AddAll(old(dataNode.files), log), childPath, content.value);
        log := log + [Item(childPath, content.value)];
      }
    }
    NoMoreEntries(m, directoryPath, entries, log, depth - 1);
    WalkOf(m, directoryPath, entries, log, Completed, depth);
    outcome := Completed;
  }

  lemma AddAllOne(files: map<string, Bytes>, name: string, content: Bytes)
    ensures AddAll(files, [Item(name, content)]) == files[name := content]
  {
    assert [Item(name, content)][1..] == [];
  }

  /** Packing a tree that is not confused fills the data node with exactly its files. */
  method ArchiveMedium(source: MemoryMedium.MemoryMedium, depth: nat) returns (outcome: Outcome, dataNode: DataNode)
    requires Tree(source.State())
    ensures fresh(dataNode) && outcome != Stopped
    ensures outcome == Completed ==> dataNode.files == source.fileContents && !Confused(source.State())
    ensures !Confused(source.State()) && depth > |source.directories| ==> outcome == Completed
  {
    hide Tree, Confused, Walks, Packed, AddAll;
    dataNode := new DataNode();
    ghost var log;
    outcome, log := AddMediumPath(source, "", dataNode, depth);
    ArchiveExact(source.State());
    AddAllIsPacked(log);
    if outcome == Completed {
      assert Archives(source.State(), log, depth);
      PackedIs(log, source.fileContents);
      assert dataNode.files == source.fileContents;
    }
  }

  // Unpacking

  /** How the unpacked node is assumed to list a directory: like a tree, in any order. */
  ghost predicate ListsLikeTree(node: Mem, readDir: string -> Option<seq<Seen>>) {
    forall d :: (readDir(d).Some? <==> Lists(node, d)) && (readDir(d).Some? ==> Shows(node, d, readDir(d).value))
  }

  lemma {:induction false} WritesJoin(dest: Mem, a: seq<Item>, mid: Mem, b: seq<Item>, clock: string -> Time,
      outcome: Outcome, after: Mem)
    requires Writes(dest, a, clock, Completed, mid) && Writes(mid, b, clock, outcome, after)
    ensures Writes(dest, a + b, clock, outcome, after)
    decreases |a|
  {
    hide WriteItem;
    if a == [] {
      assert a + b == b;
    } else {
      var written := WriteItem(dest, a[0], clock(a[0].name));
      assert (a + b)[1..] == a[1..] + b;
      WritesJoin(written.value, a[1..], mid, b, clock, outcome, after);
    }
  }

  lemma WritesOne(dest: Mem, item: Item, clock: string -> Time, outcome: Outcome)
    ensures var written := WriteItem(dest, item, clock(item.name));
            if written.Some? then outcome != Stopped ==> Writes(dest, [item], clock, outcome, written.value)
            else Writes(dest, [item], clock, Stopped, dest)
  {
    hide WriteItem;
    assert [item][1..] == [];
  }

  method WriteDataNodeFile(name: string, content: Bytes, destination: MemoryMedium.MemoryMedium, clock: string -> Time)
    returns (ok: bool)
    modifies destination
    ensures var written := WriteItem(old(destination.State()), Item(name, content), clock(name));
            ok == written.Some? && destination.State() == if ok then written.value else old(destination.State())
  {
    hide ValidatedTarEntryName, WriteMode;
    ghost var was := destination.State();
    WriteModeRefuses(was, ValidatedTarEntryName(name), content, clock(name));
    var validated := ValidatedTarEntryName(name);
    if validated == Invalid {
      return false;
    } else if validated == Skip {
      return true;
    }
    var status := destination.WriteFileMode(validated.name, content, DEFAULT_MODE, clock(name));
    ok := status == Done;
  }

  lemma WriteModeRefuses(m: Mem, v: Validated, content: Bytes, now: Time)
    ensures v.Valid? && WriteMode(m, v.name, content, DEFAULT_MODE, now).status != Done ==>
              WriteMode(m, v.name, content, DEFAULT_MODE, now).mem == m
  {
  }

  method WriteDataNodeDir(node: map<string, Bytes>, readDir: string -> Option<seq<Seen>>, directoryPath: string,
      destination: MemoryMedium.MemoryMedium, clock: string -> Time, depth: nat)
    returns (outcome: Outcome, ghost log: seq<Item>)
    requires Tree(AsTree(node)) && ListsLikeTree(AsTree(node), readDir)
    modifies destination
    ensures Walks(AsTree(node), directoryPath, log, outcome, depth)
    ensures Writes(old(destination.State()), log, clock, outcome, destination.State())
    decreases depth
  {
    hide Lists, Shows, WalksEntries, Continues, ArchiveChildPath, Tree, Writes, WriteItem, AsTree;
    ghost var m, was := AsTree(node), destination.State();
    AsTreeFiles(node);
    log := [];
    WritesNothing(was, clock);
    if depth == 0 {
      return TooDeep, [];
    }
    var listed := readDir(directoryPath);
    if listed.None? {
      return Failed, [];
    }
    var entries := listed.value;
    ContinuesStart(m, directoryPath, entries, depth - 1);
    for i := 0 to |entries|
      invariant Continues(m, directoryPath, entries, i, log, depth - 1)
      invariant Writes(was, log, clock, Completed, destination.State())
    {
      var childPath := ArchiveChildPath(directoryPath, entries[i].name);
      ghost var mid := destination.State();
      if entries[i].isDir {
        ghost var below;
        outcome, below := WriteDataNodeDir(node, readDir, childPath, destination, clock, depth - 1);
        WritesJoin(was, log, mid, below, clock, outcome, destination.State());
        DirectoryNext(m, directoryPath, entries, i, log, depth - 1, below, outcome);
        log := log + below;
        if outcome != Completed {
          WalkOf(m, directoryPath, entries, log, outcome, depth);
          return;
        }
      } else {
        if childPath !in node {
          MissingFile(m, directoryPath, entries, i, log, depth - 1);
          WalkOf(m, directoryPath, entries, log, Failed, depth);
          WritesOutcome(was, log, clock, Failed, destination.State());
          return Failed, log;
        }
        ghost var item := Item(childPath, node[childPath]);
        var ok := WriteDataNodeFile(childPath, node[childPath], destination, clock);
        FileNext(m, directoryPath, entries, i, log, depth - 1, childPath);
        WritesOne(mid, item, clock, Completed);
        WritesJoin(was, log, mid, [item], clock, if ok then Completed else Stopped, destination.State());
        log := log + [item];
        if !ok {
          WalkOf(m, directoryPath, entries, log, Stopped, depth);
          return Stopped, log;
        }
      }
    }
    NoMoreEntries(m, directoryPath, entries, log, depth - 1);
    WalkOf(m, directoryPath, entries, log, Completed, depth);
    outcome := Completed;
  }

  lemma WritesNothing(dest: Mem, clock: string -> Time)
    ensures Writes(dest, [], clock, Completed, dest) && Writes(dest, [], clock, TooDeep, dest) && Writes(dest, [], clock, Failed, dest)
  {
  }

  lemma {:induction false} WritesOutcome(dest: Mem, log: seq<Item>, clock: string -> Time, outcome: Outcome, after: Mem)
    requires Writes(dest, log, clock, Completed, after) && outcome != Stopped
    ensures Writes(dest, log, clock, outcome, after)
    decreases |log|
  {
    hide WriteItem;
    if log != [] {
      WritesOutcome(WriteItem(dest, log[0], clock(log[0].name)).value, log[1..], clock, outcome, after);
    }
  }

  /**
   Packing a medium and unpacking it into a new one: it completes exactly when nothing is
   confused and no name holds a backslash, and then the new medium holds the same files.
   */
  method PackThenUnpack(source: MemoryMedium.MemoryMedium, readDir: string -> Option<seq<Seen>>,
      clock: string -> Time, depth: nat)
    returns (outcome: Outcome, destination: MemoryMedium.MemoryMedium)
    requires Tree(source.State()) && depth > |source.directories|
    requires ListsLikeTree(AsTree(source.fileContents), readDir)
    ensures fresh(destination)
    ensures outcome == Completed <==> !Confused(source.State()) && NoBackslash(source.fileContents)
    ensures outcome == Completed ==> destination.fileContents == source.fileContents
  {
    hide Tree, Confused, Walks, Writes, Extracts, AsTree, NoBackslash, ListsLikeTree, AcceptsAll, Restored;
    destination := new MemoryMedium.MemoryMedium();
    var dataNode;
    outcome, dataNode := ArchiveMedium(source, depth);
    if outcome != Completed {
      return;
    }
    ghost var m := source.State();
    AsTreeIsTree(m);
    ghost var log;
    outcome, log := WriteDataNodeDir(dataNode.files, readDir, "", destination, clock, depth);
    assert ExtractsBy(AsTree(m.files), EMPTY, clock, log, outcome, destination.State(), depth);
    ExtractsFrom(AsTree(m.files), clock, log, outcome, destination.State(), depth);
    SubsetSize(AsTree(m.files).dirs, m.dirs);
    ghost var done := ExtractExact(AsTree(m.files), EMPTY, clock, outcome, destination.State(), depth);
    AsTreeFiles(m.files);
    RestoredAll(EMPTY, AsTree(m.files), clock);
    EmptyAccepts(m.files);
    assert map[] + m.files == m.files;
  }

  lemma ExtractsFrom(node: Mem, clock: string -> Time, log: seq<Item>, outcome: Outcome, after: Mem, depth: nat)
    requires ExtractsBy(node, EMPTY, clock, log, outcome, after, depth)
    ensures Extracts(node, EMPTY, clock, outcome, after, depth)
  {
  }
}
