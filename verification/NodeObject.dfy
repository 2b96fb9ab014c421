/** The node tree as the object it is (go/node/node.go): file objects that carry their own name. */
module NodeObject {
  import opened Options
  import opened ByteStrings
  import opened Paths
  import opened PrefixMaps
  import opened NodeState
  import opened DirEntries
  import MemoryMedium
  import MemoryState
  import NodeCopy
  import NodeListing

  // The archive is written from the names, so every method keeps each file's name equal to the key
  // it is stored under, and no file under two keys.

  class DataFile {
    var name: string
    const content: Bytes
    const modTime: Time

    constructor (name: string, content: Bytes, modTime: Time)
      ensures this.name == name && this.content == content && this.modTime == modTime
    {
      this.name, this.content, this.modTime := name, content, modTime;
    }
  }

  ghost predicate NamedByKey(files: map<string, DataFile>)
    reads files.Values
  {
    forall k :: k in files ==> files[k].name == k
  }

  ghost predicate Unshared(files: map<string, DataFile>) {
    forall j, k :: j in files && k in files && j != k ==> files[j] != files[k]
  }

  function ValuesOf(files: map<string, DataFile>): Files {
    map k | k in files :: FileValue(files[k].content, files[k].modTime)
  }

  class Node {
    var files: map<string, DataFile>

    ghost predicate Valid()
      reads this, files.Values
    {
      NamedByKey(files) && Unshared(files)
    }

    function Contents(): Files
      reads this
    {
      ValuesOf(files)
    }

    constructor ()
      ensures Valid() && Contents() == map[]
    {
      files := map[];
    }

    method Put(key: string, content: Bytes, now: Time)
      requires Valid()
      modifies this
      ensures Valid() && fresh(files.Values - old(files.Values))
      ensures Contents() == old(Contents())[key := FileValue(content, now)]
    {
      var file := new DataFile(key, content, now);
      assert file !in files.Values;
      files := files[key := file];
    }

    method AddData(name: string, content: Bytes, now: Time)
      requires Valid()
      modifies this
      ensures Valid() && fresh(files.Values - old(files.Values))
      ensures Contents() == NodeState.AddData(old(Contents()), name, content, now)
    {
      var key := TrimPrefix(name, "/");
      if key == "" || HasSuffix(key, "/") {
        return;
      }
      Put(key, content, now);
    }

    /** Write trims a leading slash before AddData trims another. */
    method Write(path: string, content: Bytes, now: Time) returns (written: bool)
      requires Valid()
      modifies this
      ensures Valid() && fresh(files.Values - old(files.Values))
      ensures written <==> Trimmed(path) != "" && Trimmed(path) != "."
      ensures Contents() == if written then NodeState.AddData(old(Contents()), Trimmed(path), content, now) else old(Contents())
    {
      var key := TrimPrefix(path, "/");
      if key == "" || key == "." {
        return false;
      }
      AddData(key, content, now);
      written := true;
    }

    method Delete(path: string) returns (deleted: bool)
      requires Valid()
      modifies this
      ensures Valid() && files.Values <= old(files.Values)
      ensures deleted <==> Trimmed(path) in old(files)
      ensures Contents() == old(Contents()) - {Trimmed(path)}
    {
      var key := TrimPrefix(path, "/");
      deleted := key in files;
      files := files - {key};
    }

    method DeleteAll(path: string) returns (found: bool)
      requires Valid()
      modifies this
      ensures Valid() && files.Values <= old(files.Values)
      ensures var gone := set k | k in old(files) && (k == Trimmed(path) || HasPrefix(k, Trimmed(path) + "/"));
              Contents() == old(Contents()) - gone && (found <==> gone != {})
    {
      hide HasPrefix, NamedByKey, Unshared, ValuesOf;
      var key := TrimPrefix(path, "/");
      ghost var was, gone := files, {};
      found := false;
      if key in files {
        files := files - {key};
        gone := {key};
        found := true;
      }
      var prefix := key + "/";
      var pending := files.Keys;
      while pending != {}
        invariant pending <= was.Keys - {key}
        invariant gone == set k | k in was && k !in pending && (k == key || HasPrefix(k, prefix))
        invariant files == was - gone
        invariant found <==> gone != {}
        decreases pending
      {
        var entryPath :| entryPath in pending;
        pending := pending - {entryPath};
        if HasPrefix(entryPath, prefix) {
          files := files - {entryPath};
          gone := gone + {entryPath};
          found := true;
        }
      }
      KeptValues(was, gone);
    }

    /** A file is renamed by itself; a directory by collecting every move before making any. */
    method RenamePath(oldName: string, newName: string) returns (renamed: bool)
      requires Valid()
      modifies this, files.Values
      ensures Valid() && files.Values <= old(files.Values)
      ensures renamed <==> Renamable(old(Contents()), Trimmed(oldName))
      ensures Contents() == NodeState.Rename(old(Contents()), Trimmed(oldName), Trimmed(newName))
    {
      var oldPath, newPath := TrimPrefix(oldName, "/"), TrimPrefix(newName, "/");
      if oldPath in files {
        OneRenamed(files, oldPath, newPath);
        var file := files[oldPath];
        file.name := newPath;
        files := files[newPath := file];
        files := files - {oldPath};
        return true;
      }
      renamed := RenameBelow(oldPath + "/", newPath + "/");
      assert Renamable(old(Contents()), oldPath) <==> exists k :: k in old(files) && HasPrefix(k, oldPath + "/") by {
        assert forall k :: k in old(files) <==> k in old(Contents());
      }
    }

    method NameFile(key: string, name: string)
      requires key in files && Unshared(files)
      modifies files[key]
      ensures NamesOf(files) == old(NamesOf(files))[key := name]
    {
      var file := files[key];
      file.name := name;
    }

    /** First phase: every file below the old prefix gets its new name, and the moves are noted. */
    method CollectMoves(oldPrefix: string, newPrefix: string) returns (toAdd: map<string, DataFile>,
        toDelete: seq<string>)
      requires Valid()
      modifies files.Values
      ensures forall k :: k in toDelete <==> k in files && HasPrefix(k, oldPrefix)
      ensures Noted(files, files.Keys, oldPrefix, newPrefix, toAdd)
      ensures NamesOf(files) == NewNames(files.Keys, files.Keys, oldPrefix, newPrefix)
    {
      hide HasPrefix, Moved, Noted, NamesOf, NewNames, Unshared, NamedByKey;
      toAdd, toDelete := map[], [];
      NothingNoted(files, oldPrefix, newPrefix);
      var pending := files.Keys;
      ghost var met := {};
      while pending != {}
        invariant pending <= files.Keys && met == files.Keys - pending
        invariant forall k :: k in toDelete <==> k in met && HasPrefix(k, oldPrefix)
        invariant Noted(files, met, oldPrefix, newPrefix, toAdd)
        invariant NamesOf(files) == NewNames(files.Keys, met, oldPrefix, newPrefix)
        decreases pending
      {
        var filePath :| filePath in pending;
        NoteOne(files, met, oldPrefix, newPrefix, toAdd, filePath);
        NewNamesNext(files.Keys, met, oldPrefix, newPrefix, filePath);
        if HasPrefix(filePath, oldPrefix) {
          var updatedPath := Moved(filePath, oldPrefix, newPrefix);
          NameFile(filePath, updatedPath);
          toAdd := toAdd[updatedPath := files[filePath]];
          toDelete := toDelete + [filePath];
        }
        met := met + {filePath};
        pending := pending - {filePath};
      }
      assert met == files.Keys;
    }

    method DropKeys(toDelete: seq<string>)
      modifies `files
      ensures files == old(files) - (set k | k in toDelete)
    {
      var gone: set<string> := {};
      for i := 0 to |toDelete|
        invariant gone == set k | k in toDelete[..i]
        invariant files == old(files) - gone
      {
        assert toDelete[..i + 1] == toDelete[..i] + [toDelete[i]];
        gone := gone + {toDelete[i]};
        files := files - {toDelete[i]};
      }
      assert toDelete[..|toDelete|] == toDelete;
    }

    method StoreAll(toAdd: map<string, DataFile>)
      modifies `files
      ensures files.Keys == old(files).Keys + toAdd.Keys
      ensures forall p :: p in files ==> files[p] == if p in toAdd then toAdd[p] else old(files)[p]
    {
      var pending := toAdd.Keys;
      while pending != {}
        invariant pending <= toAdd.Keys
        invariant files.Keys == old(files).Keys + (toAdd.Keys - pending)
        invariant forall p :: p in files ==> files[p] == if p in toAdd && p !in pending then toAdd[p] else old(files)[p]
        decreases pending
      {
        var p :| p in pending;
        files := files[p := toAdd[p]];
        pending := pending - {p};
      }
    }

    method RenameBelow(oldPrefix: string, newPrefix: string) returns (renamed: bool)
      requires Valid()
      modifies this, files.Values
      ensures Valid() && files.Values <= old(files.Values)
      ensures renamed <==> exists k :: k in old(files) && HasPrefix(k, oldPrefix)
      ensures Contents() == Substituted(old(Contents()), oldPrefix, newPrefix)
    {
      hide HasPrefix, Moved, Substituted, Enumerates, NamesOf, NewNames, Noted;
      ghost var was := files;
      var toAdd, toDelete := CollectMoves(oldPrefix, newPrefix);
      DropKeys(toDelete);
      ghost var kept := files;
      assert kept == was - (set k | k in was && HasPrefix(k, oldPrefix));
      StoreAll(toAdd);
      RenamedMap(was, files, kept, toAdd, oldPrefix, newPrefix);
      renamed := toDelete != [];
      assert renamed ==> toDelete[0] in toDelete;
    }

    // Listing and copying

    method StatAt(name: string, now: Time) returns (info: Option<NodeListing.FileInfo>)
      requires Valid()
      ensures info == NodeListing.Stat(Contents(), NodeListing.Key(name), now)
    {
      hide PathBase, HasPrefix;
      var key := NodeListing.Key(name);
      if key in files {
        return Some(NodeListing.FileInfoOf(files[key].name, Contents()[key]));
      }
      if key == "" {
        return Some(NodeListing.DirInfo(".", now));
      }
      var pending := files.Keys;
      while pending != {}
        invariant forall k :: k in files && k !in pending ==> !HasPrefix(k, key + "/")
        decreases pending
      {
        var filePath :| filePath in pending;
        if filePath in files && HasPrefix(filePath, key + "/") {
          assert filePath in Contents();
          return Some(NodeListing.DirInfo(PathBase(key), now));
        }
        pending := pending - {filePath};
      }
      info := None;
    }

    /** One entry for each first component, from the first key met; then the sort. */
    method ReadDir(name: string, now: Time) returns (entries: Option<seq<DirEntry>>,
        ghost order: seq<string>)
      requires Valid()
      ensures Enumerates(order, files.Keys)
      ensures var key := NodeListing.Key(name);
              var info := NodeListing.Stat(Contents(), NodeListing.Key(key), now);
              if info.Some? && info.value.isDir
              then entries == Some(NodeListing.ReadDir(Contents(), NodeListing.DirectoryPrefix(key), order, now))
              else entries == None
    {
      hide Enumerates, HasPrefix, PathBase, NodeListing.Gather, NodeListing.FirstBelow, NodeListing.EntryFor,
        NodeListing.Stat, SortByName, NamedByKey, Unshared;
      ghost var m := Contents();
      var key := NodeListing.Key(name);
      var info := StatAt(key, now);
      if info.None? || !info.value.isDir {
        order := SomeOrder(files.Keys);
        return None, order;
      }
      var prefix := NodeListing.DirectoryPrefix(key);
      var found, seen := [], {};
      order := [];
      EnumeratesNone();
      NodeListing.GatherNone(m, prefix, now);
      var pending := files.Keys;
      assert files.Keys - pending == {};
      while pending != {}
        invariant pending <= files.Keys
        invariant Enumerates(order, files.Keys - pending)
        invariant forall k :: k in order ==> k in m
        invariant seen == NodeListing.SeenBy(prefix, order)
        invariant found == NodeListing.Gather(m, prefix, order, {}, now)
        decreases pending
      {
        var filePath :| filePath in pending;
        ghost var met := files.Keys - pending;
        EnumeratesNext(order, met, filePath);
        NodeListing.GatherNext(m, prefix, order, {}, filePath, now);
        NodeListing.SeenNext(prefix, order, filePath);
        if HasPrefix(filePath, prefix) && NodeListing.FirstBelow(prefix, filePath) !in seen {
          found := found + [NodeListing.EntryFor(Contents(), prefix, filePath, now)];
          seen := seen + {NodeListing.FirstBelow(prefix, filePath)};
        }
        order := order + [filePath];
        pending := pending - {filePath};
        assert files.Keys - pending == met + {filePath};
      }
      assert files.Keys - pending == files.Keys;
      var sorted := new DirEntry[|found|](i requires 0 <= i < |found| => found[i]);
      assert sorted[..] == found;
      SortDirEntriesByName(sorted);
      entries := Some(sorted[..]);
    }

    method CopyTo(target: MemoryMedium.MemoryMedium, sourcePath: string, destinationPath: string, now: Time)
      returns (status: MemoryState.Status, ghost order: seq<string>)
      requires Valid()
      modifies target
      ensures Enumerates(order, files.Keys)
      ensures MemoryState.Step(status, target.State()) ==
              NodeCopy.CopyTo(old(target.State()), Contents(), order, NodeListing.Key(sourcePath), destinationPath, now)
    {
      hide Enumerates, HasPrefix, PathBase, NodeListing.Stat, NodeCopy.CopyAll, MemoryState.WriteMode,
        NodeCopy.CopyPath, NodeCopy.Copied;
      ghost var m, was := Contents(), target.State();
      var source := NodeListing.Key(sourcePath);
      order := SomeOrder(files.Keys);
      var info := StatAt(source, now);
      if info.None? {
        return MemoryState.NotFound, order;
      }
      if !info.value.isDir {
        if source !in files {
          return MemoryState.NotFound, order;
        }
        status := target.WriteFileMode(destinationPath, files[source].content, MemoryState.DEFAULT_MODE, now);
        return;
      }
      order := [];
      EnumeratesNone();
      NodeCopy.CopyNone(was, m, source, destinationPath, now);
      var pending := files.Keys;
      assert files.Keys - pending == {};
      while pending != {}
        invariant pending <= files.Keys
        invariant Enumerates(order, files.Keys - pending)
        invariant forall k :: k in order ==> k in m
        invariant NodeCopy.CopyAll(was, m, order, source, destinationPath, now) ==
                  MemoryState.Step(MemoryState.Done, target.State())
        decreases pending
      {
        var filePath :| filePath in pending;
        ghost var met := files.Keys - pending;
        EnumeratesNext(order, met, filePath);
        NodeCopy.CopyAllJoin(was, m, order, [filePath], source, destinationPath, now);
        NodeCopy.CopyOne(target.State(), m, filePath, source, destinationPath, now);
        order := order + [filePath];
        pending := pending - {filePath};
        assert files.Keys - pending == met + {filePath};
        if NodeCopy.Copied(source, MemoryState.ChildPrefix(source), filePath) {
          var path := NodeCopy.CopyPath(MemoryState.ChildPrefix(source), destinationPath, filePath);
          status := target.WriteFileMode(path, files[filePath].content, MemoryState.DEFAULT_MODE, now);
          if status != MemoryState.Done {
            ghost var rest := SomeOrder(pending);
            EnumeratesRest(order, rest, files.Keys, pending);
            NodeCopy.CopyAllJoin(was, m, order, rest, source, destinationPath, now);
            return status, order + rest;
          }
        }
      }
      assert files.Keys - pending == files.Keys;
      status := MemoryState.Done;
    }

    /** One entry per file, in some order, under the name the file carries; or nothing, when one cannot be written. */
    method ToTar() returns (items: Option<seq<TarItem>>, ghost order: seq<string>)
      requires Valid()
      ensures Enumerates(order, files.Keys)
      ensures items == NodeState.ToTar(Contents(), order)
    {
      hide Archivable;
      var entries := [];
      order := [];
      var pending := files.Keys;
      while pending != {}
        invariant pending <= files.Keys
        invariant Enumerates(order, files.Keys - pending)
        invariant |entries| == |order|
        invariant forall i | 0 <= i < |order| ::
                    order[i] in files && Archivable(order[i], files[order[i]].content) &&
                    entries[i] == ItemFor(order[i], Contents()[order[i]])
        decreases pending
      {
        var k :| k in pending;
        var file := files[k];
        ghost var done := files.Keys - pending;
        EnumeratesNext(order, done, k);
        order := order + [k];
        pending := pending - {k};
        assert files.Keys - pending == done + {k};
        if !Archivable(file.name, file.content) {
          ghost var rest := SomeOrder(pending);
          EnumeratesRest(order, rest, files.Keys, pending);
          assert k in order + rest;
          return None, order + rest;
        }
        entries := entries + [ItemFor(file.name, FileValue(file.content, file.modTime))];
      }
      assert files.Keys - pending == files.Keys;
      assert entries == Items(Contents(), order);
      items := Some(entries);
    }

    /** The whole archive is read before anything is replaced. */
    method LoadTar(items: seq<TarItem>) returns (loaded: bool)
      requires Valid()
      modifies this
      ensures Valid() && fresh(files.Values - old(files.Values))
      ensures loaded <==> Load(items, map[]).Ok?
      ensures Contents() == if loaded then Load(items, map[]).files else old(Contents())
      ensures !loaded ==> files == old(files)
    {
      var newFiles: map<string, DataFile> := map[];
      for i := 0 to |items|
        invariant files == old(files)
        invariant fresh(newFiles.Values)
        invariant NamedByKey(newFiles) && Unshared(newFiles)
        invariant Load(items[i..], ValuesOf(newFiles)) == Load(items, map[])
      {
        assert items[i..][1..] == items[i + 1..];
        match items[i] {
          case Corrupt => return false;
          case OtherKind =>
          case Regular(entryName, content, modTime) =>
            var key := TrimPrefix(entryName, "/");
            if key != "" && !HasSuffix(key, "/") {
              var file := new DataFile(key, content, modTime);
              assert ValuesOf(newFiles[key := file]) == ValuesOf(newFiles)[key := FileValue(content, modTime)];
              assert newFiles[key := file].Values <= newFiles.Values + {file};
              newFiles := newFiles[key := file];
            }
        }
      }
      files := newFiles;
      loaded := true;
    }
  }

  /** A writer stores what it collected under its path, trailing slash or not. */
  class NodeWriter {
    const node: Node
    const path: string
    var buffer: Bytes

    constructor Create(node: Node, path: string)
      ensures this.node == node && this.path == Trimmed(path) && buffer == []
    {
      this.node, this.path, buffer := node, TrimPrefix(path, "/"), [];
    }

    constructor Append(node: Node, path: string)
      ensures this.node == node && this.path == Trimmed(path)
      ensures buffer == if Trimmed(path) in node.Contents() then node.Contents()[Trimmed(path)].content else []
    {
      var key := TrimPrefix(path, "/");
      this.node, this.path := node, key;
      buffer := if key in node.files then node.files[key].content else [];
    }

    method Write(more: Bytes) returns (count: nat)
      modifies this
      ensures count == |more| && buffer == old(buffer) + more
    {
      buffer := buffer + more;
      count := |more|;
    }

    method Close(now: Time) returns (stored: bool)
      requires node.Valid()
      modifies node
      ensures node.Valid() && fresh(node.files.Values - old(node.files.Values))
      ensures stored <==> path != "" && path != "."
      ensures node.Contents() ==
              if stored then old(node.Contents())[path := FileValue(buffer, now)] else old(node.Contents())
    {
      if path == "" || path == "." {
        return false;
      }
      node.Put(path, buffer, now);
      stored := true;
    }
  }

  function NamesOf(files: map<string, DataFile>): map<string, string>
    reads files.Values
  {
    map k | k in files :: files[k].name
  }

  /** The names once the files of the keys met so far were given theirs. */
  function NewNames(keys: set<string>, met: set<string>, from: string, to: string): map<string, string> {
    map k | k in keys :: if k in met && HasPrefix(k, from) then Moved(k, from, to) else k
  }

  lemma NewNamesNext(keys: set<string>, met: set<string>, from: string, to: string, key: string)
    requires key in keys
    ensures NewNames(keys, met + {key}, from, to) ==
            if HasPrefix(key, from) then NewNames(keys, met, from, to)[key := Moved(key, from, to)]
            else NewNames(keys, met, from, to)
  {
    hide HasPrefix, Moved;
  }

  lemma NothingNoted(files: map<string, DataFile>, from: string, to: string)
    requires NamedByKey(files)
    ensures Noted(files, {}, from, to, map[]) && NamesOf(files) == NewNames(files.Keys, {}, from, to)
  {
  }

  /** The moves noted are those of the keys met so far. */
  ghost predicate Noted(files: map<string, DataFile>, met: set<string>, from: string, to: string,
      toAdd: map<string, DataFile>)
    requires met <= files.Keys
  {
    (forall k :: k in met && HasPrefix(k, from) ==> Moved(k, from, to) in toAdd && toAdd[Moved(k, from, to)] == files[k]) &&
    (forall p :: p in toAdd ==> exists k :: k in met && HasPrefix(k, from) && p == Moved(k, from, to))
  }

  lemma NoteOne(files: map<string, DataFile>, met: set<string>, from: string, to: string,
      toAdd: map<string, DataFile>, key: string)
    requires met <= files.Keys && Noted(files, met, from, to, toAdd) && key in files && key !in met
    ensures Noted(files, met + {key}, from, to,
                  if HasPrefix(key, from) then toAdd[Moved(key, from, to) := files[key]] else toAdd)
  {
    hide HasPrefix, Moved;
    if HasPrefix(key, from) {
      forall k | k in met && HasPrefix(k, from) ensures Moved(k, from, to) != Moved(key, from, to) {
        MovedApart(k, key, from, to);
      }
    }
    var more := met + {key};
    assert key in more && forall k :: k in met ==> k in more;
  }

  lemma KeptValues(was: map<string, DataFile>, gone: set<string>)
    requires NamedByKey(was) && Unshared(was)
    ensures var files := was - gone;
            files.Values <= was.Values && NamedByKey(files) && Unshared(files) && ValuesOf(files) == ValuesOf(was) - gone
  {
  }

  lemma NewName(was: map<string, DataFile>, k: string, from: string, to: string)
    requires k in was && NamesOf(was) == NewNames(was.Keys, was.Keys, from, to)
    ensures was[k].name == if HasPrefix(k, from) then Moved(k, from, to) else k
  {
    assert NamesOf(was)[k] == was[k].name;
  }

  lemma OneRenamed(was: map<string, DataFile>, from: string, to: string)
    requires Unshared(was) && from in was
    ensures var files := was[to := was[from]] - {from};
            Unshared(files) && files.Values <= was.Values &&
            ValuesOf(files) == NodeState.Rename(ValuesOf(was), from, to) &&
            forall k :: k in files ==> files[k] == was[if k == to then from else k]
  {
  }

  /** Deleting the old keys and then adding the new ones is the simultaneous substitution. */
  lemma RenamedMap(was: map<string, DataFile>, now: map<string, DataFile>, kept: map<string, DataFile>,
      added: map<string, DataFile>, from: string, to: string)
    requires kept == was - (set k | k in was && HasPrefix(k, from))
    requires Noted(was, was.Keys, from, to, added)
    requires now.Keys == kept.Keys + added.Keys
    requires forall p :: p in now ==> now[p] == if p in added then added[p] else kept[p]
    requires NamesOf(was) == NewNames(was.Keys, was.Keys, from, to)
    ensures ValuesOf(now) == Substituted(ValuesOf(was), from, to)
    ensures NamedByKey(now) && Unshared(now) && now.Values <= was.Values
  {
    hide Substituted, NamesOf, NewNames, Noted, HasPrefix, Moved, ValuesOf, IsDestination, Unshared;
    forall p ensures (p in ValuesOf(now) <==> p in Substituted(ValuesOf(was), from, to)) &&
                     (p in ValuesOf(now) ==> ValuesOf(now)[p] == Substituted(ValuesOf(was), from, to)[p]) {
      RenamedValue(was, now, kept, added, from, to, p);
    }
    forall p | p in now ensures now[p].name == p && now[p] in was.Values {
      RenamedName(was, now, kept, added, from, to, p);
    }
    NamedApart(now);
  }

  lemma NamedApart(files: map<string, DataFile>)
    requires NamedByKey(files)
    ensures Unshared(files)
  {
  }

  lemma RenamedValue(was: map<string, DataFile>, now: map<string, DataFile>, kept: map<string, DataFile>,
      added: map<string, DataFile>, from: string, to: string, p: string)
    requires kept == was - (set k | k in was && HasPrefix(k, from))
    requires Noted(was, was.Keys, from, to, added)
    requires now.Keys == kept.Keys + added.Keys
    requires p in now ==> now[p] == if p in added then added[p] else kept[p]
    ensures p in ValuesOf(now) <==> p in Substituted(ValuesOf(was), from, to)
    ensures p in ValuesOf(now) ==> ValuesOf(now)[p] == Substituted(ValuesOf(was), from, to)[p]
  {
    hide Substituted;
    SubstitutedAt(ValuesOf(was), p, from, to);
    if p in added {
      var k :| k in was && HasPrefix(k, from) && p == Moved(k, from, to);
      MovedBack(k, from, to);
    } else if IsDestination(ValuesOf(was), p, from, to) {
      MovedBack(p, to, from);
    }
  }

  lemma RenamedName(was: map<string, DataFile>, now: map<string, DataFile>, kept: map<string, DataFile>,
      added: map<string, DataFile>, from: string, to: string, p: string)
    requires kept == was - (set k | k in was && HasPrefix(k, from))
    requires Noted(was, was.Keys, from, to, added)
    requires now.Keys == kept.Keys + added.Keys && p in now
    requires now[p] == if p in added then added[p] else kept[p]
    requires NamesOf(was) == NewNames(was.Keys, was.Keys, from, to)
    ensures now[p].name == p && now[p] in was.Values
  {
    hide NamesOf, NewNames, HasPrefix, Moved;
    if p in added {
      var k :| k in was && HasPrefix(k, from) && p == Moved(k, from, to);
      NewName(was, k, from, to);
    } else {
      NewName(was, p, from, to);
    }
  }
}
