/**
 The in-memory medium as the object it is (go/io.go): four maps that the methods change, often in
 loops over the maps that visit the keys in no particular order.  Each method is proved to do what
 its function in MemoryState says, and the order a loop took is part of what a rename returns.
 */
module MemoryMedium {
  import opened Options
  import opened Paths
  import opened PathTree
  import opened PrefixMaps
  import opened MemoryState
  import opened DirEntries
  import opened MemoryListing
  import MemoryTree

  class MemoryMedium {
    var fileContents: map<string, Bytes>
    var fileModes: map<string, Mode>
    var directories: set<string>
    var modificationTimes: map<string, Time>

    ghost function State(): Mem
      reads this
    {
      Mem(fileContents, fileModes, directories, modificationTimes)
    }

    constructor ()
      ensures State() == EMPTY
    {
      fileContents, fileModes, directories, modificationTimes := map[], map[], {}, map[];
    }

    method EnsureAncestorDirectories(filePath: string)
      modifies `directories
      ensures directories == old(directories) + Ancestors(filePath)
    {
      hide PathDir;
      var parentPath := PathDir(filePath);
      while parentPath != "." && parentPath != ""
        invariant directories + Chain(parentPath) == old(directories) + Ancestors(filePath)
        decreases if parentPath == "." || parentPath == "" then 0 else |parentPath|
      {
        PathDirShorter(parentPath);
        directories := directories + {parentPath};
        var nextParentPath := PathDir(parentPath);
        if nextParentPath == parentPath {
          break;
        }
        parentPath := nextParentPath;
      }
    }

    method FileHasPrefix(prefix: string) returns (found: bool)
      ensures found <==> HasFileBelow(State(), prefix)
    {
      var pending := fileContents.Keys;
      while pending != {}
        invariant forall f :: f in fileContents && f !in pending ==> !HasPrefix(f, prefix)
        decreases pending
      {
        var f :| f in pending;
        if f in fileContents && HasPrefix(f, prefix) {
          return true;
        }
        pending := pending - {f};
      }
      found := false;
    }

    method DirectoryHasPrefix(path: string, prefix: string) returns (found: bool)
      ensures found <==> HasDirectoryBelow(State(), path, prefix)
    {
      var pending := directories;
      while pending != {}
        invariant pending <= directories
        invariant forall d :: d in directories && d !in pending ==> d == path || !HasPrefix(d, prefix)
        decreases pending
      {
        var d :| d in pending;
        if d != path && HasPrefix(d, prefix) {
          return true;
        }
        pending := pending - {d};
      }
      found := false;
    }

    method DirectoryExistsAt(path: string) returns (found: bool)
      ensures found <==> DirectoryExists(State(), path)
    {
      if path == "" {
        return false;
      }
      if path in directories {
        return true;
      }
      found := FileHasPrefix(WithSlash(path));
      if !found {
        found := DirectoryHasPrefix(path, WithSlash(path));
      }
    }

    method DirectoryHasChildren(path: string) returns (found: bool)
      ensures found <==> HasChildren(State(), path)
    {
      found := FileHasPrefix(ChildPrefix(path));
      if !found {
        found := DirectoryHasPrefix(path, ChildPrefix(path));
      }
    }

    method ReadFile(path: string) returns (content: Option<Bytes>)
      ensures content == Read(State(), path)
    {
      content := if path in fileContents then Some(fileContents[path]) else None;
    }

    method WriteFileMode(filePath: string, content: Bytes, mode: Mode, now: Time) returns (status: Status)
      modifies this
      ensures Step(status, State()) == WriteMode(old(State()), filePath, content, mode, now)
    {
      hide PathDir;
      var ancestor := PathDir(filePath);
      while ancestor != "." && ancestor != ""
        invariant unchanged(this)
        invariant Chain(ancestor) <= Ancestors(filePath)
        invariant forall a :: a in Ancestors(filePath) && a !in Chain(ancestor) ==> a !in fileContents
        decreases if ancestor == "." || ancestor == "" then 0 else |ancestor|
      {
        PathDirShorter(ancestor);
        assert ancestor in Chain(ancestor);
        if ancestor in fileContents {
          assert ancestor in Ancestors(filePath) && ancestor in State().files;
          assert HasFileAncestor(State(), filePath);
          return AlreadyExists;
        }
        var next := PathDir(ancestor);
        if next == ancestor {
          break;
        }
        ancestor := next;
      }
      assert !HasFileAncestor(State(), filePath);
      if filePath in directories {
        return AlreadyExists;
      }
      EnsureAncestorDirectories(filePath);
      fileContents := fileContents[filePath := content];
      fileModes := fileModes[filePath := mode];
      modificationTimes := modificationTimes[filePath := now];
      status := Done;
    }

    method EnsureDirectory(path: string) returns (status: Status)
      modifies `directories
      ensures Step(status, State()) == EnsureDir(old(State()), path)
    {
      if path in fileContents {
        return AlreadyExists;
      }
      EnsureAncestorDirectories(path);
      directories := directories + {path};
      status := Done;
    }

    method DropFile(path: string)
      modifies this
      ensures State() == WithoutFile(old(State()), path)
    {
      fileContents := fileContents - {path};
      fileModes := fileModes - {path};
      modificationTimes := modificationTimes - {path};
    }

    method DeletePath(path: string) returns (status: Status)
      modifies this
      ensures Step(status, State()) == Delete(old(State()), path)
    {
      if path in fileContents {
        DropFile(path);
        return Done;
      }
      var exists_ := DirectoryExistsAt(path);
      if exists_ {
        var children := DirectoryHasChildren(path);
        if children {
          return AlreadyExists;
        }
        directories := directories - {path};
        return Done;
      }
      status := NotFound;
    }

    method DropFilesBelow(prefix: string) returns (found: bool)
      modifies this
      ensures var below := set f | f in old(fileContents) && HasPrefix(f, prefix);
              fileContents == old(fileContents) - below && fileModes == old(fileModes) - below &&
              modificationTimes == old(modificationTimes) - below && directories == old(directories) &&
              (found <==> below != {})
    {
      hide HasPrefix;
      ghost var was, gone := State(), {};
      found := false;
      var pending := fileContents.Keys;
      assert fileContents == was.files - gone && fileModes == was.modes - gone && modificationTimes == was.times - gone;
      while pending != {}
        invariant pending <= was.files.Keys
        invariant gone == set f | f in was.files && f !in pending && HasPrefix(f, prefix)
        invariant fileContents == was.files - gone && fileModes == was.modes - gone
        invariant modificationTimes == was.times - gone && directories == was.dirs
        invariant found <==> gone != {}
        decreases pending
      {
        var filePath :| filePath in pending;
        if HasPrefix(filePath, prefix) {
          DropFile(filePath);
          WithoutBoth(was.files, gone, {filePath});
          WithoutBoth(was.modes, gone, {filePath});
          WithoutBoth(was.times, gone, {filePath});
          gone := gone + {filePath};
          found := true;
        }
        pending := pending - {filePath};
      }
    }

    method DropDirectoriesBelow(prefix: string) returns (found: bool)
      modifies `directories
      ensures var below := set d | d in old(directories) && HasPrefix(d, prefix);
              directories == old(directories) - below && (found <==> below != {})
    {
      hide HasPrefix;
      ghost var was, gone := directories, {};
      found := false;
      var pending := directories;
      while pending != {}
        invariant pending <= was
        invariant gone == set d | d in was && d !in pending && HasPrefix(d, prefix)
        invariant directories == was - gone
        invariant found <==> gone != {}
        decreases pending
      {
        var directoryPath :| directoryPath in pending;
        if HasPrefix(directoryPath, prefix) {
          directories := directories - {directoryPath};
          gone := gone + {directoryPath};
          found := true;
        }
        pending := pending - {directoryPath};
      }
    }

    method DeleteTree(path: string) returns (status: Status)
      modifies this
      ensures Step(status, State()) == DeleteAll(old(State()), path)
    {
      hide *;
      ghost var was := State();
      StateIs();
      var found := false;
      if path in fileContents {
        DropFile(path);
        WithoutFileIs(was, path);
        found := true;
      }
      StateIs();
      if path in directories {
        directories := directories - {path};
        found := true;
      }
      ghost var own := if path in was.files then {path} else {};
      assert fileContents == was.files - own && fileModes == was.modes - own && modificationTimes == was.times - own;
      assert directories == was.dirs - {path};
      var files := DropFilesBelow(WithSlash(path));
      var dirs := DropDirectoriesBelow(WithSlash(path));
      found := found || files || dirs;
      DeletedIs(was, path, files, dirs);
      StateIs();
      status := if found then Done else NotFound;
    }

    lemma StateIs()
      ensures State() == Mem(fileContents, fileModes, directories, modificationTimes)
    {
    }

    // The loops of a directory rename

    method RenameFilesWithPrefix(oldPrefix: string, newPrefix: string) returns (ghost order: seq<string>)
      modifies this
      ensures Enumerates(order, set f | f in old(fileContents) && HasPrefix(f, oldPrefix))
      ensures fileContents == MoveAll(old(fileContents), order, oldPrefix, newPrefix)
      ensures fileModes == MoveAll(old(fileModes), order, oldPrefix, newPrefix)
      ensures modificationTimes == MoveAll(old(modificationTimes), order, oldPrefix, newPrefix)
      ensures directories == old(directories)
    {
      ghost var was := Mem(fileContents, fileModes, directories, modificationTimes);
      MoveNone(was.files, oldPrefix, newPrefix);
      MoveNone(was.modes, oldPrefix, newPrefix);
      MoveNone(was.times, oldPrefix, newPrefix);
      EnumeratesNone();
      hide *;
      var filesToMove := map f | f in fileContents && HasPrefix(f, oldPrefix) :: Moved(f, oldPrefix, newPrefix);
      var pending := filesToMove.Keys;
      order := [];
      assert filesToMove.Keys - pending == {};
      while pending != {}
        invariant pending <= filesToMove.Keys && pending <= fileContents.Keys
        invariant Enumerates(order, filesToMove.Keys - pending)
        invariant forall k :: k in order ==> HasPrefix(k, oldPrefix)
        invariant fileContents == MoveAll(was.files, order, oldPrefix, newPrefix)
        invariant fileModes == MoveAll(was.modes, order, oldPrefix, newPrefix)
        invariant modificationTimes == MoveAll(was.times, order, oldPrefix, newPrefix)
        invariant directories == was.dirs
        decreases pending
      {
        var oldFilePath :| oldFilePath in pending;
        var newFilePath := filesToMove[oldFilePath];
        MoveAllNext(was.files, order, oldPrefix, newPrefix, oldFilePath);
        MoveAllNext(was.modes, order, oldPrefix, newPrefix, oldFilePath);
        MoveAllNext(was.times, order, oldPrefix, newPrefix, oldFilePath);
        MoveKeySteps(fileContents, oldFilePath, newFilePath);
        MoveKeySteps(fileModes, oldFilePath, newFilePath);
        MoveKeySteps(modificationTimes, oldFilePath, newFilePath);
        fileContents := fileContents[newFilePath := fileContents[oldFilePath]];
        fileContents := fileContents - {oldFilePath};
        if oldFilePath in modificationTimes {
          modificationTimes := modificationTimes[newFilePath := modificationTimes[oldFilePath]];
          modificationTimes := modificationTimes - {oldFilePath};
        }
        if oldFilePath in fileModes {
          fileModes := fileModes[newFilePath := fileModes[oldFilePath]];
          fileModes := fileModes - {oldFilePath};
        }
        ghost var moved := filesToMove.Keys - pending;
        EnumeratesNext(order, moved, oldFilePath);
        order := order + [oldFilePath];
        pending := pending - {oldFilePath};
        assert filesToMove.Keys - pending == moved + {oldFilePath};
      }
      assert filesToMove.Keys - pending == set f | f in was.files && HasPrefix(f, oldPrefix);
    }

    method RenameDirectoriesWithPrefix(oldPrefix: string, newPrefix: string) returns (ghost order: seq<string>)
      modifies `directories
      ensures Enumerates(order, set d | d in old(directories) && HasPrefix(d, oldPrefix))
      ensures directories == MoveDirectories(old(directories), order, oldPrefix, newPrefix)
    {
      ghost var was := directories;
      EnumeratesNone();
      assert MoveDirectories(was, [], oldPrefix, newPrefix) == was;
      hide *;
      var dirsToMove := map d | d in directories && HasPrefix(d, oldPrefix) :: Moved(d, oldPrefix, newPrefix);
      var pending := dirsToMove.Keys;
      order := [];
      assert dirsToMove.Keys - pending == {};
      while pending != {}
        invariant pending <= dirsToMove.Keys
        invariant Enumerates(order, dirsToMove.Keys - pending)
        invariant forall k :: k in order ==> HasPrefix(k, oldPrefix)
        invariant directories == MoveDirectories(was, order, oldPrefix, newPrefix)
        decreases pending
      {
        var oldDirectoryPath :| oldDirectoryPath in pending;
        var newDirectoryPath := dirsToMove[oldDirectoryPath];
        MoveDirectoriesNext(was, order, oldPrefix, newPrefix, oldDirectoryPath);
        directories := directories + {newDirectoryPath};
        directories := directories - {oldDirectoryPath};
        ghost var moved := dirsToMove.Keys - pending;
        EnumeratesNext(order, moved, oldDirectoryPath);
        order := order + [oldDirectoryPath];
        pending := pending - {oldDirectoryPath};
        assert dirsToMove.Keys - pending == moved + {oldDirectoryPath};
      }
      assert dirsToMove.Keys - pending == set d | d in was && HasPrefix(d, oldPrefix);
    }

    method RenameDirectoryTo(oldPath: string, newPath: string) returns (ghost orders: Orders)
      modifies this
      ensures LegalOrders(old(State()), oldPath, newPath, orders)
      ensures State() == RenameDirectory(old(State()), oldPath, newPath, orders)
    {
      ghost var was := State();
      directories := directories + {newPath};
      directories := directories - {oldPath};
      assert directories == RetargetedDirs(was, oldPath, newPath);
      hide MoveAll, MoveDirectories, HasPrefix, Enumerates;
      ghost var files := RenameFilesWithPrefix(ChildPrefix(oldPath), ChildPrefix(newPath));
      ghost var dirs := RenameDirectoriesWithPrefix(ChildPrefix(oldPath), ChildPrefix(newPath));
      orders := Orders(files, dirs);
    }

    method RenameFileTo(oldPath: string, newPath: string) returns (renamed: bool)
      modifies this
      ensures renamed <==> oldPath in old(fileContents)
      ensures State() == if renamed then RenameFile(old(State()), oldPath, newPath) else old(State())
    {
      if oldPath !in fileContents {
        return false;
      }
      fileContents := fileContents[newPath := fileContents[oldPath]];
      fileContents := fileContents - {oldPath};
      if oldPath in fileModes {
        fileModes := fileModes[newPath := fileModes[oldPath]];
        fileModes := fileModes - {oldPath};
      }
      if oldPath in modificationTimes {
        modificationTimes := modificationTimes[newPath := modificationTimes[oldPath]];
        modificationTimes := modificationTimes - {oldPath};
      }
      renamed := true;
    }

    /** Some order of the map loops is the one taken; `orders` names it. */
    method RenamePath(oldPath: string, newPath: string) returns (status: Status, ghost orders: Orders)
      modifies this
      ensures LegalOrders(old(State()), oldPath, newPath, orders)
      ensures Step(status, State()) == Rename(old(State()), oldPath, newPath, orders)
    {
      hide RenameDirectory, RenameFile, LegalOrders, DirectoryExists;
      ghost var was := State();
      orders := SomeOrders(was, oldPath, newPath);
      var renamed := RenameFileTo(oldPath, newPath);
      if renamed {
        return Done, orders;
      }
      var exists_ := DirectoryExistsAt(oldPath);
      if exists_ {
        orders := RenameDirectoryTo(oldPath, newPath);
        return Done, orders;
      }
      status := NotFound;
    }

    // Reading

    method HasChildrenAtPath(path: string) returns (found: bool)
      ensures found <==> exists p :: MemoryTree.Stored(State(), p) && HasPrefix(p, ChildPrefix(path))
    {
      found := FileHasPrefix(ChildPrefix(path));
      if !found {
        found := DirectoryHasPrefix(path, ChildPrefix(path));
        if !found && path in directories && HasPrefix(path, ChildPrefix(path)) {
          found := true;
        }
      }
    }

    method ModeForPath(path: string) returns (mode: Mode)
      ensures mode == ModeOf(State(), path)
    {
      mode := if path in fileModes then fileModes[path] else DEFAULT_MODE;
    }

    method ModificationTimeForPath(path: string) returns (modTime: Time)
      ensures modTime == TimeOf(State(), path)
    {
      modTime := if path in modificationTimes then modificationTimes[path] else ZERO_TIME;
    }

    /** One entry for every first component that a file shows. */
    method AddFileEntries(prefix: string) returns (seen: set<string>, entries: seq<DirEntry>)
      ensures Collected(State(), prefix, entries)
      ensures forall n :: n in seen <==> HasName(entries, n)
      ensures forall f :: f in fileContents && Below(f, prefix) ==> NameBelow(f, prefix) in seen
    {
      hide Collected, EntryOf, HasName, Below, NameBelow, HasPrefix, FirstComponent, ModeOf, TimeOf;
      seen, entries := {}, [];
      NothingCollected(State(), prefix);
      var pending := fileContents.Keys;
      while pending != {}
        invariant pending <= fileContents.Keys
        invariant Collected(State(), prefix, entries)
        invariant forall n :: n in seen <==> HasName(entries, n)
        invariant forall f :: f in fileContents && f !in pending && Below(f, prefix) ==> NameBelow(f, prefix) in seen
        decreases pending
      {
        var filePath :| filePath in pending;
        pending := pending - {filePath};
        FileShows(State(), prefix, filePath);
        if HasPrefix(filePath, prefix) {
          var rest := TrimPrefix(filePath, prefix);
          if rest == "" || '/' in rest {
            var first := FirstComponent(rest);
            if '/' in rest && first !in seen {
              AddEntry(State(), prefix, entries, DirectoryEntry(first));
              seen, entries := seen + {first}, entries + [DirectoryEntry(first)];
            }
          } else if rest !in seen {
            var mode := ModeForPath(prefix + rest);
            var modTime := ModificationTimeForPath(prefix + rest);
            var entry := DirEntry(rest, false, mode, FileInfo(rest, |fileContents[filePath]|, mode, modTime, false));
            AddEntry(State(), prefix, entries, entry);
            seen, entries := seen + {rest}, entries + [entry];
          }
        }
      }
    }

    /** One more for every first component that only directories show. */
    method AddDirectoryEntries(prefix: string, seenFiles: set<string>,
        fileEntries: seq<DirEntry>) returns (entries: seq<DirEntry>)
      requires Collected(State(), prefix, fileEntries)
      requires forall n :: n in seenFiles <==> HasName(fileEntries, n)
      ensures Collected(State(), prefix, entries)
      ensures forall n :: n in seenFiles ==> HasName(entries, n)
      ensures forall d :: d in directories && Below(d, prefix) ==> HasName(entries, NameBelow(d, prefix))
    {
      hide Collected, EntryOf, HasName, Below, NameBelow, HasPrefix, FirstComponent;
      var seen := seenFiles;
      entries := fileEntries;
      var pending := directories;
      while pending != {}
        invariant pending <= directories
        invariant Collected(State(), prefix, entries)
        invariant seenFiles <= seen
        invariant forall n :: n in seen <==> HasName(entries, n)
        invariant forall d :: d in directories && d !in pending && Below(d, prefix) ==> NameBelow(d, prefix) in seen
        decreases pending
      {
        var directoryPath :| directoryPath in pending;
        pending := pending - {directoryPath};
        DirectoryShows(State(), prefix, directoryPath);
        if HasPrefix(directoryPath, prefix) {
          var rest := TrimPrefix(directoryPath, prefix);
          if rest != "" {
            rest := FirstComponent(rest);
            if rest !in seen {
              AddEntry(State(), prefix, entries, DirectoryEntry(rest));
              seen, entries := seen + {rest}, entries + [DirectoryEntry(rest)];
            }
          }
        }
      }
    }

    /** A listing for every directory that is stored, has anything below it, or is the root. */
    method List(path: string) returns (entries: Option<seq<DirEntry>>)
      ensures entries.Some? <==> Lists(State(), path)
      ensures entries.Some? ==> Listing(State(), path, entries.value)
    {
      if path !in directories {
        var children := HasChildrenAtPath(path);
        if !children && path != "" {
          return None;
        }
      }
      hide *;
      var prefix := ChildPrefix(path);
      var seen, found := AddFileEntries(prefix);
      found := AddDirectoryEntries(prefix, seen, found);
      CollectedAll(State(), prefix, seen, found);
      SortedIsListing(State(), path, found);
      var sorted := new DirEntry[|found|](i requires 0 <= i < |found| => found[i]);
      assert sorted[..] == found;
      SortDirEntriesByName(sorted);
      entries := Some(sorted[..]);
    }

    method StatPath(path: string, now: Time) returns (info: Option<FileInfo>)
      ensures info == Stat(State(), path, now)
    {
      hide PathBase, DirectoryExists;
      if path in fileContents {
        var mode := ModeForPath(path);
        var modTime := if path in modificationTimes then modificationTimes[path] else now;
        return Some(FileInfo(PathBase(path), |fileContents[path]|, mode, modTime, false));
      }
      var exists_ := DirectoryExistsAt(path);
      info := if exists_ then Some(DirectoryInfo(PathBase(path))) else None;
    }
  }

  /** A writer collects what is written and stores it on Close. */
  class MemoryWriteCloser {
    const medium: MemoryMedium
    const path: string
    const mode: Mode
    var data: Bytes

    /** `Create`: the writer starts empty. */
    constructor Create(medium: MemoryMedium, path: string)
      ensures this.medium == medium && this.path == path && this.mode == DEFAULT_MODE && data == []
    {
      this.medium, this.path, this.mode, data := medium, path, DEFAULT_MODE, [];
    }

    /** `Append`: the writer starts with the content and mode the path has now. */
    constructor Append(medium: MemoryMedium, path: string)
      ensures this.medium == medium && this.path == path && this.mode == ModeOf(medium.State(), path)
      ensures data == if path in medium.fileContents then medium.fileContents[path] else []
    {
      this.medium, this.path := medium, path;
      this.mode := if path in medium.fileModes then medium.fileModes[path] else DEFAULT_MODE;
      data := if path in medium.fileContents then medium.fileContents[path] else [];
    }

    method Write(more: Bytes) returns (count: nat)
      modifies this
      ensures count == |more| && data == old(data) + more
    {
      data := data + more;
      count := |more|;
    }

    method Close(now: Time) returns (status: Status)
      modifies medium
      ensures Step(status, medium.State()) == CloseWriter(old(medium.State()), path, data, mode, now)
    {
      if path in medium.directories {
        return AlreadyExists;
      }
      medium.EnsureAncestorDirectories(path);
      medium.fileContents := medium.fileContents[path := data];
      medium.fileModes := medium.fileModes[path := mode];
      medium.modificationTimes := medium.modificationTimes[path := now];
      status := Done;
    }
  }

  /** An open file hands out its content buffer by buffer. */
  class MemoryFile {
    const content: Bytes
    var offset: nat

    constructor (content: Bytes)
      ensures this.content == content && offset == 0
    {
      this.content, offset := content, 0;
    }

    method Read(buffer: array<bv8>) returns (readCount: nat, eof: bool)
      modifies `offset, buffer
      ensures eof <==> old(offset) >= |content|
      ensures readCount == if eof then 0 else if buffer.Length < |content| - old(offset) then buffer.Length else |content| - old(offset)
      ensures offset == old(offset) + readCount
      ensures readCount <= buffer.Length && buffer[readCount..] == old(buffer[..])[readCount..]
      ensures !eof ==> buffer[..readCount] == content[old(offset)..offset]
    {
      if offset >= |content| {
        return 0, true;
      }
      var available := |content| - offset;
      readCount := if buffer.Length < available then buffer.Length else available;
      for i := 0 to readCount
        invariant offset == old(offset)
        invariant buffer[..i] == content[offset..offset + i]
        invariant buffer[i..] == old(buffer[..])[i..]
      {
        ghost var before := buffer[..];
        buffer[i] := content[offset + i];
        assert buffer[..i + 1] == before[..i] + [content[offset + i]];
        assert buffer[i + 1..] == before[i..][1..];
      }
      offset := offset + readCount;
      eof := false;
    }

    /** Reading until the end, with any non-empty buffers, yields exactly what was not yet read. */
    method ReadAll(bufferSizes: nat -> nat) returns (data: Bytes)
      requires offset <= |content| && forall i :: bufferSizes(i) > 0
      modifies `offset
      ensures data == content[old(offset)..] && offset == |content|
    {
      data := [];
      var call: nat := 0;
      while true
        invariant old(offset) <= offset <= |content|
        invariant data == content[old(offset)..offset]
        decreases |content| - offset
      {
        var buffer := new bv8[bufferSizes(call)];
        ghost var before := offset;
        var readCount, eof := Read(buffer);
        if eof {
          return;
        }
        assert content[old(offset)..before] + content[before..offset] == content[old(offset)..offset];
        data := data + buffer[..readCount];
        call := call + 1;
      }
    }
  }

  // Listing

  lemma NothingCollected(m: Mem, prefix: string)
    ensures Collected(m, prefix, []) && forall n :: !HasName([], n)
  {
  }

  lemma AddEntry(m: Mem, prefix: string, entries: seq<DirEntry>, e: DirEntry)
    requires Collected(m, prefix, entries) && EntryOf(m, prefix, e) && !HasName(entries, e.name)
    ensures Collected(m, prefix, entries + [e])
    ensures forall n :: HasName(entries + [e], n) <==> HasName(entries, n) || n == e.name
  {
    hide EntryOf;
    var grown := entries + [e];
    forall i, j | 0 <= i < j < |grown| ensures grown[i].name != grown[j].name {
      assert i < |entries| ==> entries[i] in entries;
    }
    assert e in grown;
    forall n ensures HasName(grown, n) <==> HasName(entries, n) || n == e.name {
      if HasName(entries, n) {
        var f :| f in entries && f.name == n;
        assert f in grown;
      }
    }
  }

  lemma FileShows(m: Mem, prefix: string, p: string)
    requires p in m.files
    ensures !HasPrefix(p, prefix) ==> !Below(p, prefix)
    ensures HasPrefix(p, prefix) ==>
              var rest := TrimPrefix(p, prefix);
              (Below(p, prefix) <==> rest != "") && prefix + rest == p &&
              (Below(p, prefix) ==> NameBelow(p, prefix) == FirstComponent(rest)) &&
              ('/' in rest ==> EntryOf(m, prefix, DirectoryEntry(FirstComponent(rest)))) &&
              (rest != "" && '/' !in rest ==>
                 FirstComponent(rest) == rest && EntryOf(m, prefix, FileEntry(m, prefix, rest)))
  {
    hide Split, FirstComponent;
    if HasPrefix(p, prefix) {
      var rest := TrimPrefix(p, prefix);
      assert prefix + rest == p;
      FirstOf(rest);
      if '/' in rest {
        assert ShowsDirectory(m, p, prefix) && NameBelow(p, prefix) == FirstComponent(rest);
      }
    }
  }

  lemma DirectoryShows(m: Mem, prefix: string, p: string)
    requires p in m.dirs
    ensures !HasPrefix(p, prefix) ==> !Below(p, prefix)
    ensures HasPrefix(p, prefix) ==>
              var rest := TrimPrefix(p, prefix);
              (Below(p, prefix) <==> rest != "") &&
              (Below(p, prefix) ==> NameBelow(p, prefix) == FirstComponent(rest)) &&
              (rest != "" ==> EntryOf(m, prefix, DirectoryEntry(FirstComponent(rest))))
  {
    hide Split, FirstComponent;
    if HasPrefix(p, prefix) {
      var rest := TrimPrefix(p, prefix);
      assert prefix + rest == p;
      if rest != "" {
        assert ShowsDirectory(m, p, prefix) && NameBelow(p, prefix) == FirstComponent(rest);
      }
    }
  }

  lemma CollectedAll(m: Mem, prefix: string, seen: set<string>, entries: seq<DirEntry>)
    requires forall f :: f in m.files && Below(f, prefix) ==> NameBelow(f, prefix) in seen
    requires forall n :: n in seen ==> HasName(entries, n)
    requires forall d :: d in m.dirs && Below(d, prefix) ==> HasName(entries, NameBelow(d, prefix))
    ensures forall p :: MemoryTree.Stored(m, p) && Below(p, prefix) ==> HasName(entries, NameBelow(p, prefix))
  {
    hide Below, NameBelow, HasName;
  }

  lemma WithoutFileIs(m: Mem, path: string)
    ensures WithoutFile(m, path) == Mem(m.files - {path}, m.modes - {path}, m.dirs, m.times - {path})
  {
  }

  /** The own entry and the entries below it, dropped one group after the other. */
  lemma DeletedIs(m: Mem, path: string, files: bool, dirs: bool)
    requires files <==> (set f | f in m.files - (if path in m.files then {path} else {}) && HasPrefix(f, WithSlash(path))) != {}
    requires dirs <==> (set d | d in m.dirs - {path} && HasPrefix(d, WithSlash(path))) != {}
    ensures var own := if path in m.files then {path} else {};
            var below := set f | f in m.files - own && HasPrefix(f, WithSlash(path));
            var belowDirs := set d | d in m.dirs - {path} && HasPrefix(d, WithSlash(path));
            DeleteAll(m, path) ==
            Step(if path in m.files || path in m.dirs || files || dirs then Done else NotFound,
                 Mem(m.files - own - below, m.modes - own - below, m.dirs - {path} - belowDirs, m.times - own - below))
  {
    hide HasPrefix, WithSlash, Doomed, Spared;
    var own := if path in m.files then {path} else {};
    var below := set f | f in m.files - own && HasPrefix(f, WithSlash(path));
    var belowDirs := set d | d in m.dirs - {path} && HasPrefix(d, WithSlash(path));
    DoomedSplit(m.files.Keys, path);
    DoomedSplit(m.dirs, path);
    SparedIs(m.files, path);
    assert m.files.Keys - {path} == m.files.Keys - own == (m.files - own).Keys;
    assert own + below == set f | f in m.files && Doomed(f, path);
    WithoutBoth(m.files, own, below);
    WithoutBoth(m.modes, own, below);
    WithoutBoth(m.times, own, below);
    assert m.dirs - {path} - belowDirs == set d | d in m.dirs && !Doomed(d, path);
  }

  /** What goes is the path itself and what lies below it. */
  lemma DoomedSplit(keys: set<string>, path: string)
    ensures var below := set k | k in keys - {path} && HasPrefix(k, WithSlash(path));
            (set k | k in keys && Doomed(k, path)) == (if path in keys then {path} else {}) + below &&
            ((exists k :: k in keys && Doomed(k, path)) <==> path in keys || below != {})
  {
    hide HasPrefix, WithSlash;
    var below := set k | k in keys - {path} && HasPrefix(k, WithSlash(path));
    if k :| k in keys && Doomed(k, path) {
      assert k == path || k in below;
    }
    if below != {} {
      var k :| k in below;
      assert Doomed(k, path);
    }
    assert Doomed(path, path);
  }

  lemma WithoutBoth<V>(m: map<string, V>, a: set<string>, b: set<string>)
    ensures m - a - b == m - (a + b)
  {
  }

  lemma SparedIs<V>(m: map<string, V>, path: string)
    ensures Spared(m, path) == m - set k | k in m && Doomed(k, path)
  {
  }

  lemma {:induction false} MoveAllNext<V>(m: map<string, V>, order: seq<string>, from: string, to: string, key: string)
    requires (forall k :: k in order ==> HasPrefix(k, from)) && HasPrefix(key, from)
    ensures MoveAll(m, order + [key], from, to) == MoveKey(MoveAll(m, order, from, to), key, Moved(key, from, to))
    decreases |order|
  {
    if order == [] {
      assert order + [key] == [key] && [key][1..] == [];
    } else {
      assert order[0] in order;
      MoveAllNext(MoveKey(m, order[0], Moved(order[0], from, to)), order[1..], from, to, key);
      assert (order + [key])[1..] == order[1..] + [key];
    }
  }

  lemma MoveNone<V>(m: map<string, V>, from: string, to: string)
    ensures MoveAll(m, [], from, to) == m
  {
  }

  lemma {:induction false} MoveDirectoriesNext(dirs: set<string>, order: seq<string>, from: string, to: string,
      key: string)
    requires (forall k :: k in order ==> HasPrefix(k, from)) && HasPrefix(key, from)
    ensures MoveDirectories(dirs, order + [key], from, to) ==
            MoveDirectories(dirs, order, from, to) + {Moved(key, from, to)} - {key}
    decreases |order|
  {
    if order == [] {
      assert order + [key] == [key] && [key][1..] == [];
    } else {
      assert order[0] in order;
      MoveDirectoriesNext(dirs + {Moved(order[0], from, to)} - {order[0]}, order[1..], from, to, key);
      assert (order + [key])[1..] == order[1..] + [key];
    }
  }

  lemma SomeOrders(m: Mem, from: string, to: string) returns (orders: Orders)
    ensures LegalOrders(m, from, to, orders)
  {
    hide Enumerates;
    var files := SomeOrder(set f | f in m.files && HasPrefix(f, ChildPrefix(from)));
    var dirs := SomeOrder(set d | d in RetargetedDirs(m, from, to) && HasPrefix(d, ChildPrefix(from)));
    orders := Orders(files, dirs);
  }

  lemma MoveKeySteps<V>(m: map<string, V>, from: string, to: string)
    ensures MoveKey(m, from, to) == if from in m then m[to := m[from]] - {from} else m
  {
  }
}
