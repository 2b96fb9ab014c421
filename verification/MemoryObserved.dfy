/** What the operations of the in-memory medium (go/io.go) mean to a caller who reads back. */
module MemoryObserved {
  import opened Options
  import opened Paths
  import opened PathTree
  import opened MemoryState
  import opened MemoryTree
  import opened MemoryRename
  import opened PrefixMaps

  // In a tree a clean path exists exactly when it is stored, and what lies below it is what starts with it.

  lemma ExistsIsStored(m: Mem, path: string)
    requires Tree(m) && CleanRelative(path)
    ensures Exists(m, path) <==> Stored(m, path)
    ensures HasChildren(m, path) <==> exists p :: Stored(m, p) && Under(p, path)
  {
    hide CleanRelative, Tree;
    TreeDirectories(m, path);
    ChildPrefixOfClean(path);
    if p :| Stored(m, p) && Under(p, path) {
      UnderNotSelf(path);
      assert p in m.files ==> HasFileBelow(m, path + "/");
      assert p in m.dirs ==> HasDirectoryBelow(m, path, path + "/");
    }
    if f :| f in m.files && HasPrefix(f, path + "/") {
      assert Stored(m, f) && Under(f, path);
    }
    if d :| d in m.dirs && HasPrefix(d, path + "/") {
      assert Stored(m, d) && Under(d, path);
    }
  }

  /**
   A write succeeds exactly on a path that is no directory and not below a file; then the path
   reads back with its content, size, mode and time, the directories above it exist, and
   nothing else has changed.
   */
  lemma WriteObserved(m: Mem, path: string, content: Bytes, mode: Mode, now: Time, later: Time, other: string)
    requires Tree(m) && CleanRelative(path) && CleanRelative(other)
    ensures var step := WriteMode(m, path, content, mode, now);
            (step.status == Done <==> path !in m.dirs && forall p :: p in m.files ==> !Under(path, p)) &&
            (step.status != Done ==> step == Step(AlreadyExists, m)) &&
            (step.status == Done ==>
               Read(step.mem, path) == Some(content) &&
               Stat(step.mem, path, later) == Some(FileInfo(PathBase(path), |content|, mode, now, false)) &&
               (other != path ==>
                  Read(step.mem, other) == Read(m, other) &&
                  (Exists(step.mem, other) <==> Exists(m, other) || Under(path, other))))
  {
    hide CleanRelative, Tree, PathBase, Ancestors, DirectoryExists, Under;
    AncestorsAreUnder(path);
    if WriteMode(m, path, content, mode, now).status == Done {
      WriteModeTree(m, path, content, mode, now);
      ExistsIsStored(m, other);
      ExistsIsStored(WithFile(m, path, content, mode, now), other);
    }
  }

  /** What lies below a path: what starts with it and a slash, one slash if it ends in one itself. */
  lemma PrefixesMean(path: string, p: string)
    requires path != ""
    ensures HasPrefix(p, WithSlash(path)) <==>
            exists rest :: p == if path[|path| - 1] == '/' then path + rest else path + "/" + rest
    ensures ChildPrefix(path) == WithSlash(path) && ChildPrefix("") == ""
  {
    var prefix := if path[|path| - 1] == '/' then path else path + "/";
    assert HasSuffix(path, "/") <==> path[|path| - 1] == '/' by { assert path[|path| - 1..] == [path[|path| - 1]]; }
    assert WithSlash(path) == prefix;
    if HasPrefix(p, prefix) {
      assert p == prefix + p[|prefix|..];
    }
    if rest :| p == prefix + rest {
      assert p[..|prefix|] == prefix;
    }
  }

  /** What deleting answers on every medium, whether a tree or not, and on every path. */
  lemma DeleteStatus(m: Mem, path: string)
    ensures Delete(m, path).status ==
            if path in m.files then Done
            else if path == "" then NotFound
            else if exists p :: Stored(m, p) && p != path && HasPrefix(p, WithSlash(path)) then AlreadyExists
            else if path in m.dirs then Done else NotFound
  {
    hide WithSlash, ChildPrefix, HasPrefix;
    if path != "" {
      PrefixesMean(path, "");
      assert HasFileBelow(m, WithSlash(path)) && path !in m.files ==>
               exists p :: Stored(m, p) && p != path && HasPrefix(p, WithSlash(path));
    }
  }

  /**
   Deleting is refused exactly for a directory with something below it and for what does not
   exist; otherwise the path, and nothing else, is gone.
   */
  lemma DeleteObserved(m: Mem, path: string, other: string)
    requires Tree(m) && CleanRelative(path) && CleanRelative(other)
    ensures var step := Delete(m, path);
            (step.status == NotFound <==> !Exists(m, path)) &&
            (step.status == AlreadyExists <==> path in m.dirs && exists p :: Stored(m, p) && Under(p, path)) &&
            (step.status != Done ==> step.mem == m) &&
            (step.status == Done ==>
               !Exists(step.mem, path) &&
               (other != path ==> (Exists(step.mem, other) <==> Exists(m, other)) && Read(step.mem, other) == Read(m, other)))
  {
    hide CleanRelative, Under, DirectoryExists, HasChildren, Ancestors;
    ExistsIsStored(m, path);
    DeleteTree(m, path);
    TreeDirectories(m, path);
    ExistsIsStored(m, other);
    ExistsIsStored(Delete(m, path).mem, other);
    ExistsIsStored(Delete(m, path).mem, path);
  }

  /** Deleting everything reports whether the path existed, and takes away the path and what is below it, nothing else. */
  lemma DeleteAllObserved(m: Mem, path: string, other: string)
    requires Tree(m) && CleanRelative(path) && CleanRelative(other)
    ensures var step := DeleteAll(m, path);
            (step.status == Done <==> Exists(m, path)) &&
            (Exists(step.mem, other) <==> Exists(m, other) && other != path && !Under(other, path)) &&
            (other != path && !Under(other, path) ==> Read(step.mem, other) == Read(m, other))
  {
    hide CleanRelative, DirectoryExists, HasChildren, Tree, Ancestors;
    ExistsIsStored(m, path);
    DeleteAllTree(m, path);
    ChildPrefixOfClean(path);
    ExistsIsStored(m, other);
    ExistsIsStored(DeleteAll(m, path).mem, other);
    if f :| (f in m.files || f in m.dirs) && Doomed(f, path) && f != path {
      assert Stored(m, f) && Under(f, path);
      TreeUnder(m, f, path);
    }
    assert Doomed(path, path);
  }

  /** Ensuring succeeds exactly on what is no file; then the directory exists, as do those above it, and no file has changed. */
  lemma EnsureDirObserved(m: Mem, path: string, other: string)
    requires Tree(m) && CleanRelative(path) && CleanRelative(other)
    ensures var step := EnsureDir(m, path);
            (step.status == Done <==> path !in m.files) &&
            (step.status != Done ==> step.mem == m) &&
            (step.status == Done ==>
               DirectoryExists(step.mem, path) && step.mem.files == m.files &&
               (DirectoryExists(step.mem, other) <==> DirectoryExists(m, other) || other == path || Under(path, other)))
  {
    hide CleanRelative, Under, Ancestors;
    AncestorsAreUnder(path);
    CleanRelativeFixed(path);
    TreeDirectories(m, other);
    EnsuredDirectories(m, path, other);
  }

  /** Also where the new state is no tree: what is added lies on the way up, and above it lies nothing new. */
  lemma EnsuredDirectories(m: Mem, path: string, other: string)
    requires Tree(m) && CleanRelative(path) && CleanRelative(other)
    ensures var more := m.(dirs := m.dirs + Ancestors(path) + {path});
            DirectoryExists(more, other) <==> other in m.dirs || other == path || Under(path, other)
  {
    hide CleanRelative, Ancestors, Tree;
    var more := m.(dirs := m.dirs + Ancestors(path) + {path});
    AncestorsAreUnder(path);
    CleanRelativeFixed(other);
    ChildPrefixOfClean(other);
    if f :| f in m.files && HasPrefix(f, other + "/") {
      TreeUnder(m, f, other);
    }
    if d :| d in more.dirs && d != other && HasPrefix(d, other + "/") {
      if d in m.dirs {
        TreeUnder(m, d, other);
      } else if d != path {
        UnderTransitive(path, d, other);
      }
    }
  }

  /** What `Stat` says, for every path: a file with what is stored about it, a directory, or nothing. */
  lemma StatObserved(m: Mem, path: string, now: Time)
    requires Tree(m) && SameKeys(m) && CleanRelative(path)
    ensures path in m.files ==>
              path in m.modes && path in m.times &&
              Stat(m, path, now) == Some(FileInfo(PathBase(path), |m.files[path]|, m.modes[path], m.times[path], false))
    ensures path in m.dirs ==> Stat(m, path, now) == Some(FileInfo(PathBase(path), 0, 0x8000_01ED, 0, true))
    ensures Stat(m, path, now).Some? <==> path in m.files || path in m.dirs
  {
    hide CleanRelative, PathBase, DirectoryExists, Ancestors;
    TreeDirectories(m, path);
    assert path in m.files.Keys <==> path in m.modes.Keys;
    assert path in m.files.Keys <==> path in m.times.Keys;
  }

  /**
   Closing a writer stores what it collected on every path that is no directory, below a file or
   not; the directories above it are stored, and no other file has changed.
   */
  lemma CloseObserved(m: Mem, path: string, data: Bytes, mode: Mode, now: Time, later: Time, other: string)
    requires CleanRelative(path)
    ensures var step := CloseWriter(m, path, data, mode, now);
            (step.status == Done <==> path !in m.dirs) &&
            (step.status != Done ==> step == Step(AlreadyExists, m)) &&
            (step.status == Done ==>
               Read(step.mem, path) == Some(data) &&
               Stat(step.mem, path, later) == Some(FileInfo(PathBase(path), |data|, mode, now, false)) &&
               (forall d :: d in step.mem.dirs <==> d in m.dirs || Under(path, d)) &&
               (other != path ==> Read(step.mem, other) == Read(m, other)) &&
               (other != path && other in m.files ==> Stat(step.mem, other, later) == Stat(m, other, later)))
  {
    hide CleanRelative, PathBase, Ancestors, Under;
    AncestorsAreUnder(path);
  }

  /** A write, a removal and a new directory leave what is known of the other files as it was. */
  lemma OthersObserved(m: Mem, path: string, content: Bytes, mode: Mode, now: Time, later: Time, other: string)
    requires SameKeys(m) && other in m.files && other != path
    ensures Stat(WriteMode(m, path, content, mode, now).mem, other, later) == Stat(m, other, later)
    ensures Stat(EnsureDir(m, path).mem, other, later) == Stat(m, other, later)
    ensures Stat(Delete(m, path).mem, other, later) == Stat(m, other, later)
    ensures !HasPrefix(other, WithSlash(path)) ==> Stat(DeleteAll(m, path).mem, other, later) == Stat(m, other, later)
  {
    hide PathBase, HasFileAncestor, DirectoryExists, HasChildren, Ancestors;
    assert other in m.files.Keys && other in m.modes.Keys && other in m.times.Keys;
    if !HasPrefix(other, WithSlash(path)) {
      assert !Doomed(other, path);
      assert other in WithoutTree(m, path).files && WithoutTree(m, path).files[other] == m.files[other];
    }
  }

  /** Renaming finds what exists and nothing else. */
  lemma RenameStatus(m: Mem, from: string, to: string, orders: Orders)
    requires Tree(m) && CleanRelative(from) && LegalOrders(m, from, to, orders)
    ensures Rename(m, from, to, orders).status == if Stored(m, from) then Done else NotFound
    ensures !Stored(m, from) ==> Rename(m, from, to, orders).mem == m
  {
    hide CleanRelative, LegalOrders, RenameDirectory, RenameFile, DirectoryExists;
    TreeDirectories(m, from);
  }

  /** A renamed file is at the new path with its content, mode and time, and nowhere else; no other file has changed. */
  lemma RenameFileObserved(m: Mem, from: string, to: string, orders: Orders, later: Time, other: string)
    requires SameKeys(m) && from in m.files && from != to && LegalOrders(m, from, to, orders)
    ensures var step := Rename(m, from, to, orders);
            step.status == Done && step.mem.dirs == m.dirs &&
            Read(step.mem, to) == Read(m, from) && Read(step.mem, from) == None &&
            (from in m.modes && from in m.times &&
             Stat(step.mem, to, later) == Some(FileInfo(PathBase(to), |m.files[from]|, m.modes[from], m.times[from], false))) &&
            (other != from && other != to ==> Read(step.mem, other) == Read(m, other)) &&
            (other != from && other != to && other in m.files ==> Stat(step.mem, other, later) == Stat(m, other, later))
  {
    hide PathBase, LegalOrders, RenameDirectory, DirectoryExists;
    assert forall k :: k in m.files.Keys <==> k in m.modes.Keys;
    assert forall k :: k in m.files.Keys <==> k in m.times.Keys;
  }

  /**
   A renamed directory, to a path on another line: what was at `from/rest` is at `to/rest`, over what may
   have been there; nothing is left at the old path or below it, and nothing else has changed.
   */
  lemma RenameDirectoryObserved(m: Mem, from: string, to: string, orders: Orders, rest: string, other: string, later: Time)
    requires Tree(m) && SameKeys(m) && CleanRelative(from) && CleanRelative(to) && from in m.dirs
    requires from != to && !Under(from, to) && !Under(to, from) && LegalOrders(m, from, to, orders)
    ensures var (r, source, target) := (Rename(m, from, to, orders).mem, from + "/" + rest, to + "/" + rest);
            to in r.dirs && from !in r.dirs &&
            Read(r, target) == (if source in m.files then Read(m, source) else Read(m, target)) &&
            (source in m.files ==>
               source in m.modes && source in m.times && target in r.modes && target in r.times &&
               r.modes[target] == m.modes[source] && r.times[target] == m.times[source]) &&
            (target in r.dirs <==> source in m.dirs || target in m.dirs) &&
            !Stored(r, source)
    ensures var r := Rename(m, from, to, orders).mem;
            !Under(other, from) && !Under(other, to) && other != from && other != to ==>
              Read(r, other) == Read(m, other) && (other in r.dirs <==> other in m.dirs) &&
              (other in m.files ==> Stat(r, other, later) == Stat(m, other, later))
  {
    hide CleanRelative, Tree, LegalOrders, PathBase, Ancestors, DirectoryExists;
    NoFileThere(m, from);
    TreeDirectories(m, from);
    ChildPrefixOfClean(from);
    ChildPrefixOfClean(to);
    SlashedPrefix(from, to);
    SlashedPrefix(to, from);
    hide RenameDirectory, Substituted, SubstitutedDirs, RenameAtOnce, SameKeys, Under;
    RenameDirectorySubstitutes(m, from, to, orders);
    var (s, t) := (from + "/", to + "/");
    SubstitutedRest(m.files, from, to, rest);
    SameKeysAre(m);
    SubstitutedRest(m.modes, from, to, rest);
    SubstitutedRest(m.times, from, to, rest);
    AtOnceIs(m, from, to);
    DirsRest(m, from, to, rest);
    SubstitutedElsewhere(m, from, to, other);
  }

  lemma NoFileThere(m: Mem, p: string)
    requires Tree(m) && p in m.dirs
    ensures p !in m.files
  {
  }

  lemma SameKeysAre(m: Mem)
    requires SameKeys(m)
    ensures forall k :: (k in m.files <==> k in m.modes) && (k in m.files <==> k in m.times)
  {
    assert forall k :: k in m.files.Keys <==> k in m.modes.Keys;
    assert forall k :: k in m.files.Keys <==> k in m.times.Keys;
  }

  lemma AtOnceIs(m: Mem, from: string, to: string)
    requires ChildPrefix(from) == from + "/" && ChildPrefix(to) == to + "/"
    ensures RenameAtOnce(m, from, to) ==
            Mem(Substituted(m.files, from + "/", to + "/"), Substituted(m.modes, from + "/", to + "/"),
                SubstitutedDirs(RetargetedDirs(m, from, to), from + "/", to + "/"), Substituted(m.times, from + "/", to + "/"))
  {
  }

  /** The entry at `from/rest` takes the place at `to/rest`. */
  lemma SubstitutedRest<V>(m: map<string, V>, from: string, to: string, rest: string)
    requires Incomparable(from + "/", to + "/")
    ensures var (r, source, target) := (Substituted(m, from + "/", to + "/"), from + "/" + rest, to + "/" + rest);
            source !in r && (target in r <==> source in m || target in m) &&
            (source in m ==> r[target] == m[source]) && (source !in m && target in m ==> r[target] == m[target])
  {
    hide Substituted, Incomparable;
    var (source, target) := (from + "/" + rest, to + "/" + rest);
    assert HasPrefix(source, from + "/") && HasPrefix(target, to + "/");
    assert Origin(target, from + "/", to + "/") == source;
    IncomparableApart(source, from + "/", to + "/");
    IncomparableApart(target, to + "/", from + "/") by { assert Incomparable(to + "/", from + "/") by { Either(from, to); } }
    SubstitutedAt(m, source, from + "/", to + "/");
    SubstitutedAt(m, target, from + "/", to + "/");
    MovedBack(target, to + "/", from + "/");
  }

  lemma Either(from: string, to: string)
    requires Incomparable(from + "/", to + "/")
    ensures Incomparable(to + "/", from + "/")
  {
  }

  lemma DirsRest(m: Mem, from: string, to: string, rest: string)
    requires Incomparable(from + "/", to + "/")
    ensures var r := SubstitutedDirs(RetargetedDirs(m, from, to), from + "/", to + "/");
            to in r && from !in r && from + "/" + rest !in r &&
            (to + "/" + rest in r <==> from + "/" + rest in m.dirs || to + "/" + rest in m.dirs)
  {
    hide SubstitutedDirs, Incomparable;
    var (dirs, s, t) := (RetargetedDirs(m, from, to), from + "/", to + "/");
    Either(from, to);
    NotOwnPrefix(from);
    NotOwnPrefix(to);
    SameLine(from, to);
    SubstitutedDirAt(dirs, s, t, to);
    SubstitutedDirAt(dirs, s, t, from);
    var (source, target) := (s + rest, t + rest);
    assert HasPrefix(source, s) && HasPrefix(target, t);
    IncomparableApart(source, s, t);
    IncomparableApart(target, t, s);
    SubstitutedDirAt(dirs, s, t, source);
    SubstitutedDirAt(dirs, s, t, target);
    MovedBack(target, t, s);
    assert |source| > |from| && |target| > |to|;
  }

  lemma NotOwnPrefix(p: string)
    ensures !HasPrefix(p, p + "/")
  {
  }

  /** Paths with incomparable subtrees are different and not below one another. */
  lemma SameLine(from: string, to: string)
    requires Incomparable(from + "/", to + "/")
    ensures from != to && !HasPrefix(from, to + "/") && !HasPrefix(to, from + "/")
  {
    SlashedPrefix(from, to);
    SlashedPrefix(to, from);
  }

  lemma SubstitutedElsewhere(m: Mem, from: string, to: string, other: string)
    requires Incomparable(from + "/", to + "/")
    ensures !Under(other, from) && !Under(other, to) && other != from && other != to ==>
              var (s, t) := (from + "/", to + "/");
              var (files, modes, times) := (Substituted(m.files, s, t), Substituted(m.modes, s, t), Substituted(m.times, s, t));
              (other in files <==> other in m.files) && (other in m.files ==> files[other] == m.files[other]) &&
              (other in modes <==> other in m.modes) && (other in m.modes ==> modes[other] == m.modes[other]) &&
              (other in times <==> other in m.times) && (other in m.times ==> times[other] == m.times[other]) &&
              (other in SubstitutedDirs(RetargetedDirs(m, from, to), s, t) <==> other in m.dirs)
  {
    hide Substituted, SubstitutedDirs, Incomparable;
    SubstitutedAt(m.files, other, from + "/", to + "/");
    SubstitutedAt(m.modes, other, from + "/", to + "/");
    SubstitutedAt(m.times, other, from + "/", to + "/");
    SubstitutedDirAt(RetargetedDirs(m, from, to), from + "/", to + "/", other);
  }
}
