/**
 Reading through a scoped medium (go/workspace/workspace.go): contents, Stat and listings are
 those of the private medium below the root, and the root itself lists the private medium.
 */
module ScopedReads {
  import opened Paths
  import opened PathTree
  import opened MemoryState
  import opened MemoryTree
  import opened DirEntries
  import opened MemoryListing
  import opened ScopedState

  lemma ReadIn(m: Mem, root: string, p: string)
    ensures Read(m, In(root, p)) == Read(Project(m, root), p)
  {
    hide In, Inside;
    BelowAt(m.files, root, p);
  }

  lemma PathBaseIn(root: string, p: string)
    requires CleanRelative(root) && CleanRelative(p)
    ensures PathBase(In(root, p)) == PathBase(p)
  {
    hide CleanRelative, Split, PathBase, PathDir;
    CleanIn(root, p);
    CleanRelativeFixed(root);
    var name := ParentAndName(p);
    if PathDir(p) == "." {
      PathBaseOf("", name);
      PathBaseOf(root, name);
    } else {
      PathBaseOf(PathDir(p), name);
      CleanIn(root, PathDir(p));
      CleanRelativeFixed(PathDir(p));
      CleanRelativeFixed(In(root, PathDir(p)));
      PathBaseOf(In(root, PathDir(p)), name);
      assert In(root, p) == In(root, PathDir(p)) + "/" + name;
    }
  }

  lemma StatIn(m: Mem, root: string, p: string, now: Time)
    requires CleanRelative(root) && CleanRelative(p)
    ensures Stat(m, In(root, p), now) == Stat(Project(m, root), p, now)
  {
    hide In, Inside, CleanRelative, PathBase, DirectoryExists, DirsBelow;
    BelowAt(m.files, root, p);
    BelowAt(m.modes, root, p);
    BelowAt(m.times, root, p);
    DirectoryIn(m, root, p);
    PathBaseIn(root, p);
  }

  /** Existence, file or directory, looks the same from inside. */
  lemma ExistsIn(m: Mem, root: string, p: string)
    requires CleanRelative(root) && CleanRelative(p)
    ensures Exists(m, In(root, p)) <==> Exists(Project(m, root), p)
    ensures In(root, p) in m.files <==> p in Project(m, root).files
  {
    hide In, Inside, CleanRelative, DirectoryExists, DirsBelow;
    BelowAt(m.files, root, p);
    DirectoryIn(m, root, p);
  }

  // Listings

  /** The prefix a listing of `path` looks below, seen from outside. */
  lemma ListedPrefixIn(root: string, path: string)
    requires CleanRelative(root) && Listable(path)
    ensures ChildPrefix(if path == "" then root else In(root, path)) == root + "/" + ChildPrefix(path)
  {
    hide CleanRelative;
    ChildPrefixOfClean(root);
    if path != "" {
      CleanIn(root, path);
      ChildPrefixOfClean(path);
      ChildPrefixOfClean(In(root, path));
    }
  }

  lemma StoredIn(m: Mem, root: string, k: string)
    ensures Stored(m, In(root, k)) <==> Stored(Project(m, root), k)
    ensures In(root, k) in m.dirs <==> k in Project(m, root).dirs
    ensures In(root, k) in m.files <==> k in Project(m, root).files
  {
    hide In, Inside, DirsBelow;
    BelowAt(m.files, root, k);
    DirsBelowAt(m.dirs, root, k);
  }

  lemma BelowPrefixIn(root: string, k: string, prefix: string)
    ensures Below(In(root, k), root + "/" + prefix) <==> Below(k, prefix)
    ensures Below(k, prefix) ==>
              In(root, k)[|root + "/" + prefix|..] == k[|prefix|..] &&
              NameBelow(In(root, k), root + "/" + prefix) == NameBelow(k, prefix)
  {
    hide FirstComponent;
    var q, outer := In(root, k), root + "/" + prefix;
    assert q[|root| + 1..] == k;
    if HasPrefix(k, prefix) {
      assert q[..|outer|] == root + "/" + k[..|prefix|] == outer;
      assert q[|outer|..] == k[|prefix|..];
    }
    if HasPrefix(q, outer) {
      assert k[..|prefix|] == q[|root| + 1..|outer|] == outer[|root| + 1..] == prefix;
    }
    if q == outer {
      assert k == outer[|root| + 1..] == prefix;
    }
  }

  lemma BelowOuter(root: string, p: string, prefix: string)
    requires Below(p, root + "/" + prefix)
    ensures Under(p, root)
  {
    assert p[..|root| + 1] == p[..|root + "/" + prefix|][..|root| + 1] == root + "/";
  }

  /** The stored paths that put a name into a listing, seen from inside and from outside. */
  lemma ShowingIn(m: Mem, root: string, prefix: string, p: string)
    requires Stored(m, p) && Below(p, root + "/" + prefix)
    ensures Under(p, root)
    ensures var k := Stripped(root, p);
            Stored(Project(m, root), k) && Below(k, prefix) &&
            NameBelow(k, prefix) == NameBelow(p, root + "/" + prefix) &&
            (ShowsDirectory(m, p, root + "/" + prefix) <==> ShowsDirectory(Project(m, root), k, prefix))
  {
    hide In, Inside, DirsBelow, Below, NameBelow, FirstComponent, Under;
    BelowOuter(root, p, prefix);
    InStripped(root, p);
    var k := Stripped(root, p);
    StoredIn(m, root, k);
    BelowPrefixIn(root, k, prefix);
  }

  lemma ShownIn(m: Mem, root: string, prefix: string, k: string)
    requires Stored(Project(m, root), k) && Below(k, prefix)
    ensures var p := In(root, k);
            Stored(m, p) && Below(p, root + "/" + prefix) &&
            NameBelow(k, prefix) == NameBelow(p, root + "/" + prefix) &&
            (ShowsDirectory(m, p, root + "/" + prefix) <==> ShowsDirectory(Project(m, root), k, prefix))
  {
    hide In, Inside, DirsBelow, Below, NameBelow, FirstComponent;
    StoredIn(m, root, k);
    BelowPrefixIn(root, k, prefix);
  }

  lemma FileEntryIn(m: Mem, root: string, prefix: string, name: string)
    ensures In(root, prefix + name) == root + "/" + prefix + name
    ensures root + "/" + prefix + name in m.files <==> prefix + name in Project(m, root).files
    ensures prefix + name in Project(m, root).files ==>
              FileEntry(m, root + "/" + prefix, name) == FileEntry(Project(m, root), prefix, name)
  {
    assert In(root, prefix + name) == root + "/" + prefix + name;
    hide In, Inside;
    BelowAt(m.files, root, prefix + name);
    BelowAt(m.modes, root, prefix + name);
    BelowAt(m.times, root, prefix + name);
  }

  lemma EntryIn(m: Mem, root: string, prefix: string, e: DirEntry)
    ensures EntryOf(m, root + "/" + prefix, e) <==> EntryOf(Project(m, root), prefix, e)
  {
    hide In, Inside, DirsBelow, Below, NameBelow, FirstComponent, FileEntry, Project;
    FileEntryIn(m, root, prefix, e.name);
    var n, outer := Project(m, root), root + "/" + prefix;
    if p :| ShowsDirectory(m, p, outer) && NameBelow(p, outer) == e.name {
      ShowsIsBelow(m, p, outer);
      ShowingIn(m, root, prefix, p);
    }
    if k :| ShowsDirectory(n, k, prefix) && NameBelow(k, prefix) == e.name {
      ShowsIsBelow(n, k, prefix);
      ShownIn(m, root, prefix, k);
    }
  }

  lemma ShowsIsBelow(m: Mem, p: string, prefix: string)
    requires ShowsDirectory(m, p, prefix)
    ensures Stored(m, p) && Below(p, prefix)
  {
  }

  /** A listing through the scoped medium is a listing of the private medium; the root lists its top. */
  lemma ListingIn(m: Mem, root: string, path: string, entries: seq<DirEntry>)
    requires CleanRelative(root) && Listable(path)
    ensures Listing(m, if path == "" then root else In(root, path), entries) <==> Listing(Project(m, root), path, entries)
  {
    hide In, Inside, DirsBelow, Below, NameBelow, FirstComponent, EntryOf, Project, StrictlySorted, ChildPrefix,
      HasName, Listable, CleanRelative, Stored;
    ListedPrefixIn(root, path);
    var n, prefix := Project(m, root), ChildPrefix(path);
    var outer := root + "/" + prefix;
    forall e ensures EntryOf(m, outer, e) <==> EntryOf(n, prefix, e) { EntryIn(m, root, prefix, e); }
    if forall k :: Stored(n, k) && Below(k, prefix) ==> HasName(entries, NameBelow(k, prefix)) {
      forall p | Stored(m, p) && Below(p, outer) ensures HasName(entries, NameBelow(p, outer)) {
        ShowingIn(m, root, prefix, p);
      }
    }
    if forall p :: Stored(m, p) && Below(p, outer) ==> HasName(entries, NameBelow(p, outer)) {
      forall k | Stored(n, k) && Below(k, prefix) ensures HasName(entries, NameBelow(k, prefix)) {
        ShownIn(m, root, prefix, k);
      }
    }
  }

  /** `List` answers for a directory path exactly when it does on the private medium; for the root always. */
  lemma ListsIn(m: Mem, root: string, path: string)
    requires Anchored(m, root) && CleanRelative(path)
    ensures Lists(m, root)
    ensures Lists(m, In(root, path)) <==> Lists(Project(m, root), path)
  {
    hide In, Inside, DirsBelow, CleanRelative, HasPrefix, ChildPrefix, Stored, Under;
    ListedPrefixIn(root, path);
    CleanIn(root, path);
    ChildPrefixOfClean(path);
    ChildPrefixOfClean(In(root, path));
    StoredIn(m, root, path);
    CleanRelativeFixed(path);
    CleanRelativeFixed(In(root, path));
    if p :| Stored(m, p) && HasPrefix(p, In(root, path) + "/") {
      PrefixIn(root, p, path);
      InStripped(root, p);
      var k := Stripped(root, p);
      PrefixIn(root, k, path);
      StoredIn(m, root, k);
    }
    if k :| Stored(Project(m, root), k) && HasPrefix(k, path + "/") {
      PrefixIn(root, k, path);
      StoredIn(m, root, k);
    }
  }
}
