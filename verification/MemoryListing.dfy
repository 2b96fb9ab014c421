/**
 What a directory listing of the in-memory medium is (go/io.go): one entry for each first
 component below the directory, sorted by name.  In a tree it is determined.
 */
module MemoryListing {
  import opened Options
  import opened Paths
  import opened PathTree
  import opened MemoryState
  import opened MemoryTree
  import opened DirEntries

  function FirstComponent(rest: string): string {
    Split(rest)[0]
  }

  function DirectoryEntry(name: string): DirEntry {
    DirEntry(name, true, DIRECTORY_MODE, DirectoryInfo(name))
  }

  function FileEntry(m: Mem, prefix: string, name: string): DirEntry
    requires prefix + name in m.files
  {
    var path := prefix + name;
    DirEntry(name, false, ModeOf(m, path),
             FileInfo(name, |m.files[path]|, ModeOf(m, path), TimeOf(m, path), false))
  }

  /** The path is below the prefix; a directory equal to the prefix is not. */
  predicate Below(path: string, prefix: string) {
    HasPrefix(path, prefix) && path != prefix
  }

  function NameBelow(path: string, prefix: string): string
    requires Below(path, prefix)
  {
    FirstComponent(path[|prefix|..])
  }

  /** `path` makes a directory entry appear under the prefix. */
  predicate ShowsDirectory(m: Mem, path: string, prefix: string) {
    Stored(m, path) && Below(path, prefix) && (path in m.dirs || '/' in path[|prefix|..])
  }

  ghost predicate EntryOf(m: Mem, prefix: string, e: DirEntry) {
    || (e == DirectoryEntry(e.name) && exists p :: ShowsDirectory(m, p, prefix) && NameBelow(p, prefix) == e.name)
    || (e.name != "" && '/' !in e.name && prefix + e.name in m.files && e == FileEntry(m, prefix, e.name))
  }

  predicate HasName(entries: seq<DirEntry>, name: string) {
    exists e :: e in entries && e.name == name
  }

  ghost predicate StrictlySorted(entries: seq<DirEntry>) {
    forall i, j | 0 <= i < j < |entries| :: Less(entries[i].name, entries[j].name)
  }

  ghost predicate Listing(m: Mem, path: string, entries: seq<DirEntry>) {
    && StrictlySorted(entries)
    && (forall e :: e in entries ==> EntryOf(m, ChildPrefix(path), e))
    && (forall p :: Stored(m, p) && Below(p, ChildPrefix(path)) ==> HasName(entries, NameBelow(p, ChildPrefix(path))))
  }

  /** When `List` gives a listing rather than an error. */
  ghost predicate Lists(m: Mem, path: string) {
    path == "" || path in m.dirs || exists p :: Stored(m, p) && HasPrefix(p, ChildPrefix(path))
  }

  function Joined(path: string, name: string): string {
    if path == "" then name else path + "/" + name
  }

  predicate Listable(path: string) {
    path == "" || CleanRelative(path)
  }

  lemma PathBaseOf(path: string, name: string)
    requires Listable(path) && Normal(name)
    ensures PathBase(Joined(path, name)) == name
    ensures ChildPrefix(path) + name == Joined(path, name)
  {
    hide CleanRelative, Split;
    if path != "" {
      ChildPrefixOfClean(path);
    }
    DirPartOf(path, name);
    var p := Joined(path, name);
    assert p[|p| - 1] == name[|name| - 1];
    assert TrimTrailingSlashes(p) == p;
  }

  lemma FirstOf(rest: string)
    ensures FirstComponent(rest) != rest ==> HasPrefix(rest, FirstComponent(rest) + "/")
    ensures FirstComponent(rest) == rest <==> '/' !in rest
    ensures '/' !in FirstComponent(rest)
  {
    hide Split, Join;
    var parts := Split(rest);
    JoinSplit(rest);
    if '/' !in rest {
      SplitSingle(rest);
    } else if |parts| == 1 {
      assert parts == [parts[0]];
      JoinOne(parts[0]);
    } else {
      assert parts == [parts[0]] + parts[1..];
      JoinCons(parts[0], parts[1..]);
    }
    assert parts[0] in parts;
  }

  /** In a tree, a path below a directory starts with the directory, a slash and a name. */
  lemma NameBelowClean(m: Mem, path: string, p: string)
    requires Tree(m) && Listable(path) && Stored(m, p) && Below(p, ChildPrefix(path))
    ensures var name := NameBelow(p, ChildPrefix(path));
            Normal(name) && (p == Joined(path, name) || Under(p, Joined(path, name)))
    ensures var name := NameBelow(p, ChildPrefix(path));
            p == Joined(path, name) <==> '/' !in p[|ChildPrefix(path)|..]
  {
    hide Ancestors, Split, Join;
    var prefix := ChildPrefix(path);
    var rest := p[|prefix|..];
    assert p == prefix + rest;
    if path != "" {
      ChildPrefixOfClean(path);
      SplitConcat(path, rest);
    }
    assert FirstComponent(rest) in Split(rest);
    assert FirstComponent(rest) in Split(p);
    FirstOf(rest);
    PathBaseOf(path, FirstComponent(rest));
    var name := FirstComponent(rest);
    if name != rest {
      PrefixExtends(prefix, rest, name + "/");
      assert Joined(path, name) + "/" == prefix + (name + "/");
    }
  }

  lemma PrefixExtends(prefix: string, rest: string, start: string)
    requires HasPrefix(rest, start)
    ensures HasPrefix(prefix + rest, prefix + start)
  {
    assert (prefix + rest)[..|prefix| + |start|] == prefix + rest[..|start|];
  }

  /** Every entry agrees with Stat on the joined path: kind, size, mode and time. */
  lemma ListingMatchesStat(m: Mem, path: string, entries: seq<DirEntry>, e: DirEntry, now: Time)
    requires Tree(m) && SameKeys(m) && Listable(path) && Listing(m, path, entries) && e in entries
    ensures Stat(m, Joined(path, e.name), now) == Some(e.info)
    ensures e.isDir == e.info.isDir && e.mode == e.info.mode && e.name == e.info.name
    ensures e.isDir <==> Joined(path, e.name) in m.dirs
  {
    hide Ancestors, CleanRelative, ChildPrefix, Less, PathBase, Split, Under;
    var prefix := ChildPrefix(path);
    assert EntryOf(m, prefix, e);
    var q := Joined(path, e.name);
    assert forall k :: k in m.files.Keys <==> k in m.times.Keys;
    if e.isDir {
      var p :| ShowsDirectory(m, p, prefix) && NameBelow(p, prefix) == e.name;
      NameBelowClean(m, path, p);
      PathBaseOf(path, e.name);
      if Under(p, q) {
        TreeUnder(m, p, q);
      }
      assert q != "";
    } else {
      var p := prefix + e.name;
      FirstOf(e.name);
      assert p[|prefix|..] == e.name;
      assert Stored(m, p);
      NameBelowClean(m, path, p);
      PathBaseOf(path, e.name);
    }
  }

  /** A path can be listed exactly when it is the root or a directory that exists, stored or implied; on every medium. */
  lemma ListsExact(m: Mem, path: string)
    ensures Lists(m, path) <==> path == "" || DirectoryExists(m, path)
  {
    if path != "" {
      var prefix := ChildPrefix(path);
      assert prefix == WithSlash(path);
      if p :| Stored(m, p) && HasPrefix(p, prefix) {
        assert p in m.files ==> HasFileBelow(m, prefix);
        assert p in m.dirs && p != path ==> HasDirectoryBelow(m, path, prefix);
      }
      if HasFileBelow(m, prefix) || HasDirectoryBelow(m, path, prefix) {
        assert exists p :: Stored(m, p) && HasPrefix(p, prefix);
      }
    }
  }

  /** In a tree the names are those of the children, with something stored at the directory, a slash and the name. */
  lemma ListingChildren(m: Mem, path: string, entries: seq<DirEntry>, name: string)
    requires Tree(m) && Listable(path) && Listing(m, path, entries)
    ensures HasName(entries, name) <==> Normal(name) && Stored(m, if path == "" then name else path + "/" + name)
  {
    hide Tree, Less, Split, Listing, ChildPrefix, Under, HasName, PathBase, CleanRelative, Below, NameBelow;
    ListingNames(m, path, entries, name);
    var p := Joined(path, name);
    if HasName(entries, name) {
      var q :| Stored(m, q) && Below(q, ChildPrefix(path)) && NameBelow(q, ChildPrefix(path)) == name;
      NameBelowClean(m, path, q);
      PathBaseOf(path, name);
      if q != p {
        TreeUnder(m, q, p);
      }
    }
    if Normal(name) && Stored(m, p) {
      PathBaseOf(path, name);
      ChildIsBelow(ChildPrefix(path), name);
    }
  }

  lemma ChildIsBelow(prefix: string, name: string)
    requires Normal(name)
    ensures Below(prefix + name, prefix) && NameBelow(prefix + name, prefix) == name
  {
    assert (prefix + name)[|prefix|..] == name;
    FirstOf(name);
  }

  /** The names are exactly the first components of what is stored below the directory. */
  lemma ListingNames(m: Mem, path: string, entries: seq<DirEntry>, name: string)
    requires Listing(m, path, entries)
    ensures HasName(entries, name) <==>
            exists p :: Stored(m, p) && Below(p, ChildPrefix(path)) && NameBelow(p, ChildPrefix(path)) == name
  {
    hide ChildPrefix, Less, Split, HasPrefix;
    var prefix := ChildPrefix(path);
    if HasName(entries, name) {
      var e :| e in entries && e.name == name;
      assert EntryOf(m, prefix, e);
      if p :| ShowsDirectory(m, p, prefix) && NameBelow(p, prefix) == name {
      } else {
        FirstOf(name);
        BelowName(prefix, name);
        assert Stored(m, prefix + name);
      }
    }
  }

  lemma BelowName(prefix: string, name: string)
    requires name != ""
    ensures Below(prefix + name, prefix) && (prefix + name)[|prefix|..] == name
  {
  }

  /** Two listings of the same directory are equal: the order of the map loops does not show. */
  lemma ListingUnique(m: Mem, path: string, a: seq<DirEntry>, b: seq<DirEntry>)
    requires Tree(m) && SameKeys(m) && Listable(path) && Listing(m, path, a) && Listing(m, path, b)
    ensures a == b
  {
    hide Tree, Stat, Listable;
    forall e ensures e in a <==> e in b {
      if e in a {
        ListedInBoth(m, path, a, b, e);
      }
      if e in b {
        ListedInBoth(m, path, b, a, e);
      }
    }
    hide Listing;
    StrictlySortedUnique(a, b);
  }

  lemma ListedInBoth(m: Mem, path: string, a: seq<DirEntry>, b: seq<DirEntry>, e: DirEntry)
    requires Tree(m) && SameKeys(m) && Listable(path) && Listing(m, path, a) && Listing(m, path, b) && e in a
    ensures e in b
  {
    hide Tree, SameKeys, Listable, Listing, Stat;
    assert HasName(a, e.name);
    ListingNames(m, path, a, e.name);
    ListingNames(m, path, b, e.name);
    var f :| f in b && f.name == e.name;
    ListingMatchesStat(m, path, a, e, 0);
    ListingMatchesStat(m, path, b, f, 0);
    assert Some(e.info) == Some(f.info);
  }

  lemma SomeEntry(entries: seq<DirEntry>)
    requires entries != []
    ensures exists e :: e in entries
  {
    assert entries[0] in entries;
  }

  lemma {:induction false} StrictlySortedUnique(a: seq<DirEntry>, b: seq<DirEntry>)
    requires StrictlySorted(a) && StrictlySorted(b)
    requires forall e :: e in a <==> e in b
    ensures a == b
  {
    if a == [] {
      if b != [] {
        SomeEntry(b);
      }
    } else {
      hide Less;
      assert a[0] in b;
      var i :| 0 <= i < |b| && b[i] == a[0];
      assert b[0] in a;
      var j :| 0 <= j < |a| && a[j] == b[0];
      LessTotal(a[0].name, b[0].name);
      assert a[0] == b[0];
      forall e ensures e in a[1..] <==> e in b[1..] {
        LessTotal(a[0].name, a[0].name);
        if e in a[1..] {
          var k :| 1 <= k < |a| && a[k] == e;
          assert e in b && e != b[0];
        }
        if e in b[1..] {
          var k :| 1 <= k < |b| && b[k] == e;
          assert e in a && e != a[0];
        }
      }
      StrictlySortedUnique(a[1..], b[1..]);
      assert a == [a[0]] + a[1..] && b == [b[0]] + b[1..];
    }
  }

  /** What the two loops over the maps collect before the sort. */
  ghost predicate Collected(m: Mem, prefix: string, entries: seq<DirEntry>) {
    && (forall i, j | 0 <= i < j < |entries| :: entries[i].name != entries[j].name)
    && (forall e :: e in entries ==> EntryOf(m, prefix, e))
  }

  lemma SortedIsListing(m: Mem, path: string, entries: seq<DirEntry>)
    requires Collected(m, ChildPrefix(path), entries)
    requires forall p :: Stored(m, p) && Below(p, ChildPrefix(path)) ==> HasName(entries, NameBelow(p, ChildPrefix(path)))
    ensures Listing(m, path, SortByName(entries))
  {
    hide Less, SortByName, Named, EntryOf, ChildPrefix, Below, NameBelow;
    var sorted := SortByName(entries);
    SortByNameCorrect(entries);
    forall e ensures e in sorted <==> e in entries {
      assert e in multiset(sorted) <==> e in multiset(entries);
    }
    forall i, j | 0 <= i < j < |sorted| ensures Less(sorted[i].name, sorted[j].name) {
      LessTotal(sorted[i].name, sorted[j].name);
      if sorted[i].name == sorted[j].name {
        NamedTwice(sorted, i, j);
        NamedOnce(entries, sorted[i].name);
      }
    }
    forall p | Stored(m, p) && Below(p, ChildPrefix(path)) ensures HasName(sorted, NameBelow(p, ChildPrefix(path))) {
      assert HasName(entries, NameBelow(p, ChildPrefix(path)));
      var e :| e in entries && e.name == NameBelow(p, ChildPrefix(path));
      assert e in sorted;
    }
  }

  lemma {:induction false} NamedTwice(entries: seq<DirEntry>, i: nat, j: nat)
    requires i < j < |entries| && entries[i].name == entries[j].name
    ensures |Named(entries, entries[i].name)| >= 2
    decreases |entries|
  {
    var front := entries[..|entries| - 1];
    if j < |front| {
      NamedTwice(front, i, j);
    } else {
      NamedThere(front, i);
    }
  }

  lemma {:induction false} NamedThere(entries: seq<DirEntry>, i: nat)
    requires i < |entries|
    ensures |Named(entries, entries[i].name)| >= 1
    decreases |entries|
  {
    if i < |entries| - 1 {
      NamedThere(entries[..|entries| - 1], i);
    }
  }

  lemma {:induction false} NamedOnce(entries: seq<DirEntry>, name: string)
    requires forall i, j | 0 <= i < j < |entries| :: entries[i].name != entries[j].name
    ensures |Named(entries, name)| <= 1
    ensures !HasName(entries, name) ==> Named(entries, name) == []
    decreases |entries|
  {
    if entries != [] {
      var front, last := entries[..|entries| - 1], entries[|entries| - 1];
      NamedOnce(front, name);
      assert last in entries;
      assert forall e :: e in front ==> e in entries;
      if last.name == name {
        forall e | e in front ensures e.name != name {
          var i :| 0 <= i < |front| && front[i] == e;
          assert entries[i] == e;
        }
      }
    }
  }
}
