/** What the operations of the node tree (go/node/node.go) mean to a caller who looks at the files. */
module NodeObserved {
  import opened Options
  import opened Paths
  import opened PrefixMaps
  import opened NodeState
  import opened DirEntries
  import opened MemoryListing
  import MemoryState
  import NodeCopy
  import NodeListing

  /** A name is stored without one leading slash; an empty name and one that ends in a slash are ignored. */
  lemma AddObserved(m: Files, name: string, content: seq<bv8>, now: Time)
    requires !HasPrefix(name, "/") && name != ""
    ensures var stored := m[name := FileValue(content, now)];
            !HasSuffix(name, "/") ==> AddData(m, name, content, now) == stored && AddData(m, "/" + name, content, now) == stored
    ensures AddData(m, name + "/", content, now) == m && AddData(m, "", content, now) == m && AddData(m, "/", content, now) == m
  {
    assert ("/" + name)[..1] == "/" && ("/" + name)[1..] == name;
    assert (name + "/")[|name|..] == "/" && (name + "/")[0] == name[0];
    assert name[..1] == [name[0]] && (name + "/")[..1] == [name[0]];
    assert "/"[1..] == "";
  }

  /** What `Stat` says: a file with its size and time, the root, or a directory with something in it. */
  lemma StatObserved(m: Files, path: string, now: Time)
    requires path != "" && path != "." && !HasPrefix(path, "/")
    ensures path in m ==>
              NodeListing.Stat(m, NodeListing.Key(path), now) ==
              Some(MemoryState.FileInfo(PathBase(path), |m[path].content|, 0x124, m[path].modTime, false))
    ensures path !in m ==>
              NodeListing.Stat(m, NodeListing.Key(path), now) ==
              if exists rest :: path + "/" + rest in m
              then Some(MemoryState.FileInfo(PathBase(path), 0, 0x8000_016D, now, true)) else None
    ensures "" !in m ==>
              NodeListing.Stat(m, NodeListing.Key("."), now) == Some(MemoryState.FileInfo(".", 0, 0x8000_016D, now, true)) &&
              NodeListing.Stat(m, NodeListing.Key("/"), now) == NodeListing.Stat(m, NodeListing.Key("."), now)
    ensures NodeListing.Key("/" + path) == path && NodeListing.Key("/.") == NodeListing.Key(".") == NodeListing.Key("/") == ""
  {
    hide PathBase;
    assert "/."[..1] == "/" && "/."[1..] == ".";
    assert ("/" + path)[..1] == "/" && ("/" + path)[1..] == path;
    assert "/"[1..] == "" && "."[..1] == ".";
    if rest :| path + "/" + rest in m {
      assert (path + "/" + rest)[..|path| + 1] == path + "/";
    }
    if k :| k in m && HasPrefix(k, path + "/") {
      assert k == path + "/" + k[|path| + 1..];
    }
  }

  /** A file renamed is at the new path as it was, and not at the old one; the others are as they were. */
  lemma RenameFileObserved(m: Files, from: string, to: string, other: string)
    requires from in m && from != to
    ensures var r := Rename(m, from, to);
            to in r && r[to] == m[from] && from !in r &&
            (other != from && other != to ==> (other in r <==> other in m) && (other in m ==> r[other] == m[other]))
  {
  }

  /** A directory renamed: what was at `from/rest` is at `to/rest`; what lies below neither is as it was. */
  lemma RenameDirectoryObserved(m: Files, from: string, to: string, rest: string, other: string)
    requires from !in m
    ensures Renamable(m, from) <==> exists below :: from + "/" + below in m
    ensures var r := Rename(m, from, to);
            (from + "/" + rest in m ==> to + "/" + rest in r && r[to + "/" + rest] == m[from + "/" + rest]) &&
            (!HasPrefix(other, from + "/") && !HasPrefix(other, to + "/") ==>
               (other in r <==> other in m) && (other in m ==> r[other] == m[other])) &&
            (other in r ==> (other in m && !HasPrefix(other, from + "/")) ||
                            (HasPrefix(other, to + "/") && from + "/" + other[|to| + 1..] in m))
  {
    hide Substituted;
    if k :| k in m && HasPrefix(k, from + "/") {
      assert k == from + "/" + k[|from| + 1..];
    }
    if below :| from + "/" + below in m {
      assert (from + "/" + below)[..|from| + 1] == from + "/";
    }
    SubstitutedMeans(m, from + "/", to + "/", rest, other);
  }

  // Listings

  /** The entry of a file in the directory, and of what lies deeper. */
  lemma EntryObserved(m: Files, prefix: string, name: string, rest: string, now: Time)
    requires NodeListing.IsDirectoryPrefix(prefix) && '/' !in name
    ensures name != "" && prefix + name in m ==>
              HasPrefix(prefix + name, prefix) &&
              NodeListing.EntryFor(m, prefix, prefix + name, now) == FileEntryOf(name, m[prefix + name])
    ensures prefix + name + "/" + rest in m ==>
              HasPrefix(prefix + name + "/" + rest, prefix) &&
              NodeListing.EntryFor(m, prefix, prefix + name + "/" + rest, now) == DirectoryEntryOf(name, now)
  {
    hide PathBase, Split;
    var below := name + "/" + rest;
    assert (prefix + name)[|prefix|..] == name && prefix + name + "/" + rest == prefix + below;
    assert (prefix + below)[|prefix|..] == below;
    if name != "" {
      NodeListing.BaseBelow(prefix, name);
    }
    FirstIs(name, rest);
  }

  lemma FirstIs(name: string, rest: string)
    requires '/' !in name
    ensures FirstComponent(name) == name && FirstComponent(name + "/" + rest) == name && '/' in name + "/" + rest
  {
    assert (name + "/" + rest)[|name|] == '/';
    SplitSingle(name);
    SplitConcat(name, rest);
  }

  function FileEntryOf(name: string, file: FileValue): DirEntry {
    DirEntry(name, false, 0x124, MemoryState.FileInfo(name, |file.content|, 0x124, file.modTime, false))
  }

  function DirectoryEntryOf(name: string, now: Time): DirEntry {
    DirEntry(name, true, 0x8000_016D, MemoryState.FileInfo(name, 0, 0x8000_016D, now, true))
  }

  /**
   What a listing says of a name: it is there when a file of that name is in the directory or something
   lies deeper below it, and its entry is that of the file or of a directory.
   */
  lemma ListingObserved(m: Files, prefix: string, order: seq<string>, now: Time, name: string)
    requires Enumerates(order, m.Keys) && NodeListing.IsDirectoryPrefix(prefix) && prefix !in m && '/' !in name
    ensures var entries := NodeListing.ReadDir(m, prefix, order, now);
            HasName(entries, name) <==> prefix + name in m || exists rest :: prefix + name + "/" + rest in m
    ensures forall e :: e in NodeListing.ReadDir(m, prefix, order, now) && e.name == name ==>
              (prefix + name in m && e == FileEntryOf(name, m[prefix + name])) ||
              (e == DirectoryEntryOf(name, now) && exists rest :: prefix + name + "/" + rest in m)
  {
    hide HasPrefix, Distinct, NodeListing.ReadDir, NodeListing.EntryFor, NodeListing.IsDirectoryPrefix, FirstComponent,
      StrictlySorted, NodeListing.FirstBelow;
    NodeListing.ReadDirNames(m, prefix, order, now, name);
    var entries := NodeListing.ReadDir(m, prefix, order, now);
    if k :| k in m && HasPrefix(k, prefix) && NodeListing.FirstBelow(prefix, k) == name {
      Placed(m, prefix, k, now);
    }
    if prefix + name in m {
      Under(prefix, name, "");
    }
    if rest :| prefix + name + "/" + rest in m {
      Under(prefix, name, rest);
    }
    forall e | e in entries && e.name == name
      ensures (prefix + name in m && e == FileEntryOf(name, m[prefix + name])) ||
              (e == DirectoryEntryOf(name, now) && exists rest :: prefix + name + "/" + rest in m)
    {
      NodeListing.ReadDirIs(m, prefix, order, now);
      var k :| k in order && HasPrefix(k, prefix) && e == NodeListing.EntryFor(m, prefix, k, now);
      Placed(m, prefix, k, now);
    }
  }

  lemma Under(prefix: string, name: string, rest: string)
    requires '/' !in name
    ensures HasPrefix(prefix + name, prefix) && NodeListing.FirstBelow(prefix, prefix + name) == name
    ensures HasPrefix(prefix + name + "/" + rest, prefix) && NodeListing.FirstBelow(prefix, prefix + name + "/" + rest) == name
  {
    hide FirstComponent;
    assert prefix + name + "/" + rest == prefix + (name + "/" + rest);
    assert (prefix + name)[|prefix|..] == name;
    assert (prefix + (name + "/" + rest))[|prefix|..] == name + "/" + rest;
    FirstIs(name, rest);
  }

  /** Where a key below the prefix stands, and its entry. */
  lemma Placed(m: Files, prefix: string, k: string, now: Time)
    requires k in m && HasPrefix(k, prefix) && k != prefix && NodeListing.IsDirectoryPrefix(prefix)
    ensures var (name, e) := (NodeListing.FirstBelow(prefix, k), NodeListing.EntryFor(m, prefix, k, now));
            e.name == name &&
            ((prefix + name in m && e == FileEntryOf(name, m[prefix + name])) ||
             (e == DirectoryEntryOf(name, now) && exists rest :: prefix + name + "/" + rest in m))
  {
    hide NodeListing.EntryFor, FirstComponent, NodeListing.IsDirectoryPrefix, NodeListing.FirstBelow;
    NodeListing.EntryName(m, prefix, k, now);
    var name := NodeListing.FirstBelow(prefix, k);
    if '/' in k[|prefix|..] {
      var below := prefix + name + "/";
      assert k == below + k[|below|..];
      EntryObserved(m, prefix, name, k[|below|..], now);
    } else {
      EntryObserved(m, prefix, name, "", now);
    }
  }

  /** Which prefix `ReadDir` lists below. */
  lemma ListedPrefix(path: string)
    requires path != "" && path != "." && !HasPrefix(path, "/")
    ensures NodeListing.DirectoryPrefix(NodeListing.Key(path)) == path + "/"
    ensures NodeListing.DirectoryPrefix(NodeListing.Key("/" + path)) == path + "/"
    ensures NodeListing.DirectoryPrefix(NodeListing.Key("")) == "" && NodeListing.DirectoryPrefix(NodeListing.Key(".")) == ""
    ensures NodeListing.IsDirectoryPrefix(path + "/")
  {
    assert ("/" + path)[..1] == "/" && ("/" + path)[1..] == path;
    assert "."[..1] == "." && (path + "/")[|path|..] == "/";
  }

  // Archives

  /** The archive has one entry for each file, under its key, with its content and its time. */
  lemma ArchiveObserved(m: Files, order: seq<string>, i: nat)
    requires Enumerates(order, m.Keys) && i < |order| && ToTar(m, order).Some?
    ensures order[i] in m && |ToTar(m, order).value| == |order|
    ensures !HasSuffix(order[i], "/") ==>
              ToTar(m, order).value[i] == Regular(order[i], m[order[i]].content, m[order[i]].modTime)
    ensures HasSuffix(order[i], "/") ==> ToTar(m, order).value[i] == OtherKind
  {
    assert order[i] in order;
  }

  /** The entry is stored under this key: its name, or its name without one leading slash. */
  predicate Lands(item: TarItem, key: string) {
    item.Regular? && key != "" && !HasSuffix(key, "/") &&
    (item.name == "/" + key || (item.name == key && !HasPrefix(key, "/")))
  }

  /** Where no entry lands, a tree is what it was before an archive is loaded into it. */
  lemma {:induction false} LoadKeeps(items: seq<TarItem>, files: Files, key: string)
    requires forall i | 0 <= i < |items| :: !items[i].Corrupt? && !Lands(items[i], key)
    ensures Load(items, files).Ok?
    ensures var r := Load(items, files).files;
            (key in r <==> key in files) && (key in r ==> r[key] == files[key])
    decreases |items|
  {
    hide Load, Lands;
    if items == [] {
      LoadsNone(files);
    } else {
      LoadsOne(items, files, key);
      LoadKeeps(items[1..], After(items[0], files), key);
    }
  }

  /** Under each key a loaded tree holds the last entry that lands there. */
  lemma {:induction false} LoadStores(items: seq<TarItem>, files: Files, key: string, i: nat)
    requires forall j | 0 <= j < |items| :: !items[j].Corrupt?
    requires i < |items| && Lands(items[i], key) && forall j | i < j < |items| :: !Lands(items[j], key)
    ensures Load(items, files).Ok?
    ensures var r := Load(items, files).files;
            items[i].Regular? && key in r && r[key] == FileValue(items[i].content, items[i].modTime)
    decreases |items|
  {
    hide Load, Lands;
    LoadsOne(items, files, key);
    if i == 0 {
      LoadKeeps(items[1..], After(items[0], files), key);
    } else {
      LoadStores(items[1..], After(items[0], files), key, i - 1);
    }
  }

  function After(item: TarItem, files: Files): Files {
    if item.Regular? && Keeps(item.name) then files[Trimmed(item.name) := FileValue(item.content, item.modTime)] else files
  }

  lemma LoadsNone(files: Files)
    ensures Load([], files) == Ok(files)
  {
  }

  lemma LoadsOne(items: seq<TarItem>, files: Files, key: string)
    requires items != [] && !items[0].Corrupt?
    ensures Load(items, files) == Load(items[1..], After(items[0], files))
    ensures var next := After(items[0], files);
            if Lands(items[0], key)
            then items[0].Regular? && key in next && next[key] == FileValue(items[0].content, items[0].modTime)
            else (key in next <==> key in files) && (key in next ==> next[key] == files[key])
  {
    hide Lands, HasPrefix, HasSuffix, Trimmed;
    LandsIs(items[0], key);
  }

  lemma LandsIs(item: TarItem, key: string)
    ensures Lands(item, key) <==> item.Regular? && Keeps(item.name) && Trimmed(item.name) == key
  {
    assert ("/" + key)[..1] == "/" && ("/" + key)[1..] == key;
    if item.Regular? && HasPrefix(item.name, "/") {
      assert item.name == "/" + item.name[1..];
    }
  }

  // Copies

  /** Which files a copy takes: the path itself and what lies below it. */
  lemma CopiedObserved(source: string, k: string)
    requires !HasSuffix(source, "/")
    ensures NodeCopy.Copied(source, MemoryState.ChildPrefix(source), k) <==>
            source == "" || k == source || exists rest :: k == source + "/" + rest
    ensures NodeCopy.Copied(source + "/", MemoryState.ChildPrefix(source + "/"), k) <==> exists rest :: k == source + "/" + rest
  {
    assert (source + "/")[|source|..] == "/";
    if HasPrefix(k, source + "/") {
      assert k == source + "/" + k[|source| + 1..];
    }
    if rest :| k == source + "/" + rest {
      assert k[..|source| + 1] == source + "/";
    }
  }

  /**
   Where a copied file goes: the destination, a slash, and its path below the source; a file called like
   the source, with the slash that makes it a directory, goes to the destination itself.
   */
  lemma CopyObserved(source: string, destination: string, rest: string)
    requires !HasSuffix(source, "/")
    ensures rest != "" && source != "" ==> NodeCopy.To(source, destination, source + "/" + rest) == destination + "/" + rest
    ensures rest != "" ==> NodeCopy.To("", destination, rest) == destination + "/" + rest
    ensures source != "" ==>
              NodeCopy.To(source, destination, source) == destination + "/" + source &&
              NodeCopy.To(source, destination, source + "/") == destination &&
              NodeCopy.To(source + "/", destination, source + "/") == destination
    ensures NodeCopy.To("", destination, "") == destination
  {
    assert (source + "/" + rest)[..|source| + 1] == source + "/";
    assert (source + "/" + rest)[|source| + 1..] == rest;
    assert (source + "/")[|source|..] == "/" && (source + "/")[..|source| + 1] == source + "/";
    assert (source + "/")[|source| + 1..] == "";
  }
}
