/**
 Listing a directory of the node tree (go/node/node.go).  The loop takes, for each first
 component, the first key it meets and passes over the others; the entries it makes are then
 sorted by name.  What the order of the map can change is the subject of NodeListingOrder.dfy, what
 `Stat` says of the entries that of NodeListingStat.dfy.
 */
module NodeListing {
  import opened Options
  import opened Paths
  import opened PathTree
  import opened PrefixMaps
  import opened NodeState
  import opened DirEntries
  import opened MemoryListing
  import MemoryState

  type FileInfo = MemoryState.FileInfo

  const FILE_MODE: MemoryState.Mode := 292                 // 0444
  const DIRECTORY_MODE: MemoryState.Mode := 0x8000_016D    // fs.ModeDir | 0555

  function FileInfoOf(key: string, file: FileValue): FileInfo {
    MemoryState.FileInfo(PathBase(key), |file.content|, FILE_MODE, file.modTime, false)
  }

  function DirInfo(name: string, now: Time): FileInfo {
    MemoryState.FileInfo(name, 0, DIRECTORY_MODE, now, true)
  }

  function Key(name: string): string {
    if Trimmed(name) == "." then "" else Trimmed(name)
  }

  /** `Stat` of a cleaned name: a file first, then the root, then a directory with something in it. */
  ghost function Stat(m: Files, key: string, now: Time): Option<FileInfo> {
    if key in m then Some(FileInfoOf(key, m[key]))
    else if key == "" then Some(DirInfo(".", now))
    else if exists k :: k in m && HasPrefix(k, key + "/") then Some(DirInfo(PathBase(key), now))
    else None
  }

  function DirectoryPrefix(key: string): string {
    if key == "" then "" else key + "/"
  }

  function FirstBelow(prefix: string, k: string): string
    requires HasPrefix(k, prefix)
  {
    FirstComponent(k[|prefix|..])
  }

  /** The entry a key makes appear under the prefix. */
  function EntryFor(m: Files, prefix: string, k: string, now: Time): DirEntry
    requires k in m && HasPrefix(k, prefix)
  {
    if '/' in k[|prefix|..] then DirEntry(FirstBelow(prefix, k), true, DIRECTORY_MODE, DirInfo(FirstBelow(prefix, k), now))
    else DirEntry(PathBase(k), false, FILE_MODE, FileInfoOf(k, m[k]))
  }

  /** The loop of `ReadDir`, going through the keys in `order`. */
  function Gather(m: Files, prefix: string, order: seq<string>, seen: set<string>, now: Time): seq<DirEntry>
    requires forall k :: k in order ==> k in m
    decreases |order|
  {
    if order == [] then []
    else
      assert order[0] in order;
      var (k, rest) := (order[0], order[1..]);
      if !HasPrefix(k, prefix) || FirstBelow(prefix, k) in seen then Gather(m, prefix, rest, seen, now)
      else [EntryFor(m, prefix, k, now)] + Gather(m, prefix, rest, seen + {FirstBelow(prefix, k)}, now)
  }

  function ReadDir(m: Files, prefix: string, order: seq<string>, now: Time): seq<DirEntry>
    requires forall k :: k in order ==> k in m
  {
    SortByName(Gather(m, prefix, order, {}, now))
  }

  /** A name under the prefix is a file, and something lies below it. */
  ghost predicate Clashes(m: Files, prefix: string, name: string) {
    '/' !in name && prefix + name in m && exists k :: k in m && HasPrefix(k, prefix + name + "/")
  }

  ghost predicate NoClash(m: Files, prefix: string) {
    forall name :: !Clashes(m, prefix, name)
  }

  predicate IsDirectoryPrefix(prefix: string) {
    prefix == "" || HasSuffix(prefix, "/")
  }

  lemma BaseBelow(prefix: string, rest: string)
    requires IsDirectoryPrefix(prefix) && rest != "" && '/' !in rest
    ensures PathBase(prefix + rest) == rest
  {
    var p := prefix + rest;
    if prefix == "" {
      DirPartOf("", rest);
      assert p == rest;
    } else {
      var dir := prefix[..|prefix| - 1];
      assert prefix == dir + "/";
      DirPartOf(dir, rest);
    }
    assert p[|p| - 1] == rest[|rest| - 1] != '/';
    assert TrimTrailingSlashes(p) == p;
  }

  lemma PathBaseNotEmpty(p: string)
    ensures PathBase(p) != ""
  {
    var t := TrimTrailingSlashes(p);
    if p != "" && t != "" {
      TrimmedEnd(p);
      DirPartShort(t);
    }
  }

  lemma TrimmedEnd(p: string)
    ensures TrimTrailingSlashes(p) != "" ==> TrimTrailingSlashes(p)[|TrimTrailingSlashes(p)| - 1] != '/'
  {
  }

  lemma DirPartShort(p: string)
    requires p != "" && p[|p| - 1] != '/'
    ensures |DirPart(p)| < |p|
  {
  }

  /** An entry is named after the first component of the key, unless the key is the prefix itself. */
  lemma EntryName(m: Files, prefix: string, k: string, now: Time)
    requires k in m && HasPrefix(k, prefix) && k != prefix && IsDirectoryPrefix(prefix)
    ensures EntryFor(m, prefix, k, now).name == FirstBelow(prefix, k)
    ensures EntryFor(m, prefix, k, now).isDir <==> '/' in k[|prefix|..]
    ensures '/' !in FirstBelow(prefix, k)
    ensures '/' !in k[|prefix|..] ==> k == prefix + FirstBelow(prefix, k) && FirstBelow(prefix, k) != ""
    ensures '/' in k[|prefix|..] ==> HasPrefix(k, prefix + FirstBelow(prefix, k) + "/")
  {
    hide Split, PathBase, FirstComponent;
    var rest := k[|prefix|..];
    assert k == prefix + rest;
    FirstOf(rest);
    if '/' !in rest {
      BaseBelow(prefix, rest);
    } else {
      PrefixExtends(prefix, rest, FirstComponent(rest) + "/");
      assert prefix + (FirstComponent(rest) + "/") == prefix + FirstComponent(rest) + "/";
    }
  }

  /** A key that is the prefix itself shows as a file named like its directory. */
  lemma OwnEntry(m: Files, prefix: string, now: Time)
    requires prefix in m
    ensures HasPrefix(prefix, prefix) && FirstBelow(prefix, prefix) == ""
    ensures EntryFor(m, prefix, prefix, now) == DirEntry(PathBase(prefix), false, FILE_MODE, FileInfoOf(prefix, m[prefix]))
    ensures PathBase(prefix) != ""
  {
    hide PathBase;
    PathBaseNotEmpty(prefix);
    SplitSingle("");
    assert prefix[|prefix|..] == "";
  }

  /** Some key of the order is the one whose entry stands for the name. */
  ghost predicate Shown(m: Files, prefix: string, order: seq<string>, e: DirEntry, now: Time)
    requires forall k :: k in order ==> k in m
  {
    exists k :: k in order && HasPrefix(k, prefix) && e == EntryFor(m, prefix, k, now)
  }

  ghost predicate Gathered(m: Files, prefix: string, order: seq<string>, seen: set<string>, now: Time,
      entries: seq<DirEntry>)
    requires forall k :: k in order ==> k in m
  {
    && (forall i, j | 0 <= i < j < |entries| :: entries[i].name != entries[j].name)
    && (forall e :: e in entries ==> Shown(m, prefix, order, e, now) && e.name !in seen)
    && (forall k :: k in order && HasPrefix(k, prefix) && FirstBelow(prefix, k) !in seen ==>
                      HasName(entries, FirstBelow(prefix, k)))
  }

  lemma {:induction false} GatherIs(m: Files, prefix: string, order: seq<string>, seen: set<string>, now: Time)
    requires (forall k :: k in order ==> k in m) && prefix !in m && IsDirectoryPrefix(prefix)
    ensures Gathered(m, prefix, order, seen, now, Gather(m, prefix, order, seen, now))
    decreases |order|
  {
    hide EntryFor, FirstBelow, HasPrefix, IsDirectoryPrefix;
    if order != [] {
      var (k, rest) := (order[0], order[1..]);
      assert k in order;
      assert forall x :: x in order <==> x == k || x in rest;
      if !HasPrefix(k, prefix) || FirstBelow(prefix, k) in seen {
        GatherIs(m, prefix, rest, seen, now);
      } else {
        var first, e := FirstBelow(prefix, k), EntryFor(m, prefix, k, now);
        EntryName(m, prefix, k, now);
        GatherIs(m, prefix, rest, seen + {first}, now);
        GatherMore(m, prefix, order, seen, now, Gather(m, prefix, rest, seen + {first}, now));
      }
    }
  }

  lemma GatherMore(m: Files, prefix: string, order: seq<string>, seen: set<string>, now: Time, tail: seq<DirEntry>)
    requires (forall k :: k in order ==> k in m) && order != [] && (forall k :: k in order[1..] ==> k in m)
    requires order[0] in order && HasPrefix(order[0], prefix) && FirstBelow(prefix, order[0]) !in seen
    requires EntryFor(m, prefix, order[0], now).name == FirstBelow(prefix, order[0])
    requires Gathered(m, prefix, order[1..], seen + {FirstBelow(prefix, order[0])}, now, tail)
    ensures Gathered(m, prefix, order, seen, now, [EntryFor(m, prefix, order[0], now)] + tail)
  {
    hide EntryFor, FirstBelow, HasPrefix;
    var e := EntryFor(m, prefix, order[0], now);
    var entries := [e] + tail;
    assert e in entries;
    forall i, j | 0 <= i < j < |entries| ensures entries[i].name != entries[j].name {
      assert tail[j - 1] in tail;
    }
    forall x | x in entries ensures Shown(m, prefix, order, x, now) && x.name !in seen {
      if x != e {
        assert x in tail;
        var k :| k in order[1..] && HasPrefix(k, prefix) && x == EntryFor(m, prefix, k, now);
        assert k in order;
      }
    }
    forall k | k in order && HasPrefix(k, prefix) && FirstBelow(prefix, k) !in seen
      ensures HasName(entries, FirstBelow(prefix, k))
    {
      if FirstBelow(prefix, k) != e.name {
        assert k in order[1..];
        assert HasName(tail, FirstBelow(prefix, k));
        var x :| x in tail && x.name == FirstBelow(prefix, k);
        assert x in entries;
      }
    }
  }

  /** `ReadDir` sorted: each name once, in increasing order. */
  lemma ReadDirIs(m: Files, prefix: string, order: seq<string>, now: Time)
    requires (forall k :: k in order ==> k in m) && prefix !in m && IsDirectoryPrefix(prefix)
    ensures var entries := ReadDir(m, prefix, order, now);
            StrictlySorted(entries) && Gathered(m, prefix, order, {}, now, entries)
  {
    hide EntryFor, FirstBelow, HasPrefix, IsDirectoryPrefix, Gather, SortByName, Shown, Less, Named;
    var found := Gather(m, prefix, order, {}, now);
    GatherIs(m, prefix, order, {}, now);
    SortByNameCorrect(found);
    var sorted := SortByName(found);
    forall e ensures e in sorted <==> e in found {
      assert e in multiset(sorted) <==> e in multiset(found);
    }
    forall i, j | 0 <= i < j < |sorted| ensures Less(sorted[i].name, sorted[j].name) {
      LessTotal(sorted[i].name, sorted[j].name);
      if sorted[i].name == sorted[j].name {
        NamedTwice(sorted, i, j);
        NamedOnce(found, sorted[i].name);
      }
    }
    forall i, j | 0 <= i < j < |sorted| ensures sorted[i].name != sorted[j].name {
      LessTotal(sorted[i].name, sorted[j].name);
    }
    forall k | k in order && HasPrefix(k, prefix) ensures HasName(sorted, FirstBelow(prefix, k)) {
      assert HasName(found, FirstBelow(prefix, k));
      var e :| e in found && e.name == FirstBelow(prefix, k);
      assert e in sorted;
    }
  }

  /** The names are the first components of the keys under the prefix, in increasing order, whatever the map order. */
  lemma ReadDirNames(m: Files, prefix: string, order: seq<string>, now: Time, name: string)
    requires Enumerates(order, m.Keys) && prefix !in m && IsDirectoryPrefix(prefix)
    ensures StrictlySorted(ReadDir(m, prefix, order, now))
    ensures HasName(ReadDir(m, prefix, order, now), name) <==>
            exists k :: k in m && HasPrefix(k, prefix) && FirstBelow(prefix, k) == name
  {
    hide EntryFor, FirstBelow, HasPrefix, IsDirectoryPrefix, ReadDir, StrictlySorted;
    ReadDirIs(m, prefix, order, now);
    var entries := ReadDir(m, prefix, order, now);
    if HasName(entries, name) {
      var e :| e in entries && e.name == name;
      assert Shown(m, prefix, order, e, now);
      var k :| k in order && HasPrefix(k, prefix) && e == EntryFor(m, prefix, k, now);
      EntryName(m, prefix, k, now);
    }
  }

  // What an order starts with

  /** Every entry comes from a key whose first component was not seen before. */
  lemma {:induction false} GatherFrom(m: Files, prefix: string, order: seq<string>, seen: set<string>, now: Time, e: DirEntry)
    requires (forall k :: k in order ==> k in m) && e in Gather(m, prefix, order, seen, now)
    ensures exists k :: k in order && HasPrefix(k, prefix) && FirstBelow(prefix, k) !in seen && e == EntryFor(m, prefix, k, now)
    decreases |order|
  {
    hide FirstBelow, HasPrefix, EntryFor;
    var (k, rest) := (order[0], order[1..]);
    assert k in order;
    if !HasPrefix(k, prefix) || FirstBelow(prefix, k) in seen {
      GatherFrom(m, prefix, rest, seen, now, e);
    } else if e != EntryFor(m, prefix, k, now) {
      GatherFrom(m, prefix, rest, seen + {FirstBelow(prefix, k)}, now, e);
    }
  }

  lemma FirstChosen(m: Files, prefix: string, k: string, order: seq<string>, now: Time)
    requires (forall x :: x in order ==> x in m) && order != [] && order[0] == k
    requires k in m && HasPrefix(k, prefix)
    ensures EntryFor(m, prefix, k, now) in ReadDir(m, prefix, order, now)
  {
    hide EntryFor, FirstBelow, HasPrefix, SortByName;
    var found := Gather(m, prefix, order, {}, now);
    assert found[0] == EntryFor(m, prefix, k, now);
    SortedHasSame(found);
  }

  /** A key can come first. */
  lemma OrderStarting(keys: set<string>, k: string) returns (order: seq<string>)
    requires k in keys
    ensures Enumerates(order, keys) && order != [] && order[0] == k
  {
    var rest := SomeOrder(keys - {k});
    order := [k] + rest;
    forall i, j | 0 <= i < j < |order| ensures order[i] != order[j] {
      assert order[j] in rest;
    }
  }

  lemma KeysOf(m: Files, order: seq<string>)
    requires Enumerates(order, m.Keys)
    ensures forall k :: k in order <==> k in m
  {
  }

  // Names

  /** The names of a listing are the first components of the keys under the prefix. */
  ghost predicate NamesAreFirsts(m: Files, prefix: string, order: seq<string>, now: Time)
    requires Enumerates(order, m.Keys)
  {
    forall name :: HasName(ReadDir(m, prefix, order, now), name) <==> IsFirst(m, prefix, name)
  }

  ghost predicate IsFirst(m: Files, prefix: string, name: string) {
    exists k :: k in m && HasPrefix(k, prefix) && FirstBelow(prefix, k) == name
  }

  /** Once the empty component is seen, no entry is nameless. */
  lemma {:induction false} NoneNameless(m: Files, prefix: string, order: seq<string>, seen: set<string>, now: Time)
    requires (forall k :: k in order ==> k in m) && IsDirectoryPrefix(prefix) && "" in seen
    ensures forall e :: e in Gather(m, prefix, order, seen, now) ==> e.name != ""
    decreases |order|
  {
    hide EntryFor, FirstBelow, HasPrefix, IsDirectoryPrefix;
    if order != [] {
      var (k, rest) := (order[0], order[1..]);
      assert k in order;
      if !HasPrefix(k, prefix) || FirstBelow(prefix, k) in seen {
        NoneNameless(m, prefix, rest, seen, now);
      } else {
        NoneNameless(m, prefix, rest, seen + {FirstBelow(prefix, k)}, now);
        if k == prefix {
          OwnEntry(m, prefix, now);
        } else {
          EntryName(m, prefix, k, now);
        }
      }
    }
  }

  /** For every order the names are the first components exactly when the prefix itself is no key. */
  lemma ReadDirNamesExact(m: Files, prefix: string, now: Time)
    requires IsDirectoryPrefix(prefix)
    ensures (forall order :: Enumerates(order, m.Keys) ==> NamesAreFirsts(m, prefix, order, now)) <==> prefix !in m
  {
    hide EntryFor, FirstBelow, HasPrefix, IsDirectoryPrefix, ReadDir, Enumerates, StrictlySorted;
    if prefix !in m {
      forall order | Enumerates(order, m.Keys) ensures NamesAreFirsts(m, prefix, order, now) {
        KeysOf(m, order);
        forall name ensures HasName(ReadDir(m, prefix, order, now), name) <==> IsFirst(m, prefix, name) {
          ReadDirNames(m, prefix, order, now, name);
        }
      }
    } else {
      var order := OrderStarting(m.Keys, prefix);
      OwnEntry(m, prefix, now);
      NamelessMissing(m, prefix, order, now);
      assert IsFirst(m, prefix, "");
    }
  }

  lemma NamelessMissing(m: Files, prefix: string, order: seq<string>, now: Time)
    requires IsDirectoryPrefix(prefix) && prefix in m && Enumerates(order, m.Keys) && order != [] && order[0] == prefix
    ensures !HasName(ReadDir(m, prefix, order, now), "")
  {
    hide EntryFor, FirstBelow, HasPrefix, IsDirectoryPrefix, SortByName;
    OwnEntry(m, prefix, now);
    NoneNameless(m, prefix, order[1..], {} + {""}, now);
    assert order[0] in order;
    SortedHasSame(Gather(m, prefix, order, {}, now));
  }

  lemma SortedHasSame(entries: seq<DirEntry>)
    ensures forall e :: e in SortByName(entries) <==> e in entries
  {
    hide SortByName, Named;
    SortByNameCorrect(entries);
    forall e ensures e in SortByName(entries) <==> e in entries {
      assert e in multiset(SortByName(entries)) <==> e in multiset(entries);
    }
  }

  // The loop, key by key

  function SeenBy(prefix: string, order: seq<string>): set<string> {
    set k | k in order && HasPrefix(k, prefix) :: FirstBelow(prefix, k)
  }

  lemma {:induction false} GatherNext(m: Files, prefix: string, order: seq<string>, seen: set<string>, k: string,
      now: Time)
    requires (forall x :: x in order ==> x in m) && k in m && forall x :: x in order + [k] ==> x in m
    ensures Gather(m, prefix, order + [k], seen, now) ==
            Gather(m, prefix, order, seen, now) +
            if HasPrefix(k, prefix) && FirstBelow(prefix, k) !in seen + SeenBy(prefix, order)
            then [EntryFor(m, prefix, k, now)] else []
    decreases |order|
  {
    hide HasPrefix, FirstBelow, EntryFor;
    if order == [] {
      assert (order + [k])[1..] == [] && SeenBy(prefix, order) == {};
    } else {
      var (x, rest) := (order[0], order[1..]);
      assert x in order;
      assert (order + [k])[1..] == rest + [k];
      assert forall y :: y in order <==> y == x || y in rest;
      if !HasPrefix(x, prefix) || FirstBelow(prefix, x) in seen {
        GatherNext(m, prefix, rest, seen, k, now);
        assert seen + SeenBy(prefix, order) == seen + SeenBy(prefix, rest);
      } else {
        GatherNext(m, prefix, rest, seen + {FirstBelow(prefix, x)}, k, now);
        assert seen + {FirstBelow(prefix, x)} + SeenBy(prefix, rest) == seen + SeenBy(prefix, order);
      }
    }
  }

  lemma GatherNone(m: Files, prefix: string, now: Time)
    ensures Gather(m, prefix, [], {}, now) == [] && SeenBy(prefix, []) == {}
  {
  }

  lemma SeenNext(prefix: string, order: seq<string>, k: string)
    ensures SeenBy(prefix, order + [k]) ==
            SeenBy(prefix, order) + if HasPrefix(k, prefix) then {FirstBelow(prefix, k)} else {}
  {
    hide HasPrefix, FirstBelow;
    assert forall y :: y in order + [k] <==> y in order || y == k;
  }
}
