/**
 Whether the order of the map shows in a listing of the node tree (go/node/node.go): it does exactly
 when a file has something below it, or when a key that is the listed prefix itself takes the name
 of a child that looks different.
 */
module NodeListingOrder {
  import opened Paths
  import opened PrefixMaps
  import opened NodeState
  import opened DirEntries
  import opened MemoryListing
  import opened NodeListing

  /** Two keys with the same first component make the same entry, unless the name clashes. */
  lemma SameEntry(m: Files, prefix: string, j: string, k: string, now: Time)
    requires j in m && k in m && HasPrefix(j, prefix) && HasPrefix(k, prefix)
    requires IsDirectoryPrefix(prefix) && NoClash(m, prefix)
    requires FirstBelow(prefix, j) == FirstBelow(prefix, k)
    ensures EntryFor(m, prefix, j, now) == EntryFor(m, prefix, k, now)
  {
    hide FirstBelow, HasPrefix, IsDirectoryPrefix, PathBase;
    assert !Clashes(m, prefix, FirstBelow(prefix, j));
    if j != prefix {
      EntryName(m, prefix, j, now);
    } else {
      OwnEntry(m, prefix, now);
    }
    if k != prefix {
      EntryName(m, prefix, k, now);
    } else {
      OwnEntry(m, prefix, now);
    }
    assert prefix + "" == prefix;
  }

  /** The entry every key with this first component makes, when no name clashes. */
  ghost function EntryOfFirst(m: Files, prefix: string, name: string, now: Time): DirEntry {
    if k :| k in m && HasPrefix(k, prefix) && FirstBelow(prefix, k) == name then EntryFor(m, prefix, k, now)
    else DirEntry(name, true, DIRECTORY_MODE, DirInfo(name, now))
  }

  /** The first components in the order in which the loop first meets them. */
  function Firsts(prefix: string, order: seq<string>, seen: set<string>): seq<string>
    decreases |order|
  {
    if order == [] then []
    else
      var (k, rest) := (order[0], order[1..]);
      if !HasPrefix(k, prefix) || FirstBelow(prefix, k) in seen then Firsts(prefix, rest, seen)
      else [FirstBelow(prefix, k)] + Firsts(prefix, rest, seen + {FirstBelow(prefix, k)})
  }

  ghost function EntriesOf(m: Files, prefix: string, names: seq<string>, now: Time): (entries: seq<DirEntry>)
    ensures |entries| == |names|
  {
    seq(|names|, i requires 0 <= i < |names| => EntryOfFirst(m, prefix, names[i], now))
  }

  lemma EntryOfKey(m: Files, prefix: string, k: string, now: Time)
    requires IsDirectoryPrefix(prefix) && NoClash(m, prefix) && k in m && HasPrefix(k, prefix)
    ensures EntryOfFirst(m, prefix, FirstBelow(prefix, k), now) == EntryFor(m, prefix, k, now)
  {
    hide FirstBelow, HasPrefix, IsDirectoryPrefix, EntryFor, NoClash;
    var name := FirstBelow(prefix, k);
    var j :| j in m && HasPrefix(j, prefix) && FirstBelow(prefix, j) == name &&
             EntryOfFirst(m, prefix, name, now) == EntryFor(m, prefix, j, now);
    SameEntry(m, prefix, j, k, now);
  }

  lemma {:induction false} GatherOfFirsts(m: Files, prefix: string, order: seq<string>, seen: set<string>, now: Time)
    requires (forall k :: k in order ==> k in m) && IsDirectoryPrefix(prefix) && NoClash(m, prefix)
    ensures Gather(m, prefix, order, seen, now) == EntriesOf(m, prefix, Firsts(prefix, order, seen), now)
    decreases |order|
  {
    hide FirstBelow, HasPrefix, IsDirectoryPrefix, EntryFor, NoClash, EntryOfFirst;
    if order != [] {
      var (k, rest) := (order[0], order[1..]);
      assert k in order;
      if !HasPrefix(k, prefix) || FirstBelow(prefix, k) in seen {
        GatherOfFirsts(m, prefix, rest, seen, now);
      } else {
        GatherOfFirsts(m, prefix, rest, seen + {FirstBelow(prefix, k)}, now);
        EntryOfKey(m, prefix, k, now);
      }
    }
  }

  lemma {:induction false} FirstsEnumerate(prefix: string, order: seq<string>, seen: set<string>)
    ensures Enumerates(Firsts(prefix, order, seen), SeenBy(prefix, order) - seen)
    decreases |order|
  {
    hide FirstBelow, HasPrefix;
    if order != [] {
      var (k, rest) := (order[0], order[1..]);
      assert forall x :: x in order <==> x == k || x in rest;
      if !HasPrefix(k, prefix) || FirstBelow(prefix, k) in seen {
        FirstsEnumerate(prefix, rest, seen);
        assert SeenBy(prefix, order) - seen == SeenBy(prefix, rest) - seen;
      } else {
        var first := FirstBelow(prefix, k);
        FirstsEnumerate(prefix, rest, seen + {first});
        var later := Firsts(prefix, rest, seen + {first});
        assert first in SeenBy(prefix, order);
        assert SeenBy(prefix, order) == SeenBy(prefix, rest) + {first};
        forall i, j | 0 <= i < j < |later| + 1 ensures ([first] + later)[i] != ([first] + later)[j] {
          assert later[j - 1] in later;
        }
      }
    }
  }

  /** Two ways to list a set give the same entries, each as often. */
  lemma {:induction false} SameMultiset(m: Files, prefix: string, a: seq<string>, b: seq<string>, s: set<string>, now: Time)
    requires Enumerates(a, s) && Enumerates(b, s)
    ensures multiset(EntriesOf(m, prefix, a, now)) == multiset(EntriesOf(m, prefix, b, now))
    decreases |a|
  {
    hide EntryOfFirst, EntriesOf;
    assert b != [] ==> b[0] in b && b[0] in s && b[0] in a;
    if a != [] {
      var name := a[0];
      assert name in a;
      var i :| 0 <= i < |b| && b[i] == name;
      var (front, back) := (b[..i], b[i + 1..]);
      assert a == [] + [name] + a[1..] && b == front + [name] + back && [] + a[1..] == a[1..];
      WithoutOne([], name, a[1..], s);
      WithoutOne(front, name, back, s);
      SameMultiset(m, prefix, a[1..], front + back, s - {name}, now);
      EntriesWithoutOne(m, prefix, [], name, a[1..], now);
      EntriesWithoutOne(m, prefix, front, name, back, now);
    }
  }

  lemma WithoutOne(front: seq<string>, name: string, back: seq<string>, s: set<string>)
    requires Enumerates(front + [name] + back, s)
    ensures Enumerates(front + back, s - {name})
  {
    var (all, rest) := (front + [name] + back, front + back);
    forall i | 0 <= i < |rest| ensures rest[i] != name && rest[i] in s {
      assert rest[i] == all[if i < |front| then i else i + 1] && all[|front|] == name;
      assert rest[i] in all;
    }
    forall i, j | 0 <= i < j < |rest| ensures rest[i] != rest[j] {
      assert rest[i] == all[if i < |front| then i else i + 1] && rest[j] == all[if j < |front| then j else j + 1];
    }
    assert forall x :: x in all <==> x == name || x in rest;
  }

  lemma EntriesWithoutOne(m: Files, prefix: string, front: seq<string>, name: string, back: seq<string>, now: Time)
    ensures multiset(EntriesOf(m, prefix, front + [name] + back, now)) ==
            multiset(EntriesOf(m, prefix, front + back, now)) + multiset{EntryOfFirst(m, prefix, name, now)}
  {
    hide EntryOfFirst;
    var (f, b) := (EntriesOf(m, prefix, front, now), EntriesOf(m, prefix, back, now));
    assert EntriesOf(m, prefix, front + [name] + back, now) == f + [EntryOfFirst(m, prefix, name, now)] + b;
    assert EntriesOf(m, prefix, front + back, now) == f + b;
  }

  /** Sorted the same, when a name tells the entry. */
  lemma {:induction false} SortedSame(a: seq<DirEntry>, b: seq<DirEntry>)
    requires Sorted(a) && Sorted(b) && multiset(a) == multiset(b)
    requires forall e, f :: e in a && f in a && e.name == f.name ==> e == f
    ensures a == b
    decreases |a|
  {
    hide Sorted;
    assert |multiset(a)| == |a| && |multiset(b)| == |b|;
    if a != [] {
      HeadsSame(a, b);
      SortedTail(a);
      SortedTail(b);
      TailsSame(a, b);
      SortedSame(a[1..], b[1..]);
    }
  }

  lemma TailsSame(a: seq<DirEntry>, b: seq<DirEntry>)
    requires a != [] && b != [] && multiset(a) == multiset(b) && a[0] == b[0]
    ensures multiset(a[1..]) == multiset(b[1..])
    ensures forall e :: e in a[1..] ==> e in a
    ensures a[1..] == b[1..] ==> a == b
  {
    assert a == [a[0]] + a[1..] && b == [b[0]] + b[1..];
    assert multiset(a) == multiset{a[0]} + multiset(a[1..]) && multiset(b) == multiset{b[0]} + multiset(b[1..]);
    assert multiset(a[1..]) == multiset(a) - multiset{a[0]} && multiset(b[1..]) == multiset(b) - multiset{b[0]};
  }

  lemma SortedTail(a: seq<DirEntry>)
    requires a != [] && Sorted(a)
    ensures Sorted(a[1..])
  {
    hide Less;
  }

  /** The smallest of the same entries. */
  lemma HeadsSame(a: seq<DirEntry>, b: seq<DirEntry>)
    requires a != [] && b != [] && Sorted(a) && Sorted(b) && multiset(a) == multiset(b)
    requires forall e, f :: e in a && f in a && e.name == f.name ==> e == f
    ensures a[0] == b[0]
  {
    hide Less;
    var (x, y) := (a[0], b[0]);
    assert x in multiset(a) && y in multiset(b);
    assert x in b && y in a;
    SmallestFirst(a, y);
    SmallestFirst(b, x);
    LessTotal(x.name, y.name);
  }

  lemma SmallestFirst(a: seq<DirEntry>, e: DirEntry)
    requires a != [] && Sorted(a) && e in a
    ensures e == a[0] || !Less(e.name, a[0].name)
  {
    hide Less;
    var i :| 0 <= i < |a| && a[i] == e;
  }

  /** A key that is the prefix itself and a child of the same name, if there are both, look the same. */
  predicate OwnApart(m: Files, prefix: string) {
    prefix in m ==>
      forall k :: k in m && HasPrefix(k, prefix) && k != prefix && FirstBelow(prefix, k) == PathBase(prefix) ==>
        '/' !in k[|prefix|..] && |m[k].content| == |m[prefix].content| && m[k].modTime == m[prefix].modTime
  }

  lemma NameTellsEntry(m: Files, prefix: string, j: string, k: string, now: Time)
    requires j in m && k in m && HasPrefix(j, prefix) && HasPrefix(k, prefix)
    requires IsDirectoryPrefix(prefix) && NoClash(m, prefix) && OwnApart(m, prefix)
    requires EntryFor(m, prefix, j, now).name == EntryFor(m, prefix, k, now).name
    ensures EntryFor(m, prefix, j, now) == EntryFor(m, prefix, k, now)
  {
    hide FirstBelow, HasPrefix, IsDirectoryPrefix, PathBase, NoClash;
    if j != prefix && k != prefix {
      EntryName(m, prefix, j, now);
      EntryName(m, prefix, k, now);
      SameEntry(m, prefix, j, k, now);
    } else if j != k {
      OwnEntry(m, prefix, now);
      EntryName(m, prefix, if j == prefix then k else j, now);
    }
  }

  lemma ListingsAgree(m: Files, prefix: string, a: seq<string>, b: seq<string>, now: Time)
    requires IsDirectoryPrefix(prefix) && NoClash(m, prefix) && OwnApart(m, prefix)
    requires Enumerates(a, m.Keys) && Enumerates(b, m.Keys)
    ensures ReadDir(m, prefix, a, now) == ReadDir(m, prefix, b, now)
  {
    hide IsDirectoryPrefix, EntryFor, HasPrefix, FirstBelow, NoClash, OwnApart, SortByName, Named, Sorted, EntryOfFirst;
    KeysOf(m, a);
    KeysOf(m, b);
    var (ga, gb) := (Gather(m, prefix, a, {}, now), Gather(m, prefix, b, {}, now));
    GatherOfFirsts(m, prefix, a, {}, now);
    GatherOfFirsts(m, prefix, b, {}, now);
    FirstsEnumerate(prefix, a, {});
    FirstsEnumerate(prefix, b, {});
    assert SeenBy(prefix, a) - {} == SeenBy(prefix, b) - {} by {
      assert forall k :: k in a <==> k in b;
    }
    SameMultiset(m, prefix, Firsts(prefix, a, {}), Firsts(prefix, b, {}), SeenBy(prefix, a) - {}, now);
    SortByNameCorrect(ga);
    SortByNameCorrect(gb);
    SortedHasSame(ga);
    forall e, f | e in ga && f in ga && e.name == f.name ensures e == f {
      GatherFrom(m, prefix, a, {}, now, e);
      GatherFrom(m, prefix, a, {}, now, f);
      var j :| j in a && HasPrefix(j, prefix) && e == EntryFor(m, prefix, j, now);
      var k :| k in a && HasPrefix(k, prefix) && f == EntryFor(m, prefix, k, now);
      NameTellsEntry(m, prefix, j, k, now);
    }
    SortedSame(SortByName(ga), SortByName(gb));
  }

  /** A listing does not depend on the order of the map. */
  ghost predicate OrderIndependent(m: Files, prefix: string, now: Time) {
    forall a, b :: Enumerates(a, m.Keys) && Enumerates(b, m.Keys) ==> SameListing(m, prefix, a, b, now)
  }

  ghost predicate SameListing(m: Files, prefix: string, a: seq<string>, b: seq<string>, now: Time)
    requires Enumerates(a, m.Keys) && Enumerates(b, m.Keys)
  {
    ReadDir(m, prefix, a, now) == ReadDir(m, prefix, b, now)
  }

  /**
   For every node tree: the listing is the same for every order of the map exactly when no name
   clashes and a key that is the prefix itself is not told apart from a child of its name.
   */
  lemma ReadDirExact(m: Files, prefix: string, now: Time)
    requires IsDirectoryPrefix(prefix)
    ensures OrderIndependent(m, prefix, now) <==> NoClash(m, prefix) && OwnApart(m, prefix)
  {
    hide IsDirectoryPrefix, ReadDir, EntryFor, HasPrefix, FirstBelow, Enumerates, OwnApart;
    if NoClash(m, prefix) && OwnApart(m, prefix) {
      forall a, b | Enumerates(a, m.Keys) && Enumerates(b, m.Keys) ensures SameListing(m, prefix, a, b, now) {
        ListingsAgree(m, prefix, a, b, now);
      }
    } else if !NoClash(m, prefix) {
      var name :| Clashes(m, prefix, name);
      ClashShows(m, prefix, name, now);
    } else {
      OwnShows(m, prefix, now);
    }
  }

  lemma ClashShows(m: Files, prefix: string, name: string, now: Time)
    requires IsDirectoryPrefix(prefix) && Clashes(m, prefix, name)
    ensures !OrderIndependent(m, prefix, now)
  {
    hide IsDirectoryPrefix, EntryFor, FirstBelow, Enumerates, FirstComponent, SortByName;
    var file := prefix + name;
    var below :| below in m && HasPrefix(below, file + "/");
    ClashingKeys(prefix, name, below);
    var a := OrderStarting(m.Keys, file);
    var b := OrderStarting(m.Keys, below);
    KeysOf(m, a);
    KeysOf(m, b);
    FirstChosen(m, prefix, below, b, now);
    EntryName(m, prefix, below, now);
    var e := EntryFor(m, prefix, below, now);
    FileHides(m, prefix, name, a, e, now);
    assert !SameListing(m, prefix, a, b, now);
  }

  /** With the file met first, no directory of its name is listed. */
  lemma FileHides(m: Files, prefix: string, name: string, order: seq<string>, e: DirEntry, now: Time)
    requires IsDirectoryPrefix(prefix) && prefix + name in m && '/' !in name && (forall k :: k in order ==> k in m)
    requires order != [] && order[0] == prefix + name && e.isDir && e.name == name
    ensures e !in ReadDir(m, prefix, order, now)
  {
    hide IsDirectoryPrefix, EntryFor, FirstBelow, SortByName;
    var file := prefix + name;
    FileFirst(m, prefix, name, now);
    SortedHasSame(Gather(m, prefix, order, {}, now));
    if e in Gather(m, prefix, order[1..], {} + {name}, now) {
      GatherFrom(m, prefix, order[1..], {} + {name}, now, e);
      var k :| k in order[1..] && HasPrefix(k, prefix) && FirstBelow(prefix, k) != name && e == EntryFor(m, prefix, k, now);
      assert k in order;
      if k == prefix {
        OwnEntry(m, prefix, now);
      } else {
        EntryName(m, prefix, k, now);
      }
    }
  }

  lemma FileFirst(m: Files, prefix: string, name: string, now: Time)
    requires IsDirectoryPrefix(prefix) && prefix + name in m && '/' !in name
    ensures HasPrefix(prefix + name, prefix) && FirstBelow(prefix, prefix + name) == name
    ensures !EntryFor(m, prefix, prefix + name, now).isDir
  {
    assert (prefix + name)[|prefix|..] == name;
    SplitSingle(name);
  }

  lemma ClashingKeys(prefix: string, name: string, below: string)
    requires '/' !in name && HasPrefix(below, prefix + name + "/")
    ensures HasPrefix(below, prefix) && below != prefix
    ensures '/' in below[|prefix|..] && FirstBelow(prefix, below) == name
  {
    hide Split;
    var rest := below[|prefix|..];
    var tail := below[|prefix + name + "/"|..];
    assert below == prefix + name + "/" + tail;
    assert rest == name + "/" + tail;
    assert rest[|name|] == '/';
    SplitConcat(name, tail);
    SplitSingle(name);
    assert Split(rest)[0] == name;
  }

  /** Two keys can come first, in either order. */
  lemma OrdersStarting(keys: set<string>, j: string, k: string) returns (rest: seq<string>)
    requires j in keys && k in keys && j != k
    ensures Enumerates([j, k] + rest, keys) && Enumerates([k, j] + rest, keys)
    ensures forall x :: x in rest ==> x in keys && x != j && x != k
  {
    rest := SomeOrder(keys - {j, k});
    assert keys - (keys - {j, k}) == {j, k};
    EnumeratesRest([j, k], rest, keys, keys - {j, k});
    EnumeratesRest([k, j], rest, keys, keys - {j, k});
  }

  /** A key that is the prefix itself and a child of its name: what is met first is listed first. */
  lemma OwnShows(m: Files, prefix: string, now: Time)
    requires IsDirectoryPrefix(prefix) && !OwnApart(m, prefix)
    ensures !OrderIndependent(m, prefix, now)
  {
    hide IsDirectoryPrefix, EntryFor, FirstBelow, PathBase, Enumerates, OrderIndependent;
    var k :| k in m && HasPrefix(k, prefix) && k != prefix && FirstBelow(prefix, k) == PathBase(prefix) &&
             !('/' !in k[|prefix|..] && |m[k].content| == |m[prefix].content| && m[k].modTime == m[prefix].modTime);
    var rest := OrdersStarting(m.Keys, prefix, k);
    ChildDiffers(m, prefix, k, now);
    OrderShows(m, prefix, k, rest, now);
  }

  lemma OrderShows(m: Files, prefix: string, k: string, rest: seq<string>, now: Time)
    requires IsDirectoryPrefix(prefix) && prefix in m && k in m && HasPrefix(k, prefix) && HasPrefix(prefix, prefix) && k != prefix
    requires FirstBelow(prefix, k) == PathBase(prefix)
    requires EntryFor(m, prefix, k, now) != EntryFor(m, prefix, prefix, now)
    requires Enumerates([prefix, k] + rest, m.Keys) && Enumerates([k, prefix] + rest, m.Keys)
    requires forall x :: x in rest ==> x in m && x != prefix
    ensures !OrderIndependent(m, prefix, now)
  {
    hide IsDirectoryPrefix, EntryFor, FirstBelow, PathBase, Named, SortByName, Enumerates, HasPrefix, Gather;
    var (a, b) := ([prefix, k] + rest, [k, prefix] + rest);
    KeysOf(m, a);
    KeysOf(m, b);
    OwnEntry(m, prefix, now);
    EntryName(m, prefix, k, now);
    var (own, child) := (EntryFor(m, prefix, prefix, now), EntryFor(m, prefix, k, now));
    FirstTwo(m, prefix, prefix, k, rest, now);
    FirstTwo(m, prefix, k, prefix, rest, now);
    assert [own, child][0] != [child, own][0];
    SortByNameCorrect(Gather(m, prefix, a, {}, now));
    SortByNameCorrect(Gather(m, prefix, b, {}, now));
    assert !SameListing(m, prefix, a, b, now);
  }

  lemma ChildDiffers(m: Files, prefix: string, k: string, now: Time)
    requires prefix in m && k in m && HasPrefix(k, prefix) && k != prefix && IsDirectoryPrefix(prefix)
    requires !('/' !in k[|prefix|..] && |m[k].content| == |m[prefix].content| && m[k].modTime == m[prefix].modTime)
    ensures EntryFor(m, prefix, k, now) != EntryFor(m, prefix, prefix, now)
  {
    hide FirstBelow, PathBase;
    OwnEntry(m, prefix, now);
  }

  /** Of two keys with one entry name that are met first, the entries stand in that order. */
  lemma FirstTwo(m: Files, prefix: string, j: string, k: string, rest: seq<string>, now: Time)
    requires prefix in m && IsDirectoryPrefix(prefix) && j in m && k in m && forall x :: x in rest ==> x in m && x != prefix
    requires HasPrefix(j, prefix) && HasPrefix(k, prefix) && j != k && (j == prefix || k == prefix)
    requires {FirstBelow(prefix, j), FirstBelow(prefix, k)} == {"", PathBase(prefix)}
    requires EntryFor(m, prefix, j, now).name == EntryFor(m, prefix, k, now).name == PathBase(prefix)
    ensures forall x :: x in [j, k] + rest ==> x in m
    ensures Named(Gather(m, prefix, [j, k] + rest, {}, now), PathBase(prefix)) ==
            [EntryFor(m, prefix, j, now), EntryFor(m, prefix, k, now)]
  {
    hide IsDirectoryPrefix, EntryFor, FirstBelow, HasPrefix, PathBase;
    var (name, order) := (PathBase(prefix), [j, k] + rest);
    OwnEntry(m, prefix, now);
    assert order[0] == j && order[1..] == [k] + rest && ([k] + rest)[1..] == rest;
    assert FirstBelow(prefix, j) != FirstBelow(prefix, k);
    var seen := {} + {FirstBelow(prefix, j)} + {FirstBelow(prefix, k)};
    var tail := Gather(m, prefix, rest, seen, now);
    var (ej, ek) := (EntryFor(m, prefix, j, now), EntryFor(m, prefix, k, now));
    assert Gather(m, prefix, [k] + rest, {} + {FirstBelow(prefix, j)}, now) == [ek] + tail;
    assert Gather(m, prefix, order, {}, now) == [ej] + ([ek] + tail) == [ej, ek] + tail;
    forall e | e in tail ensures e.name != name {
      GatherFrom(m, prefix, rest, seen, now, e);
      var x :| x in rest && HasPrefix(x, prefix) && FirstBelow(prefix, x) !in seen && e == EntryFor(m, prefix, x, now);
      EntryName(m, prefix, x, now);
    }
    NamedFront([ej, ek], tail, name);
    NamedTwo(ej, ek, name);
  }

  lemma {:induction false} NamedFront(front: seq<DirEntry>, tail: seq<DirEntry>, name: string)
    requires forall e :: e in tail ==> e.name != name
    ensures Named(front + tail, name) == Named(front, name)
    decreases |tail|
  {
    if tail == [] {
      assert front + tail == front;
    } else {
      var last := tail[|tail| - 1];
      assert (front + tail)[..|front + tail| - 1] == front + tail[..|tail| - 1];
      assert last in tail;
      NamedFront(front, tail[..|tail| - 1], name);
    }
  }

  lemma NamedTwo(e: DirEntry, f: DirEntry, name: string)
    requires e.name == name && f.name == name
    ensures Named([e, f], name) == [e, f]
  {
    assert [e, f][..1] == [e] && [e][..0] == [];
    assert Named([e], name) == Named([], name) + [e];
  }
}
