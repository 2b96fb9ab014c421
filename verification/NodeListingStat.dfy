/**
 Whether a listing of the node tree says what `Stat` says (go/node/node.go): what the two make of a
 path differs where a name is empty, where a file is called `.` at the top, and where a file has
 something below it.
 */
module NodeListingStat {
  import opened Options
  import opened Paths
  import opened PrefixMaps
  import opened NodeState
  import opened DirEntries
  import opened MemoryListing
  import opened NodeListing
  import opened NodeListingOrder

  /** Every entry says what `Stat` says of the prefix and its name; the times of directories are those of the call. */
  ghost predicate AgreesWithStat(m: Files, prefix: string, entries: seq<DirEntry>, now: Time) {
    forall e :: e in entries ==> Stat(m, Key(prefix + e.name), now) == Some(e.info)
  }

  ghost predicate AgreesInOrder(m: Files, prefix: string, order: seq<string>, now: Time)
    requires Enumerates(order, m.Keys)
  {
    AgreesWithStat(m, prefix, ReadDir(m, prefix, order, now), now)
  }

  /** The path a caller asks `Stat` for, as `Stat` cleans it, when told the entry of key `k`. */
  function Asked(m: Files, prefix: string, k: string): string
    requires k in m && HasPrefix(k, prefix)
  {
    Key(prefix + EntryFor(m, prefix, k, 0).name)
  }

  /** At that path there is a file of the same size and time, or, for a directory entry with a name, a directory. */
  ghost predicate SeenByStat(m: Files, prefix: string, k: string)
    requires k in m && HasPrefix(k, prefix)
  {
    var p := Asked(m, prefix, k);
    if '/' !in k[|prefix|..] then p in m && |m[p].content| == |m[k].content| && m[p].modTime == m[k].modTime
    else FirstBelow(prefix, k) != "" && p !in m && (p == "" || exists j :: j in m && HasPrefix(j, p + "/"))
  }

  lemma TrimSlashFirst(p: string)
    ensures TrimTrailingSlashes("/" + p) == if TrimTrailingSlashes(p) == "" then "" else "/" + TrimTrailingSlashes(p)
  {
    if p != "" && p[|p| - 1] == '/' {
      TrimSlashFirst(p[..|p| - 1]);
      assert ("/" + p)[..|p|] == "/" + p[..|p| - 1];
    } else if p == "" {
      assert ("/" + p)[..0] == "";
      assert TrimTrailingSlashes("") == "";
    }
  }

  lemma DirPartSlashFirst(p: string)
    ensures DirPart("/" + p) == "/" + DirPart(p)
  {
    if p == "" {
      assert "/" + p == "/";
    } else if p[|p| - 1] != '/' {
      DirPartSlashFirst(p[..|p| - 1]);
      assert ("/" + p)[..|p|] == "/" + p[..|p| - 1];
    }
  }

  lemma BaseSlashFirst(p: string)
    requires p != ""
    ensures PathBase("/" + p) == PathBase(p)
  {
    hide TrimTrailingSlashes, DirPart;
    TrimSlashFirst(p);
    var t := TrimTrailingSlashes(p);
    DirPartSlashFirst(t);
    NoSlashAfterDirPart(t);
    assert ("/" + t)[1 + |DirPart(t)|..] == t[|DirPart(t)|..];
  }

  /** Cleaning the asked path does not change its base. */
  lemma BaseOfKey(p: string)
    requires p != "/"
    ensures PathBase(Key(p)) == PathBase(p)
  {
    hide PathBase;
    DotBase();
    if HasPrefix(p, "/") {
      assert p == "/" + p[1..];
      BaseSlashFirst(p[1..]);
    }
  }

  lemma DotBase()
    ensures PathBase(".") == "." && PathBase("") == "."
  {
    assert DirPart(".") == "";
  }

  /** The entry of a key and `Stat` of its path agree exactly when the path shows the same kind of thing. */
  lemma EntryAgreesExact(m: Files, prefix: string, k: string, now: Time)
    requires k in m && HasPrefix(k, prefix) && IsDirectoryPrefix(prefix)
    ensures var e := EntryFor(m, prefix, k, now);
            Stat(m, Key(prefix + e.name), now) == Some(e.info) <==> SeenByStat(m, prefix, k)
  {
    hide IsDirectoryPrefix, PathBase, Key, FirstBelow;
    var e := EntryFor(m, prefix, k, now);
    var x := prefix + e.name;
    EntryNames(m, prefix, k, now);
    PathBaseNotEmpty(Key(x));
    DotBase();
    if e.name != "" {
      AskedBase(m, prefix, k, now);
    }
  }

  lemma EntryNames(m: Files, prefix: string, k: string, now: Time)
    requires k in m && HasPrefix(k, prefix)
    ensures EntryFor(m, prefix, k, now).name == EntryFor(m, prefix, k, 0).name
    ensures EntryFor(m, prefix, k, now).info.name == EntryFor(m, prefix, k, now).name
    ensures '/' !in k[|prefix|..] ==> EntryFor(m, prefix, k, now).name == PathBase(k) != ""
  {
    hide PathBase, FirstBelow;
    PathBaseNotEmpty(k);
  }

  /** The base of the path asked is the name of the entry. */
  lemma AskedBase(m: Files, prefix: string, k: string, now: Time)
    requires k in m && HasPrefix(k, prefix) && IsDirectoryPrefix(prefix)
    requires EntryFor(m, prefix, k, now).name != ""
    ensures PathBase(Key(prefix + EntryFor(m, prefix, k, now).name)) == EntryFor(m, prefix, k, now).name
  {
    hide Key, PathBase, FirstBelow, EntryFor;
    var name := EntryFor(m, prefix, k, now).name;
    if k == prefix {
      OwnEntry(m, prefix, now);
      OwnAsked(prefix);
    } else {
      EntryName(m, prefix, k, now);
      BaseBelow(prefix, name);
      assert prefix + name != "/" by {
        assert (prefix + name)[|prefix + name| - 1] == name[|name| - 1] && name[|name| - 1] in name;
      }
    }
    BaseOfKey(prefix + name);
  }

  /** Below a directory the path of its own base has the same base, slashes alone included. */
  lemma OwnAsked(prefix: string)
    requires IsDirectoryPrefix(prefix)
    ensures prefix + PathBase(prefix) != "/" && PathBase(prefix + PathBase(prefix)) == PathBase(prefix)
  {
    hide TrimTrailingSlashes, DirPart, PathBase;
    if prefix == "" {
      DotBase();
      assert "" + "." == ".";
    } else if TrimTrailingSlashes(prefix) == "" {
      AllSlashes(prefix);
    } else {
      OwnBase(prefix);
      var name := PathBase(prefix);
      BaseBelow(prefix, name);
      assert (prefix + name)[|prefix + name| - 1] == name[|name| - 1] && name[|name| - 1] in name;
    }
  }

  lemma OwnBase(prefix: string)
    requires prefix != "" && TrimTrailingSlashes(prefix) != ""
    ensures PathBase(prefix) != "" && '/' !in PathBase(prefix)
  {
    hide TrimTrailingSlashes, DirPart;
    var t := TrimTrailingSlashes(prefix);
    TrimmedEnd(prefix);
    NoSlashAfterDirPart(t);
    DirPartShort(t);
  }

  lemma AllSlashes(p: string)
    requires p != "" && TrimTrailingSlashes(p) == ""
    ensures PathBase(p) == "/" && PathBase(p + "/") == "/" && p + "/" != "/"
  {
    assert (p + "/")[..|p|] == p;
    assert TrimTrailingSlashes(p + "/") == TrimTrailingSlashes(p);
  }

  lemma NoSlashAfterDirPart(p: string)
    ensures |DirPart(p)| <= |p| && '/' !in p[|DirPart(p)|..]
  {
    if p != "" && p[|p| - 1] != '/' {
      NoSlashAfterDirPart(p[..|p| - 1]);
      assert p[|DirPart(p)|..] == p[..|p| - 1][|DirPart(p)|..] + [p[|p| - 1]];
    }
  }

  /**
   For every node tree: the entries agree with `Stat` in every order of the map exactly when,
   for each key under the prefix, the path asked shows the same kind of thing.
   */
  lemma ReadDirMatchesStat(m: Files, prefix: string, now: Time)
    requires IsDirectoryPrefix(prefix)
    ensures (forall order :: Enumerates(order, m.Keys) ==> AgreesInOrder(m, prefix, order, now)) <==>
            forall k :: k in m && HasPrefix(k, prefix) ==> SeenByStat(m, prefix, k)
  {
    hide IsDirectoryPrefix, ReadDir, EntryFor, FirstBelow, Enumerates, Stat, HasPrefix, SeenByStat, Key;
    if forall order :: Enumerates(order, m.Keys) ==> AgreesInOrder(m, prefix, order, now) {
      forall k | k in m && HasPrefix(k, prefix) ensures SeenByStat(m, prefix, k) {
        var order := OrderStarting(m.Keys, k);
        KeysOf(m, order);
        FirstChosen(m, prefix, k, order, now);
        assert AgreesInOrder(m, prefix, order, now);
        EntryAgreesExact(m, prefix, k, now);
      }
    }
    if forall k :: k in m && HasPrefix(k, prefix) ==> SeenByStat(m, prefix, k) {
      forall order | Enumerates(order, m.Keys) ensures AgreesInOrder(m, prefix, order, now) {
        AllAgree(m, prefix, order, now);
      }
    }
  }

  lemma AllAgree(m: Files, prefix: string, order: seq<string>, now: Time)
    requires IsDirectoryPrefix(prefix) && Enumerates(order, m.Keys)
    requires forall k :: k in m && HasPrefix(k, prefix) ==> SeenByStat(m, prefix, k)
    ensures AgreesInOrder(m, prefix, order, now)
  {
    hide IsDirectoryPrefix, EntryFor, FirstBelow, Enumerates, Stat, HasPrefix, SeenByStat, Key, SortByName;
    KeysOf(m, order);
    SortedHasSame(Gather(m, prefix, order, {}, now));
    forall e | e in ReadDir(m, prefix, order, now) ensures Stat(m, Key(prefix + e.name), now) == Some(e.info) {
      GatherFrom(m, prefix, order, {}, now, e);
      var k :| k in order && HasPrefix(k, prefix) && e == EntryFor(m, prefix, k, now);
      EntryAgreesExact(m, prefix, k, now);
    }
  }

  /** No component of a key is empty at the place the listing looks. */
  predicate NoEmptyNames(m: Files, prefix: string) {
    forall k :: k in m && HasPrefix(k, prefix) ==> FirstBelow(prefix, k) != ""
  }

  /**
   For a prefix that does not start with a slash, and is no key itself, that is so exactly when no
   name clashes, none is empty, and, at the top, no file is called `.`.
   */
  lemma ReadDirMatchesStatPlain(m: Files, prefix: string, now: Time)
    requires IsDirectoryPrefix(prefix) && !HasPrefix(prefix, "/") && prefix !in m
    ensures (forall order :: Enumerates(order, m.Keys) ==> AgreesInOrder(m, prefix, order, now)) <==>
            NoClash(m, prefix) && NoEmptyNames(m, prefix) && (prefix == "" ==> "." !in m)
  {
    hide IsDirectoryPrefix, AgreesInOrder, Enumerates, SeenByStat, FirstBelow, HasPrefix, NoClash, NoEmptyNames;
    ReadDirMatchesStat(m, prefix, now);
    if forall k :: k in m && HasPrefix(k, prefix) ==> SeenByStat(m, prefix, k) {
      PlainNeeds(m, prefix);
    }
    if NoClash(m, prefix) && NoEmptyNames(m, prefix) && (prefix == "" ==> "." !in m) {
      forall k | k in m && HasPrefix(k, prefix) ensures SeenByStat(m, prefix, k) {
        PlainSeen(m, prefix, k);
      }
    }
  }

  lemma PlainKey(prefix: string, name: string)
    requires !HasPrefix(prefix, "/") && name != "" && '/' !in name && (prefix == "" || HasSuffix(prefix, "/"))
    ensures Key(prefix + name) == if prefix == "" && name == "." then "" else prefix + name
  {
    var x := prefix + name;
    assert x[0] == if prefix == "" then name[0] else prefix[0];
    assert name[0] in name;
    assert prefix != "" ==> prefix[..1] == [prefix[0]] && "/" == ['/'];
    if prefix != "" {
      assert '/' in prefix by { assert prefix[|prefix| - 1] == '/'; }
      assert x[|prefix| - 1] == '/';
    }
  }

  lemma PlainSeen(m: Files, prefix: string, k: string)
    requires IsDirectoryPrefix(prefix) && !HasPrefix(prefix, "/") && prefix !in m && k in m && HasPrefix(k, prefix)
    requires NoClash(m, prefix) && NoEmptyNames(m, prefix) && (prefix == "" ==> "." !in m)
    ensures SeenByStat(m, prefix, k)
  {
    hide FirstBelow, EntryFor, Key;
    var name := FirstBelow(prefix, k);
    EntryName(m, prefix, k, 0);
    PlainKey(prefix, name);
    assert !Clashes(m, prefix, name);
  }

  lemma PlainNeeds(m: Files, prefix: string)
    requires IsDirectoryPrefix(prefix) && !HasPrefix(prefix, "/") && prefix !in m
    requires forall k :: k in m && HasPrefix(k, prefix) ==> SeenByStat(m, prefix, k)
    ensures NoClash(m, prefix) && NoEmptyNames(m, prefix) && (prefix == "" ==> "." !in m)
  {
    hide FirstBelow, EntryFor, Key, FirstComponent;
    forall k | k in m && HasPrefix(k, prefix) ensures FirstBelow(prefix, k) != "" {
      assert SeenByStat(m, prefix, k);
      EntryName(m, prefix, k, 0);
    }
    forall name ensures !Clashes(m, prefix, name) {
      if Clashes(m, prefix, name) {
        var below :| below in m && HasPrefix(below, prefix + name + "/");
        ClashingKeys(prefix, name, below);
        assert SeenByStat(m, prefix, below);
        EntryName(m, prefix, below, 0);
        PlainKey(prefix, name);
        DotNeeds(m, prefix, name);
      }
    }
    assert "" + "." == ".";
    DotNeeds(m, prefix, ".");
  }

  /** A file called `.` at the top would show where `Stat` shows the root. */
  lemma DotNeeds(m: Files, prefix: string, name: string)
    requires prefix !in m && IsDirectoryPrefix(prefix) && '/' !in name
    requires forall k :: k in m && HasPrefix(k, prefix) ==> SeenByStat(m, prefix, k)
    ensures prefix == "" && name == "." ==> prefix + name !in m
  {
    hide FirstBelow, EntryFor, Key, FirstComponent;
    if prefix == "" && name == "." && prefix + name in m {
      var k := prefix + name;
      assert k == "." && HasPrefix(k, prefix) && k[|prefix|..] == ".";
      assert SeenByStat(m, prefix, k);
      EntryName(m, prefix, k, 0);
      PlainKey(prefix, FirstBelow(prefix, k));
    }
  }
}
