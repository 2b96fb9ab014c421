/**
 The in-memory node tree (go/node/node.go) as a value: a flat map from path to content,
 its rename in two phases, and its trip through a tar archive.  An archive is the sequence
 of its entries; the wire format is not modelled.
 */
module NodeState {
  import opened ByteStrings
  import opened Paths
  import opened PrefixMaps
  import opened Options

  type Time = int

  datatype FileValue = FileValue(content: Bytes, modTime: Time)

  type Files = map<string, FileValue>

  function Trimmed(path: string): string {
    TrimPrefix(path, "/")
  }

  function AddData(m: Files, name: string, content: Bytes, now: Time): Files {
    var key := Trimmed(name);
    if key == "" || HasSuffix(key, "/") then m else m[key := FileValue(content, now)]
  }

  /** A path names something to rename: a file, or a directory with something in it. */
  ghost predicate Renamable(m: Files, from: string) {
    from in m || exists k :: k in m && HasPrefix(k, from + "/")
  }

  function Rename(m: Files, from: string, to: string): Files {
    if from in m then MoveKey(m, from, to) else Substituted(m, from + "/", to + "/")
  }

  /** Nothing is stored at the path or below it. */
  ghost predicate Vacant(m: Files, path: string) {
    path !in m && forall k :: k in m ==> !HasPrefix(k, path + "/")
  }

  lemma FileBack(m: Files, from: string, to: string)
    requires from in m && to !in m
    ensures MoveKey(m, from, to).Keys == m.Keys - {from} + {to}
    ensures MoveKey(MoveKey(m, from, to), to, from) == m
  {
    var there := MoveKey(m, from, to);
    assert there[from := there[to]] - {to} == m;
  }

  /** A rename to an empty other path and back gives the tree back, nested paths included. */
  lemma RenameBack(m: Files, from: string, to: string)
    requires from != to && Vacant(m, to) && Renamable(m, from)
    ensures Rename(Rename(m, from, to), to, from) == m
  {
    if from in m {
      FileBack(m, from, to);
    } else {
      var there := Substituted(m, from + "/", to + "/");
      hide Substituted, IsDestination;
      SubstitutedAt(m, to, from + "/", to + "/");
      NotBelowItself(to, to);
      NotDestination(m, to, from + "/", to + "/");
      var back := Substituted(there, to + "/", from + "/");
      forall k ensures (k in back <==> k in m) && (k in m ==> back[k] == m[k]) {
        SubstitutedBackAt(m, from + "/", to + "/", k);
      }
    }
  }

  /** A renamed file arrives exactly when the two paths differ; renamed onto itself it is gone. */
  lemma RenameFileExact(m: Files, from: string, to: string)
    requires from in m
    ensures var r := Rename(m, from, to); from !in r && (to in r && r[to] == m[from] <==> from != to)
  {
  }

  lemma NotBelowItself(p: string, q: string)
    requires |p| <= |q|
    ensures !HasPrefix(p, q + "/")
  {
  }

  lemma NotDestination(m: Files, key: string, from: string, to: string)
    requires !HasPrefix(key, to)
    ensures !IsDestination(m, key, from, to)
  {
  }

  lemma SubstitutedBackAt(m: Files, from: string, to: string, k: string)
    requires forall x :: x in m ==> !HasPrefix(x, to)
    ensures var back := Substituted(Substituted(m, from, to), to, from);
            (k in back <==> k in m) && (k in m ==> back[k] == m[k])
  {
    hide Substituted;
    var there := Substituted(m, from, to);
    SubstitutedAt(m, k, from, to);
    SubstitutedAt(there, k, to, from);
    if HasPrefix(k, from) {
      var dest := Moved(k, from, to);
      MovedBack(k, from, to);
      SubstitutedAt(m, dest, from, to);
    }
  }

  // Archives

  datatype TarItem = Regular(name: string, content: Bytes, modTime: Time) | OtherKind | Corrupt

  /**
   What Go's tar writer accepts: no NUL in a name, and no content under a name that ends in a
   slash, for which it writes a directory header.
   */
  predicate Archivable(key: string, content: Bytes) {
    '\0' !in key && (HasSuffix(key, "/") ==> content == [])
  }

  function ItemFor(key: string, file: FileValue): TarItem {
    if HasSuffix(key, "/") then OtherKind else Regular(key, file.content, file.modTime)
  }

  /** One entry for each file, in the order `order` walks the map. */
  function Items(m: Files, order: seq<string>): seq<TarItem>
    requires forall k :: k in order ==> k in m
  {
    seq(|order|, i requires 0 <= i < |order| => assert order[i] in order; ItemFor(order[i], m[order[i]]))
  }

  /** The archive, or none when the tar writer refuses a file. */
  function ToTar(m: Files, order: seq<string>): Option<seq<TarItem>>
    requires forall k :: k in order ==> k in m
  {
    if forall k :: k in order ==> Archivable(k, m[k].content) then Some(Items(m, order)) else None
  }

  datatype Loaded = Ok(files: Files) | Failed

  /** Entries read one by one on top of `files`; the first unreadable one stops everything. */
  function Load(items: seq<TarItem>, files: Files): Loaded
    decreases |items|
  {
    if items == [] then Ok(files)
    else
      match items[0]
      case Corrupt => Failed
      case OtherKind => Load(items[1..], files)
      case Regular(name, content, modTime) =>
        var key := Trimmed(name);
        Load(items[1..], if key == "" || HasSuffix(key, "/") then files else files[key := FileValue(content, modTime)])
  }

  /** A key that comes back from an archive as it went in. */
  predicate TarSafe(key: string) {
    key != "" && !HasPrefix(key, "/") && !HasSuffix(key, "/") && '\0' !in key
  }

  function Keeps(key: string): bool {
    Trimmed(key) != "" && !HasSuffix(Trimmed(key), "/")
  }

  /** What loading an archive of `m` adds, one key at a time. */
  lemma LoadStep(m: Files, order: seq<string>, files: Files)
    requires forall k :: k in order ==> k in m
    ensures order == [] ==> Load(Items(m, order), files) == Ok(files)
    ensures order != [] ==>
              (forall k :: k in order[1..] ==> k in m) && order[0] in m &&
              Load(Items(m, order), files) ==
              Load(Items(m, order[1..]), if Keeps(order[0]) then files[Trimmed(order[0]) := m[order[0]]] else files)
  {
    if order != [] {
      assert order[0] in order;
      assert forall k :: k in order[1..] ==> k in order;
      assert Items(m, order)[1..] == Items(m, order[1..]);
      assert FileValue(m[order[0]].content, m[order[0]].modTime) == m[order[0]];
    }
  }

  lemma {:induction false} LoadSafe(m: Files, order: seq<string>, files: Files)
    requires forall k :: k in order ==> k in m && TarSafe(k)
    ensures var r := Load(Items(m, order), files);
            r.Ok? && forall k :: (k in r.files <==> k in files || k in order) &&
                                 (k in r.files ==> r.files[k] == if k in order then m[k] else files[k])
    decreases |order|
  {
    hide Load, Items;
    LoadStep(m, order, files);
    if order != [] {
      assert order[0] in order;
      assert forall k :: k in order <==> k == order[0] || k in order[1..];
      LoadSafe(m, order[1..], files[Trimmed(order[0]) := m[order[0]]]);
    }
  }

  /** Every key loaded comes from a key archived, by dropping one leading slash. */
  lemma {:induction false} LoadOrigin(m: Files, order: seq<string>, files: Files)
    requires forall k :: k in order ==> k in m
    ensures var r := Load(Items(m, order), files);
            r.Ok? && forall k :: k in r.files ==> k in files || CameFrom(order, k)
    decreases |order|
  {
    hide Load, Items, Keeps, Trimmed;
    LoadStep(m, order, files);
    if order != [] {
      assert order[0] in order;
      assert forall k :: k in order[1..] ==> k in order;
      LoadOrigin(m, order[1..], if Keeps(order[0]) then files[Trimmed(order[0]) := m[order[0]]] else files);
    }
  }

  ghost predicate CameFrom(order: seq<string>, key: string) {
    exists x :: x in order && Keeps(x) && Trimmed(x) == key
  }

  ghost predicate AllTarSafe(m: Files) {
    forall k :: k in m ==> TarSafe(k)
  }

  /** There is no archive, in whatever order, exactly when a key holds a NUL, or ends in a slash and has content. */
  lemma ToTarExact(m: Files, order: seq<string>)
    requires Enumerates(order, m.Keys)
    ensures ToTar(m, order).None? <==>
            exists k :: k in m && ('\0' in k || (HasSuffix(k, "/") && m[k].content != []))
  {
    hide Items, HasSuffix;
    KeysListed(m, order);
    if k :| k in m && ('\0' in k || (HasSuffix(k, "/") && m[k].content != [])) {
      assert k in order && !Archivable(k, m[k].content);
    }
  }

  lemma SafeComesBack(m: Files, order: seq<string>)
    requires Enumerates(order, m.Keys) && AllTarSafe(m)
    ensures ToTar(m, order).Some? && Load(ToTar(m, order).value, map[]) == Ok(m)
  {
    hide Load, Items, ToTar;
    ToTarExact(m, order);
    ToTarIs(m, order);
    LoadSafe(m, order, map[]);
    var files := Load(Items(m, order), map[]).files;
    assert forall k :: k in files <==> k in m;
    assert files == m;
  }

  lemma BackIsSafe(m: Files, order: seq<string>)
    requires Enumerates(order, m.Keys) && ToTar(m, order).Some? && Load(ToTar(m, order).value, map[]) == Ok(m)
    ensures AllTarSafe(m)
  {
    hide *;
    ToTarExact(m, order);
    AllTarSafeIs(m);
    KeysListed(m, order);
    ToTarIs(m, order);
    LoadOrigin(m, order, map[]);
    forall k | k in m ensures TarSafe(k) {
      assert '\0' !in k;
      OnlySafeSurvive(m, order, k, LongestKey(m.Keys));
    }
  }

  /**
   A tree can be archived and the archive gives it back, in whatever order it was written,
   exactly when every key is non-empty, with no leading and no trailing slash and no NUL.
   */
  lemma TarRoundTrip(m: Files, order: seq<string>)
    requires Enumerates(order, m.Keys)
    ensures ToTar(m, order).Some? && Load(ToTar(m, order).value, map[]) == Ok(m) <==> AllTarSafe(m)
  {
    hide *;
    KeysListed(m, order);
    if AllTarSafe(m) {
      SafeComesBack(m, order);
    }
    if ToTar(m, order).Some? && Load(ToTar(m, order).value, map[]) == Ok(m) {
      BackIsSafe(m, order);
    }
  }

  lemma ToTarIs(m: Files, order: seq<string>)
    requires (forall k :: k in order ==> k in m) && ToTar(m, order).Some?
    ensures ToTar(m, order).value == Items(m, order)
  {
  }

  lemma KeysListed(m: Files, order: seq<string>)
    requires Enumerates(order, m.Keys)
    ensures forall k :: k in order ==> k in m
  {
  }

  /** A bound on the length of the keys. */
  ghost function LongestKey(keys: set<string>): (n: nat)
    ensures forall k :: k in keys ==> |k| <= n
    decreases keys
  {
    if keys == {} then 0
    else
      var k :| k in keys;
      var rest := LongestKey(keys - {k});
      assert forall x :: x in keys ==> x == k || x in keys - {k};
      if |k| > rest then |k| else rest
  }

  lemma AllTarSafeIs(m: Files)
    ensures AllTarSafe(m) <==> forall k :: k in m ==> TarSafe(k)
  {
  }

  /** A key with a leading slash would need a longer one to come from, and so on. */
  lemma {:induction false} OnlySafeSurvive(m: Files, order: seq<string>, k: string, bound: nat)
    requires forall x :: x in m ==> |x| <= bound
    requires forall x :: x in order ==> x in m
    requires forall x :: x in m ==> CameFrom(order, x)
    requires k in m && '\0' !in k
    ensures TarSafe(k)
    decreases bound - |k|
  {
    hide CameFrom;
    var y := OriginOf(order, k);
    if HasPrefix(k, "/") {
      OnlySafeSurvive(m, order, y, bound);
    }
  }

  lemma OriginOf(order: seq<string>, k: string) returns (y: string)
    requires CameFrom(order, k)
    ensures y in order && k != "" && !HasSuffix(k, "/")
    ensures HasPrefix(k, "/") ==> HasPrefix(y, "/") && |y| == |k| + 1 && ('\0' in y ==> '\0' in k)
  {
    y :| y in order && Keeps(y) && Trimmed(y) == k;
  }

  /** A loading that fails names no files at all, so the caller keeps what it has. */
  lemma {:induction false} CorruptFails(items: seq<TarItem>, files: Files)
    ensures Load(items, files).Failed? <==> Corrupt in items
    decreases |items|
  {
    if items != [] {
      var rest := items[1..];
      assert items == [items[0]] + rest;
      match items[0]
      case Corrupt =>
      case OtherKind => CorruptFails(rest, files);
      case Regular(name, content, modTime) =>
        var key := Trimmed(name);
        CorruptFails(rest, if key == "" || HasSuffix(key, "/") then files else files[key := FileValue(content, modTime)]);
    }
  }
}
