/**
 Renaming every key of a map that starts with one prefix to start with another: all keys at once
 (`Substituted`), or one key after the other in some order (`MoveAll`).  The two agree in every
 order exactly when no key to be moved goes where another key to be moved still is, which is so
 in particular when neither prefix starts with the other.
 */
module PrefixMaps {
  import opened Paths

  /** The new key of a key that starts with `from`. */
  function Moved(key: string, from: string, to: string): string
    requires HasPrefix(key, from)
  {
    to + key[|from|..]
  }

  function Renamed(key: string, from: string, to: string): string {
    if HasPrefix(key, from) then Moved(key, from, to) else key
  }

  /** The key that a renaming sends to `key`. */
  function Origin(key: string, from: string, to: string): string
    requires HasPrefix(key, to)
  {
    Moved(key, to, from)
  }

  lemma MovedBack(key: string, from: string, to: string)
    requires HasPrefix(key, from)
    ensures HasPrefix(Moved(key, from, to), to)
    ensures Moved(Moved(key, from, to), to, from) == key
  {
    assert key == from + key[|from|..];
    assert (to + key[|from|..])[|to|..] == key[|from|..];
  }

  /** `key` is where some key of `m` that starts with `from` goes. */
  predicate IsDestination<V>(m: map<string, V>, key: string, from: string, to: string) {
    HasPrefix(key, to) && HasPrefix(Origin(key, from, to), from) && Origin(key, from, to) in m
  }

  /**
   Simultaneous substitution of the prefix.  A moved entry wins over an entry that was
   already at its destination; everything without the old prefix otherwise stays.
   */
  function Substituted<V>(m: map<string, V>, from: string, to: string): map<string, V> {
    map k | k in (set x | x in m :: Renamed(x, from, to)) ::
      if IsDestination(m, k, from, to) then m[Origin(k, from, to)]
      else SubstitutedStays(m, k, from, to); m[k]
  }

  lemma SubstitutedStays<V>(m: map<string, V>, k: string, from: string, to: string)
    requires k in (set x | x in m :: Renamed(x, from, to))
    requires !IsDestination(m, k, from, to)
    ensures k in m && !HasPrefix(k, from)
  {
    var x :| x in m && k == Renamed(x, from, to);
    if HasPrefix(x, from) {
      MovedBack(x, from, to);
    }
  }

  /** What the substituted map holds, key by key. */
  lemma SubstitutedAt<V>(m: map<string, V>, key: string, from: string, to: string)
    ensures IsDestination(m, key, from, to) ==>
              key in Substituted(m, from, to) && Substituted(m, from, to)[key] == m[Origin(key, from, to)]
    ensures !IsDestination(m, key, from, to) && HasPrefix(key, from) ==> key !in Substituted(m, from, to)
    ensures !IsDestination(m, key, from, to) && !HasPrefix(key, from) ==>
              (key in Substituted(m, from, to) <==> key in m) &&
              (key in m ==> Substituted(m, from, to)[key] == m[key])
  {
    var image := set x | x in m :: Renamed(x, from, to);
    if IsDestination(m, key, from, to) {
      MovedBack(key, to, from);
      assert Renamed(Origin(key, from, to), from, to) == key;
      assert key in image;
    } else {
      if key in image {
        SubstitutedStays(m, key, from, to);
      }
      if key in m && !HasPrefix(key, from) {
        assert Renamed(key, from, to) == key;
      }
    }
  }

  /** Go's `m[to] = m[from]; delete(m, from)` under the test that `from` is present. */
  function MoveKey<V>(m: map<string, V>, from: string, to: string): map<string, V> {
    if from in m then m[to := m[from]] - {from} else m
  }

  /** The keys of `order` moved one after the other. */
  function MoveAll<V>(m: map<string, V>, order: seq<string>, from: string, to: string): map<string, V>
    requires forall k :: k in order ==> HasPrefix(k, from)
    decreases |order|
  {
    if order == [] then m
    else
      assert order[0] in order;
      MoveAll(MoveKey(m, order[0], Moved(order[0], from, to)), order[1..], from, to)
  }

  predicate Distinct(order: seq<string>) {
    forall i, j | 0 <= i < j < |order| :: order[i] != order[j]
  }

  /** `order` lists the elements of `s`, each once: one way a Go map can be walked. */
  ghost predicate Enumerates(order: seq<string>, s: set<string>) {
    (forall k :: k in order <==> k in s) && Distinct(order)
  }

  lemma EnumeratesNone()
    ensures Enumerates([], {})
  {
  }

  lemma EnumeratesNext(order: seq<string>, s: set<string>, key: string)
    requires Enumerates(order, s) && key !in s
    ensures Enumerates(order + [key], s + {key})
  {
    forall i, j | 0 <= i < j < |order| + 1 ensures (order + [key])[i] != (order + [key])[j] {
      assert order != [] ==> order[i] in order;
    }
  }

  lemma EnumeratesRest(order: seq<string>, rest: seq<string>, all: set<string>, pending: set<string>)
    requires pending <= all && Enumerates(order, all - pending) && Enumerates(rest, pending)
    ensures Enumerates(order + rest, all)
  {
    var whole := order + rest;
    forall i, j | 0 <= i < j < |whole| ensures whole[i] != whole[j] {
      if i < |order| <= j {
        assert order[i] in order && rest[j - |order|] in rest;
      }
    }
  }

  /** A finite set can be listed. */
  lemma {:induction false} SomeOrder(s: set<string>) returns (order: seq<string>)
    ensures Enumerates(order, s)
  {
    if s == {} {
      order := [];
    } else {
      var k :| k in s;
      var rest := SomeOrder(s - {k});
      EnumeratesNext(rest, s - {k}, k);
      assert s - {k} + {k} == s;
      order := rest + [k];
    }
  }

  predicate Incomparable(a: string, b: string) {
    !HasPrefix(a, b) && !HasPrefix(b, a)
  }

  lemma PrefixesComparable(key: string, a: string, b: string)
    requires HasPrefix(key, a) && HasPrefix(key, b)
    ensures !Incomparable(a, b)
  {
    if |a| <= |b| {
      assert b[..|a|] == key[..|b|][..|a|] == a;
    } else {
      assert a[..|b|] == key[..|a|][..|b|] == b;
    }
  }

  lemma IncomparableApart(key: string, a: string, b: string)
    requires Incomparable(a, b) && HasPrefix(key, a)
    ensures !HasPrefix(key, b)
  {
    hide HasPrefix, Incomparable;
    if HasPrefix(key, b) {
      PrefixesComparable(key, a, b);
    }
  }

  /** No key to be moved goes where another key to be moved still is; a key may not stay where it is either. */
  predicate Unchained(keys: set<string>, from: string, to: string) {
    forall k :: k in keys && HasPrefix(k, from) ==> !(Moved(k, from, to) in keys && HasPrefix(Moved(k, from, to), from))
  }

  lemma IncomparableUnchained(keys: set<string>, from: string, to: string)
    requires Incomparable(from, to)
    ensures Unchained(keys, from, to)
  {
    forall k | k in keys && HasPrefix(k, from) ensures !HasPrefix(Moved(k, from, to), from) {
      MovedBack(k, from, to);
      IncomparableApart(Moved(k, from, to), to, from);
    }
  }

  /** A move puts one prefix in the place of the other. */
  lemma MovedRest(from: string, to: string, rest: string)
    ensures HasPrefix(from + rest, from) && Moved(from + rest, from, to) == to + rest
  {
  }

  /** The substitution, said of what follows the prefixes. */
  lemma SubstitutedMeans<V>(m: map<string, V>, from: string, to: string, rest: string, key: string)
    ensures from + rest in m ==> to + rest in Substituted(m, from, to) && Substituted(m, from, to)[to + rest] == m[from + rest]
    ensures !HasPrefix(key, from) && !HasPrefix(key, to) ==>
              (key in Substituted(m, from, to) <==> key in m) && (key in m ==> Substituted(m, from, to)[key] == m[key])
    ensures key in Substituted(m, from, to) ==>
              (key in m && !HasPrefix(key, from)) || (HasPrefix(key, to) && from + key[|to|..] in m)
  {
    hide Substituted;
    MovedRest(from, to, rest);
    MovedRest(to, from, rest);
    SubstitutedAt(m, to + rest, from, to);
    SubstitutedAt(m, key, from, to);
  }

  // What any order leaves, chained moves included

  ghost predicate ArrivesFrom(order: seq<string>, from: string, to: string, key: string)
    requires forall k :: k in order ==> HasPrefix(k, from)
  {
    exists k :: k in order && Moved(k, from, to) == key
  }

  /** The keys after the first one are still there, in a shorter list. */
  lemma RestOfOrder<V>(m: map<string, V>, order: seq<string>, from: string, to: string)
    requires order != [] && Distinct(order) && forall k :: k in order ==> HasPrefix(k, from) && k in m
    ensures Distinct(order[1..]) && forall k :: k in order <==> k == order[0] || k in order[1..]
    ensures HasPrefix(order[0], from) && order[0] !in order[1..]
    ensures forall k :: k in order[1..] ==> HasPrefix(k, from) && k in MoveKey(m, order[0], Moved(order[0], from, to))
  {
    hide HasPrefix, Moved;
    forall k | k in order[1..] ensures k != order[0] && k in order {
      var i :| 0 <= i < |order[1..]| && order[1..][i] == k;
      assert order[i + 1] == k;
    }
  }

  /** A key is there at the end only if it never moved or something moved there; and it is, unless it moves itself. */
  lemma {:induction false} MoveAllHas<V>(m: map<string, V>, order: seq<string>, from: string, to: string, key: string)
    requires Distinct(order) && forall k :: k in order ==> HasPrefix(k, from) && k in m
    ensures var r := MoveAll(m, order, from, to);
            (key in r ==> (key in m && key !in order) || ArrivesFrom(order, from, to, key)) &&
            (key !in order && (key in m || ArrivesFrom(order, from, to, key)) ==> key in r)
    decreases |order|
  {
    hide HasPrefix, Moved, Distinct;
    if order != [] {
      var (first, rest) := (order[0], order[1..]);
      RestOfOrder(m, order, from, to);
      MoveAllHas(MoveKey(m, first, Moved(first, from, to)), rest, from, to, key);
      if ArrivesFrom(rest, from, to, key) {
        var k :| k in rest && Moved(k, from, to) == key;
        assert k in order;
      }
    }
  }

  /** What moves to the key after the key itself has moved, if it does, stays there. */
  lemma {:induction false} ArrivesLate<V>(m: map<string, V>, order: seq<string>, from: string, to: string, i: nat, key: string)
    requires Distinct(order) && (forall k :: k in order ==> HasPrefix(k, from) && k in m) && i < |order|
    requires order[i] in order && Moved(order[i], from, to) == key && key !in order[i..]
    ensures key in MoveAll(m, order, from, to)
    decreases |order|
  {
    hide HasPrefix, Moved, Distinct;
    var (first, rest) := (order[0], order[1..]);
    RestOfOrder(m, order, from, to);
    var next := MoveKey(m, first, Moved(first, from, to));
    if i == 0 {
      assert order[0..] == order;
      MoveAllHas(next, rest, from, to, key);
    } else {
      assert rest[i - 1] == order[i] && rest[i - 1..] == order[i..];
      assert rest[i - 1] in rest;
      ArrivesLate(next, rest, from, to, i - 1, key);
    }
  }

  /** A key that moves, with nothing moving to it later, is gone. */
  lemma {:induction false} GoneLate<V>(m: map<string, V>, order: seq<string>, from: string, to: string, i: nat)
    requires Distinct(order) && (forall k :: k in order ==> HasPrefix(k, from) && k in m) && i < |order|
    requires forall k :: k in order[i + 1..] ==> k in order && Moved(k, from, to) != order[i]
    ensures order[i] !in MoveAll(m, order, from, to)
    decreases |order|
  {
    hide HasPrefix, Moved, Distinct;
    var (first, rest) := (order[0], order[1..]);
    RestOfOrder(m, order, from, to);
    var next := MoveKey(m, first, Moved(first, from, to));
    if i == 0 {
      assert order[0 + 1..] == rest;
      MoveAllHas(next, rest, from, to, first);
    } else {
      assert rest[i - 1] == order[i] && rest[i - 1 + 1..] == order[i + 1..];
      GoneLate(next, rest, from, to, i - 1);
    }
  }

  /** When all the keys with the prefix move: which are there at the end, whatever the order. */
  lemma MoveAllBounds<V>(m: map<string, V>, order: seq<string>, from: string, to: string, key: string)
    requires Enumerates(order, set k | k in m && HasPrefix(k, from))
    ensures var (r, arrives) := (MoveAll(m, order, from, to), HasPrefix(key, to) && Origin(key, from, to) in m);
            (key in r ==> arrives || (key in m && !HasPrefix(key, from))) &&
            ((arrives || key in m) && !(key in m && HasPrefix(key, from)) ==> key in r)
  {
    MoveAllHas(m, order, from, to, key);
    if ArrivesFrom(order, from, to, key) {
      var k :| k in order && Moved(k, from, to) == key;
      MovedBack(k, from, to);
    }
    if HasPrefix(key, to) && Origin(key, from, to) in m {
      MovedBack(key, to, from);
      assert Origin(key, from, to) in order;
    }
  }

  /** An order in which the given keys come first. */
  lemma OrderWith(front: seq<string>, keys: set<string>) returns (rest: seq<string>)
    requires Distinct(front) && forall k :: k in front ==> k in keys
    ensures Enumerates(front + rest, keys) && forall k :: k in rest <==> k in keys && k !in front
  {
    var first := set k | k in front;
    rest := SomeOrder(keys - first);
    assert keys - (keys - first) == first;
    EnumeratesRest(front, rest, keys, keys - first);
  }

  /** Only one key moves to a place. */
  lemma OneMovesThere(from: string, to: string, a: string, b: string)
    requires HasPrefix(a, from) && HasPrefix(b, from) && Moved(a, from, to) == Moved(b, from, to)
    ensures a == b
  {
    MovedBack(a, from, to);
    MovedBack(b, from, to);
  }

  lemma LateArrives<V>(m: map<string, V>, front: seq<string>, rest: seq<string>, from: string, to: string, moving: string)
    requires Enumerates(front + rest, set k | k in m && HasPrefix(k, from))
    requires moving in rest && HasPrefix(moving, from) && Moved(moving, from, to) !in rest
    ensures Moved(moving, from, to) in MoveAll(m, front + rest, from, to)
  {
    hide HasPrefix, Moved;
    var order := front + rest;
    var i :| 0 <= i < |rest| && rest[i] == moving;
    assert order[|front| + i] == moving && order[|front| + i..] == rest[i..];
    assert moving in order;
    ArrivesLate(m, order, from, to, |front| + i, Moved(moving, from, to));
  }

  /** An order in which `moving` arrives for good. */
  lemma LateOrder<V>(m: map<string, V>, from: string, to: string, moving: string) returns (order: seq<string>)
    requires moving in m && HasPrefix(moving, from) && Moved(moving, from, to) != moving
    ensures Enumerates(order, set k | k in m && HasPrefix(k, from))
    ensures Moved(moving, from, to) in MoveAll(m, order, from, to)
  {
    hide HasPrefix, Moved;
    var keys := set k | k in m && HasPrefix(k, from);
    var q := Moved(moving, from, to);
    var front := if q in keys then [q] else [];
    var rest := OrderWith(front, keys);
    order := front + rest;
    LateArrives(m, front, rest, from, to, moving);
  }

  /** An order in which what `first` moves to is lost, and `moving`, if it is a key, arrives for good. */
  lemma LosingOrder<V>(m: map<string, V>, from: string, to: string, first: string, moving: string)
    returns (order: seq<string>)
    requires first in m && HasPrefix(first, from)
    requires var gone := Moved(first, from, to); gone in m && HasPrefix(gone, from) && gone != first
    requires moving in m ==>
               HasPrefix(moving, from) && moving != first && moving != Moved(first, from, to) &&
               Moved(moving, from, to) != moving && Moved(moving, from, to) != Moved(first, from, to)
    ensures Enumerates(order, set k | k in m && HasPrefix(k, from))
    ensures Moved(first, from, to) !in MoveAll(m, order, from, to)
    ensures moving in m ==> Moved(moving, from, to) in MoveAll(m, order, from, to)
  {
    hide HasPrefix, Moved;
    var keys := set k | k in m && HasPrefix(k, from);
    var gone := Moved(first, from, to);
    var front := if moving in m && Moved(moving, from, to) in keys && Moved(moving, from, to) != first
      then [Moved(moving, from, to), first, gone] else [first, gone];
    assert first in front && gone in front;
    var rest := OrderWith(front, keys);
    order := front + rest;
    if moving in m {
      LateArrives(m, front, rest, from, to, moving);
    }
    var i := |front| - 1;
    assert order[i] == gone && order[i + 1..] == rest;
    forall k | k in rest ensures k in order && Moved(k, from, to) != gone {
      if Moved(k, from, to) == gone {
        OneMovesThere(from, to, k, first);
      }
    }
    GoneLate(m, order, from, to, i);
  }

  lemma {:induction false} MoveAllAt<V>(m: map<string, V>, order: seq<string>, from: string, to: string, key: string)
    requires forall k :: k in order ==> HasPrefix(k, from) && k in m && Moved(k, from, to) !in order
    requires forall i, j | 0 <= i < j < |order| :: order[i] != order[j]
    ensures var r := MoveAll(m, order, from, to);
            if HasPrefix(key, to) && Origin(key, from, to) in order then key in r && r[key] == m[Origin(key, from, to)]
            else if key in order then key !in r
            else (key in r <==> key in m) && (key in m ==> r[key] == m[key])
    decreases |order|
  {
    hide HasPrefix;
    if order != [] {
      var first := order[0];
      assert first in order;
      var dest := Moved(first, from, to);
      MovedBack(first, from, to);
      var next := MoveKey(m, first, dest);
      forall k | k in order[1..] ensures HasPrefix(k, from) && k in next && Moved(k, from, to) !in order[1..] {
        assert k in order;
        var i :| 0 <= i < |order[1..]| && order[1..][i] == k;
        assert order[i + 1] == k != first;
      }
      MoveAllAt(next, order[1..], from, to, key);
      assert order == [first] + order[1..];
      if HasPrefix(key, to) {
        var origin := Origin(key, from, to);
        MovedBack(key, to, from);
        if origin in order[1..] {
          assert origin in order;
        } else if origin == first {
          assert key == dest;
        }
      }
    }
  }

  /** When no move runs into another, every order of single moves is the substitution. */
  lemma MoveAllSubstitutes<V>(m: map<string, V>, order: seq<string>, from: string, to: string)
    requires Unchained(m.Keys, from, to)
    requires Enumerates(order, set k | k in m && HasPrefix(k, from))
    ensures MoveAll(m, order, from, to) == Substituted(m, from, to)
  {
    hide HasPrefix, Substituted;
    var a, b := MoveAll(m, order, from, to), Substituted(m, from, to);
    assert forall k :: k in m <==> k in m.Keys;
    forall key ensures (key in a <==> key in b) && (key in a ==> a[key] == b[key]) {
      MoveAllAt(m, order, from, to, key);
      SubstitutedAt(m, key, from, to);
      if HasPrefix(key, to) {
        MovedBack(key, to, from);
      }
    }
  }

  /** A key that is gone does not come back when the only key that goes there was moved before. */
  lemma {:induction false} MovedAway<V>(m: map<string, V>, order: seq<string>, from: string, to: string, key: string)
    requires key !in m
    requires forall k :: k in order ==> HasPrefix(k, from) && Moved(k, from, to) != key
    ensures key !in MoveAll(m, order, from, to)
    decreases |order|
  {
    if order != [] {
      assert order[0] in order;
      MovedAway(MoveKey(m, order[0], Moved(order[0], from, to)), order[1..], from, to, key);
    }
  }

  lemma MovedApart(a: string, b: string, from: string, to: string)
    requires HasPrefix(a, from) && HasPrefix(b, from) && a != b
    ensures Moved(a, from, to) != Moved(b, from, to)
  {
    MovedBack(a, from, to);
    MovedBack(b, from, to);
  }

  /** When a move runs into another, some order loses a key. */
  lemma ChainLoses<V>(m: map<string, V>, from: string, to: string) returns (order: seq<string>)
    requires !Unchained(m.Keys, from, to)
    ensures Enumerates(order, set k | k in m && HasPrefix(k, from))
    ensures MoveAll(m, order, from, to) != Substituted(m, from, to)
  {
    hide HasPrefix, Substituted;
    var k :| k in m && HasPrefix(k, from) && Moved(k, from, to) in m && HasPrefix(Moved(k, from, to), from);
    var keys := set x | x in m && HasPrefix(x, from);
    var dest := Moved(k, from, to);
    var rest := SomeOrder(keys - {k, dest});
    var start := if k == dest then [k] else [k, dest];
    order := start + rest;
    assert Enumerates(start, {k, dest});
    EnumeratesRest(start, rest, keys, keys - {k, dest}) by { assert keys - (keys - {k, dest}) == {k, dest}; }
    forall x | x in rest ensures HasPrefix(x, from) && Moved(x, from, to) != dest {
      MovedApart(x, k, from, to);
    }
    var next := MoveKey(m, k, dest);
    assert order[0] == k;
    if k == dest {
      assert order[1..] == rest;
      MovedAway(next, rest, from, to, dest);
    } else {
      MovedApart(k, dest, from, to);
      assert order[1..] == [dest] + rest && ([dest] + rest)[1..] == rest;
      MovedAway(MoveKey(next, dest, Moved(dest, from, to)), rest, from, to, dest);
    }
    MovedBack(k, from, to);
    SubstitutedAt(m, dest, from, to);
  }

  lemma {:induction false} MoveAllKeys<V, W>(m: map<string, V>, n: map<string, W>, order: seq<string>,
      from: string, to: string)
    requires m.Keys == n.Keys
    requires forall k :: k in order ==> HasPrefix(k, from)
    ensures MoveAll(m, order, from, to).Keys == MoveAll(n, order, from, to).Keys
    decreases |order|
  {
    if order != [] {
      assert order[0] in order;
      var dest := Moved(order[0], from, to);
      MoveKeyKeys(m, n, order[0], dest);
      MoveAllKeys(MoveKey(m, order[0], dest), MoveKey(n, order[0], dest), order[1..], from, to);
    }
  }

  lemma MoveKeyKeys<V, W>(m: map<string, V>, n: map<string, W>, from: string, to: string)
    requires m.Keys == n.Keys
    ensures MoveKey(m, from, to).Keys == MoveKey(n, from, to).Keys
  {
    assert forall k :: k in m <==> k in m.Keys;
    assert forall k :: k in n <==> k in n.Keys;
  }
}
