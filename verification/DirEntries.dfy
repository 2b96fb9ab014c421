/**
 Directory entries and their in-place insertion sort by name (go/internal/fsutil/direntry.go): the
 order is that of Go strings, and entries of one name keep the order in which they were found, so
 that the sorted list is determined by the list it was made from.
 */
module DirEntries {
  import opened MemoryState

  datatype DirEntry = DirEntry(name: string, isDir: bool, mode: Mode, info: FileInfo)

  /** Go's `<` on strings. */
  predicate Less(a: string, b: string)
    decreases |a|
  {
    if b == "" then false
    else if a == "" then true
    else a[0] < b[0] || (a[0] == b[0] && Less(a[1..], b[1..]))
  }

  lemma {:induction false} LessTransitive(a: string, b: string, c: string)
    requires Less(a, b) && Less(b, c)
    ensures Less(a, c)
    decreases |a|
  {
    if a != "" && a[0] == b[0] == c[0] {
      LessTransitive(a[1..], b[1..], c[1..]);
    }
  }

  /** The order of Go strings: a proper prefix comes first, otherwise the first difference decides. */
  lemma {:induction false} LessExact(a: string, b: string)
    ensures Less(a, b) <==> exists k: nat :: FirstDifference(a, b, k)
    decreases |a|
  {
    if a != "" && b != "" && a[0] == b[0] {
      LessExact(a[1..], b[1..]);
      if k: nat :| FirstDifference(a[1..], b[1..], k) {
        assert forall i | 0 < i < k + 1 :: a[i] == a[1..][i - 1] && b[i] == b[1..][i - 1];
        assert FirstDifference(a, b, k + 1);
      }
      if k: nat :| FirstDifference(a, b, k) {
        assert FirstDifference(a[1..], b[1..], k - 1);
      }
    } else if Less(a, b) {
      assert FirstDifference(a, b, 0);
    }
  }

  /** The strings agree before `k`; there the first one ends, or has the smaller character. */
  predicate FirstDifference(a: string, b: string, k: nat) {
    k <= |a| && k < |b| && (forall i | 0 <= i < k :: a[i] == b[i]) && (k == |a| || a[k] < b[k])
  }

  lemma {:induction false} LessTotal(a: string, b: string)
    ensures Less(a, b) || a == b || Less(b, a)
    ensures !(Less(a, b) && Less(b, a)) && !Less(a, a)
    decreases |a|
  {
    if a != "" {
      LessTotal(a[1..], if b == "" then b else b[1..]);
      if b != "" && a[0] == b[0] && a[1..] == b[1..] {
        assert a == [a[0]] + a[1..] && b == [b[0]] + b[1..];
      }
    }
  }

  lemma NotLessTransitive(a: string, b: string, c: string)
    requires !Less(b, a) && !Less(c, b)
    ensures !Less(c, a)
  {
    LessTotal(a, b);
    LessTotal(b, c);
    LessTotal(a, c);
    if Less(a, b) && Less(b, c) {
      LessTransitive(a, b, c);
    }
  }

  /** The entry goes in after the last entry that is not greater. */
  function Insert(sorted: seq<DirEntry>, entry: DirEntry): seq<DirEntry>
    decreases |sorted|
  {
    if sorted == [] || !Less(entry.name, sorted[|sorted| - 1].name) then sorted + [entry]
    else Insert(sorted[..|sorted| - 1], entry) + [sorted[|sorted| - 1]]
  }

  function SortByName(entries: seq<DirEntry>): seq<DirEntry>
    decreases |entries|
  {
    if entries == [] then [] else Insert(SortByName(entries[..|entries| - 1]), entries[|entries| - 1])
  }

  ghost predicate Sorted(entries: seq<DirEntry>) {
    forall i, j | 0 <= i < j < |entries| :: !Less(entries[j].name, entries[i].name)
  }

  function Named(entries: seq<DirEntry>, name: string): seq<DirEntry>
    decreases |entries|
  {
    if entries == [] then []
    else
      var last := entries[|entries| - 1];
      Named(entries[..|entries| - 1], name) + if last.name == name then [last] else []
  }

  lemma {:induction false} InsertKeeps(sorted: seq<DirEntry>, entry: DirEntry)
    ensures multiset(Insert(sorted, entry)) == multiset(sorted) + multiset{entry}
    ensures forall e :: e in Insert(sorted, entry) ==> e in sorted || e == entry
    decreases |sorted|
  {
    hide Less;
    if sorted != [] {
      var front, last := sorted[..|sorted| - 1], sorted[|sorted| - 1];
      assert sorted == front + [last];
      InsertKeeps(front, entry);
    }
  }

  lemma {:induction false} InsertSorted(sorted: seq<DirEntry>, entry: DirEntry)
    requires Sorted(sorted)
    ensures Sorted(Insert(sorted, entry))
    decreases |sorted|
  {
    hide Less;
    if sorted != [] {
      var front, last := sorted[..|sorted| - 1], sorted[|sorted| - 1];
      assert sorted == front + [last];
      LessTotal(entry.name, last.name);
      if Less(entry.name, last.name) {
        InsertSorted(front, entry);
        InsertKeeps(front, entry);
        var r := Insert(front, entry);
        forall i | 0 <= i < |r| ensures !Less(last.name, r[i].name) {
          assert r[i] in r;
        }
      } else {
        forall i | 0 <= i < |sorted| ensures !Less(entry.name, sorted[i].name) {
          if i < |front| {
            NotLessTransitive(sorted[i].name, last.name, entry.name);
          }
        }
      }
    }
  }

  lemma {:induction false} InsertStable(sorted: seq<DirEntry>, entry: DirEntry, name: string)
    ensures Named(Insert(sorted, entry), name) == Named(sorted + [entry], name)
    decreases |sorted|
  {
    assert (sorted + [entry])[..|sorted|] == sorted;
    if sorted != [] && Less(entry.name, sorted[|sorted| - 1].name) {
      var front, last := sorted[..|sorted| - 1], sorted[|sorted| - 1];
      InsertStable(front, entry, name);
      LessTotal(entry.name, last.name);
      assert (front + [entry])[..|front|] == front;
      var r := Insert(front, entry);
      assert (r + [last])[..|r|] == r;
    }
  }

  lemma {:induction false} NamedGrows(a: seq<DirEntry>, b: seq<DirEntry>, entry: DirEntry, name: string)
    requires Named(a, name) == Named(b, name)
    ensures Named(a + [entry], name) == Named(b + [entry], name)
  {
    assert (a + [entry])[..|a|] == a && (b + [entry])[..|b|] == b;
  }

  /** The sort orders by name, keeps every entry, and keeps the order of equal names. */
  lemma {:induction false} SortByNameCorrect(entries: seq<DirEntry>)
    ensures Sorted(SortByName(entries))
    ensures multiset(SortByName(entries)) == multiset(entries)
    ensures forall name :: Named(SortByName(entries), name) == Named(entries, name)
    decreases |entries|
  {
    if entries != [] {
      var front, last := entries[..|entries| - 1], entries[|entries| - 1];
      SortByNameCorrect(front);
      InsertSorted(SortByName(front), last);
      InsertKeeps(SortByName(front), last);
      assert entries == front + [last];
      forall name ensures Named(SortByName(entries), name) == Named(entries, name) {
        InsertStable(SortByName(front), last, name);
        NamedGrows(SortByName(front), front, last, name);
      }
    }
  }

  lemma {:induction false} InsertPosition(sorted: seq<DirEntry>, entry: DirEntry, at: nat)
    requires at <= |sorted|
    requires forall k | at <= k < |sorted| :: Less(entry.name, sorted[k].name)
    requires at > 0 ==> !Less(entry.name, sorted[at - 1].name)
    ensures Insert(sorted, entry) == sorted[..at] + [entry] + sorted[at..]
    decreases |sorted|
  {
    if at == |sorted| {
      assert sorted[..at] + [entry] + sorted[at..] == sorted + [entry];
    } else {
      var front := sorted[..|sorted| - 1];
      InsertPosition(front, entry, at);
      assert front[..at] == sorted[..at] && front[at..] + [sorted[|sorted| - 1]] == sorted[at..];
    }
  }

  lemma SortOne(entries: seq<DirEntry>)
    requires |entries| <= 1
    ensures SortByName(entries) == entries
  {
    if |entries| == 1 {
      assert entries[..0] == [];
    }
  }

  lemma {:induction false} SortLength(entries: seq<DirEntry>)
    ensures |SortByName(entries)| == |entries|
    decreases |entries|
  {
    if entries != [] {
      SortLength(entries[..|entries| - 1]);
      InsertLength(SortByName(entries[..|entries| - 1]), entries[|entries| - 1]);
    }
  }

  lemma {:induction false} InsertLength(sorted: seq<DirEntry>, entry: DirEntry)
    ensures |Insert(sorted, entry)| == |sorted| + 1
    decreases |sorted|
  {
    if sorted != [] {
      InsertLength(sorted[..|sorted| - 1], entry);
    }
  }

  /** The array while an entry is on its way down: `hole` is a slot about to be overwritten. */
  function WithHole(front: seq<DirEntry>, at: nat, hole: DirEntry, rest: seq<DirEntry>): (s: seq<DirEntry>)
    requires at <= |front|
    ensures |s| == |front| + 1 + |rest|
  {
    front[..at] + [hole] + front[at..] + rest
  }

  lemma OpenHole(s: seq<DirEntry>, i: nat)
    requires i < |s|
    ensures WithHole(s[..i], i, s[i], s[i + 1..]) == s
  {
  }

  lemma ShiftHole(front: seq<DirEntry>, at: nat, hole: DirEntry, rest: seq<DirEntry>)
    requires at <= |front|
    ensures at > 0 ==>
              var s := WithHole(front, at, hole, rest);
              s[at - 1] == front[at - 1] &&
              s[at := front[at - 1]] == WithHole(front, at - 1, front[at - 1], rest)
  {
  }

  lemma CloseHole(front: seq<DirEntry>, at: nat, hole: DirEntry, rest: seq<DirEntry>, entry: DirEntry)
    requires at <= |front|
    requires forall k | at <= k < |front| :: Less(entry.name, front[k].name)
    requires at > 0 ==> !Less(entry.name, front[at - 1].name)
    ensures WithHole(front, at, hole, rest)[at := entry] == Insert(front, entry) + rest
  {
    hide Insert;
    InsertPosition(front, entry, at);
  }

  /** The inner loop: entry `i` moves down past the greater ones before it. */
  method InsertEntry(entries: array<DirEntry>, i: nat)
    requires i < entries.Length
    modifies entries
    ensures entries[..] == Insert(old(entries[..])[..i], old(entries[..])[i]) + old(entries[..])[i + 1..]
  {
    hide *;
    ghost var was := entries[..];
    ghost var front, rest := was[..i], was[i + 1..];
    OpenHole(was, i);
    var entry := entries[i];
    var j := i - 1;
    ghost var now, hole := was, entry;
    ShiftHole(front, i, hole, rest);
    while j >= 0 && Less(entry.name, entries[j].name)
      invariant -1 <= j < i
      invariant entries[..] == now == WithHole(front, j + 1, hole, rest)
      invariant j >= 0 ==> entries[j] == front[j]
      invariant forall k | j < k < i :: Less(entry.name, front[k].name)
    {
      ShiftHole(front, j + 1, hole, rest);
      entries[j + 1] := entries[j];
      now, hole := now[j + 1 := front[j]], front[j];
      j := j - 1;
      ShiftHole(front, j + 1, hole, rest);
      assert entries[..] == now;
      assert j >= 0 ==> entries[j] == now[j];
    }
    CloseHole(front, j + 1, hole, rest, entry);
    entries[j + 1] := entry;
    assert entries[..] == now[j + 1 := entry];
  }

  method SortDirEntriesByName(entries: array<DirEntry>)
    modifies entries
    ensures entries[..] == SortByName(old(entries[..]))
  {
    hide *;
    ghost var was := entries[..];
    if entries.Length == 0 {
      SortOne(was);
      return;
    }
    SortOne(was[..1]);
    assert was[..1] + was[1..] == was;
    for i := 1 to entries.Length
      invariant entries[..] == SortByName(was[..i]) + was[i..]
    {
      SortNext(was, i);
      InsertEntry(entries, i);
    }
    assert was[..entries.Length] == was && was[entries.Length..] == [];
  }

  lemma SortNext(was: seq<DirEntry>, i: nat)
    requires i < |was|
    ensures var s := SortByName(was[..i]) + was[i..];
            |s| == |was| && s[..i] == SortByName(was[..i]) && s[i] == was[i] && s[i + 1..] == was[i + 1..]
    ensures SortByName(was[..i + 1]) == Insert(SortByName(was[..i]), was[i])
  {
    SortLength(was[..i]);
    assert was[..i + 1][..i] == was[..i];
  }
}
