/**
 `CopyTo` (go/node/node.go): a file, or every file of a directory, written to another medium
 in the order of the map.  Whether the copy completes does not depend on that order.
 */
module NodeCopy {
  import opened Paths
  import opened PathTree
  import opened PrefixMaps
  import opened MemoryState
  import opened MemoryTree
  import opened ScopedState
  import NodeState
  import NodeListing

  type Files = NodeState.Files

  /** The path a key is copied to. */
  function CopyPath(prefix: string, destination: string, k: string): string {
    var rest := TrimPrefix(k, prefix);
    if rest == "" then destination else destination + "/" + rest
  }

  predicate Copied(source: string, prefix: string, k: string) {
    HasPrefix(k, prefix) || k == source
  }

  /** The keys copied one after the other; the first failing write ends the copy. */
  ghost function CopyAll(target: Mem, m: Files, order: seq<string>, source: string, destination: string,
      now: Time): Step
    requires forall k :: k in order ==> k in m
    decreases |order|
  {
    if order == [] then Step(Done, target)
    else
      assert order[0] in order;
      var (k, prefix) := (order[0], ChildPrefix(source));
      if !Copied(source, prefix, k) then CopyAll(target, m, order[1..], source, destination, now)
      else
        var step := WriteMode(target, CopyPath(prefix, destination, k), m[k].content, DEFAULT_MODE, now);
        if step.status == Done then CopyAll(step.mem, m, order[1..], source, destination, now) else step
  }

  ghost function CopyTo(target: Mem, m: Files, order: seq<string>, source: string, destination: string, now: Time): Step
    requires forall k :: k in order ==> k in m
  {
    var info := NodeListing.Stat(m, NodeListing.Key(source), now);
    if info.None? then Step(NotFound, target)
    else if info.value.isDir then CopyAll(target, m, order, source, destination, now)
    else if source in m then WriteMode(target, destination, m[source].content, DEFAULT_MODE, now)
    else Step(NotFound, target)
  }

  // What a copy leaves behind

  /** Where a key goes. */
  function To(source: string, destination: string, k: string): string {
    CopyPath(ChildPrefix(source), destination, k)
  }

  function Chosen(order: seq<string>, source: string): set<string> {
    set k | k in order && Copied(source, ChildPrefix(source), k)
  }

  function Destinations(keys: set<string>, source: string, destination: string): set<string> {
    set k | k in keys :: To(source, destination, k)
  }

  function Above(keys: set<string>, source: string, destination: string): set<string> {
    set k, d | k in keys && d in Ancestors(To(source, destination, k)) :: d
  }

  /**
   The target once the keys of `done` were copied: those files with the default mode, the
   directories above them, nothing else.
   */
  ghost predicate Received(target: Mem, t: Mem, m: Files, source: string, destination: string, done: set<string>,
      now: Time)
    requires done <= m.Keys
  {
    var paths := Destinations(done, source, destination);
    && Added(target.files, t.files, paths) && Added(target.modes, t.modes, paths) && Added(target.times, t.times, paths)
    && t.dirs == target.dirs + Above(done, source, destination)
    && forall p :: p in paths ==>
         p in t.files && p in t.modes && p in t.times && t.modes[p] == DEFAULT_MODE && t.times[p] == now &&
         Delivered(m, source, destination, done, p, t.files[p])
  }

  /** There are entries at the paths; what is stored elsewhere is as it was. */
  ghost predicate Added<V>(was: map<string, V>, now: map<string, V>, paths: set<string>) {
    now.Keys == was.Keys + paths && forall p :: p in was && p !in paths ==> now[p] == was[p]
  }

  predicate Delivered(m: Files, source: string, destination: string, done: set<string>, p: string, content: Bytes)
    requires done <= m.Keys
  {
    exists k :: k in done && To(source, destination, k) == p && m[k].content == content
  }

  /** Every path is open before the copy, and no copied file stands where another needs a directory. */
  ghost predicate Apart(target: Mem, source: string, destination: string, keys: set<string>) {
    && (forall k :: k in keys ==> Open(target, To(source, destination, k)))
    && (forall j, k | j in keys && k in keys && j != k ::
          To(source, destination, j) !in Ancestors(To(source, destination, k)))
  }

  /** The next path is open when it was before the copy, and does not meet a copied one. */
  lemma NextOpen(target: Mem, t: Mem, m: Files, source: string, destination: string, done: set<string>, k: string,
      now: Time)
    requires done <= m.Keys && Received(target, t, m, source, destination, done, now) && k !in done
    requires Apart(target, source, destination, done)
    ensures Open(t, To(source, destination, k)) <==> Apart(target, source, destination, done + {k})
  {
    hide Ancestors, To, Open, Received, Apart;
    OpenNow(target, t, m, source, destination, done, To(source, destination, k), now);
    ApartMore(target, source, destination, done, k);
  }

  /** The path meets none of the copied ones. */
  ghost predicate Clear(source: string, destination: string, done: set<string>, q: string) {
    forall j | j in done :: To(source, destination, j) !in Ancestors(q) && q !in Ancestors(To(source, destination, j))
  }

  lemma OpenNow(target: Mem, t: Mem, m: Files, source: string, destination: string, done: set<string>, q: string,
      now: Time)
    requires done <= m.Keys && Received(target, t, m, source, destination, done, now)
    ensures Open(t, q) <==> Open(target, q) && Clear(source, destination, done, q)
  {
    hide Ancestors, To;
    var paths := Destinations(done, source, destination);
    assert t.files.Keys == target.files.Keys + paths;
    assert q in t.dirs <==> q in target.dirs || q in Above(done, source, destination);
    forall a ensures a in t.files <==> a in target.files || a in paths {
      assert a in t.files <==> a in t.files.Keys;
    }
    assert forall j :: j in done ==> To(source, destination, j) in paths;
  }

  lemma ApartMore(target: Mem, source: string, destination: string, done: set<string>, k: string)
    requires Apart(target, source, destination, done) && k !in done
    ensures Apart(target, source, destination, done + {k}) <==>
            Open(target, To(source, destination, k)) && Clear(source, destination, done, To(source, destination, k))
  {
    hide Ancestors, To, Open;
    var more := done + {k};
    assert k in more && forall j :: j in done ==> j in more;
    if Apart(target, source, destination, more) {
      forall j | j in done
        ensures To(source, destination, j) !in Ancestors(To(source, destination, k))
        ensures To(source, destination, k) !in Ancestors(To(source, destination, j))
      {
        assert j in more;
      }
    }
  }

  lemma OneMore(keys: set<string>, k: string, source: string, destination: string)
    ensures Destinations(keys + {k}, source, destination) ==
            Destinations(keys, source, destination) + {To(source, destination, k)}
    ensures Above(keys + {k}, source, destination) ==
            Above(keys, source, destination) + Ancestors(To(source, destination, k))
  {
    hide Ancestors, To;
    var more := keys + {k};
    assert k in more && forall j :: j in keys ==> j in more;
    forall d | d in Above(keys, source, destination) ensures d in Above(more, source, destination) {
      var j :| j in keys && d in Ancestors(To(source, destination, j));
      assert j in more;
    }
  }

  lemma OneMoreEntry<V>(was: map<string, V>, now: map<string, V>, paths: set<string>, q: string, value: V)
    requires Added(was, now, paths)
    ensures Added(was, now[q := value], paths + {q})
  {
  }

  lemma NextReceived(target: Mem, t: Mem, m: Files, source: string, destination: string, done: set<string>, k: string,
      now: Time)
    requires done <= m.Keys && Received(target, t, m, source, destination, done, now) && k in m
    ensures Received(target, WithFile(t, To(source, destination, k), m[k].content, DEFAULT_MODE, now), m, source,
                     destination, done + {k}, now)
  {
    hide Ancestors, To, Destinations, Above, Added;
    OneMore(done, k, source, destination);
    var paths := Destinations(done, source, destination);
    OneMoreEntry(target.files, t.files, paths, To(source, destination, k), m[k].content);
    OneMoreEntry(target.modes, t.modes, paths, To(source, destination, k), DEFAULT_MODE);
    OneMoreEntry(target.times, t.times, paths, To(source, destination, k), now);
    var (q, more) := (To(source, destination, k), done + {k});
    var u := WithFile(t, q, m[k].content, DEFAULT_MODE, now);
    assert k in more;
    forall p | p in Destinations(more, source, destination)
      ensures Delivered(m, source, destination, more, p, u.files[p])
    {
      if p != q {
        assert Delivered(m, source, destination, done, p, t.files[p]);
        var j :| j in done && To(source, destination, j) == p && m[j].content == t.files[p];
        assert j in more;
      }
    }
  }

  lemma ChosenFirst(order: seq<string>, source: string)
    requires order != []
    ensures Chosen(order, source) ==
            (if Copied(source, ChildPrefix(source), order[0]) then {order[0]} else {}) + Chosen(order[1..], source)
    ensures forall k :: k in order <==> k == order[0] || k in order[1..]
  {
    hide Copied;
    assert forall x :: x in order <==> x == order[0] || x in order[1..];
  }

  /**
   From a target in which the keys of `done` arrived: what is left is copied up to the first
   path that is not open.
   */
  lemma {:induction false} CopyAllExact(target: Mem, t: Mem, m: Files, order: seq<string>, source: string,
      destination: string, done: set<string>, now: Time) returns (more: set<string>)
    requires done <= m.Keys && Received(target, t, m, source, destination, done, now)
    requires Apart(target, source, destination, done)
    requires forall k :: k in order ==> k in m && k !in done
    requires forall i, j | 0 <= i < j < |order| :: order[i] != order[j]
    ensures more <= Chosen(order, source) && done + more <= m.Keys
    ensures var step := CopyAll(t, m, order, source, destination, now);
            Received(target, step.mem, m, source, destination, done + more, now) &&
            (step.status == Done <==> more == Chosen(order, source)) &&
            (step.status == Done <==> Apart(target, source, destination, done + Chosen(order, source)))
    decreases |order|
  {
    hide Copied, Received, Apart, Chosen, HasFileAncestor, WithFile, Ancestors, Open;
    if order == [] {
      more := {};
      NoneChosen(source);
      assert done + {} == done;
    } else {
      var (k, rest) := (order[0], order[1..]);
      ChosenFirst(order, source);
      if !Copied(source, ChildPrefix(source), k) {
        more := CopyAllExact(target, t, m, rest, source, destination, done, now);
        assert {} + Chosen(rest, source) == Chosen(rest, source);
      } else {
        WriteOpens(t, To(source, destination, k), m[k].content, now);
        NextOpen(target, t, m, source, destination, done, k, now);
        if Open(t, To(source, destination, k)) {
          NextReceived(target, t, m, source, destination, done, k, now);
          var next := WithFile(t, To(source, destination, k), m[k].content, DEFAULT_MODE, now);
          var later := CopyAllExact(target, next, m, rest, source, destination, done + {k}, now);
          more := {k} + later;
          assert done + {k} + later == done + more && done + {k} + Chosen(rest, source) == done + Chosen(order, source);
          LaterChosen(m, rest, source, k);
          assert more - {k} == later && Chosen(order, source) - {k} == Chosen(rest, source);
        } else {
          more := {};
          assert done + {} == done;
          ApartFewer(target, source, destination, done + {k}, done + Chosen(order, source));
        }
      }
    }
  }

  lemma NoneChosen(source: string)
    ensures Chosen([], source) == {}
  {
  }

  lemma LaterChosen(m: Files, rest: seq<string>, source: string, k: string)
    requires k !in rest
    ensures k !in Chosen(rest, source)
  {
  }

  lemma WriteOpens(t: Mem, p: string, content: Bytes, now: Time)
    ensures WriteMode(t, p, content, DEFAULT_MODE, now) ==
            if Open(t, p) then Step(Done, WithFile(t, p, content, DEFAULT_MODE, now)) else Step(AlreadyExists, t)
  {
    hide HasFileAncestor, WithFile;
  }

  lemma ApartFewer(target: Mem, source: string, destination: string, fewer: set<string>, keys: set<string>)
    requires fewer <= keys
    ensures Apart(target, source, destination, keys) ==> Apart(target, source, destination, fewer)
  {
    hide Open, Ancestors, To;
  }

  lemma NothingReceived(target: Mem, m: Files, source: string, destination: string, now: Time)
    ensures Received(target, target, m, source, destination, {}, now) && Apart(target, source, destination, {})
  {
    assert Destinations({}, source, destination) == {} && Above({}, source, destination) == {};
  }

  /** The keys a copy of a directory takes. */
  function Taken(m: Files, source: string): set<string> {
    set k | k in m && Copied(source, ChildPrefix(source), k)
  }

  /**
   Copying a directory, for every tree, target, source, destination and order of the map: it
   completes exactly when the paths are apart, and then the target has received every file;
   otherwise it has received those copied before the first refused one.
   */
  lemma CopyExact(target: Mem, m: Files, order: seq<string>, source: string, destination: string, now: Time)
    returns (done: set<string>)
    requires Enumerates(order, m.Keys)
    requires var info := NodeListing.Stat(m, NodeListing.Key(source), now); info.Some? && info.value.isDir
    ensures done <= Taken(m, source)
    ensures var step := CopyTo(target, m, order, source, destination, now);
            Received(target, step.mem, m, source, destination, done, now) &&
            (step.status == Done <==> done == Taken(m, source)) &&
            (step.status == Done <==> Apart(target, source, destination, Taken(m, source)))
  {
    hide Copied, Received, Apart, CopyAll, NodeListing.Stat;
    NothingReceived(target, m, source, destination, now);
    done := CopyAllExact(target, target, m, order, source, destination, {}, now);
    assert Chosen(order, source) == Taken(m, source);
    assert {} + done == done && {} + Taken(m, source) == Taken(m, source);
  }

  /** A file is copied exactly when its one path is open. */
  lemma CopyFileExact(target: Mem, m: Files, order: seq<string>, source: string, destination: string, now: Time)
    requires Enumerates(order, m.Keys)
    requires var info := NodeListing.Stat(m, NodeListing.Key(source), now); info.Some? && !info.value.isDir
    ensures CopyTo(target, m, order, source, destination, now) ==
            if source !in m then Step(NotFound, target)
            else if Open(target, destination) then
              Step(Done, WithFile(target, destination, m[source].content, DEFAULT_MODE, now))
            else Step(AlreadyExists, target)
  {
    hide NodeListing.Stat, Open, WithFile;
    if source in m {
      WriteOpens(target, destination, m[source].content, now);
    }
  }

  // Trees in which no file lies below a file

  /** The files to copy: below a clean source, clean, and none below another. */
  ghost predicate Subtree(m: Files, source: string) {
    (source == "" || CleanRelative(source)) && source !in m &&
    (forall k :: k in m && HasPrefix(k, ChildPrefix(source)) ==> CleanRelative(k)) &&
    (forall j, k :: j in m && k in m && HasPrefix(j, ChildPrefix(source)) && HasPrefix(k, ChildPrefix(source)) ==> !Under(j, k))
  }

  /** Nothing is stored at the destination as a file, below it, or above it as a file. */
  ghost predicate Free(target: Mem, destination: string) {
    CleanRelative(destination) && destination !in target.files && !HasFileAncestor(target, destination) &&
    forall p :: Stored(target, p) ==> !Under(p, destination)
  }

  /** The part of a key below the source. */
  function Relative(source: string, k: string): string {
    TrimPrefix(k, ChildPrefix(source))
  }

  lemma RelativeOf(m: Files, source: string, k: string)
    requires Subtree(m, source) && k in m && HasPrefix(k, ChildPrefix(source))
    ensures CleanRelative(Relative(source, k))
    ensures k == if source == "" then Relative(source, k) else In(source, Relative(source, k))
  {
    hide Split;
    if source != "" {
      ChildPrefixOfClean(source);
      CleanUnder(k, source);
    }
    CleanRelativeFixed(Relative(source, k));
  }

  /** Where the key goes: the destination, a slash, and the part below the source. */
  lemma CopyPathOf(m: Files, source: string, destination: string, k: string)
    requires Subtree(m, source) && k in m && HasPrefix(k, ChildPrefix(source))
    ensures To(source, destination, k) == In(destination, Relative(source, k))
  {
    hide Subtree, CleanRelative, ChildPrefix;
    RelativeOf(m, source, k);
    CleanRelativeFixed(Relative(source, k));
  }

  /** Being below one another is kept by taking the source away. */
  lemma RelativeUnder(m: Files, source: string, j: string, k: string)
    requires Subtree(m, source) && j in m && k in m && HasPrefix(j, ChildPrefix(source)) && HasPrefix(k, ChildPrefix(source))
    ensures !Under(Relative(source, j), Relative(source, k))
    ensures Relative(source, j) == Relative(source, k) ==> j == k
  {
    RelativeOf(m, source, j);
    RelativeOf(m, source, k);
    assert !Under(j, k);
    if source != "" {
      UnderIn(source, Relative(source, j), Relative(source, k));
    }
  }

  /** Such a subtree can be copied to every free destination, each key to a path of its own. */
  lemma SubtreeIsApart(target: Mem, m: Files, source: string, destination: string)
    requires Free(target, destination) && Subtree(m, source)
    ensures Apart(target, source, destination, Taken(m, source))
    ensures forall j, k | j in Taken(m, source) && k in Taken(m, source) ::
              To(source, destination, j) == To(source, destination, k) ==> j == k
  {
    hide CleanRelative, Ancestors, In, ChildPrefix, Relative, Subtree, HasPrefix, Free, To, HasFileAncestor, Under;
    assert source !in m by { SourceIsNoKey(m, source); }
    forall k | k in Taken(m, source) ensures Open(target, To(source, destination, k)) {
      FreePathIsOpen(target, m, source, destination, k);
    }
    forall j, k | j in Taken(m, source) && k in Taken(m, source)
      ensures To(source, destination, j) !in Ancestors(To(source, destination, k))
      ensures To(source, destination, j) == To(source, destination, k) ==> j == k
    {
      KeysApart(m, source, destination, j, k);
      FreeIsClean(target, destination);
      RelativeApart(m, source, destination, j, k);
    }
  }

  lemma SourceIsNoKey(m: Files, source: string)
    requires Subtree(m, source)
    ensures source !in m
  {
  }

  lemma FreeIsClean(target: Mem, destination: string)
    requires Free(target, destination)
    ensures CleanRelative(destination)
  {
  }

  lemma KeysApart(m: Files, source: string, destination: string, j: string, k: string)
    requires Subtree(m, source) && j in m && k in m && HasPrefix(j, ChildPrefix(source)) && HasPrefix(k, ChildPrefix(source))
    ensures To(source, destination, j) == To(source, destination, k) ==> j == k
  {
    hide CleanRelative, In, ChildPrefix, Relative, Subtree, HasPrefix, To, Under;
    CopyPathOf(m, source, destination, j);
    CopyPathOf(m, source, destination, k);
    RelativeUnder(m, source, j, k);
    if To(source, destination, j) == To(source, destination, k) {
      InInjective(destination, Relative(source, j), Relative(source, k));
    }
  }

  lemma RelativeApart(m: Files, source: string, destination: string, j: string, k: string)
    requires CleanRelative(destination)
    requires Subtree(m, source) && j in m && k in m && HasPrefix(j, ChildPrefix(source)) && HasPrefix(k, ChildPrefix(source))
    ensures To(source, destination, j) !in Ancestors(To(source, destination, k))
  {
    hide CleanRelative, Ancestors, In, ChildPrefix, Relative, Subtree, HasPrefix, To, Under;
    CopyPathOf(m, source, destination, j);
    CopyPathOf(m, source, destination, k);
    RelativeOf(m, source, j);
    RelativeOf(m, source, k);
    RelativeUnder(m, source, k, j);
    AncestorsIn(destination, Relative(source, k), Relative(source, j));
    AncestorsAreUnder(Relative(source, k));
  }

  lemma FreePathIsOpen(target: Mem, m: Files, source: string, destination: string, k: string)
    requires Free(target, destination) && Subtree(m, source) && k in m && HasPrefix(k, ChildPrefix(source))
    ensures Open(target, To(source, destination, k))
  {
    hide CleanRelative, Ancestors, Under, In, ChildPrefix, Relative, Subtree, HasPrefix, To;
    var (rest, q) := (Relative(source, k), To(source, destination, k));
    CopyPathOf(m, source, destination, k);
    RelativeOf(m, source, k);
    InStripped(destination, rest);
    assert Stored(target, q) ==> !Under(q, destination);
    forall a | a in Ancestors(q) ensures a !in target.files {
      AncestorsIn(destination, rest, a);
      assert Stored(target, a) ==> !Under(a, destination);
    }
  }

  // The loop, key by key

  lemma {:induction false} CopyAllJoin(target: Mem, m: Files, a: seq<string>, b: seq<string>, source: string,
      destination: string, now: Time)
    requires (forall k :: k in a ==> k in m) && forall k :: k in b ==> k in m
    ensures var first := CopyAll(target, m, a, source, destination, now);
            CopyAll(target, m, a + b, source, destination, now) ==
            if first.status == Done then CopyAll(first.mem, m, b, source, destination, now) else first
    decreases |a|
  {
    hide WriteMode, CopyPath, Copied;
    if a == [] {
      assert a + b == b;
    } else {
      assert (a + b)[1..] == a[1..] + b;
      assert a[0] in a;
      assert forall k :: k in a[1..] ==> k in a;
      var k := a[0];
      if !Copied(source, ChildPrefix(source), k) {
        CopyAllJoin(target, m, a[1..], b, source, destination, now);
      } else {
        var step := WriteMode(target, CopyPath(ChildPrefix(source), destination, k), m[k].content, DEFAULT_MODE, now);
        if step.status == Done {
          CopyAllJoin(step.mem, m, a[1..], b, source, destination, now);
        }
      }
    }
  }

  lemma CopyNone(target: Mem, m: Files, source: string, destination: string, now: Time)
    ensures CopyAll(target, m, [], source, destination, now) == Step(Done, target)
  {
  }

  lemma CopyOne(target: Mem, m: Files, k: string, source: string, destination: string, now: Time)
    requires k in m
    ensures CopyAll(target, m, [k], source, destination, now) ==
            if !Copied(source, ChildPrefix(source), k) then Step(Done, target)
            else WriteMode(target, CopyPath(ChildPrefix(source), destination, k), m[k].content, DEFAULT_MODE, now)
  {
    hide WriteMode, CopyPath, Copied;
    assert [k][1..] == [];
    var step := WriteMode(target, CopyPath(ChildPrefix(source), destination, k), m[k].content, DEFAULT_MODE, now);
    assert step == Step(step.status, step.mem);
  }
}
