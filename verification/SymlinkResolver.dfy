/** The local medium's symlink resolver (go/local/medium.go), over a file system that stays as it is. */
module SymlinkResolver {
  import opened Paths

  // `Resolve` is the algorithm as a function on components; the methods in LocalMedium.dfy run it
  // on strings.  `Derives` is the meaning it is measured against: a finite derivation of what a
  // path resolves to, with no cycle detection in it.

  /** Errors of lstat and readlink other than "does not exist". */
  datatype Errno = PermissionDenied | NotADirectory | OtherError(code: nat)

  /** What lstat, and readlink behind it, report for a clean absolute path. */
  datatype Entry =
    | Missing
    | Plain
    | Link(target: string)
    | Unreadable(error: Errno)  // lstat fails
    | BrokenLink(error: Errno)  // lstat sees a link, readlink fails

  type FileSystem = map<string, Entry>

  datatype Outcome =
    | Resolved(path: Components)
    | Cycle
    | Failed(error: Errno)

  function EntryAt(fs: FileSystem, path: string): Entry {
    if path in fs then fs[path] else Missing
  }

  function Lookup(fs: FileSystem, path: Components): Entry {
    EntryAt(fs, Abs(path))
  }

  /** Where a link stored in directory `current` points, cleaned lexically. */
  function Target(current: Components, link: string): Components {
    var target := NormaliseSlashes(link);
    var start: Components := if target != "" && target[0] == '/' then [] else current;
    FoldRooted(start, Split(target));
    Fold(start, Split(target), true)
  }

  /** The directory a path of the file system sits in. */
  function ParentOf(path: string): Components {
    FoldRooted([], Split(path));
    var cs: Components := Fold([], Split(path), true);
    if cs == [] then [] else cs[..|cs| - 1]
  }

  /** Every target any link of the file system can produce: a finite set. */
  function LinkTargets(fs: FileSystem): set<string> {
    set k | k in fs && fs[k].Link? :: Abs(Target(ParentOf(k), fs[k].target))
  }

  lemma TargetListed(fs: FileSystem, current: Components, part: string)
    requires Normal(part)
    requires Lookup(fs, current + [part]).Link?
    ensures Abs(Target(current, Lookup(fs, current + [part]).target)) in LinkTargets(fs)
  {
    var k := Abs(current + [part]);
    FoldAbs(current + [part]);
    assert ParentOf(k) == current;
    assert k in fs && fs[k].Link?;
  }

  lemma SeenGrows(all: set<string>, seen: set<string>, target: string)
    requires target in all && target !in seen
    ensures |all - (seen + {target})| < |all - seen|
  {
    assert all - (seen + {target}) == (all - seen) - {target};
  }

  /** An absolute link leads to its own components; a relative one starts in the directory it stands in. */
  lemma TargetMeans(current: Components, names: Components, link: string)
    requires names != [] && NormaliseSlashes(link) == link
    ensures link == Join(names) ==> Target(current, link) == current + names
    ensures link == "/" + Join(names) ==> Target(current, link) == names
    ensures link == "../" + Join(names) && current != [] ==> Target(current, link) == current[..|current| - 1] + names
  {
    hide Split, Join, Fold;
    SplitJoin(names);
    FoldNormal(current, names, true);
    FoldAbs(names);
    assert names[0] in names && names[0][0] in names[0];
    FirstOfNames(names);
    if link == "../" + Join(names) {
      assert link == ".." + "/" + Join(names);
      SplitConcat("..", Join(names));
      SplitSingle("..");
      FoldConcat(current, [".."], names, true);
      FoldParent(current);
      var up: Components := if current == [] then [] else current[..|current| - 1];
      FoldNormal(up, names, true);
    }
  }

  /** A backslash in a link counts as a slash. */
  lemma TargetSlashes(current: Components, link: string)
    ensures Target(current, link) ==
            Target(current, seq(|link|, i requires 0 <= i < |link| => if link[i] == '\\' then '/' else link[i]))
  {
    var slashed := NormaliseSlashes(link);
    assert slashed == seq(|link|, i requires 0 <= i < |link| => if link[i] == '\\' then '/' else link[i]);
    assert NormaliseSlashes(slashed) == slashed;
  }

  lemma FirstOfNames(names: Components)
    requires names != [] && names[0] != ""
    ensures Join(names) != "" && Join(names)[0] == names[0][0]
  {
  }

  lemma FoldParent(current: Components)
    ensures Fold(current, [".."], true) == if current == [] then [] else current[..|current| - 1]
  {
    if current != [] {
      assert current[|current| - 1] in current;
    }
  }

  /** The walk over the remaining parts, with the link targets now being resolved in `seen`. */
  function Resolve(fs: FileSystem, current: Components, parts: Components, seen: set<string>): Outcome
    decreases |LinkTargets(fs) - seen|, |parts|
  {
    if parts == [] then Resolved(current)
    else
      var next := current + [parts[0]];
      match Lookup(fs, next)
      case Missing => Resolve(fs, next, parts[1..], seen)
      case Plain => Resolve(fs, next, parts[1..], seen)
      case Unreadable(e) => Failed(e)
      case BrokenLink(e) => Failed(e)
      case Link(link) =>
        var target := Target(current, link);
        if Abs(target) in seen then Cycle
        else
          TargetListed(fs, current, parts[0]);
          SeenGrows(LinkTargets(fs), seen, Abs(target));
          match Resolve(fs, [], target, seen + {Abs(target)})
          case Resolved(dest) => Resolve(fs, dest, parts[1..], seen)
          case other => other
  }

  /** One step of the walk: `Resolve` unfolded once. */
  lemma ResolveStep(fs: FileSystem, current: Components, parts: Components, seen: set<string>)
    ensures parts == [] ==> Resolve(fs, current, parts, seen) == Resolved(current)
    ensures parts != [] ==>
            var entry := Lookup(fs, current + [parts[0]]);
            entry.Missing? || entry.Plain? ==>
              Resolve(fs, current, parts, seen) == Resolve(fs, current + [parts[0]], parts[1..], seen)
    ensures parts != [] ==>
            var entry := Lookup(fs, current + [parts[0]]);
            entry.Unreadable? || entry.BrokenLink? ==> Resolve(fs, current, parts, seen) == Failed(entry.error)
    ensures parts != [] ==>
            var entry := Lookup(fs, current + [parts[0]]);
            entry.Link? ==>
              var target := Target(current, entry.target);
              var out := Resolve(fs, [], target, seen + {Abs(target)});
              Resolve(fs, current, parts, seen) ==
              if Abs(target) in seen then Cycle
              else if out.Resolved? then Resolve(fs, out.path, parts[1..], seen)
              else out
  {
  }

  /**
   `path` resolves to `out` by a derivation of height at most `h`: plain and missing
   components are walked through, a link is replaced by what its target resolves to.
   */
  ghost predicate Derives(fs: FileSystem, h: nat, current: Components, parts: Components, out: Outcome)
    decreases h
  {
    h > 0 &&
    if parts == [] then out == Resolved(current)
    else
      var next := current + [parts[0]];
      match Lookup(fs, next)
      case Missing => Derives(fs, h - 1, next, parts[1..], out)
      case Plain => Derives(fs, h - 1, next, parts[1..], out)
      case Unreadable(e) => out == Failed(e)
      case BrokenLink(e) => out == Failed(e)
      case Link(link) =>
        exists dest ::
          Derives(fs, h - 1, [], Target(current, link), dest) &&
          if dest.Resolved? then Derives(fs, h - 1, dest.path, parts[1..], out) else out == dest
  }

  // Derives, folded and unfolded once

  lemma DerivesLeaf(fs: FileSystem, h: nat, current: Components, parts: Components, out: Outcome)
    requires h > 0
    requires
      if parts == [] then out == Resolved(current)
      else
        var entry := Lookup(fs, current + [parts[0]]);
        (entry.Unreadable? || entry.BrokenLink?) && out == Failed(entry.error)
    ensures Derives(fs, h, current, parts, out)
  {
  }

  lemma DerivesStep(fs: FileSystem, h: nat, current: Components, parts: Components, out: Outcome)
    requires parts != [] && (Lookup(fs, current + [parts[0]]).Missing? || Lookup(fs, current + [parts[0]]).Plain?)
    requires Derives(fs, h, current + [parts[0]], parts[1..], out)
    ensures Derives(fs, h + 1, current, parts, out)
  {
  }

  lemma DerivesLink(fs: FileSystem, h: nat, current: Components, parts: Components, dest: Outcome, out: Outcome)
    requires parts != [] && Lookup(fs, current + [parts[0]]).Link?
    requires Derives(fs, h, [], Target(current, Lookup(fs, current + [parts[0]]).target), dest)
    requires if dest.Resolved? then Derives(fs, h, dest.path, parts[1..], out) else out == dest
    ensures Derives(fs, h + 1, current, parts, out)
  {
  }

  lemma DerivesPositive(fs: FileSystem, h: nat, current: Components, parts: Components, out: Outcome)
    requires Derives(fs, h, current, parts, out)
    ensures h > 0
  {
  }

  lemma DerivesAtLink(fs: FileSystem, h: nat, current: Components, parts: Components,
      out: Outcome) returns (dest: Outcome)
    requires parts != [] && Lookup(fs, current + [parts[0]]).Link?
    requires Derives(fs, h, current, parts, out)
    ensures h > 0 && Derives(fs, h - 1, [], Target(current, Lookup(fs, current + [parts[0]]).target), dest)
    ensures if dest.Resolved? then Derives(fs, h - 1, dest.path, parts[1..], out) else out == dest
  {
    var target := Target(current, Lookup(fs, current + [parts[0]]).target);
    dest :| Derives(fs, h - 1, [], target, dest) &&
            if dest.Resolved? then Derives(fs, h - 1, dest.path, parts[1..], out) else out == dest;
  }

  lemma DerivesElsewhere(fs: FileSystem, h: nat, current: Components, parts: Components, out: Outcome)
    requires parts == [] || !Lookup(fs, current + [parts[0]]).Link?
    requires Derives(fs, h, current, parts, out)
    ensures h > 0
    ensures if parts == [] then out == Resolved(current)
            else
              var entry := Lookup(fs, current + [parts[0]]);
              if entry.Missing? || entry.Plain? then Derives(fs, h - 1, current + [parts[0]], parts[1..], out)
              else out == Failed(entry.error)
  {
  }

  lemma {:induction false} DerivesHigher(fs: FileSystem, h: nat, k: nat, current: Components, parts: Components,
      out: Outcome)
    requires h <= k && Derives(fs, h, current, parts, out)
    ensures Derives(fs, k, current, parts, out)
    decreases h
  {
    hide Derives;
    if parts != [] && Lookup(fs, current + [parts[0]]).Link? {
      var dest := DerivesAtLink(fs, h, current, parts, out);
      DerivesHigher(fs, h - 1, k - 1, [], Target(current, Lookup(fs, current + [parts[0]]).target), dest);
      if dest.Resolved? {
        DerivesHigher(fs, h - 1, k - 1, dest.path, parts[1..], out);
      }
      DerivesLink(fs, k - 1, current, parts, dest, out);
    } else {
      DerivesElsewhere(fs, h, current, parts, out);
      if parts != [] && (Lookup(fs, current + [parts[0]]).Missing? || Lookup(fs, current + [parts[0]]).Plain?) {
        DerivesHigher(fs, h - 1, k - 1, current + [parts[0]], parts[1..], out);
        DerivesStep(fs, k - 1, current, parts, out);
      } else {
        DerivesLeaf(fs, k, current, parts, out);
      }
    }
  }

  lemma {:induction false} DerivesNoCycle(fs: FileSystem, h: nat, current: Components, parts: Components, out: Outcome)
    requires Derives(fs, h, current, parts, out)
    ensures !out.Cycle?
    decreases h
  {
    hide Derives;
    if parts != [] && Lookup(fs, current + [parts[0]]).Link? {
      var dest := DerivesAtLink(fs, h, current, parts, out);
      DerivesNoCycle(fs, h - 1, [], Target(current, Lookup(fs, current + [parts[0]]).target), dest);
      if dest.Resolved? {
        DerivesNoCycle(fs, h - 1, dest.path, parts[1..], out);
      }
    } else {
      DerivesElsewhere(fs, h, current, parts, out);
      if parts != [] && (Lookup(fs, current + [parts[0]]).Missing? || Lookup(fs, current + [parts[0]]).Plain?) {
        DerivesNoCycle(fs, h - 1, current + [parts[0]], parts[1..], out);
      }
    }
  }

  /** `out` is what the path means: it has a finite derivation. */
  ghost predicate Derivable(fs: FileSystem, current: Components, parts: Components, out: Outcome) {
    exists h: nat :: Derives(fs, h, current, parts, out)
  }

  lemma DerivableLeaf(fs: FileSystem, current: Components, parts: Components, out: Outcome)
    requires
      if parts == [] then out == Resolved(current)
      else
        var entry := Lookup(fs, current + [parts[0]]);
        (entry.Unreadable? || entry.BrokenLink?) && out == Failed(entry.error)
    ensures Derivable(fs, current, parts, out)
  {
    hide Derives;
    DerivesLeaf(fs, 1, current, parts, out);
  }

  lemma DerivableStep(fs: FileSystem, current: Components, parts: Components, out: Outcome)
    requires parts != [] && (Lookup(fs, current + [parts[0]]).Missing? || Lookup(fs, current + [parts[0]]).Plain?)
    requires Derivable(fs, current + [parts[0]], parts[1..], out)
    ensures Derivable(fs, current, parts, out)
  {
    hide Derives;
    var h: nat :| Derives(fs, h, current + [parts[0]], parts[1..], out);
    DerivesStep(fs, h, current, parts, out);
  }

  lemma DerivableLink(fs: FileSystem, current: Components, parts: Components, dest: Outcome, out: Outcome)
    requires parts != [] && Lookup(fs, current + [parts[0]]).Link?
    requires Derivable(fs, [], Target(current, Lookup(fs, current + [parts[0]]).target), dest)
    requires if dest.Resolved? then Derivable(fs, dest.path, parts[1..], out) else out == dest
    ensures Derivable(fs, current, parts, out)
  {
    hide Derives;
    var target := Target(current, Lookup(fs, current + [parts[0]]).target);
    var h: nat :| Derives(fs, h, [], target, dest);
    var k: nat := 0;
    if dest.Resolved? {
      k :| Derives(fs, k, dest.path, parts[1..], out);
      DerivesHigher(fs, k, h + k, dest.path, parts[1..], out);
    }
    DerivesHigher(fs, h, h + k, [], target, dest);
    DerivesLink(fs, h + k, current, parts, dest, out);
  }

  /** Whatever the walk returns, other than a cycle, has a derivation. */
  lemma {:induction false} ResolveSound(fs: FileSystem, current: Components, parts: Components, seen: set<string>,
      out: Outcome)
    requires Resolve(fs, current, parts, seen) == out && !out.Cycle?
    ensures Derivable(fs, current, parts, out)
    decreases |LinkTargets(fs) - seen|, |parts|
  {
    hide *;
    ResolveStep(fs, current, parts, seen);
    if parts == [] {
      DerivableLeaf(fs, current, parts, out);
    } else {
      var entry := Lookup(fs, current + [parts[0]]);
      if entry.Missing? || entry.Plain? {
        ResolveSound(fs, current + [parts[0]], parts[1..], seen, out);
        DerivableStep(fs, current, parts, out);
      } else if entry.Link? {
        var target := Target(current, entry.target);
        TargetListed(fs, current, parts[0]);
        SeenGrows(LinkTargets(fs), seen, Abs(target));
        var dest := Resolve(fs, [], target, seen + {Abs(target)});
        ResolveSound(fs, [], target, seen + {Abs(target)}, dest);
        if dest.Resolved? {
          ResolveSound(fs, dest.path, parts[1..], seen, out);
        }
        DerivableLink(fs, current, parts, dest, out);
      } else {
        DerivableLeaf(fs, current, parts, out);
      }
    }
  }

  ghost predicate DerivableWithin(fs: FileSystem, h: nat, target: Components) {
    exists out :: Derives(fs, h, [], target, out)
  }

  ghost predicate NoneDerivable(fs: FileSystem, h: nat, seen: set<string>) {
    forall t: Components :: Abs(t) in seen ==> !DerivableWithin(fs, h, t)
  }

  /** The least height at which a derivable target is derivable. */
  lemma {:induction false} LeastHeight(fs: FileSystem, h: nat, target: Components) returns (k: nat)
    requires DerivableWithin(fs, h, target)
    ensures 0 < k <= h && DerivableWithin(fs, k, target) && !DerivableWithin(fs, k - 1, target)
  {
    if h > 0 && DerivableWithin(fs, h - 1, target) {
      k := LeastHeight(fs, h - 1, target);
    } else {
      k := h;
    }
  }

  lemma NoneDerivableLower(fs: FileSystem, h: nat, k: nat, seen: set<string>)
    requires k <= h && NoneDerivable(fs, h, seen)
    ensures NoneDerivable(fs, k, seen)
  {
    forall t: Components | Abs(t) in seen ensures !DerivableWithin(fs, k, t) {
      if DerivableWithin(fs, k, t) {
        var out :| Derives(fs, k, [], t, out);
        DerivesHigher(fs, k, h, [], t, out);
      }
    }
  }

  /**
   Cycle detection never fires on a path that has a derivation.  The targets in progress
   are all taller than what remains to be derived, so none of them can come up again.
   */
  lemma {:induction false} ResolveComplete(fs: FileSystem, h: nat, current: Components, parts: Components,
      seen: set<string>, out: Outcome)
    requires h > 0 && Derives(fs, h, current, parts, out)
    requires NoneDerivable(fs, h - 1, seen)
    ensures Resolve(fs, current, parts, seen) == out
    decreases h, 0
  {
    hide Resolve, Derives, LinkTargets, Split, Fold, Join;
    ResolveStep(fs, current, parts, seen);
    if parts == [] {
      DerivesElsewhere(fs, h, current, parts, out);
    } else {
      if h > 1 {
        NoneDerivableLower(fs, h - 1, h - 2, seen);
      }
      var entry := Lookup(fs, current + [parts[0]]);
      if entry.Link? {
        var target := Target(current, entry.target);
        var dest := DerivesAtLink(fs, h, current, parts, out);
        DerivesNoCycle(fs, h - 1, [], target, dest);
        assert DerivableWithin(fs, h - 1, target);
        assert Abs(target) !in seen;
        LinkTargetComplete(fs, h - 1, target, seen, dest);
        if dest.Resolved? {
          DerivesPositive(fs, h - 1, dest.path, parts[1..], out);
          ResolveComplete(fs, h - 1, dest.path, parts[1..], seen, out);
        }
      } else {
        DerivesElsewhere(fs, h, current, parts, out);
        if entry.Missing? || entry.Plain? {
          DerivesPositive(fs, h - 1, current + [parts[0]], parts[1..], out);
          ResolveComplete(fs, h - 1, current + [parts[0]], parts[1..], seen, out);
        }
      }
    }
  }

  lemma {:induction false} LinkTargetComplete(fs: FileSystem, h: nat, target: Components, seen: set<string>,
      dest: Outcome)
    requires Derives(fs, h, [], target, dest)
    requires NoneDerivable(fs, h, seen)
    ensures Resolve(fs, [], target, seen + {Abs(target)}) == dest
    decreases h, 1
  {
    hide Resolve, Derives;
    assert DerivableWithin(fs, h, target);
    var k := LeastHeight(fs, h, target);
    var least :| Derives(fs, k, [], target, least);
    NoneDerivableLower(fs, h, k - 1, seen);
    forall t: Components | Abs(t) in seen + {Abs(target)} ensures !DerivableWithin(fs, k - 1, t) {
      if Abs(t) == Abs(target) {
        AbsInjective(t, target);
      }
    }
    ResolveComplete(fs, k, [], target, seen + {Abs(target)}, least);
    DerivesUnique(fs, h, [], target, least, dest, k);
  }

  /** A path has at most one derivable outcome. */
  lemma {:induction false} DerivesUnique(fs: FileSystem, h: nat, current: Components, parts: Components,
      a: Outcome, b: Outcome, k: nat)
    requires k <= h
    requires Derives(fs, k, current, parts, a) && Derives(fs, h, current, parts, b)
    ensures a == b
    decreases h, 0
  {
    hide Derives;
    if parts != [] && Lookup(fs, current + [parts[0]]).Link? {
      var target := Target(current, Lookup(fs, current + [parts[0]]).target);
      var destA := DerivesAtLink(fs, k, current, parts, a);
      var destB := DerivesAtLink(fs, h, current, parts, b);
      DerivesUnique(fs, h - 1, [], target, destA, destB, k - 1);
      if destA.Resolved? {
        DerivesUnique(fs, h - 1, destA.path, parts[1..], a, b, k - 1);
      }
    } else {
      DerivesElsewhere(fs, k, current, parts, a);
      DerivesElsewhere(fs, h, current, parts, b);
      if parts != [] && (Lookup(fs, current + [parts[0]]).Missing? || Lookup(fs, current + [parts[0]]).Plain?) {
        DerivesUnique(fs, h - 1, current + [parts[0]], parts[1..], a, b, k - 1);
      }
    }
  }

  lemma DerivedIsReturned(fs: FileSystem, parts: Components, out: Outcome)
    requires Derivable(fs, [], parts, out)
    ensures Resolve(fs, [], parts, {}) == out && !out.Cycle?
  {
    var h: nat :| Derives(fs, h, [], parts, out);
    DerivesNoCycle(fs, h, [], parts, out);
    DerivesPositive(fs, h, [], parts, out);
    assert NoneDerivable(fs, h - 1, {});
    ResolveComplete(fs, h, [], parts, {}, out);
  }

  /** The resolver returns a path or an error exactly when that outcome is derivable. */
  lemma ResolveExact(fs: FileSystem, parts: Components, out: Outcome)
    requires !out.Cycle?
    ensures Resolve(fs, [], parts, {}) == out <==> Derivable(fs, [], parts, out)
  {
    if Resolve(fs, [], parts, {}) == out {
      ResolveSound(fs, [], parts, {}, out);
    }
    if Derivable(fs, [], parts, out) {
      DerivedIsReturned(fs, parts, out);
    }
  }

  /** It reports a cycle exactly when the path has no finite derivation at all. */
  lemma CycleExact(fs: FileSystem, parts: Components)
    ensures Resolve(fs, [], parts, {}).Cycle? <==> forall out :: !Derivable(fs, [], parts, out)
  {
    var r := Resolve(fs, [], parts, {});
    if !r.Cycle? {
      ResolveSound(fs, [], parts, {}, r);
    }
    forall out | Derivable(fs, [], parts, out) ensures !r.Cycle? {
      DerivedIsReturned(fs, parts, out);
    }
  }

  /** No prefix of the path is a link, and none is unreadable. */
  ghost predicate Settled(fs: FileSystem, path: Components) {
    forall k | 0 < k <= |path| :: Lookup(fs, path[..k]).Missing? || Lookup(fs, path[..k]).Plain?
  }

  lemma SettledRoot(fs: FileSystem)
    ensures Settled(fs, [])
  {
  }

  lemma SettledStep(fs: FileSystem, current: Components, part: string)
    requires Normal(part) && Settled(fs, current)
    requires Lookup(fs, current + [part]).Missing? || Lookup(fs, current + [part]).Plain?
    ensures Settled(fs, current + [part])
  {
    hide Lookup;
    var next := current + [part];
    forall k | 0 < k <= |next| ensures Lookup(fs, next[..k]).Missing? || Lookup(fs, next[..k]).Plain? {
      assert next[..k] == if k <= |current| then current[..k] else next;
    }
  }

  lemma {:induction false} ResolveSettles(fs: FileSystem, current: Components, parts: Components, seen: set<string>)
    requires Settled(fs, current)
    ensures var r := Resolve(fs, current, parts, seen); r.Resolved? ==> Settled(fs, r.path)
    decreases |LinkTargets(fs) - seen|, |parts|
  {
    hide *;
    ResolveStep(fs, current, parts, seen);
    SettledRoot(fs);
    if parts != [] {
      var entry := Lookup(fs, current + [parts[0]]);
      if entry.Missing? || entry.Plain? {
        SettledStep(fs, current, parts[0]);
        ResolveSettles(fs, current + [parts[0]], parts[1..], seen);
      } else if entry.Link? {
        var target := Target(current, entry.target);
        if Abs(target) !in seen {
          TargetListed(fs, current, parts[0]);
          SeenGrows(LinkTargets(fs), seen, Abs(target));
          ResolveSettles(fs, [], target, seen + {Abs(target)});
          var dest := Resolve(fs, [], target, seen + {Abs(target)});
          if dest.Resolved? {
            ResolveSettles(fs, dest.path, parts[1..], seen);
          }
        }
      }
    }
  }

  /** Resolving a longer path is resolving the rest from where the first part leads. */
  lemma {:induction false} ResolveConcat(fs: FileSystem, current: Components, a: Components, b: Components,
      seen: set<string>)
    ensures var first := Resolve(fs, current, a, seen);
            Resolve(fs, current, a + b, seen) == if first.Resolved? then Resolve(fs, first.path, b, seen) else first
    decreases |a|
  {
    hide *;
    ResolveStep(fs, current, a, seen);
    ResolveStep(fs, current, a + b, seen);
    if a == [] {
      assert a + b == b;
    } else {
      assert (a + b)[0] == a[0] && (a + b)[1..] == a[1..] + b;
      var entry := Lookup(fs, current + [a[0]]);
      if entry.Missing? || entry.Plain? {
        ResolveConcat(fs, current + [a[0]], a[1..], b, seen);
      } else if entry.Link? {
        var target := Target(current, entry.target);
        var dest := Resolve(fs, [], target, seen + {Abs(target)});
        if Abs(target) !in seen && dest.Resolved? {
          ResolveConcat(fs, dest.path, a[1..], b, seen);
        }
      }
    }
  }

  lemma {:induction false} ResolveSettled(fs: FileSystem, current: Components, rest: Components, seen: set<string>)
    requires Settled(fs, current + rest)
    ensures Resolve(fs, current, rest, seen) == Resolved(current + rest)
    decreases |rest|
  {
    if rest == [] {
      assert current + rest == current;
    } else {
      var next := current + [rest[0]];
      assert (current + rest)[..|current| + 1] == next;
      assert next + rest[1..] == current + rest;
      ResolveSettled(fs, next, rest[1..], seen);
    }
  }

  /** A successful resolution is free of links at every prefix and resolves to itself. */
  lemma ResolveIdempotent(fs: FileSystem, parts: Components)
    requires Resolve(fs, [], parts, {}).Resolved?
    ensures Settled(fs, Resolve(fs, [], parts, {}).path)
    ensures Resolve(fs, [], Resolve(fs, [], parts, {}).path, {}) == Resolve(fs, [], parts, {})
  {
    var dest := Resolve(fs, [], parts, {}).path;
    ResolveSettles(fs, [], parts, {});
    assert [] + dest == dest;
    ResolveSettled(fs, [], dest, {});
  }

  /** Resolving `p/x` is resolving `resolve(p)/x`. */
  lemma ResolveComposes(fs: FileSystem, parts: Components, rest: Components)
    requires Resolve(fs, [], parts, {}).Resolved?
    ensures Resolve(fs, [], parts + rest, {}) == Resolve(fs, [], Resolve(fs, [], parts, {}).path + rest, {})
  {
    var dest := Resolve(fs, [], parts, {}).path;
    ResolveIdempotent(fs, parts);
    ResolveConcat(fs, [], parts, rest, {});
    ResolveConcat(fs, [], dest, rest, {});
  }

  /** Whether a link target is being resolved already makes no difference to what it resolves to. */
  lemma TargetResolves(fs: FileSystem, target: Components)
    ensures Resolve(fs, [], target, {Abs(target)}) == Resolve(fs, [], target, {})
  {
    hide Resolve, Derives;
    assert {} + {Abs(target)} == {Abs(target)};
    var (out, under) := (Resolve(fs, [], target, {}), Resolve(fs, [], target, {Abs(target)}));
    if !out.Cycle? {
      ResolveSound(fs, [], target, {}, out);
      var h: nat :| Derives(fs, h, [], target, out);
      LinkTargetComplete(fs, h, target, {}, out);
    } else if !under.Cycle? {
      ResolveSound(fs, [], target, {Abs(target)}, under);
      DerivedIsReturned(fs, target, under);
    }
  }

  lemma ResolveFrom(fs: FileSystem, current: Components, rest: Components)
    requires Settled(fs, current)
    ensures Resolve(fs, [], current + rest, {}) == Resolve(fs, current, rest, {})
  {
    hide Resolve, Settled;
    assert [] + current == current;
    ResolveSettled(fs, [], current, {});
    ResolveConcat(fs, [], current, rest, {});
  }

  /**
   The entry after a settled directory decides, with nothing said of targets in progress: what is missing or
   plain stays, what cannot be read is the answer, and a link gives way to what its target resolves to.
   */
  lemma EntryDecides(fs: FileSystem, dir: Components, part: Components, rest: Components)
    requires |part| == 1 && Settled(fs, dir)
    ensures var path := dir + part;
            var entry := if Abs(path) in fs then fs[Abs(path)] else Missing;
            if entry.Missing? || entry.Plain? then Resolve(fs, [], path, {}) == Resolved(path)
            else if entry.Link? then
              var out := Resolve(fs, [], Target(dir, entry.target), {});
              Resolve(fs, [], path + rest, {}) == if out.Resolved? then Resolve(fs, [], out.path + rest, {}) else out
            else Resolve(fs, [], path + rest, {}) == Failed(entry.error)
  {
    hide Resolve, Settled, Target, LinkTargets;
    var entry := Lookup(fs, dir + part);
    assert dir + part + rest == dir + (part + rest);
    assert (part + rest)[1..] == rest && [part[0]] == part && part[1..] == [];
    if entry.Missing? || entry.Plain? {
      ResolveFrom(fs, dir, part);
      ResolveStep(fs, dir, part, {});
      ResolveStep(fs, dir + part, [], {});
    } else {
      ResolveFrom(fs, dir, part + rest);
      ResolveStep(fs, dir, part + rest, {});
      if entry.Link? {
        var target := Target(dir, entry.target);
        assert {} + {Abs(target)} == {Abs(target)};
        TargetResolves(fs, target);
        var out := Resolve(fs, [], target, {});
        if out.Resolved? {
          SettledRoot(fs);
          ResolveSettles(fs, [], target, {});
          ResolveFrom(fs, out.path, rest);
        }
      }
    }
  }

  /**
   A failure is always that of an entry which is there and cannot be read; a missing component
   never makes the walk fail.
   */
  lemma {:induction false} FailureIsAnEntry(fs: FileSystem, current: Components, parts: Components, seen: set<string>)
    returns (p: string)
    requires Resolve(fs, current, parts, seen).Failed?
    ensures p in fs && (fs[p].Unreadable? || fs[p].BrokenLink?)
    ensures fs[p].error == Resolve(fs, current, parts, seen).error
    decreases |LinkTargets(fs) - seen|, |parts|
  {
    hide Resolve, Target, LinkTargets;
    ResolveStep(fs, current, parts, seen);
    var next := current + [parts[0]];
    var entry := Lookup(fs, next);
    if entry.Missing? || entry.Plain? {
      p := FailureIsAnEntry(fs, next, parts[1..], seen);
    } else if entry.Link? {
      var target := Target(current, entry.target);
      TargetListed(fs, current, parts[0]);
      SeenGrows(LinkTargets(fs), seen, Abs(target));
      var out := Resolve(fs, [], target, seen + {Abs(target)});
      if out.Resolved? {
        p := FailureIsAnEntry(fs, out.path, parts[1..], seen);
      } else {
        p := FailureIsAnEntry(fs, [], target, seen + {Abs(target)});
      }
    } else {
      p := Abs(next);
    }
  }
}
