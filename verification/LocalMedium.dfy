/**
 The local medium's sandbox (go/local/medium.go) on path strings: the resolver as it is
 written, with its mutable `seen` set, and the check that keeps a path inside the root.
 */
module LocalMedium {
  import opened Paths
  import PathBelow
  import PathTree
  import opened SymlinkResolver

  datatype PathError = SymlinkCycle | IoError(error: Errno) | EscapesRoot

  datatype PathResult = PathOk(path: string) | PathErr(error: PathError)

  function Shown(out: Outcome): PathResult {
    match out
    case Resolved(path) => PathOk(Abs(path))
    case Cycle => PathErr(SymlinkCycle)
    case Failed(e) => PathErr(IoError(e))
  }

  /** The components a rooted path has once it is cleaned. */
  function CleanComponents(p: string): Components {
    FoldRooted([], Split(p));
    Fold([], Split(p), true)
  }

  lemma PathOfOne(p: string)
    requires p != "" && p[0] == '/'
    ensures PathJoin([p]) == Abs(CleanComponents(p))
  {
    assert NonEmpty([p]) == [p];
  }

  function AbsolutePath(workingDirectory: string, path: string): string {
    var normalised := NormaliseSlashes(path);
    if HasPrefix(normalised, "/") then PathJoin([normalised]) else PathJoin([workingDirectory, normalised])
  }

  function CleanSandboxPath(path: string): string {
    PathJoin(["/" + NormaliseSlashes(path)])
  }

  predicate IsWithinRoot(root: string, target: string) {
    var cleanRoot := PathJoin([root]);
    var cleanTarget := PathJoin([target]);
    if cleanRoot == "/" then true
    else cleanTarget == cleanRoot || HasPrefix(cleanTarget, cleanRoot + "/")
  }

  predicate Within(root: Components, target: Components) {
    |root| <= |target| && target[..|root|] == root
  }

  lemma AbsPrefix(root: string, target: string)
    ensures HasPrefix("/" + target, "/" + root + "/") <==> HasPrefix(target, root + "/")
  {
    var p, t := "/" + root + "/", "/" + target;
    assert p[1..] == root + "/" && t[1..] == target;
    if HasPrefix(t, p) {
      assert target[..|root| + 1] == t[..|p|][1..];
    }
    if HasPrefix(target, root + "/") {
      assert t[..|p|] == "/" + target[..|root| + 1];
    }
  }

  lemma AbsIsRoot(cs: Components)
    ensures Abs(cs) == "/" <==> cs == []
    ensures PathJoin([Abs(cs)]) == Abs(cs)
  {
    PathOfOne(Abs(cs));
    FoldAbs(cs);
    if Abs(cs) == "/" {
      AbsInjective(cs, []);
    }
  }

  /** The string test is the component test: `/srv/app2` is not inside `/srv/app`. */
  lemma WithinRootByComponents(root: Components, target: Components)
    ensures IsWithinRoot(Abs(root), Abs(target)) <==> Within(root, target)
  {
    hide Join, Split, Fold, PathJoin;
    AbsIsRoot(root);
    AbsIsRoot(target);
    if root != [] {
      if Abs(root) == Abs(target) {
        AbsInjective(root, target);
      }
      if |root| == |target| && Within(root, target) {
        assert target[..|root|] == target;
      }
      AbsPrefix(Join(root), Join(target));
      if target != [] {
        JoinPrefix(root, target);
      } else {
        assert |Abs(target)| == 1;
      }
    }
  }

  lemma {:induction false} NonEmptyAppend(parts: seq<string>, part: string)
    ensures NonEmpty(parts + [part]) == NonEmpty(parts) + if part == "" then [] else [part]
  {
    if parts == [] {
      assert parts + [part] == [part];
      assert NonEmpty([part]) == (if part == "" then [] else [part]) + NonEmpty([]);
    } else {
      var whole := parts + [part];
      assert whole[1..] == parts[1..] + [part] && whole[0] == parts[0];
      NonEmptyAppend(parts[1..], part);
      assert NonEmpty(whole) == (if parts[0] == "" then [] else [parts[0]]) + NonEmpty(whole[1..]);
    }
  }

  method SplitPathParts(path: string) returns (parts: seq<string>)
    ensures parts == NonEmpty(Split(TrimPrefix(path, "/")))
    ensures forall cs: Components :: path == Abs(cs) ==> parts == cs
  {
    var trimmed := TrimPrefix(path, "/");
    parts := [];
    if trimmed != "" {
      var pieces := Split(trimmed);
      for i := 0 to |pieces|
        invariant parts == NonEmpty(pieces[..i])
      {
        assert pieces[..i + 1] == pieces[..i] + [pieces[i]];
        NonEmptyAppend(pieces[..i], pieces[i]);
        if pieces[i] != "" {
          parts := parts + [pieces[i]];
        }
      }
      assert pieces[..|pieces|] == pieces;
    }
    forall cs: Components | path == Abs(cs) ensures parts == cs {
      assert TrimPrefix(Abs(cs), "/") == Join(cs);
      if cs != [] {
        SplitJoin(cs);
        NonEmptyAll(cs);
      }
    }
  }

  /** The `seen` map of the resolver, shared by all the calls of one resolution. */
  class Seen {
    var targets: set<string>

    constructor ()
      ensures targets == {}
    {
      targets := {};
    }
  }

  lemma AbsRoot()
    ensures Abs([]) == "/"
  {
  }

  /** Where a link met in directory `at` leads. */
  function Followed(fs: FileSystem, at: Components, entry: Entry, seen: set<string>): Outcome
    requires entry.Link? || entry.BrokenLink?
  {
    match entry
    case BrokenLink(e) => Failed(e)
    case Link(link) =>
      var target := Target(at, link);
      if Abs(target) in seen then Cycle else Resolve(fs, [], target, seen + {Abs(target)})
  }

  lemma FollowedIs(fs: FileSystem, at: Components, entry: Entry, seen: set<string>)
    requires entry.Link? || entry.BrokenLink?
    ensures entry.BrokenLink? ==> Shown(Followed(fs, at, entry, seen)) == PathErr(IoError(entry.error))
    ensures entry.Link? ==>
              var target := Target(at, entry.target);
              Shown(Followed(fs, at, entry, seen)) ==
              if Abs(target) in seen then PathErr(SymlinkCycle) else Shown(Resolve(fs, [], target, seen + {Abs(target)}))
  {
    hide Resolve, Target, Abs;
  }

  /** One turn of the walk, by what the next path is. */
  lemma WalkStep(fs: FileSystem, at: Components, parts: Components, i: nat, seen: set<string>)
    requires i < |parts|
    ensures PathJoin([Abs(at), parts[i]]) == Abs(at + [parts[i]])
    ensures var entry := EntryAt(fs, Abs(at + [parts[i]]));
            var out := Resolve(fs, at, parts[i..], seen);
            if entry.Missing? || entry.Plain? then out == Resolve(fs, at + [parts[i]], parts[i + 1..], seen)
            else if entry.Unreadable? then out == Failed(entry.error)
            else
              var dest := Followed(fs, at, entry, seen);
              out == if dest.Resolved? then Resolve(fs, dest.path, parts[i + 1..], seen) else dest
  {
    hide Resolve, Target, PathJoin, Abs;
    PathAbsChild(at, parts[i]);
    ResolveStep(fs, at, parts[i..], seen);
    assert parts[i..][0] == parts[i] && parts[i..][1..] == parts[i + 1..];
  }

  /** What every file system has at the top. */
  predicate TopIsDirectory(fs: FileSystem) {
    EntryAt(fs, "/").Plain? || EntryAt(fs, "/").Missing?
  }

  /** The components the walk goes through: those of the path, after dots if the path is relative. */
  lemma WalkedParts(path: string) returns (dots: seq<string>)
    ensures var clean := PathJoin([path]);
            clean != "/" ==> NonEmpty(Split(TrimPrefix(clean, "/"))) == dots + CleanComponents(path)
    ensures forall c :: c in dots ==> c == "." || c == ".."
    ensures HasPrefix(path, "/") ==> dots == []
    ensures PathJoin([path]) == "/" ==> CleanComponents(path) == []
  {
    hide Split, Fold, Join, Clean, PathJoin, Abs;
    var clean := PathJoin([path]);
    if HasPrefix(path, "/") {
      dots := [];
      PathOfOne(path);
      PartsOfAbs(CleanComponents(path));
    } else {
      dots := PathBelow.RelativeParts(path) by { assert path != "" ==> path[..1] == [path[0]]; }
      assert HasPrefix("/", "/");
    }
  }

  lemma PartsOfAbs(cs: Components)
    ensures NonEmpty(Split(TrimPrefix(Abs(cs), "/"))) == [] + cs
    ensures Abs(cs) == "/" ==> cs == []
  {
    hide Split;
    assert TrimPrefix(Abs(cs), "/") == Join(cs);
    AbsIsRoot(cs);
    if cs == [] {
      SplitSingle("");
      assert NonEmpty([""]) == [];
    } else {
      SplitJoin(cs);
      NonEmptyAll(cs);
    }
  }

  lemma DotStep(part: string)
    requires part == "." || part == ".."
    ensures PathJoin(["/", part]) == "/"
  {
    PathAbs([], part);
    SplitSingle(part);
    assert Fold([], [part], true) == [];
    assert Abs([]) == "/";
  }

  /** Before part `i` the walk has come to `current`, and the rest of the path is what is left to resolve. */
  ghost predicate Reached(fs: FileSystem, dots: seq<string>, wanted: Components, seen: set<string>, i: nat,
      current: string, at: Components)
    requires i <= |dots + wanted|
  {
    && current == Abs(at) && (i < |dots| ==> at == [])
    && Resolve(fs, [], wanted, seen) == Resolve(fs, at, wanted[if i < |dots| then 0 else i - |dots|..], seen)
  }

  ghost predicate ReachedBy(fs: FileSystem, dots: seq<string>, wanted: Components, seen: set<string>, i: nat,
      current: string)
    requires i <= |dots + wanted|
  {
    exists at :: Reached(fs, dots, wanted, seen, i, current, at)
  }

  /** One turn of the walk over the parts, dots included, by what the next path is. */
  lemma PartTurn(fs: FileSystem, dots: seq<string>, wanted: Components, seen: set<string>, i: nat, current: string,
      at: Components)
    requires i < |dots + wanted| && Reached(fs, dots, wanted, seen, i, current, at)
    requires (forall c :: c in dots ==> c == "." || c == "..") && (dots != [] ==> TopIsDirectory(fs))
    ensures var part := (dots + wanted)[i];
            var next := PathJoin([current, part]);
            var (entry, out) := (EntryAt(fs, next), Resolve(fs, [], wanted, seen));
            if entry.Missing? || entry.Plain? then ReachedBy(fs, dots, wanted, seen, i + 1, next)
            else if entry.Unreadable? then out == Failed(entry.error)
            else
              Normal(part) && next == Abs(at + [part]) && next in fs &&
              var dest := Followed(fs, at, entry, seen);
              if dest.Resolved? then Reached(fs, dots, wanted, seen, i + 1, Abs(dest.path), dest.path) else out == dest
  {
    hide Resolve, Abs, PathJoin, Followed;
    var part := (dots + wanted)[i];
    if i < |dots| {
      assert part in dots;
      DotStep(part);
      AbsRoot();
      assert Reached(fs, dots, wanted, seen, i + 1, "/", []);
    } else {
      WalkStep(fs, at, wanted, i - |dots|, seen);
      assert part == wanted[i - |dots|];
      var entry := EntryAt(fs, Abs(at + [part]));
      if entry.Missing? || entry.Plain? {
        assert Reached(fs, dots, wanted, seen, i + 1, Abs(at + [part]), at + [part]);
      }
    }
  }

  lemma WalkStarts(fs: FileSystem, dots: seq<string>, wanted: Components, seen: set<string>)
    ensures Reached(fs, dots, wanted, seen, 0, "/", [])
  {
    hide Resolve;
    AbsRoot();
    assert wanted[0..] == wanted;
  }

  lemma WalkEnds(fs: FileSystem, dots: seq<string>, wanted: Components, seen: set<string>, current: string, at: Components)
    requires Reached(fs, dots, wanted, seen, |dots + wanted|, current, at)
    ensures Shown(Resolve(fs, [], wanted, seen)) == PathOk(current)
  {
    hide Resolve;
    assert wanted[|wanted|..] == [];
    ResolveStep(fs, at, [], seen);
  }

  /** A relative path is walked as if it started at the top. */
  method ResolveSymlinksRecursive(fs: FileSystem, path: string, seen: Seen) returns (r: PathResult)
    requires HasPrefix(path, "/") || TopIsDirectory(fs)
    modifies seen
    ensures seen.targets == old(seen.targets)
    ensures r == Shown(Resolve(fs, [], CleanComponents(path), seen.targets))
    decreases |LinkTargets(fs) - seen.targets|, 1
  {
    hide Resolve, LinkTargets, CleanComponents, Target, PathJoin, Abs, Split, Fold, Join, Clean, NonEmpty, HasPrefix,
      TrimPrefix, Followed, Reached, ReachedBy, TopIsDirectory;
    ghost var wanted := CleanComponents(path);
    ghost var dots := WalkedParts(path);
    var clean := PathJoin([path]);
    if clean == "/" {
      AbsRoot();
      ResolveStep(fs, [], [], seen.targets);
      return PathOk(clean);
    }
    var current := "/";
    ghost var at: Components := [];
    var parts := SplitPathParts(clean);
    WalkStarts(fs, dots, wanted, seen.targets);
    for i := 0 to |parts|
      invariant parts == dots + wanted
      invariant seen.targets == old(seen.targets)
      invariant Reached(fs, dots, wanted, seen.targets, i, current, at)
    {
      var part := parts[i];
      PartTurn(fs, dots, wanted, seen.targets, i, current, at);
      var next := PathJoin([current, part]);
      var entry := EntryAt(fs, next);
      if entry.Missing? || entry.Plain? {
        current := next;
        at := Arrived(fs, dots, wanted, seen.targets, i + 1, current);
      } else if entry.Unreadable? {
        return PathErr(IoError(entry.error));
      } else {
        ReachedAt(fs, dots, wanted, seen.targets, i, current, at);
        var resolved := ResolveSymlinkTarget(fs, current, next, at, part, seen);
        if resolved.PathErr? {
          return resolved;
        }
        at := Followed(fs, at, entry, seen.targets).path;
        current := resolved.path;
      }
    }
    WalkEnds(fs, dots, wanted, seen.targets, current, at);
    r := PathOk(current);
  }

  lemma Arrived(fs: FileSystem, dots: seq<string>, wanted: Components, seen: set<string>, i: nat, current: string)
    returns (at: Components)
    requires i <= |dots + wanted| && ReachedBy(fs, dots, wanted, seen, i, current)
    ensures Reached(fs, dots, wanted, seen, i, current, at)
  {
    at :| Reached(fs, dots, wanted, seen, i, current, at);
  }

  lemma ReachedAt(fs: FileSystem, dots: seq<string>, wanted: Components, seen: set<string>, i: nat, current: string,
      at: Components)
    requires i <= |dots + wanted| && Reached(fs, dots, wanted, seen, i, current, at)
    ensures current == Abs(at)
  {
  }

  method ResolveSymlinkTarget(fs: FileSystem, current: string, next: string, ghost at: Components,
      ghost part: string, seen: Seen)
    returns (r: PathResult)
    requires Normal(part) && current == Abs(at) && next == Abs(at + [part])
    requires next in fs && (fs[next].Link? || fs[next].BrokenLink?)
    modifies seen
    ensures seen.targets == old(seen.targets)
    ensures r == Shown(Followed(fs, at, fs[next], seen.targets))
    decreases |LinkTargets(fs) - seen.targets|, 0
  {
    hide *;
    FollowedIs(fs, at, fs[next], seen.targets);
    if fs[next].BrokenLink? {
      return PathErr(IoError(fs[next].error));
    }
    var target := NormaliseSlashes(fs[next].target);
    ghost var aim := Target(at, fs[next].target);
    TargetString(at, fs[next].target);
    if !HasPrefix(target, "/") {
      target := PathJoin([current, target]);
    } else {
      target := PathJoin([target]);
    }
    assert target == Abs(aim);
    if target in seen.targets {
      return PathErr(SymlinkCycle);
    }
    LookupIsEntry(fs, at + [part]);
    TargetListed(fs, at, part);
    SeenGrows(LinkTargets(fs), seen.targets, target);
    seen.targets := seen.targets + {target};
    CleanOfAbs(aim);
    r := ResolveSymlinksRecursive(fs, target, seen);
    seen.targets := seen.targets - {target};
  }

  /** The string the program builds for a link target is the target's components. */
  lemma TargetString(at: Components, link: string)
    ensures var target := NormaliseSlashes(link);
            Abs(Target(at, link)) == if HasPrefix(target, "/") then PathJoin([target]) else PathJoin([Abs(at), target])
  {
    var target := NormaliseSlashes(link);
    PathAbs(at, target);
    if HasPrefix(target, "/") {
      PathOfOne(target);
    }
  }

  lemma LookupIsEntry(fs: FileSystem, cs: Components)
    ensures Lookup(fs, cs) == EntryAt(fs, Abs(cs)) == if Abs(cs) in fs then fs[Abs(cs)] else Missing
  {
  }

  lemma CleanOfAbs(cs: Components)
    ensures CleanComponents(Abs(cs)) == cs && HasPrefix(Abs(cs), "/")
  {
    FoldAbs(cs);
  }

  method ResolveSymlinksPath(fs: FileSystem, workingDirectory: string, path: string) returns (r: PathResult)
    requires workingDirectory != "" && (HasPrefix(workingDirectory, "/") || TopIsDirectory(fs))
    ensures r == Shown(Resolve(fs, [], CleanComponents(AbsolutePath(workingDirectory, path)), {}))
  {
    AbsolutePathIsRooted(workingDirectory, path);
    var seen := new Seen();
    r := ResolveSymlinksRecursive(fs, AbsolutePath(workingDirectory, path), seen);
  }

  lemma AbsolutePathIsRooted(workingDirectory: string, path: string)
    requires workingDirectory != ""
    ensures HasPrefix(workingDirectory, "/") ==> HasPrefix(AbsolutePath(workingDirectory, path), "/")
  {
    hide Join, Split, Fold;
    var n := NormaliseSlashes(path);
    PathOfTwo(workingDirectory, n);
    if HasPrefix(workingDirectory, "/") {
      var whole := if n == "" then workingDirectory else workingDirectory + "/" + n;
      PathOfOne(whole);
      if HasPrefix(n, "/") {
        PathOfOne(n);
      }
    }
  }

  // Paths that went through NormaliseSlashes hold no backslash

  predicate Slashed(cs: seq<string>) {
    forall c :: c in cs ==> '\\' !in c
  }

  lemma {:induction false} SplitSlashed(p: string)
    requires '\\' !in p
    ensures Slashed(Split(p))
  {
    if p != "" {
      SplitSlashed(p[1..]);
    }
  }

  lemma {:induction false} FoldSlashed(out: seq<string>, parts: seq<string>, rooted: bool)
    requires Slashed(out) && Slashed(parts)
    ensures Slashed(Fold(out, parts, rooted))
    decreases |parts|
  {
    if parts != [] {
      FoldSlashed(Push(out, parts[0], rooted), parts[1..], rooted);
    }
  }

  lemma TargetSlashed(current: Components, link: string)
    requires Slashed(current)
    ensures Slashed(Target(current, link))
  {
    SplitSlashed(NormaliseSlashes(link));
    FoldSlashed(current, Split(NormaliseSlashes(link)), true);
    FoldSlashed([], Split(NormaliseSlashes(link)), true);
  }

  lemma NextSlashed(current: Components, parts: Components)
    requires Slashed(current) && Slashed(parts) && parts != []
    ensures Slashed(current + [parts[0]]) && Slashed(parts[1..]) && Slashed([])
  {
  }

  lemma {:induction false} ResolveSlashed(fs: FileSystem, current: Components, parts: Components, seen: set<string>)
    requires Slashed(current) && Slashed(parts)
    ensures var r := Resolve(fs, current, parts, seen); r.Resolved? ==> Slashed(r.path)
    decreases |LinkTargets(fs) - seen|, |parts|
  {
    hide Resolve, Target, LinkTargets, Slashed;
    ResolveStep(fs, current, parts, seen);
    if parts != [] {
      var next := current + [parts[0]];
      NextSlashed(current, parts);
      if Lookup(fs, next).Missing? || Lookup(fs, next).Plain? {
        ResolveSlashed(fs, next, parts[1..], seen);
      } else if Lookup(fs, next).Link? {
        var target := Target(current, Lookup(fs, next).target);
        TargetSlashed(current, Lookup(fs, next).target);
        if Abs(target) !in seen {
          TargetListed(fs, current, parts[0]);
          SeenGrows(LinkTargets(fs), seen, Abs(target));
          ResolveSlashed(fs, [], target, seen + {Abs(target)});
          var dest := Resolve(fs, [], target, seen + {Abs(target)});
          if dest.Resolved? {
            ResolveSlashed(fs, dest.path, parts[1..], seen);
          }
        }
      }
    }
  }

  lemma {:induction false} JoinSlashed(cs: seq<string>)
    requires Slashed(cs)
    ensures '\\' !in Join(cs)
  {
    if |cs| > 1 {
      JoinSlashed(cs[1..]);
    }
  }

  lemma AbsoluteOfAbs(workingDirectory: string, cs: Components)
    requires Slashed(cs)
    ensures CleanComponents(AbsolutePath(workingDirectory, Abs(cs))) == cs
  {
    JoinSlashed(cs);
    assert NormaliseSlashes(Abs(cs)) == Abs(cs);
    PathOfOne(Abs(cs));
    FoldAbs(cs);
  }

  // The check behind every operation of the sandboxed medium

  datatype Verdict =
    | Allowed(path: Components)
    | Escapes
    | Unresolved(out: Outcome)

  /** Resolve after every component, and stop at the first that leaves the root. */
  function Validate(fs: FileSystem, root: Components, current: Components, parts: Components): Verdict
    decreases |parts|
  {
    if parts == [] then Allowed(current)
    else
      match Resolve(fs, [], current + [parts[0]], {})
      case Resolved(dest) => if Within(root, dest) then Validate(fs, root, dest, parts[1..]) else Escapes
      case other => Unresolved(other)
  }

  function Judged(v: Verdict): PathResult {
    match v
    case Allowed(path) => PathOk(Abs(path))
    case Escapes => PathErr(EscapesRoot)
    case Unresolved(out) => Shown(out)
  }

  ghost predicate ResolvesInside(fs: FileSystem, root: Components, path: Components) {
    var out := Resolve(fs, [], path, {});
    out.Resolved? && Within(root, out.path)
  }

  /** Validating step by step is judging each prefix of the whole path by its full resolution. */
  lemma {:induction false} ValidateStep(fs: FileSystem, root: Components, current: Components, done: Components,
      parts: Components)
    requires Settled(fs, current) && Resolve(fs, [], done, {}) == Resolved(current) && parts != []
    ensures Resolve(fs, [], current + [parts[0]], {}) == Resolve(fs, [], done + [parts[0]], {})
    ensures var out := Resolve(fs, [], done + [parts[0]], {}); out.Resolved? ==> Settled(fs, out.path)
  {
    ResolveComposes(fs, done, [parts[0]]);
    ResolveSettles(fs, [], done + [parts[0]], {});
  }

  lemma {:induction false} ValidateByPrefixes(fs: FileSystem, root: Components, current: Components,
      done: Components, parts: Components)
    returns (bad: nat)
    requires Settled(fs, current) && Resolve(fs, [], done, {}) == Resolved(current) && Within(root, current)
    ensures bad <= |parts|
    ensures forall k | 0 <= k < bad :: ResolvesInside(fs, root, done + parts[..k])
    ensures match Validate(fs, root, current, parts)
            case Allowed(path) =>
              bad == |parts| && ResolvesInside(fs, root, done + parts) &&
              Resolve(fs, [], done + parts, {}) == Resolved(path)
            case Escapes =>
              var out := Resolve(fs, [], done + parts[..bad], {});
              out.Resolved? && !Within(root, out.path)
            case Unresolved(out) =>
              !out.Resolved? && Resolve(fs, [], done + parts[..bad], {}) == out
    decreases |parts|
  {
    hide Resolve, Settled, Within;
    if parts == [] {
      assert done + parts == done;
      return 0;
    }
    ValidateStep(fs, root, current, done, parts);
    var out := Resolve(fs, [], done + [parts[0]], {});
    assert parts[..1] == [parts[0]] && done + parts[..0] == done;
    if !out.Resolved? || !Within(root, out.path) {
      return 1;
    }
    var below := ValidateByPrefixes(fs, root, out.path, done + [parts[0]], parts[1..]);
    bad := below + 1;
    assert forall k | 0 <= k < |parts| :: done + [parts[0]] + parts[1..][..k] == done + parts[..k + 1];
    assert done + [parts[0]] + parts[1..] == done + parts;
    forall k | 0 <= k < bad ensures ResolvesInside(fs, root, done + parts[..k]) {
      if k > 0 {
        assert ResolvesInside(fs, root, done + [parts[0]] + parts[1..][..k - 1]);
      }
    }
  }

  lemma RootInside(fs: FileSystem, root: Components)
    requires Settled(fs, root)
    ensures Resolve(fs, [], root, {}) == Resolved(root) && Within(root, root) && Settled(fs, [])
  {
    assert [] + root == root;
    ResolveSettled(fs, [], root, {});
  }

  /**
   The sandbox theorem.  For a root that is resolved itself, a path is allowed exactly when
   every prefix of root joined with it resolves inside the root.  What is returned is then the full
   resolution of the joined path; it lies inside the root and holds no link.
   */
  lemma ValidateExact(fs: FileSystem, root: Components, parts: Components)
    requires Settled(fs, root)
    ensures Validate(fs, root, root, parts).Allowed? <==>
            forall k | 0 <= k <= |parts| :: ResolvesInside(fs, root, root + parts[..k])
    ensures var v := Validate(fs, root, root, parts);
            v.Allowed? ==>
              Resolve(fs, [], root + parts, {}) == Resolved(v.path) && Within(root, v.path) && Settled(fs, v.path)
  {
    hide Resolve, Settled, Within, Lookup;
    RootInside(fs, root);
    var bad := ValidateByPrefixes(fs, root, root, root, parts);
    ResolveSettles(fs, [], root + parts, {});
    assert parts[..|parts|] == parts;
    if Validate(fs, root, root, parts).Allowed? {
      forall k | 0 <= k <= |parts| ensures ResolvesInside(fs, root, root + parts[..k]) {
      }
    } else {
      assert !ResolvesInside(fs, root, root + parts[..bad]);
    }
  }

  /** A refusal names the first prefix that fails, and why it fails. */
  lemma ValidateRefusal(fs: FileSystem, root: Components, parts: Components)
    returns (bad: nat)
    requires Settled(fs, root) && !Validate(fs, root, root, parts).Allowed?
    ensures bad <= |parts|
    ensures forall k | 0 <= k < bad :: ResolvesInside(fs, root, root + parts[..k])
    ensures var out := Resolve(fs, [], root + parts[..bad], {});
            Validate(fs, root, root, parts) == if out.Resolved? then Escapes else Unresolved(out)
    ensures !ResolvesInside(fs, root, root + parts[..bad])
  {
    hide Resolve, Settled, Within, Lookup;
    RootInside(fs, root);
    bad := ValidateByPrefixes(fs, root, root, root, parts);
  }

  lemma EmptyAtTop()
    ensures NormaliseSlashes("") == "" && Abs(Fold([], Split(""), true)) == "/"
  {
    SplitSingle("");
    assert Fold([], [""], true) == [];
  }

  lemma JoinOfNames(names: Components)
    requires names != []
    ensures Join(names) != "" && !HasPrefix(Join(names), "/")
  {
    assert names[0] in names && names[0][0] in names[0];
    PathBelow.FirstOfJoin(names);
  }

  /** A relative path is taken from an absolute working directory, an absolute one by itself. */
  lemma AbsolutePathIs(cs: Components, path: string)
    ensures var slashed := NormaliseSlashes(path);
            AbsolutePath(Abs(cs), path) == "/" + Join(Fold(if HasPrefix(slashed, "/") then [] else cs, Split(slashed), true))
  {
    hide Split, Fold, PathJoin, Join;
    var slashed := NormaliseSlashes(path);
    PathAbs(cs, slashed);
    if HasPrefix(slashed, "/") {
      PathOfOne(slashed);
    }
  }

  /** Names are taken below a relative working directory too; below `.` they stand by themselves. */
  lemma AbsolutePathOfNames(ws: Components, names: Components)
    requires names != [] && Slashed(names)
    ensures ws != [] ==> AbsolutePath(Join(ws), Join(names)) == Join(ws + names)
    ensures AbsolutePath(".", Join(names)) == Join(names)
  {
    hide Split, Fold, Join, Clean, HasPrefix, NonEmpty, PathJoin;
    JoinSlashed(names);
    JoinOfNames(names);
    assert NormaliseSlashes(Join(names)) == Join(names);
    assert AbsolutePath(Join(ws), Join(names)) == PathJoin([Join(ws), Join(names)]);
    assert AbsolutePath(".", Join(names)) == PathJoin([".", Join(names)]);
    JoinOfTwo(".", Join(names));
    assert "." + "/" + Join(names) == "./" + Join(names);
    CleanOfNames(names);
    if ws != [] {
      JoinOfNames(ws);
      JoinOfTwo(Join(ws), Join(names));
      JoinConcat(ws, names);
      CleanOfNames(ws + names);
    }
  }

  lemma ComponentsOfNames(names: Components)
    requires names != []
    ensures CleanComponents(Join(names)) == names
  {
    hide Join, Split, Fold;
    SplitJoin(names);
    FoldNormal([], names, true);
    assert [] + names == names;
  }

  lemma NextName(names: Components, wanted: Components)
    requires names != [] && wanted != [] && Slashed(names) && Slashed(wanted)
    ensures PathJoin([Join(names), wanted[0]]) == Join(names + [wanted[0]]) && Slashed(names + [wanted[0]])
  {
    hide Join, Clean, PathJoin, NonEmpty;
    JoinOfNames(names);
    JoinOfTwo(Join(names), wanted[0]);
    JoinConcat(names, [wanted[0]]);
    assert Join([wanted[0]]) == wanted[0] by { JoinSingle(wanted[0]); }
    CleanOfNames(names + [wanted[0]]);
  }

  lemma JoinSingle(name: string)
    ensures Join([name]) == name
  {
  }

  lemma JoinOfTwo(a: string, b: string)
    requires a != "" && b != ""
    ensures PathJoin([a, b]) == Clean(a + "/" + b)
  {
    hide Clean;
    assert NonEmpty([a, b]) == [a, b] && Join([a, b]) == a + "/" + b by { TwoKept(a, b); }
  }

  lemma TwoKept(a: string, b: string)
    requires a != "" && b != ""
    ensures NonEmpty([a, b]) == [a, b] && Join([a, b]) == a + "/" + b
  {
    assert [a, b][1..] == [b] && [b][1..] == [];
    assert NonEmpty([b]) == [b] by { assert NonEmpty([]) == []; }
  }

  lemma CleanOfNames(names: Components)
    requires names != []
    ensures Clean(Join(names)) == Join(names) && Clean("./" + Join(names)) == Join(names)
  {
    hide Fold, Join, Split;
    SplitJoin(names);
    FoldNormal([], names, false);
    JoinOfNames(names);
    assert Join(names)[..1] == [Join(names)[0]] && Join(names)[0] != '/';
    SplitConcat(".", Join(names));
    SplitSingle(".");
    assert "." + "/" + Join(names) == "./" + Join(names);
    FoldConcat([], ["."], names, false);
    PathBelow.FoldDot();
    assert [] + names == names;
  }

  /** A root that does not resolve refuses every path below it, with the error of the root. */
  lemma UnresolvedRoot(fs: FileSystem, root: Components, parts: Components)
    requires parts != [] && !Resolve(fs, [], root, {}).Resolved?
    ensures Validate(fs, root, root, parts) == Unresolved(Resolve(fs, [], root, {}))
  {
    hide Resolve;
    ResolveConcat(fs, [], root, [parts[0]], {});
  }

  /** A local medium rooted at `filesystemRoot`. */
  class Medium {
    const filesystemRoot: string

    function RootComponents(): Components {
      CleanComponents(filesystemRoot)
    }

    predicate RootIsAbsolute() {
      filesystemRoot == Abs(RootComponents()) && Slashed(RootComponents())
    }

    /** Only a relative working directory and a root that does not resolve leave a relative root. */
    predicate RootIsRelative() {
      filesystemRoot != "" && !HasPrefix(filesystemRoot, "/") && PathJoin([filesystemRoot]) == filesystemRoot
    }

    predicate Valid() {
      RootIsAbsolute() || RootIsRelative()
    }

    /** A root that resolves is replaced by what it resolves to; any other is kept as it is. */
    constructor (fs: FileSystem, workingDirectory: string, root: string)
      requires workingDirectory != "" && '\\' !in workingDirectory
      requires HasPrefix(workingDirectory, "/") || TopIsDirectory(fs)
      ensures Valid()
      ensures var path := AbsolutePath(workingDirectory, root);
              match Resolve(fs, [], CleanComponents(AbsolutePath(workingDirectory, path)), {})
              case Resolved(dest) => RootIsAbsolute() && RootComponents() == dest && Settled(fs, dest)
              case _ => filesystemRoot == path
      ensures HasPrefix(workingDirectory, "/") ==>
                var path := AbsolutePath(workingDirectory, root);
                RootIsAbsolute() && CleanComponents(AbsolutePath(workingDirectory, path)) == CleanComponents(path)
    {
      var absoluteRoot := AbsolutePath(workingDirectory, root);
      ghost var asked := CleanComponents(AbsolutePath(workingDirectory, absoluteRoot));
      AbsolutePathIsClean(workingDirectory, root);
      AbsolutePathIsClean(workingDirectory, absoluteRoot);
      AbsolutePathIsRooted(workingDirectory, root);
      hide Resolve, CleanComponents, AbsolutePath, Abs, PathJoin, HasPrefix, Settled, Slashed;
      var resolved := ResolveSymlinksPath(fs, workingDirectory, absoluteRoot);
      if resolved.PathOk? {
        ghost var dest := Resolve(fs, [], asked, {}).path;
        ResolvedRoot(fs, asked, dest);
        absoluteRoot := resolved.path;
      }
      filesystemRoot := absoluteRoot;
    }

    /** Where a path would sit if the file system had no links. */
    function SandboxedPath(workingDirectory: string, path: string): string {
      if path == "" then filesystemRoot
      else if filesystemRoot == "/" && !HasPrefix(NormaliseSlashes(path), "/") then
        PathJoin([workingDirectory, NormaliseSlashes(path)])
      else
        var clean := CleanSandboxPath(path);
        if filesystemRoot == "/" then clean else PathJoin([filesystemRoot, TrimPrefix(clean, "/")])
    }

    /**
     The whole file system: the empty path is its top, a relative path is taken from the working directory,
     and an absolute one by itself.
     */
    lemma SandboxedAtTop(workingDirectory: string, cs: Components, path: string)
      requires filesystemRoot == "/"
      ensures var slashed := NormaliseSlashes(path);
              (path == "" ==> SandboxedPath(workingDirectory, path) == "/") &&
              (HasPrefix(slashed, "/") ==>
                 SandboxedPath(workingDirectory, path) == Abs(Fold([], Split(slashed), true))) &&
              (path != "" && !HasPrefix(slashed, "/") && workingDirectory == Abs(cs) ==>
                 SandboxedPath(workingDirectory, path) == Abs(Fold(cs, Split(slashed), true)))
    {
      hide Split, Fold, PathJoin, Join;
      var slashed := NormaliseSlashes(path);
      PathAbs(cs, slashed);
      PathOfOne("/" + slashed);
      AskedIs(path);
    }

    /** Ordinary names are taken below the working directory. */
    lemma SandboxedNames(cs: Components, names: Components)
      requires filesystemRoot == "/" && names != [] && Slashed(names)
      ensures SandboxedPath(Abs(cs), Join(names)) == Abs(cs + names)
    {
      hide Split, Fold, PathJoin, Join;
      JoinSlashed(names);
      assert NormaliseSlashes(Join(names)) == Join(names);
      JoinOfNames(names);
      SandboxedAtTop(Abs(cs), cs, Join(names));
      SplitJoin(names);
      FoldNormal(cs, names, true);
    }

    function Asked(path: string): Components {
      CleanComponents("/" + NormaliseSlashes(path))
    }

    /** Below a root other than `/`, the path asked for is always lexically inside the root. */
    lemma SandboxedPathInside(workingDirectory: string, path: string)
      requires RootIsAbsolute() && filesystemRoot != "/"
      ensures SandboxedPath(workingDirectory, path) == Abs(RootComponents() + Asked(path))
    {
      var asked := Asked(path);
      PathOfOne("/" + NormaliseSlashes(path));
      assert TrimPrefix(Abs(asked), "/") == Join(asked);
      PathAbs(RootComponents(), Join(asked));
      if path == "" {
        assert NormaliseSlashes(path) == "";
        assert Split("/") == ["", ""];
        FoldAbs([]);
        assert Abs([]) == "/";
        assert asked == [];
        assert RootComponents() + asked == RootComponents();
      } else if asked == [] {
        assert Split("") == [""];
        assert Fold(RootComponents(), [""], true) == RootComponents();
        assert RootComponents() + asked == RootComponents();
      } else {
        SplitJoin(asked);
        FoldNormal(RootComponents(), asked, true);
      }
    }

    /**
     What a path is answered: below an absolute root, the verdict on its components; a relative root
     holds no resolved path, so everything below it is refused.
     */
    function Answer(fs: FileSystem, workingDirectory: string, wanted: Components): PathResult {
      if RootIsAbsolute() then Judged(Validate(fs, RootComponents(), RootComponents(), wanted))
      else if wanted == [] then PathOk(filesystemRoot)
      else
        var next := PathJoin([filesystemRoot, wanted[0]]);
        var out := Resolve(fs, [], CleanComponents(AbsolutePath(workingDirectory, next)), {});
        if out.Resolved? then PathErr(EscapesRoot) else Shown(out)
    }

    /** Below a root that stayed relative: the root itself is allowed, and every path below it is refused. */
    lemma RelativeRootAnswer(fs: FileSystem, ws: Components, names: Components, wanted: Components)
      requires RootIsRelative() && names != [] && filesystemRoot == Join(names) && Slashed(names) && Slashed(wanted)
      ensures wanted == [] ==> Answer(fs, ".", wanted) == Answer(fs, Join(ws), wanted) == PathOk(Join(names))
      ensures wanted != [] ==>
                var out := Resolve(fs, [], names + [wanted[0]], {});
                Answer(fs, ".", wanted) == if out.Resolved? then PathErr(EscapesRoot) else Shown(out)
      ensures wanted != [] && ws != [] ==>
                var out := Resolve(fs, [], ws + (names + [wanted[0]]), {});
                Answer(fs, Join(ws), wanted) == if out.Resolved? then PathErr(EscapesRoot) else Shown(out)
    {
      hide Join, Resolve, CleanComponents, AbsolutePath, PathJoin, Validate, Slashed, RootIsRelative;
      RelativeIsNot();
      if wanted != [] {
        NextName(names, wanted);
        var next := names + [wanted[0]];
        AbsolutePathOfNames(ws, next);
        ComponentsOfNames(next);
        if ws != [] {
          ComponentsOfNames(ws + next);
        }
      }
    }

    lemma RelativeIsNot()
      requires RootIsRelative()
      ensures !RootIsAbsolute()
    {
    }

    /** Below an absolute root that does not resolve every path gets the error of the root; only the root itself is allowed. */
    lemma UnresolvedAnswer(fs: FileSystem, workingDirectory: string, wanted: Components)
      requires RootIsAbsolute() && !Resolve(fs, [], RootComponents(), {}).Resolved?
      ensures Answer(fs, workingDirectory, wanted) ==
              if wanted == [] then PathOk(filesystemRoot) else Shown(Resolve(fs, [], RootComponents(), {}))
    {
      hide Resolve, CleanComponents;
      if wanted != [] {
        UnresolvedRoot(fs, RootComponents(), wanted);
      }
    }

    method ValidatePath(fs: FileSystem, workingDirectory: string, path: string) returns (r: PathResult)
      requires Valid() && workingDirectory != "" && (HasPrefix(workingDirectory, "/") || TopIsDirectory(fs))
      ensures r == if filesystemRoot == "/" then PathOk(SandboxedPath(workingDirectory, path))
                   else Answer(fs, workingDirectory, Asked(path))
      ensures forall cs: Components :: filesystemRoot == "/" && workingDirectory == Abs(cs) ==>
                r == PathOk(Abs(Fold(if path == "" || HasPrefix(NormaliseSlashes(path), "/") then [] else cs,
                                           Split(NormaliseSlashes(path)), true)))
    {
      if filesystemRoot == "/" {
        forall cs: Components | workingDirectory == Abs(cs)
          ensures SandboxedPath(workingDirectory, path) ==
                  Abs(Fold(if path == "" || HasPrefix(NormaliseSlashes(path), "/") then [] else cs,
                                 Split(NormaliseSlashes(path)), true))
        {
          SandboxedAtTop(workingDirectory, cs, path);
          EmptyAtTop();
        }
        return PathOk(SandboxedPath(workingDirectory, path));
      }
      hide *;
      ghost var wanted := Asked(path);
      AskedSlashed(path);
      CleanSandboxPathIs(path);
      var parts := SplitPathParts(CleanSandboxPath(path));
      var current := filesystemRoot;
      ghost var at := RootComponents();
      StartsWalking(fs, wanted);
      for i := 0 to |parts|
        invariant parts == wanted && Walking(fs, wanted, i, current, at)
      {
        var next := PathJoin([current, parts[i]]);
        Turn(fs, workingDirectory, wanted, i, current, at);
        // A missing component is no error of the resolver, so every error ends the call.
        var realNext := ResolveSymlinksPath(fs, workingDirectory, next);
        if realNext.PathErr? {
          return realNext;
        }
        if !IsWithinRoot(filesystemRoot, realNext.path) {
          return PathErr(EscapesRoot);
        }
        current, at := realNext.path, Resolve(fs, [], CleanComponents(AbsolutePath(workingDirectory, next)), {}).path;
      }
      EndsWalking(fs, workingDirectory, wanted, current, at);
      r := PathOk(current);
    }

    /** Before component `i` the walk has come to `current`; below a relative root it never gets further than the start. */
    ghost predicate Walking(fs: FileSystem, wanted: Components, i: nat, current: string, at: Components)
      requires i <= |wanted|
    {
      && Slashed(wanted)
      && (RootIsRelative() ==> i == 0 && current == filesystemRoot)
      && (RootIsAbsolute() ==>
            current == Abs(at) && Slashed(at) &&
            Validate(fs, RootComponents(), RootComponents(), wanted) == Validate(fs, RootComponents(), at, wanted[i..]))
    }

    lemma StartsWalking(fs: FileSystem, wanted: Components)
      requires Slashed(wanted)
      ensures Walking(fs, wanted, 0, filesystemRoot, RootComponents())
    {
      hide Slashed, Validate, CleanComponents;
    }

    lemma EndsWalking(fs: FileSystem, workingDirectory: string, wanted: Components, current: string, at: Components)
      requires Valid() && Walking(fs, wanted, |wanted|, current, at)
      ensures Answer(fs, workingDirectory, wanted) == PathOk(current)
    {
      hide Slashed, Resolve, CleanComponents;
      RootKinds();
      assert wanted[|wanted|..] == [];
    }

    lemma Turn(fs: FileSystem, workingDirectory: string, wanted: Components, i: nat, current: string, at: Components)
      requires Valid() && i < |wanted| && Walking(fs, wanted, i, current, at)
      ensures var next := PathJoin([current, wanted[i]]);
              var out := Resolve(fs, [], CleanComponents(AbsolutePath(workingDirectory, next)), {});
              if Shown(out).PathErr? then Answer(fs, workingDirectory, wanted) == Shown(out)
              else if !IsWithinRoot(filesystemRoot, Shown(out).path) then
                Answer(fs, workingDirectory, wanted) == PathErr(EscapesRoot)
              else out.Resolved? && Walking(fs, wanted, i + 1, Shown(out).path, out.path)
    {
      hide Slashed, Resolve, Validate, CleanComponents, AbsolutePath, PathJoin, Abs, IsWithinRoot;
      RootKinds();
      var next := PathJoin([current, wanted[i]]);
      var out := Resolve(fs, [], CleanComponents(AbsolutePath(workingDirectory, next)), {});
      if RootIsAbsolute() {
        ValidateLoopStep(fs, workingDirectory, RootComponents(), at, wanted, i);
      } else {
        RelativeHoldsNothing(out);
      }
    }

    lemma RootKinds()
      requires Valid()
      ensures RootIsAbsolute() != RootIsRelative()
      ensures RootIsAbsolute() ==> filesystemRoot == Abs(RootComponents()) && Slashed(RootComponents())
    {
      assert HasPrefix(Abs(RootComponents()), "/") by {
        assert Abs(RootComponents())[..1] == "/";
      }
    }

    /** No resolved path, which is absolute, lies inside a relative root. */
    lemma RelativeHoldsNothing(out: Outcome)
      ensures RootIsRelative() && out.Resolved? ==> !IsWithinRoot(filesystemRoot, Abs(out.path))
    {
      if RootIsRelative() && out.Resolved? {
        AbsIsRoot(out.path);
        var (root, target) := (filesystemRoot, Abs(out.path));
        assert target[0] == '/' && root[0] != '/' by {
          assert root[..1] == [root[0]];
        }
        assert (root + "/")[0] == root[0];
        assert |target| > |root| ==> target[..|root| + 1][0] == '/';
      }
    }

    lemma CleanSandboxPathIs(path: string)
      ensures CleanSandboxPath(path) == Abs(Asked(path))
    {
      PathOfOne("/" + NormaliseSlashes(path));
    }

    /** The components asked for are those of the slashed path, walked from the top. */
    lemma AskedIs(path: string)
      ensures Asked(path) == Fold([], Split(NormaliseSlashes(path)), true)
    {
      hide Split;
      var n := NormaliseSlashes(path);
      assert "/" + n == "" + "/" + n;
      SplitConcat("", n);
      SplitSingle("");
      FoldConcat([], [""], Split(n), true);
      assert Fold([], [""], true) == [];
    }

    lemma AskedSlashed(path: string)
      ensures Slashed(Asked(path))
    {
      SplitSlashed("/" + NormaliseSlashes(path));
      FoldSlashed([], Split("/" + NormaliseSlashes(path)), true);
    }
  }

  lemma ResolvedRoot(fs: FileSystem, asked: Components, dest: Components)
    requires Slashed(asked) && Resolve(fs, [], asked, {}) == Resolved(dest)
    ensures CleanComponents(Abs(dest)) == dest && Slashed(dest) && Settled(fs, dest)
  {
    hide Resolve;
    ResolveSlashed(fs, [], asked, {});
    ResolveSettles(fs, [], asked, {});
    FoldAbs(dest);
  }

  /** An absolute path is clean and holds no backslash; it stays relative only below a relative working directory. */
  lemma AbsolutePathIsClean(workingDirectory: string, path: string)
    requires workingDirectory != "" && '\\' !in workingDirectory
    ensures var p := AbsolutePath(workingDirectory, path);
            Slashed(CleanComponents(p)) &&
            if HasPrefix(p, "/") then p == Abs(CleanComponents(p)) && CleanComponents(AbsolutePath(workingDirectory, p)) == CleanComponents(p)
            else p != "" && PathJoin([p]) == p
  {
    hide Split, Fold, Join, Clean, PathJoin, Abs;
    var n := NormaliseSlashes(path);
    var whole := if HasPrefix(n, "/") then n else if n == "" then workingDirectory else workingDirectory + "/" + n;
    PathOfTwo(workingDirectory, n);
    var p := AbsolutePath(workingDirectory, path);
    assert p == PathJoin([whole]) && whole != "" && '\\' !in whole;
    if HasPrefix(whole, "/") {
      RootedIsClean(workingDirectory, whole);
    } else {
      RelativeIsClean(whole);
    }
  }

  lemma RootedIsClean(workingDirectory: string, whole: string)
    requires HasPrefix(whole, "/") && '\\' !in whole
    ensures var p := PathJoin([whole]);
            HasPrefix(p, "/") && p == Abs(CleanComponents(p)) && Slashed(CleanComponents(p)) &&
            CleanComponents(AbsolutePath(workingDirectory, p)) == CleanComponents(p)
  {
    hide Split, Fold, Join, Clean;
    PathOfOne(whole);
    SplitSlashed(whole);
    FoldSlashed([], Split(whole), true);
    FoldAbs(CleanComponents(whole));
    AbsoluteOfAbs(workingDirectory, CleanComponents(whole));
  }

  lemma RelativeIsClean(whole: string)
    requires whole != "" && !HasPrefix(whole, "/") && '\\' !in whole
    ensures var p := PathJoin([whole]);
            p != "" && !HasPrefix(p, "/") && PathJoin([p]) == p && Slashed(CleanComponents(p))
  {
    var p := PathJoin([whole]);
    assert whole[..1] == [whole[0]];
    PathJoinOne(whole);
    hide Split, Fold, Join, PathJoin, NonEmpty;
    var dots := PathBelow.RelativeParts(whole);
    var out := Fold([], Split(whole), false);
    SplitSlashed(whole);
    FoldSlashed([], Split(whole), false);
    JoinSlashed(out);
    assert '\\' !in p;
    PathTree.CleanNonEmpty(whole);
    SplitSlashed(p);
    FoldSlashed([], Split(p), true);
  }

  /** Without a working directory the empty root is the top of the file system. */
  lemma EmptyRootIsTop(fs: FileSystem)
    ensures var path := AbsolutePath(".", "");
            Resolve(fs, [], CleanComponents(AbsolutePath(".", path)), {}) == Resolved([])
  {
    SplitSingle(".");
    assert "." + "/" + "." == "./.";
    SplitConcat(".", ".");
    assert Fold([], ["."], false) == [] && Fold([], ["."], true) == [];
    assert Fold([], [".", "."], false) == Fold([], ["."], false) by { assert [".", "."][1..] == ["."]; }
    assert Clean(".") == "." && Clean("./.") == "." by { assert ["."] + ["."] == [".", "."]; }
    DotPaths();
    ResolveStep(fs, [], [], {});
  }

  lemma DotPaths()
    requires Clean(".") == "." && Clean("./.") == "."
    ensures AbsolutePath(".", "") == "." && AbsolutePath(".", ".") == "."
  {
    hide Clean, PathJoin;
    assert NormaliseSlashes("") == "" && NormaliseSlashes(".") == ".";
    assert "." + "/" + "." == "./.";
    PathOfTwo(".", "");
    PathOfTwo(".", ".");
    PathJoinOne(".");
    PathJoinOne("./.");
  }

  lemma PathJoinOne(p: string)
    requires p != ""
    ensures PathJoin([p]) == Clean(p)
  {
    assert NonEmpty([p]) == [p];
    PathTree.JoinOne(p);
  }

  lemma PathOfTwo(a: string, b: string)
    requires a != ""
    ensures PathJoin([a, b]) == if b == "" then PathJoin([a]) else PathJoin([a + "/" + b])
  {
    assert [a, b][1..] == [b];
    assert NonEmpty([b]) == if b == "" then [] else [b];
    assert NonEmpty([a]) == [a];
    if b == "" {
      assert NonEmpty([a, b]) == [a];
    } else {
      assert NonEmpty([a, b]) == [a, b];
      assert Join([a, b]) == a + "/" + b;
      assert NonEmpty([a + "/" + b]) == [a + "/" + b];
    }
  }

  /** The verdict on what is left to walk, after the next component resolved to `out`. */
  ghost predicate Stepped(fs: FileSystem, root: Components, verdict: Verdict, out: Outcome, rest: Components) {
    if !out.Resolved? then Shown(out).PathErr? && Judged(verdict) == Shown(out)
    else
      Shown(out) == PathOk(Abs(out.path)) && Slashed(out.path) &&
      if IsWithinRoot(Abs(root), Abs(out.path)) then verdict == Validate(fs, root, out.path, rest)
      else Judged(verdict) == PathErr(EscapesRoot)
  }

  /** What one turn of the validation loop needs, in the strings the loop handles. */
  lemma ValidateLoopStep(fs: FileSystem, workingDirectory: string, root: Components, at: Components,
      wanted: Components, i: nat)
    requires i < |wanted| && Slashed(at) && Slashed(wanted)
    ensures var next := CleanComponents(AbsolutePath(workingDirectory, PathJoin([Abs(at), wanted[i]])));
            Stepped(fs, root, Validate(fs, root, at, wanted[i..]), Resolve(fs, [], next, {}), wanted[i + 1..])
  {
    hide *;
    var part := wanted[i];
    assert wanted[i..][0] == part && wanted[i..][1..] == wanted[i + 1..];
    ValidateUnfold(fs, root, at, wanted[i..]);
    PathAbsChild(at, part);
    SlashedAppend(at, wanted, i);
    AbsoluteOfAbs(workingDirectory, at + [part]);
    var out := Resolve(fs, [], at + [part], {});
    ResolveSlashed(fs, [], at + [part], {}) by { SlashedEmpty(); }
    JudgedIs(Unresolved(out));
    JudgedIs(Escapes);
    ShownIs(out);
    if out.Resolved? {
      WithinRootByComponents(root, out.path);
    }
    SteppedIs(fs, root, Validate(fs, root, at, wanted[i..]), out, wanted[i + 1..]);
  }

  lemma SteppedIs(fs: FileSystem, root: Components, verdict: Verdict, out: Outcome, rest: Components)
    requires !out.Resolved? ==> Shown(out).PathErr? && Judged(verdict) == Shown(out)
    requires out.Resolved? ==> Shown(out) == PathOk(Abs(out.path)) && Slashed(out.path)
    requires out.Resolved? ==> if IsWithinRoot(Abs(root), Abs(out.path)) then verdict == Validate(fs, root, out.path, rest)
                               else Judged(verdict) == PathErr(EscapesRoot)
    ensures Stepped(fs, root, verdict, out, rest)
  {
  }

  lemma SlashedEmpty()
    ensures Slashed([])
  {
  }

  lemma ValidateUnfold(fs: FileSystem, root: Components, current: Components, parts: Components)
    ensures parts == [] ==> Validate(fs, root, current, parts) == Allowed(current)
    ensures parts != [] ==>
              var out := Resolve(fs, [], current + [parts[0]], {});
              Validate(fs, root, current, parts) ==
              if !out.Resolved? then Unresolved(out)
              else if Within(root, out.path) then Validate(fs, root, out.path, parts[1..])
              else Escapes
  {
    hide Resolve;
  }

  lemma SlashedAppend(at: seq<string>, wanted: seq<string>, i: nat)
    requires i < |wanted| && Slashed(at) && Slashed(wanted)
    ensures Slashed(at + [wanted[i]])
  {
  }

  lemma ShownIs(out: Outcome)
    ensures Shown(out) ==
            if out.Resolved? then PathOk(Abs(out.path))
            else if out.Cycle? then PathErr(SymlinkCycle)
            else PathErr(IoError(out.error))
  {
  }

  lemma JudgedIs(v: Verdict)
    ensures Judged(v) ==
            if v.Allowed? then PathOk(Abs(v.path))
            else if v.Escapes? then PathErr(EscapesRoot)
            else Shown(v.out)
  {
  }
}
