/**
 Named workspaces on one in-memory medium (go/workspace/workspace.go): each starts empty and
 then changes by its own calls alone, through every run.
 */
module ScopedWorkspaces {
  import opened Paths
  import opened PathTree
  import opened PathBelow
  import opened MemoryState
  import opened MemoryTree
  import opened ScopedState
  import opened ScopedSimulation
  import opened ScopedReads
  import opened ScopedRequests

  datatype Named = Name(name: string) | NameRequired | NameHasSeparator

  function CleanWorkspaceName(name: string): Named {
    var trimmed := Trim(name);
    if trimmed == "" || trimmed == "." || trimmed == ".." then NameRequired
    else if '/' in trimmed || '\\' in trimmed then NameHasSeparator
    else Name(trimmed)
  }

  datatype Result<+T> =
    | Good(value: T)
    | BadName(named: Named)
    | BadPath(path: Cleaned)
    | WorkspaceExists
    | NotADirectory
    | WorkspaceNotFound
    | FileNotFound
    | MediumFailed(status: Status)

  /** The same failure, of another type. */
  function Failure<T, U>(r: Result<T>): (f: Result<U>)
    requires !r.Good?
  {
    match r
    case BadName(named) => BadName(named)
    case BadPath(path) => BadPath(path)
    case WorkspaceExists => WorkspaceExists
    case NotADirectory => NotADirectory
    case WorkspaceNotFound => WorkspaceNotFound
    case FileNotFound => FileNotFound
    case MediumFailed(status) => MediumFailed(status)
  }

  /** `NewWorkspace`: the cleaned base, which is ensured unless it is empty. */
  function NewBase(m: Mem, baseSubpath: string): (Result<string>, Mem) {
    var cleaned := CleanMediumSubpath(baseSubpath, true);
    if !cleaned.Clean? then (BadPath(cleaned), m)
    else if cleaned.path == "" then (Good(""), m)
    else
      var step := EnsureDir(m, cleaned.path);
      (if step.status == Done then Good(cleaned.path) else MediumFailed(step.status), step.mem)
  }

  /** `CreateWorkspace`: the root of the scoped medium it hands out. */
  ghost function CreateNamed(m: Mem, base: string, name: string): (Result<string>, Mem) {
    var named := CleanWorkspaceName(name);
    if !named.Name? then (BadName(named), m)
    else
      var root := JoinMediumSubpaths(base, named.name);
      if DirectoryExists(m, root) then (WorkspaceExists, m)
      else if Exists(m, root) then (NotADirectory, m)
      else
        var step := EnsureDir(m, root);
        if step.status == Done then (Good(root), step.mem) else (MediumFailed(step.status), step.mem)
  }

  /** The path of a file of a named workspace, checked in the order the program checks. */
  ghost function FilePath(m: Mem, base: string, name: string, path: string, allowEmpty: bool): Result<string> {
    var named := CleanWorkspaceName(name);
    if !named.Name? then BadName(named)
    else
      var root := JoinMediumSubpaths(base, named.name);
      if !DirectoryExists(m, root) then WorkspaceNotFound
      else
        var cleaned := CleanMediumSubpath(path, allowEmpty);
        if cleaned.Clean? then Good(JoinMediumSubpaths(root, cleaned.path)) else BadPath(cleaned)
  }

  ghost function ReadNamed(m: Mem, base: string, name: string, path: string): Result<Bytes> {
    var file := FilePath(m, base, name, path, false);
    if !file.Good? then Failure(file)
    else if file.value in m.files then Good(m.files[file.value]) else FileNotFound
  }

  ghost function WriteNamed(m: Mem, base: string, name: string, path: string, content: Bytes,
      now: Time): (Result<()>, Mem) {
    var file := FilePath(m, base, name, path, false);
    if !file.Good? then (Failure(file), m)
    else
      var step := WriteMode(m, file.value, content, DEFAULT_MODE, now);
      (if step.status == Done then Good(()) else MediumFailed(step.status), step.mem)
  }

  // Roots

  /** The base under which the workspaces live: empty, or a directory that scoped media leave alone. */
  ghost predicate Home(m: Mem, base: string) {
    base == "" || Anchored(m, base)
  }

  function RootOf(base: string, name: string): string {
    if base == "" then name else In(base, name)
  }

  lemma CleanedName(name: string)
    ensures CleanWorkspaceName(name).Name? ==> Normal(CleanWorkspaceName(name).name)
  {
    hide Trim;
  }

  lemma RootIs(base: string, name: string)
    requires Normal(name) && (base == "" || CleanRelative(base))
    ensures JoinMediumSubpaths(base, name) == RootOf(base, name) && CleanRelative(RootOf(base, name))
  {
    hide Split, Fold, Join, Paths.Clean;
    NormalIsClean(name);
    CleanRelativeFixed(name);
    if base == "" {
      assert NonEmpty(["", name]) == [name] by {
        assert ["", name][1..] == [name];
        assert NonEmpty([name]) == [name];
      }
      assert NonEmpty([name]) == [name];
      JoinOne(name);
    } else {
      CleanRelativeFixed(base);
      KeptPair(base, name);
      CleanConcat(base, name);
      CleanRelativeFixed(base + "/" + name);
    }
  }

  lemma RootsApart(base: string, a: string, b: string)
    requires Normal(a) && Normal(b)
    ensures RootOf(base, a) == RootOf(base, b) <==> a == b
    ensures !Under(RootOf(base, a), RootOf(base, b))
  {
    hide Under, In;
    UnderChild("", a, b);
    if base != "" {
      UnderIn(base, a, b);
      InStripped(base, a);
      InStripped(base, b);
    }
  }

  lemma RootAncestors(base: string, name: string)
    requires Normal(name) && (base == "" || CleanRelative(base))
    ensures CleanRelative(RootOf(base, name))
    ensures forall a :: a in Ancestors(RootOf(base, name)) <==> base != "" && (a == base || a in Ancestors(base))
  {
    hide Under, In, Ancestors, CleanRelative;
    RootIs(base, name);
    AncestorsAreUnder(RootOf(base, name));
    if base != "" {
      AncestorsAreUnder(base);
    }
    forall a ensures Under(RootOf(base, name), a) <==> base != "" && (a == base || Under(base, a)) {
      UnderChild(base, name, a);
      RootJoined(base, name);
    }
  }

  lemma RootJoined(base: string, name: string)
    ensures base != "" ==> RootOf(base, name) == base + "/" + name
  {
  }

  // Creating

  /** Nothing is stored under a path that does not exist. */
  lemma NothingInside(m: Mem, root: string)
    requires SameKeys(m) && CleanRelative(root) && !DirectoryExists(m, root)
    ensures Project(m, root) == EMPTY
  {
    hide Inside, DirsBelow, CleanRelative, In;
    CleanRelativeFixed(root);
    ChildPrefixOfClean(root);
    UnderNotSelf(root);
    assert forall f :: f in m.files ==> !HasPrefix(f, root + "/");
    assert forall d :: d in m.dirs && d != root ==> !HasPrefix(d, root + "/");
    var n := Project(m, root);
    forall k ensures k !in n.files && k !in n.modes && k !in n.times && k !in n.dirs {
      BelowAt(m.files, root, k);
      BelowAt(m.modes, root, k);
      BelowAt(m.times, root, k);
      DirsBelowAt(m.dirs, root, k);
      InStripped(root, k);
      assert In(root, k) in m.modes <==> In(root, k) in m.files by { assert m.modes.Keys == m.files.Keys; }
      assert In(root, k) in m.times <==> In(root, k) in m.files by { assert m.times.Keys == m.files.Keys; }
    }
  }

  /** A new workspace is anchored and empty, and creating it touches no other root. */
  lemma CreateIsFresh(m: Mem, base: string, name: string)
    requires SameKeys(m) && Home(m, base)
    ensures var (result, after) := CreateNamed(m, base, name);
            SameKeys(after) && (!result.Good? ==> after == m) &&
            (result.Good? ==>
               var named := CleanWorkspaceName(name);
               named.Name? && result.value == RootOf(base, named.name) && !Exists(m, result.value) &&
               after == m.(dirs := m.dirs + {result.value}) &&
               Anchored(after, result.value) && Project(after, result.value) == EMPTY)
  {
    hide CleanWorkspaceName, Ancestors, CleanRelative, Project, DirectoryExists, JoinMediumSubpaths;
    var named := CleanWorkspaceName(name);
    if named.Name? {
      CleanedName(name);
      RootIs(base, named.name);
      RootAncestors(base, named.name);
      var root := RootOf(base, named.name);
      if !Exists(m, root) {
        assert m.dirs + Ancestors(root) + {root} == m.dirs + {root};
        NothingInside(m, root);
        AddedRoot(m, root);
      }
    }
  }

  /** Storing the root itself does not show below it. */
  lemma AddedRoot(m: Mem, root: string)
    ensures Project(m.(dirs := m.dirs + {root}), root) == Project(m, root)
  {
    hide In, Under;
    UnderNotSelf(root);
    var more := m.dirs + {root};
    forall k ensures k in DirsBelow(more, root) <==> k in DirsBelow(m.dirs, root) {
      DirsBelowAt(more, root, k);
      DirsBelowAt(m.dirs, root, k);
      InStripped(root, k);
    }
  }

  /** `CreateWorkspace` succeeds exactly for a valid name whose path nothing is stored at or below. */
  lemma CreateExact(m: Mem, base: string, name: string)
    requires SameKeys(m) && Home(m, base)
    ensures CreateNamed(m, base, name).0.Good? <==>
            var named := CleanWorkspaceName(name);
            named.Name? &&
            forall p :: Stored(m, p) ==> p != RootOf(base, named.name) && !Under(p, RootOf(base, named.name))
  {
    hide CleanWorkspaceName, Ancestors, CleanRelative, JoinMediumSubpaths, Under;
    CreateIsFresh(m, base, name);
    var named := CleanWorkspaceName(name);
    if named.Name? {
      CleanedName(name);
      RootIs(base, named.name);
      ExistsUnder(m, RootOf(base, named.name));
    }
  }

  lemma ExistsUnder(m: Mem, root: string)
    requires CleanRelative(root)
    ensures Exists(m, root) <==> exists p :: Stored(m, p) && (p == root || Under(p, root))
  {
    hide CleanRelative;
    CleanRelativeFixed(root);
    ChildPrefixOfClean(root);
    if Exists(m, root) && !Stored(m, root) {
      if f :| f in m.files && HasPrefix(f, root + "/") {
        assert Stored(m, f) && Under(f, root);
      } else {
        var d :| d in m.dirs && HasPrefix(d, root + "/");
        assert Stored(m, d) && Under(d, root);
      }
    }
    if p :| Stored(m, p) && (p == root || Under(p, root)) {
      UnderNotSelf(root);
      assert p in m.files && p != root ==> HasFileBelow(m, root + "/");
      assert p in m.dirs && p != root ==> HasDirectoryBelow(m, root, root + "/");
    }
  }

  /** A new root leaves what is below any other root as it is. */
  lemma CreateElsewhere(m: Mem, root: string, other: string)
    requires Anchored(m, other) && root !in m.files && !Under(root, other)
    ensures Project(m.(dirs := m.dirs + {root}), other) == Project(m, other)
    ensures Anchored(m.(dirs := m.dirs + {root}), other)
  {
    hide In, Under, Inside, Ancestors, CleanRelative;
    var more := m.dirs + {root};
    forall k ensures k in DirsBelow(more, other) <==> k in DirsBelow(m.dirs, other) {
      DirsBelowAt(more, other, k);
      DirsBelowAt(m.dirs, other, k);
      InStripped(other, k);
    }
  }

  /** `NewWorkspace` gives the workspaces a home exactly when no ancestor of the base is a file. */
  lemma NewBaseIsHome(m: Mem, baseSubpath: string)
    requires NewBase(m, baseSubpath).0.Good?
    ensures var (result, after) := NewBase(m, baseSubpath);
            (Home(after, result.value) <==> result.value == "" || !HasFileAncestor(m, result.value)) &&
            (SameKeys(m) ==> SameKeys(after))
  {
    hide CleanMediumSubpath, Ancestors, CleanRelative;
    CleanedIsClean(baseSubpath, true);
  }

  // Runs

  datatype Event =
    | Create(name: string, result: Result<string>)
    | Use(call: Call)

  /** The roots of the workspaces created so far. */
  function Created(events: seq<Event>): set<string> {
    set i | 0 <= i < |events| && events[i].Create? && events[i].result.Good? :: events[i].result.value
  }

  ghost predicate Happens(m: Mem, base: string, event: Event, after: Mem) {
    match event
    case Create(name, result) => CreateNamed(m, base, name) == (result, after)
    case Use(call) => ScopedCall(m, call.root, call.request, call.answer, after)
  }

  /** A run of creations and of calls on the scoped media they handed out. */
  ghost predicate IsWorkspaceRun(base: string, states: seq<Mem>, events: seq<Event>) {
    |states| == |events| + 1 &&
    forall i | 0 <= i < |events| ::
      Happens(states[i], base, events[i], states[i + 1]) &&
      (events[i].Use? ==> events[i].call.root in Created(events[..i]))
  }

  /** What event `i` is to the private medium below `root`. */
  ghost predicate PrivateEvent(root: string, states: seq<Mem>, events: seq<Event>, i: nat)
    requires i < |events| && |states| == |events| + 1
  {
    var (before, after) := (Project(states[i], root), Project(states[i + 1], root));
    match events[i]
    case Create(_, result) => after == if result == Good(root) then EMPTY else before
    case Use(call) => if call.root == root then PrivateCall(before, call.request, call.answer, after) else after == before
  }

  lemma CreatedNext(events: seq<Event>, i: nat)
    requires i < |events|
    ensures Created(events[..i + 1]) ==
            Created(events[..i]) + if events[i].Create? && events[i].result.Good? then {events[i].result.value} else {}
  {
    var (a, b) := (events[..i], events[..i + 1]);
    forall r ensures r in Created(b) <==> r in Created(a) || (events[i].Create? && events[i].result == Good(r)) {
      if r in Created(a) {
        var j :| 0 <= j < |a| && a[j].Create? && a[j].result == Good(r);
        assert b[j] == a[j];
      }
      if r in Created(b) {
        var j :| 0 <= j < |b| && b[j].Create? && b[j].result == Good(r);
        assert j < i ==> a[j] == b[j];
      }
      if events[i].Create? && events[i].result == Good(r) {
        assert b[i] == events[i];
      }
    }
  }

  /** What holds of the roots created so far. */
  ghost predicate Kept(m: Mem, base: string, roots: set<string>) {
    SameKeys(m) && Home(m, base) &&
    forall r :: r in roots ==> Anchored(m, r) && exists name :: Normal(name) && r == RootOf(base, name)
  }

  /** One event keeps what holds of the roots, and is, below each of them, its private event. */
  lemma WorkspaceStep(base: string, states: seq<Mem>, events: seq<Event>, i: nat, roots: set<string>)
    requires i < |events| && |states| == |events| + 1
    requires Kept(states[i], base, roots) && Happens(states[i], base, events[i], states[i + 1])
    requires events[i].Use? ==> events[i].call.root in roots
    ensures var made := if events[i].Create? && events[i].result.Good? then {events[i].result.value} else {};
            Kept(states[i + 1], base, roots + made) && forall r :: r in roots + made ==> PrivateEvent(r, states, events, i)
  {
    hide Anchored, Project, PrivateCall, ScopedCall, SameOutside, Under, RootOf, CreateNamed, SameKeys;
    var (m, after) := (states[i], states[i + 1]);
    match events[i] {
      case Create(name, result) =>
        CreateIsFresh(m, base, name);
        if result.Good? {
          CreateStep(m, base, name, result.value, after, roots);
        }
      case Use(call) =>
        UseStep(m, base, call, after, roots);
    }
  }

  lemma CreateStep(m: Mem, base: string, name: string, root: string, after: Mem, roots: set<string>)
    requires Kept(m, base, roots) && CreateNamed(m, base, name) == (Good(root), after)
    ensures Kept(after, base, roots + {root})
    ensures Project(after, root) == EMPTY && forall r :: r in roots && r != root ==> Project(after, r) == Project(m, r)
  {
    hide Anchored, Project, Under, RootOf, CreateNamed, SameKeys, CleanWorkspaceName, Exists;
    CreateIsFresh(m, base, name);
    CleanedName(name);
    var named := CleanWorkspaceName(name).name;
    NotStored(m, root);
    forall r | r in roots ensures Anchored(after, r) && Project(after, r) == Project(m, r) {
      var other :| Normal(other) && r == RootOf(base, other);
      RootsApart(base, named, other);
      CreateElsewhere(m, root, r);
    }
    if base != "" {
      assert Anchored(after, base) by {
        hide Project;
        HomeStays(m, base, root);
      }
    }
  }

  lemma NotStored(m: Mem, root: string)
    requires !Exists(m, root)
    ensures root !in m.files
  {
  }

  lemma HomeStays(m: Mem, base: string, root: string)
    requires Anchored(m, base) && root !in m.files
    ensures Anchored(m.(dirs := m.dirs + {root}), base)
  {
    hide Ancestors, CleanRelative;
  }

  lemma UseStep(m: Mem, base: string, call: Call, after: Mem, roots: set<string>)
    requires Kept(m, base, roots) && ScopedCall(m, call.root, call.request, call.answer, after) && call.root in roots
    ensures Kept(after, base, roots)
    ensures PrivateCall(Project(m, call.root), call.request, call.answer, Project(after, call.root))
    ensures forall r :: r in roots && r != call.root ==> Project(after, r) == Project(m, r)
  {
    hide Anchored, Project, PrivateCall, ScopedCall, Under, SameOutside, SameKeys, RootOf;
    var mine :| Normal(mine) && call.root == RootOf(base, mine);
    ScopedCallIsPrivate(m, call.root, call.request, call.answer, after);
    ScopedCallKeepsKeys(m, call.root, call.request, call.answer, after);
    forall r | r in roots ensures Anchored(after, r) && (r != call.root ==> Project(after, r) == Project(m, r)) {
      var other :| Normal(other) && r == RootOf(base, other);
      RootsApart(base, mine, other);
      RootsApart(base, other, mine);
      if r != call.root {
        WorkspacesApart(m, after, call.root, r);
      }
    }
    if base != "" {
      AnchoredIsClean(m, base);
      BaseNotUnder(base, mine);
      HomeOutside(m, after, call.root, base);
    }
  }

  lemma BaseNotUnder(base: string, name: string)
    ensures !Under(base, RootOf(base, name))
  {
  }

  lemma HomeOutside(m: Mem, n: Mem, root: string, base: string)
    requires Anchored(m, base) && SameOutside(m, n, root) && !Under(base, root)
    ensures Anchored(n, base)
  {
    hide Under, CleanRelative, Ancestors;
    AncestorsAreUnder(base);
    forall a | a in Ancestors(base) ensures !Under(a, root) {
      if Under(a, root) {
        UnderTransitive(base, a, root);
      }
    }
  }

  lemma ScopedCallKeepsKeys(m: Mem, root: string, request: Op, answer: Answer, after: Mem)
    requires SameKeys(m) && ScopedCall(m, root, request, answer, after)
    ensures SameKeys(after)
  {
    hide SameKeys, Apply, Legal, WithOrders, Forwarded;
    var passed := Forwarded(root, request);
    if passed.Pass? {
      var orders :| RunsInOrder(m, passed.op, orders, answer.status, after);
      SameKeysKept(m, WithOrders(passed.op, orders));
    }
  }

  /**
   Through every run of creations and calls, in every interleaving: a workspace starts empty,
   its own calls act on it as on a private in-memory medium, and nothing else changes it.
   */
  lemma {:induction false} WorkspaceRun(base: string, states: seq<Mem>, events: seq<Event>)
    requires IsWorkspaceRun(base, states, events) && SameKeys(states[0]) && Home(states[0], base)
    ensures forall i, r | 0 <= i < |events| && r in Created(events[..i + 1]) :: PrivateEvent(r, states, events, i)
    ensures forall i, r | 0 <= i <= |events| && r in Created(events[..i]) :: Anchored(states[i], r)
  {
    hide PrivateEvent, Happens, Created, Kept, Anchored;
    assert Kept(states[0], base, Created(events[..0])) by { NothingCreated(states[0], base, events[..0]); }
    for n := 0 to |events|
      invariant forall i | 0 <= i <= n :: Kept(states[i], base, Created(events[..i]))
      invariant forall i, r | 0 <= i < n && r in Created(events[..i + 1]) :: PrivateEvent(r, states, events, i)
    {
      CreatedNext(events, n);
      WorkspaceStep(base, states, events, n, Created(events[..n]));
    }
    forall i, r | 0 <= i <= |events| && r in Created(events[..i]) ensures Anchored(states[i], r) {
      KeptAnchors(states[i], base, Created(events[..i]), r);
    }
  }

  lemma NothingCreated(m: Mem, base: string, events: seq<Event>)
    requires events == [] && SameKeys(m) && Home(m, base)
    ensures Kept(m, base, Created(events))
  {
    assert Created(events) == {};
  }

  lemma KeptAnchors(m: Mem, base: string, roots: set<string>, root: string)
    requires Kept(m, base, roots) && root in roots
    ensures Anchored(m, root)
  {
  }

  // Files of a named workspace

  lemma NamedPath(m: Mem, base: string, name: string, path: string, allowEmpty: bool)
    requires CleanWorkspaceName(name).Name? && Home(m, base)
    requires Anchored(m, RootOf(base, CleanWorkspaceName(name).name))
    ensures var root := RootOf(base, CleanWorkspaceName(name).name);
            var (file, scoped) := (FilePath(m, base, name, path, allowEmpty), ScopedPath(root, path, allowEmpty));
            file == if scoped.Clean? then Good(scoped.path) else BadPath(scoped)
  {
    hide CleanWorkspaceName, CleanMediumSubpath, CleanRelative, Ancestors, JoinMediumSubpaths;
    CleanedName(name);
    var root := RootOf(base, CleanWorkspaceName(name).name);
    RootIs(base, CleanWorkspaceName(name).name);
    CleanRelativeFixed(root);
  }

  /** Writing a file by workspace name is writing it through the workspace's scoped medium. */
  lemma WriteNamedIsScoped(m: Mem, base: string, name: string, path: string, content: Bytes, now: Time)
    requires CleanWorkspaceName(name).Name? && Home(m, base)
    requires Anchored(m, RootOf(base, CleanWorkspaceName(name).name))
    ensures var (result, after) := WriteNamed(m, base, name, path, content, now);
            var root := RootOf(base, CleanWorkspaceName(name).name);
            var answer := if result.Good? then Ran(Done) else if result.BadPath? then Refused(result.path)
                          else if result.MediumFailed? then Ran(result.status) else Ran(NotFound);
            (result.Good? || result.MediumFailed? || result.BadPath?) &&
            ScopedCall(m, root, OpWrite(path, content, DEFAULT_MODE, now), answer, after)
  {
    hide CleanWorkspaceName, ScopedPath, CleanMediumSubpath, Anchored, Home, RootOf, FilePath, WriteMode;
    NamedPath(m, base, name, path, false);
    var root := RootOf(base, CleanWorkspaceName(name).name);
    var scoped := ScopedPath(root, path, false);
    if scoped.Clean? {
      var op := OpWrite(scoped.path, content, DEFAULT_MODE, now);
      var step := WriteMode(m, scoped.path, content, DEFAULT_MODE, now);
      StepIs(step);
      assert RunsInOrder(m, op, Orders([], []), step.status, step.mem);
    }
  }

  /** Reading a file by workspace name is reading the cleaned path of the private medium. */
  lemma ReadNamedIsPrivate(m: Mem, base: string, name: string, path: string)
    requires CleanWorkspaceName(name).Name? && Home(m, base)
    requires Anchored(m, RootOf(base, CleanWorkspaceName(name).name))
    ensures var n := Project(m, RootOf(base, CleanWorkspaceName(name).name));
            var (result, cleaned) := (ReadNamed(m, base, name, path), CleanMediumSubpath(path, false));
            if !cleaned.Clean? then result == BadPath(cleaned)
            else if cleaned.path in n.files then result == Good(n.files[cleaned.path])
            else result == FileNotFound
  {
    hide CleanWorkspaceName, ScopedPath, CleanMediumSubpath, CleanRelative, Ancestors, Home, RootOf, FilePath,
      Inside, DirsBelow;
    NamedPath(m, base, name, path, false);
    var root := RootOf(base, CleanWorkspaceName(name).name);
    ScopedPathBelow(root, path, false);
    CleanedIsClean(path, false);
    var cleaned := CleanMediumSubpath(path, false);
    if cleaned.Clean? {
      CleanRelativeFixed(cleaned.path);
      ReadIn(m, root, cleaned.path);
      assert Read(m, In(root, cleaned.path)) == Read(Project(m, root), cleaned.path);
    }
  }

  /**
   What is written to a workspace by name is read back from it by name under the same path,
   and no other workspace's files are affected.
   */
  lemma WriteThenReadNamed(m: Mem, base: string, name: string, path: string, content: Bytes, now: Time,
      other: string, otherPath: string)
    requires CleanWorkspaceName(name).Name? && CleanWorkspaceName(other).Name? && Home(m, base)
    requires Anchored(m, RootOf(base, CleanWorkspaceName(name).name)) && Anchored(m, RootOf(base, CleanWorkspaceName(other).name))
    requires WriteNamed(m, base, name, path, content, now).0 == Good(())
    ensures var after := WriteNamed(m, base, name, path, content, now).1;
            ReadNamed(after, base, name, path) == Good(content) &&
            (CleanWorkspaceName(other) != CleanWorkspaceName(name) ==>
               ReadNamed(after, base, other, otherPath) == ReadNamed(m, base, other, otherPath))
  {
    hide CleanWorkspaceName, CleanMediumSubpath, Anchored, RootOf, FilePath, Project, ReadNamed, WriteNamed,
      ScopedCall, Under, WriteMode, ScopedPath, SameOutside;
    var (mine, theirs) := (CleanWorkspaceName(name).name, CleanWorkspaceName(other).name);
    var (root, after) := (RootOf(base, mine), WriteNamed(m, base, name, path, content, now).1);
    CleanedName(name);
    CleanedName(other);
    var call := Call(root, OpWrite(path, content, DEFAULT_MODE, now), Ran(Done));
    WriteNamedIsScoped(m, base, name, path, content, now);
    ScopedCallIsPrivate(m, root, call.request, call.answer, after);
    BaseNotUnder(base, mine);
    if base != "" {
      HomeOutside(m, after, root, base);
    }
    ReadNamedIsPrivate(after, base, name, path);
    WrittenPrivately(Project(m, root), path, content, now, Project(after, root));
    if theirs != mine {
      RootsApart(base, mine, theirs);
      RootsApart(base, theirs, mine);
      WorkspacesApart(m, after, root, RootOf(base, theirs));
      ReadNamedIsPrivate(m, base, other, otherPath);
      ReadNamedIsPrivate(after, base, other, otherPath);
    }
  }

  lemma WrittenPrivately(n: Mem, path: string, content: Bytes, now: Time, after: Mem)
    requires PrivateCall(n, OpWrite(path, content, DEFAULT_MODE, now), Ran(Done), after)
    ensures var cleaned := CleanMediumSubpath(path, false);
            cleaned.Clean? && cleaned.path in after.files && after.files[cleaned.path] == content
  {
    hide CleanMediumSubpath, CleanRelative, HasFileAncestor;
    PrivateIsClean(OpWrite(path, content, DEFAULT_MODE, now));
    var op := Private(OpWrite(path, content, DEFAULT_MODE, now)).op;
    var orders :| RunsInOrder(n, op, orders, Done, after);
    assert WriteMode(n, op.path, content, DEFAULT_MODE, now) == Step(Done, after);
  }
}
