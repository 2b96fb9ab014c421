/** What becomes of the paths of callers (go/workspace/workspace.go). */
module ScopedPaths {
  import opened Options
  import opened Paths
  import opened PathTree
  import opened MemoryState
  import opened ScopedState
  import opened ScopedRequests
  import opened ScopedWorkspaces

  // White space

  /** The white space of Unicode, code point by code point. */
  lemma SpacesAre(c: char)
    ensures IsSpace(c) <==>
            c as int in {9, 10, 11, 12, 13, 32, 0x85, 0xA0, 0x1680, 0x2000, 0x2001, 0x2002, 0x2003, 0x2004, 0x2005, 0x2006,
              0x2007, 0x2008, 0x2009, 0x200A, 0x2028, 0x2029, 0x202F, 0x205F, 0x3000}
  {
  }

  predicate Blank(s: string) {
    forall i | 0 <= i < |s| :: IsSpace(s[i])
  }

  /** Trimming takes white space off both ends, as much as there is. */
  lemma {:induction false} TrimMeans(s: string) returns (front: string, back: string)
    ensures s == front + Trim(s) + back && Blank(front) && Blank(back)
    ensures Trim(s) != "" ==> !IsSpace(Trim(s)[0]) && !IsSpace(Trim(s)[|Trim(s)| - 1])
    decreases |s|
  {
    hide IsSpace, Trim, Blank;
    NoneBlank();
    if s != "" && IsSpace(s[0]) {
      TrimStep(s);
      var f, b := TrimMeans(s[1..]);
      front, back := [s[0]] + f, b;
      OneMoreBlank(s[0], f);
      Regroup([s[0]], f, Trim(s[1..]), b);
    } else if s != "" && IsSpace(s[|s| - 1]) {
      TrimStep(s);
      var f, b := TrimMeans(s[..|s| - 1]);
      front, back := f, b + [s[|s| - 1]];
      OneMoreBlank(s[|s| - 1], b);
      RegroupBack(f, Trim(s[..|s| - 1]), b, [s[|s| - 1]]);
    } else {
      TrimStep(s);
      front, back := "", "";
      assert s == "" + s + "";
    }
  }

  lemma TrimStep(s: string)
    ensures s == "" ==> Trim(s) == ""
    ensures s != "" && IsSpace(s[0]) ==> Trim(s) == Trim(s[1..]) && s == [s[0]] + s[1..]
    ensures s != "" && !IsSpace(s[0]) ==>
              var rest := s[..|s| - 1];
              if IsSpace(s[|s| - 1]) then Trim(s) == Trim(rest) && s == rest + [s[|s| - 1]] else Trim(s) == s
  {
    hide IsSpace;
  }

  lemma NoneBlank()
    ensures Blank("")
  {
  }

  lemma OneMoreBlank(c: char, s: string)
    requires IsSpace(c) && Blank(s)
    ensures Blank([c] + s) && Blank(s + [c])
  {
    hide IsSpace;
  }

  lemma RegroupBack(a: string, b: string, c: string, d: string)
    ensures a + b + c + d == a + b + (c + d)
  {
  }

  lemma Regroup(a: string, b: string, c: string, d: string)
    ensures a + (b + c + d) == a + b + c + d
  {
  }

  lemma TrimPlain(p: string)
    requires p != "" && !IsSpace(p[0]) && !IsSpace(p[|p| - 1])
    ensures Trim(p) == p
  {
    hide IsSpace;
  }

  // Paths

  /** The parts that are neither empty nor a dot, in order. */
  function Kept(parts: seq<string>): seq<string> {
    if parts == [] then []
    else (if parts[0] == "" || parts[0] == "." then [] else [parts[0]]) + Kept(parts[1..])
  }

  lemma {:induction false} FoldKeeps(out: seq<string>, parts: seq<string>)
    requires ".." !in parts
    ensures Fold(out, parts, false) == out + Kept(parts)
    decreases |parts|
  {
    hide Push;
    if parts == [] {
      assert out + [] == out;
    } else {
      var (part, rest) := (parts[0], parts[1..]);
      assert part in parts && forall c :: c in rest ==> c in parts;
      PushKeeps(out, part);
      if part == "" || part == "." {
        FoldKeeps(out, rest);
        assert Kept(parts) == Kept(rest);
      } else {
        FoldKeeps(out + [part], rest);
        assert out + [part] + Kept(rest) == out + ([part] + Kept(rest));
      }
    }
  }

  lemma PushKeeps(out: seq<string>, part: string)
    requires part != ".."
    ensures Push(out, part, false) == if part == "" || part == "." then out else out + [part]
  {
  }

  /**
   What becomes of every path: with slashes for backslashes and trimmed, it is refused when it starts with
   a slash or has a part `..`; otherwise its parts are kept, in order, without the empty ones and
   the dots, and when none is left it is the root, where that is allowed.
   */
  lemma CleanedExact(subpath: string, allowEmpty: bool)
    ensures var trimmed := Trim(NormaliseSlashes(subpath));
            var kept := Kept(Split(trimmed));
            CleanMediumSubpath(subpath, allowEmpty) ==
            if trimmed != "" && trimmed[0] == '/' then AbsoluteRejected
            else if ".." in Split(trimmed) then TraversalRejected
            else if kept == [] then (if allowEmpty then Cleaned.Clean("") else PathRequired)
            else Cleaned.Clean(Join(kept))
  {
    hide Split, Trim, NormaliseSlashes, Fold, Join, Kept;
    var trimmed := Trim(NormaliseSlashes(subpath));
    NoParts();
    SlashFirst(trimmed);
    if ".." !in Split(trimmed) && !HasPrefix(trimmed, "/") {
      FoldKeeps([], Split(trimmed));
      assert [] + Kept(Split(trimmed)) == Kept(Split(trimmed));
      CleanIsKept(trimmed);
    }
  }

  lemma SlashFirst(p: string)
    ensures HasPrefix(p, "/") <==> p != "" && p[0] == '/'
  {
  }

  lemma NoParts()
    ensures Kept(Split("")) == [] && Kept(Split(".")) == [] && ".." !in Split("") && ".." !in Split(".")
  {
    SplitSingle("");
    SplitSingle(".");
    assert Kept([""]) == [] && Kept(["."]) == [];
  }

  lemma CleanIsKept(p: string)
    requires p != "" ==> p[0] != '/'
    requires Fold([], Split(p), false) == Kept(Split(p))
    ensures p != "" ==> Paths.Clean(p) == if Kept(Split(p)) == [] then "." else Join(Kept(Split(p)))
    ensures Kept(Split(p)) != [] ==> Join(Kept(Split(p))) != "." && p != ""
  {
    hide Split, Fold, Join;
    var kept := Kept(Split(p));
    KeptAreOrdinary(Split(p));
    SplitSingle("");
    assert Kept([""]) == [];
    if kept != [] {
      SplitJoin(kept);
      SplitSingle(".");
      assert kept[0] in kept;
    }
  }

  lemma {:induction false} KeptAreOrdinary(parts: seq<string>)
    requires forall c :: c in parts ==> '/' !in c
    ensures forall c :: c in Kept(parts) ==> '/' !in c && c != "" && c != "." && c in parts
  {
    if parts != [] {
      assert parts[0] in parts && forall c :: c in parts[1..] ==> c in parts;
      KeptAreOrdinary(parts[1..]);
    }
  }

  /** A path as most callers write it: clean, relative, without backslash and without white space at its ends. */
  predicate Plain(p: string) {
    CleanRelative(p) && '\\' !in p && p != "" && !IsSpace(p[0]) && !IsSpace(p[|p| - 1])
  }

  lemma PlainIsKept(p: string, allowEmpty: bool)
    requires Plain(p)
    ensures CleanMediumSubpath(p, allowEmpty) == Cleaned.Clean(p)
  {
    hide Split, Fold, Join, Trim, Paths.Clean, IsSpace;
    assert NormaliseSlashes(p) == p;
    TrimPlain(p);
    CleanRelativeFixed(p);
    assert !Normal("..");
    SlashFirst(p);
  }

  /** The scoped path of a plain path is the root, a slash and the path. */
  lemma PlainScoped(root: string, p: string, allowRoot: bool)
    requires CleanRelative(root) && Plain(p)
    ensures ScopedPath(root, p, allowRoot) == Cleaned.Clean(root + "/" + p)
  {
    hide Plain, ScopedPath, CleanMediumSubpath, CleanRelative;
    PlainIsKept(p, allowRoot);
    ScopedPathBelow(root, p, allowRoot);
    PlainNotEmpty(p);
  }

  lemma PlainNotEmpty(p: string)
    requires Plain(p)
    ensures p != "" && CleanRelative(p)
  {
  }

  // Calls through a scoped medium

  /** What the medium underneath is asked, for plain paths: the same, below the root. */
  lemma PlainForwarded(root: string, request: Op)
    requires CleanRelative(root) && Plain(request.path) && (request.OpRename? ==> Plain(request.to))
    ensures Forwarded(root, request) ==
            Pass(match request
                 case OpWrite(p, content, mode, now) => OpWrite(root + "/" + p, content, mode, now)
                 case OpClose(p, content, mode, now) => OpClose(root + "/" + p, content, mode, now)
                 case OpEnsureDir(p) => OpEnsureDir(root + "/" + p)
                 case OpDelete(p) => OpDelete(root + "/" + p)
                 case OpDeleteAll(p) => OpDeleteAll(root + "/" + p)
                 case OpRename(p, to, orders) => OpRename(root + "/" + p, root + "/" + to, orders))
  {
    hide Plain, ScopedPath, CleanRelative;
    PlainScoped(root, request.path, request.OpEnsureDir?);
    if request.OpRename? {
      PlainScoped(root, request.to, false);
    }
  }

  /** What is refused, and why: the empty path, except as a directory to ensure, and paths that start or lead outside. */
  lemma Refusals(root: string, request: Op, p: string)
    requires CleanRelative(root) && Plain(p)
    ensures request.path == "" ==>
              Forwarded(root, request) == if request.OpEnsureDir? then Pass(OpEnsureDir(root)) else Reject(PathRequired)
    ensures request.path == "/" + p ==> Forwarded(root, request) == Reject(AbsoluteRejected)
    ensures request.path == "../" + p ==> Forwarded(root, request) == Reject(TraversalRejected)
    ensures request.OpRename? && request.path == p ==>
              (request.to == "" ==> Forwarded(root, request) == Reject(PathRequired)) &&
              (request.to == "/" + p ==> Forwarded(root, request) == Reject(AbsoluteRejected)) &&
              (request.to == "../" + p ==> Forwarded(root, request) == Reject(TraversalRejected))
  {
    hide Plain, ScopedPath, CleanRelative, CleanMediumSubpath;
    RefusedPaths(p, request.OpEnsureDir?);
    RefusedPaths(p, false);
    RefusedScoped(root, request.path, request.OpEnsureDir?);
    PlainScoped(root, p, false);
    if request.OpRename? {
      RefusedScoped(root, request.to, false);
    }
  }

  lemma RefusedScoped(root: string, path: string, allowRoot: bool)
    requires CleanRelative(root)
    ensures var cleaned := CleanMediumSubpath(path, allowRoot);
            !cleaned.Clean? ==> ScopedPath(root, path, allowRoot) == cleaned
    ensures CleanMediumSubpath(path, allowRoot) == Cleaned.Clean("") ==> ScopedPath(root, path, allowRoot) == Cleaned.Clean(root)
  {
    hide CleanRelative, CleanMediumSubpath;
    ScopedPathBelow(root, path, allowRoot);
  }

  lemma RefusedPaths(p: string, allowEmpty: bool)
    requires Plain(p)
    ensures CleanMediumSubpath("", allowEmpty) == if allowEmpty then Cleaned.Clean("") else PathRequired
    ensures CleanMediumSubpath("/" + p, allowEmpty) == AbsoluteRejected
    ensures CleanMediumSubpath("../" + p, allowEmpty) == TraversalRejected
  {
    hide Split, Trim, CleanRelative, Paths.Clean;
    OuterPlain("/", p);
    OuterPlain("../", p);
    assert NormaliseSlashes("") == "" && Trim("") == "" by { NoSpaces(); }
    assert ".." in Split("../" + p) by {
      assert ".." + "/" + p == "../" + p;
      SplitConcat("..", p);
      SplitSingle("..");
    }
  }

  lemma NoSpaces()
    ensures NormaliseSlashes("") == "" && Trim("") == ""
  {
  }

  lemma OuterPlain(front: string, p: string)
    requires Plain(p) && front != "" && '\\' !in front && !IsSpace(front[0])
    ensures Trim(NormaliseSlashes(front + p)) == front + p
  {
    hide CleanRelative, Trim, IsSpace;
    assert NormaliseSlashes(front + p) == front + p;
    TrimPlain(front + p);
  }

  /** A write through the scoped medium stores at the root, a slash and the path, and touches no file of another path. */
  lemma PlainWrite(m: Mem, root: string, p: string, q: string, content: Bytes, mode: Mode, now: Time, answer: Answer, after: Mem)
    requires CleanRelative(root) && Plain(p) && ScopedCall(m, root, OpWrite(p, content, mode, now), answer, after)
    ensures answer == Ran(if Open(m, root + "/" + p) then Done else AlreadyExists)
    ensures answer == Ran(Done) ==> Read(after, root + "/" + p) == Some(content)
    ensures p != q ==> Read(after, root + "/" + q) == Read(m, root + "/" + q)
  {
    hide Plain, CleanRelative, HasFileAncestor, Forwarded, Ancestors;
    PlainForwarded(root, OpWrite(p, content, mode, now));
    var op := OpWrite(root + "/" + p, content, mode, now);
    var orders :| RunsInOrder(m, op, orders, answer.status, after);
    if root + "/" + p == root + "/" + q {
      InInjective(root, p, q);
    }
  }

  // Names of workspaces

  /** Which names are accepted: trimmed, an ordinary component without a backslash. */
  lemma NameExact(name: string)
    ensures var trimmed := Trim(name);
            CleanWorkspaceName(name) ==
            if trimmed in {"", ".", ".."} then NameRequired
            else if exists c :: c in trimmed && (c == '/' || c == '\\') then NameHasSeparator
            else Name(trimmed)
  {
    hide Trim;
  }

  lemma PlainName(name: string)
    requires Plain(name) && Normal(name)
    ensures CleanWorkspaceName(name) == Name(name)
  {
    hide IsSpace;
    TrimPlain(name);
  }

  /** The base of the workspaces: it is ensured, the top of the medium needs nothing, and the way out is refused. */
  lemma BaseOutcome(m: Mem, p: string)
    requires Plain(p)
    ensures NewBase(m, p) ==
            if p in m.files then (MediumFailed(AlreadyExists), m)
            else (Good(p), m.(dirs := m.dirs + Ancestors(p) + {p}))
    ensures NewBase(m, "") == (Good(""), m)
    ensures NewBase(m, "/" + p) == (BadPath(AbsoluteRejected), m)
    ensures NewBase(m, "../" + p) == (BadPath(TraversalRejected), m)
  {
    hide Plain, CleanMediumSubpath, Ancestors;
    RefusedPaths(p, true);
    PlainIsKept(p, true);
    PlainNotEmpty(p);
  }

  /** What creating a workspace answers, case by case, and where its root is. */
  lemma CreateOutcome(m: Mem, base: string, name: string)
    requires (base == "" || CleanRelative(base)) && Plain(name) && Normal(name)
    ensures var root := if base == "" then name else base + "/" + name;
            CreateNamed(m, base, name) ==
            if DirectoryExists(m, root) then (WorkspaceExists, m)
            else if root in m.files then (NotADirectory, m)
            else (Good(root), m.(dirs := m.dirs + Ancestors(root) + {root}))
  {
    hide Plain, Normal, CleanRelative, Ancestors, DirectoryExists, CleanWorkspaceName, JoinMediumSubpaths;
    PlainName(name);
    RootIs(base, name);
  }

  /** The file of a named workspace: below the directory of its name, or there is no such workspace. */
  lemma PlainFilePath(m: Mem, base: string, name: string, p: string, allowEmpty: bool)
    requires (base == "" || CleanRelative(base)) && Plain(name) && Normal(name) && Plain(p)
    ensures var root := if base == "" then name else base + "/" + name;
            FilePath(m, base, name, p, allowEmpty) ==
            if DirectoryExists(m, root) then Good(root + "/" + p) else WorkspaceNotFound
  {
    hide Plain, Normal, CleanRelative, DirectoryExists, CleanWorkspaceName, JoinMediumSubpaths, CleanMediumSubpath, ScopedPath;
    PlainName(name);
    RootIs(base, name);
    PlainIsKept(p, allowEmpty);
    var root := if base == "" then name else base + "/" + name;
    PlainScoped(root, p, allowEmpty);
    ScopedIsJoined(root, p, allowEmpty);
  }

  /** Writing and reading by name on plain paths, case by case. */
  lemma PlainNamed(m: Mem, base: string, name: string, p: string, content: Bytes, now: Time)
    requires (base == "" || CleanRelative(base)) && Plain(name) && Normal(name) && Plain(p)
    ensures var root := if base == "" then name else base + "/" + name;
            var file := root + "/" + p;
            WriteNamed(m, base, name, p, content, now) ==
            if !DirectoryExists(m, root) then (WorkspaceNotFound, m)
            else if Open(m, file) then (Good(()), WithFile(m, file, content, 420, now))
            else (MediumFailed(AlreadyExists), m)
    ensures var root := if base == "" then name else base + "/" + name;
            var file := root + "/" + p;
            ReadNamed(m, base, name, p) ==
            if !DirectoryExists(m, root) then WorkspaceNotFound
            else if file in m.files then Good(m.files[file]) else FileNotFound
  {
    hide Plain, Normal, CleanRelative, DirectoryExists, FilePath, HasFileAncestor, Ancestors;
    PlainFilePath(m, base, name, p, false);
  }

  /** What is wrong is reported in order: the name, then the workspace, then the path. */
  lemma NamedRefusals(m: Mem, base: string, name: string, bad: string, p: string, path: string, allowEmpty: bool)
    requires (base == "" || CleanRelative(base)) && Plain(name) && Normal(name) && Plain(p)
    requires !CleanWorkspaceName(bad).Name?
    ensures CreateNamed(m, base, bad) == (BadName(CleanWorkspaceName(bad)), m)
    ensures FilePath(m, base, bad, path, allowEmpty) == BadName(CleanWorkspaceName(bad))
    ensures var root := if base == "" then name else base + "/" + name;
            if !DirectoryExists(m, root) then FilePath(m, base, name, path, allowEmpty) == WorkspaceNotFound
            else
              FilePath(m, base, name, "", allowEmpty) == (if allowEmpty then Good(root) else BadPath(PathRequired)) &&
              FilePath(m, base, name, "/" + p, allowEmpty) == BadPath(AbsoluteRejected) &&
              FilePath(m, base, name, "../" + p, allowEmpty) == BadPath(TraversalRejected)
  {
    hide Plain, Normal, CleanRelative, DirectoryExists, CleanWorkspaceName, JoinMediumSubpaths, CleanMediumSubpath, ScopedPath;
    PlainName(name);
    RootIs(base, name);
    RefusedPaths(p, allowEmpty);
    var root := if base == "" then name else base + "/" + name;
    RefusedScoped(root, "", allowEmpty);
    ScopedIsJoined(root, "", allowEmpty);
  }

  lemma ScopedIsJoined(root: string, p: string, allowRoot: bool)
    ensures var cleaned := CleanMediumSubpath(p, allowRoot);
            cleaned.Clean? ==> ScopedPath(root, p, allowRoot) == Cleaned.Clean(JoinMediumSubpaths(root, cleaned.path))
  {
  }
}
