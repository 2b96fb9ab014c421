/**
 The scoped medium (go/workspace/workspace.go): a view of the in-memory medium that puts a
 root in front of every path.  Below a root that is a stored directory it behaves like a
 private in-memory medium of its own, and what lies outside the root never changes.
 */
module ScopedState {
  import opened Paths
  import opened PathTree
  import opened PathBelow
  import opened MemoryState
  import opened MemoryTree

  // Cleaning what the caller passes

  datatype Cleaned = Clean(path: string) | PathRequired | AbsoluteRejected | TraversalRejected

  /** White space as `unicode.IsSpace` knows it, by code point. */
  predicate IsSpace(c: char) {
    var code := c as int;
    c == ' ' || ('\t' <= c <= '\r') || code in {0x85, 0xA0, 0x1680, 0x2028, 0x2029, 0x202F, 0x205F, 0x3000} ||
    0x2000 <= code <= 0x200A
  }

  function Trim(s: string): string
    decreases |s|
  {
    if s == "" then ""
    else if IsSpace(s[0]) then Trim(s[1..])
    else if IsSpace(s[|s| - 1]) then Trim(s[..|s| - 1])
    else s
  }

  function CleanMediumSubpath(subpath: string, allowEmpty: bool): Cleaned {
    var trimmed := Trim(NormaliseSlashes(subpath));
    if trimmed == "" || trimmed == "." then if allowEmpty then Clean("") else PathRequired
    else if HasPrefix(trimmed, "/") then AbsoluteRejected
    else if ".." in Split(trimmed) then TraversalRejected
    else
      var cleaned := Paths.Clean(trimmed);
      if cleaned == "." then if allowEmpty then Clean("") else PathRequired
      else Clean(cleaned)
  }

  /** `joinMediumSubpaths` of two parts. */
  function JoinMediumSubpaths(a: string, b: string): string {
    PathJoin(NonEmpty([a, b]))
  }

  function ScopedPath(root: string, path: string, allowRoot: bool): Cleaned {
    var cleaned := CleanMediumSubpath(path, allowRoot);
    if cleaned.Clean? then Clean(JoinMediumSubpaths(root, cleaned.path)) else cleaned
  }

  /** What gets through is a clean relative path, or the root where the root is allowed. */
  lemma CleanedIsClean(subpath: string, allowEmpty: bool)
    ensures var c := CleanMediumSubpath(subpath, allowEmpty);
            c.Clean? ==> CleanRelative(c.path) || (allowEmpty && c.path == "")
  {
    hide Split, Paths.Clean, Trim, NormaliseSlashes;
    var trimmed := Trim(NormaliseSlashes(subpath));
    if trimmed != "" && trimmed[0] != '/' && ".." !in Split(trimmed) {
      CleanWithoutParent(trimmed);
    }
  }

  /** The scoped path of a clean path is the root, a slash and the path; it cannot leave the root. */
  lemma ScopedPathBelow(root: string, path: string, allowRoot: bool)
    requires CleanRelative(root)
    ensures var c := CleanMediumSubpath(path, allowRoot);
            ScopedPath(root, path, allowRoot) ==
            if !c.Clean? then c else if c.path == "" then Clean(root) else Clean(root + "/" + c.path)
  {
    hide Split, Fold, Join, CleanMediumSubpath, Paths.Clean;
    CleanedIsClean(path, allowRoot);
    var c := CleanMediumSubpath(path, allowRoot);
    if c.Clean? {
      CleanRelativeFixed(root);
      KeptPair(root, c.path);
      if c.path != "" {
        CleanConcat(root, c.path);
        CleanRelativeFixed(root + "/" + c.path);
      }
    }
  }

  lemma KeptPair(a: string, b: string)
    requires a != ""
    ensures JoinMediumSubpaths(a, b) == Paths.Clean(if b == "" then a else a + "/" + b)
  {
    KeptTwo(a, b);
    assert [a, b][1..] == [b];
    assert NonEmpty([b]) == if b == "" then [] else [b];
    assert NonEmpty([a]) == [a];
    if b == "" {
      assert NonEmpty([a, b]) == [a];
    } else {
      assert NonEmpty([a, b]) == [a, b];
      assert NonEmpty([b]) == [b];
    }
  }

  // The private medium below a root

  function In(root: string, path: string): string {
    root + "/" + path
  }

  function Stripped(root: string, path: string): string
    requires Under(path, root)
  {
    path[|root| + 1..]
  }

  lemma InStripped(root: string, path: string)
    ensures Under(In(root, path), root) && Stripped(root, In(root, path)) == path
    ensures Under(path, root) ==> In(root, Stripped(root, path)) == path
  {
  }

  lemma InInjective(root: string, a: string, b: string)
    requires In(root, a) == In(root, b)
    ensures a == b
  {
    InStripped(root, a);
    InStripped(root, b);
  }

  function Inside<V>(m: map<string, V>, root: string): map<string, V> {
    map k | k in (set x | x in m && Under(x, root) :: Stripped(root, x)) :: BelowThere(m, root, k); m[In(root, k)]
  }

  lemma BelowThere<V>(m: map<string, V>, root: string, k: string)
    requires k in (set x | x in m && Under(x, root) :: Stripped(root, x))
    ensures In(root, k) in m
  {
    var x :| x in m && Under(x, root) && Stripped(root, x) == k;
    InStripped(root, x);
  }

  function DirsBelow(dirs: set<string>, root: string): set<string> {
    set x | x in dirs && Under(x, root) :: Stripped(root, x)
  }

  /** The private medium: what is stored below the root, under its path from there. */
  function Project(m: Mem, root: string): Mem {
    Mem(Inside(m.files, root), Inside(m.modes, root), DirsBelow(m.dirs, root), Inside(m.times, root))
  }

  lemma BelowAt<V>(m: map<string, V>, root: string, k: string)
    ensures k in Inside(m, root) <==> In(root, k) in m
    ensures In(root, k) in m ==> Inside(m, root)[k] == m[In(root, k)]
  {
    InStripped(root, k);
    if In(root, k) in m {
      assert Stripped(root, In(root, k)) == k;
    }
    if k in Inside(m, root) {
      BelowThere(m, root, k);
    }
  }

  lemma DirsBelowAt(dirs: set<string>, root: string, k: string)
    ensures k in DirsBelow(dirs, root) <==> In(root, k) in dirs
  {
    InStripped(root, k);
    if In(root, k) in dirs {
      assert Stripped(root, In(root, k)) == k;
    }
    if k in DirsBelow(dirs, root) {
      var x :| x in dirs && Under(x, root) && Stripped(root, x) == k;
      InStripped(root, x);
    }
  }

  /** The root and the directories above it are stored, and none of them is a file. */
  ghost predicate Anchored(m: Mem, root: string) {
    CleanRelative(root) && root in m.dirs && root !in m.files &&
    forall a :: a in Ancestors(root) ==> a in m.dirs && a !in m.files
  }

  /** The two states agree on everything that is not below the root. */
  ghost predicate SameOutside(m: Mem, n: Mem, root: string) {
    forall p :: !Under(p, root) ==>
      (p in m.files <==> p in n.files) && (p in m.files ==> m.files[p] == n.files[p]) &&
      (p in m.modes <==> p in n.modes) && (p in m.modes ==> m.modes[p] == n.modes[p]) &&
      (p in m.times <==> p in n.times) && (p in m.times ==> m.times[p] == n.times[p]) &&
      (p in m.dirs <==> p in n.dirs)
  }

  // How the string tests look from inside

  lemma UnderIn(root: string, p: string, d: string)
    ensures Under(In(root, p), In(root, d)) <==> Under(p, d)
    ensures !Under(d, root) && Under(In(root, p), d) ==> d == root || Under(root, d)
    ensures d == root || Under(root, d) ==> Under(In(root, p), d)
  {
    var q := In(root, p);
    InStripped(root, p);
    assert q[|root| + 1..] == p;
    if Under(q, In(root, d)) {
      assert q[..|root| + 1 + |d| + 1] == In(root, d) + "/";
      assert p[..|d| + 1] == q[..|root| + 1 + |d| + 1][|root| + 1..] == (In(root, d) + "/")[|root| + 1..] == d + "/";
    }
    if Under(p, d) {
      assert q[..|root| + 1 + |d| + 1] == root + "/" + p[..|d| + 1];
    }
    if Under(q, d) {
      UnderComparable(q, root, d);
    }
    if Under(root, d) {
      UnderTransitive(q, root, d);
    }
  }

  lemma AncestorsIn(root: string, p: string, d: string)
    requires CleanRelative(root) && CleanRelative(p)
    ensures In(root, d) in Ancestors(In(root, p)) <==> d in Ancestors(p)
    ensures !Under(d, root) ==> (d in Ancestors(In(root, p)) <==> d == root || d in Ancestors(root))
  {
    hide Under, CleanRelative, Ancestors, In;
    CleanIn(root, p);
    AncestorsAreUnder(root);
    AncestorsAreUnder(p);
    AncestorsAreUnder(In(root, p));
    UnderIn(root, p, d);
  }

  lemma CleanIn(root: string, p: string)
    requires CleanRelative(root) && CleanRelative(p)
    ensures CleanRelative(In(root, p))
  {
    CleanConcat(root, p);
  }

  lemma PrefixIn(root: string, k: string, p: string)
    ensures HasPrefix(In(root, k), In(root, p) + "/") <==> HasPrefix(k, p + "/")
    ensures HasPrefix(k, In(root, p) + "/") ==> Under(k, root)
  {
    UnderIn(root, k, p);
    if HasPrefix(k, In(root, p) + "/") {
      InStripped(root, p);
      UnderTransitive(k, In(root, p), root);
    }
  }

  /** Existence and emptiness of a directory look the same from inside. */
  lemma DirectoryIn(m: Mem, root: string, p: string)
    requires CleanRelative(root) && CleanRelative(p)
    ensures DirectoryExists(m, In(root, p)) <==> DirectoryExists(Project(m, root), p)
    ensures HasChildren(m, In(root, p)) <==> HasChildren(Project(m, root), p)
  {
    hide CleanRelative, Inside, DirsBelow, In, Under;
    CleanIn(root, p);
    CleanRelativeFixed(p);
    CleanRelativeFixed(In(root, p));
    ChildPrefixOfClean(p);
    ChildPrefixOfClean(In(root, p));
    DirsBelowAt(m.dirs, root, p);
    BelowFileIn(m, root, p);
    BelowDirectoryIn(m, root, p);
  }

  lemma BelowFileIn(m: Mem, root: string, p: string)
    ensures HasFileBelow(m, In(root, p) + "/") <==> HasFileBelow(Project(m, root), p + "/")
  {
    hide Inside, In, Under, HasPrefix;
    if f :| f in m.files && HasPrefix(f, In(root, p) + "/") {
      PrefixIn(root, f, p);
      InStripped(root, f);
      var k := Stripped(root, f);
      PrefixIn(root, k, p);
      BelowAt(m.files, root, k);
    }
    if k :| k in Project(m, root).files && HasPrefix(k, p + "/") {
      PrefixIn(root, k, p);
      BelowAt(m.files, root, k);
    }
  }

  lemma BelowDirectoryIn(m: Mem, root: string, p: string)
    ensures HasDirectoryBelow(m, In(root, p), In(root, p) + "/") <==> HasDirectoryBelow(Project(m, root), p, p + "/")
  {
    hide DirsBelow, In, Under, HasPrefix;
    if d :| d in m.dirs && d != In(root, p) && HasPrefix(d, In(root, p) + "/") {
      PrefixIn(root, d, p);
      InStripped(root, d);
      var k := Stripped(root, d);
      PrefixIn(root, k, p);
      DirsBelowAt(m.dirs, root, k);
    }
    if k :| k in Project(m, root).dirs && k != p && HasPrefix(k, p + "/") {
      PrefixIn(root, k, p);
      DirsBelowAt(m.dirs, root, k);
      if In(root, k) == In(root, p) {
        InInjective(root, k, p);
      }
    }
  }
}
