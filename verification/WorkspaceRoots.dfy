/** Ids and paths of the encrypted workspaces (go/workspace/service.go). */
module WorkspaceRoots {
  import opened Options
  import opened ByteStrings
  import opened Paths
  import opened PathTree
  import opened PathBelow
  import opened Obfuscators
  import Sigils


  datatype ServiceError =
    | WorkspaceIdRequired
    | PathEscapesRoot
    | InvalidWorkspaceId
    | WorkspaceExists
    | WorkspaceNotFound
    | DirectoryFailed
    | KeyPairFailed
    | SaveFailed
    | NoActiveWorkspace
    | FileEscapesWorkspace
    | FilePathRequired
    | KeyUnreadable
    | FileNotFound
    | CipherFailed(error: Sigils.SigilError)

  datatype Result<+T> = Good(value: T) | Bad(error: ServiceError)

  // Paths

  function JoinPathWithinRoot(root: string, part: string): Option<string> {
    var candidate := PathJoin([root, part]);
    if candidate == root || HasPrefix(candidate, root + "/") then Some(candidate) else None
  }

  function ResolveWorkspaceDirectory(root: string, id: string): Result<string> {
    if id == "" then Bad(WorkspaceIdRequired)
    else
      var directory := JoinPathWithinRoot(root, id);
      if directory.None? then Bad(PathEscapesRoot)
      else if PathDir(directory.value) != root then Bad(InvalidWorkspaceId)
      else Good(directory.value)
  }

  function FilesRoot(root: string, id: string): string {
    PathJoin([root, id, "files"])
  }

  function KeyPath(root: string, id: string): string {
    PathJoin([root, id, "keys", "private.key"])
  }

  function ResolveFile(root: string, active: string, path: string): Result<string> {
    if active == "" then Bad(NoActiveWorkspace)
    else
      var filesRoot := FilesRoot(root, active);
      var file := JoinPathWithinRoot(filesRoot, path);
      if file.None? then Bad(FileEscapesWorkspace)
      else if file.value == filesRoot then Bad(FilePathRequired)
      else Good(file.value)
  }

  function HexDigit(n: nat): (c: char)
    requires n < 16
    ensures '0' <= c
  {
    if n < 10 then ('0' as int + n) as char else ('a' as int + n - 10) as char
  }

  function HexByte(b: bv8): (s: string)
    ensures |s| == 2 && forall c :: c in s ==> '0' <= c
  {
    var n := b as nat;
    [HexDigit(n / 16), HexDigit(n % 16)]
  }

  function Hex(b: Bytes): (s: string)
    ensures |s| == 2 * |b|
    ensures forall c :: c in s ==> '0' <= c
  {
    if b == [] then "" else HexByte(b[0]) + Hex(b[1..])
  }

  const HEX_DIGITS := "0123456789abcdef"

  lemma HexDigitIs(n: nat)
    requires n < 16
    ensures |HEX_DIGITS| == 16 && HexDigit(n) == HEX_DIGITS[n]
    ensures forall m: nat :: m < 16 && HexDigit(m) == HexDigit(n) ==> m == n
  {
  }

  lemma HexByteIs(b: bv8)
    ensures b as nat / 16 < 16 && HexByte(b) == [HexDigit(b as nat / 16), HexDigit(b as nat % 16)]
  {
    hide HexDigit;
  }

  /** Two lower-case hexadecimal digits for each byte, the higher four bits first. */
  lemma {:induction false} HexAt(b: Bytes, i: nat)
    requires i < |b|
    ensures |HEX_DIGITS| == 16 && b[i] as nat / 16 < 16
    ensures Hex(b)[2 * i] == HEX_DIGITS[b[i] as nat / 16]
    ensures Hex(b)[2 * i + 1] == HEX_DIGITS[b[i] as nat % 16]
    decreases |b|
  {
    hide HexDigit, HexByte, HEX_DIGITS;
    HexByteIs(b[i]);
    HexDigitIs(b[i] as nat / 16);
    HexDigitIs(b[i] as nat % 16);
    if i > 0 {
      HexAt(b[1..], i - 1);
      assert Hex(b)[2..] == Hex(b[1..]);
    }
  }

  /** Different hashes have different ids. */
  lemma {:induction false} HexInjective(a: Bytes, b: Bytes)
    requires Hex(a) == Hex(b)
    ensures a == b
    decreases |a|
  {
    hide HexDigit, HexByte;
    if a != [] {
      assert |a| == |b|;
      assert Hex(a)[..2] == HexByte(a[0]) && Hex(b)[..2] == HexByte(b[0]);
      HexByteInjective(a[0], b[0]);
      assert Hex(a)[2..] == Hex(a[1..]) && Hex(b)[2..] == Hex(b[1..]);
      HexInjective(a[1..], b[1..]);
      assert a == [a[0]] + a[1..] && b == [b[0]] + b[1..];
    }
  }

  lemma HexByteInjective(a: bv8, b: bv8)
    requires HexByte(a) == HexByte(b)
    ensures a == b
  {
    hide *;
    HexByteIs(a);
    HexByteIs(b);
    TwoDigits(a as nat, b as nat);
    SameByte(a, b);
  }

  lemma TwoDigits(m: nat, n: nat)
    requires m / 16 < 16 && n / 16 < 16
    requires [HexDigit(m / 16), HexDigit(m % 16)] == [HexDigit(n / 16), HexDigit(n % 16)]
    ensures m == n
  {
    hide HexDigit;
    var (x, y) := ([HexDigit(m / 16), HexDigit(m % 16)], [HexDigit(n / 16), HexDigit(n % 16)]);
    assert x[0] == y[0] && x[1] == y[1];
    HexDigitIs(n / 16);
    HexDigitIs(n % 16);
    SameQuotient(m, n);
  }

  lemma SameByte(a: bv8, b: bv8)
    requires a as nat == b as nat
    ensures a == b
  {
    ByteOfItself(a);
    ByteOfItself(b);
  }

  lemma SameQuotient(m: nat, n: nat)
    requires m / 16 == n / 16 && m % 16 == n % 16
    ensures m == n
  {
  }

  // Roots and names

  /** The clean roots that have no directory below them in the eyes of the prefix test. */
  predicate RootOnly(root: string) {
    root == "/" || root == "."
  }

  /** A clean root that is nothing but parent steps. */
  predicate AllParents(root: string) {
    forall c :: c in Split(root) ==> c == ".."
  }

  /** What the active workspace can be called: a name below the root, or the root itself. */
  predicate IsWorkspaceName(root: string, w: string) {
    Clean(root) == root &&
    if RootOnly(root) then w == root else Normal(w) || (w == ".." && AllParents(root))
  }

  function DirectoryOf(root: string, w: string): string {
    if RootOnly(root) then root else root + "/" + w
  }

  /** What comes before everything of a workspace. */
  function Place(root: string, w: string): string {
    if root == "/" then "/" else if root == "." then "" else root + "/" + w + "/"
  }

  function DirSteps(root: string, w: string): seq<string> {
    if RootOnly(root) then [] else Steps(root) + [w]
  }

  lemma NameHasNoSlash(root: string, w: string)
    requires IsWorkspaceName(root, w) && !RootOnly(root)
    ensures '/' !in w && w != ""
  {
  }

  lemma SplitSteps(root: string)
    requires Clean(root) == root && !RootOnly(root)
    ensures Split(root) == (if Rooted(root) then [""] else []) + Steps(root)
    ensures Tidy(Steps(root), Rooted(root)) && Steps(root) != []
    ensures LastPart(root) == Steps(root)[|Steps(root)| - 1]
    ensures forall c :: c in Steps(root) ==> Normal(c) || c == ".."
  {
    hide Split, Steps, Render, Clean;
    CleanIsTidy(root);
    CleanLast(root);
    TidyRender(Steps(root), Rooted(root));
  }

  /** Parent steps come first, so all are when the last one is. */
  lemma LastIsParent(cs: seq<string>)
    requires DotsFirst(cs) && cs != []
    ensures (forall c :: c in cs ==> c == "..") <==> cs[|cs| - 1] == ".."
    ensures cs[|cs| - 1] == ".." <==> !Normal(cs[|cs| - 1])
  {
    assert cs[|cs| - 1] in cs;
    if cs[|cs| - 1] == ".." {
      forall c | c in cs ensures c == ".." {
        var i :| 0 <= i < |cs| && cs[i] == c;
        assert i < |cs| - 1 ==> cs[i] == "..";
      }
    }
  }

  /** A root made of parent steps is relative, and its steps are these. */
  lemma AllParentsSteps(root: string)
    requires Clean(root) == root && !RootOnly(root)
    ensures AllParents(root) <==> forall c :: c in Steps(root) ==> c == ".."
    ensures AllParents(root) ==> !Rooted(root)
    ensures AllParents(root) <==> !Normal(LastPart(root))
  {
    hide Split, Steps, Render, Clean, Rooted, RootOnly, LastPart, DotsFirst;
    SplitSteps(root);
    var (front, cs) := (if Rooted(root) then [""] else [], Steps(root));
    LastIsParent(cs);
    assert forall c :: c in front + cs <==> c in front || c in cs;
    assert Rooted(root) ==> "" in front;
    assert cs[0] in cs;
    assert Rooted(root) ==> ".." !in cs;
  }

  /** The steps of a workspace's directory. */
  lemma NameSteps(root: string, w: string)
    requires IsWorkspaceName(root, w)
    ensures var (d, rooted) := (DirSteps(root, w), Rooted(root));
            Tidy(d, rooted) && Fold(Steps(root), Split(w), rooted) == d &&
            DirectoryOf(root, w) == Render(d, rooted) &&
            Steps(DirectoryOf(root, w)) == d && Rooted(DirectoryOf(root, w)) == rooted
  {
    hide Split, Steps, Render, Clean, Fold;
    CleanIsTidy(root);
    CleanLast(root);
    var (cs, rooted) := (Steps(root), Rooted(root));
    if RootOnly(root) {
      NothingMore(rooted);
      TidyRender([], rooted);
    } else {
      AllParentsSteps(root);
      SplitSingle(w);
      var d := cs + [w];
      assert Tidy(d, rooted) by {
        if Normal(w) {
          TidyBelow(cs, [w], rooted);
        } else {
          assert forall i | 0 <= i < |d| :: d[i] == "..";
        }
      }
      FoldTidyFixed(cs, [w], rooted);
      RenderConcat(cs, [w], rooted);
      JoinOne(w);
      TidyRender(d, rooted);
    }
  }

  /** The root names add no step to a root without steps. */
  lemma NothingMore(rooted: bool)
    ensures Fold([], Split("/"), rooted) == [] && Fold([], Split("."), rooted) == []
    ensures Rooted("/") && !Rooted(".")
  {
    SplitSlash();
    SplitSingle(".");
    assert ["", ""][1..] == [""];
  }

  /** What lies below a workspace's directory, rendered. */
  lemma PlaceRender(root: string, w: string, tail: Components)
    requires IsWorkspaceName(root, w) && tail != []
    ensures var (d, rooted) := (DirSteps(root, w), Rooted(root));
            Tidy(d + tail, rooted) && Render(d + tail, rooted) == Place(root, w) + Join(tail)
  {
    hide Split, Steps, Clean, Fold, Join;
    NameSteps(root, w);
    var (d, rooted) := (DirSteps(root, w), Rooted(root));
    TidyBelow(d, tail, rooted);
    if RootOnly(root) {
      assert d + tail == tail;
    } else {
      RenderConcat(d, tail, rooted);
    }
  }

  lemma JoinThreeSteps(a: string, b: string, c: string)
    requires a != "" && b != "" && c != ""
    ensures PathJoin([a, b, c]) == Render(Fold(Fold(Steps(a), Split(b), Rooted(a)), Split(c), Rooted(a)), Rooted(a))
  {
    hide Split, Fold, Join;
    KeptThree(a, b, c);
    SplitConcat(a + "/" + b, c);
    SplitConcat(a, b);
    FoldConcat([], Split(a) + Split(b), Split(c), Rooted(a));
    FoldConcat([], Split(a), Split(b), Rooted(a));
    assert Rooted(a + "/" + b + "/" + c) == Rooted(a);
  }

  lemma JoinFourSteps(a: string, b: string, c: string, d: string)
    requires a != "" && b != "" && c != "" && d != ""
    ensures PathJoin([a, b, c, d]) ==
            Render(Fold(Fold(Fold(Steps(a), Split(b), Rooted(a)), Split(c), Rooted(a)), Split(d), Rooted(a)), Rooted(a))
  {
    hide Split, Fold, Join, PathJoin, Clean;
    KeptFour(a, b, c, d);
    KeptThree(a, b, c);
    JoinThreeSteps(a, b, c);
    FoursRender(a + "/" + b + "/" + c, d);
    SplitConcat(a + "/" + b, c);
    SplitConcat(a, b);
    FoldConcat([], Split(a) + Split(b), Split(c), Rooted(a));
    FoldConcat([], Split(a), Split(b), Rooted(a));
    assert Rooted(a + "/" + b + "/" + c) == Rooted(a);
  }

  lemma FoursRender(front: string, d: string)
    requires front != "" && d != ""
    ensures Clean(front + "/" + d) == Render(Fold(Steps(front), Split(d), Rooted(front)), Rooted(front))
  {
    hide Split, Fold, Join;
    SplitConcat(front, d);
    FoldConcat([], Split(front), Split(d), Rooted(front));
  }

  lemma FoldName(d: seq<string>, name: string, rooted: bool)
    requires Tidy(d, rooted) && Normal(name)
    ensures Fold(d, Split(name), rooted) == d + [name] && Tidy(d + [name], rooted)
  {
    hide Split, Fold;
    SplitSingle(name);
    TidyBelow(d, [name], rooted);
    FoldTidyFixed(d, [name], rooted);
  }

  lemma NamesAreNormal()
    ensures Normal("files") && Normal("keys") && Normal("private.key")
    ensures Join(["files"]) == "files" && Join(["keys", "private.key"]) == "keys/private.key"
  {
    JoinOne("files");
    JoinOne("private.key");
    JoinCons("keys", ["private.key"]);
    assert ["keys"] + ["private.key"] == ["keys", "private.key"];
  }

  /** The places of a workspace, spelled out. */
  lemma WorkspacePlaces(root: string, w: string)
    requires IsWorkspaceName(root, w)
    ensures FilesRoot(root, w) == Place(root, w) + "files" && CleanDirectory(FilesRoot(root, w))
    ensures KeyPath(root, w) == Place(root, w) + "keys/private.key"
    ensures PathJoin([DirectoryOf(root, w), "keys", "private.key"]) == KeyPath(root, w)
  {
    hide Split, Steps, Render, Clean, Fold, Join, PathJoin, Rooted, Normal, Place, DirSteps, DirectoryOf;
    NamesAreNormal();
    NotEmpty(root, w);
    var (d, rooted) := (DirSteps(root, w), Rooted(root));
    NameSteps(root, w);
    FoldName(d, "files", rooted);
    FoldName(d, "keys", rooted);
    FoldName(d + ["keys"], "private.key", rooted);
    assert d + ["keys"] + ["private.key"] == d + ["keys", "private.key"];
    JoinThreeSteps(root, w, "files");
    JoinFourSteps(root, w, "keys", "private.key");
    JoinThreeSteps(DirectoryOf(root, w), "keys", "private.key");
    PlaceRender(root, w, ["files"]);
    PlaceRender(root, w, ["keys", "private.key"]);
    TidyRender(d + ["files"], rooted);
    CleanLast(Render(d + ["files"], rooted));
  }

  /** A subdirectory of a workspace with an ordinary name. */
  lemma SubdirectoryAt(root: string, w: string, name: string)
    requires IsWorkspaceName(root, w) && !RootOnly(root) && Normal(w) && Normal(name)
    ensures PathJoin([root + "/" + w, name]) == root + "/" + w + "/" + name
  {
    hide Split, Steps, Render, Clean, Fold, Join, PathJoin, Rooted, Normal, CleanRelative;
    var (d, rooted) := (DirSteps(root, w), Rooted(root));
    NameSteps(root, w);
    TidyRender(d, rooted);
    CleanLast(root + "/" + w);
    NormalIsClean(name);
    JoinClean(root + "/" + w, name);
  }

  lemma PlacesAreClean(root: string, w: string)
    requires IsWorkspaceName(root, w) && !RootOnly(root)
    ensures var directory := root + "/" + w; Clean(directory) == directory && directory != "/" && directory != "."
  {
    hide Split, Steps, Render, Clean, Fold, Join, PathJoin, Rooted, Normal;
    NameSteps(root, w);
    TidyRender(DirSteps(root, w), Rooted(root));
    CleanLast(root + "/" + w);
  }

  lemma KeysName()
    ensures Join(["keys"]) == "keys"
  {
  }

  lemma KeysIsClean(root: string, w: string)
    requires IsWorkspaceName(root, w) && !RootOnly(root)
    ensures var keys := root + "/" + w + "/keys"; Clean(keys) == keys && keys != "/" && keys != "."
  {
    assert Place(root, w) == root + "/" + w + "/" && RootOnly("/") && RootOnly(".");
    hide *;
    NamesAreNormal();
    PlaceRender(root, w, ["keys"]);
    TidyRender(DirSteps(root, w) + ["keys"], Rooted(root));
    KeysName();
    assert root + "/" + w + "/" + "keys" == root + "/" + w + "/keys";
    assert |root + "/" + w + "/keys"| > 1;
  }

  lemma NotEmpty(root: string, w: string)
    requires IsWorkspaceName(root, w)
    ensures root != "" && w != "" && DirectoryOf(root, w) != ""
  {
    CleanEmpty();
  }

  lemma PathJoinKept(parts: seq<string>)
    requires parts != [] && "" !in parts
    ensures PathJoin(parts) == Clean(Join(parts))
  {
    hide Clean, Join, NonEmpty;
    NonEmptyAll(parts);
  }

  lemma JoinLast(front: seq<string>, last: string)
    requires front != []
    ensures Join(front + [last]) == Join(front) + "/" + last
  {
    hide Join;
    JoinConcat(front, [last]);
    JoinOne(last);
  }

  lemma KeptThree(a: string, b: string, c: string)
    requires a != "" && b != "" && c != ""
    ensures PathJoin([a, b, c]) == Clean(a + "/" + b + "/" + c)
    ensures Join([a, b, c]) == a + "/" + b + "/" + c
  {
    hide *;
    PathJoinKept([a, b, c]);
    JoinOne(a);
    assert [a] + [b] == [a, b] && [a, b] + [c] == [a, b, c];
    JoinLast([a], b);
    JoinLast([a, b], c);
  }

  lemma KeptFour(a: string, b: string, c: string, d: string)
    requires a != "" && b != "" && c != "" && d != ""
    ensures PathJoin([a, b, c, d]) == Clean(a + "/" + b + "/" + c + "/" + d)
  {
    hide *;
    PathJoinKept([a, b, c, d]);
    KeptThree(a, b, c);
    assert [a, b, c] + [d] == [a, b, c, d];
    JoinLast([a, b, c], d);
  }

  // Which ids are accepted

  /** Only a clean root has anything a join can be or start with. */
  lemma UncleanRefuses(root: string, id: string)
    requires root != "" && Clean(root) != root
    ensures ResolveWorkspaceDirectory(root, id).Bad?
  {
    hide Clean, PathJoin, Split, Fold, Render, Steps;
    if id != "" {
      JoinedSteps(root, id);
      var out := Fold(Steps(root), Split(id), Rooted(root));
      TidyRender(out, Rooted(root));
      if HasPrefix(PathJoin([root, id]), root + "/") {
        PrefixOfCleanIsClean(PathJoin([root, id]), root);
      }
    }
  }

  /** In steps: the join is the root when the root is its own parent, or else the root and one step. */
  lemma AcceptedSteps(root: string, id: string)
    requires Clean(root) == root
    ensures var (cs, out) := (Steps(root), Fold(Steps(root), Split(id), Rooted(root)));
            Tidy(out, Rooted(root)) && PathJoin([root, id]) == Render(out, Rooted(root)) &&
            (ResolveWorkspaceDirectory(root, id).Good? <==>
               id != "" && if cs == [] then out == [] else |out| == |cs| + 1 && out[..|cs|] == cs) &&
            (ResolveWorkspaceDirectory(root, id).Good? ==>
               ResolveWorkspaceDirectory(root, id).value == Render(out, Rooted(root)))
  {
    hide Clean, PathJoin, Split, Fold, Render, Steps, PathDir, Rooted;
    CleanEmpty();
    CleanIsTidy(root);
    CleanLast(root);
    JoinedSteps(root, id);
    OwnParent(root);
    var (cs, rooted) := (Steps(root), Rooted(root));
    var out := Fold(cs, Split(id), rooted);
    RenderPrefix(cs, out, rooted);
    if Render(out, rooted) == Render(cs, rooted) {
      RenderInjective(out, cs, rooted);
    }
    if out != [] {
      RenderParent(out, rooted);
      var front := out[..|out| - 1];
      assert Tidy(front, rooted);
      if Render(front, rooted) == Render(cs, rooted) {
        RenderInjective(front, cs, rooted);
      }
    }
  }

  /** An accepted id leads to a named directory, whose base is the name. */
  lemma WorkspaceDirectoryShape(root: string, id: string) returns (w: string)
    requires root != "" && ResolveWorkspaceDirectory(root, id).Good?
    ensures IsWorkspaceName(root, w) && ResolveWorkspaceDirectory(root, id) == Good(DirectoryOf(root, w))
    ensures PathBase(DirectoryOf(root, w)) == w
  {
    hide Clean, PathJoin, Split, Fold, Steps, PathDir, PathBase, Rooted, ResolveWorkspaceDirectory, Render;
    if Clean(root) != root {
      UncleanRefuses(root, id);
    }
    AcceptedSteps(root, id);
    CleanIsTidy(root);
    CleanLast(root);
    OwnParent(root);
    var (cs, rooted) := (Steps(root), Rooted(root));
    var out := Fold(cs, Split(id), rooted);
    if cs == [] {
      w := root;
    } else {
      w := out[|cs|];
      AllParentsSteps(root);
      assert out == cs + [w];
      assert w in out;
      if w == ".." {
        forall c | c in cs ensures c == ".." {
          var i :| 0 <= i < |cs| && cs[i] == c;
          assert out[i] == c;
        }
      }
      RenderParent(out, rooted);
      NameSteps(root, w);
    }
  }

  /** An id is accepted exactly when, joined and cleaned, it names a workspace's directory. */
  lemma WorkspaceDirectoryExact(root: string, id: string)
    requires root != ""
    ensures ResolveWorkspaceDirectory(root, id).Good? <==>
            id != "" && exists w :: IsWorkspaceName(root, w) && PathJoin([root, id]) == DirectoryOf(root, w)
  {
    hide Clean, PathJoin, Split, Fold, Steps, PathDir, Rooted, Render;
    if ResolveWorkspaceDirectory(root, id).Good? {
      var w := WorkspaceDirectoryShape(root, id);
    }
    if w :| IsWorkspaceName(root, w) && PathJoin([root, id]) == DirectoryOf(root, w) {
      AcceptedSteps(root, id);
      NameSteps(root, w);
      CleanLast(root);
      var (cs, rooted) := (Steps(root), Rooted(root));
      RenderInjective(Fold(cs, Split(id), rooted), DirSteps(root, w), rooted);
    }
  }

  lemma HexIsNormal(b: Block)
    ensures Normal(Hex(b)) && Hex(b) != ""
  {
    hide Hex;
  }

  /** An ordinary name is accepted exactly below a clean root other than `/` and `.`, as that directory. */
  lemma NameAcceptedExact(root: string, id: string)
    requires root != "" && Normal(id)
    ensures ResolveWorkspaceDirectory(root, id).Good? <==> Clean(root) == root && !RootOnly(root)
    ensures Clean(root) == root && !RootOnly(root) ==>
              IsWorkspaceName(root, id) && ResolveWorkspaceDirectory(root, id) == Good(root + "/" + id)
  {
    hide Clean, PathJoin, Split, Fold, Steps, PathDir, Rooted, Render, ResolveWorkspaceDirectory;
    if Clean(root) != root {
      UncleanRefuses(root, id);
    } else {
      AcceptedSteps(root, id);
      CleanIsTidy(root);
      CleanLast(root);
      FoldName(Steps(root), id, Rooted(root));
      if !RootOnly(root) {
        NameSteps(root, id);
        assert (Steps(root) + [id])[..|Steps(root)|] == Steps(root);
      }
    }
  }

  /** The id of an identifier is accepted exactly below a clean root other than `/` and `.`. */
  lemma HexAcceptedExact(root: string, b: Block)
    requires root != ""
    ensures ResolveWorkspaceDirectory(root, Hex(b)).Good? <==> Clean(root) == root && !RootOnly(root)
    ensures Clean(root) == root && !RootOnly(root) ==>
              IsWorkspaceName(root, Hex(b)) && ResolveWorkspaceDirectory(root, Hex(b)) == Good(root + "/" + Hex(b))
  {
    hide Hex;
    HexIsNormal(b);
    NameAcceptedExact(root, Hex(b));
  }

  ghost predicate DirectChild(root: string, directory: string) {
    exists w :: Normal(w) && directory == root + "/" + w
  }

  /** Below a root of parent steps the id `..` is accepted, and leads out of the root. */
  lemma ParentAccepted(root: string)
    requires Clean(root) == root && AllParents(root) && !RootOnly(root)
    ensures ResolveWorkspaceDirectory(root, "..") == Good(root + "/..") && !DirectChild(root, root + "/..")
  {
    hide Clean, PathJoin, Split, Fold, Steps, PathDir, Rooted, Render;
    AcceptedSteps(root, "..");
    NameSteps(root, "..");
    CleanLast(root);
    assert (Steps(root) + [".."])[..|Steps(root)|] == Steps(root);
    assert root + "/" + ".." == root + "/..";
    forall w | root + "/.." == root + "/" + w ensures !Normal(w) {
      assert w == (root + "/..")[|root| + 1..] == "..";
    }
  }

  /** Below `/` and `.` the id `.` is accepted, and leads to the root itself. */
  lemma SelfAccepted(root: string)
    requires RootOnly(root)
    ensures Clean(root) == root
    ensures ResolveWorkspaceDirectory(root, ".") == Good(root) && !DirectChild(root, root)
  {
    hide PathJoin, Split, Fold, Steps, PathDir, Rooted, Render, ResolveWorkspaceDirectory;
    RootsAreClean();
    hide Clean;
    AcceptedSteps(root, ".");
    CleanLast(root);
    CleanIsTidy(root);
    NothingMore(Rooted(root));
  }

  lemma RootsAreClean()
    ensures Clean("/") == "/" && Clean(".") == "." && Clean("..") == ".."
    ensures AllParents("..")
  {
    CleanSlash();
    SplitSingle(".");
    SplitSingle("..");
  }

  /**
   Every accepted id leads to a directory directly below the root, with an ordinary name, exactly
   when the root, if it is clean at all, ends in an ordinary name: when it is neither `/` nor `.`
   nor made of parent steps.
   */
  lemma DirectChildExact(root: string)
    requires root != ""
    ensures (forall id :: AcceptedIsChild(root, id)) <==> (Clean(root) == root ==> Normal(LastPart(root)))
    ensures (forall id :: AcceptedIsChild(root, id)) <==> !(Clean(root) == root && (RootOnly(root) || AllParents(root)))
  {
    hide Clean, PathJoin, Split, PathDir, ResolveWorkspaceDirectory, DirectChild, LastPart;
    if Clean(root) == root {
      CleanLast(root);
      if RootOnly(root) {
        SelfAccepted(root);
        assert !AcceptedIsChild(root, ".");
      } else {
        AllParentsSteps(root);
        if AllParents(root) {
          ParentAccepted(root);
          assert !AcceptedIsChild(root, "..");
        }
      }
    }
    if Clean(root) == root ==> !RootOnly(root) && !AllParents(root) {
      forall id ensures AcceptedIsChild(root, id) {
        if ResolveWorkspaceDirectory(root, id).Good? {
          var w := WorkspaceDirectoryShape(root, id);
          assert DirectChild(root, root + "/" + w) by { NameIsChild(root, w); }
        }
      }
    }
  }

  ghost predicate AcceptedIsChild(root: string, id: string) {
    ResolveWorkspaceDirectory(root, id).Good? ==> DirectChild(root, ResolveWorkspaceDirectory(root, id).value)
  }

  lemma NameIsChild(root: string, w: string)
    requires Normal(w)
    ensures DirectChild(root, root + "/" + w)
  {
  }

  /** At the root `..` the id `..` names a directory outside the root. */
  lemma ParentRootEscapes()
    ensures ResolveWorkspaceDirectory("..", "..") == Good("../..")
  {
    hide Clean, PathJoin, Split, PathDir, ResolveWorkspaceDirectory;
    RootsAreClean();
    ParentAccepted("..");
    assert ".." + "/.." == "../..";
  }

  /** At `/` and `.` the id of no identifier is accepted, so no workspace can be created. */
  lemma RootOnlyRefuses(root: string, b: Block)
    requires RootOnly(root)
    ensures ResolveWorkspaceDirectory(root, Hex(b)) == Bad(PathEscapesRoot)
  {
    hide Clean, PathJoin, Split, Fold, Steps, PathDir, Rooted, Render, Hex;
    SelfAccepted(root);
    HexIsNormal(b);
    JoinedSteps(root, Hex(b));
    CleanLast(root);
    CleanIsTidy(root);
    FoldName(Steps(root), Hex(b), Rooted(root));
    RenderPrefix([], [Hex(b)], Rooted(root));
    assert Steps(root) + [Hex(b)] == [Hex(b)];
    if Render([Hex(b)], Rooted(root)) == Render([], Rooted(root)) {
      RenderInjective([Hex(b)], [], Rooted(root));
    }
  }

  // No two places coincide

  /**
   The caller's path below the files of a workspace, once cleaned: what its components add to those of
   the files directory, if they leave these in place and add any.
   */
  function CallerPath(root: string, w: string, path: string): Option<string> {
    var files := DirSteps(root, w) + ["files"];
    var out := Fold(files, Split(path), Rooted(root));
    if |files| < |out| && out[..|files|] == files then Some(Join(out[|files|..])) else None
  }

  /**
   Which file a path names, for every path: its components are folded onto those of the files
   directory; the path is refused when these do not stay in front, and is no path when nothing is added.
   */
  lemma ResolveFileExact(root: string, w: string, path: string)
    requires IsWorkspaceName(root, w)
    ensures var files := DirSteps(root, w) + ["files"];
            var out := Fold(files, Split(path), Rooted(root));
            ResolveFile(root, w, path) ==
            if !(|files| <= |out| && out[..|files|] == files) then Bad(FileEscapesWorkspace)
            else if out == files then Bad(FilePathRequired)
            else Good(Place(root, w) + "files/" + Join(out[|files|..]))
  {
    NotEmpty(root, w);
    hide Split, Steps, Render, Clean, Fold, Join, Place, DirSteps, IsWorkspaceName, FilesRoot, JoinPathWithinRoot, Rooted, Tidy;
    FilesRootSteps(root, w);
    var (files, rooted) := (DirSteps(root, w) + ["files"], Rooted(root));
    var out := Fold(files, Split(path), rooted);
    JoinedWithin(FilesRoot(root, w), files, rooted, path);
    if |files| <= |out| && out[..|files|] == files {
      assert |out| == |files| ==> out == files;
      Associative(Place(root, w) + "files", "/", Join(out[|files|..]));
      Associative(Place(root, w), "files", "/");
      assert "files" + "/" == "files/";
    }
  }

  /** The program's join, by components. */
  lemma JoinedWithin(dir: string, steps: seq<string>, rooted: bool, path: string)
    requires dir != "" && dir == Render(steps, rooted) && steps != [] && Tidy(steps, rooted)
    requires Steps(dir) == steps && Rooted(dir) == rooted
    ensures var (out, joined) := (Fold(steps, Split(path), rooted), JoinPathWithinRoot(dir, path));
            (joined.Some? <==> |steps| <= |out| && out[..|steps|] == steps) &&
            (joined == Some(dir) <==> out == steps) &&
            (joined.Some? && out != steps ==> joined == Some(dir + "/" + Join(out[|steps|..])))
  {
    hide Split, Steps, Render, Clean, Fold, Join, PathJoin, HasPrefix, Rooted, Tidy;
    var out := Fold(steps, Split(path), rooted);
    JoinedSteps(dir, path);
    RenderPrefix(steps, out, rooted);
    if Render(out, rooted) == dir {
      RenderInjective(out, steps, rooted);
    }
    if |steps| == |out| && out[..|steps|] == steps {
      assert out == steps;
    }
  }

  lemma FilesRootSteps(root: string, w: string)
    requires IsWorkspaceName(root, w)
    ensures var (files, rooted) := (DirSteps(root, w) + ["files"], Rooted(root));
            Tidy(files, rooted) && files != [] && FilesRoot(root, w) == Render(files, rooted) != "" &&
            FilesRoot(root, w) == Place(root, w) + "files" &&
            Steps(FilesRoot(root, w)) == files && Rooted(FilesRoot(root, w)) == rooted
  {
    hide Split, Steps, Render, Clean, Fold, Join, PathJoin, Place, DirSteps, IsWorkspaceName, Rooted;
    NamesAreNormal();
    WorkspacePlaces(root, w);
    PlaceRender(root, w, ["files"]);
    TidyRender(DirSteps(root, w) + ["files"], Rooted(root));
  }

  /**
   What becomes of every id at a root where workspaces can be: its components are folded onto those of the root;
   it escapes when these do not stay in front, and is accepted when exactly one is added.
   */
  lemma DirectoryExact(root: string, id: string)
    requires Clean(root) == root && !RootOnly(root)
    ensures var (steps, out) := (Steps(root), Fold(Steps(root), Split(id), Rooted(root)));
            ResolveWorkspaceDirectory(root, id) ==
            if id == "" then Bad(WorkspaceIdRequired)
            else if !(|steps| <= |out| && out[..|steps|] == steps) then Bad(PathEscapesRoot)
            else if |out| == |steps| + 1 then Good(root + "/" + out[|steps|])
            else Bad(InvalidWorkspaceId)
  {
    hide Clean, PathJoin, Split, Fold, Steps, PathDir, Rooted, Render, Join;
    var (steps, out) := (Steps(root), Fold(Steps(root), Split(id), Rooted(root)));
    CleanIsTidy(root);
    CleanLast(root);
    CleanNotEmpty(root);
    AcceptedSteps(root, id);
    JoinedWithin(root, steps, Rooted(root), id);
    if |out| == |steps| + 1 {
      assert out[|steps|..] == [out[|steps|]];
      assert Join([out[|steps|]]) == out[|steps|] by { JoinOne(out[|steps|]); }
    }
  }

  lemma CleanNotEmpty(p: string)
    requires Clean(p) == p
    ensures p != ""
  {
  }

  /** A clean relative path names the file of that path, and no other. */
  lemma CleanFileResolves(root: string, w: string, p: string)
    requires IsWorkspaceName(root, w) && CleanRelative(p)
    ensures ResolveFile(root, w, p) == Good(Place(root, w) + "files/" + p)
    ensures CallerPath(root, w, p) == Some(p)
  {
    hide Steps, Render, Clean, Fold, Join, PathJoin, Place, DirSteps, IsWorkspaceName, Split, ResolveFile;
    ResolveFileExact(root, w, p);
    FilesRootSteps(root, w);
    var (files, rooted, parts) := (DirSteps(root, w) + ["files"], Rooted(root), Split(p));
    TidyBelow(files, parts, rooted);
    FoldTidyFixed(files, parts, rooted);
    JoinSplit(p);
    assert (files + parts)[..|files|] == files && (files + parts)[|files|..] == parts;
  }

  /** A file the service resolves is that of the caller's cleaned path. */
  lemma ResolvesTo(root: string, w: string, path: string)
    requires IsWorkspaceName(root, w)
    ensures ResolveFile(root, w, path).Good? <==> CallerPath(root, w, path).Some?
    ensures CallerPath(root, w, path).Some? ==>
              ResolveFile(root, w, path) == Good(Place(root, w) + "files/" + CallerPath(root, w, path).value)
  {
    hide Steps, Render, Clean, Fold, Join, PathJoin, Place, DirSteps, IsWorkspaceName, Split, ResolveFile;
    ResolveFileExact(root, w, path);
  }

  /** A file the service resolves lies strictly below the files of the active workspace, at the caller's cleaned path. */
  lemma ResolvedFileBelow(root: string, w: string, path: string) returns (rest: string)
    requires IsWorkspaceName(root, w) && ResolveFile(root, w, path).Good?
    ensures CleanRelative(rest) && ResolveFile(root, w, path).value == Place(root, w) + "files/" + rest
    ensures CallerPath(root, w, path) == Some(rest)
  {
    hide CleanDirectory, PathJoin, Clean, Place, IsWorkspaceName, CallerPath, CleanRelative;
    WorkspacePlaces(root, w);
    var filesRoot := FilesRoot(root, w);
    rest := JoinedBelow(filesRoot, path);
    assert Place(root, w) + "files" + "/" + rest == Place(root, w) + "files/" + rest;
    ResolvesTo(root, w, path);
    SameAfter(Place(root, w) + "files/", rest, CallerPath(root, w, path).value);
  }

  lemma SameAfter(front: string, x: string, y: string)
    requires front + x == front + y
    ensures x == y
  {
    assert (front + x)[|front|..] == x && (front + y)[|front|..] == y;
  }

  /** After two places with the same string, the two names and the two rests are the same. */
  lemma PlacesApart(root: string, v: string, w: string, x: string, y: string)
    requires IsWorkspaceName(root, v) && IsWorkspaceName(root, w)
    requires Place(root, v) + x == Place(root, w) + y
    ensures v == w && x == y
  {
    hide Clean, Split;
    if RootOnly(root) {
      assert Place(root, v) == Place(root, w);
      hide *;
      SameAfter(Place(root, v), x, y);
    } else {
      NameHasNoSlash(root, v);
      NameHasNoSlash(root, w);
      hide *;
      PlaceThen(root, v, x);
      PlaceThen(root, w, y);
      SameAfter(root + "/", v + "/" + x, w + "/" + y);
      FirstSlash(v, x, w, y);
    }
  }

  lemma PlaceThen(root: string, w: string, x: string)
    requires !RootOnly(root)
    ensures Place(root, w) + x == root + "/" + (w + "/" + x)
  {
  }

  /** Two workspaces, or the keys and the files of one, never share a path. */
  lemma KeyIsNoFile(root: string, v: string, w: string, rest: string)
    requires IsWorkspaceName(root, v) && IsWorkspaceName(root, w)
    ensures Place(root, v) + "keys/private.key" != Place(root, w) + "files/" + rest
  {
    hide Place, IsWorkspaceName;
    assert "keys/private.key"[0] == 'k' && ("files/" + rest)[0] == 'f';
    Associative(Place(root, w), "files/", rest);
    if Place(root, v) + "keys/private.key" == Place(root, w) + ("files/" + rest) {
      PlacesApart(root, v, w, "keys/private.key", "files/" + rest);
    }
  }
}
