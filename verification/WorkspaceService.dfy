/** The encrypted workspaces (go/workspace/service.go) as a state machine. */
module WorkspaceService {
  import opened Options
  import opened Paths
  import opened PathTree
  import PathLaws
  import opened MemoryState
  import opened Obfuscators
  import opened PathBelow
  import opened WorkspaceRoots
  import Sigils

  /** What a service is made with; key pairs and random bytes come with each call. */
  datatype Config = Config(root: string, hash: Hash, derive: Bytes -> Block, aead: Sigils.Aead)

  ghost predicate GoodConfig(cfg: Config) {
    cfg.root != "" && Sigils.Sound(cfg.aead)
  }

  datatype Svc = Svc(mem: Mem, active: string)

  // Operations

  function WorkspaceId(cfg: Config, identifier: Bytes): string {
    Hex(cfg.hash(identifier))
  }

  const SUBDIRECTORIES: seq<string> := ["config", "log", "data", "files", "keys"]

  function EnsureAll(m: Mem, directory: string, names: seq<string>): Step
    decreases |names|
  {
    if names == [] then Step(Done, m)
    else
      var step := EnsureDir(m, PathJoin([directory, names[0]]));
      if step.status != Done then step else EnsureAll(step.mem, directory, names[1..])
  }

  /** The key pair provider's answer is `keyPair`, none when it fails. */
  ghost function Create(cfg: Config, s: Svc, identifier: Bytes, keyPair: Option<Bytes>, now: Time): (Svc,
      Result<string>) {
    var id := WorkspaceId(cfg, identifier);
    var directory := ResolveWorkspaceDirectory(cfg.root, id);
    if directory.Bad? then (s, Bad(directory.error))
    else if Exists(s.mem, directory.value) then (s, Bad(WorkspaceExists))
    else
      var ensured := EnsureAll(s.mem, directory.value, SUBDIRECTORIES);
      if ensured.status != Done then (s.(mem := ensured.mem), Bad(DirectoryFailed))
      else if keyPair.None? then (s.(mem := ensured.mem), Bad(KeyPairFailed))
      else
        var saved := WriteMode(ensured.mem, PathJoin([directory.value, "keys", "private.key"]), keyPair.value, PRIVATE_MODE, now);
        (s.(mem := saved.mem), if saved.status == Done then Good(id) else Bad(SaveFailed))
  }

  ghost function Switch(cfg: Config, s: Svc, id: string): (Svc, Result<()>) {
    var directory := ResolveWorkspaceDirectory(cfg.root, id);
    if directory.Bad? then (s, Bad(directory.error))
    else if !DirectoryExists(s.mem, directory.value) then (s, Bad(WorkspaceNotFound))
    else (s.(active := PathBase(directory.value)), Good(()))
  }

  /** The cipher of a workspace whose stored private key is `rawKey`. */
  function CipherFor(cfg: Config, rawKey: Bytes): Sigils.ChaChaPolySigil {
    Sigils.NewChaChaPolySigil(cfg.hash, cfg.derive(rawKey), None).value
  }

  function WorkspaceCipher(cfg: Config, s: Svc): Result<Sigils.ChaChaPolySigil> {
    if s.active == "" then Bad(NoActiveWorkspace)
    else
      var rawKey := Read(s.mem, KeyPath(cfg.root, s.active));
      if rawKey.None? then Bad(KeyUnreadable) else Good(CipherFor(cfg, rawKey.value))
  }

  function Unsealed(cfg: Config, cipher: Sigils.ChaChaPolySigil, stored: Bytes): Result<Bytes> {
    var out := Sigils.Untransmute(Sigils.Of(stored), [Sigils.CipherSigil(cfg.aead, cipher)]);
    if out.Failed? then Bad(CipherFailed(out.error)) else Good(Sigils.Text(out.data))
  }

  function ReadFile(cfg: Config, s: Svc, path: string): Result<Bytes> {
    var file := ResolveFile(cfg.root, s.active, path);
    if file.Bad? then Bad(file.error)
    else
      var cipher := WorkspaceCipher(cfg, s);
      if cipher.Bad? then Bad(cipher.error)
      else
        var encoded := Read(s.mem, file.value);
        if encoded.None? then Bad(FileNotFound) else Unsealed(cfg, cipher.value, encoded.value)
  }

  ghost function WriteFile(cfg: Config, s: Svc, path: string, content: Bytes, drawn: Bytes, now: Time): (Svc,
      Result<()>) {
    var file := ResolveFile(cfg.root, s.active, path);
    if file.Bad? then (s, Bad(file.error))
    else
      var cipher := WorkspaceCipher(cfg, s);
      if cipher.Bad? then (s, Bad(cipher.error))
      else
        var sealed := Sigils.Transmute(Sigils.Of(content), [Sigils.CipherSigil(cfg.aead, cipher.value)], [drawn]);
        if sealed.Failed? then (s, Bad(CipherFailed(sealed.error)))
        else
          var step := WriteMode(s.mem, file.value, Sigils.Text(sealed.data), DEFAULT_MODE, now);
          (s.(mem := step.mem), if step.status == Done then Good(()) else Bad(SaveFailed))
  }

  datatype Op =
    | OpCreate(identifier: Bytes, keyPair: Option<Bytes>, now: Time)
    | OpSwitch(id: string)
    | OpWrite(path: string, content: Bytes, drawn: Bytes, now: Time)
    | OpRead(path: string)

  ghost function After(cfg: Config, s: Svc, op: Op): Svc {
    match op
    case OpCreate(identifier, keyPair, now) => Create(cfg, s, identifier, keyPair, now).0
    case OpSwitch(id) => Switch(cfg, s, id).0
    case OpWrite(path, content, drawn, now) => WriteFile(cfg, s, path, content, drawn, now).0
    case OpRead(_) => s
  }

  // Where things are

  /** A workspace whose key is stored exists, so it cannot be created a second time. */
  lemma KeyMakesDirectory(m: Mem, root: string, w: string)
    requires IsWorkspaceName(root, w) && !RootOnly(root) && KeyPath(root, w) in m.files
    ensures DirectoryExists(m, root + "/" + w)
  {
    var (directory, key) := (root + "/" + w, KeyPath(root, w));
    NameHasNoSlash(root, w);
    assert directory[|directory| - 1] == w[|w| - 1];
    assert Place(root, w) == directory + "/";
    hide *;
    WorkspacePlaces(root, w);
    NoTrailingSlash(directory);
    PrefixBelow(directory, "keys/private.key");
    FileMakesDirectory(m, directory, key);
  }

  lemma PrefixBelow(directory: string, rest: string)
    ensures HasPrefix(directory + "/" + rest, directory + "/")
  {
  }

  lemma FileMakesDirectory(m: Mem, directory: string, file: string)
    requires directory != "" && file in m.files && HasPrefix(file, WithSlash(directory))
    ensures DirectoryExists(m, directory)
  {
  }

  lemma NoTrailingSlash(p: string)
    requires p != "" && p[|p| - 1] != '/'
    ensures WithSlash(p) == p + "/"
  {
  }

  // What one operation changes

  /** No operation but its own creation touches a stored key, and that one cannot happen any more. */
  lemma CreateChanges(cfg: Config, s: Svc, identifier: Bytes, keyPair: Option<Bytes>, now: Time)
    requires cfg.root != ""
    ensures var t := Create(cfg, s, identifier, keyPair, now).0;
            var id := WorkspaceId(cfg, identifier);
            t.active == s.active &&
            (t.mem.files == s.mem.files ||
             (KeyPath(cfg.root, id) !in s.mem.files && keyPair.Some? && IsWorkspaceName(cfg.root, id) &&
              t.mem.files == s.mem.files[KeyPath(cfg.root, id) := keyPair.value]))
  {
    hide Clean, IsWorkspaceName, ResolveWorkspaceDirectory, KeyPath, PathJoin, Hex, EnsureAll, DirectoryExists, Ancestors;
    var id := WorkspaceId(cfg, identifier);
    HexAcceptedExact(cfg.root, cfg.hash(identifier));
    if Clean(cfg.root) == cfg.root && !RootOnly(cfg.root) {
      WorkspacePlaces(cfg.root, id);
      if KeyPath(cfg.root, id) in s.mem.files {
        KeyMakesDirectory(s.mem, cfg.root, id);
      }
      EnsureAllEnsures(s.mem, cfg.root + "/" + id, SUBDIRECTORIES);
    }
  }

  /**
   What a creation does at a root where one can succeed, case by case: an existing workspace is left alone;
   otherwise the five directories are made, and the key is stored unless there is none or a file stands
   above it.
   */
  lemma CreateExact(cfg: Config, s: Svc, identifier: Bytes, keyPair: Option<Bytes>, now: Time)
    requires Clean(cfg.root) == cfg.root && !RootOnly(cfg.root)
    ensures var (t, r) := Create(cfg, s, identifier, keyPair, now);
            var id := Hex(cfg.hash(identifier));
            var directory := cfg.root + "/" + id;
            var key := directory + "/keys/private.key";
            t.active == s.active &&
            if Exists(s.mem, directory) then r == Bad(WorkspaceExists) && t == s
            else
              t.mem.dirs == s.mem.dirs + Ancestors(directory) + {directory} + FiveOf(directory) &&
              if keyPair.None? then
                r == Bad(KeyPairFailed) && t.mem == s.mem.(dirs := t.mem.dirs)
              else if HasFileAncestor(s.mem, key) then
                r == Bad(SaveFailed) && t.mem == s.mem.(dirs := t.mem.dirs)
              else
                r == Good(id) && t.mem.files == s.mem.files[key := keyPair.value] &&
                t.mem.modes == s.mem.modes[key := 384] && t.mem.times == s.mem.times[key := now]
  {
    hide Clean, IsWorkspaceName, ResolveWorkspaceDirectory, KeyPath, PathJoin, Hex, EnsureAll, DirectoryExists, Ancestors,
      HasFileAncestor, FiveOf, RootOnly, MadeFor;
    var id := WorkspaceId(cfg, identifier);
    var directory := cfg.root + "/" + id;
    CleanEmpty();
    HexAcceptedExact(cfg.root, cfg.hash(identifier));
    WorkspacePlaces(cfg.root, id);
    DirectoryIs(cfg.root, id);
    PrivateKeyAt(cfg.root, id);
    if !Exists(s.mem, directory) {
      EnsureAllEnsures(s.mem, directory, SUBDIRECTORIES);
      FiveEnsured(s.mem, cfg.root, id, cfg.hash(identifier), EnsureAll(s.mem, directory, SUBDIRECTORIES).mem);
      KeyIsFresh(s.mem, cfg.root, id, cfg.hash(identifier), EnsureAll(s.mem, directory, SUBDIRECTORIES).mem);
    }
  }

  lemma DirectoryIs(root: string, id: string)
    requires !RootOnly(root)
    ensures DirectoryOf(root, id) == root + "/" + id
  {
  }

  function FiveOf(directory: string): set<string> {
    {directory + "/config", directory + "/log", directory + "/data", directory + "/files", directory + "/keys"}
  }

  lemma FiveMembers(directory: string, d: string)
    ensures d in FiveOf(directory) <==>
            exists name :: name in {"config", "log", "data", "files", "keys"} && d == directory + "/" + name
  {
    var five := FiveOf(directory);
    assert directory + "/" + "config" == directory + "/config" && directory + "/" + "log" == directory + "/log";
    assert directory + "/" + "data" == directory + "/data" && directory + "/" + "files" == directory + "/files";
    assert directory + "/" + "keys" == directory + "/keys";
  }

  /** Nothing stands in the way of the five directories, and they are what is made. */
  lemma FiveEnsured(m: Mem, root: string, id: string, b: Block, ensured: Mem)
    requires IsWorkspaceName(root, id) && !RootOnly(root) && id == Hex(b) && !Exists(m, root + "/" + id)
    requires EnsureAll(m, root + "/" + id, SUBDIRECTORIES).mem == ensured
    ensures EnsureAll(m, root + "/" + id, SUBDIRECTORIES) == Step(Done, ensured)
    ensures ensured == m.(dirs := m.dirs + Ancestors(root + "/" + id) + {root + "/" + id} + FiveOf(root + "/" + id))
  {
    hide IsWorkspaceName, PathJoin, Hex, RootOnly, Ancestors, EnsureAll, FiveOf, HasPrefix, Exists, MadeFor;
    var directory := root + "/" + id;
    EnsureAllEnsures(m, directory, SUBDIRECTORIES);
    FiveFree(m, root, id, b);
    FiveAdded(m.dirs, root, id, b, ensured.dirs);
  }

  lemma FiveFree(m: Mem, root: string, id: string, b: Block)
    requires IsWorkspaceName(root, id) && !RootOnly(root) && id == Hex(b) && !Exists(m, root + "/" + id)
    ensures forall name :: name in SUBDIRECTORIES ==> PathJoin([root + "/" + id, name]) !in m.files
  {
    hide IsWorkspaceName, PathJoin, Hex, RootOnly, Exists;
    FiveDirectories(root, id, b);
    OnlyFive();
    forall name | name in SUBDIRECTORIES ensures PathJoin([root + "/" + id, name]) !in m.files {
      NothingBelow(m, root, id, b, name);
    }
  }

  lemma FiveAdded(before: set<string>, root: string, id: string, b: Block, after: set<string>)
    requires IsWorkspaceName(root, id) && !RootOnly(root) && id == Hex(b)
    requires forall d :: d in after <==> d in before || MadeFor(root + "/" + id, SUBDIRECTORIES, d)
    ensures after == before + Ancestors(root + "/" + id) + {root + "/" + id} + FiveOf(root + "/" + id)
  {
    hide IsWorkspaceName, Hex, RootOnly, Ancestors, FiveOf, MadeFor;
    var directory := root + "/" + id;
    forall d ensures d in after <==> d in before + Ancestors(directory) + {directory} + FiveOf(directory) {
      FiveMembers(directory, d);
      MadeForFive(root, id, b, d);
    }
  }

  lemma OnlyFive()
    ensures forall name :: name in SUBDIRECTORIES <==> name in {"config", "log", "data", "files", "keys"}
    ensures forall name :: name in SUBDIRECTORIES ==> name != "" && '/' !in name
  {
    FiveNames();
  }

  lemma NothingBelow(m: Mem, root: string, id: string, b: Block, name: string)
    requires id == Hex(b) && !Exists(m, root + "/" + id) && PathJoin([root + "/" + id, name]) == root + "/" + id + "/" + name
    ensures PathJoin([root + "/" + id, name]) !in m.files
  {
    hide Hex, PathJoin;
    HexIsNormal(b);
    var directory := root + "/" + id;
    assert directory[|directory| - 1] == id[|id| - 1] && id[|id| - 1] in id;
    hide *;
    NoTrailingSlash(directory);
    PrefixBelow(directory, name);
    if directory + "/" + name in m.files {
      FileMakesDirectory(m, directory, directory + "/" + name);
      ExistsIs(m, directory);
    }
  }

  lemma ExistsIs(m: Mem, p: string)
    ensures DirectoryExists(m, p) ==> Exists(m, p)
  {
  }

  lemma AboveSubdirectory(root: string, id: string, name: string)
    requires IsWorkspaceName(root, id) && !RootOnly(root) && name != "" && '/' !in name
    ensures Ancestors(root + "/" + id + "/" + name) == Ancestors(root + "/" + id) + {root + "/" + id}
  {
    hide Clean, Ancestors, IsWorkspaceName;
    PlacesAreClean(root, id);
    PathLaws.AncestorsBelow(root + "/" + id, name);
  }

  lemma MadeForFive(root: string, id: string, b: Block, d: string)
    requires IsWorkspaceName(root, id) && !RootOnly(root) && id == Hex(b)
    ensures var directory := root + "/" + id;
            MadeFor(directory, SUBDIRECTORIES, d) <==>
            d in Ancestors(directory) || d == directory ||
            exists name :: name in {"config", "log", "data", "files", "keys"} && d == directory + "/" + name
  {
    hide IsWorkspaceName, PathJoin, Hex, RootOnly, Ancestors;
    var directory := root + "/" + id;
    FiveDirectories(root, id, b);
    OnlyFive();
    forall name | name in SUBDIRECTORIES ensures Ancestors(PathJoin([directory, name])) == Ancestors(directory) + {directory} {
      AboveSubdirectory(root, id, name);
    }
    assert "log" in SUBDIRECTORIES;
  }

  /** The key is stored in one of the new directories, under a path that is no directory. */
  lemma KeyIsFresh(m: Mem, root: string, id: string, b: Block, ensured: Mem)
    requires IsWorkspaceName(root, id) && !RootOnly(root) && id == Hex(b) && !Exists(m, root + "/" + id)
    requires ensured == m.(dirs := m.dirs + Ancestors(root + "/" + id) + {root + "/" + id} + FiveOf(root + "/" + id))
    ensures var key := root + "/" + id + "/keys/private.key";
            key !in ensured.dirs && Ancestors(key) <= ensured.dirs &&
            (HasFileAncestor(ensured, key) <==> HasFileAncestor(m, key))
  {
    hide IsWorkspaceName, PathJoin, Hex, RootOnly, Ancestors, HasPrefix, Exists, FiveOf;
    var directory := root + "/" + id;
    AboveKey(root, id);
    KeyIsNoDirectory(m, root, id, b);
    KeyIsNoneOfFive(directory);
    if directory + "/keys/private.key" in Ancestors(directory) {
      AncestorsShort(directory, directory + "/keys/private.key");
    }
  }

  lemma AboveKey(root: string, id: string)
    requires IsWorkspaceName(root, id) && !RootOnly(root)
    ensures var directory := root + "/" + id;
            Ancestors(directory + "/keys/private.key") == Ancestors(directory) + {directory} + {directory + "/keys"} &&
            directory + "/keys" in FiveOf(directory)
  {
    hide IsWorkspaceName, RootOnly, Ancestors, Clean;
    var directory := root + "/" + id;
    PlacesAreClean(root, id);
    KeysIsClean(root, id);
    PathLaws.AncestorsBelow(directory + "/keys", "private.key");
    PathLaws.AncestorsBelow(directory, "keys");
    KeysBelow(directory);
  }

  lemma KeysBelow(directory: string)
    ensures directory + "/keys/private.key" == directory + "/keys" + "/" + "private.key"
    ensures directory + "/keys" == directory + "/" + "keys"
  {
  }

  /** It is longer than any of them. */
  lemma KeyIsNoneOfFive(directory: string)
    ensures directory + "/keys/private.key" !in FiveOf(directory)
    ensures |directory + "/keys/private.key"| == |directory| + 17
  {
  }

  lemma KeyIsNoDirectory(m: Mem, root: string, id: string, b: Block)
    requires id == Hex(b) && !Exists(m, root + "/" + id)
    ensures root + "/" + id + "/keys/private.key" !in m.dirs
  {
    hide Hex;
    HexIsNormal(b);
    var directory := root + "/" + id;
    var key := directory + "/keys/private.key";
    assert directory[|directory| - 1] == id[|id| - 1] && id[|id| - 1] in id;
    assert key == directory + "/" + "keys/private.key";
    NoTrailingSlash(directory);
    PrefixBelow(directory, "keys/private.key");
    assert |key| > |directory|;
    assert directory != "" && !HasDirectoryBelow(m, directory, directory + "/");
  }

  lemma AncestorsShort(p: string, a: string)
    requires a in Ancestors(p)
    ensures |a| <= |p| || |a| <= 1
  {
    hide PathDir;
    ChainShort(PathDir(p), a);
    PathDirShorter(p);
  }

  /** A successful creation, seen from outside. */
  lemma CreatedWorkspace(cfg: Config, s: Svc, identifier: Bytes, keyPair: Option<Bytes>, now: Time)
    requires cfg.root != "" && Create(cfg, s, identifier, keyPair, now).1.Good?
    ensures Clean(cfg.root) == cfg.root && !RootOnly(cfg.root)
    ensures var (t, r) := Create(cfg, s, identifier, keyPair, now);
            var (id, key) := (WorkspaceId(cfg, identifier), cfg.root + "/" + WorkspaceId(cfg, identifier) + "/keys/private.key");
            r == Good(id) && keyPair.Some? && t.mem.files == s.mem.files[key := keyPair.value] &&
            t.mem.modes == s.mem.modes[key := 384] && s.mem.dirs <= t.mem.dirs &&
            forall name :: name in {"config", "log", "data", "files", "keys"} ==> cfg.root + "/" + id + "/" + name in t.mem.dirs
  {
    hide Clean, Create, Hex, RootOnly, Ancestors, HasFileAncestor, Exists, FiveOf;
    CreatedAt(cfg, s, identifier, keyPair, now);
    CreateExact(cfg, s, identifier, keyPair, now);
    var directory := cfg.root + "/" + WorkspaceId(cfg, identifier);
    forall name | name in {"config", "log", "data", "files", "keys"} ensures directory + "/" + name in FiveOf(directory) {
      FiveMembers(directory, directory + "/" + name);
    }
  }

  lemma CreatedAt(cfg: Config, s: Svc, identifier: Bytes, keyPair: Option<Bytes>, now: Time)
    requires cfg.root != "" && Create(cfg, s, identifier, keyPair, now).1.Good?
    ensures Clean(cfg.root) == cfg.root && !RootOnly(cfg.root)
  {
    hide Clean, Hex, RootOnly, EnsureAll, Exists, ResolveWorkspaceDirectory;
    HexAcceptedExact(cfg.root, cfg.hash(identifier));
  }

  lemma PrivateKeyAt(root: string, id: string)
    requires IsWorkspaceName(root, id) && !RootOnly(root)
    ensures KeyPath(root, id) == root + "/" + id + "/keys/private.key"
  {
    assert Place(root, id) == root + "/" + id + "/";
    hide *;
    WorkspacePlaces(root, id);
    KeyBelow(root + "/" + id);
  }

  lemma KeyBelow(directory: string)
    ensures directory + "/" + "keys/private.key" == directory + "/keys/private.key"
  {
  }

  /** The directories the program makes, one by one. */
  lemma FiveDirectories(root: string, id: string, b: Block)
    requires IsWorkspaceName(root, id) && !RootOnly(root) && id == Hex(b)
    ensures forall name :: name in {"config", "log", "data", "files", "keys"} ==>
              name in SUBDIRECTORIES && PathJoin([root + "/" + id, name]) == root + "/" + id + "/" + name
  {
    hide IsWorkspaceName, PathJoin, Hex, RootOnly;
    HexIsNormal(b);
    FiveNames();
    forall name | name in {"config", "log", "data", "files", "keys"}
      ensures PathJoin([root + "/" + id, name]) == root + "/" + id + "/" + name
    {
      SubdirectoryAt(root, id, name);
    }
  }

  lemma FiveNames()
    ensures forall name :: name in {"config", "log", "data", "files", "keys"} ==> name in SUBDIRECTORIES && Normal(name)
  {
    assert forall name :: name in SUBDIRECTORIES ==>
      name == SUBDIRECTORIES[0] || name == SUBDIRECTORIES[1] || name == SUBDIRECTORIES[2] ||
      name == SUBDIRECTORIES[3] || name == SUBDIRECTORIES[4];
  }

  lemma {:induction false} EnsureAllEnsures(m: Mem, directory: string, names: seq<string>)
    ensures var step := EnsureAll(m, directory, names);
            step.mem.files == m.files && step.mem.modes == m.modes && step.mem.times == m.times && m.dirs <= step.mem.dirs &&
            (step.status == Done ==> forall d :: d in step.mem.dirs <==> d in m.dirs || MadeFor(directory, names, d)) &&
            (step.status == Done <==> forall name :: name in names ==> PathJoin([directory, name]) !in m.files)
    decreases |names|
  {
    hide PathJoin, Ancestors;
    if names != [] {
      var step := EnsureDir(m, PathJoin([directory, names[0]]));
      EnsureAllEnsures(step.mem, directory, names[1..]);
      assert forall name :: name in names <==> name == names[0] || name in names[1..];
      assert names[0] in names;
      forall d | MadeFor(directory, names[1..], d) ensures MadeFor(directory, names, d) {
        var name :| name in names[1..] && (d == PathJoin([directory, name]) || d in Ancestors(PathJoin([directory, name])));
        assert name in names;
      }
    }
  }

  /** One of the directories, or above one of them. */
  predicate MadeFor(directory: string, names: seq<string>, d: string) {
    exists name :: name in names && (d == PathJoin([directory, name]) || d in Ancestors(PathJoin([directory, name])))
  }

  /** Only a successful switch changes the active workspace, to one whose directory the id names and which exists. */
  lemma SwitchChanges(cfg: Config, s: Svc, id: string)
    requires cfg.root != ""
    ensures var (t, r) := Switch(cfg, s, id);
            t.mem == s.mem &&
            if r.Good? then
              IsWorkspaceName(cfg.root, t.active) && PathJoin([cfg.root, id]) == DirectoryOf(cfg.root, t.active) &&
              DirectoryExists(s.mem, DirectoryOf(cfg.root, t.active))
            else t == s
  {
    hide Clean, IsWorkspaceName, PathJoin, DirectoryExists, PathDir, PathBase, DirectoryOf;
    if ResolveWorkspaceDirectory(cfg.root, id).Good? {
      var w := WorkspaceDirectoryShape(cfg.root, id);
    }
  }

  /** Switching to an ordinary name at a clean root: it becomes active exactly when its directory exists. */
  lemma SwitchExact(cfg: Config, s: Svc, id: string)
    requires Clean(cfg.root) == cfg.root && !RootOnly(cfg.root) && Normal(id)
    ensures Switch(cfg, s, id) ==
            if DirectoryExists(s.mem, cfg.root + "/" + id) then (Svc(s.mem, id), Good(())) else (s, Bad(WorkspaceNotFound))
    ensures Switch(cfg, s, "") == (s, Bad(WorkspaceIdRequired))
  {
    hide Clean, PathJoin, DirectoryExists, PathDir, PathBase, RootOnly;
    CleanEmpty();
    NameAcceptedExact(cfg.root, id);
    PathLaws.BaseMeans(cfg.root, id);
  }

  /** With a root of parent steps, switching to `..` succeeds exactly when that directory, outside the root, exists. */
  lemma SwitchOutExact(cfg: Config, s: Svc)
    requires Clean(cfg.root) == cfg.root && AllParents(cfg.root) && !RootOnly(cfg.root)
    ensures Switch(cfg, s, "..").1.Good? <==> DirectoryExists(s.mem, cfg.root + "/..")
  {
    hide Clean, ResolveWorkspaceDirectory, DirectoryExists, PathBase;
    ParentAccepted(cfg.root);
  }

  lemma CipherIsInvertible(cfg: Config, rawKey: Bytes)
    ensures var c := CipherFor(cfg, rawKey); c.obfuscator.Some? && Sigils.Invertible(c.obfuscator.value)
  {
    Sigils.ObfuscatorsInvertible(cfg.hash);
    hide Sigils.Invertible;
  }

  /** A successful write stores, at the resolved path only, something that unseals to the content. */
  lemma WriteChanges(cfg: Config, s: Svc, path: string, content: Bytes, drawn: Bytes, now: Time)
    requires Sigils.Sound(cfg.aead)
    ensures var (t, r) := WriteFile(cfg, s, path, content, drawn, now);
            t.active == s.active &&
            (r.Bad? ==> t.mem.files == s.mem.files) &&
            (r.Good? ==>
               s.active != "" && KeyPath(cfg.root, s.active) in s.mem.files &&
               ResolveFile(cfg.root, s.active, path).Good? &&
               var file := ResolveFile(cfg.root, s.active, path).value;
               file in t.mem.files &&
               t.mem.files == s.mem.files[file := t.mem.files[file]] &&
               Unsealed(cfg, CipherFor(cfg, s.mem.files[KeyPath(cfg.root, s.active)]), t.mem.files[file]) == Good(content))
  {
    hide PathJoin, Sigils.CipherIn, Sigils.CipherOut, Sigils.Sound, Sigils.Invertible, Ancestors, CipherFor,
      Sigils.Transmute, Sigils.Untransmute, HasFileAncestor;
    var file, cipher := ResolveFile(cfg.root, s.active, path), WorkspaceCipher(cfg, s);
    if file.Good? && cipher.Good? {
      var rawKey := s.mem.files[KeyPath(cfg.root, s.active)];
      var sealing := Sigils.CipherSigil(cfg.aead, cipher.value);
      Sigils.TransmuteOne(Sigils.Of(content), sealing, drawn);
      var sealed := Sigils.CipherIn(cfg.aead, cipher.value, Sigils.Of(content), drawn);
      if sealed.Ok? {
        CipherIsInvertible(cfg, rawKey);
        Sigils.CipherRoundTrip(cfg.aead, cipher.value, Sigils.Of(content), drawn);
        Sigils.SealedIsText(cfg.aead, cipher.value, content, drawn);
        Sigils.UntransmuteOne(sealed.data, sealing);
      }
    }
  }

  /** A write changes nothing outside the files of the active workspace. */
  lemma WriteConfined(cfg: Config, s: Svc, path: string, content: Bytes, drawn: Bytes, now: Time, f: string)
    requires GoodConfig(cfg) && GoodState(cfg, s)
    requires !HasPrefix(f, Place(cfg.root, s.active) + "files/")
    ensures var t := WriteFile(cfg, s, path, content, drawn, now).0;
            (f in t.mem.files <==> f in s.mem.files) && (f in s.mem.files ==> t.mem.files[f] == s.mem.files[f])
  {
    hide IsWorkspaceName, PathJoin, WriteFile, Sigils.Sound, Unsealed, Place;
    WriteChanges(cfg, s, path, content, drawn, now);
    if WriteFile(cfg, s, path, content, drawn, now).1.Good? {
      var rest := ResolvedFileBelow(cfg.root, s.active, path);
      var prefix := Place(cfg.root, s.active) + "files/";
      assert (prefix + rest)[..|prefix|] == prefix;
    }
  }

  // One call, spelled out

  /** Where the file of a clean path of a workspace is stored. */
  function FileAt(cfg: Config, w: string, p: string): string {
    Place(cfg.root, w) + "files/" + p
  }

  function KeyAt(cfg: Config, w: string): string {
    Place(cfg.root, w) + "keys/private.key"
  }

  /** The content as it goes into the cipher: XOR with the hash blocks seeded with the nonce. */
  ghost predicate Masked(cfg: Config, nonce: Bytes, content: Bytes, masked: Bytes) {
    |masked| == |content| &&
    forall i | 0 <= i < |content| :: masked[i] == content[i] ^ cfg.hash(nonce + BigEndian64(i / 32))[i % 32]
  }

  lemma CipherIs(cfg: Config, rawKey: Bytes)
    ensures CipherFor(cfg, rawKey) == Sigils.ChaChaPolySigil(Some(cfg.derive(rawKey)), 24, Some(Sigils.XorPreObfuscator(cfg.hash)))
  {
  }

  /**
   What a write of a clean path does, case by case, and what it stores: the 24 bytes drawn as the nonce,
   and after them the masked content, sealed under the key derived from the stored one.
   */
  lemma WriteExact(cfg: Config, s: Svc, p: string, content: Bytes, drawn: Bytes, now: Time) returns (masked: Bytes)
    requires IsWorkspaceName(cfg.root, s.active) && CleanRelative(p)
    ensures Masked(cfg, if |drawn| < 24 then drawn else drawn[..24], content, masked)
    ensures var (file, key) := (FileAt(cfg, s.active, p), KeyAt(cfg, s.active));
            WriteFile(cfg, s, p, content, drawn, now) ==
            if key !in s.mem.files then (s, Bad(KeyUnreadable))
            else if |drawn| < 24 then (s, Bad(CipherFailed(Sigils.NonceUnavailable)))
            else if !Open(s.mem, file) then (s, Bad(SaveFailed))
            else
              var nonce := drawn[..24];
              var message := nonce + cfg.aead.seal(cfg.derive(s.mem.files[key]), nonce, masked);
              (s.(mem := WithFile(s.mem, file, message, 420, now)), Good(()))
  {
    NotEmpty(cfg.root, s.active);
    CleanFileResolves(cfg.root, s.active, p);
    WorkspacePlaces(cfg.root, s.active);
    var nonce := if |drawn| < 24 then drawn else drawn[..24];
    masked := XorObfuscate(cfg.hash, content, nonce);
    XorObfuscateBytes(cfg.hash, content, nonce);
    assert Masked(cfg, nonce, content, masked);
    hide PathJoin, Place, IsWorkspaceName, CleanRelative, ResolveFile, KeyPath, XorObfuscate, HasFileAncestor, WithFile,
      Sigils.CipherIn, Sigils.Transmute, CipherFor, Masked;
    if KeyPath(cfg.root, s.active) in s.mem.files {
      var cipher := CipherFor(cfg, s.mem.files[KeyPath(cfg.root, s.active)]);
      CipherIs(cfg, s.mem.files[KeyPath(cfg.root, s.active)]);
      Sigils.TransmuteOne(Sigils.Of(content), Sigils.CipherSigil(cfg.aead, cipher), drawn);
      Sigils.CipherMessage(cfg.aead, cipher, Sigils.Of(content), drawn);
    }
  }

  /** Which cipher a workspace has: the key derived from the stored one, nonces of 24 bytes, and the XOR obfuscator. */
  lemma CipherExact(cfg: Config, s: Svc)
    requires s.active == "" || IsWorkspaceName(cfg.root, s.active)
    ensures var key := KeyAt(cfg, s.active);
            WorkspaceCipher(cfg, s) ==
            if s.active == "" then Bad(NoActiveWorkspace)
            else if key !in s.mem.files then Bad(KeyUnreadable)
            else Good(Sigils.ChaChaPolySigil(Some(cfg.derive(s.mem.files[key])), 24, Some(Sigils.XorPreObfuscator(cfg.hash))))
  {
    hide IsWorkspaceName, CipherFor, Place;
    if s.active != "" {
      WorkspacePlaces(cfg.root, s.active);
      if KeyAt(cfg, s.active) in s.mem.files {
        CipherIs(cfg, s.mem.files[KeyAt(cfg, s.active)]);
      }
    }
  }

  /** A path that names no file of the active workspace is refused first, whatever is stored. */
  lemma PathRefused(cfg: Config, s: Svc, path: string, content: Bytes, drawn: Bytes, now: Time)
    ensures s.active == "" ==>
              ReadFile(cfg, s, path) == Bad(NoActiveWorkspace) &&
              WriteFile(cfg, s, path, content, drawn, now) == (s, Bad(NoActiveWorkspace))
    ensures IsWorkspaceName(cfg.root, s.active) && CallerPath(cfg.root, s.active, path).None? ==>
              var files := DirSteps(cfg.root, s.active) + ["files"];
              var e := if Fold(files, Split(path), Rooted(cfg.root)) == files then FilePathRequired else FileEscapesWorkspace;
              ReadFile(cfg, s, path) == Bad(e) && WriteFile(cfg, s, path, content, drawn, now) == (s, Bad(e))
  {
    hide IsWorkspaceName, Fold, DirSteps, Rooted, WorkspaceCipher, Unsealed, Split, ResolveFile;
    EmptyRefused(cfg.root, path);
    if IsWorkspaceName(cfg.root, s.active) {
      ResolveFileExact(cfg.root, s.active, path);
    }
  }

  lemma EmptyRefused(root: string, path: string)
    ensures ResolveFile(root, "", path) == Bad(NoActiveWorkspace)
  {
  }

  /** What a read of a clean path answers, case by case. */
  lemma ReadExact(cfg: Config, s: Svc, p: string) returns (unmasked: Bytes)
    requires IsWorkspaceName(cfg.root, s.active) && CleanRelative(p)
    ensures var (file, key) := (FileAt(cfg, s.active, p), KeyAt(cfg, s.active));
            ReadFile(cfg, s, p) ==
            if key !in s.mem.files then Bad(KeyUnreadable)
            else if file !in s.mem.files then Bad(FileNotFound)
            else
              var message := s.mem.files[file];
              if |message| < 40 then Bad(CipherFailed(Sigils.CiphertextTooShort))
              else if cfg.aead.open(cfg.derive(s.mem.files[key]), message[..24], message[24..]).None? then
                Bad(CipherFailed(Sigils.DecryptionFailed))
              else Good(unmasked)
    ensures var (file, key) := (FileAt(cfg, s.active, p), KeyAt(cfg, s.active));
            ReadFile(cfg, s, p).Good? ==>
              key in s.mem.files && file in s.mem.files && |s.mem.files[file]| >= 40 &&
              var message := s.mem.files[file];
              var sealed := cfg.aead.open(cfg.derive(s.mem.files[key]), message[..24], message[24..]);
              sealed.Some? && Masked(cfg, message[..24], sealed.value, unmasked)
  {
    NotEmpty(cfg.root, s.active);
    CleanFileResolves(cfg.root, s.active, p);
    WorkspacePlaces(cfg.root, s.active);
    hide *;
    unmasked := [];
    FileAtIs(cfg, s.active, p);
    KeyAtIs(cfg, s.active);
    var (file, key) := (FileAt(cfg, s.active, p), KeyAt(cfg, s.active));
    ReadAnswers(cfg, s, p, file, key);
    if key in s.mem.files && file in s.mem.files {
      unmasked := UnsealedExact(cfg, s.mem.files[key], s.mem.files[file]);
    }
  }

  lemma KeyAtIs(cfg: Config, w: string)
    ensures KeyAt(cfg, w) == Place(cfg.root, w) + "keys/private.key"
  {
  }

  /** What a stored message opens to under the key derived from a stored one. */
  lemma UnsealedExact(cfg: Config, rawKey: Bytes, message: Bytes) returns (unmasked: Bytes)
    ensures Unsealed(cfg, CipherFor(cfg, rawKey), message) ==
            if |message| < 40 then Bad(CipherFailed(Sigils.CiphertextTooShort))
            else if cfg.aead.open(cfg.derive(rawKey), message[..24], message[24..]).None? then
              Bad(CipherFailed(Sigils.DecryptionFailed))
            else Good(unmasked)
    ensures |message| >= 40 && cfg.aead.open(cfg.derive(rawKey), message[..24], message[24..]).Some? ==>
              Masked(cfg, message[..24], cfg.aead.open(cfg.derive(rawKey), message[..24], message[24..]).value, unmasked)
  {
    hide XorObfuscate, Sigils.CipherOut, Sigils.Untransmute, CipherFor;
    unmasked := [];
    var cipher := CipherFor(cfg, rawKey);
    CipherIs(cfg, rawKey);
    Sigils.UntransmuteOne(Sigils.Of(message), Sigils.CipherSigil(cfg.aead, cipher));
    Sigils.CipherOpens(cfg.aead, cipher, message);
    if |message| >= 40 && cfg.aead.open(cfg.derive(rawKey), message[..24], message[24..]).Some? {
      var sealed := cfg.aead.open(cfg.derive(rawKey), message[..24], message[24..]).value;
      unmasked := XorObfuscate(cfg.hash, sealed, message[..24]);
      XorObfuscateBytes(cfg.hash, sealed, message[..24]);
    }
  }

  /** Of two clean paths, what is written to one is read there, and what the other answers stays as it was. */
  lemma WriteThenRead(cfg: Config, s: Svc, p: string, q: string, content: Bytes, drawn: Bytes, now: Time)
    requires Sigils.Sound(cfg.aead) && IsWorkspaceName(cfg.root, s.active) && CleanRelative(p) && CleanRelative(q)
    ensures var (t, r) := WriteFile(cfg, s, p, content, drawn, now);
            (r.Good? ==> ReadFile(cfg, t, p) == Good(content)) &&
            (p != q ==> ReadFile(cfg, t, q) == ReadFile(cfg, s, q))
  {
    NotEmpty(cfg.root, s.active);
    CleanFileResolves(cfg.root, s.active, p);
    CleanFileResolves(cfg.root, s.active, q);
    WorkspacePlaces(cfg.root, s.active);
    KeyIsNoFile(cfg.root, s.active, s.active, p);
    hide *;
    var (t, r) := WriteFile(cfg, s, p, content, drawn, now);
    var file := FileAt(cfg, s.active, p);
    WriteChanges(cfg, s, p, content, drawn, now);
    FileAtIs(cfg, s.active, p);
    FileAtIs(cfg, s.active, q);
    if r.Good? {
      ReadAnswers(cfg, t, p, file, KeyPath(cfg.root, s.active));
    }
    if p != q {
      if file == FileAt(cfg, s.active, q) {
        SameAfter(Place(cfg.root, s.active) + "files/", p, q);
      }
      ReadAnswers(cfg, s, q, FileAt(cfg, s.active, q), KeyPath(cfg.root, s.active));
      ReadAnswers(cfg, t, q, FileAt(cfg, s.active, q), KeyPath(cfg.root, s.active));
    }
  }

  lemma FileAtIs(cfg: Config, w: string, p: string)
    ensures FileAt(cfg, w, p) == Place(cfg.root, w) + "files/" + p
  {
  }

  lemma ReadAnswers(cfg: Config, s: Svc, path: string, file: string, key: string)
    requires s.active != "" && key == KeyPath(cfg.root, s.active) && ResolveFile(cfg.root, s.active, path) == Good(file)
    ensures ReadFile(cfg, s, path) ==
            if key !in s.mem.files then Bad(KeyUnreadable)
            else if file !in s.mem.files then Bad(FileNotFound)
            else Unsealed(cfg, CipherFor(cfg, s.mem.files[key]), s.mem.files[file])
  {
    hide KeyPath, Unsealed, CipherFor, ResolveFile;
  }

  // Runs

  ghost predicate IsRun(cfg: Config, states: seq<Svc>, ops: seq<Op>) {
    |states| == |ops| + 1 &&
    forall i | 0 <= i < |ops| :: states[i + 1] == After(cfg, states[i], ops[i])
  }

  /** The operation writes to the caller's path `p`, once cleaned, of workspace `w`, and succeeds. */
  ghost predicate WritesTo(cfg: Config, s: Svc, op: Op, w: string, p: string) {
    op.OpWrite? && s.active == w && CallerPath(cfg.root, w, op.path) == Some(p) &&
    WriteFile(cfg, s, op.path, op.content, op.drawn, op.now).1.Good?
  }

  /** The content of the last successful write to that path of workspace `w` before step `n`. */
  ghost function LastWritten(cfg: Config, states: seq<Svc>, ops: seq<Op>, n: nat, w: string, p: string): Option<Bytes>
    requires IsRun(cfg, states, ops) && n <= |ops|
  {
    if n == 0 then None
    else if WritesTo(cfg, states[n - 1], ops[n - 1], w, p) then Some(ops[n - 1].content)
    else LastWritten(cfg, states, ops, n - 1, w, p)
  }

  /** The file of `p` of workspace `w` holds `content`, sealed under the workspace's key. */
  ghost predicate Holds(cfg: Config, s: Svc, w: string, p: string, content: Bytes) {
    KeyPath(cfg.root, w) in s.mem.files && FileAt(cfg, w, p) in s.mem.files &&
    Unsealed(cfg, CipherFor(cfg, s.mem.files[KeyPath(cfg.root, w)]), s.mem.files[FileAt(cfg, w, p)]) == Good(content)
  }

  lemma FileIsNoKey(cfg: Config, v: string, w: string, p: string)
    requires IsWorkspaceName(cfg.root, v) && IsWorkspaceName(cfg.root, w)
    ensures FileAt(cfg, w, p) != KeyPath(cfg.root, v)
  {
    hide IsWorkspaceName, PathJoin, Place;
    WorkspacePlaces(cfg.root, v);
    KeyIsNoFile(cfg.root, v, w, p);
  }

  lemma KeysDiffer(cfg: Config, v: string, w: string)
    requires IsWorkspaceName(cfg.root, v) && IsWorkspaceName(cfg.root, w) && v != w
    ensures KeyPath(cfg.root, v) != KeyPath(cfg.root, w)
  {
    hide IsWorkspaceName, PathJoin, Place, KeyPath;
    WorkspacePlaces(cfg.root, v);
    WorkspacePlaces(cfg.root, w);
    if KeyPath(cfg.root, v) == KeyPath(cfg.root, w) {
      PlacesApart(cfg.root, v, w, "keys/private.key", "keys/private.key");
    }
  }

  /** Files of different workspaces or of different paths are different. */
  lemma FilesDiffer(cfg: Config, v: string, w: string, p: string, q: string)
    requires IsWorkspaceName(cfg.root, v) && IsWorkspaceName(cfg.root, w) && FileAt(cfg, v, p) == FileAt(cfg, w, q)
    ensures v == w && p == q
  {
    hide IsWorkspaceName, Place;
    Associative(Place(cfg.root, v), "files/", p);
    Associative(Place(cfg.root, w), "files/", q);
    PlacesApart(cfg.root, v, w, "files/" + p, "files/" + q);
    SameAfter("files/", p, q);
  }

  ghost predicate GoodState(cfg: Config, s: Svc) {
    s.active == "" || IsWorkspaceName(cfg.root, s.active)
  }

  lemma GoodStateKept(cfg: Config, s: Svc, op: Op)
    requires GoodConfig(cfg) && GoodState(cfg, s)
    ensures GoodState(cfg, After(cfg, s, op))
  {
    hide Create, Switch, WriteFile, IsWorkspaceName, Sigils.Sound;
    match op
    case OpCreate(identifier, keyPair, now) => CreateChanges(cfg, s, identifier, keyPair, now);
    case OpSwitch(id) => SwitchChanges(cfg, s, id);
    case OpWrite(path, content, drawn, now) => WriteChanges(cfg, s, path, content, drawn, now);
    case OpRead(_) =>
  }

  /** Once a workspace's key is stored, no operation ever changes it. */
  lemma KeyKept(cfg: Config, s: Svc, op: Op, w: string)
    requires GoodConfig(cfg) && GoodState(cfg, s) && IsWorkspaceName(cfg.root, w) && KeyPath(cfg.root, w) in s.mem.files
    ensures var t := After(cfg, s, op);
            KeyPath(cfg.root, w) in t.mem.files &&
            t.mem.files[KeyPath(cfg.root, w)] == s.mem.files[KeyPath(cfg.root, w)]
  {
    hide Create, Switch, WriteFile, IsWorkspaceName, Sigils.Sound, PathJoin, CallerPath, ResolveFile;
    match op
    case OpCreate(identifier, keyPair, now) =>
      CreateChanges(cfg, s, identifier, keyPair, now);
      var id := WorkspaceId(cfg, identifier);
      if IsWorkspaceName(cfg.root, id) && id != w {
        KeysDiffer(cfg, id, w);
      }
    case OpSwitch(id) => SwitchChanges(cfg, s, id);
    case OpWrite(path, content, drawn, now) =>
      WriteChanges(cfg, s, path, content, drawn, now);
      if s.active != "" && ResolveFile(cfg.root, s.active, path).Good? {
        ResolvesTo(cfg.root, s.active, path);
        FileIsNoKey(cfg, w, s.active, CallerPath(cfg.root, s.active, path).value);
      }
    case OpRead(_) =>
  }

  /** A file changes only by a successful write to its path in its own workspace. */
  lemma FileKept(cfg: Config, s: Svc, op: Op, w: string, p: string)
    requires GoodConfig(cfg) && GoodState(cfg, s) && IsWorkspaceName(cfg.root, w) && !WritesTo(cfg, s, op, w, p)
    ensures var (t, file) := (After(cfg, s, op), FileAt(cfg, w, p));
            (file in t.mem.files <==> file in s.mem.files) && (file in s.mem.files ==> t.mem.files[file] == s.mem.files[file])
  {
    hide Create, Switch, WriteFile, IsWorkspaceName, Sigils.Sound, PathJoin, CallerPath, ResolveFile, FileAt;
    match op
    case OpCreate(identifier, keyPair, now) =>
      CreateChanges(cfg, s, identifier, keyPair, now);
      var id := WorkspaceId(cfg, identifier);
      if IsWorkspaceName(cfg.root, id) {
        FileIsNoKey(cfg, id, w, p);
      }
    case OpSwitch(id) => SwitchChanges(cfg, s, id);
    case OpWrite(path, content, drawn, now) =>
      WriteChanges(cfg, s, path, content, drawn, now);
      if WriteFile(cfg, s, path, content, drawn, now).1.Good? {
        ResolvedAt(cfg, s.active, path);
        if FileAt(cfg, s.active, CallerPath(cfg.root, s.active, path).value) == FileAt(cfg, w, p) {
          FilesDiffer(cfg, s.active, w, CallerPath(cfg.root, s.active, path).value, p);
        }
      }
    case OpRead(_) =>
  }

  lemma ResolvedAt(cfg: Config, w: string, path: string)
    requires IsWorkspaceName(cfg.root, w) && ResolveFile(cfg.root, w, path).Good?
    ensures CallerPath(cfg.root, w, path).Some?
    ensures ResolveFile(cfg.root, w, path) == Good(FileAt(cfg, w, CallerPath(cfg.root, w, path).value))
  {
    hide IsWorkspaceName, ResolveFile, CallerPath, Place;
    ResolvesTo(cfg.root, w, path);
  }

  lemma WriteMakesHold(cfg: Config, s: Svc, op: Op, w: string, p: string)
    requires GoodConfig(cfg) && GoodState(cfg, s) && IsWorkspaceName(cfg.root, w) && WritesTo(cfg, s, op, w, p)
    ensures Holds(cfg, After(cfg, s, op), w, p, op.content)
  {
    hide Create, Switch, WriteFile, IsWorkspaceName, Sigils.Sound, PathJoin, Unsealed, CipherFor, CallerPath, ResolveFile,
      FileAt;
    WriteChanges(cfg, s, op.path, op.content, op.drawn, op.now);
    ResolvedAt(cfg, w, op.path);
    KeyKept(cfg, s, op, w);
  }

  lemma {:induction false} LastWrittenHolds(cfg: Config, states: seq<Svc>, ops: seq<Op>, n: nat, w: string, p: string)
    requires GoodConfig(cfg) && IsRun(cfg, states, ops) && n <= |ops|
    requires states[0].active == "" && IsWorkspaceName(cfg.root, w)
    ensures GoodState(cfg, states[n])
    ensures var last := LastWritten(cfg, states, ops, n, w, p); last.Some? ==> Holds(cfg, states[n], w, p, last.value)
    ensures LastWritten(cfg, states, ops, n, w, p).None? && FileAt(cfg, w, p) !in states[0].mem.files ==>
              FileAt(cfg, w, p) !in states[n].mem.files
  {
    hide After, GoodConfig, WritesTo, CipherFor, Unsealed, PathJoin, IsWorkspaceName, FileAt, KeyPath;
    if n > 0 {
      LastWrittenHolds(cfg, states, ops, n - 1, w, p);
      var s, op := states[n - 1], ops[n - 1];
      assert states[n] == After(cfg, s, op);
      GoodStateKept(cfg, s, op);
      if WritesTo(cfg, s, op, w, p) {
        WriteMakesHold(cfg, s, op, w, p);
      } else {
        FileKept(cfg, s, op, w, p);
        if KeyPath(cfg.root, w) in s.mem.files {
          KeyKept(cfg, s, op, w);
        }
      }
    }
  }

  /**
   Read your writes, over every run: a path read in the active workspace gives the content of
   the last successful write to that workspace whose path cleans to the same, whatever was created,
   switched or written, to other paths among them, in between.
   */
  lemma ReadYourWrites(cfg: Config, states: seq<Svc>, ops: seq<Op>, n: nat, path: string, p: string)
    requires GoodConfig(cfg) && IsRun(cfg, states, ops) && n <= |ops| && states[0].active == ""
    requires states[n].active != "" && CallerPath(cfg.root, states[n].active, path) == Some(p)
    ensures var last := LastWritten(cfg, states, ops, n, states[n].active, p);
            last.Some? ==> ReadFile(cfg, states[n], path) == Good(last.value)
  {
    hide After, CipherFor, Unsealed, PathJoin, Holds, LastWritten, IsWorkspaceName, Sigils.Sound, CallerPath, ResolveFile;
    var w := states[n].active;
    ActiveIsName(cfg, states, ops, n);
    LastWrittenHolds(cfg, states, ops, n, w, p);
    ResolvesTo(cfg.root, w, path);
    var last := LastWritten(cfg, states, ops, n, w, p);
    if last.Some? {
      HoldsReads(cfg, states[n], path, p, last.value);
    }
  }

  /** No file is stored yet where a workspace keeps its files. */
  ghost predicate NoFilesYet(cfg: Config, m: Mem) {
    forall f, w :: f in m.files && IsWorkspaceName(cfg.root, w) ==> !HasPrefix(f, Place(cfg.root, w) + "files/")
  }

  /** On a medium with no such file to begin with, that is the only thing that can be read. */
  lemma ReadOnlyWrites(cfg: Config, states: seq<Svc>, ops: seq<Op>, n: nat, path: string, p: string)
    requires GoodConfig(cfg) && IsRun(cfg, states, ops) && n <= |ops| && states[0].active == ""
    requires NoFilesYet(cfg, states[0].mem)
    requires states[n].active != "" && CallerPath(cfg.root, states[n].active, path) == Some(p)
    ensures forall content :: ReadFile(cfg, states[n], path) == Good(content) <==>
                              LastWritten(cfg, states, ops, n, states[n].active, p) == Some(content)
  {
    hide After, CipherFor, Unsealed, PathJoin, Holds, LastWritten, IsWorkspaceName, Sigils.Sound, CallerPath, ResolveFile;
    var w := states[n].active;
    ActiveIsName(cfg, states, ops, n);
    NotYet(cfg, states[0].mem, w, p);
    LastWrittenHolds(cfg, states, ops, n, w, p);
    ResolvesTo(cfg.root, w, path);
    ReadYourWrites(cfg, states, ops, n, path, p);
  }

  lemma NotYet(cfg: Config, m: Mem, w: string, p: string)
    requires NoFilesYet(cfg, m) && IsWorkspaceName(cfg.root, w)
    ensures FileAt(cfg, w, p) !in m.files
  {
    hide IsWorkspaceName, Place;
    var prefix := Place(cfg.root, w) + "files/";
    assert (prefix + p)[..|prefix|] == prefix;
  }

  lemma HoldsReads(cfg: Config, s: Svc, path: string, p: string, content: Bytes)
    requires ResolveFile(cfg.root, s.active, path) == Good(FileAt(cfg, s.active, p))
    requires Holds(cfg, s, s.active, p, content)
    ensures ReadFile(cfg, s, path) == Good(content)
  {
    hide PathJoin, Unsealed, CipherFor, FileAt;
  }

  lemma {:induction false} ActiveIsName(cfg: Config, states: seq<Svc>, ops: seq<Op>, n: nat)
    requires GoodConfig(cfg) && IsRun(cfg, states, ops) && n <= |ops| && states[0].active == ""
    ensures GoodState(cfg, states[n])
  {
    hide After, GoodConfig;
    if n > 0 {
      ActiveIsName(cfg, states, ops, n - 1);
      GoodStateKept(cfg, states[n - 1], ops[n - 1]);
    }
  }

  /** The key of a workspace stays what it was over every stretch of a run. */
  lemma {:induction false} KeyNeverChanges(cfg: Config, states: seq<Svc>, ops: seq<Op>, i: nat, j: nat, w: string)
    requires GoodConfig(cfg) && IsRun(cfg, states, ops) && i <= j <= |ops| && states[0].active == ""
    requires IsWorkspaceName(cfg.root, w) && KeyPath(cfg.root, w) in states[i].mem.files
    ensures KeyPath(cfg.root, w) in states[j].mem.files
    ensures states[j].mem.files[KeyPath(cfg.root, w)] == states[i].mem.files[KeyPath(cfg.root, w)]
    decreases j
  {
    hide After, GoodConfig, PathJoin;
    if i < j {
      KeyNeverChanges(cfg, states, ops, i, j - 1, w);
      ActiveIsName(cfg, states, ops, j - 1);
      KeyKept(cfg, states[j - 1], ops[j - 1], w);
    }
  }
}
