/**
 The encrypted workspace service as the object it is (go/workspace/service.go): an active
 workspace id over an in-memory medium, each method proved against WorkspaceService.
 */
module WorkspaceObject {
  import opened Options
  import opened Paths
  import opened MemoryState
  import opened WorkspaceRoots
  import opened WorkspaceService
  import MemoryMedium
  import Sigils

  class Service {
    const cfg: Config
    const medium: MemoryMedium.MemoryMedium
    var activeWorkspaceID: string

    ghost function State(): Svc
      reads this, medium
    {
      Svc(medium.State(), activeWorkspaceID)
    }

    constructor (cfg: Config, medium: MemoryMedium.MemoryMedium)
      ensures this.cfg == cfg && this.medium == medium && activeWorkspaceID == ""
    {
      this.cfg, this.medium, activeWorkspaceID := cfg, medium, "";
    }

    method CreateWorkspace(identifier: Bytes, keyPair: Option<Bytes>, now: Time) returns (r: Result<string>)
      modifies medium
      ensures (State(), r) == Create(cfg, old(State()), identifier, keyPair, now)
    {
      hide ResolveWorkspaceDirectory, PathJoin, WriteMode, DirectoryExists, WorkspaceId, EnsureAll;
      var id := WorkspaceId(cfg, identifier);
      var directory := ResolveWorkspaceDirectory(cfg.root, id);
      if directory.Bad? {
        return Bad(directory.error);
      }
      var exists_ := PathExists(directory.value);
      if exists_ {
        return Bad(WorkspaceExists);
      }
      var ensured := EnsureDirectories(directory.value);
      if ensured != Done {
        return Bad(DirectoryFailed);
      }
      if keyPair.None? {
        return Bad(KeyPairFailed);
      }
      var saved := medium.WriteFileMode(PathJoin([directory.value, "keys", "private.key"]), keyPair.value, PRIVATE_MODE, now);
      r := if saved == Done then Good(id) else Bad(SaveFailed);
    }

    method PathExists(path: string) returns (found: bool)
      ensures found <==> Exists(medium.State(), path)
    {
      hide DirectoryExists;
      if path in medium.fileContents {
        return true;
      }
      found := medium.DirectoryExistsAt(path);
    }

    method EnsureDirectories(directory: string) returns (status: Status)
      modifies medium
      ensures Step(status, medium.State()) == EnsureAll(old(medium.State()), directory, SUBDIRECTORIES)
    {
      hide PathJoin, EnsureDir;
      assert SUBDIRECTORIES[0..] == SUBDIRECTORIES;
      for i := 0 to |SUBDIRECTORIES|
        invariant EnsureAll(medium.State(), directory, SUBDIRECTORIES[i..]) ==
                  EnsureAll(old(medium.State()), directory, SUBDIRECTORIES)
      {
        assert SUBDIRECTORIES[i..][1..] == SUBDIRECTORIES[i + 1..];
        status := medium.EnsureDirectory(PathJoin([directory, SUBDIRECTORIES[i]]));
        if status != Done {
          return;
        }
      }
      status := Done;
    }

    method SwitchWorkspace(id: string) returns (r: Result<()>)
      modifies this`activeWorkspaceID
      ensures (State(), r) == Switch(cfg, old(State()), id)
    {
      hide ResolveWorkspaceDirectory, DirectoryExists, PathBase;
      var directory := ResolveWorkspaceDirectory(cfg.root, id);
      if directory.Bad? {
        return Bad(directory.error);
      }
      var found := medium.DirectoryExistsAt(directory.value);
      if !found {
        return Bad(WorkspaceNotFound);
      }
      activeWorkspaceID := PathBase(directory.value);
      r := Good(());
    }

    method WorkspaceCipherSigil() returns (r: Result<Sigils.ChaChaPolySigil>)
      ensures r == WorkspaceCipher(cfg, State())
    {
      hide KeyPath, CipherFor;
      if activeWorkspaceID == "" {
        return Bad(NoActiveWorkspace);
      }
      var rawKey := medium.ReadFile(KeyPath(cfg.root, activeWorkspaceID));
      r := if rawKey.None? then Bad(KeyUnreadable) else Good(CipherFor(cfg, rawKey.value));
    }

    method ReadWorkspaceFile(path: string) returns (r: Result<Bytes>)
      ensures r == ReadFile(cfg, State(), path)
    {
      hide ResolveFile, WorkspaceCipher, Sigils.Untransmute;
      var file := ResolveFile(cfg.root, activeWorkspaceID, path);
      if file.Bad? {
        return Bad(file.error);
      }
      var cipher := WorkspaceCipherSigil();
      if cipher.Bad? {
        return Bad(cipher.error);
      }
      var encoded := medium.ReadFile(file.value);
      if encoded.None? {
        return Bad(FileNotFound);
      }
      var plain := Sigils.UntransmuteLoop(Sigils.Of(encoded.value), [Sigils.CipherSigil(cfg.aead, cipher.value)]);
      r := if plain.Failed? then Bad(CipherFailed(plain.error)) else Good(Sigils.Text(plain.data));
    }

    method WriteWorkspaceFile(path: string, content: Bytes, drawn: Bytes, now: Time) returns (r: Result<()>)
      modifies medium
      ensures (State(), r) == WriteFile(cfg, old(State()), path, content, drawn, now)
    {
      hide ResolveFile, WorkspaceCipher, Sigils.Transmute, WriteMode;
      var file := ResolveFile(cfg.root, activeWorkspaceID, path);
      if file.Bad? {
        return Bad(file.error);
      }
      var cipher := WorkspaceCipherSigil();
      if cipher.Bad? {
        return Bad(cipher.error);
      }
      var ciphertext := Sigils.TransmuteLoop(Sigils.Of(content), [Sigils.CipherSigil(cfg.aead, cipher.value)], [drawn]);
      if ciphertext.Failed? {
        return Bad(CipherFailed(ciphertext.error));
      }
      var stored := medium.WriteFileMode(file.value, Sigils.Text(ciphertext.data), DEFAULT_MODE, now);
      r := if stored == Done then Good(()) else Bad(SaveFailed);
    }
  }

  /** New ensures the root directory, and fails when the root is a file. */
  method New(cfg: Config, medium: MemoryMedium.MemoryMedium) returns (service: Service?)
    modifies medium
    ensures medium.State() == EnsureDir(old(medium.State()), cfg.root).mem
    ensures service != null <==> cfg.root !in old(medium.fileContents)
    ensures service != null ==> fresh(service) && service.cfg == cfg && service.medium == medium && service.activeWorkspaceID == ""
  {
    var status := medium.EnsureDirectory(cfg.root);
    if status != Done {
      return null;
    }
    service := new Service(cfg, medium);
  }
}
