/**
 The scoped medium and the workspace object (go/workspace/workspace.go) over an in-memory
 medium: each method cleans the caller's path, or refuses it, and passes it on.
 */
module ScopedObjects {
  import opened Options
  import opened MemoryState
  import opened DirEntries
  import opened MemoryListing
  import opened ScopedState
  import opened ScopedRequests
  import opened ScopedWorkspaces
  import MemoryMedium

  const NO_ORDERS := Orders([], [])

  /** An operation with one way to run, run. */
  lemma RanOnce(m: Mem, op: Op, step: Step)
    requires !op.OpRename? && step == Apply(m, op)
    ensures Runs(m, op, step.status, step.mem)
  {
    hide WriteMode, CloseWriter, EnsureDir, Delete, DeleteAll;
    assert RunsInOrder(m, op, NO_ORDERS, step.status, step.mem);
  }

  lemma RanRename(m: Mem, from: string, to: string, orders: Orders, step: Step)
    requires LegalOrders(m, from, to, orders) && step == Rename(m, from, to, orders)
    ensures Runs(m, OpRename(from, to, NO_ORDERS), step.status, step.mem)
  {
    hide LegalOrders, Rename;
    assert WithOrders(OpRename(from, to, NO_ORDERS), orders) == OpRename(from, to, orders);
    assert RunsInOrder(m, OpRename(from, to, NO_ORDERS), orders, step.status, step.mem);
  }

  class ScopedMedium {
    const medium: MemoryMedium.MemoryMedium
    const root: string

    constructor (medium: MemoryMedium.MemoryMedium, root: string)
      ensures this.medium == medium && this.root == root
    {
      this.medium, this.root := medium, root;
    }

    method Read(entryPath: string) returns (content: Option<Bytes>)
      ensures var scoped := ScopedPath(root, entryPath, false);
              content == if scoped.Clean? then MemoryState.Read(medium.State(), scoped.path) else None
    {
      hide ScopedPath;
      var scoped := ScopedPath(root, entryPath, false);
      if !scoped.Clean? {
        return None;
      }
      content := medium.ReadFile(scoped.path);
    }

    method Write(entryPath: string, content: Bytes, now: Time) returns (answer: Answer)
      modifies medium
      ensures ScopedCall(old(medium.State()), root, OpWrite(entryPath, content, DEFAULT_MODE, now), answer, medium.State())
    {
      answer := WriteMode(entryPath, content, DEFAULT_MODE, now);
    }

    method WriteMode(entryPath: string, content: Bytes, mode: Mode, now: Time) returns (answer: Answer)
      modifies medium
      ensures ScopedCall(old(medium.State()), root, OpWrite(entryPath, content, mode, now), answer, medium.State())
    {
      hide ScopedPath, MemoryState.WriteMode, Runs;
      ghost var was := medium.State();
      var scoped := ScopedPath(root, entryPath, false);
      if !scoped.Clean? {
        return Refused(scoped);
      }
      var status := medium.WriteFileMode(scoped.path, content, mode, now);
      RanOnce(was, OpWrite(scoped.path, content, mode, now), Step(status, medium.State()));
      answer := Ran(status);
    }

    method EnsureDir(entryPath: string) returns (answer: Answer)
      modifies medium
      ensures ScopedCall(old(medium.State()), root, OpEnsureDir(entryPath), answer, medium.State())
    {
      hide ScopedPath, MemoryState.EnsureDir, Runs;
      ghost var was := medium.State();
      var scoped := ScopedPath(root, entryPath, true);
      if !scoped.Clean? {
        return Refused(scoped);
      }
      var status := medium.EnsureDirectory(scoped.path);
      RanOnce(was, OpEnsureDir(scoped.path), Step(status, medium.State()));
      answer := Ran(status);
    }

    method IsFile(entryPath: string) returns (found: bool)
      ensures var scoped := ScopedPath(root, entryPath, false);
              found <==> scoped.Clean? && scoped.path in medium.fileContents
    {
      hide ScopedPath;
      var scoped := ScopedPath(root, entryPath, false);
      found := scoped.Clean? && scoped.path in medium.fileContents;
    }

    method Delete(entryPath: string) returns (answer: Answer)
      modifies medium
      ensures ScopedCall(old(medium.State()), root, OpDelete(entryPath), answer, medium.State())
    {
      hide ScopedPath, MemoryState.Delete, Runs;
      ghost var was := medium.State();
      var scoped := ScopedPath(root, entryPath, false);
      if !scoped.Clean? {
        return Refused(scoped);
      }
      var status := medium.DeletePath(scoped.path);
      RanOnce(was, OpDelete(scoped.path), Step(status, medium.State()));
      answer := Ran(status);
    }

    method DeleteAll(entryPath: string) returns (answer: Answer)
      modifies medium
      ensures ScopedCall(old(medium.State()), root, OpDeleteAll(entryPath), answer, medium.State())
    {
      hide ScopedPath, MemoryState.DeleteAll, Runs;
      ghost var was := medium.State();
      var scoped := ScopedPath(root, entryPath, false);
      if !scoped.Clean? {
        return Refused(scoped);
      }
      var status := medium.DeleteTree(scoped.path);
      RanOnce(was, OpDeleteAll(scoped.path), Step(status, medium.State()));
      answer := Ran(status);
    }

    method Rename(oldPath: string, newPath: string) returns (answer: Answer)
      modifies medium
      ensures ScopedCall(old(medium.State()), root, OpRename(oldPath, newPath, NO_ORDERS), answer, medium.State())
    {
      hide ScopedPath, MemoryState.Rename, LegalOrders, Runs;
      ghost var was := medium.State();
      var scopedOld := ScopedPath(root, oldPath, false);
      if !scopedOld.Clean? {
        return Refused(scopedOld);
      }
      var scopedNew := ScopedPath(root, newPath, false);
      if !scopedNew.Clean? {
        return Refused(scopedNew);
      }
      var status, orders := medium.RenamePath(scopedOld.path, scopedNew.path);
      RanRename(was, scopedOld.path, scopedNew.path, orders, Step(status, medium.State()));
      answer := Ran(status);
    }

    method List(entryPath: string) returns (entries: Option<seq<DirEntry>>)
      ensures var scoped := ScopedPath(root, entryPath, true);
              (entries.Some? <==> scoped.Clean? && Lists(medium.State(), scoped.path)) &&
              (entries.Some? ==> Listing(medium.State(), scoped.path, entries.value))
    {
      hide ScopedPath, Lists, Listing;
      var scoped := ScopedPath(root, entryPath, true);
      if !scoped.Clean? {
        return None;
      }
      entries := medium.List(scoped.path);
    }

    method Stat(entryPath: string, now: Time) returns (info: Option<FileInfo>)
      ensures var scoped := ScopedPath(root, entryPath, true);
              info == if scoped.Clean? then MemoryState.Stat(medium.State(), scoped.path, now) else None
    {
      hide ScopedPath, MemoryState.Stat;
      var scoped := ScopedPath(root, entryPath, true);
      if !scoped.Clean? {
        return None;
      }
      info := medium.StatPath(scoped.path, now);
    }

    method Exists(entryPath: string) returns (found: bool)
      ensures var scoped := ScopedPath(root, entryPath, true);
              found <==> scoped.Clean? && MemoryState.Exists(medium.State(), scoped.path)
    {
      hide ScopedPath, DirectoryExists;
      var scoped := ScopedPath(root, entryPath, true);
      if !scoped.Clean? {
        return false;
      }
      if scoped.path in medium.fileContents {
        return true;
      }
      found := medium.DirectoryExistsAt(scoped.path);
    }

    method IsDir(entryPath: string) returns (found: bool)
      ensures var scoped := ScopedPath(root, entryPath, true);
              found <==> scoped.Clean? && DirectoryExists(medium.State(), scoped.path)
    {
      hide ScopedPath, DirectoryExists;
      var scoped := ScopedPath(root, entryPath, true);
      if !scoped.Clean? {
        return false;
      }
      found := medium.DirectoryExistsAt(scoped.path);
    }

    /** `Create`: a writer at the scoped path; its Close is the medium's. */
    method Create(entryPath: string) returns (writer: MemoryMedium.MemoryWriteCloser?)
      ensures var scoped := ScopedPath(root, entryPath, false);
              (writer != null <==> scoped.Clean?) &&
              (writer != null ==>
                 fresh(writer) && writer.medium == medium && writer.path == scoped.path && writer.mode == DEFAULT_MODE && writer.data == [])
    {
      hide ScopedPath;
      var scoped := ScopedPath(root, entryPath, false);
      if !scoped.Clean? {
        return null;
      }
      writer := new MemoryMedium.MemoryWriteCloser.Create(medium, scoped.path);
    }
  }

  /** `NewWorkspace`. */
  method NewWorkspace(medium: MemoryMedium.MemoryMedium, baseSubpath: string) returns (result: Result<Workspace>)
    modifies medium
    ensures var (base, after) := NewBase(old(medium.State()), baseSubpath);
            medium.State() == after && (result.Good? <==> base.Good?) &&
            (if base.Good?
             then fresh(result.value) && result.value.medium == medium && result.value.base == base.value && result.value.current == ""
             else result == Failure(base))
  {
    hide CleanMediumSubpath, MemoryState.EnsureDir;
    var cleaned := CleanMediumSubpath(baseSubpath, true);
    if !cleaned.Clean? {
      return BadPath(cleaned);
    }
    if cleaned.path != "" {
      var status := medium.EnsureDirectory(cleaned.path);
      if status != Done {
        return MediumFailed(status);
      }
    }
    var workspace := new Workspace(medium, cleaned.path);
    result := Good(workspace);
  }

  class Workspace {
    const medium: MemoryMedium.MemoryMedium
    const base: string
    var current: string

    constructor (medium: MemoryMedium.MemoryMedium, base: string)
      ensures this.medium == medium && this.base == base && current == ""
    {
      this.medium, this.base, current := medium, base, "";
    }

    method CreateWorkspace(name: string) returns (result: Result<ScopedMedium>)
      modifies medium
      ensures var (root, after) := CreateNamed(old(medium.State()), base, name);
              medium.State() == after && (result.Good? <==> root.Good?) &&
              (if root.Good? then fresh(result.value) && result.value.medium == medium && result.value.root == root.value
               else result == Failure(root))
    {
      hide CleanWorkspaceName, JoinMediumSubpaths, DirectoryExists, MemoryState.EnsureDir;
      var named := CleanWorkspaceName(name);
      if !named.Name? {
        return BadName(named);
      }
      var root := JoinMediumSubpaths(base, named.name);
      var isDirectory := medium.DirectoryExistsAt(root);
      if isDirectory {
        return WorkspaceExists;
      }
      if root in medium.fileContents {
        return NotADirectory;
      }
      var status := medium.EnsureDirectory(root);
      if status != Done {
        return MediumFailed(status);
      }
      var scoped := new ScopedMedium(medium, root);
      result := Good(scoped);
    }

    method SwitchWorkspace(name: string) returns (result: Result<()>)
      modifies `current
      ensures var named := CleanWorkspaceName(name);
              var found := named.Name? && DirectoryExists(medium.State(), JoinMediumSubpaths(base, named.name));
              result == (if !named.Name? then BadName(named) else if found then Good(()) else WorkspaceNotFound) &&
              current == if found then named.name else old(current)
    {
      hide CleanWorkspaceName, JoinMediumSubpaths, DirectoryExists;
      var named := CleanWorkspaceName(name);
      if !named.Name? {
        return BadName(named);
      }
      var found := medium.DirectoryExistsAt(JoinMediumSubpaths(base, named.name));
      if !found {
        return WorkspaceNotFound;
      }
      current := named.name;
      result := Good(());
    }

    method WorkspaceFilePath(name: string, filePath: string, allowEmptyPath: bool) returns (result: Result<string>)
      ensures result == FilePath(medium.State(), base, name, filePath, allowEmptyPath)
    {
      hide CleanWorkspaceName, JoinMediumSubpaths, DirectoryExists, CleanMediumSubpath;
      var named := CleanWorkspaceName(name);
      if !named.Name? {
        return BadName(named);
      }
      var workspacePath := JoinMediumSubpaths(base, named.name);
      var found := medium.DirectoryExistsAt(workspacePath);
      if !found {
        return WorkspaceNotFound;
      }
      var cleaned := CleanMediumSubpath(filePath, allowEmptyPath);
      result := if cleaned.Clean? then Good(JoinMediumSubpaths(workspacePath, cleaned.path)) else BadPath(cleaned);
    }

    method ReadWorkspaceFile(name: string, filePath: string) returns (result: Result<Bytes>)
      ensures result == ReadNamed(medium.State(), base, name, filePath)
    {
      hide FilePath;
      var file := WorkspaceFilePath(name, filePath, false);
      if !file.Good? {
        return Failure(file);
      }
      var content := medium.ReadFile(file.value);
      result := if content.Some? then Good(content.value) else FileNotFound;
    }

    method WriteWorkspaceFile(name: string, filePath: string, content: Bytes, now: Time) returns (result: Result<()>)
      modifies medium
      ensures (result, medium.State()) == WriteNamed(old(medium.State()), base, name, filePath, content, now)
    {
      hide FilePath, MemoryState.WriteMode;
      var file := WorkspaceFilePath(name, filePath, false);
      if !file.Good? {
        return Failure(file);
      }
      var status := medium.WriteFileMode(file.value, content, DEFAULT_MODE, now);
      result := if status == Done then Good(()) else MediumFailed(status);
    }

    method ListWorkspaceFiles(name: string, directoryPath: string) returns (result: Result<seq<DirEntry>>)
      ensures var directory := FilePath(medium.State(), base, name, directoryPath, true);
              if !directory.Good? then result == Failure(directory)
              else if Lists(medium.State(), directory.value)
              then result.Good? && Listing(medium.State(), directory.value, result.value)
              else result == FileNotFound
    {
      hide FilePath, Lists, Listing;
      var directory := WorkspaceFilePath(name, directoryPath, true);
      if !directory.Good? {
        return Failure(directory);
      }
      var entries := medium.List(directory.value);
      result := if entries.Some? then Good(entries.value) else FileNotFound;
    }
  }
}
