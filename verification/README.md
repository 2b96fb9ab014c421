# Verified model of go-io

go-io is a storage boundary: one `Medium` interface, in-memory backends behind it, layers that
confine paths, and a pipeline of byte transforms. This project models its self-contained core in
Dafny and proves what the layers promise: that a sandbox cannot be left, that a scoped medium is
private, that a flat map behaves like a tree, that encryption and archiving do not show.

Check it with `dafny verify dfyconfig.toml`.

## How it is built

| program | modules |
|---|---|
| Go's lexical path functions | `Paths`, `PathTree`, `PathBelow`, `PathLaws` (what they mean) |
| symlink resolver and sandbox, `go/local/medium.go` | `SymlinkResolver` (meaning and algorithm on components), `LocalMedium` (the methods on strings) |
| in-memory medium, `go/io.go` | `MemoryState` (states and operations), `PrefixMaps`, `MemoryRename`, `MemoryTree`, `MemoryObserved`, `MemoryListing`, `MemoryMedium` (the object) |
| entry sort, `go/internal/fsutil/direntry.go` | `DirEntries` |
| node tree, `go/node/node.go` | `NodeState`, `NodeListing`, `NodeListingOrder`, `NodeListingStat`, `NodeCopy`, `NodeObserved`, `NodeObject` |
| encrypted workspaces, `go/workspace/service.go` | `WorkspaceRoots` (ids and paths), `WorkspaceService` (the state machine), `WorkspaceObject` (the object) |
| scoped workspaces, `go/workspace/workspace.go` | `ScopedState`, `ScopedSimulation`, `ScopedReads`, `ScopedRequests`, `ScopedWorkspaces`, `ScopedPaths`, `ScopedObjects` |
| obfuscators, cipher, pipeline, `go/sigil/` | `Obfuscators`, `Sigils` |
| JSON indenter, `go/sigil/sigils.go` | `JsonIndent`, `JsonValues` (on values) |
| cube and its archive, `go/cube/cube.go` | `CubeState`, `CubeMedium`, `ArchiveWalk`, `ArchiveExtract`, `ArchiveObjects` |
| inputs at which a layer does less than expected | `Counterexamples` |
| shared | `Options`, `ByteStrings` |

Code that changes things step by step is a class or a method with a loop, proved against a function
on values; the theorems are about those functions, about runs of them, and about relations that say
what they mean. A loop over a Go map visits its keys in an order that is arbitrary: either the loop
picks any pending key, or the order is an argument and the theorem holds for all of them.

## What is assumed

- `core.Path`, `core.PathJoin`, `core.CleanPath`, `core.PathDir`, `core.PathBase`, `core.Trim` and
  `core.Replace` are not shown; they are taken to be Go's lexical join, clean, dir and base, with `/`
  as the separator, and `strings.TrimSpace` and `strings.ReplaceAll`.
- The file system does not change during one call of the local medium. It is a finite map from
  clean absolute paths to missing, plain, link, or an error of lstat or readlink; below a relative
  working directory its top is taken to be a directory. The working directory is not empty and holds
  no backslash.
- The hash is any function with 32-byte results, the key derivation any function to 32 bytes, the
  AEAD any pair with Open(Seal(x)) = x and a 16-byte tag (section 2.8 of RFC 8439). Random bytes,
  key pairs and times are arguments.
- Paths are valid UTF-8, and a character of a path is a code point; names compare the same by code
  points as by bytes. A character of a JSON text stands for a byte. File contents are sequences of bytes.
- Borg's data node, which is not shown, lists a directory like a tree, in any order.
- A tar archive is the sequence of its entries, some of which may be unreadable. As Go's tar writer
  does, writing refuses a name with a NUL, makes a directory entry of a name that ends in a slash, and
  refuses content for such an entry.

## Where the code does less than one might expect

Each of these is a property that fails; the model keeps the code as it is and the named lemma says
exactly when it holds.

- `EnsureDir` and the writer's `Close` of the in-memory medium do not look whether an ancestor is a
  file, so they can put a directory where a file is (`MemoryTree.EnsureDirTree`,
  `MemoryTree.CloseWriterTree`, reached in `Counterexamples.DirectoryOverFile`); a workspace base made
  that way is no safe home (`ScopedWorkspaces.NewBaseIsHome`).
- Renaming a file onto itself drops it, in the in-memory medium (`MemoryRename.RenameFileExact`) and in
  the node tree (`NodeState.RenameFileExact`). Renaming a directory of the in-memory medium onto itself
  deletes it (`MemoryTree.RenameOntoItselfDeletes`).
- Renaming a directory of the in-memory medium may depend on the order of the map
  (`MemoryRename.RenameDirectoryExact`, with a concrete case in `MemoryRename.NestedRenameOrderShows`).
  It can leave entries without their directory: always to a path below itself
  (`MemoryTree.RenameIntoItselfBreaks`), and in some orders to a path above
  (`MemoryTree.RenameDirectoryTree`, reached in `Counterexamples.UpwardRenameOrderShows`).
- What a name is in a listing of the node tree may depend on the order of the map
  (`NodeListingOrder.ReadDirExact`, reached in `Counterexamples.ListingDepends`), and a key that ends in a
  slash is listed under the name of its directory (`NodeListing.ReadDirNamesExact`).
- A listing of the node tree may disagree with `Stat`: for a file called `.` at the top, for a name
  that is empty, or where a file has something below it (`NodeListingStat.ReadDirMatchesStat` for every
  tree and prefix, `NodeListingStat.ReadDirMatchesStatPlain` for the plain ones).
- Archiving confuses a top-level directory `d` with a child also named `d` (`ArchiveWalk.ArchiveExact`,
  reached in `Counterexamples.ArchiveNeverCompletes`).
- Unpacking refuses names with a backslash, which the in-memory medium stores, and then leaves the
  files written so far (`ArchiveExtract.ExtractExact`, reached in `Counterexamples.BackslashIsRefused`). Empty directories
  do not survive packing.
- Appending through a cube to a directory that exists only by what lies below it is refused, where a
  write succeeds (`CubeState.AppendIsWriteUnlessImplied`, reached in `Counterexamples.AppendToImplied`).
- A node tree key with a leading or trailing slash, which a doubled leading slash, a rename or a
  writer can make, does not survive an archive, and one that ends in a slash and has content cannot be
  archived at all (`NodeState.TarRoundTrip`, reached in `Counterexamples.SlashedKeyIsLost`).
- In `validatePath` the branch for a missing component is never taken: the resolver treats a missing
  component as resolved (`SymlinkResolver.FailureIsAnEntry`), so each of its errors ends the call.
- A local root that does not resolve is kept, and then every path below it gets the error of the root
  (`LocalMedium.Medium.UnresolvedAnswer`). Without a working directory a relative root is taken from `/`
  when it resolves, the empty one being `/` itself (`LocalMedium.EmptyRootIsTop`), and refuses every
  path below it when it does not (`LocalMedium.Medium.ValidatePath`).
- A service accepts ids only below a clean root (`WorkspaceRoots.UncleanRefuses`). At the roots `/` and
  `.` it accepts only ids that clean to the root itself, so no workspace can be created
  (`WorkspaceRoots.RootOnlyRefuses`; `WorkspaceRoots.HexAcceptedExact` says at which roots one can).
- Below a root that is nothing but parent steps the id `..` leads out of the root
  (`WorkspaceRoots.ParentRootEscapes` at the root `..`, `WorkspaceRoots.DirectChildExact` for all
  roots, `WorkspaceService.SwitchOutExact` for the switch). What the service promises about keys, reads
  and writes holds at every root all the same; the constructor puts a default in place of an empty one.


## Model

| member | source | states |
|---|---|---|
| SymlinkResolver.ResolveSound | go/local/medium.go:107-163 | whatever the resolver returns, a cycle report excepted, has a finite derivation of the inductive "resolves to" relation, which knows no cycle detection; with any set of targets already being resolved |
| SymlinkResolver.ResolveComplete | go/local/medium.go:107-163 | a path with a finite derivation is resolved to what it derives, never reported as a cycle, as long as no link now being resolved is derivable at a smaller height |
| SymlinkResolver.DerivesUnique | go/local/medium.go:107-163 | a path derives at most one outcome |
| SymlinkResolver.ResolveExact | go/local/medium.go:107-163 | on every finite file system, cyclic ones included, the resolver returns a path or an I/O error exactly when that is what the path derives |
| SymlinkResolver.CycleExact | go/local/medium.go:107-163 | it reports a cycle exactly when the path derives nothing at all |
| SymlinkResolver.ResolveSettles | go/local/medium.go:107-140 | a result has no symlink and no unreadable entry at any prefix |
| SymlinkResolver.ResolveConcat | go/local/medium.go:107-140 | resolving a longer path is resolving its front and going on from there |
| SymlinkResolver.ResolveIdempotent | go/local/medium.go:107-140 | resolving a result again returns it unchanged |
| SymlinkResolver.ResolveComposes | go/local/medium.go:107-140 | resolving p/x equals resolving resolve(p)/x |
| SymlinkResolver.FailureIsAnEntry | go/local/medium.go:107-163 | a failure is that of an entry which is there and cannot be read; a missing component never makes the resolver fail |
| SymlinkResolver.TargetSlashes | go/local/medium.go:142-163 | a backslash in a link target counts as a slash |
| SymlinkResolver.EntryDecides | go/local/medium.go:107-163 | the entry after a resolved directory decides, whatever is being resolved: missing or plain stays, unreadable is the answer, and a link followed by any rest is what its target resolves to followed by that rest |
| SymlinkResolver.TargetMeans | go/local/medium.go:142-163 | where a link leads: an absolute one to its own components, a relative one below the directory it stands in, `../` below the one above |
| LocalMedium.SplitPathParts | go/local/medium.go:85-98 | the loop keeps the non-empty components, which for a clean absolute path are its components |
| LocalMedium.ResolveSymlinksRecursive | go/local/medium.go:107-140 | the string walk with its shared `seen` set terminates, leaves the set as it was, and returns what Resolve says; a relative path is walked as if it started at / |
| LocalMedium.ResolveSymlinkTarget | go/local/medium.go:142-163 | a link is followed unless its cleaned target is being resolved already; the entry made in `seen` is taken out again |
| LocalMedium.ResolveSymlinksPath | go/local/medium.go:100-105 | a resolution starts from the absolute path, or from what the working directory makes of it when that is relative, with nothing seen |
| LocalMedium.WithinRootByComponents | go/local/medium.go:165-172 | on clean absolute paths the string test is the component-prefix test |
| LocalMedium.ValidateByPrefixes | go/local/medium.go:233-263 | re-resolving after every component equals judging each prefix of the whole path by its own full resolution |
| LocalMedium.ValidateExact | go/local/medium.go:233-263 | with a resolved root a path is allowed exactly when every prefix of root joined with it resolves inside the root; the result is the full resolution of the joined path, symlink-free and at or below the root by components |
| LocalMedium.ValidateRefusal | go/local/medium.go:233-263 | a refusal is that of the first prefix that does not resolve inside the root: an escape if it resolves elsewhere, its own error otherwise |
| LocalMedium.UnresolvedRoot | go/local/medium.go:233-263 | below a root that does not resolve, every path is refused with the error of the root |
| LocalMedium.Medium.UnresolvedAnswer | go/local/medium.go:233-263 | what validatePath answers below such a root: the error of the root, except for the root itself, which is allowed |
| LocalMedium.Medium.RelativeRootAnswer | go/local/medium.go:233-263 | below a root that stayed relative the root itself is allowed and every other path refused: as an escape when its first component resolves, with the error of that otherwise |
| LocalMedium.EmptyRootIsTop | go/local/medium.go:34-79 | without a working directory the empty root resolves to / |
| LocalMedium.Medium.constructor | go/local/medium.go:34-43 | for every working directory, the root is the resolved root when it resolves, and the path built for it otherwise, which is relative only below a relative working directory |
| LocalMedium.Medium.SandboxedPathInside | go/local/medium.go:207-222 | for an absolute root other than / the unresolved sandbox path is the root followed by the components of the cleaned path |
| LocalMedium.Medium.SandboxedAtTop | go/local/medium.go:207-222 | at the root / the empty path is /, a relative path is its components walked from those of the working directory, and an absolute one its own components |
| LocalMedium.Medium.SandboxedNames | go/local/medium.go:207-222 | ordinary names at the root / are those names below the working directory |
| LocalMedium.Medium.AskedIs | go/local/medium.go:233-240 | the parts validatePath goes through are the components of the caller's path with slashes for backslashes |
| LocalMedium.AbsolutePathIs | go/local/medium.go:74-80 | a relative path is walked from the components of the working directory, an absolute one from the top |
| LocalMedium.AbsolutePathOfNames | go/local/medium.go:74-80 | names are taken below a relative working directory too, and stand by themselves below `.` |
| LocalMedium.Medium.ValidatePath | go/local/medium.go:233-263 | for a root other than / the loop over strings returns what Validate decides on components, and refuses everything below a root that stayed relative; at the root / nothing is checked, and for every working directory the answer is the caller's components walked from it, or from the top for an absolute or empty path |
| WorkspaceRoots.WorkspaceDirectoryShape | go/workspace/service.go:351-384 | for every non-empty root, an accepted workspace id leads to the directory of a single name below the root, `..` being a name only where the root is nothing but parent steps, or to the root itself where the root is / or . |
| WorkspaceRoots.WorkspaceDirectoryExact | go/workspace/service.go:351-384 | for every non-empty root, an id is accepted exactly when it is non-empty and, joined and cleaned, is such a directory |
| WorkspaceRoots.DirectoryExact | go/workspace/service.go:351-384 | for every id at every clean root other than / and .: its components are walked from those of the root; it escapes when these do not stay in front, is invalid unless exactly one follows them, and otherwise leads to the root, a slash and that one |
| WorkspaceRoots.NameAcceptedExact | go/workspace/service.go:351-384 | an id that is an ordinary name is accepted exactly below a clean root other than / and ., and its directory is the root, a slash and the name |
| WorkspaceRoots.DirectChildExact | go/workspace/service.go:351-384 | every accepted id leads to a directory directly below the root, with an ordinary name, exactly when the root is not clean (and accepts nothing) or is neither /, nor ., nor made of parent steps |
| WorkspaceRoots.HexAcceptedExact | go/workspace/service.go:156-169 | the hexadecimal id of an identifier is accepted exactly when the root is clean and neither / nor . |
| WorkspaceRoots.HexAt | go/workspace/service.go:156-169 | an id spells each byte of the hash in two lower-case hexadecimal digits, the higher half first |
| WorkspaceRoots.HexInjective | go/workspace/service.go:156-169 | different hashes have different ids |
| WorkspaceRoots.UncleanRefuses | go/workspace/service.go:351-384 | a root that is not clean accepts no id at all |
| WorkspaceRoots.ParentAccepted | go/workspace/service.go:351-384 | below every root made of parent steps the id `..` is accepted and leads out of the root |
| WorkspaceRoots.ParentRootEscapes | go/workspace/service.go:351-384 | with the root `..` the id `..` gives the directory `../..` |
| WorkspaceRoots.RootOnlyRefuses | go/workspace/service.go:156-169 | at the roots / and . the id of every identifier is refused, so no workspace can be created |
| WorkspaceRoots.ResolvedFileBelow | go/workspace/service.go:213-230 | for every root, an accepted file path lies below the files directory of the active workspace, at the clean relative path that the caller's own path walks to |
| WorkspaceRoots.ResolveFileExact | go/workspace/service.go:213-230 | for every caller path: its components are walked from those of the files directory; it is refused unless these stay in front of the result, is no file path when nothing follows them, and otherwise names what follows them |
| WorkspaceRoots.CleanFileResolves | go/workspace/service.go:213-230 | a clean relative path p names exactly the file p below the files directory |
| WorkspaceRoots.ResolvesTo | go/workspace/service.go:213-230 | a path is accepted exactly when it walks to a clean path below the files directory, and names the file at that path |
| WorkspaceRoots.PlacesApart | go/workspace/service.go:213-230 | what belongs to two workspaces of different names never shares a path |
| WorkspaceService.CreateChanges | go/workspace/service.go:156-194 | creating changes no stored file but the key of the new workspace, and that one was not there |
| WorkspaceService.CreateExact | go/workspace/service.go:156-194 | state and answer of a creation at every root where one can succeed: refused without effect where something exists; otherwise exactly the five directories and those above are added, and the key under mode 0600 unless there is none or a file stands above it |
| WorkspaceService.CreatedWorkspace | go/workspace/service.go:156-194 | a creation succeeds only at a clean root other than / and .; it adds one file, the private key of the new id under mode 0600, and the directories config, log, data, files and keys exist |
| WorkspaceService.SwitchChanges | go/workspace/service.go:196-211 | only a successful switch changes the active workspace, to the existing directory the joined id names; no stored path changes |
| WorkspaceService.SwitchExact | go/workspace/service.go:196-211 | at a clean root, an ordinary name becomes the active workspace exactly when its directory exists; the empty id is refused |
| WorkspaceService.SwitchOutExact | go/workspace/service.go:196-211 | with a root of parent steps, switching to `..` succeeds exactly when that directory, outside the root, exists |
| WorkspaceService.WriteConfined | go/workspace/service.go:286-305 | for every non-empty root, a write touches nothing outside the files directory of the active workspace |
| WorkspaceService.CipherIsInvertible | go/workspace/service.go:232-257 | the cipher derived from a stored key has an invertible obfuscator, so what it seals it opens |
| WorkspaceService.WriteExact | go/workspace/service.go:213-305 | state and answer of a write of a clean path p: refused without key, nonce, or place for the file; otherwise the only file changed is files/p, which holds the 24 nonce bytes and then the content, each byte XORed with the hash blocks of the nonce, sealed under the key derived from the stored one, with mode 0644 |
| WorkspaceService.CipherExact | go/workspace/service.go:232-257 | which cipher the active workspace has: the key derived from the stored one, nonces of 24 bytes and the XOR obfuscator; or the reason there is none |
| WorkspaceService.PathRefused | go/workspace/service.go:213-305 | a path that names no file of the active workspace is refused before anything else is looked at: as an escape, or as no file path when it walks to the files directory itself |
| WorkspaceService.ReadExact | go/workspace/service.go:213-284 | answer of a read of a clean path p: what files/p opens to under the derived key, with the mask taken off, or the error in the order of the program |
| WorkspaceService.WriteThenRead | go/workspace/service.go:213-305 | for two clean paths: what is written to one is read there, and what the other answers is as before |
| WorkspaceService.KeyKept | go/workspace/service.go:156-305 | no operation changes or removes a stored private key |
| WorkspaceService.KeyNeverChanges | go/workspace/service.go:156-305 | over every run at every non-empty root, a key once stored stays as it was |
| WorkspaceService.FileKept | go/workspace/service.go:156-305 | an operation that is no successful write to a clean path of a workspace leaves the file there as it is |
| WorkspaceService.ReadYourWrites | go/workspace/service.go:156-305 | over every run of create, switch, read and write at every non-empty root, reading a path of the active workspace returns the last content successfully written there under a path that walks to the same clean path, whatever was written to other paths in between |
| WorkspaceService.ReadOnlyWrites | go/workspace/service.go:156-305 | when no file of any workspace was there at the start, a read succeeds with a content exactly when that was the last one written to the same clean path |
| WorkspaceObject.Service.CreateWorkspace | go/workspace/service.go:156-194 | the method does, and answers, what the Create step of the state machine says, failures half-way included |
| WorkspaceObject.Service.EnsureDirectories | go/workspace/service.go:171-179 | the five subdirectories are ensured in order until one fails |
| WorkspaceObject.Service.SwitchWorkspace | go/workspace/service.go:196-211 | the active id changes only when the workspace directory exists |
| WorkspaceObject.Service.WorkspaceCipherSigil | go/workspace/service.go:232-257 | the cipher comes from the stored key of the active workspace, or the error says why not |
| WorkspaceObject.Service.ReadWorkspaceFile | go/workspace/service.go:259-284 | the method answers what the read step says, errors in the order the program finds them |
| WorkspaceObject.Service.WriteWorkspaceFile | go/workspace/service.go:286-305 | the method does, and answers, what the write step says |
| WorkspaceObject.New | go/workspace/service.go:113-153 | the root directory is ensured; there is a service exactly when the root is no file |
| JsonIndent.IndentJson | go/sigil/sigils.go:369-395 | the loop writes what Indented says |
| JsonIndent.WriteJsonIndent | go/sigil/sigils.go:409-413 | two spaces for each level |
| JsonIndent.WriteJsonStringByte | go/sigil/sigils.go:415-424 | inside a string a byte is copied, and the escape state is that of the lexer |
| JsonIndent.WriteJsonStructuralByte | go/sigil/sigils.go:426-448 | outside strings a byte is written with the newline and spaces its kind calls for, and the level changes with it |
| JsonIndent.WriteJsonOpenContainer | go/sigil/sigils.go:450-458 | an opener breaks the line unless its closer follows |
| JsonIndent.WriteJsonCloseContainer | go/sigil/sigils.go:460-468 | a closer breaks the line unless its opener precedes |
| JsonIndent.IndentKeepsMeaning | go/sigil/sigils.go:369-468 | for every byte string, deleting spaces and newlines outside string literals gives the same result before and after indenting |
| JsonIndent.IndentIsLevel | go/sigil/sigils.go:426-468 | for balanced input the program's indent is at every point the number of open non-empty containers |
| JsonIndent.IndentFollowsNesting | go/sigil/sigils.go:369-468 | for balanced input the output is, byte by byte, written out by the nesting level: after a comma a newline and two spaces for each level, after a colon one space, after the opener of a non-empty container and before its closer a newline and the spaces of the level; the indent ends at 0 |
| JsonValues.IndentLaysOut | go/sigil/sigils.go:369-468 | for every JSON value, the text written without white space is indented to the text of the same value with one element or member on each line, two spaces for each container around it, one space after a colon, and empty containers closed up |
| JsonIndent.LevelAtBracket | go/sigil/sigils.go:426-468 | the nesting level changes at a bracket exactly when its container is not empty |
| JsonIndent.SpacesAreTwicePerLevel | go/sigil/sigils.go:409-413 | the indentation of a level is exactly twice that many spaces |
| JsonIndent.UnbalancedEdges | go/sigil/sigils.go:426-468 | brackets without a partner: one at either end of the text stands by itself, and the indent may fall below zero |
| MemoryState.SameKeysKept | go/io.go:297-492 | every operation, on any paths, self and nested renames included, keeps the key sets of contents, modes and times equal |
| MemoryState.SameKeysReachable | go/io.go:297-492 | over every run from the empty medium the three key sets are equal |
| MemoryTree.WriteModeTree | go/io.go:297-320 | a write on a clean path keeps the tree, whether it succeeds or not |
| MemoryTree.CloseWriterTree | go/io.go:607-617 | closing a writer, which does not look at the ancestors, keeps the tree exactly when none of them is a file or the close is refused |
| MemoryTree.EnsureDirTree | go/io.go:322-331 | ensuring a directory, which does not look at the ancestors either, keeps the tree exactly when none of them is a file or the call is refused |
| MemoryTree.DeleteTree | go/io.go:339-355 | deleting keeps the tree |
| MemoryTree.DeleteAllTree | go/io.go:381-418 | deleting everything below a path keeps the tree |
| MemoryTree.RenameFileTree | go/io.go:432-448 | renaming a file keeps the tree exactly when the target is no directory and lies in stored directories, or is the file itself |
| MemoryTree.RenameDirectoryTree | go/io.go:450-493 | for every pair of clean paths, renaming a directory keeps the tree in every map order exactly when it is onto itself, or the target does not lie below it, is no file, lies in stored directories, no moved path meets a path of the other kind that stays, and no directory with something in it takes the place of a moved one |
| MemoryTree.RenameDirectoryInOrder | go/io.go:450-493 | where no directory with something in it takes the place of a moved one, the rest of that condition decides for each map order by itself |
| MemoryTree.BreakingOrders | go/io.go:450-493 | where one does, some map order leaves entries without their directory |
| MemoryTree.RenameOntoItselfDeletes | go/io.go:450-493 | renaming a directory onto itself deletes it with everything below it, in every map order |
| MemoryTree.RenameIntoItselfBreaks | go/io.go:450-493 | renaming a directory to a path below itself never leaves a tree, in any map order |
| MemoryTree.OffLineMovesApart | go/io.go:450-493 | between paths that are not on one line no move ever runs into another |
| MemoryTree.ApartChainsEmpty | go/io.go:450-493 | where no move runs into another, no directory takes the place of a moved one |
| MemoryTree.TreeStep | go/io.go:239-493 | for every operation on clean paths, self and nested renames included, the exact condition under which it keeps the tree whatever the map order |
| MemoryTree.FreshTargetIsCareful | go/io.go:420-493 | a rename to a free path whose parents are stored directories meets that condition exactly when it does not move a directory into itself |
| MemoryTree.TreeReachable | go/io.go:239-493 | over every run of such operations from the empty medium files and directories stay disjoint and every ancestor is a stored directory |
| MemoryTree.TreeDirectories | go/io.go:251-277 | in a tree the prefix search finds a directory exactly when it is stored |
| MemoryObserved.WriteObserved | go/io.go:297-320 | exactly when a write succeeds; then content, size, mode and time read back, the directories above exist, and nothing else has changed |
| MemoryObserved.EnsureDirObserved | go/io.go:322-331 | exactly when ensuring succeeds, and exactly which directories exist afterwards |
| MemoryObserved.DeleteObserved | go/io.go:339-355 | exactly when deleting is refused and when nothing is found; otherwise the path and nothing else is gone |
| MemoryObserved.DeleteAllObserved | go/io.go:381-418 | whether the path existed is reported, and exactly it and what is below it is gone |
| MemoryObserved.DeleteStatus | go/io.go:339-379 | what deleting answers on every medium, tree or not, and every path |
| MemoryObserved.PrefixesMean | go/io.go:251-277 | what lies below a path: what starts with it and one slash, also where the path ends in one |
| MemoryObserved.StatObserved | go/io.go:734-750 | what Stat says of each path of a tree: size, mode and time of a file, mode and no time of a directory, or nothing |
| MemoryObserved.CloseObserved | go/io.go:607-617 | exactly when closing a writer succeeds; then what it collected reads back with mode and time, exactly the directories above are added, and no other file has changed |
| MemoryObserved.OthersObserved | go/io.go:297-418 | what is known of any other file is left as it was by writing, ensuring and deleting |
| MemoryObserved.RenameStatus | go/io.go:420-430 | a rename succeeds exactly for what is stored |
| MemoryObserved.RenameFileObserved | go/io.go:432-448 | a renamed file reads back at the new path with its content, size, mode and time, is gone from the old one, and nothing else has changed |
| MemoryObserved.RenameDirectoryObserved | go/io.go:450-493 | of a directory renamed off its own line: what was at from/rest is at to/rest with content, mode and time, over what was there; nothing is left at from, and nothing elsewhere has changed |
| PathTree.AncestorsAreUnder | go/io.go:239-249 | for a clean relative path the directories met by walking up are exactly those it starts with |
| PathTree.PathDirShorter | go/io.go:239-249 | the walk up ends: each parent is shorter until it is stuck |
| PathLaws.AncestorsBelow | go/io.go:239-249 | walking up from a name in a directory meets that directory and then what lies above it; from a name alone, nothing |
| PathLaws.BaseMeans | go/io.go:734-750 | the base is what follows the last slash, slashes at the end not counted, and `.` for the empty path |
| PathLaws.JoinMeans | go/workspace/workspace.go:287-298 | joining passes over empty parts, and of nothing makes nothing |
| PathLaws.PrefixMeans | go/workspace/workspace.go:269 | a text has a prefix exactly when it is the prefix and a rest, and trimming the prefix leaves the rest |
| PathLaws.SuffixMeans | go/io.go:251-277 | a text has a suffix exactly when it is a front and the suffix |
| PathLaws.SlashesMean | go/workspace/workspace.go:262 | every backslash becomes a slash and nothing else changes |
| PathLaws.CleanDropsDots | go/workspace/workspace.go:277 | cleaning drops empty parts and dots |
| PathLaws.CleanCancels | go/workspace/workspace.go:277 | and a name with the parent step after it |
| PathLaws.CleanTop | go/local/medium.go:74-80 | and parent steps at the top of an absolute path |
| PathLaws.CleanKeeps | go/workspace/workspace.go:277 | and keeps every path that has none of these |
| PathLaws.CleanIdempotent | go/workspace/workspace.go:277 | what is clean stays as it is |
| MemoryRename.RenameDirectorySubstitutes | go/io.go:450-493 | when neither path lies under the other, the in-place rename is the simultaneous prefix substitution on contents, modes, times and directories, in every order of its loops |
| MemoryRename.RenameDirectoryExact | go/io.go:450-493 | for all paths, nested and equal ones included: it is the simultaneous substitution in every order exactly when nothing to be moved goes where another thing to be moved still is |
| MemoryRename.RenameDirectoryOutside | go/io.go:450-493 | everything outside both subtrees is unchanged |
| MemoryRename.RenameFileExact | go/io.go:432-448 | a renamed file arrives exactly when the two paths differ; renamed onto itself it is lost |
| MemoryRename.NestedRenameOrderShows | go/io.go:460-479 | a concrete nested rename whose result depends on the order of the map |
| PrefixMaps.MoveAllSubstitutes | go/io.go:460-479 | moving keys one after the other is the substitution when no move runs into another |
| PrefixMaps.SubstitutedMeans | go/node/node.go:522-547 | the substitution, by what follows the prefixes: what was under one is under the other with its value, and what has neither is as it was |
| PrefixMaps.ChainLoses | go/io.go:460-479 | when one does, some order loses a key |
| PrefixMaps.MoveAllBounds | go/io.go:460-479 | which keys are there after the moves at least and at most, whatever the order, chained moves included |
| PrefixMaps.LosingOrder | go/io.go:460-479 | for two moves in a chain, an order that takes the second key away for good while another key arrives |
| MemoryListing.ListsExact | go/io.go:634-669 | on every medium a path can be listed exactly when it is the root or a directory that exists |
| MemoryListing.ListingMatchesStat | go/io.go:634-750 | in a well-formed medium each entry's kind, size, mode and time are those Stat reports for the joined path |
| MemoryListing.ListingNames | go/io.go:634-722 | the names are exactly the first components of what is stored below the directory |
| MemoryListing.ListingChildren | go/io.go:634-722 | in a tree a name is listed exactly when something is stored at the directory, a slash and the name |
| MemoryListing.ListingUnique | go/io.go:634-722 | in a well-formed medium a directory has one listing, whatever the order of the map loops |
| MemoryListing.SortedIsListing | go/io.go:634-654 | what the loops collected, sorted, has strictly increasing names |
| DirEntries.SortByNameCorrect | go/internal/fsutil/direntry.go:6-16 | the sort gives a sorted permutation and keeps the order of equal names |
| DirEntries.LessExact | go/internal/fsutil/direntry.go:6-16 | the order is that of Go strings: a proper prefix first, otherwise the first difference decides |
| DirEntries.SortDirEntriesByName | go/internal/fsutil/direntry.go:6-16 | the in-place insertion sort computes that sort |
| MemoryMedium.MemoryMedium.EnsureAncestorDirectories | go/io.go:239-249 | adds exactly the directories of the walk up, and nothing else changes |
| MemoryMedium.MemoryMedium.DirectoryExistsAt | go/io.go:251-277 | finds a stored directory or one implied by a prefix |
| MemoryMedium.MemoryMedium.DirectoryHasChildren | go/io.go:357-379 | finds a stored path below the directory |
| MemoryMedium.MemoryMedium.WriteFileMode | go/io.go:297-320 | the new state and status of a write, refused below a file and on a directory |
| MemoryMedium.MemoryMedium.EnsureDirectory | go/io.go:322-331 | the new state and status |
| MemoryMedium.MemoryMedium.DeletePath | go/io.go:339-355 | the new state and status; a directory with children is refused |
| MemoryMedium.MemoryMedium.DeleteTree | go/io.go:381-418 | the path and everything below it is gone, and whether anything was there is reported |
| MemoryMedium.MemoryMedium.RenamePath | go/io.go:420-430 | a file, else a directory, is renamed, in some order of the maps |
| MemoryMedium.MemoryMedium.RenameFileTo | go/io.go:432-448 | content, mode and time move |
| MemoryMedium.MemoryMedium.RenameDirectoryTo | go/io.go:450-458 | the directory itself, then files and directories below it, in some order |
| MemoryMedium.MemoryMedium.RenameFilesWithPrefix | go/io.go:460-479 | the loop moves key after key, in some order that visits each once |
| MemoryMedium.MemoryMedium.RenameDirectoriesWithPrefix | go/io.go:481-493 | the same for directories |
| MemoryMedium.MemoryMedium.AddFileEntries | go/io.go:671-693 | one entry for every first component a file shows |
| MemoryMedium.MemoryMedium.AddDirectoryEntries | go/io.go:695-722 | one more for every first component only directories show |
| MemoryMedium.MemoryMedium.List | go/io.go:634-669 | a listing exactly for the root, a stored directory, or a path with something below it |
| MemoryMedium.MemoryMedium.StatPath | go/io.go:734-750 | a file first, then a directory, else not found |
| MemoryMedium.MemoryWriteCloser.Append | go/io.go:524-536 | an appending writer starts with the content and mode the path has |
| MemoryMedium.MemoryWriteCloser.Close | go/io.go:607-617 | the new state and status of the medium |
| MemoryMedium.MemoryFile.Read | go/io.go:572-582 | fills as much of the buffer as there is content left, and reports the end only when there is none |
| MemoryMedium.MemoryFile.ReadAll | go/io.go:572-582 | reading to the end with any non-empty buffers yields exactly what was not yet read |
| NodeState.RenameBack | go/node/node.go:510-547 | renaming to an empty different path and back restores the tree, nested paths included |
| NodeState.RenameFileExact | go/node/node.go:510-520 | a file renamed arrives with its content exactly when the two paths differ; renamed onto itself it is gone |
| NodeState.ToTarExact | go/node/node.go:73-101 | there is no archive, in whatever order, exactly when a key holds a NUL, or ends in a slash and has content |
| NodeState.TarRoundTrip | go/node/node.go:73-143 | a tree can be archived and the archive gives it back, in whatever order it was written, exactly when every key is non-empty with no leading slash, no trailing slash and no NUL |
| NodeState.CorruptFails | go/node/node.go:115-143 | loading fails exactly when some entry cannot be read |
| NodeObserved.ArchiveObserved | go/node/node.go:73-101 | an archive has one entry for each file, with its key, content and time |
| NodeObserved.LoadStores | go/node/node.go:115-143 | a loaded tree holds under each key the content and time of the last entry whose name is that key, with or without one slash in front |
| NodeObserved.LoadKeeps | go/node/node.go:115-143 | and nothing new under a key where no entry lands |
| NodeObserved.AddObserved | go/node/node.go:57-71 | a name is stored without one leading slash; empty names and names that end in a slash are ignored |
| NodeObserved.StatObserved | go/node/node.go:336-358 | what Stat says of a path: a file with its size, time and mode 0444, the root, a directory with something in it under mode 0555, or nothing |
| NodeObserved.RenameFileObserved | go/node/node.go:510-520 | a renamed file is at the new path as it was, gone from the old one, and the others are as they were |
| NodeObserved.RenameDirectoryObserved | go/node/node.go:510-547 | of a renamed directory: what was at from/rest is at to/rest, nothing else arrives, and what lies below neither is as it was |
| NodeObject.Node.AddData | go/node/node.go:57-71 | stores under the name without its leading slash, and ignores empty names and directory names |
| NodeObject.Node.Write | go/node/node.go:427-435 | refuses the empty path and `.`, else adds |
| NodeObject.Node.Delete | go/node/node.go:473-482 | one file is gone, and whether it was there is reported |
| NodeObject.Node.DeleteAll | go/node/node.go:484-508 | the path and everything below it is gone, in any map order |
| NodeObject.Node.RenamePath | go/node/node.go:510-547 | the result is the simultaneous prefix substitution for every map order, nested paths included, and each file's name stays its key |
| NodeObject.Node.CollectMoves | go/node/node.go:528-537 | the first phase notes every move and renames the file objects |
| NodeObject.Node.RenameBelow | go/node/node.go:522-547 | deleting the old keys and then adding the new ones is the substitution |
| NodeObject.Node.ToTar | go/node/node.go:73-101 | one entry for each file, written from the name the file carries, which is its key, until the tar writer refuses one |
| NodeObject.Node.LoadTar | go/node/node.go:115-143 | replaces the tree by what the archive holds, or, when an entry cannot be read, leaves it unchanged |
| NodeObject.NodeWriter.Close | go/node/node.go:616-627 | stores the buffer under the path as it is, trailing slash or not |
| NodeObject.Node.StatAt | go/node/node.go:336-358 | a file first, then the root, then a directory with something in it |
| NodeObject.Node.ReadDir | go/node/node.go:360-412 | the loop takes the first key it meets for each first component, then sorts |
| NodeListing.ReadDirNames | go/node/node.go:360-412 | where the directory prefix is no key, the names are the first components of the keys below it, strictly increasing, for every map order |
| NodeListing.ReadDirNamesExact | go/node/node.go:360-412 | that the names are those for every map order holds exactly when the prefix itself is no key |
| NodeObserved.ListingObserved | go/node/node.go:360-412 | a name is listed exactly when a file of that name is in the directory or something lies deeper below it, as that file with size, time and mode 0444, or as a directory under mode 0555 |
| NodeObserved.ListedPrefix | go/node/node.go:360-370 | the listing of a path goes through what starts with the path and a slash, that of the root through everything |
| NodeListingOrder.ReadDirExact | go/node/node.go:360-412 | for every tree, the listing is the same for every map order exactly when no file has something below it and a key that is the prefix itself looks like every child of its name |
| NodeListingStat.ReadDirMatchesStat | go/node/node.go:336-412 | for every tree, the entries agree for every map order with what Stat, which trims and cleans, says of prefix and name exactly when for each key below the prefix that path holds a file of the same size and time, or for a directory entry a directory under a non-empty name |
| NodeListingStat.ReadDirMatchesStatPlain | go/node/node.go:336-412 | for a prefix without a leading slash that is no key, that is exactly when no file has something below it, no component there is empty, and at the top no file is called `.` |
| NodeObject.Node.CopyTo | go/node/node.go:271-310 | a file, or the files of a directory one after the other until a write fails |
| NodeCopy.CopyExact | go/node/node.go:271-310 | for every tree, target, source, destination and map order, copying a directory completes exactly when no copied path is a directory or lies below a file of the target and none lies below another; the target then has every file with the default mode and the directories above, and nothing else has changed; otherwise it has those copied before the first refusal |
| NodeCopy.CopyFileExact | go/node/node.go:271-291 | copying a file succeeds exactly when its one path is no directory and not below a file |
| NodeObserved.CopyObserved | go/node/node.go:287-308 | a copied file goes to the destination, a slash, and its path below the source; a key that is the source with its slash goes to the destination itself |
| NodeObserved.CopiedObserved | go/node/node.go:287-299 | the files copied are the source itself and those below it |
| NodeCopy.SubtreeIsApart | go/node/node.go:271-310 | a subtree in which no file lies below a file meets that condition at every free destination, each key at a path of its own |
| ScopedState.CleanedIsClean | go/workspace/workspace.go:258-285 | whatever the caller passes, what gets through is a clean relative path, or the root where that is allowed |
| ScopedPaths.CleanedExact | go/workspace/workspace.go:258-285 | for every caller path: with slashes for backslashes and trimmed, it is refused when it starts with a slash or has a part `..`; otherwise it becomes exactly its parts that are neither empty nor a dot, in order, or the root when none is left |
| ScopedPaths.TrimMeans | go/workspace/workspace.go:262 | trimming takes all white space off both ends and nothing else |
| ScopedPaths.SpacesAre | go/workspace/workspace.go:262 | white space is that of Unicode, code point by code point |
| ScopedPaths.PlainIsKept | go/workspace/workspace.go:258-285 | a clean path without backslash and outer white space is kept as it is |
| ScopedState.ScopedPathBelow | go/workspace/workspace.go:308-317 | the scoped path is the root, a slash and the cleaned path: it cannot leave the root |
| ScopedSimulation.ScopedStep | go/workspace/workspace.go:335-390 | below a root that is stored with its ancestors, each operation on a clean non-root path has the outcome and the effect it would have on a private medium, and changes nothing outside the root |
| ScopedSimulation.ScopedRun | go/workspace/workspace.go:300-390 | a run through a scoped medium is, below the root, the same run of a private medium |
| ScopedSimulation.WorkspacesApart | go/workspace/workspace.go:300-390 | what one root's operations leave unchanged includes everything below a root that is not in the same line |
| ScopedReads.ReadIn | go/workspace/workspace.go:319-328 | reading through the root reads the private medium |
| ScopedReads.StatIn | go/workspace/workspace.go:403-412 | so does Stat, the name included |
| ScopedReads.ExistsIn | go/workspace/workspace.go:469-483 | and so do the existence tests |
| ScopedReads.ListingIn | go/workspace/workspace.go:392-401 | a listing through the root is a listing of the private medium; the root itself lists its top |
| ScopedReads.ListsIn | go/workspace/workspace.go:392-401 | the same directories can be listed |
| ScopedRequests.ForwardedIsScoped | go/workspace/workspace.go:308-390 | on raw caller paths, the scoped medium refuses what cleaning refuses, for the same reason, and otherwise passes on the cleaned request with the root in front |
| ScopedPaths.PlainForwarded | go/workspace/workspace.go:308-390 | a call on clean paths is passed on as the same call on the root, a slash and those paths |
| ScopedPaths.Refusals | go/workspace/workspace.go:308-390 | which calls are refused and why: on the empty path, except ensuring the root, and on paths that start with a slash or lead up |
| ScopedPaths.PlainWrite | go/workspace/workspace.go:335-342 | a write at a clean path p stores at the root, a slash and p, and leaves what any other clean path reads as it was |
| ScopedRequests.ScopedCallIsPrivate | go/workspace/workspace.go:300-390 | on raw caller paths, every call has the answer and effect of the same call of a private medium |
| ScopedRequests.SharedRun | go/workspace/workspace.go:300-390 | through every interleaving of calls of any number of scoped media, each acts on its own private medium and none touches another's |
| ScopedWorkspaces.CreateExact | go/workspace/workspace.go:52-76 | creating succeeds exactly for a valid name at or below whose path nothing is stored |
| ScopedPaths.BaseOutcome | go/workspace/workspace.go:29-49 | answer and state of making a base, case by case; the empty base is the top of the medium and needs nothing |
| ScopedPaths.CreateOutcome | go/workspace/workspace.go:52-76 | answer and state of a creation, case by case: the root of a workspace is the base, a slash and its name |
| ScopedPaths.NameExact | go/workspace/workspace.go:244-256 | exactly which names are accepted, and the reason for the others |
| ScopedPaths.PlainNamed | go/workspace/workspace.go:109-140 | what writing and reading by name answer and leave behind for clean paths, case by case: the file is at the base, the name and the path, under mode 0644 |
| ScopedPaths.NamedRefusals | go/workspace/workspace.go:52-235 | what is wrong with a call by name is reported in order: the name, the workspace, the path |
| ScopedPaths.PlainFilePath | go/workspace/workspace.go:196-235 | the file of a named workspace is the base, the name and the clean path, when the workspace exists |
| ScopedWorkspaces.CreateIsFresh | go/workspace/workspace.go:52-76 | a new workspace starts as the empty private medium, with its root anchored |
| ScopedWorkspaces.NewBaseIsHome | go/workspace/workspace.go:29-49 | the base is a safe home for workspaces exactly when none of its ancestors is a file, which the program does not check |
| ScopedWorkspaces.RootsApart | go/workspace/workspace.go:222-256 | different names have roots neither of which lies in the other |
| ScopedWorkspaces.WorkspaceRun | go/workspace/workspace.go:29-390 | over every run of creations and calls, in every interleaving, a workspace starts empty and changes by its own calls alone, as a private medium would |
| ScopedWorkspaces.WriteNamedIsScoped | go/workspace/workspace.go:127-140 | writing by workspace name is writing through the workspace's scoped medium |
| ScopedWorkspaces.ReadNamedIsPrivate | go/workspace/workspace.go:109-124 | reading by workspace name reads the cleaned path of the private medium |
| ScopedWorkspaces.WriteThenReadNamed | go/workspace/workspace.go:109-140 | what is written by name is read back by name, and no other workspace's files are affected |
| ScopedObjects.ScopedMedium.Read | go/workspace/workspace.go:319-328 | the content at the scoped path |
| ScopedObjects.ScopedMedium.WriteMode | go/workspace/workspace.go:335-342 | the call of the state model, on the caller's path |
| ScopedObjects.ScopedMedium.EnsureDir | go/workspace/workspace.go:344-351 | the call of the state model; the only changing call that takes the root |
| ScopedObjects.ScopedMedium.IsFile | go/workspace/workspace.go:353-359 | whether there is a file at the scoped path |
| ScopedObjects.ScopedMedium.Delete | go/workspace/workspace.go:361-368 | the call of the state model |
| ScopedObjects.ScopedMedium.DeleteAll | go/workspace/workspace.go:370-377 | the call of the state model |
| ScopedObjects.ScopedMedium.Rename | go/workspace/workspace.go:379-390 | the call of the state model; the old path is cleaned first |
| ScopedObjects.ScopedMedium.List | go/workspace/workspace.go:392-401 | the listing at the scoped path |
| ScopedObjects.ScopedMedium.Stat | go/workspace/workspace.go:403-412 | Stat at the scoped path |
| ScopedObjects.ScopedMedium.Exists | go/workspace/workspace.go:469-475 | existence at the scoped path |
| ScopedObjects.ScopedMedium.IsDir | go/workspace/workspace.go:477-483 | directory test at the scoped path |
| ScopedObjects.ScopedMedium.Create | go/workspace/workspace.go:425-434 | a writer of the medium at the scoped path |
| ScopedObjects.NewWorkspace | go/workspace/workspace.go:29-49 | the cleaned base is ensured unless it is empty |
| ScopedObjects.Workspace.CreateWorkspace | go/workspace/workspace.go:52-76 | the result and new state of the state model |
| ScopedObjects.Workspace.SwitchWorkspace | go/workspace/workspace.go:79-96 | the current name changes exactly when the workspace directory exists |
| ScopedObjects.Workspace.WorkspaceFilePath | go/workspace/workspace.go:196-235 | the checks in the program's order |
| ScopedObjects.Workspace.ReadWorkspaceFile | go/workspace/workspace.go:109-124 | the result of the state model |
| ScopedObjects.Workspace.WriteWorkspaceFile | go/workspace/workspace.go:127-140 | the result and new state of the state model |
| ScopedObjects.Workspace.ListWorkspaceFiles | go/workspace/workspace.go:143-158 | a listing of the directory, or the reason there is none |
| Obfuscators.PermutationIsBijection | go/sigil/crypto_sigil.go:133-156 | for every hash, length and entropy the permutation is a bijection on 0..n-1 |
| Obfuscators.GeneratePermutation | go/sigil/crypto_sigil.go:133-156 | the in-place Fisher-Yates loops compute the permutation |
| Obfuscators.PermutationIsShuffled | go/sigil/crypto_sigil.go:133-156 | the permutation is the last of n states: the first is the identity, and each is the one before with position i, from n-1 down to 1, exchanged with the position that the first 8 bytes of the hash of seed and i name modulo i+1 |
| Obfuscators.AsciiIs | go/sigil/crypto_sigil.go:133-160 | the labels in the seeds are their characters, byte by byte |
| Obfuscators.EveryPermutationDrawn | go/sigil/crypto_sigil.go:133-156 | no permutation is out of reach: each is drawn for some hash |
| Obfuscators.NumberOfBigEndian | go/sigil/crypto_sigil.go:64-85 | counters below 2^64 are encoded so that decoding gives them back, so different blocks hash different counters |
| Obfuscators.ShuffleInverse | go/sigil/crypto_sigil.go:89-131 | shuffle-mask obfuscation and deobfuscation are inverse in both directions |
| Obfuscators.ShuffleObfuscateAt | go/sigil/crypto_sigil.go:89-110 | byte i of the result is the data byte at the permuted place, XORed with the hash block byte of that place under the seed entropy and `mask` |
| Obfuscators.ShuffleDeobfuscateAt | go/sigil/crypto_sigil.go:112-131 | and the other direction puts it back there and takes the mask off |
| Obfuscators.ShuffleObfuscateBytes | go/sigil/crypto_sigil.go:89-110 | the mask and gather loops compute the obfuscation |
| Obfuscators.ShuffleDeobfuscateBytes | go/sigil/crypto_sigil.go:112-131 | the scatter and unmask loops compute the deobfuscation |
| Obfuscators.DeriveStream | go/sigil/crypto_sigil.go:64-85 | the block loop ends and byte i is byte i mod 32 of the hash of the seed and the counter i/32; the mask loop at 158-179 is the same |
| Obfuscators.KeyStreamPrefix | go/sigil/crypto_sigil.go:64-179 | a shorter stream is a prefix of a longer one |
| Obfuscators.XorObfuscateInvolution | go/sigil/crypto_sigil.go:44-62 | XOR obfuscation undoes itself |
| Obfuscators.XorObfuscateBytes | go/sigil/crypto_sigil.go:44-62 | byte i is data byte i XOR byte i mod 32 of the hash of entropy and counter i/32; zero bytes come out as the key stream |
| Obfuscators.XorTransform | go/sigil/crypto_sigil.go:55-62 | byte i of what the loop gives is data byte i XOR byte i mod 32 of the hash of entropy and counter i/32 |
| Sigils.PipelineLawful | go/sigil/sigil.go:19-46 | for any list of lawful sigils Untransmute undoes every successful Transmute, nil data included |
| Sigils.TransmuteLoop | go/sigil/sigil.go:19-32 | the loop applies the sigils first to last and stops at the first error |
| Sigils.TransmuteStages | go/sigil/sigil.go:19-32 | every sigil gets what the one before it made, the first the data; the answer is what the last made or the error of the first that fails |
| Sigils.UntransmuteLoop | go/sigil/sigil.go:34-46 | the loop applies them last to first |
| Sigils.UntransmuteStages | go/sigil/sigil.go:34-46 | the same from the last sigil to the first |
| Sigils.ReverseIn | go/sigil/sigils.go:28-42 | the loop puts byte n-1-i at i and keeps nil |
| Sigils.ReverseLawful | go/sigil/sigils.go:28-49 | reversing is lawful |
| Sigils.ObfuscatorsInvertible | go/sigil/crypto_sigil.go:44-131 | both obfuscators are invertible |
| Sigils.ObfuscatorsAt | go/sigil/crypto_sigil.go:44-131 | what each of the two obfuscators puts at position i |
| Sigils.NewChaChaPolySigil | go/sigil/crypto_sigil.go:225-258 | there is a cipher exactly for a 32-byte key; it holds a copy of that key and the obfuscator given, or the XOR one in its place |
| Sigils.CipherRoundTrip | go/sigil/crypto_sigil.go:260-336 | Out undoes every successful In, for any sound AEAD, any invertible obfuscator and any nonce |
| Sigils.CipherMessage | go/sigil/crypto_sigil.go:260-293 | exactly when sealing succeeds; the message is the nonce drawn, 24 bytes unless 12 are asked for, and then the data, obfuscated under the nonce, sealed under key and nonce |
| Sigils.CipherRefusals | go/sigil/crypto_sigil.go:260-336 | what a cipher that cannot work answers, in the order of the program: no key, nothing to do, a wrong nonce size, a wrong key size |
| Sigils.CipherOpens | go/sigil/crypto_sigil.go:295-336 | what opening answers for every message: too short, not accepted by the cipher, or the opened bytes with the obfuscation undone |
| Sigils.CipherLawful | go/sigil/crypto_sigil.go:260-336 | so the cipher is a lawful sigil |
| Sigils.NonceInFront | go/sigil/crypto_sigil.go:260-377 | the drawn nonce is what NonceFromCiphertext reads off the front |
| CubeState.CubeWriteSeals | go/cube/cube.go:90-104 | a write stores, under the same path, content that the layers open to what was written, or changes nothing |
| CubeState.LayerWrites | go/cube/cube.go:90-104 | what each layer of a cube hands to the medium below: the nonce drawn and then the content, obfuscated under the nonce, sealed under key and nonce; nothing when there is no whole nonce |
| CubeState.LayerReads | go/cube/cube.go:74-88 | what each layer makes of what the medium below reads: the error of that, a refusal when the message is too short or not accepted by the cipher, or the opened content |
| CubeState.CubeWriteMirrors | go/cube/cube.go:90-104 | on a cube that mirrors a bare medium a write has the bare medium's status and the two still mirror each other |
| CubeState.CubeAppendMirrors | go/cube/cube.go:185-198 | append-then-close is the write of the old plaintext followed by the appended bytes |
| CubeState.AppendIsWriteUnlessImplied | go/cube/cube.go:185-198 | against a plain write of old content plus more, exactly one case differs: appending to a directory that exists only by what lies below it is refused |
| CubeState.CubeStepMirrors | go/cube/cube.go:74-198 | every operation keeps the mirror and has the same status |
| CubeState.CubeReadsLikeBare | go/cube/cube.go:34-198 | over every run from the empty medium a cube, or cubes stacked to any depth, reads the same as the bare medium |
| CubeState.NewCubeIsGood | go/cube/cube.go:51-67 | a cube made from a 32-byte key is one the theorems speak of |
| CubeMedium.Medium.Read | go/cube/cube.go:74-88 | reads and opens, or says why not |
| CubeMedium.Medium.WriteMode | go/cube/cube.go:96-104 | seals and writes, or changes nothing |
| CubeMedium.Medium.Existing | go/cube/cube.go:185-198 | what an appending writer starts with |
| CubeMedium.CubeWriteCloser.Close | go/cube/cube.go:292-299 | seals what was collected, with the default mode for 0 |
| CubeMedium.AppendAndClose | go/cube/cube.go:185-299 | append, write and close in one go are the append of the state model |
| ArchiveWalk.ChildPathOf | go/cube/cube.go:443-456 | the child path is parent and name joined, except that a child named like its top-level parent is taken for the parent |
| ArchiveWalk.ChildPathEdges | go/cube/cube.go:443-456 | an empty name, a dot and a slash stand for the directory itself, and a name that is already a path below it stays that path |
| ArchiveWalk.WalkSound | go/cube/cube.go:469-490 | the walk of a tree with no such child never fails, visits only files below the directory, each once, all of them if it completes, and completes when there is room for one nested call for each directory |
| ArchiveWalk.ConfusedStuck | go/cube/cube.go:443-490 | the walk of a directory with such a child never completes |
| ArchiveWalk.ArchiveExact | go/cube/cube.go:458-490 | archiving can complete exactly when no top-level directory holds a child of its own name, and what it collects is then exactly the path-to-content map, each file once |
| ArchiveExtract.ValidatedExact | go/cube/cube.go:548-580 | exactly which raw entry names are accepted and which are passed over; an accepted one becomes its clean relative path, so nothing is written outside the destination |
| ArchiveExtract.ValidatedClean | go/cube/cube.go:548-580 | a clean relative name is its own entry name unless it holds a backslash |
| ArchiveExtract.ItemWritten | go/cube/cube.go:521-580 | what writing one entry does: the file at its path under mode 0644 unless something is in the way, nothing for an empty name or a directory, a refusal for names that lead outside |
| ArchiveExtract.WritesAll | go/cube/cube.go:521-540 | files of a tree are written to any medium, in any order, up to the first it does not accept: one whose name holds a backslash, is a directory there, or lies below a file there |
| ArchiveExtract.ExtractExact | go/cube/cube.go:500-540 | extracting a tree into any medium, with its directories listed in any order, completes exactly when the medium accepts every file; it then holds those files and the directories above them besides what it held, and otherwise only some of them |
| ArchiveExtract.EmptyAccepts | go/cube/cube.go:521-540 | an empty medium accepts the files exactly when no name holds a backslash |
| ArchiveExtract.PackUnpack | go/cube/cube.go:458-540 | packing a tree and unpacking it into any medium adds the path-to-content map to it, under the same exact condition |
| ArchiveObjects.AddMediumPath | go/cube/cube.go:469-490 | the recursion over an in-memory medium is such a walk, and the data node gets what it visits |
| ArchiveObjects.ArchiveMedium | go/cube/cube.go:458-467 | completing means that the data node holds exactly the files |
| ArchiveObjects.WriteDataNodeFile | go/cube/cube.go:521-540 | one entry validated and written, refused or skipped |
| ArchiveObjects.WriteDataNodeDir | go/cube/cube.go:500-519 | the recursion over the data node is such a walk, stopped by the first write that fails |
| ArchiveObjects.PackThenUnpack | go/cube/cube.go:458-540 | the two recursions run one after the other restore every file exactly when nothing is confused and no name holds a backslash |
| Counterexamples.DirectoryOverFile | go/io.go:322-331 | after one write to `a`, ensuring `a/b` or closing a writer on it makes `a` a directory as well |
| Counterexamples.UpwardRenameOrderShows | go/io.go:450-493 | after ensuring `a/b/b/b` and writing `a/b/b/b/x`, renaming `a/b` up to `a` leaves a tree in one map order and none in another |
| Counterexamples.AppendToImplied | go/cube/cube.go:185-198 | after renaming a file to `x/y`, appending to `x` through a cube is refused and a write to `x` succeeds |
| Counterexamples.ListingDepends | go/node/node.go:360-412 | with files at `a` and `a/b` the listing of the root depends on the map order |
| Counterexamples.SlashedKeyIsLost | go/node/node.go:73-143 | a file renamed to `a/` does not come back from the archive |
| Counterexamples.ArchiveNeverCompletes | go/cube/cube.go:443-490 | one file at `d/d` is enough for an archive that never completes |
| Counterexamples.BackslashIsRefused | go/cube/cube.go:521-580 | a file with a backslash in its name is packed and refused when unpacked |

## Left out

- LocalMedium.Medium.ValidatePath: only the separator `/` is modelled, and not the log line of a refusal or the change of the file system during a call that a comment in the source warns of.
- NodeState.TarRoundTrip: times are opaque values, so the rounding of times in a tar header is not modelled.
- ArchiveObjects.WriteDataNodeDir: for a data node whose names are clean and form a tree; what Borg does with other names is not shown.
- Network and database backends (s3, sftp, webdav, github, pwa, sqlite, store): thin clients of libraries that are not shown, or logic inside an SQL engine.
- The datanode backend: its state lives in Borg's data node, and its rename and listing repeat those of the node tree.
- Wire formats: tar headers, the Trix container of a cube file, gzip, hex, base64, the hash algorithms and HKDF.
- Local file operations after the sandbox check, the guards against deleting protected paths, and file handles.
- `Walk`, `ExportFile` and `Open` of the node tree, `Open` and the streams of the media: wrappers of operations that are modelled.
- `Pack`, `Unpack` and `Open` of a cube file on the local disk: the encryption and the archive they combine are modelled, the files are not.
- `Stat` and `List` of a cube: they show the inner medium as it is, so sizes are those of the sealed contents.
- Locks and concurrency: each operation is one atomic step.
- Actions, commands, the HTTP interface, registration, environment lookup, logging and the text of error messages.
- A typed nil obfuscator, and the error for a fixed nonce of the wrong length.
