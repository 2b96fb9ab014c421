/**
 The in-memory medium (go/io.go) as a value: its four maps, and every operation as a
 function from one state to the next.  Paths are raw strings; nothing is assumed of them.
 Where the program loops over a map, the order of the loop is an argument.
 */
module MemoryState {
  import opened Options
  import opened Paths
  import opened PathTree
  import opened PrefixMaps
  import ByteStrings

  type Bytes = ByteStrings.Bytes
  type Mode = nat
  type Time = int

  const DEFAULT_MODE: Mode := 420      // 0644
  const PRIVATE_MODE: Mode := 384      // 0600
  const DIRECTORY_MODE: Mode := 0x8000_01ED  // fs.ModeDir | 0755
  const ZERO_TIME: Time := 0

  /** A Go `map[string]bool` that only ever holds `true` is its set of keys. */
  datatype Mem = Mem(
    files: map<string, Bytes>,
    modes: map<string, Mode>,
    dirs: set<string>,
    times: map<string, Time>)

  const EMPTY := Mem(map[], map[], {}, map[])

  datatype Status = Done | AlreadyExists | NotFound

  datatype Step = Step(status: Status, mem: Mem)

  function WithSlash(path: string): string {
    if HasSuffix(path, "/") then path else path + "/"
  }

  /** The prefix of everything below `path`; below the empty path lies everything. */
  function ChildPrefix(path: string): string {
    if path != "" && !HasSuffix(path, "/") then path + "/" else path
  }

  ghost predicate HasFileBelow(m: Mem, prefix: string) {
    exists f :: f in m.files && HasPrefix(f, prefix)
  }

  ghost predicate HasDirectoryBelow(m: Mem, path: string, prefix: string) {
    exists d :: d in m.dirs && d != path && HasPrefix(d, prefix)
  }

  ghost predicate DirectoryExists(m: Mem, path: string) {
    path != "" &&
    (path in m.dirs || HasFileBelow(m, WithSlash(path)) || HasDirectoryBelow(m, path, WithSlash(path)))
  }

  ghost predicate Exists(m: Mem, path: string) {
    path in m.files || DirectoryExists(m, path)
  }

  ghost predicate HasChildren(m: Mem, path: string) {
    HasFileBelow(m, ChildPrefix(path)) || HasDirectoryBelow(m, path, ChildPrefix(path))
  }

  ghost predicate HasFileAncestor(m: Mem, path: string) {
    exists a :: a in Ancestors(path) && a in m.files
  }

  function WithFile(m: Mem, path: string, content: Bytes, mode: Mode, now: Time): Mem {
    Mem(m.files[path := content], m.modes[path := mode], m.dirs + Ancestors(path), m.times[path := now])
  }

  function WithoutFile(m: Mem, path: string): Mem {
    Mem(m.files - {path}, m.modes - {path}, m.dirs, m.times - {path})
  }

  /** A write gets through there. */
  ghost predicate Open(m: Mem, path: string) {
    path !in m.dirs && !HasFileAncestor(m, path)
  }

  ghost function WriteMode(m: Mem, path: string, content: Bytes, mode: Mode, now: Time): Step {
    if HasFileAncestor(m, path) || path in m.dirs then Step(AlreadyExists, m)
    else Step(Done, WithFile(m, path, content, mode, now))
  }

  /** What closing a writer does: no look at the ancestors. */
  function CloseWriter(m: Mem, path: string, data: Bytes, mode: Mode, now: Time): Step {
    if path in m.dirs then Step(AlreadyExists, m) else Step(Done, WithFile(m, path, data, mode, now))
  }

  function EnsureDir(m: Mem, path: string): Step {
    if path in m.files then Step(AlreadyExists, m)
    else Step(Done, m.(dirs := m.dirs + Ancestors(path) + {path}))
  }

  ghost function Delete(m: Mem, path: string): Step {
    if path in m.files then Step(Done, WithoutFile(m, path))
    else if DirectoryExists(m, path) then
      if HasChildren(m, path) then Step(AlreadyExists, m) else Step(Done, m.(dirs := m.dirs - {path}))
    else Step(NotFound, m)
  }

  predicate Doomed(key: string, path: string) {
    key == path || HasPrefix(key, WithSlash(path))
  }

  function Spared<V>(m: map<string, V>, path: string): map<string, V> {
    map k | k in m && !Doomed(k, path) :: m[k]
  }

  function WithoutTree(m: Mem, path: string): Mem {
    Mem(Spared(m.files, path), m.modes - (set k | k in m.files && Doomed(k, path)),
        (set d | d in m.dirs && !Doomed(d, path)), m.times - (set k | k in m.files && Doomed(k, path)))
  }

  ghost function DeleteAll(m: Mem, path: string): Step {
    var found := (exists f :: f in m.files && Doomed(f, path)) || (exists d :: d in m.dirs && Doomed(d, path));
    Step(if found then Done else NotFound, WithoutTree(m, path))
  }

  function RenameFile(m: Mem, from: string, to: string): Mem {
    Mem(MoveKey(m.files, from, to), MoveKey(m.modes, from, to), m.dirs, MoveKey(m.times, from, to))
  }

  function MoveDirectories(dirs: set<string>, order: seq<string>, from: string, to: string): set<string>
    requires forall d :: d in order ==> HasPrefix(d, from)
    decreases |order|
  {
    if order == [] then dirs
    else
      assert order[0] in order;
      MoveDirectories(dirs + {Moved(order[0], from, to)} - {order[0]}, order[1..], from, to)
  }

  /** The orders in which the two loops of a directory rename may visit their maps. */
  datatype Orders = Orders(files: seq<string>, dirs: seq<string>)

  function RetargetedDirs(m: Mem, from: string, to: string): set<string> {
    m.dirs + {to} - {from}
  }

  ghost predicate LegalOrders(m: Mem, from: string, to: string, orders: Orders) {
    Enumerates(orders.files, set f | f in m.files && HasPrefix(f, ChildPrefix(from))) &&
    Enumerates(orders.dirs, set d | d in RetargetedDirs(m, from, to) && HasPrefix(d, ChildPrefix(from)))
  }

  ghost function RenameDirectory(m: Mem, from: string, to: string, orders: Orders): Mem
    requires LegalOrders(m, from, to, orders)
  {
    Mem(MoveAll(m.files, orders.files, ChildPrefix(from), ChildPrefix(to)),
        MoveAll(m.modes, orders.files, ChildPrefix(from), ChildPrefix(to)),
        MoveDirectories(RetargetedDirs(m, from, to), orders.dirs, ChildPrefix(from), ChildPrefix(to)),
        MoveAll(m.times, orders.files, ChildPrefix(from), ChildPrefix(to)))
  }

  ghost function Rename(m: Mem, from: string, to: string, orders: Orders): Step
    requires LegalOrders(m, from, to, orders)
  {
    if from in m.files then Step(Done, RenameFile(m, from, to))
    else if DirectoryExists(m, from) then Step(Done, RenameDirectory(m, from, to, orders))
    else Step(NotFound, m)
  }

  // Reading

  function ModeOf(m: Mem, path: string): Mode {
    if path in m.modes then m.modes[path] else DEFAULT_MODE
  }

  function TimeOf(m: Mem, path: string): Time {
    if path in m.times then m.times[path] else ZERO_TIME
  }

  datatype FileInfo = FileInfo(name: string, size: nat, mode: Mode, modTime: Time, isDir: bool)

  function Read(m: Mem, path: string): Option<Bytes> {
    if path in m.files then Some(m.files[path]) else None
  }

  function DirectoryInfo(name: string): FileInfo {
    FileInfo(name, 0, DIRECTORY_MODE, ZERO_TIME, true)
  }

  ghost function Stat(m: Mem, path: string, now: Time): Option<FileInfo> {
    if path in m.files then
      var modTime := if path in m.times then m.times[path] else now;
      Some(FileInfo(PathBase(path), |m.files[path]|, ModeOf(m, path), modTime, false))
    else if DirectoryExists(m, path) then Some(DirectoryInfo(PathBase(path)))
    else None
  }

  // Runs

  datatype Op =
    | OpWrite(path: string, content: Bytes, mode: Mode, now: Time)
    | OpClose(path: string, content: Bytes, mode: Mode, now: Time)
    | OpEnsureDir(path: string)
    | OpDelete(path: string)
    | OpDeleteAll(path: string)
    | OpRename(path: string, to: string, orders: Orders)

  /** A rename goes through its maps in some order; every other operation has one way to run. */
  ghost predicate Legal(m: Mem, op: Op) {
    op.OpRename? ==> LegalOrders(m, op.path, op.to, op.orders)
  }

  ghost function Apply(m: Mem, op: Op): Step
    requires Legal(m, op)
  {
    match op
    case OpWrite(path, content, mode, now) => WriteMode(m, path, content, mode, now)
    case OpClose(path, content, mode, now) => CloseWriter(m, path, content, mode, now)
    case OpEnsureDir(path) => EnsureDir(m, path)
    case OpDelete(path) => Delete(m, path)
    case OpDeleteAll(path) => DeleteAll(m, path)
    case OpRename(path, to, orders) => Rename(m, path, to, orders)
  }

  /** The states a run goes through: `states[i + 1]` is `ops[i]` applied to `states[i]`. */
  ghost predicate IsRun(states: seq<Mem>, ops: seq<Op>) {
    |states| == |ops| + 1 &&
    forall i | 0 <= i < |ops| :: Legal(states[i], ops[i]) && states[i + 1] == Apply(states[i], ops[i]).mem
  }

  /** The three maps about files speak of the same files. */
  predicate SameKeys(m: Mem) {
    m.files.Keys == m.modes.Keys == m.times.Keys
  }

  /** One operation keeps the three maps in step, whatever the paths: nested and self renames included. */
  lemma SameKeysKept(m: Mem, op: Op)
    requires SameKeys(m) && Legal(m, op)
    ensures SameKeys(Apply(m, op).mem)
  {
    match op
    case OpRename(from, to, orders) =>
      if from in m.files {
        MoveKeyKeys(m.files, m.modes, from, to);
        MoveKeyKeys(m.files, m.times, from, to);
      } else if DirectoryExists(m, from) {
        MoveAllKeys(m.files, m.modes, orders.files, ChildPrefix(from), ChildPrefix(to));
        MoveAllKeys(m.files, m.times, orders.files, ChildPrefix(from), ChildPrefix(to));
      }
    case _ =>
  }

  lemma {:induction false} SameKeysReachable(states: seq<Mem>, ops: seq<Op>)
    requires IsRun(states, ops) && states[0] == EMPTY
    ensures forall i | 0 <= i < |states| :: SameKeys(states[i])
  {
    hide Apply, Legal;
    for i := 0 to |ops|
      invariant forall j | 0 <= j <= i :: SameKeys(states[j])
    {
      SameKeysKept(states[i], ops[i]);
    }
  }
}
