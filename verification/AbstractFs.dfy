/** The abstract file system: names, open handles and three counts. It knows nothing of bitmaps, slots, tables or
    of a second copy on a device, and it determines every reply. */
module AbstractFs {
  import opened Layout
  import opened Paths
  import opened TreeSteps
  import opened NameTree
  import opened Runs
  import FsSpec
  import FileStep

  type NameMap = imap<Path, Node>

  /** `handles` takes file ids to inode numbers; `next` is the inode number that comes next, `kept` the one that
      comes next after a remount, `free` the number of free data blocks. */
  datatype Abstract = Abstract(names: NameMap, handles: map<nat, nat>, next: nat, kept: nat, free: int)

  ghost predicate Childless(t: NameMap, p: Path) {
    forall q :: q in t && Below(p, q) ==> q == p
  }

  /** Where a rename lands. */
  ghost function LandingIn(t: NameMap, from: string, to: string): Path
    requires '/' in from && '/' in to
  {
    if Tokens(to) in t then Tokens(to) + [BaseName(from)]
    else if Tokens(DirName(to)) == Tokens(DirName(from)) then Tokens(to)
    else Tokens(DirName(to)) + [BaseName(from)]
  }

  /** The first file id from f on that is not in use. */
  function FirstFree(handles: map<nat, nat>, f: nat): (r: Option<nat>)
    ensures r.Some? ==> f <= r.value < MAX_OPEN_FILE && r.value !in handles && forall g :: f <= g < r.value ==> g in handles
    ensures r.None? ==> forall g :: f <= g < MAX_OPEN_FILE ==> g in handles
    decreases MAX_OPEN_FILE - f
  {
    if f >= MAX_OPEN_FILE then None else if f !in handles then Some(f) else FirstFree(handles, f + 1)
  }

  ghost predicate FileAt(t: NameMap, p: Path, i: nat) {
    p in t && t[p].FileNode? && t[p].ino == i
  }

  /** The bytes of file i. */
  ghost function DataOf(t: NameMap, i: nat): seq<bv8> {
    if exists p :: FileAt(t, p, i) then
      var p :| FileAt(t, p, i);
      t[p].data
    else []
  }

  /** File i gets other bytes, nothing else changes. */
  ghost function WithData(t: NameMap, i: nat, data: seq<bv8>): NameMap {
    imap p | p in t :: if FileAt(t, p, i) then FileNode(i, data) else t[p]
  }

  /** A new node gets the next inode number, and the device learns of it. */
  ghost function Added(a: Abstract, p: Path, n: Node, blocks: nat): Abstract {
    a.(names := a.names[p := n], next := a.next + 1, kept := a.next + 1, free := a.free - blocks)
  }

  ghost function Removed(a: Abstract, p: Path, blocks: nat): Abstract {
    a.(names := Without(a.names, p), kept := a.next, free := a.free + blocks)
  }

  ghost function Hold(a: Abstract, i: nat): (Abstract, Reply) {
    match FirstFree(a.handles, START_OPEN_FILE)
    case None => (a, Done(Error))
    case Some(fid) => (a.(handles := a.handles[fid := i]), Opened(fid))
  }

  ghost function MakeDirectory(a: Abstract, path: string): (Abstract, Reply) {
    var p := Tokens(path);
    if '/' !in path || Tokens(DirName(path)) !in a.names then (a, Done(NoEntry))
    else if p in a.names then (a, Done(Exists))
    else if a.next == INODES then (a, Done(Error))
    else if a.free == 0 then (a.(next := a.next + 1), Done(Error))
    else (Added(a, p, DirNode(a.next), 1), Done(Success))
  }

  ghost function RemoveDirectory(a: Abstract, path: string): (Abstract, Reply) {
    var p := Tokens(path);
    if p !in a.names then (a, Done(NoEntry))
    else if !Childless(a.names, p) then (a, Done(NotEmpty))
    else (Removed(a, p, 1), Done(Success))
  }

  ghost function RemoveFile(a: Abstract, path: string): (Abstract, Reply) {
    var p := Tokens(path);
    if p !in a.names then (a, Done(NoEntry))
    else (Removed(a, p, if a.names[p].FileNode? && a.names[p].data == [] then 0 else 1), Done(Success))
  }

  ghost function Move(a: Abstract, from: string, to: string): (Abstract, Reply) {
    if '/' !in from || '/' !in to then (a, Done(Error))
    else if Tokens(from) !in a.names then (a, Done(NoEntry))
    else if Tokens(to) in a.names && (a.names[Tokens(to)].FileNode? || Tokens(to) + [BaseName(from)] in a.names) then (a, Done(Exists))
    else (a.(names := Relocate(a.names, Tokens(from), LandingIn(a.names, from, to))), Done(Success))
  }

  ghost function Open(a: Abstract, path: string, create: bool): (Abstract, Reply) {
    var p := Tokens(path);
    if '/' !in path || Tokens(DirName(path)) !in a.names then (a, Done(NoEntry))
    else if p in a.names then
      if a.names[p].DirNode? then (a, Done(Error)) else Hold(a, a.names[p].ino)
    else if !create || a.next == INODES then (a, Done(Error))
    else Hold(Added(a, p, FileNode(a.next, []), 0), a.next)
  }

  /** Writes that do not fit into one cluster are not part of this model. */
  ghost function Store(a: Abstract, fid: nat, buf: seq<bv8>, offset: nat): (Abstract, Reply) {
    if fid !in a.handles || offset + |buf| > CLUSTER_SIZE then (a, Done(Error))
    else
      var i := a.handles[fid];
      var data := DataOf(a.names, i);
      if data == [] && a.free == 0 then (a, Done(Error))
      else (a.(names := WithData(a.names, i, FileStep.Written(data, buf, offset)),
               kept := a.next, free := if data == [] then a.free - 1 else a.free),
            Wrote(if |data| <= offset then |buf| else CLUSTER_SIZE))
  }

  ghost function Load(a: Abstract, fid: nat, size: nat): Reply {
    if fid !in a.handles then Done(Error)
    else
      var head := FileStep.Head(DataOf(a.names, a.handles[fid]), size);
      Got(head[..FsSpec.StrLen(head)])
  }

  /** What an operation does to the abstract state, and what it replies. */
  ghost function AbstractStep(a: Abstract, op: Op): (Abstract, Reply) {
    match op
    case MkdirAt(path) => MakeDirectory(a, path)
    case RmdirAt(path) => RemoveDirectory(a, path)
    case UnlinkAt(path) => RemoveFile(a, path)
    case RenameAt(from, to) => Move(a, from, to)
    case OpenAt(path, create, append, flags) => Open(a, path, create)
    case CloseAt(fid) => (a.(handles := a.handles - {fid}), Done(Success))
    case WriteAt(fid, buf, offset) => Store(a, fid, buf, offset)
    case ReadAt(fid, size, offset) => (a, Load(a, fid, size))
    case Unmount => (a.(handles := map[], next := a.kept), Done(Success))
  }

  ghost function AbstractRun(a: Abstract, ops: seq<Op>): Abstract
    decreases |ops|
  {
    if ops == [] then a else AbstractRun(AbstractStep(a, ops[0]).0, ops[1..])
  }

  ghost function AbstractReplies(a: Abstract, ops: seq<Op>): seq<Reply>
    decreases |ops|
  {
    if ops == [] then [] else [AbstractStep(a, ops[0]).1] + AbstractReplies(AbstractStep(a, ops[0]).0, ops[1..])
  }

  /** An empty root directory on a device with this many data blocks. */
  ghost function AbstractStart(blocks: nat): Abstract {
    Abstract(imap[[] := DirNode(ROOT_INO)], map[], NUM_RESV_INO, NUM_RESV_INO, blocks - 1)
  }
}
