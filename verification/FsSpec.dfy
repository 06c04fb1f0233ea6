/** The file system as a state machine: what each operation does to the superblock, the two bitmaps,
    the inode table, their copies on the device, the data clusters and the open-file table.
    One function per C function that changes state; class FileSystem refines them in place. */
module FsSpec {
  import opened Layout
  import opened Paths
  import opened Namespace
  import Bmap

  /** The four metadata clusters. */
  datatype Meta = Meta(sb: Super, ibits: set<nat>, dbits: set<nat>, itable: seq<Inode>)

  /** `mem` is what the mounted program holds, `disk` what the device holds of the same clusters. */
  datatype State = State(mem: Meta, disk: Meta, sbi: SbInfo, blocks: seq<Cluster>, files: seq<OpenFile>)

  // ---------------------------------------------------------------- device addresses

  /** The byte address do_mkdir and do_write record for data block b. */
  function Addr(b: nat): nat {
    (DAREA_OFFSET + b) * CLUSTER_SIZE
  }

  /** The data cluster a byte address lies in. */
  function BlockOf(addr: nat): int {
    addr / CLUSTER_SIZE - DAREA_OFFSET
  }

  predicate InData(blocks: seq<Cluster>, addr: nat) {
    0 <= BlockOf(addr) < |blocks|
  }

  /** Reading a cluster as a directory. */
  function SlotsAt(blocks: seq<Cluster>, addr: nat): seq<Slot> {
    if InData(blocks, addr) && blocks[BlockOf(addr)].Entries? then blocks[BlockOf(addr)].slots else []
  }

  /** Writing one directory entry at its byte address. */
  function PutSlot(blocks: seq<Cluster>, addr: nat, e: Slot): (r: seq<Cluster>)
    ensures |r| == |blocks|
  {
    var slots, k := SlotsAt(blocks, addr), addr % CLUSTER_SIZE / ENTRY_SIZE;
    if k < |slots| then blocks[BlockOf(addr) := Entries(slots[k := e])] else blocks
  }

  /** Writing a whole cluster. */
  function PutCluster(blocks: seq<Cluster>, addr: nat, c: Cluster): (r: seq<Cluster>)
    ensures |r| == |blocks|
  {
    if InData(blocks, addr) then blocks[BlockOf(addr) := c] else blocks
  }

  function BytesAt(blocks: seq<Cluster>, addr: nat): seq<bv8> {
    if InData(blocks, addr) && blocks[BlockOf(addr)].Bytes? then blocks[BlockOf(addr)].data else []
  }

  function Overwrite(data: seq<bv8>, at: nat, bytes: seq<bv8>): seq<bv8>
    requires at + |bytes| <= |data|
  {
    data[..at] + bytes + data[at + |bytes|..]
  }

  /** Writing bytes inside one cluster. */
  function PutBytes(blocks: seq<Cluster>, addr: nat, bytes: seq<bv8>): (r: seq<Cluster>)
    ensures |r| == |blocks|
  {
    var data, at := BytesAt(blocks, addr), addr % CLUSTER_SIZE;
    if InData(blocks, addr) && at + |bytes| <= |data|
    then blocks[BlockOf(addr) := Bytes(Overwrite(data, at, bytes))] else blocks
  }

  // ---------------------------------------------------------------- inodes and the namespace view

  function InodeAt(itable: seq<Inode>, i: nat): Inode {
    if i < |itable| then itable[i] else ZERO_INODE
  }

  predicate IsDir(itable: seq<Inode>, i: nat) {
    i < |itable| && itable[i].kind == Directory
  }

  predicate IsFile(itable: seq<Inode>, i: nat) {
    i < |itable| && itable[i].kind == File
  }

  function FileSet(itable: seq<Inode>): set<nat> {
    set i: nat | i < |itable| && IsFile(itable, i)
  }

  /** The slot tables of the directories, as the walk reads them. */
  function DirView(itable: seq<Inode>, blocks: seq<Cluster>): Dirs {
    map i: nat | i < |itable| && IsDir(itable, i) :: SlotsAt(blocks, itable[i].block)
  }

  function View(s: State): Dirs {
    DirView(s.mem.itable, s.blocks)
  }

  function DirSlots(s: State, d: nat): seq<Slot> {
    SlotsAt(s.blocks, InodeAt(s.mem.itable, d).block)
  }

  /** lab4_read_inode: the inode number a path string leads to. */
  function Walk(s: State, path: string): Option<nat> {
    Resolve(View(s), Tokens(path))
  }

  // ---------------------------------------------------------------- allocation

  /** alloc_new_inode up to the new inode number. */
  function AllocInode(s: State): (State, Option<nat>) {
    match Bmap.Scan(s.mem.ibits, s.sbi.lastIno, s.sbi.ibitmapSize / ENTRY_SIZE)
    case None => (s, None)
    case Some(i) =>
      var sb := s.mem.sb.(lastIno := i + 1, freeInodes := s.mem.sb.freeInodes - 1);
      (s.(mem := s.mem.(ibits := s.mem.ibits + {i}, sb := sb), sbi := s.sbi.(lastIno := i + 1)), Some(i))
  }

  function MaxBlock(s: State): nat {
    if s.sbi.clusterSize == 0 then 0 else s.sbi.dareaSize / s.sbi.clusterSize
  }

  /** alloc_block_inbmap. */
  function AllocBlock(s: State): (State, Option<nat>) {
    match Bmap.Scan(s.mem.dbits, s.sbi.lastBlk, MaxBlock(s))
    case None => (s, None)
    case Some(b) =>
      var sb := s.mem.sb.(freeBlocks := s.mem.sb.freeBlocks - 1);
      (s.(mem := s.mem.(dbits := s.mem.dbits + {b}, sb := sb)), Some(b))
  }

  function RestoreIbmap(s: State): State {
    s.(mem := s.mem.(ibits := s.disk.ibits))
  }

  function RestoreDbmap(s: State): State {
    s.(mem := s.mem.(dbits := s.disk.dbits))
  }

  function WriteInode(s: State, n: Inode): State {
    if n.ino < |s.mem.itable| then s.(mem := s.mem.(itable := s.mem.itable[n.ino := n])) else s
  }

  /** inc_link and dec_link on the unsigned 32-bit counter. */
  function AddLinks(s: State, i: nat, delta: int): State {
    if i < |s.mem.itable| then
      var n := s.mem.itable[i];
      s.(mem := s.mem.(itable := s.mem.itable[i := n.(links := (n.links + delta) % U32)]))
    else s
  }

  /** delete_inode. */
  function FreeInode(s: State, i: nat): State {
    var itable := if i < |s.mem.itable| then s.mem.itable[i := ZERO_INODE] else s.mem.itable;
    s.(mem := s.mem.(ibits := s.mem.ibits - {i}, itable := itable, sb := s.mem.sb.(freeInodes := s.mem.sb.freeInodes + 1)))
  }

  /** The block number delete_block_inbmap recovers from a byte address. */
  function BlockNumber(sbi: SbInfo, addr: nat): int {
    if sbi.clusterSize == 0 then 0 else (addr - sbi.dareaStart) / sbi.clusterSize
  }

  /** delete_block_inbmap. */
  function FreeBlock(s: State, addr: nat): State {
    var dbits := set b | b in s.mem.dbits && b != BlockNumber(s.sbi, addr);
    s.(mem := s.mem.(dbits := dbits, sb := s.mem.sb.(freeBlocks := s.mem.sb.freeBlocks + 1)))
  }

  /** update_sb, update_ibmap, update_dbmap and update_itble. */
  function FlushAll(s: State): State {
    s.(disk := s.mem)
  }

  // ---------------------------------------------------------------- namespace operations

  /** do_mkdir in the directory with inode number `par`. */
  function Mkdir(s: State, par: nat, name: string): (State, Status) {
    var p := InodeAt(s.mem.itable, par);
    if FindSlot(SlotsAt(s.blocks, p.block), name).Some? then (s, Exists)
    else
      var (s1, ino) := AllocInode(s);
      if ino.None? then (RestoreIbmap(s1), Error)
      else
        var (s2, blk) := AllocBlock(s1);
        if blk.None? then (RestoreDbmap(s2), Error)
        else (FlushAll(InstallDir(s2, p, name, ino.value, blk.value)), Success)
  }

  function NewDirInode(s: State, i: nat, b: nat, ptr: nat): Inode {
    Inode(i, Directory, SLOTS * ENTRY_SIZE, 1, 2, ptr, s.mem.sb.dareaStart * s.sbi.clusterSize + b * s.sbi.clusterSize)
  }

  /** The part of do_mkdir after both allocations: inode, parent's slot, dot entries, parent's link. */
  function InstallDir(s: State, p: Inode, name: string, i: nat, b: nat): State {
    var k := FreeSlot(SlotsAt(s.blocks, p.block));
    var s1 := s.(mem := s.mem.(sb := s.mem.sb.(lastBlk := b)));
    var s2 := WriteInode(s1, NewDirInode(s1, i, b, k));
    var blocks := PutSlot(s2.blocks, p.block + k * ENTRY_SIZE, Slot(i, Used, 0, name));
    var blocks' := PutCluster(blocks, b * s.sbi.clusterSize + s.sbi.dareaStart, Entries(DotSlots(i, p.ino)));
    AddLinks(s2.(blocks := blocks'), p.ino, 1)
  }

  /** lab4_createfile in the directory with inode number `par`. */
  function CreateFile(s: State, par: nat, name: string): (State, Status) {
    var p := InodeAt(s.mem.itable, par);
    if !(1 <= |name| < FNAME_SIZE) then (s, NameTooLong)
    else if FindSlot(SlotsAt(s.blocks, p.block), name).Some? then (s, Exists)
    else if p.links == MAX_FILES_PER_DIR then (s, Error)
    else
      var (s1, ino) := AllocInode(s);
      if ino.None? then (RestoreIbmap(s1), Error)
      else (FlushButDbmap(InstallFile(s1, p, name, ino.value)), Success)
  }

  function InstallFile(s: State, p: Inode, name: string, i: nat): State {
    var k := FreeSlot(SlotsAt(s.blocks, p.block));
    var s1 := WriteInode(s, Inode(i, File, 0, 1, 1, k, 0));
    var blocks := PutSlot(s1.blocks, p.block + k * ENTRY_SIZE, Slot(i, Used, 1, name));
    s1.(blocks := blocks, mem := s1.mem.(sb := s1.mem.sb.(freeInodes := s1.mem.sb.freeInodes - 1)))
  }

  function FlushButDbmap(s: State): State {
    s.(disk := s.mem.(dbits := s.disk.dbits))
  }

  /** do_rmdir in the directory with inode number `par`. */
  function Rmdir(s: State, par: nat, name: string): (State, Status) {
    var p := InodeAt(s.mem.itable, par);
    var slots := SlotsAt(s.blocks, p.block);
    match FindSlot(slots, name)
    case None => (s, NoEntry)
    case Some(k) =>
      var n := InodeAt(s.mem.itable, slots[k].ino);
      if !NoEntries(SlotsAt(s.blocks, n.block)) then (s, NotEmpty)
      else
        var s1 := FreeBlock(FreeInode(s, n.ino), n.block);
        var blocks := PutCluster(s1.blocks, n.block, ZERO_CLUSTER);
        var blocks' := PutSlot(blocks, p.block + k * ENTRY_SIZE, Unlinked(slots[k]));
        (FlushAll(AddLinks(s1.(blocks := blocks'), p.ino, -1)), Success)
  }

  /** do_unlink in the directory with inode number `par`. */
  function Unlink(s: State, par: nat, name: string): (State, Status) {
    var p := InodeAt(s.mem.itable, par);
    var slots := SlotsAt(s.blocks, p.block);
    match FindSlot(slots, name)
    case None => (s, NoEntry)
    case Some(k) =>
      var n := InodeAt(s.mem.itable, slots[k].ino);
      var s1 := if n.links == 1 then FreeFile(s, n) else s;
      (FlushAll(s1.(blocks := PutSlot(s1.blocks, p.block + k * ENTRY_SIZE, Unlinked(slots[k])))), Success)
  }

  /** The freeing branch of do_unlink. */
  function FreeFile(s: State, n: Inode): State {
    var s1 := if n.size != 0 then FreeBlock(s, n.block).(blocks := PutCluster(s.blocks, n.block, ZERO_CLUSTER)) else s;
    FreeInode(s1, n.ino)
  }

  /** do_rename. A target that exists and is a directory receives the entry under its old name; so does
      the parent of a target that does not exist, unless that parent is where the entry already is. */
  function Rename(s: State, from: string, to: string): (State, Status)
    requires '/' in from && '/' in to
  {
    match Walk(s, DirName(from))
    case None => (s, NoEntry)
    case Some(sd) =>
      match FindSlot(DirSlots(s, sd), BaseName(from))
      case None => (s, NoEntry)
      case Some(k) =>
        match Walk(s, to)
        case Some(t) => MoveInto(s, sd, k, t, BaseName(from))
        case None =>
          match Walk(s, DirName(to))
          case None => (s, NoEntry)
          case Some(t) => if t == sd then RenameSlot(s, sd, k, BaseName(to)) else MoveInto(s, sd, k, t, BaseName(to))
  }

  function RenameSlot(s: State, sd: nat, k: nat, name: string): (State, Status)
    requires k < |DirSlots(s, sd)|
  {
    var e := DirSlots(s, sd)[k].(name := name, flag := Used);
    (s.(blocks := PutSlot(s.blocks, InodeAt(s.mem.itable, sd).block + k * ENTRY_SIZE, e)), Success)
  }

  /** The lookup is of `probe`, but the entry keeps the name it has. */
  function MoveInto(s: State, sd: nat, k: nat, t: nat, probe: string): (State, Status)
    requires k < |DirSlots(s, sd)|
  {
    if !IsDir(s.mem.itable, t) || FindSlot(DirSlots(s, t), probe).Some? then (s, Exists)
    else
      var e, j := DirSlots(s, sd)[k], FreeSlot(DirSlots(s, t));
      var blocks := if j < |DirSlots(s, t)|
                    then PutSlot(s.blocks, InodeAt(s.mem.itable, t).block + j * ENTRY_SIZE, e.(flag := Used)) else s.blocks;
      (s.(blocks := PutSlot(blocks, InodeAt(s.mem.itable, sd).block + k * ENTRY_SIZE, Unlinked(e))), Success)
  }

  // ---------------------------------------------------------------- open files

  /** lab4_allocate_open_file_table: the first unused entry from `i` on. */
  function FreeHandle(files: seq<OpenFile>, i: nat): (r: Option<nat>)
    ensures r.Some? ==> i <= r.value < |files| && !files[r.value].used
    ensures r.None? ==> forall f :: i <= f < |files| ==> files[f].used
    decreases |files| - i
  {
    if i >= |files| then None else if !files[i].used then Some(i) else FreeHandle(files, i + 1)
  }

  /** do_openfile; the result is the file id or None. */
  function OpenFileIn(s: State, par: nat, name: string, create: bool, append: bool, flags: nat): (State, Option<nat>) {
    match FindSlot(DirSlots(s, par), name)
    case Some(k) => OpenInode(s, DirSlots(s, par)[k].ino, append, flags)
    case None =>
      if !create then (s, None)
      else
        var (s1, status) := CreateFile(s, par, name);
        if status != Success then (s1, None) else OpenInode(s1, s1.sbi.lastIno - 1, append, flags)
  }

  function OpenInode(s: State, i: int, append: bool, flags: nat): (State, Option<nat>) {
    if i < 0 || !IsFile(s.mem.itable, i) then (s, None)
    else
      match FreeHandle(s.files, START_OPEN_FILE)
      case None => (s, None)
      case Some(fid) =>
        var n := s.mem.itable[i];
        (s.(files := s.files[fid := OpenFile(true, n.ino, n.size, if append then n.size else 0, flags)]), Some(fid))
  }

  /** lab4_do_close. */
  function Close(s: State, fid: nat): State {
    if fid < |s.files| then s.(files := s.files[fid := CLOSED]) else s
  }

  // ---------------------------------------------------------------- file data

  /** The bytes of file i. */
  function Content(itable: seq<Inode>, blocks: seq<Cluster>, i: nat): seq<bv8> {
    var n := InodeAt(itable, i);
    if n.size <= |BytesAt(blocks, n.block)| then BytesAt(blocks, n.block)[..n.size] else []
  }

  /** strlen: the bytes before the first NUL. */
  function StrLen(s: seq<bv8>): (k: nat)
    ensures k <= |s| && (k < |s| ==> s[k] == 0) && forall j :: 0 <= j < k ==> s[j] != 0
  {
    if s == [] || s[0] == 0 then 0 else StrLen(s[1..]) + 1
  }

  /** What strncpy leaves in a zeroed cluster: the bytes up to the first NUL. */
  function StrCopy(buf: seq<bv8>): seq<bv8> {
    var k := StrLen(buf);
    if k <= CLUSTER_SIZE then buf[..k] + Zeros(CLUSTER_SIZE - k) else buf[..CLUSTER_SIZE]
  }

  /** do_write; the result is the byte count of the last pwrite, or None for an error. */
  function Write(s: State, fid: nat, buf: seq<bv8>, offset: nat): (State, Option<nat>)
    requires fid < |s.files|
  {
    var f := s.files[fid];
    var s0 := s.(files := s.files[fid := f.(rwoffset := offset)]);
    var n := InodeAt(s.mem.itable, f.ino);
    if n.size == 0 then
      var (s1, blk) := AllocBlock(s0);
      if blk.None? then (RestoreDbmap(s1), None)
      else
        StoreBytes(s1, fid, n.(block := blk.value * s.sbi.clusterSize + s.sbi.dareaStart), buf, offset)
    else StoreBytes(s0, fid, n, buf, offset)
  }

  /** The loop of do_write for a write inside one cluster, and what follows it. */
  function StoreBytes(s: State, fid: nat, n: Inode, buf: seq<bv8>, offset: nat): (State, Option<nat>)
    requires fid < |s.files|
  {
    var f := s.files[fid];
    var extend := n.size <= offset;
    var blocks := if extend then PutBytes(s.blocks, n.block + offset, buf)
                  else PutCluster(s.blocks, n.block + offset, Bytes(StrCopy(buf)));
    var rw := if extend then offset + |buf| else |buf|;
    var size := if extend && rw <= f.size then f.size else rw;
    var s1 := WriteInode(s, n.(size := size)).(blocks := blocks, files := s.files[fid := f.(rwoffset := rw, size := size)]);
    (s1.(disk := s1.mem.(ibits := s1.disk.ibits)), Some(if extend then |buf| else CLUSTER_SIZE))
  }

  /** do_read: the bytes handed to the caller. The block is read from its start, whatever the offset. */
  function Read(s: State, fid: nat, size: nat, offset: nat): (State, seq<bv8>)
    requires fid < |s.files|
  {
    var f := s.files[fid];
    var n := InodeAt(s.mem.itable, f.ino);
    if n.size == 0 || offset >= n.size || size == 0
    then (s.(files := s.files[fid := f.(rwoffset := offset)]), [])
    else
      var data := BytesAt(s.blocks, n.block);
      var chunk := if size <= |data| then data[..size] else data;
      var room := CLUSTER_SIZE - offset % CLUSTER_SIZE;
      (s.(files := s.files[fid := f.(rwoffset := offset + (if size <= room then size else room))]),
       chunk[..StrLen(chunk)])
  }

  /** What do_readdir hands to its filler for these slots: the USED entries in order, each with its inode and
      whether that is a directory. */
  function Listing(itable: seq<Inode>, slots: seq<Slot>): seq<(string, nat, bool)> {
    if slots == [] then []
    else (if slots[0].flag == Used then [Listed(itable, slots[0])] else []) + Listing(itable, slots[1..])
  }

  function Listed(itable: seq<Inode>, e: Slot): (string, nat, bool) {
    (e.name, e.ino, IsDir(itable, e.ino))
  }

  /** do_readdir: it starts to count at `offset`, but to read at the first slot. */
  function Readdir(itable: seq<Inode>, slots: seq<Slot>, offset: nat): seq<(string, nat, bool)> {
    if offset <= |slots| then Listing(itable, slots[..|slots| - offset]) else []
  }

  // ---------------------------------------------------------------- format and mount

  /** Blocks that fit a device of `sectors` sectors after the four metadata clusters. */
  function DataBlocks(sectors: nat): int {
    sectors * SECTOR_SIZE / CLUSTER_SIZE - DAREA_OFFSET
  }

  /** Devices the one-cluster data bitmap can describe. */
  predicate Formattable(sectors: nat) {
    2 <= DataBlocks(sectors) <= 8 * CLUSTER_SIZE
  }

  function FormatSuper(sectors: nat): Super
    requires Formattable(sectors)
  {
    Super(SIGNATURE, SECTOR_SIZE, BLK_SIZE_SHIFT, sectors, ROOT_INO, 1, DAREA_OFFSET, DataBlocks(sectors),
          CLUSTER_SIZE / ENTRY_SIZE - NUM_RESV_INO, DataBlocks(sectors), ROOT_INO + 1, 1)
  }

  const ROOT_INODE := Inode(ROOT_INO, Directory, SLOTS * ENTRY_SIZE, 1, 2, 1, DAREA_OFFSET * CLUSTER_SIZE)

  function FormatTable(): (t: seq<Inode>)
    ensures |t| == INODES
  {
    [ZERO_INODE, ZERO_INODE.(ino := 1), ROOT_INODE] + seq(INODES - NUM_RESV_INO, _ => ZERO_INODE)
  }

  function FormatMeta(sectors: nat): Meta
    requires Formattable(sectors)
  {
    Meta(FormatSuper(sectors), {0, 1, 2}, {0}, FormatTable())
  }

  /** The data area after a format of a zeroed device. */
  function FormatBlocks(sectors: nat): (r: seq<Cluster>)
    requires Formattable(sectors)
    ensures |r| == DataBlocks(sectors)
  {
    [Entries(DotSlots(ROOT_INO, ROOT_INO))] + seq(DataBlocks(sectors) - 1, _ => ZERO_CLUSTER)
  }

  /** check_formated and lab4_fill_super: everything in memory comes from the device. */
  function Mount(disk: Meta, blocks: seq<Cluster>): State {
    State(disk, disk, FillSuper(disk.sb), blocks, seq(MAX_OPEN_FILE, _ => CLOSED))
  }

  function Remount(s: State): State {
    Mount(s.disk, s.blocks)
  }

  function FormatAndMount(sectors: nat): State
    requires Formattable(sectors)
  {
    Mount(FormatMeta(sectors), FormatBlocks(sectors))
  }
}
