/** The mounted file system in place: struct io_manager with its buffers, the device behind it, and the
    operations as loops and assignments. Every method is proved to do to Model() what FsSpec says. */
module IoManager {
  import opened Layout
  import opened Paths
  import opened Namespace
  import opened FsSpec
  import opened Fsck
  import opened BmapRaw
  import Bmap
  import StepFacts
  import MkdirStep
  import CreateStep
  import RemoveStep
  import RenameStep
  import FileStep
  import MountStep
  import NameTree
  import Runs

  /** The device: four metadata clusters and the data area. */
  class Device {
    var sb: Super
    var ibmap: seq<bv8>
    var dbmap: seq<bv8>
    var itble: seq<Inode>
    const data: array<Cluster>

    /** format_device_to_lab on a zeroed device: the superblock, the reserved and root inodes with their
        bits, and the root directory in block 0. */
    constructor Format(sectors: nat)
      requires Formattable(sectors)
      ensures Valid() && Metadata() == FormatMeta(sectors) && data[..] == FormatBlocks(sectors) && fresh(data)
      ensures (data.Length + 4) * 4096 <= sectors * 512 < (data.Length + 5) * 4096
    {
      var bufIbmap := new bv8[CLUSTER_SIZE](_ => 0);
      var bufDbmap := new bv8[CLUSTER_SIZE](_ => 0);
      var bufItble := new Inode[INODES](_ => ZERO_INODE);
      var charged := AllocRootInodeDirect(bufIbmap, bufDbmap, bufItble);
      var area := new Cluster[DataBlocks(sectors)](i => if i == 0 then Entries(DotSlots(ROOT_INO, ROOT_INO)) else ZERO_CLUSTER);
      sb := FormatSuper(sectors).(freeInodes := CLUSTER_SIZE / ENTRY_SIZE - charged);
      ibmap, dbmap, itble, data := bufIbmap[..], bufDbmap[..], bufItble[..], area;
      new;
      assert data[..] == FormatBlocks(sectors);
    }

    /** lab4_alloc_root_inode_direct but for the directory entries; `charged` is what it takes off the
        free-inode count. */
    static method AllocRootInodeDirect(bufIbmap: array<bv8>, bufDbmap: array<bv8>, bufItble: array<Inode>) returns (charged: nat)
      requires bufIbmap != bufDbmap && bufIbmap.Length == CLUSTER_SIZE && bufDbmap.Length == CLUSTER_SIZE
      requires bufItble.Length == INODES && forall i :: 0 <= i < INODES ==> bufItble[i] == ZERO_INODE
      requires (forall i :: 0 <= i < CLUSTER_SIZE ==> bufIbmap[i] == 0) && (forall i :: 0 <= i < CLUSTER_SIZE ==> bufDbmap[i] == 0)
      modifies bufIbmap, bufDbmap, bufItble
      ensures Bits(bufIbmap[..]) == {0, 1, 2} && Bits(bufDbmap[..]) == {0} && bufItble[..] == FormatTable() && charged == NUM_RESV_INO
    {
      NoBitsInZeros(bufIbmap[..]);
      NoBitsInZeros(bufDbmap[..]);
      charged := 0;
      while charged < NUM_RESV_INO
        invariant 0 <= charged <= NUM_RESV_INO
        invariant forall i :: i in Bits(bufIbmap[..]) <==> 0 <= i < charged
        invariant bufDbmap[..] == old(bufDbmap[..]) && bufItble[..] == old(bufItble[..])
      {
        var _ := SetBit(charged, bufIbmap);
        charged := charged + 1;
      }
      assert Bits(bufIbmap[..]) == {0, 1, 2};
      var _ := SetBit(0, bufDbmap);
      var ino := 0;
      while ino < NUM_RESV_INO
        invariant 0 <= ino <= NUM_RESV_INO
        invariant Bits(bufIbmap[..]) == {0, 1, 2} && Bits(bufDbmap[..]) == {0}
        invariant forall i :: 0 <= i < INODES ==> bufItble[i] == if i < ino then FormatTable()[i] else ZERO_INODE
      {
        bufItble[ino] := if ino == ROOT_INO then ROOT_INODE else bufItble[ino].(ino := ino);
        ino := ino + 1;
      }
      assert bufItble[..] == FormatTable();
    }

    ghost predicate Valid()
      reads this
    {
      |ibmap| == CLUSTER_SIZE && |dbmap| == CLUSTER_SIZE && |itble| == INODES
    }

    ghost function Metadata(): Meta
      reads this
    {
      Meta(sb, Bits(ibmap), Bits(dbmap), itble)
    }
  }

  class FileSystem {
    const dev: Device
    var sb: Super
    var sbi: SbInfo
    const ibmap: array<bv8>
    const dbmap: array<bv8>
    const itble: array<Inode>
    const fileTable: array<OpenFile>

    /** check_formated after its signature test, and lab4_fill_super: all buffers come from the device. */
    constructor Mount(device: Device)
      requires device.Valid()
      ensures Valid() && dev == device && Model() == FsSpec.Mount(device.Metadata(), device.data[..])
      ensures fresh(ibmap) && fresh(dbmap) && fresh(itble) && fresh(fileTable)
    {
      var ib, db, it := device.ibmap, device.dbmap, device.itble;
      dev := device;
      sb := device.sb;
      sbi := FillSuper(device.sb);
      ibmap := new bv8[CLUSTER_SIZE](i requires 0 <= i < |ib| => ib[i]);
      dbmap := new bv8[CLUSTER_SIZE](i requires 0 <= i < |db| => db[i]);
      itble := new Inode[INODES](i requires 0 <= i < |it| => it[i]);
      fileTable := new OpenFile[MAX_OPEN_FILE](_ => CLOSED);
      new;
      assert ibmap[..] == ib && dbmap[..] == db && itble[..] == it;
      assert fileTable[..] == seq(MAX_OPEN_FILE, _ => CLOSED);
    }

    /** check_formated: only a device with the right signature is mounted. */
    static method CheckFormatted(device: Device) returns (fs: FileSystem?)
      requires device.Valid()
      ensures fs == null <==> device.sb.signature != SIGNATURE
      ensures fs != null ==> fresh(fs) && fs.Valid() && fs.dev == device
      ensures fs != null ==> fs.Model() == FsSpec.Mount(device.Metadata(), device.data[..])
    {
      if device.sb.signature == SIGNATURE {
        fs := new FileSystem.Mount(device);
      } else {
        fs := null;
      }
    }

    /** A format of a zeroed device and the first mount of it. */
    static method Start(sectors: nat) returns (fs: FileSystem)
      requires Formattable(sectors)
      ensures fresh(fs) && fresh(fs.dev) && fs.Valid()
      ensures fs.Model() == FormatAndMount(sectors) && Consistent(fs.Model())
    {
      hide Consistent;
      var device := new Device.Format(sectors);
      var mounted := CheckFormatted(device);
      fs := mounted;
      MountStep.FormatConsistent(sectors);
    }

    /** A mount of the device after an unmount: what was only in memory is gone. */
    method Reopen() returns (fs: FileSystem)
      requires Valid() && Consistent(Model())
      ensures fresh(fs) && fs.Valid() && fs.dev == dev
      ensures fs.Model() == Remount(Model()) && Consistent(fs.Model()) && NameTree.NamesOf(fs.Model()) == NameTree.NamesOf(Model())
    {
      hide DiskOk, InodesOk, BlocksOk, HandlesOk, TreeOk, NameTree.NamesOf;
      MountStep.RemountConsistent(Model());
      var mounted := CheckFormatted(dev);
      fs := mounted;
    }

    ghost predicate Valid()
      reads this, dev
    {
      && dev.Valid() && ibmap != dbmap
      && dev.data !in Buffers()
      && ibmap.Length == CLUSTER_SIZE && dbmap.Length == CLUSTER_SIZE && itble.Length == INODES && fileTable.Length == MAX_OPEN_FILE
    }

    ghost function Buffers(): set<object> {
      {this, ibmap, dbmap, itble, fileTable}
    }

    ghost function Repr(): set<object> {
      Buffers() + {dev, dev.data}
    }

    /** The state of FsSpec that the buffers and the device stand for. */
    ghost function Model(): State
      reads Repr()
    {
      State(Meta(sb, InodeBits(), BlockBits(), Inodes()), dev.Metadata(), sbi, Blocks(), Handles())
    }

    ghost function InodeBits(): set<nat>
      reads ibmap
    {
      Bits(ibmap[..])
    }

    ghost function BlockBits(): set<nat>
      reads dbmap
    {
      Bits(dbmap[..])
    }

    ghost function Inodes(): seq<Inode>
      reads itble
    {
      itble[..]
    }

    ghost function Blocks(): seq<Cluster>
      reads dev.data
    {
      dev.data[..]
    }

    ghost function Handles(): seq<OpenFile>
      reads fileTable
    {
      fileTable[..]
    }

    // -------------------------------------------------------------- the device

    method UpdateSb()
      requires Valid()
      modifies dev
      ensures Valid() && Model() == old(Model()).(disk := old(Model()).disk.(sb := old(Model()).mem.sb))
    {
      dev.sb := sb;
    }

    method UpdateIbmap()
      requires Valid()
      modifies dev
      ensures Valid() && Model() == old(Model()).(disk := old(Model()).disk.(ibits := old(Model()).mem.ibits))
    {
      dev.ibmap := ibmap[..];
    }

    method UpdateDbmap()
      requires Valid()
      modifies dev
      ensures Valid() && Model() == old(Model()).(disk := old(Model()).disk.(dbits := old(Model()).mem.dbits))
    {
      dev.dbmap := dbmap[..];
    }

    method UpdateItble()
      requires Valid()
      modifies dev
      ensures Valid() && Model() == old(Model()).(disk := old(Model()).disk.(itable := old(Model()).mem.itable))
    {
      dev.itble := itble[..];
    }

    method UpdateAll()
      requires Valid()
      modifies dev
      ensures Valid() && Model() == FlushAll(old(Model()))
    {
      UpdateSb();
      UpdateIbmap();
      UpdateDbmap();
      UpdateItble();
    }

    method RestoreIbmap()
      requires Valid()
      modifies ibmap
      ensures Valid() && Model() == FsSpec.RestoreIbmap(old(Model()))
    {
      forall i | 0 <= i < ibmap.Length {
        ibmap[i] := dev.ibmap[i];
      }
      assert ibmap[..] == dev.ibmap;
    }

    method RestoreDbmap()
      requires Valid()
      modifies dbmap
      ensures Valid() && Model() == FsSpec.RestoreDbmap(old(Model()))
    {
      forall i | 0 <= i < dbmap.Length {
        dbmap[i] := dev.dbmap[i];
      }
      assert dbmap[..] == dev.dbmap;
    }

    /** pread of a directory cluster. */
    method ReadSlots(addr: nat) returns (slots: seq<Slot>)
      requires Valid() && InData(dev.data[..], addr) && dev.data[..][BlockOf(addr)].Entries?
      ensures slots == SlotsAt(Model().blocks, addr)
    {
      slots := dev.data[addr / CLUSTER_SIZE - DAREA_OFFSET].slots;
    }

    /** pwrite of one directory entry. */
    method WriteSlot(addr: nat, e: Slot)
      requires Valid() && InData(dev.data[..], addr) && dev.data[..][BlockOf(addr)].Entries?
      requires addr % CLUSTER_SIZE / ENTRY_SIZE < |SlotsAt(dev.data[..], addr)|
      modifies dev.data
      ensures Valid() && Model() == old(Model()).(blocks := PutSlot(old(Model()).blocks, addr, e))
    {
      var b, k := addr / CLUSTER_SIZE - DAREA_OFFSET, addr % CLUSTER_SIZE / ENTRY_SIZE;
      dev.data[b] := Entries(dev.data[b].slots[k := e]);
      assert dev.data[..] == PutSlot(old(dev.data[..]), addr, e);
    }

    /** pwrite of the directory entry `readBytes` into the cluster at `block`. */
    method WriteEntry(block: nat, readBytes: nat, e: Slot)
      requires Valid() && block % CLUSTER_SIZE == 0 && readBytes < SLOTS * ENTRY_SIZE
      requires InData(dev.data[..], block) && dev.data[..][BlockOf(block)].Entries? && |SlotsAt(dev.data[..], block)| == SLOTS
      modifies dev.data
      ensures Valid() && Model() == old(Model()).(blocks := PutSlot(old(Model()).blocks, block + readBytes, e))
    {
      EntryAddress(block, readBytes);
      WriteSlot(block + readBytes, e);
    }

    /** pwrite of a whole cluster. */
    method WriteCluster(addr: nat, c: Cluster)
      requires Valid() && InData(dev.data[..], addr)
      modifies dev.data
      ensures Valid() && Model() == old(Model()).(blocks := PutCluster(old(Model()).blocks, addr, c))
    {
      dev.data[addr / CLUSTER_SIZE - DAREA_OFFSET] := c;
      assert dev.data[..] == PutCluster(old(dev.data[..]), addr, c);
    }

    /** pwrite of bytes inside one cluster of a file. */
    method WriteBytes(addr: nat, bytes: seq<bv8>)
      requires Valid() && InData(dev.data[..], addr) && dev.data[..][BlockOf(addr)].Bytes?
      requires addr % CLUSTER_SIZE + |bytes| <= |BytesAt(dev.data[..], addr)|
      modifies dev.data
      ensures Valid() && Model() == old(Model()).(blocks := PutBytes(old(Model()).blocks, addr, bytes))
    {
      var b, at := addr / CLUSTER_SIZE - DAREA_OFFSET, addr % CLUSTER_SIZE;
      var prior := dev.data[b].data;
      dev.data[b] := Bytes(prior[..at] + bytes + prior[at + |bytes|..]);
      assert dev.data[..] == PutBytes(old(dev.data[..]), addr, bytes);
    }

    // -------------------------------------------------------------- allocation

    /** alloc_new_inode. */
    method AllocNewInode() returns (n: Option<Inode>)
      requires Valid() && sbi.lastIno <= INODES && sbi.ibitmapSize == CLUSTER_SIZE
      modifies this`sb, this`sbi, ibmap
      ensures Valid() && Model() == AllocInode(old(Model())).0
      ensures n == match AllocInode(old(Model())).1 case None => None case Some(i) => Some(ZERO_INODE.(ino := i, version := 1))
    {
      var ino := Bmap.ScanAllocate(ibmap, sbi.lastIno, sbi.ibitmapSize / ENTRY_SIZE);
      if ino.None? {
        assert ibmap[..] == old(ibmap[..]) || Bits(ibmap[..]) == old(Bits(ibmap[..]));
        return None;
      }
      sb := sb.(lastIno := ino.value + 1);
      sbi := sbi.(lastIno := ino.value + 1);
      sb := sb.(freeInodes := sb.freeInodes - 1);
      n := Some(ZERO_INODE.(ino := ino.value, version := 1));
    }

    /** alloc_block_inbmap. */
    method AllocBlockInBmap() returns (b: Option<nat>)
      requires Valid() && sbi.clusterSize == CLUSTER_SIZE && sbi.lastBlk < 8 * CLUSTER_SIZE
      requires sbi.dareaSize / CLUSTER_SIZE <= 8 * CLUSTER_SIZE
      modifies this`sb, dbmap
      ensures Valid() && Model() == AllocBlock(old(Model())).0 && b == AllocBlock(old(Model())).1
      ensures b.Some? && sbi.lastBlk < sbi.dareaSize / CLUSTER_SIZE ==>
                Bmap.FirstClear(old(BlockBits()), sbi.lastBlk, sbi.dareaSize / CLUSTER_SIZE, b.value)
    {
      if sbi.lastBlk < sbi.dareaSize / CLUSTER_SIZE && AllocBlock(Model()).1.Some? {
        Bmap.ScanTakesFirstClear(BlockBits(), sbi.lastBlk, sbi.dareaSize / CLUSTER_SIZE);
      }
      b := Bmap.ScanAllocate(dbmap, sbi.lastBlk, sbi.dareaSize / sbi.clusterSize);
      if b.Some? {
        sb := sb.(freeBlocks := sb.freeBlocks - 1);
      }
    }

    /** write_inode_to_itble. */
    method WriteInodeToItble(n: Inode)
      requires Valid() && n.ino < INODES
      modifies itble
      ensures Valid() && Model() == WriteInode(old(Model()), n)
    {
      itble[n.ino] := n;
      assert itble[..] == old(itble[..])[n.ino := n];
    }

    /** inc_link. */
    method IncLink(i: nat)
      requires Valid() && i < INODES
      modifies itble
      ensures Valid() && Model() == AddLinks(old(Model()), i, 1)
    {
      itble[i] := itble[i].(links := (itble[i].links + 1) % U32);
      assert itble[..] == old(itble[..])[i := itble[i]];
    }

    /** dec_link. */
    method DecLink(i: nat)
      requires Valid() && i < INODES
      modifies itble
      ensures Valid() && Model() == AddLinks(old(Model()), i, -1)
    {
      itble[i] := itble[i].(links := (itble[i].links - 1) % U32);
      assert itble[..] == old(itble[..])[i := itble[i]];
    }

    /** delete_inode. */
    method DeleteInode(i: nat)
      requires Valid() && i < INODES
      modifies this`sb, ibmap, itble
      ensures Valid() && Model() == FreeInode(old(Model()), i)
    {
      var _ := ClearBit(i, ibmap);
      itble[i] := ZERO_INODE;
      sb := sb.(freeInodes := sb.freeInodes + 1);
      assert itble[..] == old(itble[..])[i := ZERO_INODE];
    }

    /** delete_block_inbmap. */
    method DeleteBlockInBmap(addr: nat)
      requires Valid() && sbi.clusterSize == CLUSTER_SIZE && 0 <= BlockNumber(sbi, addr) < 8 * CLUSTER_SIZE
      modifies this`sb, dbmap
      ensures Valid() && Model() == FreeBlock(old(Model()), addr)
    {
      var b := (addr - sbi.dareaStart) / sbi.clusterSize;
      var _ := ClearBit(b, dbmap);
      sb := sb.(freeBlocks := sb.freeBlocks + 1);
      assert Bits(dbmap[..]) == FreeBlock(old(Model()), addr).mem.dbits;
    }

    // -------------------------------------------------------------- looking things up

    /** lab4_lookup: the slot index of the entry. */
    method Lookup(par: nat, name: string) returns (k: Option<nat>)
      requires Valid() && Consistent(Model()) && IsDir(Model().mem.itable, par)
      ensures k == FindSlot(DirSlots(Model(), par), name)
    {
      hide Consistent;
      DirInPlace(par);
      var dir := itble[par];
      var slots := ReadSlots(dir.block);
      var readBytes := 0;
      while readBytes < dir.size
        invariant 0 <= readBytes <= dir.size && readBytes % ENTRY_SIZE == 0
        invariant forall j :: 0 <= j < readBytes / ENTRY_SIZE ==> !Match(slots[j], name)
      {
        var e := slots[readBytes / ENTRY_SIZE];
        if e.flag == Used && e.name == name {
          return Some(readBytes / ENTRY_SIZE);
        }
        readBytes := readBytes + ENTRY_SIZE;
      }
      k := None;
    }

    /** A live directory's cluster is where its inode says. */
    lemma DirInPlace(d: nat)
      requires Valid() && Consistent(Model()) && IsDir(Model().mem.itable, d)
      ensures d < INODES && itble[d].ino == d && itble[d].size == SLOTS * ENTRY_SIZE && itble[d].block % CLUSTER_SIZE == 0
      ensures InData(dev.data[..], itble[d].block) && dev.data[..][BlockOf(itble[d].block)] == Entries(DirSlots(Model(), d))
      ensures |DirSlots(Model(), d)| == SLOTS && 2 <= FreeSlot(DirSlots(Model(), d)) < SLOTS
    {
      StepFacts.DirFacts(Model(), d);
      AddrIs(BlockAt(Model().mem.itable, d));
    }

    /** The scan for a slot that is not in use; it finds one in every live directory (NoOverflow). */
    static method ScanFree(slots: seq<Slot>, size: nat) returns (readBytes: nat)
      requires size == |slots| * ENTRY_SIZE
      ensures readBytes == FreeSlot(slots) * ENTRY_SIZE
    {
      readBytes := 0;
      while readBytes < size
        invariant 0 <= readBytes <= size && readBytes % ENTRY_SIZE == 0
        invariant forall j :: 0 <= j < readBytes / ENTRY_SIZE ==> slots[j].flag == Used
      {
        if slots[readBytes / ENTRY_SIZE].flag != Used { break; }
        readBytes := readBytes + ENTRY_SIZE;
      }
    }

    /** lab4_read_inode: the walk along the tokens of a path. */
    method ReadInode(path: string) returns (ino: Option<nat>)
      requires Valid() && Consistent(Model()) && RenameStep.WalkSafe(Model(), Tokens(path))
      ensures ino == Walk(Model(), path)
    {
      hide Consistent, DirView;
      var cur := sbi.rootIno;
      RootIs();
      var pos := 0;
      ghost var all := Tokens(path);
      ghost var k := 0;
      assert path[0..] == path;
      while true
        invariant 0 <= pos <= |path| && 0 <= k <= |all|
        invariant Tokens(path[pos..]) == all[k..] && Resolve(View(Model()), all[..k]) == Some(cur)
        decreases |path| - pos
      {
        var token, next := StrTok(path, pos);
        if token.None? {
          assert all[..k] == all;
          return Some(cur);
        }
        assert all[k] == all[k..][0] == token.value && all[..k + 1] == all[..k] + [token.value] && all[k + 1..] == all[k..][1..];
        ResolveSnoc(View(Model()), all[..k], token.value);
        RemoveStep.ViewAt(Model(), cur);
        var slot := Lookup(cur, token.value);
        if slot.None? {
          DeadEnd(View(Model()), all, k + 1);
          return None;
        }
        DirInPlace(cur);
        var slots := ReadSlots(itble[cur].block);
        cur := slots[slot.value].ino;
        pos, k := next, k + 1;
      }
    }

    lemma RootIs()
      requires Valid() && Consistent(Model())
      ensures sbi.rootIno == ROOT_INO
    {
    }

    /** A walk that fails on a prefix of the path fails on the path. */
    static lemma DeadEnd(ns: Dirs, p: Path, k: nat)
      requires k <= |p| && Resolve(ns, p[..k]) == None
      ensures Resolve(ns, p) == None
    {
      if Resolve(ns, p).Some? {
        PrefixResolves(ns, p, k);
      }
    }

    // -------------------------------------------------------------- mkdir and create

    /** do_mkdir. */
    method Mkdir(parent: Inode, name: string) returns (status: Status)
      requires Valid() && MkdirStep.CanMkdir(Model(), parent.ino, name) && parent == InodeAt(Model().mem.itable, parent.ino)
      modifies Repr()
      ensures Valid() && (Model(), status) == FsSpec.Mkdir(old(Model()), parent.ino, name)
      ensures Consistent(Model())
    {
      hide Consistent, InstallDir, AllocInode, AllocBlock;
      ghost var s := Model();
      MkdirStep.MkdirConsistent(s, parent.ino, name);
      ScanRanges(s);
      DirInPlace(parent.ino);
      var found := Lookup(parent.ino, name);
      if found.Some? {
        return Exists;
      }
      var newInode := AllocNewInode();
      if newInode.None? {
        RestoreIbmap();
        return Error;
      }
      ScanRangesKept(s);
      var blk := AllocBlockInBmap();
      if blk.None? {
        RestoreDbmap();
        return Error;
      }
      AllocRanges(s);
      MakeDir(parent, name, newInode.value.ino, blk.value);
      UpdateAll();
      status := Success;
    }

    static lemma ScanRanges(s: State)
      requires Consistent(s)
      ensures s.sbi.lastIno <= INODES && s.sbi.ibitmapSize == CLUSTER_SIZE == s.sbi.clusterSize && s.sbi.lastBlk < 8 * CLUSTER_SIZE
      ensures s.sbi.dareaSize / CLUSTER_SIZE <= 8 * CLUSTER_SIZE && s.sbi.dareaStart == DAREA_OFFSET * CLUSTER_SIZE
    {
    }

    static lemma ScanRangesKept(s: State)
      ensures AllocInode(s).0.sbi == s.sbi.(lastIno := AllocInode(s).0.sbi.lastIno) && AllocInode(s).0.blocks == s.blocks
      ensures AllocInode(s).0.mem.itable == s.mem.itable
    {
    }

    static lemma AllocRanges(s: State)
      requires Consistent(s)
      ensures var (s1, i) := AllocInode(s);
              var (s2, b) := AllocBlock(s1);
              && (i.Some? ==> i.value < INODES) && (b.Some? ==> b.value < |s.blocks|)
              && s2.sbi == s1.sbi && s2.blocks == s.blocks && s2.mem.itable == s.mem.itable
    {
      hide TreeOk, BlocksOk;
      MkdirStep.BothAllocations(s);
      StepFacts.AllocTakesHint(s);
      StepFacts.AllocTakesFreeBlock(s);
    }

    /** The part of do_mkdir after both allocations. */
    method MakeDir(parent: Inode, name: string, ino: nat, blk: nat)
      requires Valid() && ino < INODES && parent.ino < INODES && blk < dev.data.Length
      requires sbi.clusterSize == CLUSTER_SIZE && sbi.dareaStart == DAREA_OFFSET * CLUSTER_SIZE
      requires parent.size == SLOTS * ENTRY_SIZE && parent.block % CLUSTER_SIZE == 0
      requires InData(dev.data[..], parent.block) && dev.data[..][BlockOf(parent.block)].Entries?
      requires |SlotsAt(Model().blocks, parent.block)| == SLOTS && FreeSlot(SlotsAt(Model().blocks, parent.block)) < SLOTS
      modifies this`sb, itble, dev.data
      ensures Valid() && Model() == InstallDir(old(Model()), parent, name, ino, blk)
    {
      hide PutSlot, PutCluster, FindSlot, FreeSlot, DotSlots, WriteInode, AddLinks, BlockOf, SlotsAt;
      ghost var s := Model();
      var cluster := sbi.clusterSize;
      var dots := Entries(DotSlots(ino, parent.ino));
      sb := sb.(lastBlk := blk);
      var newInode := Inode(ino, Directory, SLOTS * ENTRY_SIZE, 1, 2, 1, sb.dareaStart * cluster + blk * cluster);
      var slots := ReadSlots(parent.block);
      var readBytes := ScanFree(slots, parent.size);
      newInode := newInode.(ptr := readBytes / ENTRY_SIZE);
      ghost var s1 := s.(mem := s.mem.(sb := s.mem.sb.(lastBlk := blk)));
      assert Model() == s1 && newInode == NewDirInode(s1, ino, blk, FreeSlot(slots));
      WriteInodeToItble(newInode);
      WriteEntry(parent.block, readBytes, Slot(ino, Used, 0, name));
      BlockAddress(blk);
      WriteCluster(blk * cluster + sbi.dareaStart, dots);
      IncLink(parent.ino);
    }

    static lemma EntryAddress(block: nat, readBytes: nat)
      requires block % CLUSTER_SIZE == 0 && readBytes < CLUSTER_SIZE
      ensures BlockOf(block + readBytes) == BlockOf(block) && (block + readBytes) % CLUSTER_SIZE == readBytes
    {
    }

    static lemma BlockAddress(b: nat)
      ensures BlockOf(b * CLUSTER_SIZE + DAREA_OFFSET * CLUSTER_SIZE) == b
    {
    }

    /** lab4_createfile; on success the number of the new inode is returned with the status. */
    method CreateFile(parent: Inode, name: string) returns (status: Status)
      requires Valid() && Consistent(Model()) && IsDir(Model().mem.itable, parent.ino) && parent == InodeAt(Model().mem.itable, parent.ino)
      requires 1 <= |name| < FNAME_SIZE ==> LegalName(name)
      modifies Repr()
      ensures Valid() && (Model(), status) == FsSpec.CreateFile(old(Model()), parent.ino, name)
      ensures Consistent(Model())
    {
      hide Consistent, InstallFile, AllocInode;
      ghost var s := Model();
      if |name| < 1 || |name| >= FNAME_SIZE {
        return NameTooLong;
      }
      CreateStep.CreateConsistent(s, parent.ino, name);
      ScanRanges(s);
      DirInPlace(parent.ino);
      var found := Lookup(parent.ino, name);
      if found.Some? {
        return Exists;
      }
      if parent.links == MAX_FILES_PER_DIR {
        return Error;
      }
      var newInode := AllocNewInode();
      if newInode.None? {
        RestoreIbmap();
        return Error;
      }
      AllocRanges(s);
      ScanRangesKept(s);
      MakeFile(parent, name, newInode.value.ino);
      UpdateSb();
      UpdateIbmap();
      UpdateItble();
      status := Success;
    }

    /** The part of lab4_createfile after the allocation. */
    method MakeFile(parent: Inode, name: string, ino: nat)
      requires Valid() && ino < INODES && parent.size == SLOTS * ENTRY_SIZE && parent.block % CLUSTER_SIZE == 0
      requires InData(dev.data[..], parent.block) && dev.data[..][BlockOf(parent.block)].Entries?
      requires |SlotsAt(Model().blocks, parent.block)| == SLOTS && FreeSlot(SlotsAt(Model().blocks, parent.block)) < SLOTS
      modifies this`sb, itble, dev.data
      ensures Valid() && Model() == InstallFile(old(Model()), parent, name, ino)
    {
      hide PutSlot, FindSlot, FreeSlot, WriteInode, BlockOf, SlotsAt;
      ghost var s := Model();
      var newInode := Inode(ino, File, 0, 1, 1, 0, 0);
      var slots := ReadSlots(parent.block);
      var readBytes := ScanFree(slots, parent.size);
      newInode := newInode.(ptr := readBytes / ENTRY_SIZE);
      assert newInode == Inode(ino, File, 0, 1, 1, FreeSlot(slots), 0);
      WriteInodeToItble(newInode);
      WriteEntry(parent.block, readBytes, Slot(ino, Used, 1, name));
      sb := sb.(freeInodes := sb.freeInodes - 1);
    }

    // -------------------------------------------------------------- rmdir and unlink

    /** check_dir_deletable. */
    method CheckDirDeletable(n: Inode) returns (empty: bool)
      requires Valid() && InData(dev.data[..], n.block) && dev.data[..][BlockOf(n.block)].Entries?
      requires n.size == |SlotsAt(dev.data[..], n.block)| * ENTRY_SIZE
      ensures empty <==> NoEntries(SlotsAt(Model().blocks, n.block))
    {
      var slots := ReadSlots(n.block);
      var readBytes, count := 2 * ENTRY_SIZE, 2;
      while readBytes < n.size
        invariant readBytes == count * ENTRY_SIZE && 2 <= count
        invariant forall j :: 2 <= j < count && j < |slots| ==> slots[j].flag != Used
        decreases n.size - readBytes
      {
        if slots[count].flag == Used {
          return false;
        }
        readBytes, count := readBytes + ENTRY_SIZE, count + 1;
      }
      empty := true;
    }

    /** do_rmdir. */
    method Rmdir(parent: Inode, name: string) returns (status: Status)
      requires Valid() && RemoveStep.CanRmdir(Model(), parent.ino, name) && parent == InodeAt(Model().mem.itable, parent.ino)
      modifies Repr()
      ensures Valid() && (Model(), status) == FsSpec.Rmdir(old(Model()), parent.ino, name)
      ensures Consistent(Model())
    {
      hide Consistent, FreeInode, FreeBlock, AddLinks, PutSlot, PutCluster, NoEntries, FindSlot, FreeSlot, BlockNumber;
      ghost var s := Model();
      RemoveStep.RmdirConsistent(s, parent.ino, name);
      DirInPlace(parent.ino);
      var found := Lookup(parent.ino, name);
      if found.None? {
        return NoEntry;
      }
      RemoveStep.FoundEntry(s, parent.ino, name);
      var slots := ReadSlots(parent.block);
      var entry := slots[found.value];
      var n := itble[entry.ino];
      DirInPlace(entry.ino);
      var empty := CheckDirDeletable(n);
      if !empty {
        return NotEmpty;
      }
      RemovalInPlace(s, parent.ino, entry.ino);
      DeleteInode(n.ino);
      DeleteBlockInBmap(n.block);
      ClearDir(parent, found.value, entry, n);
      UpdateAll();
      status := Success;
    }

    /** The target of a removal owns another block than its parent, inside the data area. */
    static lemma RemovalInPlace(s: State, par: nat, m: nat)
      requires Consistent(s) && OwnerAt(s.mem.itable, par) && OwnerAt(s.mem.itable, m) && par != m
      ensures BlockAt(s.mem.itable, par) != BlockAt(s.mem.itable, m) && InData(s.blocks, s.mem.itable[m].block)
      ensures s.sbi.clusterSize == CLUSTER_SIZE && 0 <= BlockNumber(s.sbi, s.mem.itable[m].block) < 8 * CLUSTER_SIZE
    {
      hide TreeOk, BitsOk, HandlesOk, DiskOk, InodesOk;
      var b := BlockAt(s.mem.itable, m);
      assert s.mem.itable[m].block == Addr(b);
      assert (b * CLUSTER_SIZE) / CLUSTER_SIZE == b;
    }

    /** The writes to the data area in do_rmdir, and the parent's link. */
    method ClearDir(parent: Inode, k: nat, entry: Slot, n: Inode)
      requires Valid() && parent.ino < INODES && parent.block % CLUSTER_SIZE == 0 && k < SLOTS
      requires InData(dev.data[..], parent.block) && dev.data[..][BlockOf(parent.block)].Entries?
      requires |SlotsAt(Model().blocks, parent.block)| == SLOTS
      requires InData(dev.data[..], n.block) && BlockOf(n.block) != BlockOf(parent.block)
      modifies itble, dev.data
      ensures Valid()
      ensures Model() == var s := old(Model());
                         AddLinks(s.(blocks := PutSlot(PutCluster(s.blocks, n.block, ZERO_CLUSTER),
                                                       parent.block + k * ENTRY_SIZE, Unlinked(entry))), parent.ino, -1)
    {
      hide PutSlot, AddLinks;
      WriteCluster(n.block, ZERO_CLUSTER);
      WriteEntry(parent.block, k * ENTRY_SIZE, entry.(flag := Deleted));
      DecLink(parent.ino);
    }

    /** do_unlink. */
    method Unlink(parent: Inode, name: string) returns (status: Status)
      requires Valid() && RemoveStep.CanUnlink(Model(), parent.ino, name) && parent == InodeAt(Model().mem.itable, parent.ino)
      modifies Repr()
      ensures Valid() && (Model(), status) == FsSpec.Unlink(old(Model()), parent.ino, name)
      ensures Consistent(Model())
    {
      hide Consistent, FreeInode, FreeBlock, PutSlot, PutCluster, FindSlot, FreeSlot, BlockNumber, FreeFile;
      ghost var s := Model();
      RemoveStep.UnlinkConsistent(s, parent.ino, name);
      DirInPlace(parent.ino);
      var found := Lookup(parent.ino, name);
      if found.None? {
        return NoEntry;
      }
      RemoveStep.FoundEntry(s, parent.ino, name);
      var slots := ReadSlots(parent.block);
      var entry := slots[found.value];
      var n := itble[entry.ino];
      RemoveStep.FileFacts(s, entry.ino);
      if n.links == 1 {
        if n.size != 0 { RemovalInPlace(s, parent.ino, entry.ino); }
        DropFile(n, parent.block);
      }
      WriteEntry(parent.block, found.value * ENTRY_SIZE, entry.(flag := Deleted));
      UpdateAll();
      status := Success;
    }

    /** The freeing branch of do_unlink; the cluster at `keep` is another one and stays. */
    method DropFile(n: Inode, ghost keep: nat)
      requires Valid() && n.ino < INODES && InData(dev.data[..], keep)
      requires n.size != 0 ==> && InData(dev.data[..], n.block) && BlockOf(n.block) != BlockOf(keep)
                               && sbi.clusterSize == CLUSTER_SIZE && 0 <= BlockNumber(sbi, n.block) < 8 * CLUSTER_SIZE
      modifies this`sb, ibmap, dbmap, itble, dev.data
      ensures Valid() && Model() == FreeFile(old(Model()), n) && dev.data[..][BlockOf(keep)] == old(dev.data[..])[BlockOf(keep)]
    {
      hide FreeBlock, FreeInode;
      if n.size != 0 {
        ghost var s := Model();
        DeleteBlockInBmap(n.block);
        WriteCluster(n.block, ZERO_CLUSTER);
        assert Model() == FreeBlock(s, n.block).(blocks := PutCluster(s.blocks, n.block, ZERO_CLUSTER));
      }
      DeleteInode(n.ino);
    }

    // -------------------------------------------------------------- rename

    /** do_rename. */
    method Rename(from: string, to: string) returns (status: Status)
      requires Valid() && RenameStep.CanRename(Model(), from, to)
      modifies dev.data
      ensures Valid() && (Model(), status) == FsSpec.Rename(old(Model()), from, to)
    {
      hide Consistent, PutSlot, DirView, FindSlot;
      RenamePaths(Model(), from, to);
      var fName, dName := GetNameFromPath(from);
      var source := ReadInode(dName);
      if source.None? {
        return NoEntry;
      }
      var found := Lookup(source.value, fName);
      if found.None? {
        return NoEntry;
      }
      RemoveStep.FoundEntry(Model(), source.value, fName);
      DirInPlace(source.value);
      var target := ReadInode(to);
      if target.None? {
        fName, dName := GetNameFromPath(to);
        target := ReadInode(dName);
        if target == source {
          RenameEntry(source.value, found.value, fName);
          return Success;
        }
      }
      status := MoveEntryInto(source.value, found.value, target.value, fName);
    }

    /** What do_rename relies on: safe walks to both parents, which are directories. */
    static lemma RenamePaths(s: State, from: string, to: string)
      requires RenameStep.CanRename(s, from, to)
      ensures RenameStep.WalkSafe(s, Tokens(DirName(from))) && RenameStep.WalkSafe(s, Tokens(DirName(to)))
      ensures Walk(s, DirName(from)).Some? ==> IsDir(s.mem.itable, Walk(s, DirName(from)).value)
      ensures Walk(s, to).Some? ==> InTable(s, Walk(s, to).value)
      ensures InTable(s, Walk(s, DirName(to)).value)
    {
      hide Consistent;
      RenameStep.SourceDir(s, from);
      RenameStep.SourceDir(s, to);
      SafePrefix(s, Tokens(from), |Tokens(from)| - 1);
      SafePrefix(s, Tokens(to), |Tokens(to)| - 1);
      assert Tokens(from)[..|Tokens(from)| - 1] == Tokens(DirName(from));
      assert Tokens(to)[..|Tokens(to)| - 1] == Tokens(DirName(to));
      if Walk(s, to).Some? { WalkInTable(s, Tokens(to)); }
      WalkInTable(s, Tokens(DirName(to)));
    }

    static predicate InTable(s: State, i: nat) {
      i < |s.mem.itable|
    }

    static lemma WalkInTable(s: State, p: Path)
      requires Consistent(s) && LegalPath(p) && Resolve(View(s), p).Some?
      ensures InTable(s, Resolve(View(s), p).value)
    {
      hide BlocksOk, DirShape;
      NameTree.ResolvesToLive(View(s), FileSet(s.mem.itable), p);
    }

    static lemma SafePrefix(s: State, p: Path, k: nat)
      requires RenameStep.WalkSafe(s, p) && k <= |p|
      ensures RenameStep.WalkSafe(s, p[..k])
    {
      assert forall j :: 0 <= j < k ==> p[..k][..j] == p[..j];
    }

    /** The same-directory case of do_rename: the slot gets the new name in place. */
    method RenameEntry(dir: nat, k: nat, name: string)
      requires Valid() && Consistent(Model()) && IsDir(Model().mem.itable, dir) && k < |DirSlots(Model(), dir)|
      modifies dev.data
      ensures Valid() && Model() == RenameSlot(old(Model()), dir, k, name).0
    {
      hide Consistent, PutSlot;
      DirInPlace(dir);
      var block := itble[dir].block;
      var slots := ReadSlots(block);
      WriteEntry(block, k * ENTRY_SIZE, slots[k].(flag := Used, name := name));
    }

    /** The other cases of do_rename: the entry goes to the first slot of `target` that is not in use. */
    method MoveEntryInto(source: nat, k: nat, target: nat, probe: string) returns (status: Status)
      requires Valid() && Consistent(Model()) && IsDir(Model().mem.itable, source) && k < |DirSlots(Model(), source)|
      requires InTable(Model(), target)
      modifies dev.data
      ensures Valid() && (Model(), status) == MoveInto(old(Model()), source, k, target, probe)
    {
      hide Consistent, PutSlot, FindSlot, FreeSlot, View;
      if itble[target].kind != Directory {
        return Exists;
      }
      var found := Lookup(target, probe);
      if found.Some? {
        return Exists;
      }
      DirInPlace(source);
      DirInPlace(target);
      var block, block' := itble[source].block, itble[target].block;
      var sourceSlots := ReadSlots(block);
      var entry := sourceSlots[k];
      var slots := ReadSlots(block');
      var readBytes := ScanFree(slots, itble[target].size);
      TransferEntry(entry, block, k, block', readBytes);
      status := Success;
    }

    /** The two slot writes of do_rename. */
    method TransferEntry(entry: Slot, block: nat, k: nat, block': nat, readBytes: nat)
      requires Valid() && k < SLOTS && readBytes < SLOTS * ENTRY_SIZE
      requires block % CLUSTER_SIZE == 0 && InData(dev.data[..], block) && dev.data[..][BlockOf(block)].Entries?
      requires block' % CLUSTER_SIZE == 0 && InData(dev.data[..], block') && dev.data[..][BlockOf(block')].Entries?
      requires |SlotsAt(dev.data[..], block)| == SLOTS && |SlotsAt(dev.data[..], block')| == SLOTS
      modifies dev.data
      ensures Valid()
      ensures Model() == old(Model()).(blocks := PutSlot(PutSlot(old(Model()).blocks, block' + readBytes, entry.(flag := Used)),
                                                         block + k * ENTRY_SIZE, Unlinked(entry)))
    {
      hide PutSlot, BlockOf;
      SlotWriteKeeps(dev.data[..], block' + readBytes, entry.(flag := Used), block);
      WriteEntry(block', readBytes, entry.(flag := Used));
      WriteEntry(block, k * ENTRY_SIZE, entry.(flag := Deleted));
    }

    /** Writing a slot leaves every directory cluster a directory cluster of the same size. */
    static lemma SlotWriteKeeps(blocks: seq<Cluster>, addr: nat, e: Slot, other: nat)
      requires InData(blocks, other) && blocks[BlockOf(other)].Entries?
      ensures var blocks' := PutSlot(blocks, addr, e);
              && InData(blocks', other) && blocks'[BlockOf(other)].Entries?
              && |SlotsAt(blocks', other)| == |SlotsAt(blocks, other)|
    {
    }

    /** do_readdir. */
    method Readdir(dir: Inode, offset: nat) returns (entries: seq<(string, nat, bool)>)
      requires Valid() && Consistent(Model()) && IsDir(Model().mem.itable, dir.ino) && dir == InodeAt(Model().mem.itable, dir.ino)
      ensures entries == FsSpec.Readdir(Model().mem.itable, DirSlots(Model(), dir.ino), offset)
    {
      hide Consistent, FsSpec.Readdir;
      DirInPlace(dir.ino);
      var slots := ReadSlots(dir.block);
      forall k | 0 <= k < |slots| && slots[k].flag == Used
        ensures slots[k].ino < INODES
      {
        EntryInTable(dir.ino, k);
      }
      entries := FillEntries(slots, dir.size, offset);
    }

    /** The loop of do_readdir: it counts from `offset`, but its slot pointer starts at the first entry. */
    method FillEntries(slots: seq<Slot>, size: nat, offset: nat) returns (entries: seq<(string, nat, bool)>)
      requires Valid() && size == |slots| * ENTRY_SIZE
      requires forall k :: 0 <= k < |slots| && slots[k].flag == Used ==> slots[k].ino < INODES
      ensures entries == FsSpec.Readdir(Model().mem.itable, slots, offset)
    {
      var readBytes, k := offset * ENTRY_SIZE, 0;
      entries := [];
      while readBytes < size
        invariant readBytes == (offset + k) * ENTRY_SIZE && (k > 0 ==> offset + k <= |slots|) && k <= |slots|
        invariant entries == Listing(itble[..], slots[..k])
      {
        NameTree.ListingSnoc(itble[..], slots[..k], slots[k]);
        assert slots[..k + 1] == slots[..k] + [slots[k]];
        if slots[k].flag == Used {
          entries := entries + [(slots[k].name, slots[k].ino, itble[slots[k].ino].kind == Directory)];
        }
        readBytes, k := readBytes + ENTRY_SIZE, k + 1;
      }
    }

    /** Every entry in use, the dot entries included, has an inode number in the table. */
    lemma EntryInTable(d: nat, k: nat)
      requires Valid() && Consistent(Model()) && IsDir(Model().mem.itable, d)
      requires k < |DirSlots(Model(), d)| && DirSlots(Model(), d)[k].flag == Used
      ensures DirSlots(Model(), d)[k].ino < INODES
    {
      StepFacts.DirFacts(Model(), d);
      if k >= 2 { StepFacts.EntryFacts(Model(), d, k); }
    }

    // -------------------------------------------------------------- open files

    /** lab4_allocate_open_file_table. */
    method AllocateOpenFileTable() returns (fid: Option<nat>)
      requires Valid()
      ensures fid == FreeHandle(Model().files, START_OPEN_FILE)
      ensures fid.Some? ==> 3 <= fid.value < 16 && !fileTable[fid.value].used && forall g :: 3 <= g < fid.value ==> fileTable[g].used
      ensures fid.None? ==> forall g :: 3 <= g < 16 ==> fileTable[g].used
    {
      var i := START_OPEN_FILE;
      while i < MAX_OPEN_FILE
        invariant START_OPEN_FILE <= i <= MAX_OPEN_FILE
        invariant FreeHandle(fileTable[..], START_OPEN_FILE) == FreeHandle(fileTable[..], i)
        invariant forall g :: 3 <= g < i ==> fileTable[g].used
      {
        if !fileTable[i].used {
          return Some(i);
        }
        i := i + 1;
      }
      fid := None;
    }

    /** do_openfile. */
    method OpenFile(parent: Inode, name: string, create: bool, append: bool, flags: nat) returns (fid: Option<nat>)
      requires Valid() && FileStep.CanOpen(Model(), parent.ino, name) && parent == InodeAt(Model().mem.itable, parent.ino)
      modifies Repr()
      ensures Valid() && (Model(), fid) == OpenFileIn(old(Model()), parent.ino, name, create, append, flags)
      ensures Consistent(Model())
    {
      hide Consistent, FsSpec.CreateFile, FindSlot, FreeHandle;
      FileStep.OpenConsistent(Model(), parent.ino, name, create, append, flags);
      DirInPlace(parent.ino);
      var found := Lookup(parent.ino, name);
      var ino: int;
      if found.None? {
        if !create {
          return None;
        }
        var status := CreateFile(parent, name);
        if status != Success {
          return None;
        }
        ino := sbi.lastIno - 1;
      } else {
        var slots := ReadSlots(parent.block);
        ino := slots[found.value].ino;
      }
      if ino < 0 || ino >= INODES || itble[ino].kind != File {
        return None;
      }
      var n := itble[ino];
      fid := AllocateOpenFileTable();
      if fid.Some? {
        SetHandle(fid.value, FsSpecHandle(n, append, flags));
      }
    }

    static function FsSpecHandle(n: Inode, append: bool, flags: nat): Layout.OpenFile {
      Layout.OpenFile(true, n.ino, n.size, if append then n.size else 0, flags)
    }

    method SetHandle(fid: nat, f: Layout.OpenFile)
      requires Valid() && fid < MAX_OPEN_FILE
      modifies fileTable
      ensures Valid() && Model() == old(Model()).(files := old(Model()).files[fid := f])
    {
      fileTable[fid] := f;
      assert fileTable[..] == old(fileTable[..])[fid := f];
    }

    /** lab4_do_close. */
    method Close(fid: nat)
      requires Valid() && fid < MAX_OPEN_FILE
      modifies fileTable
      ensures Valid() && Model() == FsSpec.Close(old(Model()), fid)
    {
      SetHandle(fid, CLOSED);
    }

    // -------------------------------------------------------------- file data

    /** strlen on a buffer that is taken to end where the sequence does. */
    static method CStrLen(s: seq<bv8>) returns (k: nat)
      ensures k == FsSpec.StrLen(s)
    {
      k := 0;
      while k < |s| && s[k] != 0
        invariant 0 <= k <= |s| && forall j :: 0 <= j < k ==> s[j] != 0
      {
        k := k + 1;
      }
      assert forall j :: 0 <= j < k ==> s[..k][j] == s[j];
      FileStep.StrLenIs(s, k);
    }

    /** do_write for a write inside one cluster; the result is the byte count of its last pwrite. */
    method Write(fid: nat, buf: seq<bv8>, offset: nat) returns (written: Option<nat>)
      requires Valid() && FileStep.CanWrite(Model(), fid, buf, offset)
      modifies Repr()
      ensures Valid() && (Model(), written) == FsSpec.Write(old(Model()), fid, buf, offset)
      ensures Consistent(Model())
    {
      hide Consistent, AllocBlock, StoreBytes, Content, BytesAt;
      ghost var s := Model();
      FileStep.WriteConsistent(s, fid, buf, offset);
      FileStep.HandleFacts(s, fid);
      ScanRanges(s);
      SetHandle(fid, fileTable[fid].(rwoffset := offset));
      ghost var s0 := Model();
      var n := itble[fileTable[fid].ino];
      if n.size == 0 {
        var blk := AllocBlockInBmap();
        if blk.None? {
          RestoreDbmap();
          return None;
        }
        FreshBytes(s, s0, fid);
        n := n.(block := blk.value * sbi.clusterSize + sbi.dareaStart);
      } else {
        OwnBytes(s, fid);
      }
      written := Store(fid, n, buf, offset);
    }

    /** A block just allocated is a zeroed cluster. */
    static lemma FreshBytes(s: State, s0: State, fid: nat)
      requires Consistent(s) && s0 == s.(files := s0.files) && AllocBlock(s0).1.Some?
      ensures var b := AllocBlock(s0).1.value;
              var addr := b * CLUSTER_SIZE + DAREA_OFFSET * CLUSTER_SIZE;
              InData(s.blocks, addr) && s.blocks[BlockOf(addr)] == ZERO_CLUSTER && addr % CLUSTER_SIZE == 0
      ensures AllocBlock(s0).0.blocks == s.blocks && AllocBlock(s0).0.files == s0.files && AllocBlock(s0).0.sbi == s.sbi
    {
      hide TreeOk, OwnersOk, OwnersDistinct, HandlesOk, DiskOk, InodesOk;
      StepFacts.AllocTakesFreeBlock(s);
      assert AllocBlock(s0).1 == AllocBlock(s).1;
    }

    /** The block of a non-empty file is a cluster of bytes. */
    static lemma OwnBytes(s: State, fid: nat)
      requires FileStep.OpenHandle(s, fid) && InTable(s, s.files[fid].ino) && s.mem.itable[s.files[fid].ino].size > 0
      ensures var n := s.mem.itable[s.files[fid].ino];
              && InData(s.blocks, n.block) && s.blocks[BlockOf(n.block)].Bytes? && |s.blocks[BlockOf(n.block)].data| == CLUSTER_SIZE
              && n.block % CLUSTER_SIZE == 0 && n.ino == s.files[fid].ino
    {
      hide TreeOk, DirShape, DiskOk;
      FileStep.HandleFacts(s, fid);
      RemoveStep.FileFacts(s, s.files[fid].ino);
      AddrIs(BlockAt(s.mem.itable, s.files[fid].ino));
    }

    /** The loop of do_write, which a write inside one cluster leaves after one turn, and the updates. */
    method Store(fid: nat, inode: Inode, buf: seq<bv8>, offset: nat) returns (written: Option<nat>)
      requires Valid() && fid < MAX_OPEN_FILE && inode.ino < INODES && buf != [] && offset + |buf| <= CLUSTER_SIZE
      requires (offset == 0 || inode.size <= offset) && fileTable[fid].rwoffset == offset
      requires InData(dev.data[..], inode.block) && dev.data[..][BlockOf(inode.block)].Bytes?
      requires |dev.data[..][BlockOf(inode.block)].data| == CLUSTER_SIZE && inode.block % CLUSTER_SIZE == 0
      modifies this, itble, fileTable, dev, dev.data
      ensures Valid() && (Model(), written) == StoreBytes(old(Model()), fid, inode, buf, offset)
    {
      hide StoredBlocks, BytesAt, WriteInode;
      ghost var s := Model();
      var n, size := inode, |buf|;
      written := None;
      while size > 0
        invariant Valid() && (size == |buf| || size == 0)
        invariant size == |buf| ==> Model() == s && n == inode
        invariant size == 0 ==> Model() == Stored(s, fid, inode, buf, offset)
        invariant size == 0 ==> n == inode.(size := Model().files[fid].size)
        invariant size == 0 ==> written == Some(if inode.size <= offset then |buf| else CLUSTER_SIZE)
      {
        var remain := CLUSTER_SIZE - offset;
        if remain > size {
          remain := size;
        }
        written := StoreTurn(fid, n, buf, remain, offset);
        n := n.(size := fileTable[fid].size);
        size := size - remain;
      }
      WriteInodeToItble(n);
      UpdateSb();
      UpdateItble();
      UpdateDbmap();
      StoredIs(s, fid, inode, buf, offset);
    }

    /** The data area after a write inside one cluster. */
    static function StoredBlocks(blocks: seq<Cluster>, n: Inode, buf: seq<bv8>, offset: nat): seq<Cluster> {
      if n.size <= offset then PutBytes(blocks, n.block + offset, buf)
      else PutCluster(blocks, n.block + offset, Bytes(StrCopy(buf)))
    }

    /** The data area and the handle after the loop of do_write. */
    static function Stored(s: State, fid: nat, n: Inode, buf: seq<bv8>, offset: nat): State
      requires fid < |s.files|
    {
      var rw := if n.size <= offset then offset + |buf| else |buf|;
      var size := if n.size <= offset && rw <= s.files[fid].size then s.files[fid].size else rw;
      s.(blocks := StoredBlocks(s.blocks, n, buf, offset), files := s.files[fid := s.files[fid].(rwoffset := rw, size := size)])
    }

    static lemma StoredIs(s: State, fid: nat, n: Inode, buf: seq<bv8>, offset: nat)
      requires fid < |s.files|
      ensures var s1 := Stored(s, fid, n, buf, offset);
              var s2 := WriteInode(s1, n.(size := s1.files[fid].size));
              StoreBytes(s, fid, n, buf, offset) ==
              (s2.(disk := s2.mem.(ibits := s2.disk.ibits)), Some(if n.size <= offset then |buf| else CLUSTER_SIZE))
    {
      hide PutBytes, PutCluster, StrCopy;
    }

    /** One turn of the loop of do_write. */
    method StoreTurn(fid: nat, n: Inode, buf: seq<bv8>, remain: nat, offset: nat) returns (written: Option<nat>)
      requires Valid() && fid < MAX_OPEN_FILE && buf != [] && offset + |buf| <= CLUSTER_SIZE && remain == |buf|
      requires (offset == 0 || n.size <= offset) && fileTable[fid].rwoffset == offset
      requires InData(dev.data[..], n.block) && dev.data[..][BlockOf(n.block)].Bytes?
      requires |dev.data[..][BlockOf(n.block)].data| == CLUSTER_SIZE && n.block % CLUSTER_SIZE == 0
      modifies fileTable, dev.data
      ensures Valid() && Model() == Stored(old(Model()), fid, n, buf, offset)
      ensures written == Some(if n.size <= offset then |buf| else CLUSTER_SIZE)
    {
      hide PutBytes, PutCluster, StrCopy, BytesAt;
      EntryAddress(n.block, offset);
      BytesReach(dev.data[..], n.block, offset);
      if n.size <= fileTable[fid].rwoffset {
        assert buf[..remain] == buf;
        WriteBytes(n.block + offset, buf[..remain]);
        written := Some(remain);
        var file := fileTable[fid].(rwoffset := fileTable[fid].rwoffset + remain);
        if file.rwoffset > file.size {
          file := file.(size := file.rwoffset);
        }
        SetHandle(fid, file);
      } else {
        WriteCluster(n.block + offset, Bytes(StrCopy(buf)));
        written := Some(CLUSTER_SIZE);
        SetHandle(fid, fileTable[fid].(rwoffset := remain, size := remain));
      }
    }

    static lemma BytesReach(blocks: seq<Cluster>, block: nat, offset: nat)
      requires InData(blocks, block) && blocks[BlockOf(block)].Bytes? && |blocks[BlockOf(block)].data| == CLUSTER_SIZE
      requires block % CLUSTER_SIZE == 0 && offset < CLUSTER_SIZE
      ensures InData(blocks, block + offset) && |BytesAt(blocks, block + offset)| == CLUSTER_SIZE
      ensures blocks[BlockOf(block + offset)].Bytes?
    {
      EntryAddress(block, offset);
    }

    /** do_read of at most a cluster: what strncpy hands to the caller. */
    method Read(fid: nat, size: nat, offset: nat) returns (data: seq<bv8>)
      requires Valid() && FileStep.CanRead(Model(), fid, size, offset)
      modifies fileTable
      ensures Valid() && (Model(), data) == FsSpec.Read(old(Model()), fid, size, offset)
    {
      hide Consistent, Content, FsSpec.StrLen;
      ghost var s := Model();
      FileStep.HandleFacts(s, fid);
      SetHandle(fid, fileTable[fid].(rwoffset := offset));
      var n := itble[fileTable[fid].ino];
      if n.size == 0 {
        return [];
      }
      OwnBytes(s, fid);
      var block := dev.data[n.block / CLUSTER_SIZE - DAREA_OFFSET].data;
      data := [];
      var left := size;
      while left > 0 && fileTable[fid].rwoffset < n.size
        invariant Valid() && (left == size || left == size - (if size <= CLUSTER_SIZE - offset then size else CLUSTER_SIZE - offset))
        invariant left != size ==> left == 0 || fileTable[fid].rwoffset >= CLUSTER_SIZE
        invariant left == size ==> Model() == s.(files := s.files[fid := s.files[fid].(rwoffset := offset)])
        invariant left != size ==> (Model(), data) == FsSpec.Read(s, fid, size, offset)
        decreases left
      {
        var chunk := block[..left];
        var k := CStrLen(chunk);
        data := chunk[..k];
        var remain := CLUSTER_SIZE - fileTable[fid].rwoffset % CLUSTER_SIZE;
        if remain > left {
          remain := left;
        }
        SetHandle(fid, fileTable[fid].(rwoffset := fileTable[fid].rwoffset + remain));
        assert Model().files == s.files[fid := s.files[fid].(rwoffset := offset + remain)];
        assert Model() == s.(files := Model().files);
        assert block == BytesAt(s.blocks, n.block) && chunk == block[..size] && offset < n.size;
        left := left - remain;
      }
    }

    // -------------------------------------------------------------- by path, as the FUSE callbacks call them

    /** The common start of the callbacks: split the path and find the inode of its directory part. */
    method ParentOf(path: string) returns (fName: string, parent: Option<Inode>)
      requires Valid() && Consistent(Model()) && Runs.GoodPath(Model(), path)
      ensures fName == BaseName(path)
      ensures parent.None? <==> Runs.InDir(Model(), path).None?
      ensures parent.Some? ==> parent.value.ino == Runs.InDir(Model(), path).value &&
                               parent.value == InodeAt(Model().mem.itable, parent.value.ino) && IsDir(Model().mem.itable, parent.value.ino)
    {
      hide Consistent, DirView;
      var dName;
      fName, dName := GetNameFromPath(path);
      Runs.PathFacts(Model(), path);
      SafePrefix(Model(), Tokens(path), |Tokens(path)| - 1);
      assert Tokens(path)[..|Tokens(path)| - 1] == Tokens(dName);
      var ino := ReadInode(dName);
      if ino.None? {
        return fName, None;
      }
      DirInPlace(ino.value);
      parent := Some(itble[ino.value]);
    }

    /** lab4_mkdir. */
    method MkdirAt(path: string) returns (reply: Runs.Reply)
      requires Valid() && Consistent(Model()) && Runs.Allowed(Model(), Runs.MkdirAt(path))
      modifies Repr()
      ensures Valid() && (Model(), reply) == Runs.Step(old(Model()), Runs.MkdirAt(path)) && Consistent(Model())
    {
      hide Consistent, FsSpec.Mkdir, DirView;
      Runs.PathFacts(Model(), path);
      var fName, parent := ParentOf(path);
      if parent.None? {
        return Runs.Done(NoEntry);
      }
      var status := Mkdir(parent.value, fName);
      reply := Runs.Done(status);
    }

    /** lab4_rmdir. */
    method RmdirAt(path: string) returns (reply: Runs.Reply)
      requires Valid() && Consistent(Model()) && Runs.Allowed(Model(), Runs.RmdirAt(path))
      modifies Repr()
      ensures Valid() && (Model(), reply) == Runs.Step(old(Model()), Runs.RmdirAt(path)) && Consistent(Model())
    {
      hide Consistent, FsSpec.Rmdir, DirView;
      Runs.PathFacts(Model(), path);
      var fName, parent := ParentOf(path);
      if parent.None? {
        return Runs.Done(NoEntry);
      }
      var status := Rmdir(parent.value, fName);
      reply := Runs.Done(status);
    }

    /** lab4_unlink. */
    method UnlinkAt(path: string) returns (reply: Runs.Reply)
      requires Valid() && Consistent(Model()) && Runs.Allowed(Model(), Runs.UnlinkAt(path))
      modifies Repr()
      ensures Valid() && (Model(), reply) == Runs.Step(old(Model()), Runs.UnlinkAt(path)) && Consistent(Model())
    {
      hide Consistent, FsSpec.Unlink, DirView;
      Runs.PathFacts(Model(), path);
      var fName, parent := ParentOf(path);
      if parent.None? {
        return Runs.Done(NoEntry);
      }
      var status := Unlink(parent.value, fName);
      reply := Runs.Done(status);
    }

    /** lab4_do_open. */
    method OpenAt(path: string, create: bool, append: bool, flags: nat) returns (reply: Runs.Reply)
      requires Valid() && Consistent(Model()) && Runs.Allowed(Model(), Runs.OpenAt(path, create, append, flags))
      modifies Repr()
      ensures Valid() && (Model(), reply) == Runs.Step(old(Model()), Runs.OpenAt(path, create, append, flags)) && Consistent(Model())
    {
      hide Consistent, OpenFileIn, DirView;
      Runs.PathFacts(Model(), path);
      var fName, parent := ParentOf(path);
      if parent.None? {
        return Runs.Done(NoEntry);
      }
      var fid := OpenFile(parent.value, fName, create, append, flags);
      reply := if fid.Some? then Runs.Opened(fid.value) else Runs.Done(Error);
    }

    /** lab4_rename. Only a rename that meets the condition of RenameConsistentIff keeps the invariant. */
    method RenameAt(from: string, to: string) returns (reply: Runs.Reply)
      requires Valid() && RenameStep.CanRename(Model(), from, to)
      modifies dev.data
      ensures Valid() && (Model(), reply) == Runs.Step(old(Model()), Runs.RenameAt(from, to))
      ensures Runs.Allowed(old(Model()), Runs.RenameAt(from, to)) ==> Consistent(Model())
    {
      hide Consistent, FsSpec.Rename, Runs.Allowed, RenameStep.WalkSafe;
      if Runs.Allowed(Model(), Runs.RenameAt(from, to)) {
        Runs.StepConsistent(Model(), Runs.RenameAt(from, to));
      }
      var status := Rename(from, to);
      reply := Runs.Done(status);
    }

    /** lab4_release. */
    method CloseAt(fid: nat) returns (reply: Runs.Reply)
      requires Valid() && Consistent(Model()) && fid < MAX_OPEN_FILE
      modifies fileTable
      ensures Valid() && (Model(), reply) == Runs.Step(old(Model()), Runs.CloseAt(fid)) && Consistent(Model())
    {
      hide Consistent, FsSpec.Close;
      FileStep.CloseConsistent(Model(), fid);
      Close(fid);
      reply := Runs.Done(Success);
    }

    /** lab4_write. */
    method WriteAt(fid: nat, buf: seq<bv8>, offset: nat) returns (reply: Runs.Reply)
      requires Valid() && Runs.Allowed(Model(), Runs.WriteAt(fid, buf, offset))
      modifies Repr()
      ensures Valid() && (Model(), reply) == Runs.Step(old(Model()), Runs.WriteAt(fid, buf, offset)) && Consistent(Model())
    {
      hide Consistent, FsSpec.Write, Content;
      var count := Write(fid, buf, offset);
      reply := if count.Some? then Runs.Wrote(count.value) else Runs.Done(Error);
    }

    /** lab4_read. */
    method ReadAt(fid: nat, size: nat, offset: nat) returns (reply: Runs.Reply)
      requires Valid() && Runs.Allowed(Model(), Runs.ReadAt(fid, size, offset))
      modifies fileTable
      ensures Valid() && (Model(), reply) == Runs.Step(old(Model()), Runs.ReadAt(fid, size, offset)) && Consistent(Model())
    {
      hide Consistent, FsSpec.Read, Content;
      FileStep.ReadChangesNothing(Model(), fid, size, offset);
      var data := Read(fid, size, offset);
      reply := Runs.Got(data);
    }
  }
}
