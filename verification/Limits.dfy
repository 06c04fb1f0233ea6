/** The numbers a user of the file system meets, written out: how large a device, how long a name, how many open
    files, and what a fresh device holds. */
module Limits {
  import opened Layout
  import opened Namespace
  import opened FsSpec
  import opened Fsck
  import opened StepFacts
  import MkdirStep
  import CreateStep
  import RemoveStep
  import FileStep
  import MountStep

  // ---------------------------------------------------------------- open files

  /** The file ids in use. */
  function InUse(files: seq<OpenFile>): set<nat> {
    set f: nat | f < |files| && files[f].used
  }

  /** The ids a file can be open under. */
  function Ids(): (ids: set<nat>)
    ensures |ids| == 13 && forall f :: f in ids <==> 3 <= f < 16
  {
    Difference(Range(16), Range(3));
    Range(16) - Range(3)
  }

  /** At most 13 files are open at a time, under the ids 3 to 15. The scan for a free id fails iff 13 are, and else
      takes the least one. */
  lemma ThirteenHandles(s: State)
    requires Consistent(s)
    ensures InUse(s.files) <= Ids() && |InUse(s.files)| <= 13
    ensures FreeHandle(s.files, START_OPEN_FILE) == None <==> |InUse(s.files)| == 13
    ensures var fid := FreeHandle(s.files, START_OPEN_FILE);
            fid.Some? ==> 3 <= fid.value < 16 && fid.value !in InUse(s.files) && forall g: nat :: 3 <= g < fid.value ==> g in InUse(s.files)
  {
    hide BlocksOk, TreeOk, InodesOk, DiskOk, FreeHandle, Ids;
    HandleCount(s.files);
  }

  lemma HandleCount(files: seq<OpenFile>)
    requires |files| == 16 && forall f :: 0 <= f < 16 && files[f].used ==> 3 <= f
    ensures InUse(files) <= Ids() && |InUse(files)| <= 13
    ensures FreeHandle(files, 3) == None <==> |InUse(files)| == 13
    ensures var fid := FreeHandle(files, 3);
            fid.Some? ==> 3 <= fid.value < 16 && fid.value !in InUse(files) && forall g: nat :: 3 <= g < fid.value ==> g in InUse(files)
  {
    hide FreeHandle, Ids;
    SubsetCard(InUse(files), Ids());
    FirstFreeHandle(files, 3);
    match FreeHandle(files, 3) {
      case Some(fid) =>
        assert fid in Ids() && fid !in InUse(files);
        if |InUse(files)| == 13 { SameCard(InUse(files), Ids()); }
      case None =>
        assert InUse(files) == Ids();
    }
  }

  lemma Difference(a: set<nat>, b: set<nat>)
    requires b <= a
    ensures |a - b| == |a| - |b|
  {
    assert a == (a - b) + b;
  }

  lemma {:induction false} FirstFreeHandle(files: seq<OpenFile>, i: nat)
    ensures FreeHandle(files, i).Some? ==> i <= FreeHandle(files, i).value < |files| && !files[FreeHandle(files, i).value].used
    ensures forall g: nat :: i <= g < (if FreeHandle(files, i).Some? then FreeHandle(files, i).value else |files|) ==> files[g].used
    decreases |files| - i
  {
    if i < |files| && files[i].used { FirstFreeHandle(files, i + 1); }
  }

  /** The state after an open has bound file id fid to file i: the size of the handle is that of the file, its offset
      is the end of the file when it is opened for appending and 0 otherwise. */
  ghost predicate Bound(s: State, s': State, fid: nat, i: nat, append: bool, flags: nat) {
    var size := |Content(s.mem.itable, s.blocks, i)|;
    && fid < |s.files|
    && s' == s.(files := s.files[fid := OpenFile(true, i, size, if append then size else 0, flags)])
  }

  /** What OpenInode does to a live file: it fails, and changes nothing, iff 13 files are open. */
  lemma OpenInodeCases(s: State, i: nat, append: bool, flags: nat)
    requires Consistent(s) && IsFile(s.mem.itable, i)
    ensures var (s', fid) := OpenInode(s, i, append, flags);
            && fid == FreeHandle(s.files, START_OPEN_FILE)
            && (fid == None <==> |InUse(s.files)| == 13)
            && if fid.None? then s' == s else Bound(s, s', fid.value, i, append, flags)
  {
    hide Consistent, FreeHandle, Content, InUse, Ids;
    ThirteenHandles(s);
    FileRecord(s, i);
  }

  lemma FileRecord(s: State, i: nat)
    requires Consistent(s) && IsFile(s.mem.itable, i)
    ensures |s.mem.itable| == 32 && s.mem.itable[i].ino == i && s.mem.itable[i].size == |Content(s.mem.itable, s.blocks, i)|
  {
    hide TreeOk, DiskOk, HandlesOk;
    RemoveStep.FileFacts(s, i);
  }

  /** do_openfile. A directory is refused. A file without a handle gets the next free one, and none iff 13 files are
      open. A missing file is created when asked for, and stays when there is no handle left for it. */
  lemma OpenCases(s: State, par: nat, name: string, create: bool, append: bool, flags: nat)
    requires FileStep.CanOpen(s, par, name)
    ensures var (s', fid) := OpenFileIn(s, par, name, create, append, flags);
            match RemoveStep.Target(s, par, name)
            case Some(i) =>
              if IsDir(s.mem.itable, i) then s' == s && fid == None
              else if |InUse(s.files)| == 13 then s' == s && fid == None
              else fid == FreeHandle(s.files, START_OPEN_FILE) && fid.Some? && Bound(s, s', fid.value, i, append, flags)
            case None =>
              var (s1, status) := if create then CreateFile(s, par, name) else (s, NoEntry);
              if status != Success || |InUse(s.files)| == 13 then s' == s1 && fid == None
              else fid == FreeHandle(s.files, START_OPEN_FILE) && fid.Some? && Bound(s1, s', fid.value, s.sbi.lastIno, append, flags)
  {
    hide Consistent, CreateFile, OpenInode, FreeHandle, Bound, Content;
    match FindSlot(DirSlots(s, par), name) {
      case Some(k) =>
        RemoveStep.FoundEntry(s, par, name);
        ExistingCases(s, par, k, append, flags);
      case None =>
        if create { CreatedCases(s, par, name, append, flags); }
    }
  }

  lemma ExistingCases(s: State, par: nat, k: nat, append: bool, flags: nat)
    requires Consistent(s) && IsDir(s.mem.itable, par) && 2 <= k < |DirSlots(s, par)| && DirSlots(s, par)[k].flag == Used
    ensures var i := DirSlots(s, par)[k].ino;
            var (s', fid) := OpenInode(s, i, append, flags);
            if IsDir(s.mem.itable, i) || |InUse(s.files)| == 13 then s' == s && fid == None
            else fid == FreeHandle(s.files, START_OPEN_FILE) && fid.Some? && Bound(s, s', fid.value, i, append, flags)
  {
    hide Consistent, FreeHandle, Bound, Content, SlotsAt, InUse;
    EntryFacts(s, par, k);
    var i := DirSlots(s, par)[k].ino;
    if IsFile(s.mem.itable, i) { OpenInodeCases(s, i, append, flags); }
  }

  lemma CreatedCases(s: State, par: nat, name: string, append: bool, flags: nat)
    requires MkdirStep.CanMkdir(s, par, name)
    ensures var (s1, status) := CreateFile(s, par, name);
            status == Success ==>
              && s1.sbi.lastIno == s.sbi.lastIno + 1
              && var (s', fid) := OpenInode(s1, s.sbi.lastIno, append, flags);
                 if |InUse(s.files)| == 13 then s' == s1 && fid == None
                 else fid == FreeHandle(s.files, START_OPEN_FILE) && fid.Some? && Bound(s1, s', fid.value, s.sbi.lastIno, append, flags)
  {
    hide Consistent, CreateFile, FreeHandle, Bound, Content, OpenInode, BlockAt, SlotsAt;
    CreateStep.CreateCases(s, par, name);
    CreateStep.CreateConsistent(s, par, name);
    TableSize(s);
    var (s1, status) := CreateFile(s, par, name);
    if status == Success { OpenInodeCases(s1, s.sbi.lastIno, append, flags); }
  }

  lemma TableSize(s: State)
    requires Consistent(s)
    ensures |s.mem.itable| == INODES
  {
  }

  /** lab4_do_close clears the whole record. */
  lemma CloseClears(s: State, fid: nat)
    requires Consistent(s) && fid < 16
    ensures Close(s, fid) == s.(files := Close(s, fid).files) && |Close(s, fid).files| == 16
    ensures forall f: nat :: f < 16 ==> Close(s, fid).files[f] == if f == fid then OpenFile(false, 0, 0, 0, 0) else s.files[f]
  {
    hide BlocksOk, TreeOk, InodesOk, DiskOk, HandlesOk;
  }

  // ---------------------------------------------------------------- names and links

  /** A file's name has 1 to 115 bytes; a new file is refused only for its name, in a directory whose link count is the
      largest signed 32-bit number, and when all 32 inode numbers have been handed out. */
  lemma CreateLimits(s: State, par: nat, name: string)
    requires Consistent(s) && IsDir(s.mem.itable, par)
    ensures par < |s.mem.itable|
    ensures var status := CreateFile(s, par, name).1;
            && (status == NameTooLong <==> |name| == 0 || |name| > 115)
            && (1 <= |name| <= 115 && RemoveStep.Target(s, par, name).None? ==>
                  status == if s.mem.itable[par].links == 2147483647 || s.sbi.lastIno == 32 then Error else Success)
  {
    hide Consistent, CreateFile, CreateStep.Created, BlockAt, SlotsAt;
    CreateStep.CreateCases(s, par, name);
  }

  /** inc_link and dec_link count in 32 bits without a sign. */
  lemma LinkSteps(s: State, i: nat)
    requires i < |s.mem.itable| && s.mem.itable[i].links <= 4294967295
    ensures var n := s.mem.itable[i].links;
            && AddLinks(s, i, 1).mem.itable == s.mem.itable[i := s.mem.itable[i].(links := if n == 4294967295 then 0 else n + 1)]
            && AddLinks(s, i, -1).mem.itable == s.mem.itable[i := s.mem.itable[i].(links := if n == 0 then 4294967295 else n - 1)]
  {
  }

  // ---------------------------------------------------------------- devices

  /** The devices of this model have 48 to 262183 sectors. Format gives the data area every whole cluster after the
      first four, 8 sectors each, and the addresses of blocks are multiples of 4096 from 16384 on. */
  lemma DataAreaFills(sectors: nat, b: nat)
    ensures Formattable(sectors) <==> 48 <= sectors <= 262183
    ensures Formattable(sectors) ==> 8 * (DataBlocks(sectors) + 4) <= sectors < 8 * (DataBlocks(sectors) + 5)
    ensures Formattable(sectors) ==> sectors * SECTOR_SIZE < Addr(DataBlocks(sectors)) + CLUSTER_SIZE
    ensures Addr(b) == 16384 + 4096 * b
  {
  }

  /** The superblock, bitmaps and inode table of a fresh device. */
  lemma FormatImage(sectors: nat)
    requires Formattable(sectors)
    ensures var n := sectors / 8 - 4;
            && n > 0
            && FormatMeta(sectors).sb == Super(0x3442414C, 512, 3, sectors, 2, 1, 4, n, 29, n, 3, 1)
            && FormatMeta(sectors).ibits == {0, 1, 2} && FormatMeta(sectors).dbits == {0}
            && |FormatMeta(sectors).itable| == 32
            && forall i :: 0 <= i < 32 ==>
                 FormatMeta(sectors).itable[i] == if i == 2 then Inode(2, Directory, 4096, 1, 2, 1, 16384)
                                                  else if i == 1 then Inode(1, Unused, 0, 0, 0, 0, 0)
                                                  else Inode(0, Unused, 0, 0, 0, 0, 0)
  {
  }

  /** Its data area: the root's two dot entries, and zeros. */
  lemma FormatClusters(sectors: nat)
    requires Formattable(sectors)
    ensures var blocks := FormatBlocks(sectors);
            && |blocks| == sectors / 8 - 4 > 0
            && blocks[0].Entries? && |blocks[0].slots| == 32
            && (forall k :: 0 <= k < 32 ==>
                  blocks[0].slots[k] == if k == 0 then Slot(2, Used, 0, ".") else if k == 1 then Slot(2, Used, 0, "..")
                                        else Slot(0, Empty, 0, ""))
            && forall b :: 1 <= b < |blocks| ==>
                 blocks[b].Bytes? && |blocks[b].data| == 4096 && forall j :: 0 <= j < 4096 ==> blocks[b].data[j] == 0
  {
  }

  /** After the first mount inode 3 and block 1 come next. */
  lemma FirstAllocations(sectors: nat)
    requires Formattable(sectors)
    ensures AllocInode(FormatAndMount(sectors)).1 == Some(3) && AllocBlock(FormatAndMount(sectors)).1 == Some(1)
  {
    hide DataBlocks, FormatTable, FormatBlocks;
    var s := FormatAndMount(sectors);
    MountStep.FormatConsistent(sectors);
    FormatHints(sectors);
    AllocTakesHint(s);
    AllocTakesFreeBlock(s);
    assert 1 !in s.mem.dbits;
  }

  lemma FormatHints(sectors: nat)
    requires Formattable(sectors)
    ensures var s := FormatAndMount(sectors);
            s.sbi.lastIno == 3 && s.sbi.lastBlk == 1 && s.mem.dbits == {0} && |s.blocks| > 1
  {
  }

  /** A mount in numbers: both copies of the metadata are the device's, the derived fields follow from it, no file is
      open. */
  lemma MountImage(s: State)
    requires Consistent(s)
    ensures var s' := Remount(s);
            && s'.mem == s.disk && s'.disk == s.disk && s'.blocks == s.blocks
            && s'.sbi == SbInfo(4096, 2, 4096, 16384, 4096 * |s.blocks|, s.disk.sb.lastIno, s.disk.sb.lastBlk)
            && |s'.files| == 16 && forall f :: 0 <= f < 16 ==> s'.files[f] == OpenFile(false, 0, 0, 0, 0)
  {
    hide BlocksOk, TreeOk, InodesOk, HandlesOk;
    assert Pow2(3) == 8;
  }
}
