/** The books: what each operation does to counters, bitmaps, hints and the device copy, and what adds up. */
module Ledger {
  import opened Layout
  import opened Paths
  import opened Namespace
  import opened TreeSteps
  import opened FsSpec
  import opened Fsck
  import opened StepFacts
  import opened Runs
  import MkdirStep
  import CreateStep
  import RemoveStep
  import RenameStep
  import FileStep
  import opened MountStep

  // ---------------------------------------------------------------- what a step does to the books

  /** The inode number an operation hands out, if it creates something. */
  function Issued(s: State, op: Op): Option<nat> {
    match op
    case MkdirAt(path) => if Step(s, op).1 == Done(Success) then Some(s.sbi.lastIno) else None
    case OpenAt(path, create, append, flags) =>
      (match InDir(s, path)
       case None => None
       case Some(par) =>
         if create && RemoveStep.Target(s, par, BaseName(path)).None? && CreateFile(s, par, BaseName(path)).1 == Success
         then Some(s.sbi.lastIno) else None)
    case _ => None
  }

  /** A mkdir of a new name in a directory that exists, when there is an inode for it but no data block. */
  ghost predicate LosesInode(s: State, op: Op) {
    && op.MkdirAt? && InDir(s, op.path).Some? && Walk(s, op.path).None?
    && s.sbi.lastIno < INODES && MkdirStep.Full(s)
  }

  /** A mkdir or create of a new name when no inode is left: it reads the inode bitmap back from the device. */
  predicate Rereads(s: State, op: Op) {
    && (op.MkdirAt? || (op.OpenAt? && op.create)) && InDir(s, op.path).Some? && Walk(s, op.path).None?
    && s.sbi.lastIno == INODES
    && (op.OpenAt? ==> InodeAt(s.mem.itable, InDir(s, op.path).value).links != MAX_FILES_PER_DIR)
  }

  predicate IsCreate(s: State, op: Op) {
    op.OpenAt? && Issued(s, op).Some?
  }

  /** The operations that write the superblock to the device: successful ones that change metadata, and a mount,
      which has nothing left to write. */
  predicate SavesSuper(s: State, op: Op) {
    match op
    case MkdirAt(path) => Step(s, op).1 == Done(Success)
    case RmdirAt(path) => Step(s, op).1 == Done(Success)
    case UnlinkAt(path) => Step(s, op).1 == Done(Success)
    case OpenAt(path, create, append, flags) => IsCreate(s, op)
    case WriteAt(fid, buf, offset) => Step(s, op).1.Wrote?
    case Unmount => true
    case _ => false
  }

  /** The operations after which the inode bitmap is the same in memory and on the device; do_write does not
      write it. */
  predicate SavesBitmap(s: State, op: Op) {
    (SavesSuper(s, op) && !op.WriteAt?) || Rereads(s, op)
  }

  /** What changes besides blocks, handles and the inode table: every operation is one of these. */
  datatype Change =
    | Same | NewDir(i: nat, b: nat) | NewFile(i: nat) | OldDir(m: nat, b: nat) | OldFile(m: nat, block: Option<nat>)
    | NewBlock(b: nat) | Lost(i: nat) | Mounted | Reread | Rewritten

  /** The inode numbers in use. */
  function Live(itable: seq<Inode>): set<nat> {
    set i: nat | i < |itable| && itable[i].kind != Unused
  }

  function LiveAfter(live: set<nat>, c: Change): set<nat> {
    match c
    case NewDir(i, b) => live + {i}
    case NewFile(i) => live + {i}
    case OldDir(m, b) => live - {m}
    case OldFile(m, b) => live - {m}
    case _ => live
  }

  predicate SuperSaved(c: Change) {
    !c.Same? && !c.Lost? && !c.Reread?
  }

  predicate BitmapSaved(c: Change) {
    !c.Same? && !c.Lost? && !c.NewBlock? && !c.Rewritten?
  }

  /** Link counts: a new inode starts at 2 or 1, one going is zeroed, others move by one at most. */
  predicate LinkMoved(n: nat, n': nat, c: Change) {
    || n' == n
    || match c
       case NewDir(i, b) => n' == 2 || n' == (n + 1) % U32
       case NewFile(i) => n' == 1
       case OldDir(m, b) => n' == 0 || n' == (n - 1) % U32
       case OldFile(m, b) => n' == 0
       case _ => false
  }

  ghost predicate LinksMoved(t: seq<Inode>, t': seq<Inode>, c: Change) {
    |t'| == |t| && forall i: nat :: i < |t| ==> LinkMoved(t[i].links, t'[i].links, c)
  }

  ghost predicate Booked(s: State, s': State, c: Change) {
    var m, m' := s.mem, s'.mem;
    var next := s.sbi.lastIno;
    && |s'.blocks| == |s.blocks| && Live(m'.itable) == LiveAfter(Live(m.itable), c) && LinksMoved(m.itable, m'.itable, c)
    && match c
       case Same => m' == m && s'.disk == s.disk && s'.sbi == s.sbi
       case NewDir(i, b) =>
         && i == next < INODES && b !in m.dbits && s'.sbi == s.sbi.(lastIno := i + 1) && s'.disk == m'
         && m'.ibits == m.ibits + {i} && m'.dbits == m.dbits + {b}
         && m'.sb == m.sb.(lastIno := i + 1, freeInodes := m.sb.freeInodes - 1, freeBlocks := m.sb.freeBlocks - 1, lastBlk := b)
       case NewFile(i) =>
         && i == next < INODES && s'.sbi == s.sbi.(lastIno := i + 1) && s'.disk == m'.(dbits := s.disk.dbits)
         && m'.ibits == m.ibits + {i} && m'.dbits == m.dbits
         && m'.sb == m.sb.(lastIno := i + 1, freeInodes := m.sb.freeInodes - 2)
       case OldDir(i, b) =>
         && i in m.ibits && i in Live(m.itable) && b in m.dbits && s'.sbi == s.sbi && s'.disk == m'
         && m'.ibits == m.ibits - {i} && m'.dbits == m.dbits - {b}
         && m'.sb == m.sb.(freeInodes := m.sb.freeInodes + 1, freeBlocks := m.sb.freeBlocks + 1)
       case OldFile(i, b) =>
         && i in m.ibits && i in Live(m.itable) && (b.Some? ==> b.value in m.dbits) && s'.sbi == s.sbi && s'.disk == m'
         && m'.ibits == m.ibits - {i} && m'.dbits == (if b.Some? then m.dbits - {b.value} else m.dbits)
         && m'.sb == m.sb.(freeInodes := m.sb.freeInodes + 1, freeBlocks := m.sb.freeBlocks + if b.Some? then 1 else 0)
       case NewBlock(b) =>
         && b !in m.dbits && s'.sbi == s.sbi && s'.disk == m'.(ibits := s.disk.ibits)
         && m'.ibits == m.ibits && m'.dbits == m.dbits + {b} && m'.sb == m.sb.(freeBlocks := m.sb.freeBlocks - 1)
       case Lost(i) =>
         && i == next < INODES && s'.sbi == s.sbi.(lastIno := i + 1) && s'.disk == s.disk
         && m' == m.(ibits := m.ibits + {i}, dbits := s.disk.dbits, sb := m.sb.(lastIno := i + 1, freeInodes := m.sb.freeInodes - 1))
       case Mounted => s' == Remount(s)
       case Reread => m' == m.(ibits := s.disk.ibits) && s'.disk == s.disk && s'.sbi == s.sbi
       case Rewritten =>
         && s'.sbi == s.sbi && s'.disk == m'.(ibits := s.disk.ibits)
         && m'.ibits == m.ibits && m'.dbits == m.dbits && m'.sb == m.sb
  }

  lemma NothingMoved(t: seq<Inode>, c: Change)
    ensures LinksMoved(t, t, c)
  {
  }

  lemma MadeBooked(s: State, par: nat, name: string, b: nat)
    requires MkdirStep.CanMkdir(s, par, name) && s.sbi.lastIno < INODES && b < |s.blocks| && b !in s.mem.dbits
    requires 0 <= BlockAt(s.mem.itable, par) < |s.blocks| && FreeSlot(DirSlots(s, par)) < |DirSlots(s, par)|
    ensures Booked(s, MkdirStep.Made(s, par, name, b), NewDir(s.sbi.lastIno, b))
  {
    hide BlocksOk, TreeOk, HandlesOk, DiskOk;
  }

  lemma CreatedBooked(s: State, par: nat, name: string)
    requires MkdirStep.CanMkdir(s, par, name) && s.sbi.lastIno < INODES
    requires 0 <= BlockAt(s.mem.itable, par) < |s.blocks| && FreeSlot(DirSlots(s, par)) < |DirSlots(s, par)|
    ensures Booked(s, CreateStep.Created(s, par, name), NewFile(s.sbi.lastIno))
  {
    hide BlocksOk, TreeOk, HandlesOk, DiskOk;
  }

  lemma DirGoneBooked(s: State, par: nat, k: nat, m: nat)
    requires RemoveStep.Entry(s, par, k, m) && IsDir(s.mem.itable, m) && m != par
    requires 0 <= BlockAt(s.mem.itable, par) < |s.blocks| && 0 <= BlockAt(s.mem.itable, m) < |s.blocks|
    ensures Booked(s, RemoveStep.DirGone(s, par, k, m), OldDir(m, BlockAt(s.mem.itable, m)))
  {
    hide BlocksOk, TreeOk, HandlesOk, DiskOk;
    LiveBits(s, m);
  }

  lemma FileGoneBooked(s: State, par: nat, k: nat, m: nat)
    requires RemoveStep.Entry(s, par, k, m) && IsFile(s.mem.itable, m) && 0 <= BlockAt(s.mem.itable, par) < |s.blocks|
    requires s.mem.itable[m].size > 0 ==> 0 <= BlockAt(s.mem.itable, m) < |s.blocks|
    ensures Booked(s, RemoveStep.FileGone(s, par, k, m),
                   OldFile(m, if s.mem.itable[m].size > 0 then Some(BlockAt(s.mem.itable, m)) else None))
  {
    hide BlocksOk, TreeOk, HandlesOk, DiskOk;
    LiveBits(s, m);
  }

  lemma WroteBooked(s: State, fid: nat, buf: seq<bv8>, offset: nat, b: nat, data: seq<bv8>)
    requires FileStep.OpenHandle(s, fid) && FileStep.WriteTarget(s, fid, b)
    ensures Booked(s, FileStep.WroteState(s, fid, buf, offset, b, data),
                   if s.mem.itable[FileStep.HandleIno(s, fid)].size == 0 then NewBlock(b) else Rewritten)
  {
    hide BlocksOk, TreeOk, DiskOk, Content;
    FileStep.HandleFacts(s, fid);
  }

  lemma MkdirIn(s: State, par: nat, name: string) returns (c: Change)
    requires MkdirStep.CanMkdir(s, par, name)
    ensures Booked(s, Mkdir(s, par, name).0, c) && (c.Same? || c.NewDir? || c.Lost? || c.Reread?)
    ensures c.NewDir? <==> Mkdir(s, par, name).1 == Success
    ensures c.Lost? <==> FindSlot(DirSlots(s, par), name) == None && s.sbi.lastIno < INODES && MkdirStep.Full(s)
    ensures c.Reread? <==> FindSlot(DirSlots(s, par), name) == None && s.sbi.lastIno == INODES
  {
    hide Consistent, Mkdir, AllocInode, MkdirStep.Made, RestoreDbmap, Live, LinksMoved, FreeSlot, FindSlot, LegalName;
    c := Same;
    NothingMoved(s.mem.itable, Same);
    NothingMoved(s.mem.itable, Reread);
    MkdirStep.MkdirStatus(s, par, name);
    var (s', status) := Mkdir(s, par, name);
    if status == Success {
      var b := MkdirStep.MkdirSuccess(s, par, name);
      MadeBooked(s, par, name, b);
      c := NewDir(s.sbi.lastIno, b);
    } else if status == Error {
      if s.sbi.lastIno == INODES { c := Reread; } else { c := Lost(s.sbi.lastIno); LostIs(s); }
    }
  }

  lemma MkdirBooked(s: State, op: Op) returns (c: Change)
    requires Consistent(s) && Allowed(s, op) && op.MkdirAt?
    ensures Booked(s, Step(s, op).0, c) && !c.NewFile?
    ensures (Issued(s, op).Some? <==> c.NewDir?) && (LosesInode(s, op) <==> c.Lost?) && (Rereads(s, op) <==> c.Reread?)
    ensures c.Same? || c.NewDir? || c.Lost? || c.Reread?
  {
    hide Consistent, Mkdir, Walk, GoodPath, Booked, FindSlot;
    c := Same;
    NothingBooked(s, s);
    PathFacts(s, op.path);
    if InDir(s, op.path).Some? {
      c := MkdirIn(s, InDir(s, op.path).value, BaseName(op.path));
    }
  }

  lemma LostIs(s: State)
    requires Consistent(s) && s.sbi.lastIno < INODES
    ensures Booked(s, RestoreDbmap(AllocInode(s).0), Lost(s.sbi.lastIno))
  {
    hide BlocksOk, TreeOk, HandlesOk, Live, LinksMoved;
    AllocTakesHint(s);
    NothingMoved(s.mem.itable, Lost(s.sbi.lastIno));
  }

  lemma CreateBooked(s: State, par: nat, name: string) returns (c: Change)
    requires MkdirStep.CanMkdir(s, par, name) && FindSlot(DirSlots(s, par), name) == None
    ensures Booked(s, CreateFile(s, par, name).0, c) && (c.Same? || c.NewFile? || c.Reread?)
    ensures c.NewFile? <==> CreateFile(s, par, name).1 == Success
    ensures c.Reread? <==> s.sbi.lastIno == INODES && InodeAt(s.mem.itable, par).links != MAX_FILES_PER_DIR
  {
    hide Consistent, CreateFile, CreateStep.Created, Live, LinksMoved, FreeSlot, FindSlot, LegalName;
    c := Same;
    NothingMoved(s.mem.itable, Same);
    NothingMoved(s.mem.itable, Reread);
    CreateStep.CreateCases(s, par, name);
    MkdirStep.LegalLength(name);
    var (s1, status) := CreateFile(s, par, name);
    if status == Success {
      CreatedBooked(s, par, name);
      c := NewFile(s.sbi.lastIno);
    } else if s.mem.itable[par].links != MAX_FILES_PER_DIR {
      c := Reread;
    }
  }

  lemma BooksOnly(s: State, s1: State, s2: State, c: Change)
    requires Booked(s, s1, c) && !c.Mounted?
    requires s2.mem == s1.mem && s2.disk == s1.disk && s2.sbi == s1.sbi && s2.blocks == s1.blocks
    ensures Booked(s, s2, c)
  {
    hide Live, LinksMoved;
  }

  lemma NothingBooked(s: State, s': State)
    requires s'.mem == s.mem && s'.disk == s.disk && s'.sbi == s.sbi && s'.blocks == s.blocks
    ensures Booked(s, s', Same)
  {
    hide Live;
  }

  lemma OpenBooked(s: State, op: Op) returns (c: Change)
    requires Consistent(s) && Allowed(s, op) && op.OpenAt?
    ensures Booked(s, Step(s, op).0, c) && (c.Same? || c.NewFile? || c.Reread?)
    ensures (Issued(s, op).Some? <==> c.NewFile?) && (Rereads(s, op) <==> c.Reread?)
  {
    hide Consistent, CreateFile, OpenFileIn, Walk, GoodPath, RemoveStep.IsOpen, Booked, FindSlot;
    c := Same;
    NothingBooked(s, s);
    PathFacts(s, op.path);
    if InDir(s, op.path).Some? {
      var par, name := InDir(s, op.path).value, BaseName(op.path);
      FileStep.OpenOnlyHandles(s, par, name, op.create, op.append, op.flags);
      if op.create && RemoveStep.Target(s, par, name).None? {
        c := CreateBooked(s, par, name);
        BooksOnly(s, CreateFile(s, par, name).0, Step(s, op).0, c);
      } else {
        NothingBooked(s, Step(s, op).0);
      }
    }
  }

  lemma RmdirBooked(s: State, op: Op) returns (c: Change)
    requires Consistent(s) && Allowed(s, op) && op.RmdirAt?
    ensures Booked(s, Step(s, op).0, c) && (c.Same? || c.OldDir?) && (c.OldDir? <==> Step(s, op).1 == Done(Success))
  {
    hide Consistent, Rmdir, NoEntries, RemoveStep.DirGone, Live;
    c := Same;
    PathFacts(s, op.path);
    if InDir(s, op.path).Some? {
      var par, name := InDir(s, op.path).value, BaseName(op.path);
      RemoveStep.RmdirCases(s, par, name);
      if Rmdir(s, par, name).1 == Success {
        var k := FindSlot(DirSlots(s, par), name).value;
        var m := DirSlots(s, par)[k].ino;
        DirGoneBooked(s, par, k, m);
        c := OldDir(m, BlockAt(s.mem.itable, m));
      }
    }
  }

  lemma UnlinkBooked(s: State, op: Op) returns (c: Change)
    requires Consistent(s) && Allowed(s, op) && op.UnlinkAt?
    ensures Booked(s, Step(s, op).0, c) && (c.Same? || c.OldFile?) && (c.OldFile? <==> Step(s, op).1 == Done(Success))
    ensures c.OldFile? ==> Walk(s, op.path).Some? && (c.block.Some? <==> InodeAt(s.mem.itable, Walk(s, op.path).value).size > 0)
  {
    hide Consistent, Unlink, RemoveStep.FileGone, Live;
    c := Same;
    PathFacts(s, op.path);
    if InDir(s, op.path).Some? {
      var par, name := InDir(s, op.path).value, BaseName(op.path);
      RemoveStep.UnlinkCases(s, par, name);
      if Unlink(s, par, name).1 == Success {
        var k := FindSlot(DirSlots(s, par), name).value;
        var m := DirSlots(s, par)[k].ino;
        FileGoneBooked(s, par, k, m);
        c := OldFile(m, if s.mem.itable[m].size > 0 then Some(BlockAt(s.mem.itable, m)) else None);
      }
    }
  }

  lemma LiveBits(s: State, m: nat)
    requires Consistent(s) && m < |s.mem.itable| && s.mem.itable[m].kind != Unused
    ensures m in s.mem.ibits && (OwnerAt(s.mem.itable, m) ==> BlockAt(s.mem.itable, m) in s.mem.dbits)
  {
    hide TreeOk;
  }

  lemma WriteBooked(s: State, op: Op) returns (c: Change)
    requires Consistent(s) && Allowed(s, op) && op.WriteAt?
    ensures Booked(s, Step(s, op).0, c) && (c.Same? || c.NewBlock? || c.Rewritten?) && (!c.Same? <==> Step(s, op).1.Wrote?)
    ensures !c.Same? ==> (c.NewBlock? <==> FileStep.FileData(s, op.fid) == [])
  {
    hide Consistent, Write, Content, FileStep.NewCluster, FileStep.WroteState, Live;
    FileStep.HandleFacts(s, op.fid);
    var b := FileStep.WriteCases(s, op.fid, op.buf, op.offset);
    if Write(s, op.fid, op.buf, op.offset).1.None? {
      c := Same;
    } else {
      WroteBooked(s, op.fid, op.buf, op.offset, b,
                  FileStep.NewCluster(s.blocks[b].data, |FileStep.FileData(s, op.fid)|, op.buf, op.offset));
      c := if s.mem.itable[FileStep.HandleIno(s, op.fid)].size == 0 then NewBlock(b) else Rewritten;
    }
  }

  lemma RenameBooked(s: State, op: Op)
    requires Consistent(s) && Allowed(s, op) && op.RenameAt?
    ensures Booked(s, Step(s, op).0, Same)
  {
    hide Consistent, Rename, DirView, Live, MoveEntry, BlocksOk, RenameStep.LandingDir, RenameStep.Landing,
         RenameStep.LandingName, Below, Walk;
    if Rename(s, op.from, op.to).1 == Success {
      var sd, k, t, j := RenameStep.RenameMoves(s, op.from, op.to);
    } else {
      RenameStep.RenameStatus(s, op.from, op.to);
    }
  }

  /** Every operation changes the books in one of the ways listed. */
  lemma StepBooked(s: State, op: Op) returns (c: Change)
    requires Consistent(s) && Allowed(s, op)
    ensures Booked(s, Step(s, op).0, c)
    ensures (LosesInode(s, op) <==> c.Lost?) && (IsCreate(s, op) <==> c.NewFile?)
    ensures Issued(s, op).Some? <==> c.NewDir? || c.NewFile?
    ensures (SuperSaved(c) <==> SavesSuper(s, op)) && (BitmapSaved(c) <==> SavesBitmap(s, op)) && (c.Mounted? <==> op.Unmount?)
    ensures Rereads(s, op) <==> c.Reread?
  {
    hide Consistent, Booked, Allowed, Step;
    match op
    case MkdirAt(path) => c := MkdirBooked(s, op);
    case OpenAt(path, create, append, flags) => c := OpenBooked(s, op);
    case RmdirAt(path) => c := RmdirBooked(s, op);
    case UnlinkAt(path) => c := UnlinkBooked(s, op);
    case WriteAt(fid, buf, offset) => c := WriteBooked(s, op);
    case RenameAt(from, to) => RenameBooked(s, op); c := Same;
    case CloseAt(fid) => HandlesBooked(s, op); c := Same;
    case ReadAt(fid, size, offset) => HandlesBooked(s, op); c := Same;
    case Unmount => MountBooked(s); c := Mounted;
  }

  lemma HandlesBooked(s: State, op: Op)
    requires op.CloseAt? || op.ReadAt?
    ensures Booked(s, Step(s, op).0, Same)
  {
  }

  lemma MountBooked(s: State)
    requires Consistent(s)
    ensures Booked(s, Step(s, Unmount).0, Mounted)
  {
    hide BlocksOk, TreeOk, HandlesOk, Live, LinksMoved;
    NothingMoved(s.mem.itable, Mounted);
  }

  // ---------------------------------------------------------------- counters and the device copy

  /** Free blocks and set data bits add up to the data area plus one: format never charges block 0. */
  ghost predicate BlocksBalance(s: State) {
    s.mem.sb.freeBlocks + |s.mem.dbits| == s.mem.sb.dareaSize + 1
  }

  /** Free inodes and set inode bits add up to the table size, less one for every file ever created:
      lab4_createfile charges its inode twice. */
  ghost predicate InodesBalance(s: State, creates: nat) {
    s.mem.sb.freeInodes + |s.mem.ibits| + creates == INODES
  }

  /** Every inode bit past the two reserved ones stands for a live inode. */
  ghost predicate NoLeak(s: State) {
    s.mem.ibits == Live(s.mem.itable) + {0, 1}
  }

  lemma BlocksStayBalanced(s: State, s': State, c: Change)
    requires Consistent(s) && Booked(s, s', c) && BlocksBalance(s)
    ensures BlocksBalance(s')
  {
    hide BlocksOk, TreeOk, HandlesOk, InodesOk, Live, LinksMoved;
  }

  lemma LossParts(s: State, s': State, c: Change)
    requires Consistent(s) && Booked(s, s', c) && Synced(s)
    ensures Synced(s') <==> !c.Lost?
  {
    hide BlocksOk, TreeOk, HandlesOk, Live, LinksMoved;
  }

  /** An operation makes memory and device part iff it is a mkdir of a new name that finds no data block. */
  lemma SyncedStepIff(s: State, op: Op)
    requires Consistent(s) && Allowed(s, op) && Synced(s)
    ensures Synced(Step(s, op).0) <==> !LosesInode(s, op)
  {
    hide Consistent, Allowed, Step, Booked, LosesInode, Synced;
    var c := StepBooked(s, op);
    LossParts(s, Step(s, op).0, c);
  }

  lemma HintClear(s: State)
    requires Consistent(s)
    ensures s.sbi.lastIno !in s.mem.ibits && NUM_RESV_INO <= s.sbi.lastIno && s.sbi.lastIno !in Live(s.mem.itable)
    ensures forall i :: i in Live(s.mem.itable) ==> ROOT_INO <= i
  {
    hide BlocksOk, TreeOk, HandlesOk, DiskOk;
  }

  lemma InodesStayBalanced(s: State, s': State, c: Change, creates: nat)
    requires Consistent(s) && Booked(s, s', c) && Synced(s) && NoLeak(s) && InodesBalance(s, creates) && !c.Lost?
    ensures NoLeak(s') && InodesBalance(s', if c.NewFile? then creates + 1 else creates)
  {
    hide Consistent, Live, LinksMoved;
    HintClear(s);
  }

  /** No mkdir of the run fails for lack of a data block. */
  ghost predicate Lossless(s: State, ops: seq<Op>)
    decreases |ops|
  {
    ops == [] || (!LosesInode(s, ops[0]) && Lossless(Step(s, ops[0]).0, ops[1..]))
  }

  /** Successful calls of lab4_createfile in a run. */
  function Creates(s: State, ops: seq<Op>): nat
    decreases |ops|
  {
    if ops == [] then 0 else (if IsCreate(s, ops[0]) then 1 else 0) + Creates(Step(s, ops[0]).0, ops[1..])
  }

  lemma {:induction false} BlocksBalanceOverRun(s: State, ops: seq<Op>)
    requires Consistent(s) && AllowedRun(s, ops) && BlocksBalance(s)
    ensures BlocksBalance(Run(s, ops))
    decreases |ops|
  {
    hide Consistent, Step, Allowed, Booked, BlocksBalance;
    if ops != [] {
      var c := StepBooked(s, ops[0]);
      StepConsistent(s, ops[0]);
      BlocksStayBalanced(s, Step(s, ops[0]).0, c);
      BlocksBalanceOverRun(Step(s, ops[0]).0, ops[1..]);
    }
  }

  lemma {:induction false} InodesBalanceOverRun(s: State, ops: seq<Op>, creates: nat)
    requires Consistent(s) && AllowedRun(s, ops) && Lossless(s, ops)
    requires Synced(s) && NoLeak(s) && InodesBalance(s, creates)
    ensures Synced(Run(s, ops)) && NoLeak(Run(s, ops)) && InodesBalance(Run(s, ops), creates + Creates(s, ops))
    decreases |ops|
  {
    hide Consistent, Step, Allowed, Booked, NoLeak, InodesBalance, Synced, LosesInode, IsCreate;
    if ops != [] {
      var c := StepBooked(s, ops[0]);
      StepConsistent(s, ops[0]);
      LossParts(s, Step(s, ops[0]).0, c);
      InodesStayBalanced(s, Step(s, ops[0]).0, c, creates);
      InodesBalanceOverRun(Step(s, ops[0]).0, ops[1..], if c.NewFile? then creates + 1 else creates);
    }
  }

  /** Counter conservation from a format on. The block count holds after any run; the rest after runs in
      which no mkdir runs out of data blocks halfway. */
  lemma CountersConserved(sectors: nat, ops: seq<Op>)
    requires Formattable(sectors) && AllowedRun(FormatAndMount(sectors), ops)
    ensures var s := FormatAndMount(sectors);
            && BlocksBalance(Run(s, ops))
            && (Lossless(s, ops) ==> Synced(Run(s, ops)) && NoLeak(Run(s, ops)) && InodesBalance(Run(s, ops), Creates(s, ops)))
  {
    hide Consistent, Step, Allowed, Lossless;
    var s := FormatAndMount(sectors);
    FormatConsistent(sectors);
    assert FormatTable()[ROOT_INO] == ROOT_INODE;
    assert Live(FormatTable()) == {ROOT_INO};
    BlocksBalanceOverRun(s, ops);
    if Lossless(s, ops) { InodesBalanceOverRun(s, ops, 0); }
  }

  /** A bit is set for exactly the inodes that a non-dot slot names, the root and the reserved two. */
  lemma BitsAreNames(s: State, i: nat)
    requires Consistent(s) && NoLeak(s) && i >= NUM_RESV_INO
    ensures i in s.mem.ibits <==> exists d, k :: Names(View(s), d, k, i)
  {
    hide BlocksOk, HandlesOk, DiskOk;
    if i in s.mem.ibits {
      var d, k := NamedBySlot(View(s), FileSet(s.mem.itable), i);
    }
  }
}
