/** The file system refines the abstract one: what it does to names, handles and counts, and every reply, is
    determined by those alone. */
module Abstraction {
  import opened Layout
  import opened Paths
  import opened Namespace
  import opened TreeSteps
  import opened FsSpec
  import opened Fsck
  import opened NameTree
  import opened Runs
  import opened Ledger
  import opened Lifetimes
  import opened AbstractFs
  import StepFacts
  import MkdirStep
  import CreateStep
  import RemoveStep
  import RenameStep
  import FileStep
  import MountStep

  function HandlesOf(files: seq<OpenFile>): map<nat, nat> {
    map f: nat | f < |files| && files[f].used :: files[f].ino
  }

  ghost function Abs(s: State): Abstract {
    Abstract(NamesOf(s), HandlesOf(s.files), s.sbi.lastIno, s.disk.sb.lastIno, |s.blocks| - |s.mem.dbits|)
  }

  ghost predicate Good(s: State) {
    Consistent(s) && LinksNear(s)
  }

  // ---------------------------------------------------------------- counts

  /** The counts after a step, by the way it changed the books. */
  lemma CountsMove(s: State, s': State, c: Change)
    requires Consistent(s) && Booked(s, s', c)
    ensures s'.sbi.lastIno == if Allocates(c) then s.sbi.lastIno + 1 else if c.Mounted? then s.disk.sb.lastIno else s.sbi.lastIno
    ensures s'.disk.sb.lastIno == if c.NewDir? || c.NewFile? then s.sbi.lastIno + 1
                                  else if SuperSaved(c) && !c.Mounted? then s.sbi.lastIno else s.disk.sb.lastIno
    ensures |s'.blocks| - |s'.mem.dbits| == |s.blocks| - |s.mem.dbits|
                                          - (if c.NewDir? || c.NewBlock? then 1 else 0)
                                          + (if c.OldDir? || (c.OldFile? && c.block.Some?) then 1 else 0)
  {
    hide BlocksOk, TreeOk, HandlesOk, Live, LinksMoved;
  }

  lemma BlocksInRange(s: State)
    requires Consistent(s)
    ensures s.mem.dbits <= Range(|s.blocks|)
  {
    hide TreeOk, HandlesOk, DiskOk, InodesOk, OwnersOk, OwnersDistinct;
  }

  /** No block is free iff the count says so. */
  lemma FullIffNoneFree(s: State)
    requires Consistent(s)
    ensures MkdirStep.Full(s) <==> |s.blocks| - |s.mem.dbits| == 0
  {
    hide Consistent;
    BlocksInRange(s);
    var all := Range(|s.blocks|);
    if MkdirStep.Full(s) {
      assert s.mem.dbits == all;
    }
    if |s.mem.dbits| == |s.blocks| {
      SameCard(s.mem.dbits, all);
    }
  }

  // ---------------------------------------------------------------- reading the names

  lemma DirInNames(s: State, path: string)
    requires '/' in path && LegalPath(Tokens(DirName(path)))
    ensures Tokens(DirName(path)) in NamesOf(s) <==> InDir(s, path).Some?
  {
  }

  /** A directory without entries has nothing below it. */
  lemma EmptyIsChildless(s: State, p: Path, m: nat)
    requires Consistent(s) && LegalPath(p) && Resolve(View(s), p) == Some(m) && IsDir(s.mem.itable, m)
    requires NoEntries(DirSlots(s, m))
    ensures Childless(NamesOf(s), p)
  {
    hide Consistent, NoEntries, DirView, FindSlot;
    forall q | q in NamesOf(s) && Below(p, q)
      ensures q == p
    {
      if |q| > |p| {
        assert q[..|p| + 1] == p + [q[|p|]];
        PrefixResolves(View(s), q, |p| + 1);
        ResolveSnoc(View(s), p, q[|p|]);
        EmptyDirFinds(s, m, q[|p|]);
      } else {
        assert q == p;
      }
    }
  }

  /** A directory with an entry has something below it. */
  lemma EntryBelow(s: State, p: Path, m: nat)
    requires Consistent(s) && LegalPath(p) && Resolve(View(s), p) == Some(m) && IsDir(s.mem.itable, m)
    requires !NoEntries(DirSlots(s, m))
    ensures !Childless(NamesOf(s), p)
  {
    hide Consistent, DirView, FindSlot;
    var k :| 2 <= k < |DirSlots(s, m)| && DirSlots(s, m)[k].flag == Used;
    var x := DirSlots(s, m)[k].name;
    EntryFound(s, m, k);
    ResolveSnoc(View(s), p, x);
    assert LegalPath(p + [x]);
    assert p + [x] in NamesOf(s) && Below(p, p + [x]);
  }

  lemma EmptyDirFinds(s: State, m: nat, x: string)
    requires Consistent(s) && IsDir(s.mem.itable, m) && NoEntries(DirSlots(s, m)) && LegalName(x)
    ensures m in View(s) && Child(View(s)[m], x) == None
  {
    hide Consistent, DirView, NoEntries, DirShape, FindSlot;
    StepFacts.DirFacts(s, m);
    NoEntryFound(DirSlots(s, m), m, x);
  }

  lemma NoEntryFound(slots: seq<Slot>, self: nat, x: string)
    requires DirShape(slots, self) && NoEntries(slots) && LegalName(x)
    ensures FindSlot(slots, x) == None
  {
  }

  lemma EntryFound(s: State, m: nat, k: nat)
    requires Consistent(s) && IsDir(s.mem.itable, m) && 2 <= k < |DirSlots(s, m)| && DirSlots(s, m)[k].flag == Used
    ensures m in View(s) && LegalName(DirSlots(s, m)[k].name) && Child(View(s)[m], DirSlots(s, m)[k].name).Some?
  {
    hide Consistent, DirView, FindSlot;
    StepFacts.DirFacts(s, m);
    FindUnique(View(s)[m], k, DirSlots(s, m)[k].name);
  }

  /** The landing place read off the names is the one do_rename uses. */
  lemma LandingAgrees(s: State, from: string, to: string)
    requires RenameStep.CanRename(s, from, to) && Walk(s, from).Some?
    ensures LandingIn(NamesOf(s), from, to) == RenameStep.Landing(s, from, to)
    ensures Tokens(from) in NamesOf(s) && (Tokens(to) in NamesOf(s) <==> Walk(s, to).Some?)
  {
    hide TreeOk, BlocksOk;
    RenameStep.SourceDir(s, from);
    RenameStep.SourceDir(s, to);
    if Walk(s, DirName(to)) == Walk(s, DirName(from)) {
      RenameStep.SamePath(s, Tokens(DirName(to)), Tokens(DirName(from)));
    }
  }

  lemma PathTo(s: State, i: nat) returns (p: Path)
    requires Consistent(s) && IsFile(s.mem.itable, i)
    ensures LegalPath(p) && Resolve(View(s), p) == Some(i)
  {
    assert i in FileSet(s.mem.itable);
    assert Reached(View(s), i);
    p :| LegalPath(p) && Resolve(View(s), p) == Some(i);
  }

  /** What is at a good path. */
  lemma NodeAtPath(s: State, path: string)
    requires Consistent(s) && GoodPath(s, path) && Walk(s, path).Some?
    ensures var i := Walk(s, path).value;
            && Tokens(path) in NamesOf(s) && NamesOf(s)[Tokens(path)] == NodeAt(s.mem.itable, s.blocks, i)
            && i < |s.mem.itable| && s.mem.itable[i].ino == i && (IsDir(s.mem.itable, i) || IsFile(s.mem.itable, i))
  {
    hide BlocksOk, Content, HandlesOk, DiskOk;
    ResolvesToLive(View(s), FileSet(s.mem.itable), Tokens(path));
  }

  // ---------------------------------------------------------------- namespace operations

  lemma MkdirAbs(s: State, op: Op)
    requires Good(s) && Allowed(s, op) && op.MkdirAt?
    ensures (Abs(Step(s, op).0), Step(s, op).1) == AbstractStep(Abs(s), op)
  {
    hide Consistent, NamesOf, Mkdir, Booked, LinksNear, HandlesOf;
    var path := op.path;
    PathFacts(s, path);
    DirInNames(s, path);
    FullIffNoneFree(s);
    var c := MkdirBooked(s, op);
    CountsMove(s, Step(s, op).0, c);
    if InDir(s, path).Some? {
      var par := InDir(s, path).value;
      MkdirStep.MkdirRefines(s, par, BaseName(path), Tokens(DirName(path)));
      MkdirStep.MkdirStatus(s, par, BaseName(path));
      MkdirKeepsFiles(s, par, BaseName(path));
    }
  }

  lemma MkdirKeepsFiles(s: State, par: nat, name: string)
    requires MkdirStep.CanMkdir(s, par, name)
    ensures Mkdir(s, par, name).0.files == s.files
  {
    hide Consistent, InstallDir, AllocInode, AllocBlock;
    MkdirStep.MkdirStatus(s, par, name);
    if Mkdir(s, par, name).1 == Success {
      var b := MkdirStep.MkdirSuccess(s, par, name);
    } else {
      AllocKeepsFiles(s);
    }
  }

  lemma AllocKeepsFiles(s: State)
    ensures AllocInode(s).0.files == s.files
  {
  }

  lemma RmdirNames(s: State, path: string)
    requires Consistent(s) && Allowed(s, RmdirAt(path))
    ensures var (s', reply) := Step(s, RmdirAt(path));
            && reply == RemoveDirectory(Abs(s), path).1 && s'.files == s.files
            && NamesOf(s') == if reply == Done(Success) then Without(NamesOf(s), Tokens(path)) else NamesOf(s)
  {
    hide Consistent, TreeOf, Rmdir, NoEntries, Childless, HandlesOf, DirView;
    PathFacts(s, path);
    if InDir(s, path).Some? {
      var par := InDir(s, path).value;
      RemoveStep.RmdirRefines(s, par, BaseName(path), Tokens(DirName(path)));
      RemoveStep.RmdirCases(s, par, BaseName(path));
      if Walk(s, path).Some? {
        var m := Walk(s, path).value;
        if NoEntries(DirSlots(s, m)) { EmptyIsChildless(s, Tokens(path), m); } else { EntryBelow(s, Tokens(path), m); }
      }
    }
  }

  lemma RmdirAbs(s: State, op: Op)
    requires Good(s) && Allowed(s, op) && op.RmdirAt?
    ensures (Abs(Step(s, op).0), Step(s, op).1) == AbstractStep(Abs(s), op)
  {
    hide Consistent, NamesOf, Step, Booked, LinksNear, HandlesOf, Childless, GoodPath, Walk, RemoveStep.IsOpen;
    RmdirNames(s, op.path);
    var c := RmdirBooked(s, op);
    CountsMove(s, Step(s, op).0, c);
  }

  lemma UnlinkNames(s: State, path: string)
    requires Consistent(s) && Allowed(s, UnlinkAt(path))
    ensures var (s', reply) := Step(s, UnlinkAt(path));
            && reply == RemoveFile(Abs(s), path).1 && s'.files == s.files
            && NamesOf(s') == if reply == Done(Success) then Without(NamesOf(s), Tokens(path)) else NamesOf(s)
  {
    hide Consistent, TreeOf, Unlink, HandlesOf, DirView;
    PathFacts(s, path);
    if InDir(s, path).Some? {
      var par := InDir(s, path).value;
      RemoveStep.UnlinkRefines(s, par, BaseName(path), Tokens(DirName(path)));
      RemoveStep.UnlinkCases(s, par, BaseName(path));
    }
  }

  /** An unlink gives a block back iff the file was not empty. */
  lemma UnlinkFrees(s: State, path: string) returns (c: Change)
    requires Consistent(s) && Allowed(s, UnlinkAt(path))
    ensures Booked(s, Step(s, UnlinkAt(path)).0, c) && (c.Same? || c.OldFile?)
    ensures c.OldFile? <==> Step(s, UnlinkAt(path)).1 == Done(Success)
    ensures c.OldFile? ==> Tokens(path) in NamesOf(s) && NamesOf(s)[Tokens(path)].FileNode?
    ensures c.OldFile? ==> (c.block.Some? <==> NamesOf(s)[Tokens(path)].data != [])
  {
    hide Consistent, Step, DirView, Booked, Content, RemoveStep.IsOpen, TreeOf;
    c := UnlinkBooked(s, UnlinkAt(path));
    if c.OldFile? {
      NodeAtPath(s, path);
      FileSize(s, Walk(s, path).value);
    }
  }

  lemma UnlinkAbs(s: State, op: Op)
    requires Good(s) && Allowed(s, op) && op.UnlinkAt?
    ensures (Abs(Step(s, op).0), Step(s, op).1) == AbstractStep(Abs(s), op)
  {
    hide Consistent, NamesOf, Step, Booked, LinksNear, HandlesOf, GoodPath, Walk, RemoveStep.IsOpen;
    UnlinkNames(s, op.path);
    var c := UnlinkFrees(s, op.path);
    CountsMove(s, Step(s, op).0, c);
  }

  /** A file has as many bytes as its inode says. */
  lemma FileSize(s: State, i: nat)
    requires Consistent(s) && IsFile(s.mem.itable, i)
    ensures |Content(s.mem.itable, s.blocks, i)| == s.mem.itable[i].size
  {
    hide TreeOk, DirShape, DiskOk;
    RemoveStep.FileFacts(s, i);
  }

  lemma RenameNames(s: State, from: string, to: string)
    requires Consistent(s) && Allowed(s, RenameAt(from, to))
    ensures var (s', reply) := Step(s, RenameAt(from, to));
            && reply == Move(Abs(s), from, to).1 && NamesOf(s') == Move(Abs(s), from, to).0.names
  {
    hide Consistent, Rename, Relocate, DirView, HandlesOf, RenameStep.Landing, LandingIn, RenameStep.TargetTaken,
         RenameStep.LandingDir,
         Below, TreeOf;
    RenameStep.RenameStatus(s, from, to);
    RenameStep.InNamesIff(s, from);
    if Walk(s, from).Some? {
      LandingAgrees(s, from, to);
      TakenInNames(s, from, to);
      if Rename(s, from, to).1 == Success { RenameStep.RenameRefines(s, from, to); }
    }
  }

  lemma RenameKeepsFiles(s: State, from: string, to: string)
    requires RenameStep.CanRename(s, from, to)
    ensures Rename(s, from, to).0.files == s.files
  {
    hide Consistent, Rename, DirView, MoveEntry, BlocksOk, Walk;
    RenameStep.RenameStatus(s, from, to);
    if Rename(s, from, to).1 == Success {
      var sd, k, t, j := RenameStep.RenameMoves(s, from, to);
    }
  }

  lemma RenameAbs(s: State, op: Op)
    requires Good(s) && Allowed(s, op) && op.RenameAt?
    ensures (Abs(Step(s, op).0), Step(s, op).1) == AbstractStep(Abs(s), op)
  {
    hide Consistent, NamesOf, Rename, Booked, LinksNear, HandlesOf, Relocate, LandingIn, RenameStep.Succeeds,
         RenameStep.Landing,
         RenameStep.LandingDir, Below, RenameStep.WalkSafe, Walk;
    RenameNames(s, op.from, op.to);
    RenameKeepsFiles(s, op.from, op.to);
    RenameBooked(s, op);
    CountsMove(s, Step(s, op).0, Same);
  }

  lemma TakenInNames(s: State, from: string, to: string)
    requires RenameStep.CanRename(s, from, to)
    ensures RenameStep.TargetTaken(s, from, to) <==>
            Tokens(to) in NamesOf(s) && (NamesOf(s)[Tokens(to)].FileNode? || Tokens(to) + [BaseName(from)] in NamesOf(s))
  {
    hide Consistent, DirView, Content;
    ResolveSnoc(View(s), Tokens(to), BaseName(from));
  }

  // ---------------------------------------------------------------- open files

  lemma {:induction false} FreeAgrees(files: seq<OpenFile>, f: nat)
    requires |files| == MAX_OPEN_FILE
    ensures FreeHandle(files, f) == FirstFree(HandlesOf(files), f)
    decreases MAX_OPEN_FILE - f
  {
    if f < MAX_OPEN_FILE { FreeAgrees(files, f + 1); }
  }

  /** Opening file i takes the first free handle for it. */
  lemma HoldAbs(s: State, i: nat, append: bool, flags: nat)
    requires Consistent(s) && IsFile(s.mem.itable, i)
    ensures var (s', fid) := OpenInode(s, i, append, flags);
            (Abs(s'), if fid.Some? then Opened(fid.value) else Done(Error)) == Hold(Abs(s), i)
  {
    hide BlocksOk, TreeOk, DiskOk, TreeOf, FreeHandle, FirstFree;
    FreeAgrees(s.files, START_OPEN_FILE);
    var (s', fid) := OpenInode(s, i, append, flags);
    if fid.Some? {
      assert HandlesOf(s'.files) == HandlesOf(s.files)[fid.value := i];
    }
  }

  lemma CreateAbs(s: State, par: nat, name: string, dp: Path)
    requires Good(s) && MkdirStep.CanMkdir(s, par, name) && LegalPath(dp) && Resolve(View(s), dp) == Some(par)
    requires FindSlot(DirSlots(s, par), name) == None
    ensures var (s', status) := CreateFile(s, par, name);
            && Consistent(s')
            && (if s.sbi.lastIno == INODES then status != Success && Abs(s') == Abs(s)
                else && status == Success && Abs(s') == Added(Abs(s), dp + [name], FileNode(s.sbi.lastIno, []), 0)
                     && s'.sbi.lastIno == s.sbi.lastIno + 1 && IsFile(s'.mem.itable, s.sbi.lastIno))
  {
    hide Consistent, TreeOf, CreateFile, HandlesOf, LinksNear, DirView;
    NeverCrowded(s, par);
    HintBounds(s);
    TableSize(s);
    CreateStep.CreateConsistent(s, par, name);
    CreateStep.CreateRefines(s, par, name, dp);
    CreateStep.CreateCases(s, par, name);
  }

  lemma TableSize(s: State)
    requires Consistent(s)
    ensures |s.mem.itable| == INODES
  {
  }

  lemma OpenAbs(s: State, op: Op)
    requires Good(s) && Allowed(s, op) && op.OpenAt?
    ensures (Abs(Step(s, op).0), Step(s, op).1) == AbstractStep(Abs(s), op)
  {
    hide Consistent, NamesOf, CreateFile, OpenInode, LinksNear, HandlesOf, Hold, Added, NodeAt, DirView, Abs;
    var path := op.path;
    PathFacts(s, path);
    DirInNames(s, path);
    AbsParts(s);
    if InDir(s, path).Some? {
      var par, name := InDir(s, path).value, BaseName(path);
      if Walk(s, path).Some? {
        OpenExisting(s, op);
      } else if op.create {
        CreateAbs(s, par, name, Tokens(DirName(path)));
        var (s1, status) := CreateFile(s, par, name);
        if status == Success { HoldAbs(s1, s.sbi.lastIno, op.append, op.flags); }
      }
    }
  }

  lemma AbsParts(s: State)
    ensures Abs(s).names == NamesOf(s) && Abs(s).next == s.sbi.lastIno
  {
  }

  lemma OpenExisting(s: State, op: Op)
    requires Consistent(s) && op.OpenAt? && GoodPath(s, op.path) && Walk(s, op.path).Some?
    ensures (Abs(Step(s, op).0), Step(s, op).1) == AbstractStep(Abs(s), op)
  {
    hide Consistent, TreeOf, LinksNear, HandlesOf, Hold, DirView, Content, FreeHandle, FsSpec.CreateFile;
    PathFacts(s, op.path);
    DirInNames(s, op.path);
    NodeAtPath(s, op.path);
    var i := Walk(s, op.path).value;
    if IsFile(s.mem.itable, i) { HoldAbs(s, i, op.append, op.flags); }
  }

  lemma CloseAbs(s: State, op: Op)
    requires Good(s) && Allowed(s, op) && op.CloseAt?
    ensures (Abs(Step(s, op).0), Step(s, op).1) == AbstractStep(Abs(s), op)
  {
    hide Consistent, TreeOf;
    FileStep.CloseConsistent(s, op.fid);
    assert HandlesOf(Step(s, op).0.files) == HandlesOf(s.files) - {op.fid};
  }

  // ---------------------------------------------------------------- file data

  /** The file a handle stands for, as the names show it. */
  lemma HandleData(s: State, fid: nat) returns (p: Path)
    requires FileStep.OpenHandle(s, fid)
    ensures var i := FileStep.HandleIno(s, fid);
            && fid in HandlesOf(s.files) && HandlesOf(s.files)[fid] == i
            && LegalPath(p) && Resolve(View(s), p) == Some(i) && FileAt(NamesOf(s), p, i)
            && DataOf(NamesOf(s), i) == FileStep.FileData(s, fid)
            && forall q :: FileAt(NamesOf(s), q, i) ==> q == p
  {
    hide Consistent, DirView, Content;
    FileStep.HandleFacts(s, fid);
    var i := FileStep.HandleIno(s, fid);
    p := PathTo(s, i);
    forall q | FileAt(NamesOf(s), q, i)
      ensures q == p
    {
      InoIsResolved(s, q);
      RenameStep.SamePath(s, p, q);
    }
    InoIsResolved(s, p);
    assert FileAt(NamesOf(s), p, i);
  }

  lemma InoIsResolved(s: State, q: Path)
    ensures q in NamesOf(s) ==> LegalPath(q) && Resolve(View(s), q) == Some(NamesOf(s)[q].ino)
  {
  }

  lemma WriteNames(s: State, fid: nat, buf: seq<bv8>, offset: nat)
    requires FileStep.CanWrite(s, fid, buf, offset)
    ensures var (s', reply) := Step(s, WriteAt(fid, buf, offset));
            && reply == Store(Abs(s), fid, buf, offset).1 && NamesOf(s') == Store(Abs(s), fid, buf, offset).0.names
            && HandlesOf(s'.files) == HandlesOf(s.files) && (reply == Done(Error) || reply.Wrote?)
  {
    hide Consistent, TreeOf, Write, DirView, FileStep.Written, Content, FileStep.WroteState, FileStep.NewCluster,
         FileStep.WriteTarget, DataOf;
    FullIffNoneFree(s);
    FileStep.HandleFacts(s, fid);
    var p := HandleData(s, fid);
    FileStep.WriteRefines(s, fid, buf, offset, p);
    var b := FileStep.WriteCases(s, fid, buf, offset);
    WriteKeepsHandles(s, fid, buf, offset);
  }

  lemma WriteKeepsHandles(s: State, fid: nat, buf: seq<bv8>, offset: nat)
    requires FileStep.CanWrite(s, fid, buf, offset)
    ensures HandlesOf(Write(s, fid, buf, offset).0.files) == HandlesOf(s.files)
  {
    hide Consistent, Write, Content, FileStep.NewCluster;
    var b := FileStep.WriteCases(s, fid, buf, offset);
  }

  /** A write takes a block iff the file was empty. */
  lemma WriteTakes(s: State, op: Op) returns (c: Change)
    requires Consistent(s) && Allowed(s, op) && op.WriteAt?
    ensures Booked(s, Step(s, op).0, c) && (c.Same? || c.NewBlock? || c.Rewritten?) && (!c.Same? <==> Step(s, op).1.Wrote?)
    ensures !c.Same? ==> (c.NewBlock? <==> DataOf(NamesOf(s), FileStep.HandleIno(s, op.fid)) == [])
  {
    hide Consistent, Write, Booked, Content, DataOf, TreeOf;
    FileStep.HandleFacts(s, op.fid);
    var p := HandleData(s, op.fid);
    c := WriteBooked(s, op);
  }

  lemma WriteAbs(s: State, op: Op)
    requires Good(s) && Allowed(s, op) && op.WriteAt?
    ensures (Abs(Step(s, op).0), Step(s, op).1) == AbstractStep(Abs(s), op)
  {
    hide Consistent, NamesOf, Step, Booked, LinksNear, HandlesOf, DataOf, WithData, FileStep.Written, FileStep.FileData;
    WriteNames(s, op.fid, op.buf, op.offset);
    var p := HandleData(s, op.fid);
    var c := WriteTakes(s, op);
    CountsMove(s, Step(s, op).0, c);
  }

  lemma ReadAbs(s: State, op: Op)
    requires Good(s) && Allowed(s, op) && op.ReadAt?
    ensures (Abs(Step(s, op).0), Step(s, op).1) == AbstractStep(Abs(s), op)
  {
    hide Consistent, TreeOf, Content, DataOf, StrLen;
    var p := HandleData(s, op.fid);
    FileStep.ReadExact(s, op.fid, op.size, op.offset);
    FileStep.ReadChangesNothing(s, op.fid, op.size, op.offset);
    ReadKeepsHandles(s, op.fid, op.size, op.offset);
  }

  lemma ReadKeepsHandles(s: State, fid: nat, size: nat, offset: nat)
    requires fid < |s.files|
    ensures var s' := Read(s, fid, size, offset).0;
            && HandlesOf(s'.files) == HandlesOf(s.files) && s'.sbi == s.sbi && s'.disk == s.disk && s'.mem == s.mem && s'.blocks == s.blocks
  {
    hide StrLen;
  }

  // ---------------------------------------------------------------- runs

  lemma UnmountAbs(s: State)
    requires Good(s)
    ensures (Abs(Step(s, Unmount).0), Step(s, Unmount).1) == AbstractStep(Abs(s), Unmount)
  {
    hide BlocksOk, TreeOk, HandlesOk, TreeOf;
    MountStep.RemountConsistent(s);
    assert HandlesOf(Remount(s).files) == map[];
  }

  /** Every allowed operation is a step of the abstract file system, reply included. */
  lemma StepRefines(s: State, op: Op)
    requires Good(s) && Allowed(s, op)
    ensures (Abs(Step(s, op).0), Step(s, op).1) == AbstractStep(Abs(s), op) && Good(Step(s, op).0)
  {
    hide Consistent, LinksNear, Abs, AbstractStep, Step, Booked;
    StepConsistent(s, op);
    var c := StepBooked(s, op);
    LinksStayNear(s, Step(s, op).0, c);
    match op
    case MkdirAt(path) => MkdirAbs(s, op);
    case RmdirAt(path) => RmdirAbs(s, op);
    case UnlinkAt(path) => UnlinkAbs(s, op);
    case RenameAt(from, to) => RenameAbs(s, op);
    case OpenAt(path, create, append, flags) => OpenAbs(s, op);
    case CloseAt(fid) => CloseAbs(s, op);
    case WriteAt(fid, buf, offset) => WriteAbs(s, op);
    case ReadAt(fid, size, offset) => ReadAbs(s, op);
    case Unmount => UnmountAbs(s);
  }

  /** What a run replies. */
  function Replies(s: State, ops: seq<Op>): seq<Reply>
    decreases |ops|
  {
    if ops == [] then [] else [Step(s, ops[0]).1] + Replies(Step(s, ops[0]).0, ops[1..])
  }

  lemma {:induction false} RunRefines(s: State, ops: seq<Op>)
    requires Good(s) && AllowedRun(s, ops)
    ensures Abs(Run(s, ops)) == AbstractRun(Abs(s), ops) && Replies(s, ops) == AbstractReplies(Abs(s), ops)
    decreases |ops|
  {
    hide Good, Step, Allowed, AbstractStep, Abs;
    if ops != [] {
      StepRefines(s, ops[0]);
      RunRefines(Step(s, ops[0]).0, ops[1..]);
    }
  }

  /** Every run from a format is the run of the abstract file system from an empty root directory: the same
      replies, and the same names, bytes, handles and counts at the end. */
  lemma ReachableRefines(sectors: nat, ops: seq<Op>)
    requires Formattable(sectors) && AllowedRun(FormatAndMount(sectors), ops)
    ensures var s := FormatAndMount(sectors);
            && Replies(s, ops) == AbstractReplies(AbstractStart(DataBlocks(sectors)), ops)
            && Abs(Run(s, ops)) == AbstractRun(AbstractStart(DataBlocks(sectors)), ops)
  {
    hide Consistent, AbstractStep, AbstractRun, AbstractReplies, Step, Allowed, LinksNear;
    MountStep.FormatConsistent(sectors);
    FormatNear(sectors);
    FormatAbs(sectors);
    RunRefines(FormatAndMount(sectors), ops);
  }

  lemma FormatAbs(sectors: nat)
    requires Formattable(sectors)
    ensures Abs(FormatAndMount(sectors)) == AbstractStart(DataBlocks(sectors))
  {
    hide TreeOf;
    MountStep.FormatConsistent(sectors);
    var dbits: set<nat> := {0};
    assert |dbits| == 1;
    assert HandlesOf(FormatAndMount(sectors).files) == map[];
  }
}
