/** What do_readdir shows of the dot entries, over runs in which directories move and go. */
module Listings {
  import opened Layout
  import opened Paths
  import opened Namespace
  import opened TreeSteps
  import opened FsSpec
  import opened Fsck
  import opened StepFacts
  import opened Runs
  import opened NameTree
  import opened DotDots
  import Links
  import MkdirStep
  import CreateStep
  import RemoveStep
  import RenameStep
  import FileStep
  import MountStep

  /** The listing of a whole directory. */
  function Shown(s: State, d: nat): seq<(string, nat, bool)> {
    Readdir(s.mem.itable, DirSlots(s, d), 0)
  }

  /** The listing of a live directory begins with itself as dot and with what its second slot names as dot-dot,
      shown as a directory iff that is one now; legal names follow. */
  lemma DotsShown(s: State, d: nat)
    requires Consistent(s) && IsDir(s.mem.itable, d)
    ensures |DirSlots(s, d)| == 32
    ensures var l, up := Shown(s, d), DirSlots(s, d)[1].ino;
            && |l| >= 2 && l[0] == (".", d, true)
            && l[1] == ("..", up, up < |s.mem.itable| && s.mem.itable[up].kind == Directory)
            && forall j :: 2 <= j < |l| ==> LegalName(l[j].0)
  {
    hide BlocksOk, TreeOk, HandlesOk, DiskOk, InodesOk, LegalName;
    DirFacts(s, d);
    var slots := DirSlots(s, d);
    ReaddirEntries(s.mem.itable, slots, 0);
    assert UsedBefore(slots, 0) == 0 && UsedBefore(slots, 1) == 1;
    var l := Shown(s, d);
    assert slots[..SLOTS] == slots;
    forall j | 2 <= j < |l|
      ensures LegalName(l[j].0)
    {
      LaterEntry(s.mem.itable, slots, d, j);
    }
  }

  lemma LaterEntry(itable: seq<Inode>, slots: seq<Slot>, d: nat, j: nat)
    requires DirShape(slots, d) && 2 <= j < |Listing(itable, slots)|
    ensures LegalName(Listing(itable, slots)[j].0)
  {
    hide LegalName;
    var l := Listing(itable, slots);
    ListingNames(itable, slots);
    FirstEntries(itable, slots, SLOTS);
    assert slots[..SLOTS] == slots;
    assert UsedBefore(slots, 0) == 0 && UsedBefore(slots, 1) == 1;
    ListedIff(itable, slots, l[j]);
    var k :| 0 <= k < |slots| && slots[k].flag == Used && Listed(itable, slots[k]) == l[j];
    assert k != 0 && k != 1;
  }

  /** When the dot-dot entries are exact, the one shown is the directory at the path above. */
  lemma ParentShown(s: State, dp: Path, x: string, d: nat)
    requires Consistent(s) && Links.ParentsExact(View(s)) && IsDir(s.mem.itable, d)
    requires LegalPath(dp + [x]) && Resolve(View(s), dp + [x]) == Some(d)
    ensures Resolve(View(s), dp).Some? && |Shown(s, d)| > 1 && Shown(s, d)[1] == ("..", Resolve(View(s), dp).value, true)
  {
    hide BlocksOk, HandlesOk, DiskOk, InodesOk;
    DotsShown(s, d);
    DirFacts(s, d);
    var p := dp + [x];
    assert p[..|p| - 1] == dp;
    var e, k := LastStep(View(s), p);
    assert Names(View(s), e, k, d);
  }

  // ---------------------------------------------------------------- dot-dot entries over the operations

  /** Directories that are there before and after have the same dot-dot entry. */
  ghost predicate KeepsUps(s: State, s': State) {
    forall d :: d in View(s) && d in View(s') ==> UpOf(View(s'), d) == UpOf(View(s), d)
  }

  lemma SameTables(s: State, s': State)
    requires s'.mem.itable == s.mem.itable && s'.blocks == s.blocks
    ensures KeepsUps(s, s')
  {
  }

  lemma MkdirKeepsUps(s: State, op: Op)
    requires Consistent(s) && Allowed(s, op) && op.MkdirAt?
    ensures KeepsUps(s, Step(s, op).0)
  {
    hide Consistent, Mkdir, AllocInode, MkdirStep.Made, DirView, UpOf, AddEntry, CanAdd;
    PathFacts(s, op.path);
    if InDir(s, op.path).Some? {
      var par, name := InDir(s, op.path).value, BaseName(op.path);
      MkdirStep.MkdirStatus(s, par, name);
      if Mkdir(s, par, name).1 == Success {
        var b := MkdirStep.MkdirSuccess(s, par, name);
        MkdirStep.MadeView(s, par, name, b);
        MkdirStep.NewLeaf(s, par, name, 0);
        UpsAfterAdd(View(s), FileSet(s.mem.itable), par, FreeSlot(DirSlots(s, par)), Slot(s.sbi.lastIno, Used, 0, name));
      } else {
        AllocKeepsTables(s);
      }
    }
  }

  lemma RmdirKeepsUps(s: State, op: Op)
    requires Consistent(s) && Allowed(s, op) && op.RmdirAt?
    ensures KeepsUps(s, Step(s, op).0)
  {
    hide Consistent, Rmdir, RemoveStep.DirGone, NoEntries, UpOf, DirView, RemoveEntry, CanRemove;
    PathFacts(s, op.path);
    if InDir(s, op.path).Some? {
      var par, name := InDir(s, op.path).value, BaseName(op.path);
      RemoveStep.RmdirCases(s, par, name);
      if Rmdir(s, par, name).1 == Success {
        var k := FindSlot(DirSlots(s, par), name).value;
        RemoveStep.DirGoneView(s, par, k, DirSlots(s, par)[k].ino);
        RemoveStep.LeafEntry(s, par, k, DirSlots(s, par)[k].ino);
        UpsAfterRemove(View(s), FileSet(s.mem.itable), par, k);
      }
    }
  }

  lemma UnlinkKeepsUps(s: State, op: Op)
    requires Consistent(s) && Allowed(s, op) && op.UnlinkAt?
    ensures KeepsUps(s, Step(s, op).0)
  {
    hide Consistent, Unlink, RemoveStep.FileGone, UpOf, DirView, RemoveEntry, CanRemove;
    PathFacts(s, op.path);
    if InDir(s, op.path).Some? {
      var par, name := InDir(s, op.path).value, BaseName(op.path);
      RemoveStep.UnlinkCases(s, par, name);
      if Unlink(s, par, name).1 == Success {
        var k := FindSlot(DirSlots(s, par), name).value;
        RemoveStep.FileGoneView(s, par, k, DirSlots(s, par)[k].ino);
        RemoveStep.LeafEntry(s, par, k, DirSlots(s, par)[k].ino);
        UpsAfterRemove(View(s), FileSet(s.mem.itable), par, k);
      }
    }
  }

  lemma OpenKeepsUps(s: State, op: Op)
    requires Consistent(s) && Allowed(s, op) && op.OpenAt?
    ensures KeepsUps(s, Step(s, op).0)
  {
    hide Consistent, CreateFile, OpenFileIn, CreateStep.Created, DirView, UpOf, AddEntry, CanAdd;
    PathFacts(s, op.path);
    if InDir(s, op.path).Some? {
      var par, name := InDir(s, op.path).value, BaseName(op.path);
      FileStep.OpenOnlyHandles(s, par, name, op.create, op.append, op.flags);
      CreateStep.CreateCases(s, par, name);
      if CreateFile(s, par, name).1 == Success {
        CreateStep.CreatedView(s, par, name);
        MkdirStep.NewLeaf(s, par, name, 1);
        UpsAfterAdd(View(s), FileSet(s.mem.itable), par, FreeSlot(DirSlots(s, par)), Slot(s.sbi.lastIno, Used, 1, name));
      }
    }
  }

  lemma WriteKeepsUps(s: State, op: Op)
    requires Consistent(s) && Allowed(s, op) && op.WriteAt?
    ensures KeepsUps(s, Step(s, op).0)
  {
    hide Consistent, Write, FileStep.NewCluster, Content, DirView, UpOf;
    var b := FileStep.WriteCases(s, op.fid, op.buf, op.offset);
    if Write(s, op.fid, op.buf, op.offset).1.Some? {
      FileStep.WroteView(s, op.fid, op.buf, op.offset, b);
    }
  }

  lemma RenameKeepsUps(s: State, op: Op)
    requires Consistent(s) && Allowed(s, op) && op.RenameAt?
    ensures KeepsUps(s, Step(s, op).0)
  {
    hide Consistent, Rename, DirView, MoveEntry, CanMove, RenameStep.TargetTaken, BlocksOk, UpOf;
    RenameStep.RenameStatus(s, op.from, op.to);
    if Rename(s, op.from, op.to).1 == Success {
      var name := RenameStep.LandingName(s, op.from, op.to);
      var sd, k, t, j := RenameStep.RenameMoves(s, op.from, op.to);
      RenameStep.LandingLegal(s, op.from, op.to);
      RenameStep.LandingFree(s, t, name, RenameStep.LandingDir(s, op.to));
      RenameStep.MoveAllowed(s, Step(s, op).0, sd, k, t, j, name);
      MoveKeepsUps(View(s), FileSet(s.mem.itable), sd, k, t, j, name);
    }
  }

  /** No operation rewrites a dot-dot entry, a rename that moves the directory least of all. */
  lemma StepKeepsUps(s: State, op: Op)
    requires Consistent(s) && Allowed(s, op)
    ensures KeepsUps(s, Step(s, op).0)
  {
    hide KeepsUps, Allowed, TreeOk, BlocksOk, Geometry, InodesOk, HandlesOk, StrLen;
    match op
    case MkdirAt(path) => MkdirKeepsUps(s, op);
    case RmdirAt(path) => RmdirKeepsUps(s, op);
    case UnlinkAt(path) => UnlinkKeepsUps(s, op);
    case OpenAt(path, create, append, flags) => OpenKeepsUps(s, op);
    case WriteAt(fid, buf, offset) => WriteKeepsUps(s, op);
    case RenameAt(from, to) => RenameKeepsUps(s, op);
    case _ => SameTables(s, Step(s, op).0);
  }

  /** Inode d is a directory all along the run. */
  ghost predicate Stays(s: State, ops: seq<Op>, d: nat)
    decreases |ops|
  {
    IsDir(s.mem.itable, d) && (ops == [] || Stays(Step(s, ops[0]).0, ops[1..], d))
  }

  lemma {:induction false} DotDotStays(s: State, ops: seq<Op>, d: nat)
    requires Consistent(s) && AllowedRun(s, ops) && Stays(s, ops, d)
    ensures IsDir(Run(s, ops).mem.itable, d) && |DirSlots(s, d)| > 1 && |DirSlots(Run(s, ops), d)| > 1
    ensures DirSlots(Run(s, ops), d)[1].ino == DirSlots(s, d)[1].ino
    decreases |ops|
  {
    hide Consistent, Step, Allowed, SlotsAt;
    DirFacts(s, d);
    if ops != [] {
      var s' := Step(s, ops[0]).0;
      StepKeepsUps(s, ops[0]);
      StepConsistent(s, ops[0]);
      DirFacts(s', d);
      DotDotStays(s', ops[1..], d);
    }
  }

  /** Wherever a directory is moved, as long as it exists it shows as dot-dot the directory it was made in, as a
      directory iff that one still exists. */
  lemma DotDotIsBirthplace(s: State, path: string, ops: seq<Op>)
    requires Consistent(s) && Allowed(s, MkdirAt(path)) && Step(s, MkdirAt(path)).1 == Done(Success)
    requires var s1 := Step(s, MkdirAt(path)).0; AllowedRun(s1, ops) && Stays(s1, ops, s.sbi.lastIno)
    ensures InDir(s, path).Some?
    ensures var d, par, s' := s.sbi.lastIno, InDir(s, path).value, Run(Step(s, MkdirAt(path)).0, ops);
            && |Shown(s', d)| > 1 && Shown(s', d)[0] == (".", d, true)
            && Shown(s', d)[1] == ("..", par, par < |s'.mem.itable| && s'.mem.itable[par].kind == Directory)
  {
    hide Consistent, Mkdir, GoodPath, SlotsAt, Run, AllowedRun;
    PathFacts(s, path);
    var par, name, s1 := InDir(s, path).value, BaseName(path), Step(s, MkdirAt(path)).0;
    MadeDots(s, par, name);
    StepConsistent(s, MkdirAt(path));
    DotDotStays(s1, ops, s.sbi.lastIno);
    RunKeepsConsistent(s1, ops);
    DotsShown(Run(s1, ops), s.sbi.lastIno);
  }

  lemma MadeDots(s: State, par: nat, name: string)
    requires MkdirStep.CanMkdir(s, par, name) && Mkdir(s, par, name).1 == Success
    ensures DirSlots(Mkdir(s, par, name).0, s.sbi.lastIno) == DotSlots(s.sbi.lastIno, par)
  {
    hide BlocksOk, TreeOk, HandlesOk, DiskOk, DotSlots, Mkdir;
    var b := MkdirStep.MkdirSuccess(s, par, name);
    FreshInode(s);
    AddrIs(b);
  }

  lemma {:induction false} RootStays(s: State, ops: seq<Op>)
    requires Consistent(s) && AllowedRun(s, ops)
    ensures Stays(s, ops, ROOT_INO)
    decreases |ops|
  {
    hide Allowed, Step, BlocksOk, DiskOk, HandlesOk, InodesOk, Shapes, NamesLive, AllReached;
    assert ROOT_INO in View(s);
    if ops != [] {
      StepConsistent(s, ops[0]);
      RootStays(Step(s, ops[0]).0, ops[1..]);
    }
  }

  /** After every run from a format the root shows itself as dot and as dot-dot. */
  lemma RootShowsItself(sectors: nat, ops: seq<Op>)
    requires Formattable(sectors) && AllowedRun(FormatAndMount(sectors), ops)
    ensures var l := Shown(Run(FormatAndMount(sectors), ops), 2);
            |l| > 1 && l[0] == (".", 2, true) && l[1] == ("..", 2, true)
  {
    hide Consistent, Step, Allowed, Run, AllowedRun, SlotsAt;
    var s := FormatAndMount(sectors);
    MountStep.FormatConsistent(sectors);
    RootStays(s, ops);
    FormatDots(sectors);
    DotDotStays(s, ops, ROOT_INO);
    RunKeepsConsistent(s, ops);
    DotsShown(Run(s, ops), ROOT_INO);
  }

  lemma FormatDots(sectors: nat)
    requires Formattable(sectors)
    ensures DirSlots(FormatAndMount(sectors), ROOT_INO) == DotSlots(ROOT_INO, ROOT_INO)
  {
    hide DotSlots;
    AddrIs(0);
    assert FormatTable()[ROOT_INO] == ROOT_INODE;
  }
}
