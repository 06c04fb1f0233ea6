/** Link counts when directories do move: a count follows the dot-dot entries, which do_rename leaves alone. */
module DotDots {
  import opened Layout
  import opened Paths
  import opened Namespace
  import opened TreeSteps
  import opened FsSpec
  import opened Fsck
  import opened StepFacts
  import opened Runs
  import opened Links
  import MkdirStep
  import CreateStep
  import RemoveStep
  import RenameStep
  import FileStep
  import MountStep
  import Ledger
  import Lifetimes

  /** The inode a directory's dot-dot entry names. */
  function UpOf(ns: Dirs, m: nat): nat
    requires m in ns
  {
    if |ns[m]| > 1 then ns[m][1].ino else 0
  }

  /** The directories whose dot-dot names d; the root's own does not count. */
  ghost function Ups(ns: Dirs, d: nat): set<nat> {
    set m | m in ns && m != ROOT_INO && UpOf(ns, m) == d
  }

  /** Every directory's link count is 2 plus the number of directories whose dot-dot names it. */
  ghost predicate UpsExact(itable: seq<Inode>, ns: Dirs) {
    forall d :: d in ns ==> InodeAt(itable, d).links == 2 + |Ups(ns, d)|
  }

  /** No dot-dot names an inode number that is still to be handed out. */
  ghost predicate UpsBelow(ns: Dirs, next: nat) {
    forall m :: m in ns ==> UpOf(ns, m) < next
  }

  ghost predicate UpsOk(s: State) {
    UpsExact(s.mem.itable, View(s)) && UpsBelow(View(s), s.disk.sb.lastIno)
  }

  lemma UpsBound(ns: Dirs, files: set<nat>, d: nat)
    requires Plan(ns, files)
    ensures |Ups(ns, d)| <= INODES
  {
    SubsetCard(Ups(ns, d), Range(INODES));
  }

  // ---------------------------------------------------------------- directories as a step leaves them

  /** The same directories with the same dot-dot entries. */
  ghost predicate SameUps(ns: Dirs, ns': Dirs) {
    ns'.Keys == ns.Keys && forall m :: m in ns ==> UpOf(ns', m) == UpOf(ns, m)
  }

  ghost predicate SameCounts(itable: seq<Inode>, itable': seq<Inode>, ns: Dirs) {
    forall d :: d in ns ==> InodeAt(itable', d).links == InodeAt(itable, d).links
  }

  lemma UpsKept(itable: seq<Inode>, ns: Dirs, itable': seq<Inode>, ns': Dirs, next: nat, next': nat)
    requires UpsExact(itable, ns) && UpsBelow(ns, next) && SameUps(ns, ns') && SameCounts(itable, itable', ns) && next <= next'
    ensures UpsExact(itable', ns') && UpsBelow(ns', next')
  {
    forall d | d in ns
      ensures Ups(ns', d) == Ups(ns, d)
    {
    }
  }

  lemma UpsAfterAdd(ns: Dirs, files: set<nat>, d: nat, k: nat, e: Slot)
    requires CanAdd(ns, files, d, k, e)
    ensures var ns' := AddEntry(ns, d, k, e, true);
            && ns'.Keys == ns.Keys + {e.ino} && UpOf(ns', e.ino) == d && forall m :: m in ns ==> UpOf(ns', m) == UpOf(ns, m)
    ensures SameUps(ns, AddEntry(ns, d, k, e, false))
  {
    assert DirShape(ns[d], d);
  }

  lemma UpsWith(ns: Dirs, ns': Dirs, i: nat, f: nat)
    requires i !in ns && i != ROOT_INO && ns'.Keys == ns.Keys + {i} && forall m :: m in ns ==> UpOf(ns', m) == UpOf(ns, m)
    ensures i !in Ups(ns, f) && Ups(ns', f) == Ups(ns, f) + if UpOf(ns', i) == f then {i} else {}
  {
  }

  lemma UpsWithout(ns: Dirs, ns': Dirs, m: nat, f: nat)
    requires m in ns && m != ROOT_INO && ns'.Keys == ns.Keys - {m} && forall i :: i in ns' ==> UpOf(ns', i) == UpOf(ns, i)
    ensures Ups(ns', f) == Ups(ns, f) - {m} && (m in Ups(ns, f) <==> UpOf(ns, m) == f)
  {
  }

  lemma NothingNames(ns: Dirs, next: nat, i: nat)
    requires UpsBelow(ns, next) && next <= i
    ensures Ups(ns, i) == {}
  {
  }

  /** A new directory's dot-dot names its parent, which gets one link more. */
  lemma MadeUps(itable: seq<Inode>, ns: Dirs, files: set<nat>, d: nat, k: nat, e: Slot, itable': seq<Inode>, next: nat)
    requires CanAdd(ns, files, d, k, e) && d in ns && k < |ns[d]|
    requires UpsExact(itable, ns) && UpsBelow(ns, next) && next <= e.ino && d < next
    requires InodeAt(itable', e.ino).links == 2 && InodeAt(itable', d).links == (InodeAt(itable, d).links + 1) % U32
    requires forall i :: i in ns && i != d ==> InodeAt(itable', i).links == InodeAt(itable, i).links
    ensures UpsExact(itable', AddEntry(ns, d, k, e, true)) && UpsBelow(AddEntry(ns, d, k, e, true), e.ino + 1)
  {
    hide AddEntry, Shapes, NamesLive, AllReached, InodeAt, Ups, UpOf, FindSlot, LegalName;
    var ns', i := AddEntry(ns, d, k, e, true), e.ino;
    UpsAfterAdd(ns, files, d, k, e);
    UpsBound(ns, files, d);
    NothingNames(ns, next, i);
    forall f | f in ns'
      ensures InodeAt(itable', f).links == 2 + |Ups(ns', f)|
    {
      UpsWith(ns, ns', i, f);
    }
  }

  lemma UpsAfterRemove(ns: Dirs, files: set<nat>, d: nat, k: nat)
    requires CanRemove(ns, files, d, k)
    ensures ns[d][k].ino != d
    ensures var ns' := RemoveEntry(ns, d, k);
            ns'.Keys == ns.Keys - {ns[d][k].ino} && forall m :: m in ns' ==> UpOf(ns', m) == UpOf(ns, m)
  {
    assert DirShape(ns[d], d);
    NoSelfEntry(ns, files, d, k);
  }

  /** A directory that goes takes one link off the directory it is removed from; this is right iff that is the one
      its dot-dot names. */
  lemma GoneUpsIff(itable: seq<Inode>, ns: Dirs, files: set<nat>, d: nat, k: nat, itable': seq<Inode>, next: nat, next': nat)
    requires CanRemove(ns, files, d, k) && d in ns && k < |ns[d]| && ns[d][k].ino in ns && ns[d][k].ino != ROOT_INO
    requires UpsExact(itable, ns) && UpsBelow(ns, next) && next <= next'
    requires InodeAt(itable', d).links == (InodeAt(itable, d).links - 1) % U32
    requires forall i :: i in ns && i != d && i != ns[d][k].ino ==> InodeAt(itable', i).links == InodeAt(itable, i).links
    ensures var ns' := RemoveEntry(ns, d, k);
            UpsExact(itable', ns') && UpsBelow(ns', next') <==> UpOf(ns, ns[d][k].ino) == d
  {
    hide RemoveEntry, CanRemove, InodeAt, Ups, UpOf;
    UpsAfterRemove(ns, files, d, k);
    BoundWhen(ns, files, d, k);
    var ns', m := RemoveEntry(ns, d, k), ns[d][k].ino;
    assert d in ns';
    forall f | f in ns'
      ensures if f == d then (InodeAt(itable', f).links == 2 + |Ups(ns', f)| <==> UpOf(ns, m) == d)
              else UpOf(ns, m) == d ==> InodeAt(itable', f).links == 2 + |Ups(ns', f)|
    {
      UpsWithout(ns, ns', m, f);
    }
  }

  lemma BoundWhen(ns: Dirs, files: set<nat>, d: nat, k: nat)
    requires CanRemove(ns, files, d, k)
    ensures |Ups(ns, d)| <= INODES
  {
    UpsBound(ns, files, d);
  }

  // ---------------------------------------------------------------- over the operations

  /** The rmdir of an empty directory whose dot-dot names another directory than the one it is in. */
  ghost predicate RemovesStray(s: State, op: Op) {
    && op.RmdirAt? && InDir(s, op.path).Some? && Walk(s, op.path).Some?
    && Walk(s, op.path).value in View(s) && NoEntries(DirSlots(s, Walk(s, op.path).value))
    && UpOf(View(s), Walk(s, op.path).value) != InDir(s, op.path).value
  }

  lemma HintKept(s: State, op: Op)
    requires Consistent(s) && Allowed(s, op)
    ensures s.disk.sb.lastIno <= Step(s, op).0.disk.sb.lastIno && s.disk.sb.lastIno <= s.sbi.lastIno
  {
    hide Consistent, Allowed, Step, Ledger.Booked;
    var c := Ledger.StepBooked(s, op);
    Lifetimes.HintMoves(s, Step(s, op).0, c);
  }

  /** A live directory's number is known to the device. */
  lemma DirBelowHint(s: State, d: nat)
    requires Consistent(s) && IsDir(s.mem.itable, d)
    ensures d < s.disk.sb.lastIno
  {
    hide BlocksOk, TreeOk, HandlesOk;
  }

  lemma MadeUpsOk(s: State, par: nat, name: string, b: nat)
    requires MkdirStep.CanMkdir(s, par, name) && s.sbi.lastIno < INODES && b < |s.blocks| && b !in s.mem.dbits
    requires FindSlot(DirSlots(s, par), name) == None && UpsOk(s) && s.disk.sb.lastIno <= s.sbi.lastIno
    requires 0 <= BlockAt(s.mem.itable, par) < |s.blocks| && FreeSlot(DirSlots(s, par)) < |DirSlots(s, par)|
    ensures UpsOk(MkdirStep.Made(s, par, name, b))
  {
    hide BlocksOk, TreeOk, HandlesOk, DiskOk, InodesOk, CanAdd, UpsExact, UpsBelow, AddEntry;
    DirBelowHint(s, par);
    FreshInode(s);
    MkdirStep.MadeView(s, par, name, b);
    MkdirStep.NewLeaf(s, par, name, 0);
    var e := Slot(s.sbi.lastIno, Used, 0, name);
    MadeUps(s.mem.itable, View(s), FileSet(s.mem.itable), par, FreeSlot(DirSlots(s, par)), e,
            MkdirStep.Made(s, par, name, b).mem.itable, s.disk.sb.lastIno);
  }

  lemma MkdirUps(s: State, op: Op)
    requires Consistent(s) && Allowed(s, op) && op.MkdirAt? && UpsOk(s)
    ensures UpsOk(Step(s, op).0)
  {
    hide Consistent, Mkdir, AllocInode, UpsExact, UpsBelow, MkdirStep.Made;
    PathFacts(s, op.path);
    HintKept(s, op);
    if InDir(s, op.path).Some? {
      var par, name := InDir(s, op.path).value, BaseName(op.path);
      MkdirStep.MkdirStatus(s, par, name);
      if Mkdir(s, par, name).1 == Success {
        var b := MkdirStep.MkdirSuccess(s, par, name);
        MadeUpsOk(s, par, name, b);
      } else {
        AllocKeepsTables(s);
      }
    }
  }

  lemma AllocKeepsTables(s: State)
    ensures var s' := RestoreDbmap(AllocInode(s).0); s'.mem.itable == s.mem.itable && s'.blocks == s.blocks && s'.disk == s.disk
  {
  }

  lemma DirGoneUpsIff(s: State, par: nat, k: nat, m: nat)
    requires RemoveStep.Entry(s, par, k, m) && IsDir(s.mem.itable, m) && m != par && NoEntries(DirSlots(s, m)) && UpsOk(s)
    requires 0 <= BlockAt(s.mem.itable, par) < |s.blocks| && 0 <= BlockAt(s.mem.itable, m) < |s.blocks|
    ensures m in View(s) && (UpsOk(RemoveStep.DirGone(s, par, k, m)) <==> UpOf(View(s), m) == par)
  {
    hide BlocksOk, TreeOk, HandlesOk, CanRemove, UpsExact, UpsBelow, NoEntries, RemoveEntry, SlotsAt, UpOf;
    EntryFacts(s, par, k);
    RemoveStep.ViewAt(s, par);
    RemoveStep.ViewAt(s, m);
    RemoveStep.DirGoneView(s, par, k, m);
    RemoveStep.LeafEntry(s, par, k, m);
    GoneUpsIff(s.mem.itable, View(s), FileSet(s.mem.itable), par, k, RemoveStep.DirGone(s, par, k, m).mem.itable,
               s.disk.sb.lastIno, s.mem.sb.lastIno);
  }

  lemma RmdirUpsIff(s: State, op: Op)
    requires Consistent(s) && Allowed(s, op) && op.RmdirAt? && UpsOk(s)
    ensures UpsOk(Step(s, op).0) <==> !RemovesStray(s, op)
  {
    hide Consistent, Rmdir, UpsOk, RemoveStep.DirGone, NoEntries, UpOf;
    PathFacts(s, op.path);
    if InDir(s, op.path).Some? {
      var par, name := InDir(s, op.path).value, BaseName(op.path);
      RemoveStep.RmdirCases(s, par, name);
      if Rmdir(s, par, name).1 == Success {
        var k := FindSlot(DirSlots(s, par), name).value;
        DirGoneUpsIff(s, par, k, DirSlots(s, par)[k].ino);
      }
    }
  }

  lemma FileGoneUps(s: State, par: nat, k: nat, m: nat)
    requires RemoveStep.Entry(s, par, k, m) && IsFile(s.mem.itable, m) && UpsOk(s)
    requires 0 <= BlockAt(s.mem.itable, par) < |s.blocks|
    requires s.mem.itable[m].size > 0 ==> 0 <= BlockAt(s.mem.itable, m) < |s.blocks|
    ensures UpsOk(RemoveStep.FileGone(s, par, k, m))
  {
    hide BlocksOk, TreeOk, HandlesOk, InodesOk, CanRemove, UpsExact, UpsBelow, RemoveEntry, SlotsAt;
    RemoveStep.FileGoneView(s, par, k, m);
    RemoveStep.LeafEntry(s, par, k, m);
    UpsAfterRemove(View(s), FileSet(s.mem.itable), par, k);
    var s' := RemoveStep.FileGone(s, par, k, m);
    UpsKept(s.mem.itable, View(s), s'.mem.itable, View(s'), s.disk.sb.lastIno, s'.disk.sb.lastIno);
  }

  lemma UnlinkUps(s: State, op: Op)
    requires Consistent(s) && Allowed(s, op) && op.UnlinkAt? && UpsOk(s)
    ensures UpsOk(Step(s, op).0)
  {
    hide Consistent, Unlink, UpsOk, RemoveStep.FileGone;
    PathFacts(s, op.path);
    if InDir(s, op.path).Some? {
      var par, name := InDir(s, op.path).value, BaseName(op.path);
      RemoveStep.UnlinkCases(s, par, name);
      if Unlink(s, par, name).1 == Success {
        var k := FindSlot(DirSlots(s, par), name).value;
        FileGoneUps(s, par, k, DirSlots(s, par)[k].ino);
      }
    }
  }

  lemma CreatedUps(s: State, par: nat, name: string)
    requires MkdirStep.CanMkdir(s, par, name) && s.sbi.lastIno < INODES && FindSlot(DirSlots(s, par), name) == None
    requires UpsOk(s) && s.disk.sb.lastIno <= s.sbi.lastIno
    requires 0 <= BlockAt(s.mem.itable, par) < |s.blocks| && FreeSlot(DirSlots(s, par)) < |DirSlots(s, par)|
    ensures UpsOk(CreateStep.Created(s, par, name))
  {
    hide BlocksOk, TreeOk, HandlesOk, DiskOk, CanAdd, UpsExact, UpsBelow, AddEntry, FreeSlot, SlotsAt;
    FreshInode(s);
    CreateStep.CreatedView(s, par, name);
    MkdirStep.NewLeaf(s, par, name, 1);
    var s' := CreateStep.Created(s, par, name);
    UpsAfterAdd(View(s), FileSet(s.mem.itable), par, FreeSlot(DirSlots(s, par)), Slot(s.sbi.lastIno, Used, 1, name));
    UpsKept(s.mem.itable, View(s), s'.mem.itable, View(s'), s.disk.sb.lastIno, s'.disk.sb.lastIno);
  }

  lemma OpenUps(s: State, op: Op)
    requires Consistent(s) && Allowed(s, op) && op.OpenAt? && UpsOk(s)
    ensures UpsOk(Step(s, op).0)
  {
    hide Consistent, CreateFile, OpenFileIn, UpsExact, UpsBelow, CreateStep.Created;
    PathFacts(s, op.path);
    HintKept(s, op);
    if InDir(s, op.path).Some? {
      var par, name := InDir(s, op.path).value, BaseName(op.path);
      FileStep.OpenOnlyHandles(s, par, name, op.create, op.append, op.flags);
      CreateStep.CreateCases(s, par, name);
      if CreateFile(s, par, name).1 == Success { CreatedUps(s, par, name); }
    }
  }

  lemma WriteUps(s: State, op: Op)
    requires Consistent(s) && Allowed(s, op) && op.WriteAt? && UpsOk(s)
    ensures UpsOk(Step(s, op).0)
  {
    hide Consistent, Write, UpsExact, UpsBelow, FileStep.NewCluster, Content, DirView, TakenNext, MkdirStep.Full;
    FileStep.HandleFacts(s, op.fid);
    HintKept(s, op);
    var b := FileStep.WriteCases(s, op.fid, op.buf, op.offset);
    if Write(s, op.fid, op.buf, op.offset).1.Some? {
      FileStep.WroteView(s, op.fid, op.buf, op.offset, b);
    }
    var s' := Step(s, op).0;
    UpsKept(s.mem.itable, View(s), s'.mem.itable, View(s'), s.disk.sb.lastIno, s'.disk.sb.lastIno);
  }

  lemma RenameUps(s: State, op: Op)
    requires Consistent(s) && Allowed(s, op) && op.RenameAt? && UpsOk(s)
    ensures UpsOk(Step(s, op).0)
  {
    hide Consistent, Rename, DirView, MoveEntry, UpsExact, UpsBelow, CanMove, RenameStep.TargetTaken, BlocksOk;
    RenameStep.RenameStatus(s, op.from, op.to);
    if Rename(s, op.from, op.to).1 == Success {
      var name := RenameStep.LandingName(s, op.from, op.to);
      var sd, k, t, j := RenameStep.RenameMoves(s, op.from, op.to);
      RenameStep.LandingLegal(s, op.from, op.to);
      RenameStep.LandingFree(s, t, name, RenameStep.LandingDir(s, op.to));
      RenameStep.MoveAllowed(s, Step(s, op).0, sd, k, t, j, name);
      MoveKeepsUps(View(s), FileSet(s.mem.itable), sd, k, t, j, name);
      var s' := Step(s, op).0;
      UpsKept(s.mem.itable, View(s), s'.mem.itable, View(s'), s.disk.sb.lastIno, s'.disk.sb.lastIno);
    }
  }

  lemma MoveKeepsUps(ns: Dirs, files: set<nat>, sd: nat, k: nat, dd: nat, j: nat, name: string)
    requires CanMove(ns, files, sd, k, dd, j, name) && k < |ns[sd]| && j < |ns[dd]|
    ensures SameUps(ns, MoveEntry(ns, sd, k, dd, j, name))
  {
    hide Tree;
    DotDotKept(ns, files, sd, k, dd, j, name);
  }

  lemma OtherUps(s: State, op: Op)
    requires Consistent(s) && UpsOk(s) && (op.CloseAt? || op.ReadAt? || op.Unmount?)
    ensures UpsOk(Step(s, op).0)
  {
    hide UpsExact, UpsBelow, DirView, StrLen, BlocksOk, TreeOk, HandlesOk, InodesOk;
  }

  /** Every operation, a rename that takes a directory to another parent included, keeps every link count at 2 plus
      the number of dot-dot entries that name the directory, except the rmdir of a stray directory, which never does. */
  lemma StepUpsIff(s: State, op: Op)
    requires Consistent(s) && Allowed(s, op) && UpsOk(s)
    ensures UpsOk(Step(s, op).0) <==> !RemovesStray(s, op)
  {
    hide Consistent, UpsOk, Allowed;
    match op
    case MkdirAt(path) => MkdirUps(s, op);
    case RmdirAt(path) => RmdirUpsIff(s, op);
    case UnlinkAt(path) => UnlinkUps(s, op);
    case OpenAt(path, create, append, flags) => OpenUps(s, op);
    case WriteAt(fid, buf, offset) => WriteUps(s, op);
    case RenameAt(from, to) => RenameUps(s, op);
    case _ => OtherUps(s, op);
  }

  // ---------------------------------------------------------------- runs

  ghost predicate NoStrays(s: State, ops: seq<Op>)
    decreases |ops|
  {
    ops == [] || (!RemovesStray(s, ops[0]) && NoStrays(Step(s, ops[0]).0, ops[1..]))
  }

  lemma {:induction false} UpsOverRun(s: State, ops: seq<Op>)
    requires Consistent(s) && UpsOk(s) && AllowedRun(s, ops) && NoStrays(s, ops)
    ensures UpsOk(Run(s, ops))
    decreases |ops|
  {
    hide Consistent, UpsOk, Allowed, Step, RemovesStray;
    if ops != [] {
      StepConsistent(s, ops[0]);
      StepUpsIff(s, ops[0]);
      UpsOverRun(Step(s, ops[0]).0, ops[1..]);
    }
  }

  lemma FormatUps(sectors: nat)
    requires Formattable(sectors)
    ensures UpsOk(FormatAndMount(sectors))
  {
    MountStep.FormatView(sectors);
    assert FormatTable()[ROOT_INO] == ROOT_INODE;
    assert Ups(View(FormatAndMount(sectors)), ROOT_INO) == {};
  }

  /** When every dot-dot entry names the directory it is in, the directories that name d are its children. */
  lemma UpsAreSubdirs(ns: Dirs, files: set<nat>, d: nat)
    requires Tree(ns, files) && ParentsExact(ns)
    ensures Ups(ns, d) == Subdirs(ns, d)
  {
    forall m | m in ns
      ensures m in Ups(ns, d) <==> m in Subdirs(ns, d)
    {
      if m in Ups(ns, d) {
        var e, k := NamedBySlot(ns, files, m);
        assert HasEntry(ns, e, m);
      }
      if m in Subdirs(ns, d) {
        var k :| Names(ns, d, k, m);
      }
    }
  }

  /** So link counts and dot-dot entries are exact iff the dot-dot entries are. */
  lemma LinksOkIff(s: State)
    requires Consistent(s) && UpsOk(s)
    ensures LinksOk(s) <==> ParentsExact(View(s))
  {
    hide Tree, ParentsExact, Ups, Subdirs, BlocksOk, DirView;
    DirsInTable(s);
    if ParentsExact(View(s)) {
      forall d | d in View(s)
        ensures Ups(View(s), d) == Subdirs(View(s), d)
      {
        UpsAreSubdirs(View(s), FileSet(s.mem.itable), d);
      }
    }
  }

  /** From a format on, whatever directories are moved, as long as no stray directory is removed each directory's
      link count is 2 plus the number of directories whose dot-dot names it; so link counts and dot-dot entries are
      both exact iff every dot-dot names the directory it is in. */
  lemma LinkCountsWithMoves(sectors: nat, ops: seq<Op>)
    requires Formattable(sectors) && AllowedRun(FormatAndMount(sectors), ops) && NoStrays(FormatAndMount(sectors), ops)
    ensures var s := Run(FormatAndMount(sectors), ops);
            UpsExact(s.mem.itable, View(s)) && (LinksOk(s) <==> ParentsExact(View(s)))
  {
    hide Consistent, UpsExact, UpsBelow, LinksOk, ParentsExact, Allowed, Step, RemovesStray;
    MountStep.FormatConsistent(sectors);
    FormatUps(sectors);
    UpsOverRun(FormatAndMount(sectors), ops);
    ReachableConsistent(sectors, ops);
    LinksOkIff(Run(FormatAndMount(sectors), ops));
  }
}
