/** Link counts and dot-dot entries of directories. */
module Links {
  import opened Layout
  import opened Paths
  import opened Namespace
  import opened TreeSteps
  import opened FsSpec
  import opened Fsck
  import opened StepFacts
  import opened Runs
  import MkdirStep
  import CreateStep
  import RemoveStep
  import RenameStep
  import FileStep
  import MountStep

  // ---------------------------------------------------------------- child directories

  ghost predicate HasEntry(ns: Dirs, d: nat, m: nat) {
    exists k :: Names(ns, d, k, m)
  }

  /** The directories named by entries of d. */
  ghost function Subdirs(ns: Dirs, d: nat): set<nat> {
    set m | m in ns && HasEntry(ns, d, m)
  }

  /** Every directory's link count is 2 plus the number of its child directories. */
  ghost predicate LinksExact(itable: seq<Inode>, ns: Dirs) {
    forall d :: d in ns ==> d < |itable| && itable[d].links == 2 + |Subdirs(ns, d)|
  }

  /** Every directory's dot-dot entry names the directory it is in. */
  ghost predicate ParentsExact(ns: Dirs) {
    forall d, k, m :: Names(ns, d, k, m) && m in ns ==> |ns[m]| > 1 && ns[m][1].ino == d
  }

  ghost predicate LinksOk(s: State) {
    LinksExact(s.mem.itable, View(s)) && ParentsExact(View(s))
  }

  lemma SubdirsBound(ns: Dirs, files: set<nat>, d: nat)
    requires Plan(ns, files)
    ensures |Subdirs(ns, d)| <= INODES
  {
    SubsetCard(Subdirs(ns, d), Range(INODES));
  }

  // ---------------------------------------------------------------- entries come and go

  lemma AddFacts(ns: Dirs, files: set<nat>, d: nat, k: nat, e: Slot)
    requires CanAdd(ns, files, d, k, e)
    ensures |ns[d]| == SLOTS && forall f, j :: !Names(ns, f, j, e.ino)
  {
    assert DirShape(ns[d], d);
  }

  lemma NamesAfterAdd(ns: Dirs, files: set<nat>, d: nat, k: nat, e: Slot, isDir: bool)
    requires CanAdd(ns, files, d, k, e)
    ensures forall f, j, i :: Names(AddEntry(ns, d, k, e, isDir), f, j, i) <==>
                              if f == d && j == k then i == e.ino else Names(ns, f, j, i)
  {
    hide Tree, LegalName, FindSlot;
    AddFacts(ns, files, d, k, e);
  }

  lemma EntriesAfterAdd(ns: Dirs, files: set<nat>, d: nat, k: nat, e: Slot, isDir: bool)
    requires CanAdd(ns, files, d, k, e)
    ensures forall f, m :: HasEntry(AddEntry(ns, d, k, e, isDir), f, m) <==> HasEntry(ns, f, m) || (f == d && m == e.ino)
  {
    hide CanAdd, AddEntry, Names;
    NamesAfterAdd(ns, files, d, k, e, isDir);
    SlotFree(ns, files, d, k, e);
    var ns' := AddEntry(ns, d, k, e, isDir);
    assert Names(ns', d, k, e.ino);
    forall f, m | HasEntry(ns, f, m)
      ensures HasEntry(ns', f, m)
    {
      var j :| Names(ns, f, j, m);
      assert Names(ns', f, j, m);
    }
  }

  lemma SlotFree(ns: Dirs, files: set<nat>, d: nat, k: nat, e: Slot)
    requires CanAdd(ns, files, d, k, e)
    ensures d in ns && k < |ns[d]| && forall m :: !Names(ns, d, k, m)
  {
    AddFacts(ns, files, d, k, e);
  }

  /** A new child directory adds one to its parent's set, a new file nothing. */
  lemma SubdirsAfterAdd(ns: Dirs, files: set<nat>, d: nat, k: nat, e: Slot, isDir: bool)
    requires CanAdd(ns, files, d, k, e)
    ensures var ns' := AddEntry(ns, d, k, e, isDir);
            && (forall f :: f in ns ==> Subdirs(ns', f) == if isDir && f == d then Subdirs(ns, f) + {e.ino} else Subdirs(ns, f))
            && Subdirs(ns', e.ino) == {} && e.ino !in Subdirs(ns, d)
  {
    hide Tree, Names, HasEntry;
    AddFacts(ns, files, d, k, e);
    EntriesAfterAdd(ns, files, d, k, e, isDir);
    NoEntriesYet(ns, e.ino);
  }

  lemma NoEntriesYet(ns: Dirs, i: nat)
    requires i !in ns && forall f, j :: !Names(ns, f, j, i)
    ensures forall m :: !HasEntry(ns, i, m)
    ensures forall f :: !HasEntry(ns, f, i)
  {
  }

  lemma ParentsAfterAdd(ns: Dirs, files: set<nat>, d: nat, k: nat, e: Slot, isDir: bool)
    requires CanAdd(ns, files, d, k, e) && ParentsExact(ns)
    ensures ParentsExact(AddEntry(ns, d, k, e, isDir))
  {
    hide Tree, LegalName, FindSlot, Names;
    NamesAfterAdd(ns, files, d, k, e, isDir);
    AddFacts(ns, files, d, k, e);
  }

  lemma NamesAfterRemove(ns: Dirs, files: set<nat>, d: nat, k: nat)
    requires CanRemove(ns, files, d, k)
    ensures forall f, j, i :: Names(RemoveEntry(ns, d, k), f, j, i) <==> Names(ns, f, j, i) && !(f == d && j == k) && f != ns[d][k].ino
    ensures |ns[d]| == SLOTS && forall j, i :: !Names(ns, ns[d][k].ino, j, i)
  {
    assert DirShape(ns[d], d);
  }

  /** A removed child directory takes one from its parent's set, a removed file nothing. */
  lemma SubdirsAfterRemove(ns: Dirs, files: set<nat>, d: nat, k: nat)
    requires CanRemove(ns, files, d, k)
    ensures var ns', m := RemoveEntry(ns, d, k), ns[d][k].ino;
            && (forall f :: f in ns' ==> Subdirs(ns', f) == if f == d then Subdirs(ns, f) - {m} else Subdirs(ns, f))
            && (m in Subdirs(ns, d) <==> m in ns)
  {
    hide Tree;
    NamesAfterRemove(ns, files, d, k);
    var ns', m := RemoveEntry(ns, d, k), ns[d][k].ino;
    assert Names(ns, d, k, m);
    OnlyEntry(ns, files, d, k);
    forall f, i | f in ns'
      ensures HasEntry(ns', f, i) <==> HasEntry(ns, f, i) && i != m
    {
      if HasEntry(ns, f, i) && i != m {
        var j :| Names(ns, f, j, i);
        assert Names(ns', f, j, i);
      }
    }
  }

  lemma OnlyEntry(ns: Dirs, files: set<nat>, d: nat, k: nat)
    requires Tree(ns, files) && d in ns && 2 <= k < |ns[d]| && ns[d][k].flag == Used
    ensures forall f, j :: Names(ns, f, j, ns[d][k].ino) <==> f == d && j == k
  {
    assert Names(ns, d, k, ns[d][k].ino);
  }

  lemma ParentsAfterRemove(ns: Dirs, files: set<nat>, d: nat, k: nat)
    requires CanRemove(ns, files, d, k) && ParentsExact(ns)
    ensures ParentsExact(RemoveEntry(ns, d, k))
  {
    hide Tree, Names;
    NamesAfterRemove(ns, files, d, k);
  }

  lemma NamesAfterMove(ns: Dirs, files: set<nat>, sd: nat, k: nat, dd: nat, j: nat, name: string)
    requires CanMove(ns, files, sd, k, dd, j, name) && (sd == dd ==> j == k)
    ensures forall f, g, i :: Names(MoveEntry(ns, sd, k, dd, j, name), f, g, i) <==>
                              if i == ns[sd][k].ino then f == dd && g == j else Names(ns, f, g, i)
  {
    assert DirShape(ns[sd], sd) && DirShape(ns[dd], dd);
    OnlyEntry(ns, files, sd, k);
    hide Tree;
    var ns', m := MoveEntry(ns, sd, k, dd, j, name), ns[sd][k].ino;
    forall f, g, i
      ensures Names(ns', f, g, i) <==> if i == m then f == dd && g == j else Names(ns, f, g, i)
    {
      if i == m { assert Names(ns, f, g, m) <==> f == sd && g == k; }
    }
  }

  lemma MoveKeepsLinks(ns: Dirs, files: set<nat>, sd: nat, k: nat, dd: nat, j: nat, name: string, itable: seq<Inode>)
    requires CanMove(ns, files, sd, k, dd, j, name) && (sd == dd ==> j == k) && k < |ns[sd]| && j < |ns[dd]|
    requires LinksExact(itable, ns) && ParentsExact(ns) && (sd == dd || ns[sd][k].ino !in ns)
    ensures LinksExact(itable, MoveEntry(ns, sd, k, dd, j, name)) && ParentsExact(MoveEntry(ns, sd, k, dd, j, name))
  {
    hide Tree, Subdirs, Names;
    DotDotKept(ns, files, sd, k, dd, j, name);
    NamesAfterMove(ns, files, sd, k, dd, j, name);
    OnlyEntry(ns, files, sd, k);
    var ns', m := MoveEntry(ns, sd, k, dd, j, name), ns[sd][k].ino;
    forall d | d in ns
      ensures Subdirs(ns', d) == Subdirs(ns, d)
    {
      SameSubdirs(ns, ns', d, m, sd, k, dd, j);
    }
    assert Names(ns, sd, k, m);
    forall f, g, i | Names(ns', f, g, i) && i in ns'
      ensures |ns'[i]| > 1 && ns'[i][1].ino == f
    {
      assert i == m || Names(ns, f, g, i);
    }
  }

  lemma MoveBreaksParents(ns: Dirs, files: set<nat>, sd: nat, k: nat, dd: nat, j: nat, name: string)
    requires CanMove(ns, files, sd, k, dd, j, name) && k < |ns[sd]| && j < |ns[dd]|
    requires ParentsExact(ns) && sd != dd && ns[sd][k].ino in ns
    ensures !ParentsExact(MoveEntry(ns, sd, k, dd, j, name))
  {
    hide Tree;
    DotDotKept(ns, files, sd, k, dd, j, name);
    var ns', m := MoveEntry(ns, sd, k, dd, j, name), ns[sd][k].ino;
    assert Names(ns', dd, j, m) && Names(ns, sd, k, m);
    assert ns'[m][1].ino == sd;
  }

  /** A move keeps link counts and dot-dot entries exact iff it leaves no directory under another parent. */
  lemma MoveKeepsLinksIff(ns: Dirs, files: set<nat>, sd: nat, k: nat, dd: nat, j: nat, name: string, itable: seq<Inode>)
    requires CanMove(ns, files, sd, k, dd, j, name) && (sd == dd ==> j == k)
    requires sd in ns && dd in ns && k < |ns[sd]| && j < |ns[dd]| && LinksExact(itable, ns) && ParentsExact(ns)
    ensures var ns' := MoveEntry(ns, sd, k, dd, j, name);
            LinksExact(itable, ns') && ParentsExact(ns') <==> sd == dd || ns[sd][k].ino !in ns
  {
    hide CanMove, MoveEntry, LinksExact, ParentsExact;
    if sd == dd || ns[sd][k].ino !in ns {
      MoveKeepsLinks(ns, files, sd, k, dd, j, name, itable);
    } else {
      MoveBreaksParents(ns, files, sd, k, dd, j, name);
    }
  }

  lemma DotDotKept(ns: Dirs, files: set<nat>, sd: nat, k: nat, dd: nat, j: nat, name: string)
    requires CanMove(ns, files, sd, k, dd, j, name)
    ensures forall d :: d in ns ==> |ns[d]| == SLOTS && MoveEntry(ns, sd, k, dd, j, name)[d][1] == ns[d][1]
    ensures |ns[sd]| == SLOTS
  {
    assert forall d :: d in ns ==> DirShape(ns[d], d);
  }

  lemma SameSubdirs(ns: Dirs, ns': Dirs, d: nat, m: nat, sd: nat, k: nat, dd: nat, j: nat)
    requires ns'.Keys == ns.Keys && (sd == dd ==> j == k) && (sd == dd || m !in ns)
    requires forall f, g, i :: Names(ns', f, g, i) <==> if i == m then f == dd && g == j else Names(ns, f, g, i)
    requires forall f, g :: Names(ns, f, g, m) <==> f == sd && g == k
    ensures Subdirs(ns', d) == Subdirs(ns, d)
  {
    hide Names;
    forall i | i in ns
      ensures HasEntry(ns', d, i) <==> HasEntry(ns, d, i)
    {
      if HasEntry(ns, d, i) {
        var g :| Names(ns, d, g, i);
        assert Names(ns', d, g, i);
      }
      if HasEntry(ns', d, i) {
        var g :| Names(ns', d, g, i);
        assert Names(ns, d, g, i);
      }
    }
  }

  // ---------------------------------------------------------------- over the operations

  lemma LinksBound(s: State, d: nat)
    requires Consistent(s) && LinksOk(s) && IsDir(s.mem.itable, d)
    ensures 2 <= s.mem.itable[d].links <= INODES + 2 && d in View(s)
  {
    hide BlocksOk, DirShape, NamesLive, AllReached;
    SubdirsBound(View(s), FileSet(s.mem.itable), d);
  }

  lemma LinksAdded(itable: seq<Inode>, ns: Dirs, files: set<nat>, d: nat, k: nat, e: Slot, itable': seq<Inode>)
    requires CanAdd(ns, files, d, k, e) && LinksExact(itable, ns) && |itable'| == |itable| && e.ino < |itable|
    requires itable[d].links < INODES + 3 && itable'[e.ino].links == 2 && itable'[d].links == (itable[d].links + 1) % U32
    requires forall i :: 0 <= i < |itable| && i != d && i != e.ino ==> itable'[i] == itable[i]
    ensures LinksExact(itable', AddEntry(ns, d, k, e, true))
  {
    hide Tree, Subdirs, FindSlot, LegalName, DotSlots;
    SubdirsAfterAdd(ns, files, d, k, e, true);
  }

  lemma MadeLinks(s: State, par: nat, name: string, b: nat)
    requires MkdirStep.CanMkdir(s, par, name) && s.sbi.lastIno < INODES && b < |s.blocks| && b !in s.mem.dbits
    requires FindSlot(DirSlots(s, par), name) == None && LinksOk(s)
    requires 0 <= BlockAt(s.mem.itable, par) < |s.blocks| && FreeSlot(DirSlots(s, par)) < |DirSlots(s, par)|
    ensures LinksOk(MkdirStep.Made(s, par, name, b))
  {
    hide BlocksOk, TreeOk, HandlesOk, DiskOk, InodesOk, CanAdd, LinksExact, ParentsExact, AddEntry;
    LinksBound(s, par);
    FreshInode(s);
    MkdirStep.MadeView(s, par, name, b);
    MkdirStep.NewLeaf(s, par, name, 0);
    var e := Slot(s.sbi.lastIno, Used, 0, name);
    LinksAdded(s.mem.itable, View(s), FileSet(s.mem.itable), par, FreeSlot(DirSlots(s, par)), e,
               MkdirStep.Made(s, par, name, b).mem.itable);
    ParentsAfterAdd(View(s), FileSet(s.mem.itable), par, FreeSlot(DirSlots(s, par)), e, true);
  }

  lemma CreatedLinks(s: State, par: nat, name: string)
    requires MkdirStep.CanMkdir(s, par, name) && s.sbi.lastIno < INODES && FindSlot(DirSlots(s, par), name) == None && LinksOk(s)
    requires 0 <= BlockAt(s.mem.itable, par) < |s.blocks| && FreeSlot(DirSlots(s, par)) < |DirSlots(s, par)|
    ensures LinksOk(CreateStep.Created(s, par, name))
  {
    hide BlocksOk, TreeOk, HandlesOk, DiskOk, CanAdd, Subdirs;
    FreshInode(s);
    CreateStep.CreatedView(s, par, name);
    MkdirStep.NewLeaf(s, par, name, 1);
    var e := Slot(s.sbi.lastIno, Used, 1, name);
    SubdirsAfterAdd(View(s), FileSet(s.mem.itable), par, FreeSlot(DirSlots(s, par)), e, false);
    ParentsAfterAdd(View(s), FileSet(s.mem.itable), par, FreeSlot(DirSlots(s, par)), e, false);
  }

  lemma DirGoneLinks(s: State, par: nat, k: nat, m: nat)
    requires RemoveStep.Entry(s, par, k, m) && IsDir(s.mem.itable, m) && m != par && NoEntries(DirSlots(s, m)) && LinksOk(s)
    requires 0 <= BlockAt(s.mem.itable, par) < |s.blocks| && 0 <= BlockAt(s.mem.itable, m) < |s.blocks|
    ensures LinksOk(RemoveStep.DirGone(s, par, k, m))
  {
    hide BlocksOk, TreeOk, HandlesOk, DiskOk, CanRemove, Subdirs, NoEntries, RemoveEntry, SlotsAt;
    LinksBound(s, par);
    RemoveStep.DirGoneView(s, par, k, m);
    RemoveStep.LeafEntry(s, par, k, m);
    SubdirsAfterRemove(View(s), FileSet(s.mem.itable), par, k);
    ParentsAfterRemove(View(s), FileSet(s.mem.itable), par, k);
  }

  lemma FileGoneLinks(s: State, par: nat, k: nat, m: nat)
    requires RemoveStep.Entry(s, par, k, m) && IsFile(s.mem.itable, m) && LinksOk(s)
    requires 0 <= BlockAt(s.mem.itable, par) < |s.blocks|
    requires s.mem.itable[m].size > 0 ==> 0 <= BlockAt(s.mem.itable, m) < |s.blocks|
    ensures LinksOk(RemoveStep.FileGone(s, par, k, m))
  {
    hide BlocksOk, TreeOk, HandlesOk, DiskOk, CanRemove, Subdirs;
    RemoveStep.FileGoneView(s, par, k, m);
    RemoveStep.LeafEntry(s, par, k, m);
    SubdirsAfterRemove(View(s), FileSet(s.mem.itable), par, k);
    ParentsAfterRemove(View(s), FileSet(s.mem.itable), par, k);
  }

  /** The rename takes a directory to another parent. */
  ghost predicate MovesDirectory(s: State, op: Op) {
    && op.RenameAt? && '/' in op.from && '/' in op.to && RenameStep.Succeeds(s, op.from, op.to)
    && Resolve(View(s), RenameStep.LandingDir(s, op.to)) != Walk(s, DirName(op.from))
    && IsDir(s.mem.itable, Walk(s, op.from).value)
  }

  /** A successful rename keeps link counts and dot-dot entries exact iff it takes no directory to another
      parent: do_rename updates neither. */
  lemma RenameLinksIff(s: State, op: Op)
    requires Consistent(s) && Allowed(s, op) && op.RenameAt? && Step(s, op).1 == Done(Success) && LinksOk(s)
    ensures LinksOk(Step(s, op).0) <==> !MovesDirectory(s, op)
  {
    hide Consistent, Rename, DirView, MoveEntry, LinksExact, ParentsExact, CanMove, RenameStep.TargetTaken;
    RenameStep.RenameStatus(s, op.from, op.to);
    var name := RenameStep.LandingName(s, op.from, op.to);
    var sd, k, t, j := RenameStep.RenameMoves(s, op.from, op.to);
    RenameStep.LandingLegal(s, op.from, op.to);
    RenameStep.LandingFree(s, t, name, RenameStep.LandingDir(s, op.to));
    RenameStep.MoveAllowed(s, Step(s, op).0, sd, k, t, j, name);
    RenameStep.SourceDir(s, op.from);
    RemoveStep.ViewAt(s, sd);
    SlotIsChild(s, sd, k);
    MoveKeepsLinksIff(View(s), FileSet(s.mem.itable), sd, k, t, j, name, s.mem.itable);
  }

  lemma SlotIsChild(s: State, d: nat, k: nat)
    requires Consistent(s) && IsDir(s.mem.itable, d) && 2 <= k < |DirSlots(s, d)| && DirSlots(s, d)[k].flag == Used
    ensures d in View(s) && Child(View(s)[d], DirSlots(s, d)[k].name) == Some(DirSlots(s, d)[k].ino)
    ensures DirSlots(s, d)[k].ino in View(s) <==> IsDir(s.mem.itable, DirSlots(s, d)[k].ino)
  {
    RemoveStep.ViewAt(s, d);
    assert DirShape(View(s)[d], d);
    FindUnique(View(s)[d], k, DirSlots(s, d)[k].name);
  }

  /** The inode table and the directories after a step that touches neither are the same. */
  lemma SameDirs(s: State, s': State)
    requires LinksOk(s) && View(s') == View(s)
    requires forall d :: d in View(s) ==> d < |s'.mem.itable| == |s.mem.itable| && s'.mem.itable[d].links == s.mem.itable[d].links
    ensures LinksOk(s')
  {
  }

  lemma MkdirLinks(s: State, op: Op)
    requires Consistent(s) && Allowed(s, op) && op.MkdirAt? && LinksOk(s)
    ensures LinksOk(Step(s, op).0)
  {
    hide Consistent, Mkdir, AllocInode, LinksExact, ParentsExact, MkdirStep.Made;
    PathFacts(s, op.path);
    if InDir(s, op.path).Some? {
      var par, name := InDir(s, op.path).value, BaseName(op.path);
      MkdirStep.MkdirStatus(s, par, name);
      if Mkdir(s, par, name).1 == Success {
        var b := MkdirStep.MkdirSuccess(s, par, name);
        MadeLinks(s, par, name, b);
      } else {
        AllocKeepsDirs(s);
      }
    }
  }

  lemma AllocKeepsDirs(s: State)
    requires LinksOk(s)
    ensures LinksOk(RestoreIbmap(s)) && LinksOk(RestoreDbmap(AllocInode(s).0))
  {
  }

  lemma RmdirLinks(s: State, op: Op)
    requires Consistent(s) && Allowed(s, op) && op.RmdirAt? && LinksOk(s)
    ensures LinksOk(Step(s, op).0)
  {
    hide Consistent, Rmdir, LinksExact, ParentsExact, RemoveStep.DirGone, NoEntries;
    PathFacts(s, op.path);
    if InDir(s, op.path).Some? {
      var par, name := InDir(s, op.path).value, BaseName(op.path);
      RemoveStep.RmdirCases(s, par, name);
      if Rmdir(s, par, name).1 == Success {
        var k := FindSlot(DirSlots(s, par), name).value;
        DirGoneLinks(s, par, k, DirSlots(s, par)[k].ino);
      }
    }
  }

  lemma UnlinkLinks(s: State, op: Op)
    requires Consistent(s) && Allowed(s, op) && op.UnlinkAt? && LinksOk(s)
    ensures LinksOk(Step(s, op).0)
  {
    hide Consistent, Unlink, LinksExact, ParentsExact, RemoveStep.FileGone;
    PathFacts(s, op.path);
    if InDir(s, op.path).Some? {
      var par, name := InDir(s, op.path).value, BaseName(op.path);
      RemoveStep.UnlinkCases(s, par, name);
      if Unlink(s, par, name).1 == Success {
        var k := FindSlot(DirSlots(s, par), name).value;
        FileGoneLinks(s, par, k, DirSlots(s, par)[k].ino);
      }
    }
  }

  lemma CreateLinks(s: State, par: nat, name: string)
    requires MkdirStep.CanMkdir(s, par, name) && LinksOk(s)
    ensures LinksOk(CreateFile(s, par, name).0)
  {
    hide Consistent, CreateFile, LinksExact, ParentsExact, CreateStep.Created, AllocInode;
    CreateStep.CreateCases(s, par, name);
    if CreateFile(s, par, name).1 == Success { CreatedLinks(s, par, name); } else { AllocKeepsDirs(s); }
  }

  lemma OpenLinks(s: State, op: Op)
    requires Consistent(s) && Allowed(s, op) && op.OpenAt? && LinksOk(s)
    ensures LinksOk(Step(s, op).0)
  {
    hide Consistent, CreateFile, OpenFileIn, LinksExact, ParentsExact;
    PathFacts(s, op.path);
    if InDir(s, op.path).Some? {
      var par, name := InDir(s, op.path).value, BaseName(op.path);
      FileStep.OpenOnlyHandles(s, par, name, op.create, op.append, op.flags);
      CreateLinks(s, par, name);
    }
  }

  lemma WriteLinks(s: State, op: Op)
    requires Consistent(s) && Allowed(s, op) && op.WriteAt? && LinksOk(s)
    ensures LinksOk(Step(s, op).0)
  {
    hide Consistent, Write, LinksOk, FileStep.NewCluster, Content, DirView;
    FileStep.HandleFacts(s, op.fid);
    var b := FileStep.WriteCases(s, op.fid, op.buf, op.offset);
    if Write(s, op.fid, op.buf, op.offset).1.Some? {
      FileStep.WroteView(s, op.fid, op.buf, op.offset, b);
    }
    DirsInTable(s);
    SameDirs(s, Step(s, op).0);
  }

  lemma DirsInTable(s: State)
    ensures forall d :: d in View(s) <==> IsDir(s.mem.itable, d)
  {
  }

  lemma RemountLinks(s: State)
    requires Consistent(s) && LinksOk(s)
    ensures LinksOk(Remount(s))
  {
    hide BlocksOk, TreeOk, HandlesOk, InodesOk;
  }

  /** Every operation keeps link counts and dot-dot entries exact, except a rename that takes a directory
      to another parent, which never does. */
  lemma StepLinksIff(s: State, op: Op)
    requires Consistent(s) && Allowed(s, op) && LinksOk(s)
    ensures LinksOk(Step(s, op).0) <==> !MovesDirectory(s, op)
  {
    hide Consistent, LinksOk, Allowed;
    match op
    case MkdirAt(path) => MkdirLinks(s, op);
    case RmdirAt(path) => RmdirLinks(s, op);
    case UnlinkAt(path) => UnlinkLinks(s, op);
    case OpenAt(path, create, append, flags) => OpenLinks(s, op);
    case WriteAt(fid, buf, offset) => WriteLinks(s, op);
    case RenameAt(from, to) =>
      if Step(s, op).1 == Done(Success) { RenameLinksIff(s, op); } else { FailedRename(s, op); }
    case CloseAt(fid) => HandleLinks(s, op);
    case ReadAt(fid, size, offset) => HandleLinks(s, op);
    case Unmount => RemountLinks(s);
  }

  lemma FailedRename(s: State, op: Op)
    requires Consistent(s) && Allowed(s, op) && op.RenameAt? && Step(s, op).1 != Done(Success)
    ensures Step(s, op).0 == s && !MovesDirectory(s, op)
  {
    RenameStep.RenameStatus(s, op.from, op.to);
  }

  lemma HandleLinks(s: State, op: Op)
    requires LinksOk(s) && (op.CloseAt? || op.ReadAt?)
    ensures LinksOk(Step(s, op).0)
  {
    hide LinksExact, ParentsExact, DirView, StrLen;
  }

  ghost predicate NoDirectoryMoves(s: State, ops: seq<Op>)
    decreases |ops|
  {
    ops == [] || (!MovesDirectory(s, ops[0]) && NoDirectoryMoves(Step(s, ops[0]).0, ops[1..]))
  }

  lemma {:induction false} LinksOverRun(s: State, ops: seq<Op>)
    requires Consistent(s) && LinksOk(s) && AllowedRun(s, ops) && NoDirectoryMoves(s, ops)
    ensures LinksOk(Run(s, ops))
    decreases |ops|
  {
    hide Consistent, LinksOk, Allowed, Step, MovesDirectory;
    if ops != [] {
      StepConsistent(s, ops[0]);
      StepLinksIff(s, ops[0]);
      LinksOverRun(Step(s, ops[0]).0, ops[1..]);
    }
  }

  lemma FormatLinks(sectors: nat)
    requires Formattable(sectors)
    ensures LinksOk(FormatAndMount(sectors))
  {
    MountStep.FormatView(sectors);
    var s := FormatAndMount(sectors);
    assert FormatTable()[ROOT_INO] == ROOT_INODE;
    assert forall d, k, m :: !Names(View(s), d, k, m);
    assert Subdirs(View(s), ROOT_INO) == {};
  }

  /** From a format on, as long as no directory changes its parent, every directory's link count is 2 plus
      the number of its child directories and every file's is 1. */
  lemma LinkCounts(sectors: nat, ops: seq<Op>)
    requires Formattable(sectors) && AllowedRun(FormatAndMount(sectors), ops) && NoDirectoryMoves(FormatAndMount(sectors), ops)
    ensures var s := Run(FormatAndMount(sectors), ops);
            && LinksOk(s)
            && forall i: nat :: IsFile(s.mem.itable, i) ==> s.mem.itable[i].links == 1
  {
    hide LinksOk, Allowed, Step, MovesDirectory, BlocksOk, TreeOk, HandlesOk, DiskOk;
    MountStep.FormatConsistent(sectors);
    FormatLinks(sectors);
    LinksOverRun(FormatAndMount(sectors), ops);
    ReachableConsistent(sectors, ops);
  }
}
