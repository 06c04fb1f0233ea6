/** do_mkdir keeps the invariant and adds one empty directory to the tree. */
module MkdirStep {
  import opened Layout
  import opened Paths
  import opened Namespace
  import opened TreeSteps
  import opened FsSpec
  import opened Fsck
  import opened StepFacts
  import opened Updates
  import opened NameTree

  ghost predicate CanMkdir(s: State, par: nat, name: string) {
    Consistent(s) && IsDir(s.mem.itable, par) && LegalName(name)
  }

  lemma LegalLength(name: string)
    requires LegalName(name)
    ensures 1 <= |name| < FNAME_SIZE
  {
  }

  /** What both allocations of a mkdir leave behind. */
  ghost predicate Allocated(s: State, s2: State, i: nat, b: nat) {
    && i == s.sbi.lastIno < INODES && b < |s.blocks| && b !in s.mem.dbits
    && s2 == s.(mem := s.mem.(ibits := s.mem.ibits + {i}, dbits := s.mem.dbits + {b},
                              sb := s.mem.sb.(lastIno := i + 1, freeInodes := s.mem.sb.freeInodes - 1,
                                              freeBlocks := s.mem.sb.freeBlocks - 1)),
                sbi := s.sbi.(lastIno := i + 1))
  }

  lemma BothAllocations(s: State)
    requires Geometry(s) && InodesOk(s)
    ensures AllocInode(s).1.Some? <==> s.sbi.lastIno < INODES
    ensures var (s1, i) := AllocInode(s);
            var (s2, b) := AllocBlock(s1);
            && (b == None <==> forall b: nat :: b < |s.blocks| ==> b in s.mem.dbits)
            && (i.Some? && b.Some? ==> Allocated(s, s2, i.value, b.value) && TakenNext(s, b.value))
            && (i.Some? && b.None? ==> s2 == s1)
  {
    AllocTakesHint(s);
    var (s1, i) := AllocInode(s);
    if i.Some? {
      AllocTakesFreeBlock(s);
      assert AllocBlock(s1).1 == AllocBlock(s).1;
    } else {
      AllocTakesFreeBlock(s);
    }
  }

  /** InstallDir spelled out: the new inode, the slot in the parent, the dot entries, the parent's link. */
  lemma Installed(s: State, par: nat, name: string, i: nat, b: nat)
    requires Geometry(s) && b < |s.blocks| && i < INODES && par < INODES && i != par
    requires var p, pb := s.mem.itable[par], BlockAt(s.mem.itable, par);
             && p.ino == par && 0 <= pb < |s.blocks| && p.block == Addr(pb) && pb != b
             && s.blocks[pb] == Entries(DirSlots(s, par)) && |DirSlots(s, par)| == SLOTS
             && FreeSlot(DirSlots(s, par)) < SLOTS
    ensures var p, pb, k := s.mem.itable[par], BlockAt(s.mem.itable, par), FreeSlot(DirSlots(s, par));
            var n := Inode(i, Directory, SLOTS * ENTRY_SIZE, 1, 2, k, Addr(b));
            InstallDir(s, p, name, i, b) ==
            s.(mem := s.mem.(sb := s.mem.sb.(lastBlk := b), itable := s.mem.itable[i := n][par := p.(links := (p.links + 1) % U32)]),
               blocks := s.blocks[pb := Entries(DirSlots(s, par)[k := Slot(i, Used, 0, name)])][b := Entries(DotSlots(i, par))])
  {
    hide PutSlot, FreeSlot, DotSlots, PutCluster;
    var pb, k := BlockAt(s.mem.itable, par), FreeSlot(DirSlots(s, par));
    PutSlotAt(s.blocks, pb, k, Slot(i, Used, 0, name));
    PutClusterAt(s.blocks[pb := Entries(DirSlots(s, par)[k := Slot(i, Used, 0, name)])], b, Entries(DotSlots(i, par)));
  }

  /** The three elementary updates of a mkdir, in a row. */
  lemma DirAdded(itable: seq<Inode>, dbits: set<nat>, blocks: seq<Cluster>, par: nat, i: nat, n: Inode, b: nat,
                 slots: seq<Slot>, dots: seq<Slot>, links: nat)
    requires BlocksOk(itable, dbits, blocks) && IsDir(itable, par) && i < |itable| && itable[i].kind == Unused
    requires n.kind == Directory && n.size == SLOTS * ENTRY_SIZE && n.block == Addr(b) && b < |blocks| && b !in dbits
    ensures 0 <= BlockAt(itable, par) < |blocks|
    ensures var itable' := itable[i := n][par := itable[par].(links := links)];
            var blocks' := blocks[BlockAt(itable, par) := Entries(slots)][b := Entries(dots)];
            && BlocksOk(itable', dbits + {b}, blocks')
            && DirView(itable', blocks') == DirView(itable, blocks)[par := slots][i := dots]
            && FileSet(itable') == FileSet(itable)
            && SameBytes(itable, blocks, itable', blocks', FileSet(itable))
  {
    SetSlots(itable, dbits, blocks, par, slots);
    var blocks1 := blocks[BlockAt(itable, par) := Entries(slots)];
    PutDirectory(itable, dbits, blocks1, i, n, b, dots);
    SetLinks(itable[i := n], dbits + {b}, blocks1[b := Entries(dots)], par, links);
  }

  function Made(s: State, par: nat, name: string, b: nat): State
    requires par < |s.mem.itable| && s.sbi.lastIno < |s.mem.itable| && b < |s.blocks|
    requires 0 <= BlockAt(s.mem.itable, par) < |s.blocks| && FreeSlot(DirSlots(s, par)) < |DirSlots(s, par)|
  {
    var p, pb, k, i := s.mem.itable[par], BlockAt(s.mem.itable, par), FreeSlot(DirSlots(s, par)), s.sbi.lastIno;
    var n := Inode(i, Directory, SLOTS * ENTRY_SIZE, 1, 2, k, Addr(b));
    var sb := s.mem.sb.(lastIno := i + 1, freeInodes := s.mem.sb.freeInodes - 1, freeBlocks := s.mem.sb.freeBlocks - 1, lastBlk := b);
    var mem := Meta(sb, s.mem.ibits + {i}, s.mem.dbits + {b}, s.mem.itable[i := n][par := p.(links := (p.links + 1) % U32)]);
    State(mem, mem, s.sbi.(lastIno := i + 1),
          s.blocks[pb := Entries(DirSlots(s, par)[k := Slot(i, Used, 0, name)])][b := Entries(DotSlots(i, par))], s.files)
  }

  ghost predicate Full(s: State) {
    forall b: nat :: b < |s.blocks| ==> b in s.mem.dbits
  }

  /** When do_mkdir fails and what it leaves behind: nothing, unless it was the block that was missing,
      in which case the inode number stays taken in memory. */
  lemma MkdirStatus(s: State, par: nat, name: string)
    requires CanMkdir(s, par, name)
    ensures s.sbi.lastIno <= INODES
    ensures var (s', status) := Mkdir(s, par, name);
            if FindSlot(DirSlots(s, par), name).Some? then status == Exists && s' == s
            else if s.sbi.lastIno == INODES then status == Error && s' == RestoreIbmap(s)
            else if Full(s) then status == Error && s' == RestoreDbmap(AllocInode(s).0)
            else status == Success
  {
    hide BlocksOk, TreeOk, HandlesOk, DiskOk, InodesOk, DirShape, InstallDir, FlushAll;
    assert NUM_RESV_INO <= s.sbi.lastIno <= INODES by { HintRange(s); }
    AllocTakesHint(s);
    BothAllocations(s);
  }

  /** What the two failures with an error leave, field by field. */
  lemma MkdirFailure(s: State, par: nat, name: string)
    requires CanMkdir(s, par, name) && Mkdir(s, par, name).1 == Error
    ensures var s', i := Mkdir(s, par, name).0, s.sbi.lastIno;
            s' == if i == 32 then s.(mem := s.mem.(ibits := s.disk.ibits))
                  else s.(mem := s.mem.(ibits := s.mem.ibits + {i}, sb := s.mem.sb.(lastIno := i + 1, freeInodes := s.mem.sb.freeInodes - 1)),
                          sbi := s.sbi.(lastIno := i + 1))
  {
    hide BlocksOk, TreeOk, HandlesOk, InodesOk, DirShape, Mkdir, Full, SlotsAt;
    MkdirStatus(s, par, name);
    AllocTakesHint(s);
  }

  lemma HintRange(s: State)
    requires InodesOk(s)
    ensures NUM_RESV_INO <= s.sbi.lastIno <= INODES
  {
  }

  /** The whole new state of a successful do_mkdir. */
  lemma MkdirSuccess(s: State, par: nat, name: string) returns (b: nat)
    requires CanMkdir(s, par, name) && Mkdir(s, par, name).1 == Success
    ensures s.sbi.lastIno < INODES && TakenNext(s, b) && FindSlot(DirSlots(s, par), name) == None
    ensures b < |s.blocks| && b !in s.mem.dbits
    ensures 0 <= BlockAt(s.mem.itable, par) < |s.blocks| && FreeSlot(DirSlots(s, par)) < |DirSlots(s, par)|
    ensures Mkdir(s, par, name).0 == Made(s, par, name, b)
  {
    hide BlocksOk, TreeOk, HandlesOk, DiskOk, InodesOk, DirShape, InstallDir;
    MkdirStatus(s, par, name);
    HintRange(s);
    FreshInode(s);
    DirFacts(s, par);
    AllocTakesHint(s);
    BothAllocations(s);
    var i := s.sbi.lastIno;
    var (s2, blk) := AllocBlock(AllocInode(s).0);
    b := blk.value;
    Installed(s2, par, name, i, b);
  }

  /** A successful mkdir adds one entry for an empty directory and leaves the bytes of every file. */
  lemma MadeView(s: State, par: nat, name: string, b: nat)
    requires CanMkdir(s, par, name) && s.sbi.lastIno < INODES && b < |s.blocks| && b !in s.mem.dbits
    ensures par in View(s) && 0 <= BlockAt(s.mem.itable, par) < |s.blocks| && FreeSlot(DirSlots(s, par)) < |DirSlots(s, par)|
    ensures var s' := Made(s, par, name, b);
            && BlocksOk(s'.mem.itable, s'.mem.dbits, s'.blocks)
            && View(s') == AddEntry(View(s), par, FreeSlot(DirSlots(s, par)), Slot(s.sbi.lastIno, Used, 0, name), true)
            && FileSet(s'.mem.itable) == FileSet(s.mem.itable)
            && SameBytes(s.mem.itable, s.blocks, s'.mem.itable, s'.blocks, FileSet(s.mem.itable))
  {
    hide BlocksOk, TreeOk, HandlesOk, DiskOk, InodesOk, DirShape;
    DirFacts(s, par);
    var p, k, i := s.mem.itable[par], FreeSlot(DirSlots(s, par)), s.sbi.lastIno;
    FreshInode(s);
    DirAdded(s.mem.itable, s.mem.dbits, s.blocks, par, i, Inode(i, Directory, SLOTS * ENTRY_SIZE, 1, 2, k, Addr(b)), b,
             DirSlots(s, par)[k := Slot(i, Used, 0, name)], DotSlots(i, par), (p.links + 1) % U32);
  }

  lemma NewLeaf(s: State, par: nat, name: string, version: nat)
    requires CanMkdir(s, par, name) && FindSlot(DirSlots(s, par), name) == None && s.sbi.lastIno < INODES
    ensures CanAdd(View(s), FileSet(s.mem.itable), par, FreeSlot(DirSlots(s, par)), Slot(s.sbi.lastIno, Used, version, name))
  {
    DirFacts(s, par);
  }

  lemma MadeBooks(s: State, par: nat, name: string, b: nat)
    requires CanMkdir(s, par, name) && s.sbi.lastIno < INODES && b < |s.blocks| && b !in s.mem.dbits
    requires 0 <= BlockAt(s.mem.itable, par) < |s.blocks| && FreeSlot(DirSlots(s, par)) < |DirSlots(s, par)|
    ensures var s' := Made(s, par, name, b); Geometry(s') && InodesOk(s')
  {
    hide BlocksOk, TreeOk, DirShape, HandlesOk, DiskOk;
    DirFacts(s, par);
    FreshInode(s);
  }

  lemma MadeCopies(s: State, par: nat, name: string, b: nat)
    requires CanMkdir(s, par, name) && s.sbi.lastIno < INODES && b < |s.blocks| && b !in s.mem.dbits
    requires 0 <= BlockAt(s.mem.itable, par) < |s.blocks| && FreeSlot(DirSlots(s, par)) < |DirSlots(s, par)|
    ensures var s' := Made(s, par, name, b); DiskOk(s') && HandlesOk(s')
  {
    hide BlocksOk, TreeOk, DirShape, DirSlots, FreeSlot, DotSlots;
    FreshInode(s);
  }

  /** What a failed mkdir leaves behind is consistent. */
  lemma FailedConsistent(s: State)
    requires Consistent(s)
    ensures s.sbi.lastIno == INODES ==> Consistent(RestoreIbmap(s))
    ensures s.sbi.lastIno < INODES ==> Consistent(RestoreDbmap(AllocInode(s).0))
  {
    hide BlocksOk, Tree;
    AllocTakesHint(s);
  }

  /** Whatever do_mkdir returns, the state stays consistent. */
  lemma MkdirConsistent(s: State, par: nat, name: string)
    requires CanMkdir(s, par, name)
    ensures Consistent(Mkdir(s, par, name).0)
  {
    hide Made, BlocksOk, Tree, Geometry, InodesOk, DiskOk, HandlesOk, Mkdir, AllocInode, DirSlots, AddEntry, CanAdd;
    MkdirStatus(s, par, name);
    HintRange(s);
    if Mkdir(s, par, name).1 == Success {
      var b := MkdirSuccess(s, par, name);
      MadeView(s, par, name, b);
      MadeBooks(s, par, name, b);
      MadeCopies(s, par, name, b);
      NewLeaf(s, par, name, 0);
      AddKeepsTree(View(s), FileSet(s.mem.itable), par, FreeSlot(DirSlots(s, par)), Slot(s.sbi.lastIno, Used, 0, name), true);
    } else {
      FailedConsistent(s);
    }
  }

  lemma MadeAdds(s: State, par: nat, name: string, b: nat)
    requires CanMkdir(s, par, name) && s.sbi.lastIno < INODES && b < |s.blocks| && b !in s.mem.dbits
    requires FindSlot(DirSlots(s, par), name) == None
    requires 0 <= BlockAt(s.mem.itable, par) < |s.blocks| && FreeSlot(DirSlots(s, par)) < |DirSlots(s, par)|
    ensures var s' := Made(s, par, name, b);
            && Adds(s.mem.itable, s.blocks, s'.mem.itable, s'.blocks, par, FreeSlot(DirSlots(s, par)),
                    Slot(s.sbi.lastIno, Used, 0, name), true)
            && IsDir(s'.mem.itable, s.sbi.lastIno)
  {
    hide BlocksOk, Tree, DirShape, HandlesOk, DiskOk, CanAdd, SameBytes, BlockAt;
    MadeView(s, par, name, b);
    NewLeaf(s, par, name, 0);
    FreshInode(s);
  }

  /** do_mkdir refines the insertion of one leaf: on success the names gain the new path and nothing else
      changes, on failure the names stay; it fails for existence iff the path was there. */
  lemma MkdirRefines(s: State, par: nat, name: string, dp: Path)
    requires CanMkdir(s, par, name) && LegalPath(dp) && Resolve(View(s), dp) == Some(par)
    ensures var (s', status) := Mkdir(s, par, name);
            && NamesOf(s') == (if status == Success then NamesOf(s)[dp + [name] := DirNode(s.sbi.lastIno)] else NamesOf(s))
            && (status == Exists <==> dp + [name] in NamesOf(s))
  {
    hide Consistent, TreeOf, Mkdir, Made, Adds, DirView;
    var (s', status) := Mkdir(s, par, name);
    MkdirStatus(s, par, name);
    ChildInNames(s, par, name, dp);
    if status == Success {
      var b := MkdirSuccess(s, par, name);
      MadeAdds(s, par, name, b);
      NamesAdded(s.mem.itable, s.blocks, s'.mem.itable, s'.blocks, par, FreeSlot(DirSlots(s, par)),
                 Slot(s.sbi.lastIno, Used, 0, name), true, dp);
    }
  }

  lemma ChildInNames(s: State, par: nat, name: string, dp: Path)
    requires CanMkdir(s, par, name) && LegalPath(dp) && Resolve(View(s), dp) == Some(par)
    ensures dp + [name] in NamesOf(s) <==> FindSlot(DirSlots(s, par), name).Some?
  {
    ResolveSnoc(View(s), dp, name);
    assert LegalPath(dp + [name]);
  }
}
