/** lab4_createfile keeps the invariant and adds one empty file to the tree. */
module CreateStep {
  import opened Layout
  import opened Paths
  import opened Namespace
  import opened TreeSteps
  import opened FsSpec
  import opened Fsck
  import opened StepFacts
  import opened Updates
  import opened NameTree
  import opened MkdirStep

  function Created(s: State, par: nat, name: string): State
    requires par < |s.mem.itable| && s.sbi.lastIno < |s.mem.itable|
    requires 0 <= BlockAt(s.mem.itable, par) < |s.blocks| && FreeSlot(DirSlots(s, par)) < |DirSlots(s, par)|
  {
    var pb, k, i := BlockAt(s.mem.itable, par), FreeSlot(DirSlots(s, par)), s.sbi.lastIno;
    var sb := s.mem.sb.(lastIno := i + 1, freeInodes := s.mem.sb.freeInodes - 2);
    var mem := Meta(sb, s.mem.ibits + {i}, s.mem.dbits, s.mem.itable[i := Inode(i, File, 0, 1, 1, k, 0)]);
    State(mem, mem.(dbits := s.disk.dbits), s.sbi.(lastIno := i + 1),
          s.blocks[pb := Entries(DirSlots(s, par)[k := Slot(i, Used, 1, name)])], s.files)
  }

  /** The status of lab4_createfile and its new state. A successful create charges two free inodes for
      one inode. */
  lemma CreateCases(s: State, par: nat, name: string)
    requires Consistent(s) && IsDir(s.mem.itable, par)
    ensures 0 <= BlockAt(s.mem.itable, par) < |s.blocks| && FreeSlot(DirSlots(s, par)) < |DirSlots(s, par)|
    ensures var (s', status) := CreateFile(s, par, name);
            if !(1 <= |name| < FNAME_SIZE) then status == NameTooLong && s' == s
            else if FindSlot(DirSlots(s, par), name).Some? then status == Exists && s' == s
            else if s.mem.itable[par].links == MAX_FILES_PER_DIR then status == Error && s' == s
            else if s.sbi.lastIno == INODES then status == Error && s' == RestoreIbmap(s)
            else s.sbi.lastIno < INODES && status == Success && s' == Created(s, par, name)
  {
    hide BlocksOk, TreeOk, HandlesOk, DiskOk, InodesOk, DirShape, PutSlot, FreeSlot, FindSlot;
    HintRange(s);
    AllocTakesHint(s);
    DirFacts(s, par);
    var pb, k := BlockAt(s.mem.itable, par), FreeSlot(DirSlots(s, par));
    PutSlotAt(s.blocks, pb, k, Slot(s.sbi.lastIno, Used, 1, name));
  }

  lemma CreatedView(s: State, par: nat, name: string)
    requires CanMkdir(s, par, name) && s.sbi.lastIno < INODES
    ensures par in View(s) && 0 <= BlockAt(s.mem.itable, par) < |s.blocks| && FreeSlot(DirSlots(s, par)) < |DirSlots(s, par)|
    ensures var s' := Created(s, par, name);
            && BlocksOk(s'.mem.itable, s'.mem.dbits, s'.blocks)
            && View(s') == AddEntry(View(s), par, FreeSlot(DirSlots(s, par)), Slot(s.sbi.lastIno, Used, 1, name), false)
            && FileSet(s'.mem.itable) == FileSet(s.mem.itable) + {s.sbi.lastIno}
            && SameBytes(s.mem.itable, s.blocks, s'.mem.itable, s'.blocks, FileSet(s.mem.itable))
            && Content(s'.mem.itable, s'.blocks, s.sbi.lastIno) == []
  {
    hide BlocksOk, TreeOk, HandlesOk, DiskOk, InodesOk, DirShape;
    DirFacts(s, par);
    FreshInode(s);
    var k, i := FreeSlot(DirSlots(s, par)), s.sbi.lastIno;
    var slots := DirSlots(s, par)[k := Slot(i, Used, 1, name)];
    SetSlots(s.mem.itable, s.mem.dbits, s.blocks, par, slots);
    PutFile(s.mem.itable, s.mem.dbits, s.blocks[BlockAt(s.mem.itable, par) := Entries(slots)], i, Inode(i, File, 0, 1, 1, k, 0));
  }

  lemma CreatedBooks(s: State, par: nat, name: string)
    requires CanMkdir(s, par, name) && s.sbi.lastIno < INODES
    requires 0 <= BlockAt(s.mem.itable, par) < |s.blocks| && FreeSlot(DirSlots(s, par)) < |DirSlots(s, par)|
    ensures var s' := Created(s, par, name); Geometry(s') && InodesOk(s') && DiskOk(s') && HandlesOk(s')
  {
    hide BlocksOk, TreeOk, DirShape;
    DirFacts(s, par);
    FreshInode(s);
  }

  /** Whatever lab4_createfile returns, the state stays consistent. */
  lemma CreateConsistent(s: State, par: nat, name: string)
    requires CanMkdir(s, par, name)
    ensures Consistent(CreateFile(s, par, name).0)
  {
    CreateCases(s, par, name);
    if CreateFile(s, par, name).1 == Success {
      CreatedView(s, par, name);
      CreatedBooks(s, par, name);
      NewLeaf(s, par, name, 1);
      AddKeepsTree(View(s), FileSet(s.mem.itable), par, FreeSlot(DirSlots(s, par)), Slot(s.sbi.lastIno, Used, 1, name), false);
    }
  }

  lemma CreatedAdds(s: State, par: nat, name: string)
    requires CanMkdir(s, par, name) && s.sbi.lastIno < INODES && FindSlot(DirSlots(s, par), name) == None
    requires 0 <= BlockAt(s.mem.itable, par) < |s.blocks| && FreeSlot(DirSlots(s, par)) < |DirSlots(s, par)|
    ensures var s' := Created(s, par, name);
            && Adds(s.mem.itable, s.blocks, s'.mem.itable, s'.blocks, par, FreeSlot(DirSlots(s, par)),
                    Slot(s.sbi.lastIno, Used, 1, name), false)
            && NodeAt(s'.mem.itable, s'.blocks, s.sbi.lastIno) == FileNode(s.sbi.lastIno, [])
  {
    hide BlocksOk, Tree, DirShape, HandlesOk, DiskOk, CanAdd, SameBytes, BlockAt, Content;
    CreatedView(s, par, name);
    NewLeaf(s, par, name, 1);
    FreshInode(s);
  }

  /** lab4_createfile refines the insertion of one empty file. */
  lemma CreateRefines(s: State, par: nat, name: string, dp: Path)
    requires CanMkdir(s, par, name) && LegalPath(dp) && Resolve(View(s), dp) == Some(par)
    ensures var (s', status) := CreateFile(s, par, name);
            && NamesOf(s') == (if status == Success then NamesOf(s)[dp + [name] := FileNode(s.sbi.lastIno, [])] else NamesOf(s))
            && (status == Exists <==> dp + [name] in NamesOf(s))
  {
    hide Consistent, TreeOf, CreateFile, Created, Adds, DirView;
    var (s', status) := CreateFile(s, par, name);
    CreateCases(s, par, name);
    ChildInNames(s, par, name, dp);
    if status == Success {
      CreatedAdds(s, par, name);
      NamesAdded(s.mem.itable, s.blocks, s'.mem.itable, s'.blocks, par, FreeSlot(DirSlots(s, par)),
                 Slot(s.sbi.lastIno, Used, 1, name), false, dp);
    }
  }
}
