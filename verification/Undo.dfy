/** do_rmdir undoes do_mkdir. */
module Undo {
  import opened Layout
  import opened Namespace
  import opened FsSpec
  import opened Fsck
  import opened StepFacts
  import opened MkdirStep
  import opened RemoveStep

  /** The state after a mkdir and its rmdir, spelled out against the state before: the bitmaps, both free
      counters, the inode table and every cluster are back, except for one slot of the parent that is now
      marked deleted. The two allocation hints stay where the mkdir moved them. */
  function Undone(s: State, par: nat, name: string, b: nat): State
    requires par < |s.mem.itable| && 0 <= BlockAt(s.mem.itable, par) < |s.blocks|
    requires FreeSlot(DirSlots(s, par)) < |DirSlots(s, par)|
  {
    var i, k := s.sbi.lastIno, FreeSlot(DirSlots(s, par));
    var mem := s.mem.(sb := s.mem.sb.(lastIno := i + 1, lastBlk := b));
    State(mem, mem, s.sbi.(lastIno := i + 1),
          s.blocks[BlockAt(s.mem.itable, par) := Entries(DirSlots(s, par)[k := Slot(i, Deleted, 0, name)])], s.files)
  }

  /** What the rmdir finds: the slot the mkdir filled, for an empty directory. */
  lemma MadeIsFound(s: State, par: nat, name: string, b: nat)
    requires CanMkdir(s, par, name) && s.sbi.lastIno < INODES && b < |s.blocks| && b !in s.mem.dbits
    requires FindSlot(DirSlots(s, par), name) == None
    requires 0 <= BlockAt(s.mem.itable, par) < |s.blocks| && FreeSlot(DirSlots(s, par)) < |DirSlots(s, par)|
    ensures var s', i, k := Made(s, par, name, b), s.sbi.lastIno, FreeSlot(DirSlots(s, par));
            && DirSlots(s', par) == DirSlots(s, par)[k := Slot(i, Used, 0, name)]
            && FindSlot(DirSlots(s', par), name) == Some(k)
            && DirSlots(s', i) == DotSlots(i, par) && NoEntries(DirSlots(s', i))
            && IsDir(s'.mem.itable, par) && IsDir(s'.mem.itable, i) && i != par
            && BlockAt(s'.mem.itable, i) == b && BlockAt(s'.mem.itable, par) == BlockAt(s.mem.itable, par) != b
  {
    hide BlocksOk, TreeOk, HandlesOk, DiskOk, InodesOk;
    DirFacts(s, par);
    FreshInode(s);
    AddrIs(b);
    var i, k := s.sbi.lastIno, FreeSlot(DirSlots(s, par));
    FirstMatch(DirSlots(s, par)[k := Slot(i, Used, 0, name)], k, name);
  }

  lemma FirstMatch(slots: seq<Slot>, k: nat, name: string)
    requires k < |slots| && Match(slots[k], name) && forall j :: 0 <= j < |slots| && j != k ==> !Match(slots[j], name)
    ensures FindSlot(slots, name) == Some(k)
  {
  }

  /** Taking the new directory off again gives Undone. */
  lemma DirGoneUndoes(s: State, par: nat, name: string, b: nat)
    requires CanMkdir(s, par, name) && s.sbi.lastIno < INODES && b < |s.blocks| && b !in s.mem.dbits
    requires FindSlot(DirSlots(s, par), name) == None
    requires 0 <= BlockAt(s.mem.itable, par) < |s.blocks| && FreeSlot(DirSlots(s, par)) < |DirSlots(s, par)|
    ensures var s', i, k := Made(s, par, name, b), s.sbi.lastIno, FreeSlot(DirSlots(s, par));
            && par < |s'.mem.itable| && i < |s'.mem.itable| && k < |DirSlots(s', par)|
            && 0 <= BlockAt(s'.mem.itable, par) < |s'.blocks| && 0 <= BlockAt(s'.mem.itable, i) < |s'.blocks|
            && DirGone(s', par, k, i) == Undone(s, par, name, b)
  {
    hide Tree, TreeOk, HandlesOk, DiskOk, OwnersOk, OwnersDistinct, FindSlot, DirSlots;
    MadeIsFound(s, par, name, b);
    FreshInode(s);
    var i := s.sbi.lastIno;
    assert i !in s.mem.ibits && s.blocks[b] == ZERO_CLUSTER;
    var gone, undone := DirGone(Made(s, par, name, b), par, FreeSlot(DirSlots(s, par)), i), Undone(s, par, name, b);
    assert gone.mem.itable == undone.mem.itable;
    assert gone.mem.ibits == undone.mem.ibits && gone.mem.dbits == undone.mem.dbits;
    var slots, k := DirSlots(s, par), FreeSlot(DirSlots(s, par));
    assert slots[k := Slot(i, Used, 0, name)][k := Slot(i, Deleted, 0, name)] == slots[k := Slot(i, Deleted, 0, name)];
    assert gone.blocks == undone.blocks;
  }

  /** mkdir followed by rmdir of the same name restores everything but the two last-allocated hints and
      the contents of one slot that is not in use. */
  lemma RmdirUndoesMkdir(s: State, par: nat, name: string)
    requires CanMkdir(s, par, name) && Mkdir(s, par, name).1 == Success
    ensures 0 <= BlockAt(s.mem.itable, par) < |s.blocks| && FreeSlot(DirSlots(s, par)) < |DirSlots(s, par)|
    ensures var (s1, _) := Mkdir(s, par, name);
            var (s2, status) := Rmdir(s1, par, name);
            status == Success && s2 == Undone(s, par, name, s2.mem.sb.lastBlk)
  {
    hide Consistent, Mkdir, Rmdir, Made, DirGone, FindSlot, NoEntries;
    var b := MkdirSuccess(s, par, name);
    var s1 := Mkdir(s, par, name).0;
    MkdirConsistent(s, par, name);
    MadeIsFound(s, par, name, b);
    RmdirCases(s1, par, name);
    DirGoneUndoes(s, par, name, b);
  }
}
