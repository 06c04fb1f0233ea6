/** Facts about a consistent state that every operation starts from. */
module StepFacts {
  import opened Layout
  import opened Paths
  import opened Namespace
  import opened FsSpec
  import opened Fsck
  import Bmap

  /** As coded, an inode allocation takes exactly the hint, and fails iff the hint has reached the table size:
      the cyclic part of the scan is never taken. */
  lemma AllocTakesHint(s: State)
    requires Geometry(s) && InodesOk(s)
    ensures AllocInode(s).1 == if s.sbi.lastIno < INODES then Some(s.sbi.lastIno) else None
  {
    Bmap.ScanAtClearHint(s.mem.ibits, s.sbi.lastIno, INODES);
  }

  /** Walking a path with a base name is walking its directory part and looking the base name up there,
      however the slashes repeat and even when the directory part is empty. */
  lemma WalkSplits(s: State, path: string)
    requires '/' in path && BaseName(path) != ""
    ensures Walk(s, path) == LookupIn(View(s), Walk(s, DirName(path)), BaseName(path))
  {
    hide DirView;
    SplitAgreesWithTokens(path);
    ResolveSnoc(View(s), Tokens(DirName(path)), BaseName(path));
  }

  /** The inode number handed out next is unused. */
  lemma FreshInode(s: State)
    requires Geometry(s) && InodesOk(s) && s.sbi.lastIno < INODES
    ensures s.mem.itable[s.sbi.lastIno] == ZERO_INODE
  {
  }

  /** Block b is the one that the next allocation takes: every other free block comes later in cyclic order from the
      hint that lab4_fill_super cached. */
  ghost predicate TakenNext(s: State, b: nat) {
    Bmap.FirstClear(s.mem.dbits, s.sbi.lastBlk, |s.blocks|, b)
  }

  /** A block allocation fails iff every block is taken; else it takes the first free block of the data area from the
      cached hint on, or from block 0 on when there is none from the hint on. */
  lemma AllocTakesFreeBlock(s: State)
    requires Geometry(s)
    ensures MaxBlock(s) == |s.blocks|
    ensures AllocBlock(s).1 == None <==> forall b: nat :: b < |s.blocks| ==> b in s.mem.dbits
    ensures AllocBlock(s).1.Some? ==> TakenNext(s, AllocBlock(s).1.value)
  {
    assert |s.blocks| * CLUSTER_SIZE / CLUSTER_SIZE == |s.blocks|;
    Bmap.ScanFailsIffFull(s.mem.dbits, s.sbi.lastBlk, |s.blocks|);
    if AllocBlock(s).1.Some? { Bmap.ScanTakesFirstClear(s.mem.dbits, s.sbi.lastBlk, |s.blocks|); }
  }

  /** A live directory's inode and cluster, and the room in it. */
  lemma DirFacts(s: State, d: nat)
    requires Consistent(s) && IsDir(s.mem.itable, d)
    ensures d in View(s) && View(s)[d] == DirSlots(s, d) && DirShape(DirSlots(s, d), d)
    ensures 0 <= BlockAt(s.mem.itable, d) < |s.blocks| && BlockAt(s.mem.itable, d) in s.mem.dbits
    ensures s.mem.itable[d].block == Addr(BlockAt(s.mem.itable, d)) && s.mem.itable[d].ino == d
    ensures s.mem.itable[d].size == SLOTS * ENTRY_SIZE
    ensures s.blocks[BlockAt(s.mem.itable, d)] == Entries(DirSlots(s, d))
    ensures 2 <= FreeSlot(DirSlots(s, d)) < SLOTS
  {
    assert OwnerAt(s.mem.itable, d);
    NoOverflow(View(s), FileSet(s.mem.itable), d);
  }

  /** A USED slot past the dot entries names a live inode. */
  lemma EntryFacts(s: State, d: nat, k: nat)
    requires Consistent(s) && IsDir(s.mem.itable, d)
    requires 2 <= k < |DirSlots(s, d)| && DirSlots(s, d)[k].flag == Used
    ensures var m := DirSlots(s, d)[k].ino;
            && NUM_RESV_INO <= m < INODES && m != d
            && s.mem.itable[m].ino == m && (IsDir(s.mem.itable, m) || IsFile(s.mem.itable, m))
            && LegalName(DirSlots(s, d)[k].name)
  {
    DirFacts(s, d);
    var m := DirSlots(s, d)[k].ino;
    assert Names(View(s), d, k, m);
    NoSelfEntry(View(s), FileSet(s.mem.itable), d, k);
  }

  /** Looking up a legal name finds a slot past the dot entries. */
  lemma FoundSlot(s: State, d: nat, name: string)
    requires Consistent(s) && IsDir(s.mem.itable, d) && LegalName(name)
    requires FindSlot(DirSlots(s, d), name).Some?
    ensures 2 <= FindSlot(DirSlots(s, d), name).value < SLOTS
  {
    DirFacts(s, d);
  }
}
