/** do_rmdir and do_unlink keep the invariant and take one leaf off the tree. */
module RemoveStep {
  import opened Layout
  import opened Paths
  import opened Namespace
  import opened TreeSteps
  import opened FsSpec
  import opened Fsck
  import opened StepFacts
  import opened Updates
  import opened NameTree

  function Target(s: State, par: nat, name: string): Option<nat> {
    Child(DirSlots(s, par), name)
  }

  /** rmdir is applied to directories. */
  ghost predicate CanRmdir(s: State, par: nat, name: string) {
    && Consistent(s) && IsDir(s.mem.itable, par) && LegalName(name)
    && (Target(s, par, name).Some? ==> IsDir(s.mem.itable, Target(s, par, name).value))
  }

  predicate IsOpen(s: State, i: nat) {
    exists f :: 0 <= f < |s.files| && s.files[f].used && s.files[f].ino == i
  }

  /** unlink is applied to files that are not open. */
  ghost predicate CanUnlink(s: State, par: nat, name: string) {
    && Consistent(s) && IsDir(s.mem.itable, par) && LegalName(name)
    && (Target(s, par, name).Some? ==>
          IsFile(s.mem.itable, Target(s, par, name).value) && !IsOpen(s, Target(s, par, name).value))
  }

  /** The entry a removal works on. */
  ghost predicate Entry(s: State, par: nat, k: nat, m: nat) {
    && Consistent(s) && IsDir(s.mem.itable, par)
    && 2 <= k < |DirSlots(s, par)| && DirSlots(s, par)[k].flag == Used && DirSlots(s, par)[k].ino == m
  }

  // ---------------------------------------------------------------- rmdir

  function DirGone(s: State, par: nat, k: nat, m: nat): State
    requires par < |s.mem.itable| && m < |s.mem.itable| && k < |DirSlots(s, par)|
    requires 0 <= BlockAt(s.mem.itable, par) < |s.blocks| && 0 <= BlockAt(s.mem.itable, m) < |s.blocks|
  {
    var p, pb, mb, slots := s.mem.itable[par], BlockAt(s.mem.itable, par), BlockAt(s.mem.itable, m), DirSlots(s, par);
    var sb := s.mem.sb.(freeInodes := s.mem.sb.freeInodes + 1, freeBlocks := s.mem.sb.freeBlocks + 1);
    var mem := Meta(sb, s.mem.ibits - {m}, s.mem.dbits - {mb},
                    s.mem.itable[m := ZERO_INODE][par := p.(links := (p.links - 1) % U32)]);
    State(mem, mem, s.sbi, s.blocks[mb := ZERO_CLUSTER][pb := Entries(slots[k := Unlinked(slots[k])])], s.files)
  }

  /** The steps of do_rmdir after its checks, spelled out. */
  lemma RmdirSpelledOut(s: State, par: nat, k: nat, m: nat)
    requires Entry(s, par, k, m) && IsDir(s.mem.itable, m)
    ensures 0 <= BlockAt(s.mem.itable, par) < |s.blocks| && 0 <= BlockAt(s.mem.itable, m) < |s.blocks|
    ensures var p, n, slots := s.mem.itable[par], s.mem.itable[m], DirSlots(s, par);
            var s1 := FreeBlock(FreeInode(s, n.ino), n.block);
            var blocks := PutSlot(PutCluster(s1.blocks, n.block, ZERO_CLUSTER), p.block + k * ENTRY_SIZE, Unlinked(slots[k]));
            FlushAll(AddLinks(s1.(blocks := blocks), p.ino, -1)) == DirGone(s, par, k, m)
  {
    hide BlocksOk, TreeOk, HandlesOk, DiskOk, InodesOk, DirShape, Addr, PutSlot, PutCluster, FreeBlock, View, FreeSlot;
    DirFacts(s, par);
    DirFacts(s, m);
    EntryFacts(s, par, k);
    BlocksDiffer(s, par, m);
    var pb, mb, slots := BlockAt(s.mem.itable, par), BlockAt(s.mem.itable, m), DirSlots(s, par);
    PutClusterAt(s.blocks, mb, ZERO_CLUSTER);
    PutSlotAt(s.blocks[mb := ZERO_CLUSTER], pb, k, Unlinked(slots[k]));
    FreeBlockAt(FreeInode(s, m), mb);
    assert s.mem.itable[m := ZERO_INODE][par] == s.mem.itable[par];
  }

  lemma BlocksDiffer(s: State, i: nat, j: nat)
    requires Consistent(s) && OwnerAt(s.mem.itable, i) && OwnerAt(s.mem.itable, j) && i != j
    ensures BlockAt(s.mem.itable, i) != BlockAt(s.mem.itable, j)
  {
  }

  /** The entry a lookup finds is a slot past the dot entries, for an inode other than the directory. */
  lemma FoundEntry(s: State, par: nat, name: string)
    requires Consistent(s) && IsDir(s.mem.itable, par) && LegalName(name) && FindSlot(DirSlots(s, par), name).Some?
    ensures var k := FindSlot(DirSlots(s, par), name).value;
            var m := DirSlots(s, par)[k].ino;
            Entry(s, par, k, m) && m != par && m < INODES == |s.mem.itable| && s.mem.itable[m].ino == m
  {
    hide BlocksOk, TreeOk, HandlesOk, DiskOk, InodesOk, DirShape;
    FoundSlot(s, par, name);
    EntryFacts(s, par, FindSlot(DirSlots(s, par), name).value);
  }

  /** The status of do_rmdir and its new state: it removes the directory iff it is there and empty. */
  lemma RmdirCases(s: State, par: nat, name: string)
    requires CanRmdir(s, par, name)
    ensures var (s', status) := Rmdir(s, par, name);
            match FindSlot(DirSlots(s, par), name)
            case None => status == NoEntry && s' == s
            case Some(k) =>
              var m := DirSlots(s, par)[k].ino;
              && Entry(s, par, k, m) && IsDir(s.mem.itable, m) && m != par
              && 0 <= BlockAt(s.mem.itable, par) < |s.blocks| && 0 <= BlockAt(s.mem.itable, m) < |s.blocks|
              && if NoEntries(DirSlots(s, m)) then status == Success && s' == DirGone(s, par, k, m)
                 else status == NotEmpty && s' == s
  {
    hide Consistent, FreeBlock, FreeInode, AddLinks, PutSlot, PutCluster, FlushAll, DirGone, NoEntries;
    if FindSlot(DirSlots(s, par), name).Some? {
      FoundEntry(s, par, name);
      var k := FindSlot(DirSlots(s, par), name).value;
      RmdirSpelledOut(s, par, k, DirSlots(s, par)[k].ino);
    }
  }

  lemma DirGoneView(s: State, par: nat, k: nat, m: nat)
    requires Entry(s, par, k, m) && IsDir(s.mem.itable, m)
    ensures par in View(s) && k < |View(s)[par]|
    ensures 0 <= BlockAt(s.mem.itable, par) < |s.blocks| && 0 <= BlockAt(s.mem.itable, m) < |s.blocks|
    ensures var s' := DirGone(s, par, k, m);
            && BlocksOk(s'.mem.itable, s'.mem.dbits, s'.blocks)
            && View(s') == RemoveEntry(View(s), par, k)
            && FileSet(s'.mem.itable) == FileSet(s.mem.itable)
            && SameBytes(s.mem.itable, s.blocks, s'.mem.itable, s'.blocks, FileSet(s.mem.itable))
  {
    hide BlocksOk, TreeOk, HandlesOk, DiskOk, InodesOk, DirShape, FreeSlot, Content, SlotsAt;
    DirFacts(s, par);
    DirFacts(s, m);
    EntryFacts(s, par, k);
    var mb, slots := BlockAt(s.mem.itable, m), DirSlots(s, par)[k := Unlinked(DirSlots(s, par)[k])];
    var itable1, dbits1, blocks1 := s.mem.itable[m := ZERO_INODE], s.mem.dbits - {mb}, s.blocks[mb := ZERO_CLUSTER];
    DropDirectory(s.mem.itable, s.mem.dbits, s.blocks, m);
    SetSlots(itable1, dbits1, blocks1, par, slots);
    SetLinks(itable1, dbits1, blocks1[BlockAt(itable1, par) := Entries(slots)], par, (itable1[par].links - 1) % U32);
    assert (View(s) - {m})[par := slots] == View(s)[par := slots] - {m};
  }

  lemma DirGoneBooks(s: State, par: nat, k: nat, m: nat)
    requires Entry(s, par, k, m) && IsDir(s.mem.itable, m)
    requires 0 <= BlockAt(s.mem.itable, par) < |s.blocks| && 0 <= BlockAt(s.mem.itable, m) < |s.blocks|
    ensures var s' := DirGone(s, par, k, m); Geometry(s') && InodesOk(s') && DiskOk(s') && HandlesOk(s')
  {
    hide BlocksOk, TreeOk, DirShape;
    EntryFacts(s, par, k);
  }

  lemma LeafEntry(s: State, par: nat, k: nat, m: nat)
    requires Entry(s, par, k, m) && (IsDir(s.mem.itable, m) ==> NoEntries(DirSlots(s, m)))
    ensures CanRemove(View(s), FileSet(s.mem.itable), par, k) && View(s)[par][k].ino == m
  {
    DirFacts(s, par);
    EntryFacts(s, par, k);
  }

  /** Whatever do_rmdir returns, the state stays consistent. */
  lemma RmdirConsistent(s: State, par: nat, name: string)
    requires CanRmdir(s, par, name)
    ensures Consistent(Rmdir(s, par, name).0)
  {
    hide BlocksOk, DirShape, HandlesOk, DiskOk, InodesOk, Geometry, Rmdir, Tree, RemoveEntry;
    RmdirCases(s, par, name);
    if Rmdir(s, par, name).1 == Success {
      var k := FindSlot(DirSlots(s, par), name).value;
      var m := DirSlots(s, par)[k].ino;
      DirGoneView(s, par, k, m);
      DirGoneBooks(s, par, k, m);
      LeafEntry(s, par, k, m);
      RemoveKeepsTree(View(s), FileSet(s.mem.itable), par, k);
      NoFileIsDir(s.mem.itable, m);
    }
  }

  lemma NoFileIsDir(itable: seq<Inode>, m: nat)
    requires IsDir(itable, m)
    ensures FileSet(itable) - {m} == FileSet(itable)
  {
  }

  lemma DirGoneRemoves(s: State, par: nat, k: nat, m: nat)
    requires Entry(s, par, k, m) && IsDir(s.mem.itable, m) && NoEntries(DirSlots(s, m))
    requires 0 <= BlockAt(s.mem.itable, par) < |s.blocks| && 0 <= BlockAt(s.mem.itable, m) < |s.blocks|
    ensures var s' := DirGone(s, par, k, m); Removes(s.mem.itable, s.blocks, s'.mem.itable, s'.blocks, par, k)
  {
    hide BlocksOk, Tree, DirShape, HandlesOk, DiskOk, CanRemove, SameBytes, BlockAt;
    DirGoneView(s, par, k, m);
    LeafEntry(s, par, k, m);
    EntryFacts(s, par, k);
    NoFileIsDir(s.mem.itable, m);
  }

  /** do_rmdir refines the removal of one leaf. */
  lemma RmdirRefines(s: State, par: nat, name: string, dp: Path)
    requires CanRmdir(s, par, name) && LegalPath(dp) && Resolve(View(s), dp) == Some(par)
    ensures var (s', status) := Rmdir(s, par, name);
            && NamesOf(s') == (if status == Success then Without(NamesOf(s), dp + [name]) else NamesOf(s))
            && (status == NoEntry <==> dp + [name] !in NamesOf(s))
  {
    hide Consistent, TreeOf, Rmdir, DirGone, Removes, DirView;
    RmdirCases(s, par, name);
    InNames(s, par, name, dp);
    var (s', status) := Rmdir(s, par, name);
    if status == Success {
      var k := FindSlot(DirSlots(s, par), name).value;
      DirGoneRemoves(s, par, k, DirSlots(s, par)[k].ino);
      ViewAt(s, par);
      NamesRemoved(s.mem.itable, s.blocks, s'.mem.itable, s'.blocks, par, k, dp);
    }
  }

  lemma ViewAt(s: State, d: nat)
    requires Consistent(s) && IsDir(s.mem.itable, d)
    ensures d in View(s) && View(s)[d] == DirSlots(s, d) && |DirSlots(s, d)| == SLOTS
  {
    DirFacts(s, d);
  }

  lemma InNames(s: State, par: nat, name: string, dp: Path)
    requires Consistent(s) && IsDir(s.mem.itable, par) && LegalName(name)
    requires LegalPath(dp) && Resolve(View(s), dp) == Some(par)
    ensures dp + [name] in NamesOf(s) <==> FindSlot(DirSlots(s, par), name).Some?
  {
    ResolveSnoc(View(s), dp, name);
    assert LegalPath(dp + [name]);
  }

  // ---------------------------------------------------------------- unlink

  function FileGone(s: State, par: nat, k: nat, m: nat): State
    requires par < |s.mem.itable| && m < |s.mem.itable| && k < |DirSlots(s, par)|
    requires 0 <= BlockAt(s.mem.itable, par) < |s.blocks|
    requires s.mem.itable[m].size > 0 ==> 0 <= BlockAt(s.mem.itable, m) < |s.blocks|
  {
    var n, pb, mb, slots := s.mem.itable[m], BlockAt(s.mem.itable, par), BlockAt(s.mem.itable, m), DirSlots(s, par);
    var sb := s.mem.sb.(freeInodes := s.mem.sb.freeInodes + 1,
                        freeBlocks := s.mem.sb.freeBlocks + if n.size > 0 then 1 else 0);
    var mem := Meta(sb, s.mem.ibits - {m}, if n.size > 0 then s.mem.dbits - {mb} else s.mem.dbits, s.mem.itable[m := ZERO_INODE]);
    var blocks := if n.size > 0 then s.blocks[mb := ZERO_CLUSTER] else s.blocks;
    State(mem, mem, s.sbi, blocks[pb := Entries(slots[k := Unlinked(slots[k])])], s.files)
  }

  lemma FileFacts(s: State, m: nat)
    requires Consistent(s) && IsFile(s.mem.itable, m)
    ensures s.mem.itable[m].links == 1 && s.mem.itable[m].ino == m
    ensures s.mem.itable[m].size > 0 ==>
              && 0 <= BlockAt(s.mem.itable, m) < |s.blocks| && s.mem.itable[m].block == Addr(BlockAt(s.mem.itable, m))
              && Fits(s.mem.itable[m], s.blocks[BlockAt(s.mem.itable, m)])
  {
    if s.mem.itable[m].size > 0 { assert OwnerAt(s.mem.itable, m); }
  }

  lemma UnlinkSpelledOut(s: State, par: nat, k: nat, m: nat)
    requires Entry(s, par, k, m) && IsFile(s.mem.itable, m)
    ensures 0 <= BlockAt(s.mem.itable, par) < |s.blocks|
    ensures s.mem.itable[m].size > 0 ==> 0 <= BlockAt(s.mem.itable, m) < |s.blocks|
    ensures var p, slots := s.mem.itable[par], DirSlots(s, par);
            var s1 := FreeFile(s, s.mem.itable[m]);
            FlushAll(s1.(blocks := PutSlot(s1.blocks, p.block + k * ENTRY_SIZE, Unlinked(slots[k])))) == FileGone(s, par, k, m)
  {
    hide BlocksOk, TreeOk, HandlesOk, DiskOk, InodesOk, DirShape, Addr, PutSlot, PutCluster, FreeBlock;
    DirFacts(s, par);
    FileFacts(s, m);
    EntryFacts(s, par, k);
    var pb, mb, slots := BlockAt(s.mem.itable, par), BlockAt(s.mem.itable, m), DirSlots(s, par);
    if s.mem.itable[m].size > 0 {
      BlocksDiffer(s, par, m);
      PutClusterAt(s.blocks, mb, ZERO_CLUSTER);
      PutSlotAt(s.blocks[mb := ZERO_CLUSTER], pb, k, Unlinked(slots[k]));
      FreeBlockAt(s, mb);
    } else {
      PutSlotAt(s.blocks, pb, k, Unlinked(slots[k]));
    }
  }

  /** The status of do_unlink and its new state: a file has one link, so unlinking always frees it. */
  lemma UnlinkCases(s: State, par: nat, name: string)
    requires CanUnlink(s, par, name)
    ensures var (s', status) := Unlink(s, par, name);
            match FindSlot(DirSlots(s, par), name)
            case None => status == NoEntry && s' == s
            case Some(k) =>
              var m := DirSlots(s, par)[k].ino;
              && Entry(s, par, k, m) && IsFile(s.mem.itable, m) && !IsOpen(s, m)
              && 0 <= BlockAt(s.mem.itable, par) < |s.blocks|
              && (s.mem.itable[m].size > 0 ==> 0 <= BlockAt(s.mem.itable, m) < |s.blocks|)
              && status == Success && s' == FileGone(s, par, k, m)
  {
    hide Consistent, FreeFile, PutSlot, FlushAll, FileGone;
    if FindSlot(DirSlots(s, par), name).Some? {
      FoundEntry(s, par, name);
      var k := FindSlot(DirSlots(s, par), name).value;
      var m := DirSlots(s, par)[k].ino;
      FileFacts(s, m);
      UnlinkSpelledOut(s, par, k, m);
    }
  }

  lemma FileGoneView(s: State, par: nat, k: nat, m: nat)
    requires Entry(s, par, k, m) && IsFile(s.mem.itable, m)
    ensures par in View(s) && k < |View(s)[par]| && 0 <= BlockAt(s.mem.itable, par) < |s.blocks|
    ensures s.mem.itable[m].size > 0 ==> 0 <= BlockAt(s.mem.itable, m) < |s.blocks|
    ensures var s' := FileGone(s, par, k, m);
            && BlocksOk(s'.mem.itable, s'.mem.dbits, s'.blocks)
            && View(s') == RemoveEntry(View(s), par, k)
            && FileSet(s'.mem.itable) == FileSet(s.mem.itable) - {m}
            && SameBytes(s.mem.itable, s.blocks, s'.mem.itable, s'.blocks, FileSet(s.mem.itable) - {m})
  {
    hide BlocksOk, TreeOk, HandlesOk, DiskOk, InodesOk, DirShape;
    DirFacts(s, par);
    FileFacts(s, m);
    EntryFacts(s, par, k);
    var n, mb, slots := s.mem.itable[m], BlockAt(s.mem.itable, m), DirSlots(s, par)[k := Unlinked(DirSlots(s, par)[k])];
    var itable1 := s.mem.itable[m := ZERO_INODE];
    var dbits1 := if n.size > 0 then s.mem.dbits - {mb} else s.mem.dbits;
    var blocks1 := if n.size > 0 then s.blocks[mb := ZERO_CLUSTER] else s.blocks;
    DropFile(s.mem.itable, s.mem.dbits, s.blocks, m);
    SetSlots(itable1, dbits1, blocks1, par, slots);
    assert View(s)[par := slots] == View(s)[par := slots] - {m};
  }

  lemma FileGoneBooks(s: State, par: nat, k: nat, m: nat)
    requires Entry(s, par, k, m) && IsFile(s.mem.itable, m) && !IsOpen(s, m)
    requires 0 <= BlockAt(s.mem.itable, par) < |s.blocks|
    requires s.mem.itable[m].size > 0 ==> 0 <= BlockAt(s.mem.itable, m) < |s.blocks|
    ensures var s' := FileGone(s, par, k, m); Geometry(s') && InodesOk(s') && DiskOk(s') && HandlesOk(s')
  {
    hide BlocksOk, TreeOk, DirShape;
    EntryFacts(s, par, k);
  }

  /** Whatever do_unlink returns, the state stays consistent. */
  lemma UnlinkConsistent(s: State, par: nat, name: string)
    requires CanUnlink(s, par, name)
    ensures Consistent(Unlink(s, par, name).0)
  {
    hide BlocksOk, DirShape, HandlesOk, DiskOk, InodesOk, Geometry, Unlink, Tree, RemoveEntry;
    UnlinkCases(s, par, name);
    if Unlink(s, par, name).1 == Success {
      var k := FindSlot(DirSlots(s, par), name).value;
      var m := DirSlots(s, par)[k].ino;
      FileGoneView(s, par, k, m);
      FileGoneBooks(s, par, k, m);
      LeafEntry(s, par, k, m);
      RemoveKeepsTree(View(s), FileSet(s.mem.itable), par, k);
    }
  }

  lemma FileGoneRemoves(s: State, par: nat, k: nat, m: nat)
    requires Entry(s, par, k, m) && IsFile(s.mem.itable, m)
    requires 0 <= BlockAt(s.mem.itable, par) < |s.blocks|
    requires s.mem.itable[m].size > 0 ==> 0 <= BlockAt(s.mem.itable, m) < |s.blocks|
    ensures var s' := FileGone(s, par, k, m); Removes(s.mem.itable, s.blocks, s'.mem.itable, s'.blocks, par, k)
  {
    hide BlocksOk, Tree, DirShape, HandlesOk, DiskOk, CanRemove, SameBytes, BlockAt;
    FileGoneView(s, par, k, m);
    LeafEntry(s, par, k, m);
    EntryFacts(s, par, k);
  }

  /** do_unlink refines the removal of one leaf. */
  lemma UnlinkRefines(s: State, par: nat, name: string, dp: Path)
    requires CanUnlink(s, par, name) && LegalPath(dp) && Resolve(View(s), dp) == Some(par)
    ensures var (s', status) := Unlink(s, par, name);
            && NamesOf(s') == (if status == Success then Without(NamesOf(s), dp + [name]) else NamesOf(s))
            && (status == Success <==> dp + [name] in NamesOf(s))
  {
    hide Consistent, TreeOf, Unlink, FileGone, Removes, DirView;
    UnlinkCases(s, par, name);
    InNames(s, par, name, dp);
    var (s', status) := Unlink(s, par, name);
    if status == Success {
      var k := FindSlot(DirSlots(s, par), name).value;
      FileGoneRemoves(s, par, k, DirSlots(s, par)[k].ino);
      ViewAt(s, par);
      NamesRemoved(s.mem.itable, s.blocks, s'.mem.itable, s'.blocks, par, k, dp);
    }
  }
}
