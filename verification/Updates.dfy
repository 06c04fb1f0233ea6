/** The elementary updates the operations are made of, each with what it does to the invariant on
    blocks, to the slot tables of the directories and to the bytes of the files. */
module Updates {
  import opened Layout
  import opened FsSpec
  import opened Fsck

  /** The files `keep` have the same bytes before and after. */
  ghost predicate SameBytes(itable: seq<Inode>, blocks: seq<Cluster>, itable': seq<Inode>, blocks': seq<Cluster>, keep: set<nat>) {
    forall f :: f in keep ==> Content(itable', blocks', f) == Content(itable, blocks, f)
  }

  lemma SameBytesSelf(itable: seq<Inode>, blocks: seq<Cluster>, keep: set<nat>)
    ensures SameBytes(itable, blocks, itable, blocks, keep)
  {
  }

  lemma SameBytesChain(itable: seq<Inode>, blocks: seq<Cluster>, blocks1: seq<Cluster>, blocks2: seq<Cluster>, keep: set<nat>)
    requires SameBytes(itable, blocks, itable, blocks1, keep) && SameBytes(itable, blocks1, itable, blocks2, keep)
    ensures SameBytes(itable, blocks, itable, blocks2, keep)
  {
  }

  /** An inode whose record and block are untouched reads as before. */
  lemma Untouched(itable: seq<Inode>, dbits: set<nat>, blocks: seq<Cluster>, itable': seq<Inode>, blocks': seq<Cluster>, i: nat, b: int)
    requires BlocksOk(itable, dbits, blocks) && |blocks'| == |blocks|
    requires i < |itable| == |itable'| && itable'[i] == itable[i] && itable[i].kind != Unused
    requires forall c :: 0 <= c < |blocks| && c != b ==> blocks'[c] == blocks[c]
    requires OwnerAt(itable, i) ==> BlockAt(itable, i) != b
    ensures IsDir(itable, i) ==> SlotsAt(blocks', itable'[i].block) == SlotsAt(blocks, itable[i].block)
    ensures IsFile(itable, i) ==> Content(itable', blocks', i) == Content(itable, blocks, i)
  {
    if OwnerAt(itable, i) {
      assert InData(blocks, itable[i].block);
    } else {
      assert itable[i].size == 0;
      assert Content(itable, blocks, i) == [] == Content(itable', blocks', i);
    }
  }

  lemma BlockFacts(itable: seq<Inode>, dbits: set<nat>, blocks: seq<Cluster>)
    requires BlocksOk(itable, dbits, blocks)
    ensures OwnersDistinct(itable)
  {
  }

  lemma OnlyOwner(itable: seq<Inode>, i: nat, j: nat)
    requires OwnersDistinct(itable) && OwnerAt(itable, i) && i != j
    ensures OwnerAt(itable, j) ==> BlockAt(itable, j) != BlockAt(itable, i)
  {
  }

  /** Rewriting the slot table of directory d. */
  lemma SetSlots(itable: seq<Inode>, dbits: set<nat>, blocks: seq<Cluster>, d: nat, slots: seq<Slot>)
    requires BlocksOk(itable, dbits, blocks) && IsDir(itable, d)
    ensures 0 <= BlockAt(itable, d) < |blocks|
    ensures var blocks' := blocks[BlockAt(itable, d) := Entries(slots)];
            && BlocksOk(itable, dbits, blocks')
            && DirView(itable, blocks') == DirView(itable, blocks)[d := slots]
            && SameBytes(itable, blocks, itable, blocks', FileSet(itable))
  {
    assert OwnerAt(itable, d);
    var b := BlockAt(itable, d);
    var blocks' := blocks[b := Entries(slots)];
    TouchBlock(itable, dbits, blocks, d, itable[d], Entries(slots));
    assert itable[d := itable[d]] == itable;
    forall i: nat | i < |itable| && i != d && itable[i].kind != Unused
      ensures IsDir(itable, i) ==> SlotsAt(blocks', itable[i].block) == SlotsAt(blocks, itable[i].block)
      ensures IsFile(itable, i) ==> Content(itable, blocks', i) == Content(itable, blocks, i)
    {
      OnlyOwner(itable, d, i);
      Untouched(itable, dbits, blocks, itable, blocks', i, b);
    }
  }

  /** Changing the link count of directory d. */
  lemma SetLinks(itable: seq<Inode>, dbits: set<nat>, blocks: seq<Cluster>, d: nat, links: nat)
    requires BlocksOk(itable, dbits, blocks) && IsDir(itable, d)
    ensures var itable' := itable[d := itable[d].(links := links)];
            && BlocksOk(itable', dbits, blocks)
            && DirView(itable', blocks) == DirView(itable, blocks)
            && FileSet(itable') == FileSet(itable)
            && SameBytes(itable, blocks, itable', blocks, FileSet(itable))
  {
    assert OwnerAt(itable, d);
    var b, n := BlockAt(itable, d), itable[d].(links := links);
    TouchBlock(itable, dbits, blocks, d, n, blocks[b]);
    assert blocks[b := blocks[b]] == blocks;
    forall f | f in FileSet(itable)
      ensures Content(itable[d := n], blocks, f) == Content(itable, blocks, f)
    {
    }
  }

  /** An unused inode becomes a directory in a free block. */
  lemma PutDirectory(itable: seq<Inode>, dbits: set<nat>, blocks: seq<Cluster>, i: nat, n: Inode, b: nat, slots: seq<Slot>)
    requires BlocksOk(itable, dbits, blocks) && i < |itable| && itable[i].kind == Unused
    requires n.kind == Directory && n.size == SLOTS * ENTRY_SIZE && n.block == Addr(b) && b < |blocks| && b !in dbits
    ensures var itable', blocks' := itable[i := n], blocks[b := Entries(slots)];
            && BlocksOk(itable', dbits + {b}, blocks')
            && DirView(itable', blocks') == DirView(itable, blocks)[i := slots]
            && FileSet(itable') == FileSet(itable)
            && SameBytes(itable, blocks, itable', blocks', FileSet(itable))
  {
    var itable', blocks' := itable[i := n], blocks[b := Entries(slots)];
    AddrIs(b);
    ClaimBlock(itable, dbits, blocks, i, n, b, Entries(slots));
    forall j: nat | j < |itable| && itable[j].kind != Unused
      ensures IsDir(itable, j) ==> SlotsAt(blocks', itable'[j].block) == SlotsAt(blocks, itable[j].block)
      ensures IsFile(itable, j) ==> Content(itable', blocks', j) == Content(itable, blocks, j)
    {
      Untouched(itable, dbits, blocks, itable', blocks', j, b);
    }
  }

  /** An unused inode becomes an empty file. */
  lemma PutFile(itable: seq<Inode>, dbits: set<nat>, blocks: seq<Cluster>, i: nat, n: Inode)
    requires BlocksOk(itable, dbits, blocks) && i < |itable| && itable[i].kind == Unused
    requires n.kind == File && n.size == 0
    ensures var itable' := itable[i := n];
            && BlocksOk(itable', dbits, blocks)
            && DirView(itable', blocks) == DirView(itable, blocks)
            && FileSet(itable') == FileSet(itable) + {i}
            && SameBytes(itable, blocks, itable', blocks, FileSet(itable))
            && Content(itable', blocks, i) == []
  {
    TouchBlockless(itable, dbits, blocks, i, n);
  }

  /** A directory goes, with its block. */
  lemma DropDirectory(itable: seq<Inode>, dbits: set<nat>, blocks: seq<Cluster>, m: nat)
    requires BlocksOk(itable, dbits, blocks) && IsDir(itable, m)
    ensures 0 <= BlockAt(itable, m) < |blocks|
    ensures var b := BlockAt(itable, m);
            var itable', blocks' := itable[m := ZERO_INODE], blocks[b := ZERO_CLUSTER];
            && BlocksOk(itable', dbits - {b}, blocks')
            && DirView(itable', blocks') == DirView(itable, blocks) - {m}
            && FileSet(itable') == FileSet(itable)
            && SameBytes(itable, blocks, itable', blocks', FileSet(itable))
  {
    assert OwnerAt(itable, m);
    var b := BlockAt(itable, m);
    ReleaseBlock(itable, dbits, blocks, m, ZERO_INODE);
    DropReads(itable, dbits, blocks, m, b);
  }

  /** After inode m is gone, every other inode reads as before. */
  lemma DropReads(itable: seq<Inode>, dbits: set<nat>, blocks: seq<Cluster>, m: nat, b: nat)
    requires BlocksOk(itable, dbits, blocks) && OwnerAt(itable, m) && b == BlockAt(itable, m) && b < |blocks|
    ensures var itable', blocks' := itable[m := ZERO_INODE], blocks[b := ZERO_CLUSTER];
            && DirView(itable', blocks') == DirView(itable, blocks) - {m}
            && FileSet(itable') == FileSet(itable) - {m}
            && SameBytes(itable, blocks, itable', blocks', FileSet(itable) - {m})
  {
    hide Content, SlotsAt, BlocksOk;
    assert OwnersDistinct(itable) by { BlockFacts(itable, dbits, blocks); }
    var itable', blocks' := itable[m := ZERO_INODE], blocks[b := ZERO_CLUSTER];
    forall j: nat | j < |itable| && itable[j].kind != Unused && j != m
      ensures IsDir(itable, j) ==> SlotsAt(blocks', itable'[j].block) == SlotsAt(blocks, itable[j].block)
      ensures IsFile(itable, j) ==> Content(itable', blocks', j) == Content(itable, blocks, j)
    {
      OnlyOwner(itable, m, j);
      Untouched(itable, dbits, blocks, itable', blocks', j, b);
    }
  }

  /** A file goes, with its block if it has one. */
  lemma DropFile(itable: seq<Inode>, dbits: set<nat>, blocks: seq<Cluster>, m: nat)
    requires BlocksOk(itable, dbits, blocks) && IsFile(itable, m)
    ensures itable[m].size > 0 ==> 0 <= BlockAt(itable, m) < |blocks|
    ensures var itable' := itable[m := ZERO_INODE];
            var dbits' := if itable[m].size > 0 then dbits - {BlockAt(itable, m)} else dbits;
            var blocks' := if itable[m].size > 0 then blocks[BlockAt(itable, m) := ZERO_CLUSTER] else blocks;
            && BlocksOk(itable', dbits', blocks')
            && DirView(itable', blocks') == DirView(itable, blocks)
            && FileSet(itable') == FileSet(itable) - {m}
            && SameBytes(itable, blocks, itable', blocks', FileSet(itable) - {m})
  {
    if itable[m].size > 0 {
      ReleaseBlock(itable, dbits, blocks, m, ZERO_INODE);
      DropReads(itable, dbits, blocks, m, BlockAt(itable, m));
      assert DirView(itable, blocks) - {m} == DirView(itable, blocks);
    } else {
      TouchBlockless(itable, dbits, blocks, m, ZERO_INODE);
    }
  }
}
