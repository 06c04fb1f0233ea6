/** What an fsck of the state would check, and how the elementary updates keep it. */
module Fsck {
  import opened Layout
  import opened Namespace
  import opened FsSpec

  /** Directories and non-empty files own one data block. */
  predicate Owns(n: Inode) {
    n.kind == Directory || (n.kind == File && n.size > 0)
  }

  predicate OwnerAt(itable: seq<Inode>, i: nat) {
    i < |itable| && Owns(itable[i])
  }

  function BlockAt(itable: seq<Inode>, i: nat): int
    requires i < |itable|
  {
    BlockOf(itable[i].block)
  }

  /** The block of an owner holds what its inode says: slots, or bytes that are zero past the size. */
  ghost predicate Fits(n: Inode, c: Cluster) {
    if n.kind == Directory then c.Entries? && n.size == SLOTS * ENTRY_SIZE
    else c.Bytes? && |c.data| == CLUSTER_SIZE && n.size <= CLUSTER_SIZE && forall j :: n.size <= j < CLUSTER_SIZE ==> c.data[j] == 0
  }

  /** Every owner's block is inside the data area, marked in the bitmap and of the right kind. */
  ghost predicate OwnersOk(itable: seq<Inode>, dbits: set<nat>, blocks: seq<Cluster>) {
    forall i: nat :: OwnerAt(itable, i) ==>
      && InData(blocks, itable[i].block)
      && itable[i].block == Addr(BlockAt(itable, i))
      && BlockAt(itable, i) in dbits
      && Fits(itable[i], blocks[BlockAt(itable, i)])
  }

  /** No block has two owners. */
  ghost predicate OwnersDistinct(itable: seq<Inode>) {
    forall i: nat, j: nat :: OwnerAt(itable, i) && OwnerAt(itable, j) && BlockAt(itable, i) == BlockAt(itable, j) ==> i == j
  }

  ghost predicate Owned(itable: seq<Inode>, b: nat) {
    exists i: nat :: OwnerAt(itable, i) && BlockAt(itable, i) == b
  }

  /** Each set data bit is inside the device and owned; each clear one stands for an all-zero block. */
  ghost predicate BitsOk(itable: seq<Inode>, dbits: set<nat>, blocks: seq<Cluster>) {
    && (forall b :: b in dbits ==> b < |blocks| && Owned(itable, b))
    && (forall b: nat :: b < |blocks| && b !in dbits ==> blocks[b] == ZERO_CLUSTER)
  }

  ghost predicate BlocksOk(itable: seq<Inode>, dbits: set<nat>, blocks: seq<Cluster>) {
    OwnersOk(itable, dbits, blocks) && OwnersDistinct(itable) && BitsOk(itable, dbits, blocks)
  }

  // ---------------------------------------------------------------- addresses

  /** Block addressing is a bijection inside the device: the address recorded at allocation is cluster
      aligned, lies after the inode table and inside the device, and maps back to the block at deletion. */
  lemma AddressRoundTrip(sectors: nat, b: nat)
    requires Formattable(sectors) && b < DataBlocks(sectors)
    ensures var sbi := FillSuper(FormatSuper(sectors));
            && Addr(b) == b * sbi.clusterSize + sbi.dareaStart
            && BlockNumber(sbi, Addr(b)) == b == BlockOf(Addr(b))
            && Addr(b) % CLUSTER_SIZE == 0
            && DAREA_OFFSET * CLUSTER_SIZE <= Addr(b) && Addr(b) + CLUSTER_SIZE <= sectors * SECTOR_SIZE
  {
    AddrIs(b);
    assert Pow2(3) == 8;
    var n := sectors * SECTOR_SIZE;
    assert n / CLUSTER_SIZE * CLUSTER_SIZE <= n;
  }

  /** Byte ranges of different blocks do not meet. */
  lemma BlocksDisjoint(a: nat, b: nat, x: nat, y: nat)
    requires a != b && x < CLUSTER_SIZE && y < CLUSTER_SIZE
    ensures Addr(a) + x != Addr(b) + y
  {
    SlotAddr(a, x);
    SlotAddr(b, y);
  }

  lemma AddrIs(b: nat)
    ensures BlockOf(Addr(b)) == b && Addr(b) % CLUSTER_SIZE == 0
  {
  }

  lemma SlotAddr(b: nat, x: nat)
    requires x < CLUSTER_SIZE
    ensures BlockOf(Addr(b) + x) == b && (Addr(b) + x) % CLUSTER_SIZE == x
  {
  }

  lemma PutSlotAt(blocks: seq<Cluster>, b: nat, k: nat, e: Slot)
    requires b < |blocks| && blocks[b].Entries? && |blocks[b].slots| == SLOTS && k < SLOTS
    ensures PutSlot(blocks, Addr(b) + k * ENTRY_SIZE, e) == blocks[b := Entries(blocks[b].slots[k := e])]
  {
    SlotAddr(b, k * ENTRY_SIZE);
  }

  lemma PutClusterAt(blocks: seq<Cluster>, b: nat, c: Cluster)
    requires b < |blocks|
    ensures PutCluster(blocks, Addr(b), c) == blocks[b := c]
  {
    AddrIs(b);
  }

  /** The address recorded in an inode leads a deletion back to the block's bit. */
  lemma FreeBlockAt(s: State, b: nat)
    requires s.sbi.clusterSize == CLUSTER_SIZE && s.sbi.dareaStart == DAREA_OFFSET * CLUSTER_SIZE
    ensures FreeBlock(s, Addr(b)) ==
            s.(mem := s.mem.(dbits := s.mem.dbits - {b}, sb := s.mem.sb.(freeBlocks := s.mem.sb.freeBlocks + 1)))
  {
    assert (b * CLUSTER_SIZE) / CLUSTER_SIZE == b;
  }

  // ---------------------------------------------------------------- elementary updates

  /** An inode without a block takes a free one. */
  lemma ClaimBlock(itable: seq<Inode>, dbits: set<nat>, blocks: seq<Cluster>, i: nat, n: Inode, b: nat, c: Cluster)
    requires BlocksOk(itable, dbits, blocks)
    requires i < |itable| && !Owns(itable[i]) && Owns(n)
    requires b < |blocks| && b !in dbits && n.block == Addr(b) && Fits(n, c)
    ensures BlocksOk(itable[i := n], dbits + {b}, blocks[b := c])
  {
    AddrIs(b);
    var itable' := itable[i := n];
    forall j: nat | OwnerAt(itable', j) && j != i
      ensures OwnerAt(itable, j) && BlockAt(itable', j) == BlockAt(itable, j) != b
    {
      assert OwnerAt(itable, j);
    }
    forall x | x in dbits + {b}
      ensures Owned(itable', x)
    {
      if x == b {
        assert OwnerAt(itable', i) && BlockAt(itable', i) == b;
      } else {
        var j: nat :| OwnerAt(itable, j) && BlockAt(itable, j) == x;
        assert OwnerAt(itable', j) && BlockAt(itable', j) == x;
      }
    }
  }

  /** An owner gives its block back, zeroed. */
  lemma ReleaseBlock(itable: seq<Inode>, dbits: set<nat>, blocks: seq<Cluster>, i: nat, n: Inode)
    requires BlocksOk(itable, dbits, blocks)
    requires OwnerAt(itable, i) && !Owns(n)
    ensures var b := BlockAt(itable, i);
            0 <= b < |blocks| && BlocksOk(itable[i := n], dbits - {b}, blocks[b := ZERO_CLUSTER])
  {
    var b := BlockAt(itable, i);
    var itable' := itable[i := n];
    forall j: nat | OwnerAt(itable', j)
      ensures OwnerAt(itable, j) && j != i && BlockAt(itable', j) == BlockAt(itable, j) != b
    {
      assert j != i;
      assert OwnerAt(itable, j);
    }
    forall x | x in dbits - {b}
      ensures Owned(itable', x)
    {
      var j: nat :| OwnerAt(itable, j) && BlockAt(itable, j) == x;
      assert OwnerAt(itable', j) && BlockAt(itable', j) == x;
    }
  }

  /** An owner's block, or its inode, changes in place. */
  lemma TouchBlock(itable: seq<Inode>, dbits: set<nat>, blocks: seq<Cluster>, i: nat, n: Inode, c: Cluster)
    requires BlocksOk(itable, dbits, blocks)
    requires OwnerAt(itable, i) && Owns(n) && n.block == itable[i].block && Fits(n, c)
    ensures var b := BlockAt(itable, i);
            0 <= b < |blocks| && BlocksOk(itable[i := n], dbits, blocks[b := c])
  {
    var b := BlockAt(itable, i);
    var itable' := itable[i := n];
    forall j: nat | OwnerAt(itable', j)
      ensures OwnerAt(itable, j) && BlockAt(itable', j) == BlockAt(itable, j) && (j != i ==> BlockAt(itable, j) != b)
    {
      assert OwnerAt(itable, j);
    }
    forall x | x in dbits
      ensures Owned(itable', x)
    {
      var j: nat :| OwnerAt(itable, j) && BlockAt(itable, j) == x;
      assert OwnerAt(itable', j) && BlockAt(itable', j) == x;
    }
  }

  /** An inode without a block becomes another one without a block. */
  lemma TouchBlockless(itable: seq<Inode>, dbits: set<nat>, blocks: seq<Cluster>, i: nat, n: Inode)
    requires BlocksOk(itable, dbits, blocks)
    requires i < |itable| && !Owns(itable[i]) && !Owns(n)
    ensures BlocksOk(itable[i := n], dbits, blocks)
  {
    var itable' := itable[i := n];
    forall j: nat | OwnerAt(itable', j)
      ensures OwnerAt(itable, j) && BlockAt(itable', j) == BlockAt(itable, j)
    {
      assert j != i;
      assert OwnerAt(itable, j);
    }
    forall x | x in dbits
      ensures Owned(itable', x)
    {
      var j: nat :| OwnerAt(itable, j) && BlockAt(itable, j) == x;
      assert OwnerAt(itable', j) && BlockAt(itable', j) == x;
    }
  }

  // ---------------------------------------------------------------- the invariant

  ghost predicate SuperOk(sb: Super, n: nat) {
    && sb.signature == SIGNATURE && sb.sectorSize == SECTOR_SIZE && sb.sizeShift == BLK_SIZE_SHIFT
    && sb.rootIno == ROOT_INO && sb.ibitmapSize == 1 && sb.dareaStart == DAREA_OFFSET && sb.dareaSize == n
    && sb.lastBlk < n
  }

  ghost predicate Geometry(s: State) {
    && |s.mem.itable| == INODES && 2 <= |s.blocks| <= 8 * CLUSTER_SIZE && |s.files| == MAX_OPEN_FILE
    && SuperOk(s.mem.sb, |s.blocks|) && SuperOk(s.disk.sb, |s.blocks|)
    && s.sbi == SbInfo(CLUSTER_SIZE, ROOT_INO, CLUSTER_SIZE, DAREA_OFFSET * CLUSTER_SIZE, |s.blocks| * CLUSTER_SIZE,
                       s.sbi.lastIno, s.sbi.lastBlk)
    && s.sbi.lastBlk < |s.blocks|
  }

  const RESERVED: set<nat> := {0, 1, 2}

  /** Inode numbers below the hint may be in use, none at or above it is; an inode in use has its bit
      set and its number in it, an unused one past the reserved three is all zero. */
  ghost predicate InodesOk(s: State) {
    && NUM_RESV_INO <= s.sbi.lastIno <= INODES && s.sbi.lastIno == s.mem.sb.lastIno
    && RESERVED <= s.mem.ibits && (forall i :: i in s.mem.ibits ==> i < s.sbi.lastIno)
    && (forall i: nat :: i < |s.mem.itable| && s.mem.itable[i].kind != Unused ==>
          ROOT_INO <= i && i in s.mem.ibits && s.mem.itable[i].ino == i)
    && (forall i: nat :: i < |s.mem.itable| && s.mem.itable[i].kind == File ==> s.mem.itable[i].links == 1)
    && (forall i: nat :: NUM_RESV_INO <= i < |s.mem.itable| && s.mem.itable[i].kind == Unused ==> s.mem.itable[i] == ZERO_INODE)
    && (forall i: nat :: i < |s.mem.itable| ==> s.mem.itable[i].links < U32)
  }

  /** The device agrees with memory, except that it may lag behind on inodes whose mkdir failed. */
  ghost predicate DiskOk(s: State) {
    && s.disk.itable == s.mem.itable && s.disk.dbits == s.mem.dbits
    && s.disk.sb.(lastIno := s.mem.sb.lastIno, freeInodes := s.mem.sb.freeInodes) == s.mem.sb
    && NUM_RESV_INO <= s.disk.sb.lastIno <= s.mem.sb.lastIno
    && s.disk.ibits <= s.mem.ibits && RESERVED <= s.disk.ibits
    && (forall i :: i in s.disk.ibits ==> i < s.disk.sb.lastIno)
    && (forall i: nat :: i < |s.mem.itable| && s.mem.itable[i].kind != Unused ==> i in s.disk.ibits)
  }

  /** Handles in use stand for different files and know their sizes. */
  ghost predicate HandlesOk(s: State) {
    && (forall f :: 0 <= f < |s.files| && s.files[f].used ==>
          START_OPEN_FILE <= f && IsFile(s.mem.itable, s.files[f].ino) && s.files[f].size == s.mem.itable[s.files[f].ino].size)
    && (forall f, g :: 0 <= f < g < |s.files| && s.files[f].used && s.files[g].used ==> s.files[f].ino != s.files[g].ino)
  }

  ghost predicate TreeOk(s: State) {
    Tree(View(s), FileSet(s.mem.itable))
  }

  /** The fsck-style invariant of every reachable state. */
  ghost predicate Consistent(s: State) {
    && Geometry(s) && InodesOk(s) && BlocksOk(s.mem.itable, s.mem.dbits, s.blocks)
    && DiskOk(s) && HandlesOk(s) && TreeOk(s)
  }
}
