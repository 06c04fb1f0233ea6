/** Open files: do_openfile, lab4_do_close, do_write and do_read. */
module FileStep {
  import opened Layout
  import opened Paths
  import opened Namespace
  import opened FsSpec
  import opened Fsck
  import opened StepFacts
  import opened Updates
  import opened NameTree
  import CreateStep
  import MkdirStep
  import RemoveStep

  // ---------------------------------------------------------------- writing

  ghost predicate OpenHandle(s: State, fid: nat) {
    Consistent(s) && fid < |s.files| && s.files[fid].used
  }

  function HandleIno(s: State, fid: nat): nat
    requires fid < |s.files|
  {
    s.files[fid].ino
  }

  function FileData(s: State, fid: nat): seq<bv8>
    requires fid < |s.files|
  {
    Content(s.mem.itable, s.blocks, HandleIno(s, fid))
  }

  lemma HandleFacts(s: State, fid: nat)
    requires OpenHandle(s, fid)
    ensures IsFile(s.mem.itable, HandleIno(s, fid)) && s.mem.itable[HandleIno(s, fid)].ino == HandleIno(s, fid)
    ensures s.files[fid].size == s.mem.itable[HandleIno(s, fid)].size == |FileData(s, fid)| <= CLUSTER_SIZE
  {
    hide TreeOk, DirShape, DiskOk;
    RemoveStep.FileFacts(s, HandleIno(s, fid));
  }

  /** A non-empty write inside one cluster: past the end, or over the whole file from its start. */
  ghost predicate CanWrite(s: State, fid: nat, buf: seq<bv8>, offset: nat) {
    && OpenHandle(s, fid) && buf != [] && offset + |buf| <= CLUSTER_SIZE
    && (offset == 0 || |FileData(s, fid)| <= offset)
  }

  /** The bytes of the file after the write. */
  function Written(prior: seq<bv8>, buf: seq<bv8>, offset: nat): seq<bv8>
    requires offset + |buf| <= CLUSTER_SIZE
  {
    if |prior| <= offset then prior + Zeros(offset - |prior|) + buf else StrCopy(buf)[..|buf|]
  }

  /** What a write leaves, byte by byte: past the end the old bytes, zeros up to the offset and the buffer; over the
      file as many bytes as the buffer has, its own up to the first NUL and NULs from there on. */
  ghost predicate LeftBy(prior: seq<bv8>, buf: seq<bv8>, offset: nat, data: seq<bv8>) {
    if |prior| <= offset then
      && |data| == offset + |buf|
      && forall k :: 0 <= k < |data| ==> data[k] == if k < |prior| then prior[k] else if k < offset then 0 else buf[k - offset]
    else
      && |data| == |buf|
      && forall k :: 0 <= k < |data| ==> data[k] == if exists i :: 0 <= i <= k && buf[i] == 0 then 0 else buf[k]
  }

  lemma WrittenBytes(prior: seq<bv8>, buf: seq<bv8>, offset: nat)
    requires offset + |buf| <= CLUSTER_SIZE
    ensures LeftBy(prior, buf, offset, Written(prior, buf, offset))
  {
    var n, data := StrLen(buf), Written(prior, buf, offset);
    if |prior| > offset {
      assert |data| == |buf| && forall k :: 0 <= k < |buf| ==> data[k] == if k < n then buf[k] else 0;
      assert n < |buf| ==> buf[n] == 0;
    }
  }

  /** The cluster after the write. */
  function NewCluster(data: seq<bv8>, size: nat, buf: seq<bv8>, offset: nat): seq<bv8>
    requires |data| == CLUSTER_SIZE && offset + |buf| <= CLUSTER_SIZE
  {
    if size <= offset then Overwrite(data, offset, buf) else StrCopy(buf)
  }

  function NewSize(size: nat, buf: seq<bv8>, offset: nat): nat {
    if size <= offset then offset + |buf| else |buf|
  }

  lemma NewClusterFits(data: seq<bv8>, size: nat, buf: seq<bv8>, offset: nat)
    requires |data| == CLUSTER_SIZE && offset + |buf| <= CLUSTER_SIZE && size <= CLUSTER_SIZE
    requires forall j :: size <= j < CLUSTER_SIZE ==> data[j] == 0
    ensures var d := NewCluster(data, size, buf, offset);
            && |d| == CLUSTER_SIZE
            && (forall j :: NewSize(size, buf, offset) <= j < CLUSTER_SIZE ==> d[j] == 0)
            && d[..NewSize(size, buf, offset)] == Written(data[..size], buf, offset)
  {
    if size <= offset {
      assert data[..offset] == data[..size] + Zeros(offset - size);
    }
  }

  /** File i gets the cluster `data` and the inode n, in its own block or in a free one. */
  lemma BytesOwned(itable: seq<Inode>, dbits: set<nat>, blocks: seq<Cluster>, i: nat, n: Inode, b: nat, data: seq<bv8>)
    requires BlocksOk(itable, dbits, blocks) && IsFile(itable, i) && n.kind == File && n.size > 0
    requires b < |blocks| && n.block == Addr(b) && Fits(n, Bytes(data))
    requires if itable[i].size == 0 then b !in dbits else itable[i].block == n.block
    ensures BlocksOk(itable[i := n], dbits + {b}, blocks[b := Bytes(data)])
    ensures itable[i].size > 0 ==> dbits + {b} == dbits
    ensures forall j :: j != i && OwnerAt(itable, j) ==> BlockAt(itable, j) != b
  {
    AddrIs(b);
    if itable[i].size == 0 {
      ClaimBlock(itable, dbits, blocks, i, n, b, Bytes(data));
    } else {
      assert OwnerAt(itable, i) && BlockAt(itable, i) == b;
      assert dbits + {b} == dbits;
      TouchBlock(itable, dbits, blocks, i, n, Bytes(data));
    }
  }

  lemma SetBytes(itable: seq<Inode>, dbits: set<nat>, blocks: seq<Cluster>, i: nat, n: Inode, b: nat, data: seq<bv8>)
    requires BlocksOk(itable, dbits, blocks) && IsFile(itable, i) && n.kind == File && n.size > 0
    requires b < |blocks| && n.block == Addr(b) && Fits(n, Bytes(data))
    requires if itable[i].size == 0 then b !in dbits else itable[i].block == n.block
    ensures var itable', blocks' := itable[i := n], blocks[b := Bytes(data)];
            && BlocksOk(itable', dbits + {b}, blocks')
            && (itable[i].size > 0 ==> dbits + {b} == dbits)
            && DirView(itable', blocks') == DirView(itable, blocks)
            && FileSet(itable') == FileSet(itable)
            && SameBytes(itable, blocks, itable', blocks', FileSet(itable) - {i})
            && Content(itable', blocks', i) == data[..n.size]
  {
    hide BlocksOk, SlotsAt;
    var itable', blocks' := itable[i := n], blocks[b := Bytes(data)];
    AddrIs(b);
    BytesOwned(itable, dbits, blocks, i, n, b, data);
    BlockFacts(itable, dbits, blocks);
    forall j: nat | j < |itable| && itable[j].kind != Unused && j != i
      ensures IsDir(itable, j) ==> SlotsAt(blocks', itable'[j].block) == SlotsAt(blocks, itable[j].block)
      ensures IsFile(itable, j) ==> Content(itable', blocks', j) == Content(itable, blocks, j)
    {
      Untouched(itable, dbits, blocks, itable', blocks', j, b);
    }
  }

  function WroteState(s: State, fid: nat, buf: seq<bv8>, offset: nat, b: nat, data: seq<bv8>): State
    requires fid < |s.files| && HandleIno(s, fid) < |s.mem.itable| && b < |s.blocks|
  {
    var f, i := s.files[fid], HandleIno(s, fid);
    var n := s.mem.itable[i];
    var size := NewSize(n.size, buf, offset);
    var sb := if n.size == 0 then s.mem.sb.(freeBlocks := s.mem.sb.freeBlocks - 1) else s.mem.sb;
    var mem := Meta(sb, s.mem.ibits, s.mem.dbits + {b}, s.mem.itable[i := n.(size := size, block := Addr(b))]);
    State(mem, mem.(ibits := s.disk.ibits), s.sbi, s.blocks[b := Bytes(data)],
          s.files[fid := f.(rwoffset := size, size := size)])
  }

  lemma PutBytesAt(blocks: seq<Cluster>, b: nat, offset: nat, buf: seq<bv8>)
    requires b < |blocks| && blocks[b].Bytes? && |blocks[b].data| == CLUSTER_SIZE
    requires buf != [] && offset + |buf| <= CLUSTER_SIZE
    ensures PutBytes(blocks, Addr(b) + offset, buf) == blocks[b := Bytes(Overwrite(blocks[b].data, offset, buf))]
  {
    SlotAddr(b, offset);
  }

  /** The block a write goes to, and what is in it. */
  ghost predicate WriteTarget(s: State, fid: nat, b: nat) {
    && fid < |s.files| && HandleIno(s, fid) < |s.mem.itable| && b < |s.blocks|
    && s.blocks[b].Bytes? && |s.blocks[b].data| == CLUSTER_SIZE
    && var n := s.mem.itable[HandleIno(s, fid)];
       && (forall j :: n.size <= j < CLUSTER_SIZE ==> s.blocks[b].data[j] == 0) && n.size <= CLUSTER_SIZE
       && s.blocks[b].data[..n.size] == FileData(s, fid)
       && if n.size == 0 then b !in s.mem.dbits else b in s.mem.dbits && n.block == Addr(b)
  }

  lemma StoreSpelledOut(s: State, fid: nat, n: Inode, buf: seq<bv8>, offset: nat, b: nat)
    requires fid < |s.files| && n.ino < |s.mem.itable| && b < |s.blocks|
    requires s.blocks[b].Bytes? && |s.blocks[b].data| == CLUSTER_SIZE && n.block == Addr(b)
    requires buf != [] && offset + |buf| <= CLUSTER_SIZE && (offset == 0 || n.size <= offset) && s.files[fid].size == n.size
    ensures var size, data := NewSize(n.size, buf, offset), NewCluster(s.blocks[b].data, n.size, buf, offset);
            var mem := s.mem.(itable := s.mem.itable[n.ino := n.(size := size)]);
            StoreBytes(s, fid, n, buf, offset) ==
            (State(mem, mem.(ibits := s.disk.ibits), s.sbi, s.blocks[b := Bytes(data)],
                   s.files[fid := s.files[fid].(rwoffset := size, size := size)]),
             Some(if n.size <= offset then |buf| else CLUSTER_SIZE))
  {
    hide StrCopy, Addr, PutBytes, PutCluster;
    if n.size <= offset {
      PutBytesAt(s.blocks, b, offset, buf);
    } else {
      PutClusterAt(s.blocks, b, Bytes(StrCopy(buf)));
    }
  }

  /** do_write: it fails iff the file is empty and no block is free; else the whole new state. An empty file gets the
      first free block from the cached hint on. */
  lemma WriteCases(s: State, fid: nat, buf: seq<bv8>, offset: nat) returns (b: nat)
    requires CanWrite(s, fid, buf, offset)
    ensures var (s', result) := Write(s, fid, buf, offset);
            if |FileData(s, fid)| == 0 && MkdirStep.Full(s)
            then result == None && s' == s.(files := s.files[fid := s.files[fid].(rwoffset := offset)])
            else && WriteTarget(s, fid, b)
                 && s' == WroteState(s, fid, buf, offset, b, NewCluster(s.blocks[b].data, |FileData(s, fid)|, buf, offset))
                 && result == Some(if |FileData(s, fid)| <= offset then |buf| else CLUSTER_SIZE)
                 && (|FileData(s, fid)| == 0 ==> TakenNext(s, b))
  {
    hide TreeOk, DirShape, BlocksOk, StoreBytes, StrCopy, Addr, NewCluster;
    HandleFacts(s, fid);
    AllocTakesFreeBlock(s);
    var n := s.mem.itable[HandleIno(s, fid)];
    var s0 := s.(files := s.files[fid := s.files[fid].(rwoffset := offset)]);
    assert AllocBlock(s0).1 == AllocBlock(s).1;
    b := 0;
    if n.size > 0 {
      RemoveStep.FileFacts(s, HandleIno(s, fid));
      b := BlockAt(s.mem.itable, HandleIno(s, fid));
      OwnBlock(s, fid, b);
      StoreSpelledOut(s0, fid, n, buf, offset, b);
      assert n.(block := Addr(b)) == n && s.mem.dbits + {b} == s.mem.dbits;
    } else if AllocBlock(s).1.Some? {
      b := AllocBlock(s).1.value;
      FreshBlock(s, fid, b);
      AddrValue(b);
      StoreSpelledOut(AllocBlock(s0).0, fid, n.(block := Addr(b)), buf, offset, b);
    }
  }

  lemma AddrValue(b: nat)
    ensures Addr(b) == b * CLUSTER_SIZE + DAREA_OFFSET * CLUSTER_SIZE
  {
  }

  lemma OwnBlock(s: State, fid: nat, b: nat)
    requires OpenHandle(s, fid) && HandleIno(s, fid) < |s.mem.itable| && s.mem.itable[HandleIno(s, fid)].size > 0
    requires b == BlockAt(s.mem.itable, HandleIno(s, fid))
    ensures WriteTarget(s, fid, b)
  {
    hide TreeOk, DirShape, DiskOk, InodesOk, OwnersDistinct, BitsOk;
    assert OwnerAt(s.mem.itable, HandleIno(s, fid));
  }

  lemma FreshBlock(s: State, fid: nat, b: nat)
    requires OpenHandle(s, fid) && HandleIno(s, fid) < |s.mem.itable| && s.mem.itable[HandleIno(s, fid)].size == 0
    requires b < |s.blocks| && b !in s.mem.dbits
    ensures WriteTarget(s, fid, b)
  {
    hide TreeOk, DirShape, DiskOk, InodesOk, OwnersDistinct, OwnersOk;
    assert s.blocks[b] == ZERO_CLUSTER;
    assert s.blocks[b].data[..0] == FileData(s, fid);
  }

  lemma WroteView(s: State, fid: nat, buf: seq<bv8>, offset: nat, b: nat)
    requires CanWrite(s, fid, buf, offset) && WriteTarget(s, fid, b)
    ensures var s' := WroteState(s, fid, buf, offset, b, NewCluster(s.blocks[b].data, |FileData(s, fid)|, buf, offset));
            && BlocksOk(s'.mem.itable, s'.mem.dbits, s'.blocks)
            && View(s') == View(s) && FileSet(s'.mem.itable) == FileSet(s.mem.itable)
            && SameBytes(s.mem.itable, s.blocks, s'.mem.itable, s'.blocks, FileSet(s.mem.itable) - {HandleIno(s, fid)})
            && Content(s'.mem.itable, s'.blocks, HandleIno(s, fid)) == Written(FileData(s, fid), buf, offset)
  {
    hide TreeOk, DirShape, BlocksOk, DiskOk, InodesOk, HandlesOk, StrCopy, Addr, NewCluster, Content;
    HandleFacts(s, fid);
    var i, data := HandleIno(s, fid), s.blocks[b].data;
    var n := s.mem.itable[i];
    NewClusterFits(data, n.size, buf, offset);
    SetBytes(s.mem.itable, s.mem.dbits, s.blocks, i, n.(size := NewSize(n.size, buf, offset), block := Addr(b)), b,
             NewCluster(data, n.size, buf, offset));
  }

  lemma WroteBooks(s: State, fid: nat, buf: seq<bv8>, offset: nat, b: nat, data: seq<bv8>)
    requires CanWrite(s, fid, buf, offset) && WriteTarget(s, fid, b)
    ensures var s' := WroteState(s, fid, buf, offset, b, data); Geometry(s') && InodesOk(s') && DiskOk(s') && HandlesOk(s')
  {
    hide BlocksOk, TreeOk, DirShape, Addr;
    HandleFacts(s, fid);
  }

  /** Whatever do_write returns, the state stays consistent. */
  lemma WriteConsistent(s: State, fid: nat, buf: seq<bv8>, offset: nat)
    requires CanWrite(s, fid, buf, offset)
    ensures Consistent(Write(s, fid, buf, offset).0)
  {
    hide BlocksOk, Tree, DirView, WroteState, Write, NewCluster, SameBytes, Content, DirShape;
    var b := WriteCases(s, fid, buf, offset);
    if Write(s, fid, buf, offset).1.Some? {
      WroteView(s, fid, buf, offset, b);
      WroteBooks(s, fid, buf, offset, b, NewCluster(s.blocks[b].data, |FileData(s, fid)|, buf, offset));
    }
  }

  lemma OtherNode(s: State, s': State, i: nat, p: Path, q: Path)
    requires TreeOk(s) && View(s') == View(s) && FileSet(s'.mem.itable) == FileSet(s.mem.itable)
    requires SameBytes(s.mem.itable, s.blocks, s'.mem.itable, s'.blocks, FileSet(s.mem.itable) - {i})
    requires LegalPath(p) && Resolve(View(s), p) == Some(i) && LegalPath(q) && Resolve(View(s), q).Some? && p != q
    ensures NodeAt(s'.mem.itable, s'.blocks, Resolve(View(s), q).value) == NodeAt(s.mem.itable, s.blocks, Resolve(View(s), q).value)
  {
    var j := Resolve(View(s), q).value;
    if i == j { PathUnique(View(s), FileSet(s.mem.itable), p, q); }
    ResolvesToLive(View(s), FileSet(s.mem.itable), q);
    assert IsDir(s.mem.itable, j) <==> j in View(s);
    assert IsDir(s'.mem.itable, j) <==> j in View(s');
  }

  /** When only the bytes of file i change, only the node at its path does. */
  lemma NamesRewritten(s: State, s': State, i: nat, p: Path)
    requires TreeOk(s) && View(s') == View(s) && FileSet(s'.mem.itable) == FileSet(s.mem.itable) && IsFile(s.mem.itable, i)
    requires SameBytes(s.mem.itable, s.blocks, s'.mem.itable, s'.blocks, FileSet(s.mem.itable) - {i})
    requires LegalPath(p) && Resolve(View(s), p) == Some(i)
    ensures p in NamesOf(s) && NamesOf(s)[p] == FileNode(i, Content(s.mem.itable, s.blocks, i))
    ensures NamesOf(s') == NamesOf(s)[p := FileNode(i, Content(s'.mem.itable, s'.blocks, i))]
  {
    hide TreeOk, Content, SameBytes;
    assert i in FileSet(s'.mem.itable);
    forall q: Path | LegalPath(q) && Resolve(View(s), q).Some? && q != p
      ensures NodeAt(s'.mem.itable, s'.blocks, Resolve(View(s), q).value) == NodeAt(s.mem.itable, s.blocks, Resolve(View(s), q).value)
    {
      OtherNode(s, s', i, p, q);
    }
  }

  /** do_write changes the bytes of one file: an append adds its bytes after the old ones (and zeros in
      between), an overwrite from the start replaces them by the bytes up to the first NUL, zero-padded (LeftBy).
      The names, and the bytes of every other file, stay. */
  lemma WriteRefines(s: State, fid: nat, buf: seq<bv8>, offset: nat, p: Path)
    requires CanWrite(s, fid, buf, offset) && LegalPath(p) && Resolve(View(s), p) == Some(HandleIno(s, fid))
    ensures var (s', result) := Write(s, fid, buf, offset);
            && (result.None? <==> |FileData(s, fid)| == 0 && MkdirStep.Full(s))
            && p in NamesOf(s) && NamesOf(s)[p] == FileNode(HandleIno(s, fid), FileData(s, fid))
            && NamesOf(s') == if result.None? then NamesOf(s)
                              else NamesOf(s)[p := FileNode(HandleIno(s, fid), Written(FileData(s, fid), buf, offset))]
    ensures var (s', result) := Write(s, fid, buf, offset);
            result.Some? ==> && p in NamesOf(s') && NamesOf(s')[p].FileNode?
                             && LeftBy(FileData(s, fid), buf, offset, NamesOf(s')[p].data)
  {
    hide TreeOf, Write, WroteState, Written, NewCluster, DirView, SameBytes, Content, BlocksOk, Tree, HandlesOk,
         InodesOk, DiskOk, LeftBy;
    var (s', result) := Write(s, fid, buf, offset);
    HandleFacts(s, fid);
    WrittenBytes(FileData(s, fid), buf, offset);
    var b := WriteCases(s, fid, buf, offset);
    if result.Some? {
      WroteView(s, fid, buf, offset, b);
      NamesRewritten(s, s', HandleIno(s, fid), p);
    } else {
      SameBytesSelf(s.mem.itable, s.blocks, FileSet(s.mem.itable) - {HandleIno(s, fid)});
      NamesRewritten(s, s, HandleIno(s, fid), p);
    }
  }

  /** Writing over a file from its start leaves just the bytes written iff no byte after a NUL is anything but
      NUL: the source copies them as a string. */
  lemma OverwriteLeavesBufferIff(prior: seq<bv8>, buf: seq<bv8>)
    requires prior != [] && |buf| <= CLUSTER_SIZE
    ensures Written(prior, buf, 0) == buf <==> forall j, k :: 0 <= j < k < |buf| && buf[j] == 0 ==> buf[k] == 0
  {
    var n, w := StrLen(buf), Written(prior, buf, 0);
    assert |w| == |buf| && forall k :: 0 <= k < |buf| ==> w[k] == if k < n then buf[k] else 0;
    if w == buf {
      assert forall k :: n <= k < |buf| ==> buf[k] == 0;
    }
  }

  /** What a write ought to leave: the buffer at its offset over the old bytes, with zeros up to it if need be. */
  function Overlaid(prior: seq<bv8>, buf: seq<bv8>, offset: nat): seq<bv8> {
    if |prior| <= offset then prior + Zeros(offset - |prior|) + buf
    else prior[..offset] + buf + if offset + |buf| <= |prior| then prior[offset + |buf|..] else []
  }

  /** A write leaves what it ought to iff it is an append, or it reaches the end of the old bytes and no byte after
      a NUL in the buffer is anything but NUL: an overwrite drops what is past the buffer, and copies a string. */
  lemma WriteIsRightIff(prior: seq<bv8>, buf: seq<bv8>, offset: nat)
    requires buf != [] && offset + |buf| <= CLUSTER_SIZE && (offset == 0 || |prior| <= offset)
    ensures Written(prior, buf, offset) == Overlaid(prior, buf, offset) <==>
            || |prior| <= offset
            || (|prior| <= |buf| && forall j, k :: 0 <= j < k < |buf| && buf[j] == 0 ==> buf[k] == 0)
  {
    if |prior| > offset {
      OverwriteLeavesBufferIff(prior, buf);
      var right := Overlaid(prior, buf, offset);
      assert |right| == if |buf| <= |prior| then |prior| else |buf|;
      if |prior| <= |buf| { assert right == buf; }
    }
  }

  // ---------------------------------------------------------------- reading

  /** Any read of an empty file; of another one a read of at most a cluster that starts inside the file, where
      a read of a whole full cluster would leave the source's string scan without a terminator. */
  ghost predicate CanRead(s: State, fid: nat, size: nat, offset: nat) {
    && OpenHandle(s, fid)
    && (|FileData(s, fid)| > 0 ==>
          0 < size <= CLUSTER_SIZE && offset < |FileData(s, fid)| && (size < CLUSTER_SIZE || |FileData(s, fid)| < CLUSTER_SIZE))
  }

  predicate NulFree(data: seq<bv8>) {
    forall j :: 0 <= j < |data| ==> data[j] != 0
  }

  lemma StrLenIs(data: seq<bv8>, k: nat)
    requires k <= |data| && NulFree(data[..k]) && (k < |data| ==> data[k] == 0)
    ensures StrLen(data) == k
  {
    var m := StrLen(data);
    assert forall j :: 0 <= j < k ==> data[..k][j] == data[j];
  }

  /** do_read leaves everything but its handle's offset. */
  lemma ReadChangesNothing(s: State, fid: nat, size: nat, offset: nat)
    requires CanRead(s, fid, size, offset)
    ensures Consistent(Read(s, fid, size, offset).0) && NamesOf(Read(s, fid, size, offset).0) == NamesOf(s)
  {
    hide Tree, BlocksOk, BytesAt, StrLen;
  }

  /** The handle's offset after a read: where the read stopped, at most at the end of the cluster. */
  lemma ReadMovesHandle(s: State, fid: nat, size: nat, offset: nat)
    requires CanRead(s, fid, size, offset)
    ensures var s' := Read(s, fid, size, offset).0;
            && |s'.files| == |s.files|
            && s'.files[fid] == s.files[fid].(rwoffset := if |FileData(s, fid)| == 0 then offset
                                                          else if offset + size <= 4096 then offset + size else 4096)
            && s' == s.(files := s.files[fid := s'.files[fid]])
  {
    hide TreeOk, DirShape, BlocksOk, DiskOk, InodesOk, StrLen, Content, BytesAt;
    HandleFacts(s, fid);
  }

  /** The first `size` bytes of the file, or all of them. */
  function Head(data: seq<bv8>, size: nat): seq<bv8> {
    if size <= |data| then data[..size] else data
  }

  lemma HeadNulFree(data: seq<bv8>, size: nat)
    requires NulFree(data)
    ensures NulFree(Head(data, size)) && Head(data, size) <= data
  {
  }

  /** Whatever the offset, a read returns the first `size` bytes of the file up to their first NUL. */
  lemma ReadExact(s: State, fid: nat, size: nat, offset: nat)
    requires CanRead(s, fid, size, offset)
    ensures var head := Head(FileData(s, fid), size); Read(s, fid, size, offset).1 == head[..StrLen(head)]
  {
    hide TreeOk, DirShape, BlocksOk, DiskOk, InodesOk, StrLen;
    HandleFacts(s, fid);
    RemoveStep.FileFacts(s, HandleIno(s, fid));
    var n, data := s.mem.itable[HandleIno(s, fid)], FileData(s, fid);
    if n.size > 0 {
      var block := BytesAt(s.blocks, n.block);
      AddrIs(BlockAt(s.mem.itable, HandleIno(s, fid)));
      assert |block| == CLUSTER_SIZE && data == block[..n.size];
      var head, chunk := Head(data, size), block[..size];
      assert forall j :: 0 <= j < |head| ==> chunk[j] == head[j];
      StrLenIs(chunk, StrLen(head));
      assert chunk[..StrLen(head)] == head[..StrLen(head)];
    }
  }

  /** A read is right, that is returns the `size` bytes from `offset` on or what there is of them, iff these
      are also the first bytes of the file, hold no NUL, and end where the string scan does: at the end of what
      was read, or at a NUL. */
  lemma ReadIsRightIff(s: State, fid: nat, size: nat, offset: nat)
    requires CanRead(s, fid, size, offset) && offset <= |FileData(s, fid)|
    ensures var data := FileData(s, fid);
            var want := Head(data[offset..], size);
            Read(s, fid, size, offset).1 == want <==>
            want <= data && NulFree(want) && (|want| == |Head(data, size)| || data[|want|] == 0)
  {
    hide Consistent, Read, FileData;
    ReadExact(s, fid, size, offset);
    var data := FileData(s, fid);
    var head, want := Head(data, size), Head(data[offset..], size);
    assert |want| <= |head|;
    if head[..StrLen(head)] == want {
      assert want == data[..|want|];
    }
    if want <= data && NulFree(want) && (|want| == |head| || data[|want|] == 0) {
      assert head[..|want|] == want;
      StrLenIs(head, |want|);
    }
  }

  /** In particular, a read of a NUL-free file that reaches past its end is right iff its offset is 0. */
  lemma ReadIsRightAtZero(s: State, fid: nat, size: nat, offset: nat)
    requires CanRead(s, fid, size, offset) && NulFree(FileData(s, fid)) && offset + size > |FileData(s, fid)| > 0
    ensures Read(s, fid, size, offset).1 == FileData(s, fid)[offset..] <==> offset == 0
  {
    hide Consistent, Read, FileData;
    ReadIsRightIff(s, fid, size, offset);
    var data := FileData(s, fid);
    assert Head(data[offset..], size) == data[offset..];
    assert |Head(data, size)| > |data| - offset || offset == 0;
  }

  /** The state after appending the buffers one after the other at the end of the file. */
  function AppendAll(s: State, fid: nat, bufs: seq<seq<bv8>>): State
    requires fid < |s.files|
    decreases |bufs|
  {
    if bufs == [] then s
    else
      var s' := Write(s, fid, bufs[0], |FileData(s, fid)|).0;
      if fid < |s'.files| then AppendAll(s', fid, bufs[1..]) else s'
  }

  function Joined(bufs: seq<seq<bv8>>): seq<bv8> {
    if bufs == [] then [] else bufs[0] + Joined(bufs[1..])
  }

  lemma AppendOne(s: State, fid: nat, buf: seq<bv8>)
    requires OpenHandle(s, fid) && buf != [] && |FileData(s, fid)| + |buf| <= CLUSTER_SIZE
    requires |FileData(s, fid)| == 0 ==> !MkdirStep.Full(s)
    ensures var s' := Write(s, fid, buf, |FileData(s, fid)|).0;
            OpenHandle(s', fid) && FileData(s', fid) == FileData(s, fid) + buf
  {
    hide Consistent, Content, Write, WroteState, NewCluster, DirView, SameBytes, BlocksOk;
    var offset := |FileData(s, fid)|;
    WriteConsistent(s, fid, buf, offset);
    var b := WriteCases(s, fid, buf, offset);
    WroteView(s, fid, buf, offset, b);
    WroteHandle(s, fid, buf, offset, b, NewCluster(s.blocks[b].data, offset, buf, offset));
    assert Written(FileData(s, fid), buf, offset) == FileData(s, fid) + buf;
  }

  lemma WroteHandle(s: State, fid: nat, buf: seq<bv8>, offset: nat, b: nat, data: seq<bv8>)
    requires fid < |s.files| && HandleIno(s, fid) < |s.mem.itable| && b < |s.blocks|
    ensures var s' := WroteState(s, fid, buf, offset, b, data);
            |s'.files| == |s.files| && s'.files[fid].used == s.files[fid].used && HandleIno(s', fid) == HandleIno(s, fid)
  {
  }

  lemma {:induction false} AppendsJoin(s: State, fid: nat, bufs: seq<seq<bv8>>)
    requires OpenHandle(s, fid) && (forall i :: 0 <= i < |bufs| ==> bufs[i] != [])
    requires |FileData(s, fid)| + |Joined(bufs)| <= CLUSTER_SIZE
    requires |FileData(s, fid)| == 0 ==> !MkdirStep.Full(s)
    ensures OpenHandle(AppendAll(s, fid, bufs), fid)
    ensures FileData(AppendAll(s, fid, bufs), fid) == FileData(s, fid) + Joined(bufs)
    decreases |bufs|
  {
    hide Consistent, Content, Write;
    if bufs != [] {
      AppendOne(s, fid, bufs[0]);
      var s' := Write(s, fid, bufs[0], |FileData(s, fid)|).0;
      AppendsJoin(s', fid, bufs[1..]);
      assert FileData(s, fid) + bufs[0] + Joined(bufs[1..]) == FileData(s, fid) + Joined(bufs);
    }
  }

  lemma {:induction false} JoinedNulFree(bufs: seq<seq<bv8>>)
    requires forall i :: 0 <= i < |bufs| ==> NulFree(bufs[i])
    ensures NulFree(Joined(bufs))
  {
    if bufs != [] { JoinedNulFree(bufs[1..]); }
  }

  /** Write/read round trip: after any sequence of non-empty NUL-free appends to an empty file, n bytes
      in all and less than a cluster, a read of S bytes at offset 0 returns the first min(n, S) of them. */
  lemma WriteReadRoundTrip(s: State, fid: nat, bufs: seq<seq<bv8>>, size: nat)
    requires OpenHandle(s, fid) && FileData(s, fid) == [] && !MkdirStep.Full(s)
    requires (forall i :: 0 <= i < |bufs| ==> bufs[i] != [] && NulFree(bufs[i])) && |Joined(bufs)| < CLUSTER_SIZE
    requires 0 < size <= CLUSTER_SIZE
    ensures OpenHandle(AppendAll(s, fid, bufs), fid)
    ensures Read(AppendAll(s, fid, bufs), fid, size, 0).1 == Head(Joined(bufs), size)
  {
    hide Consistent, Content, Write, Read;
    AppendsJoin(s, fid, bufs);
    JoinedNulFree(bufs);
    assert [] + Joined(bufs) == Joined(bufs);
    assert Joined(bufs)[0..] == Joined(bufs);
    HeadNulFree(Joined(bufs), size);
    ReadIsRightIff(AppendAll(s, fid, bufs), fid, size, 0);
  }

  // ---------------------------------------------------------------- opening and closing

  /** One handle a file: an existing entry is not a file that is open already. */
  ghost predicate CanOpen(s: State, par: nat, name: string) {
    && MkdirStep.CanMkdir(s, par, name)
    && (RemoveStep.Target(s, par, name).Some? ==> !RemoveStep.IsOpen(s, RemoveStep.Target(s, par, name).value))
  }

  lemma OpenInodeConsistent(s: State, i: nat, append: bool, flags: nat)
    requires Consistent(s) && !RemoveStep.IsOpen(s, i)
    ensures var (s', fid) := OpenInode(s, i, append, flags);
            && Consistent(s') && NamesOf(s') == NamesOf(s)
            && (fid.Some? ==> fid.value < |s'.files| && s'.files[fid.value].used && HandleIno(s', fid.value) == i)
  {
    hide BlocksOk, Tree;
  }

  /** do_openfile adds an empty file iff it is missing and wanted, and otherwise changes no name. */
  lemma OpenConsistent(s: State, par: nat, name: string, create: bool, append: bool, flags: nat)
    requires CanOpen(s, par, name)
    ensures var (s', fid) := OpenFileIn(s, par, name, create, append, flags);
            && Consistent(s')
            && NamesOf(s') == if RemoveStep.Target(s, par, name).None? && create then NamesOf(CreateFile(s, par, name).0) else NamesOf(s)
  {
    hide Consistent, TreeOf, CreateFile, OpenInode;
    match FindSlot(DirSlots(s, par), name) {
      case Some(k) =>
        OpenInodeConsistent(s, DirSlots(s, par)[k].ino, append, flags);
      case None =>
        if create {
          CreateStep.CreateConsistent(s, par, name);
          var (s1, status) := CreateFile(s, par, name);
          if status == Success { CreateOpens(s, par, name); OpenInodeConsistent(s1, s1.sbi.lastIno - 1, append, flags); }
          else { CreateFails(s, par, name); }
        }
    }
  }

  /** Opening changes nothing but the handles, apart from what creating the file does. */
  lemma OpenOnlyHandles(s: State, par: nat, name: string, create: bool, append: bool, flags: nat)
    ensures var s' := OpenFileIn(s, par, name, create, append, flags).0;
            var base := if create && RemoveStep.Target(s, par, name).None? then CreateFile(s, par, name).0 else s;
            s'.mem == base.mem && s'.disk == base.disk && s'.sbi == base.sbi && s'.blocks == base.blocks
  {
    hide CreateFile;
  }

  lemma CreateOpens(s: State, par: nat, name: string)
    requires MkdirStep.CanMkdir(s, par, name) && CreateFile(s, par, name).1 == Success
    ensures CreateFile(s, par, name).0.sbi.lastIno > 0
    ensures !RemoveStep.IsOpen(CreateFile(s, par, name).0, CreateFile(s, par, name).0.sbi.lastIno - 1)
  {
    hide BlocksOk, TreeOk, DiskOk, CreateFile, DirShape;
    CreateStep.CreateCases(s, par, name);
    FreshInode(s);
  }

  lemma CreateFails(s: State, par: nat, name: string)
    requires MkdirStep.CanMkdir(s, par, name) && CreateFile(s, par, name).1 != Success
    ensures NamesOf(CreateFile(s, par, name).0) == NamesOf(s)
  {
    hide Consistent, TreeOf, CreateFile;
    CreateStep.CreateCases(s, par, name);
  }

  /** lab4_do_close frees the handle and changes nothing else. */
  lemma CloseConsistent(s: State, fid: nat)
    requires Consistent(s)
    ensures Consistent(Close(s, fid)) && NamesOf(Close(s, fid)) == NamesOf(s)
  {
    hide BlocksOk, Tree;
  }
}
