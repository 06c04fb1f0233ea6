/** The abstract file system: a tree of names, as a map from path to what is there. */
module NameTree {
  import opened Layout
  import opened Paths
  import opened Namespace
  import opened TreeSteps
  import opened FsSpec
  import opened Updates

  datatype Node = DirNode(ino: nat) | FileNode(ino: nat, data: seq<bv8>)

  function NodeAt(itable: seq<Inode>, blocks: seq<Cluster>, i: nat): Node {
    if IsDir(itable, i) then DirNode(i) else FileNode(i, Content(itable, blocks, i))
  }

  ghost function TreeOf(itable: seq<Inode>, blocks: seq<Cluster>): imap<Path, Node> {
    imap p: Path | LegalPath(p) && Resolve(DirView(itable, blocks), p).Some? ::
      NodeAt(itable, blocks, Resolve(DirView(itable, blocks), p).value)
  }

  /** Every path that resolves, with the inode number there and, for a file, its bytes. */
  ghost function NamesOf(s: State): imap<Path, Node> {
    TreeOf(s.mem.itable, s.blocks)
  }

  ghost predicate SameNodes(itable: seq<Inode>, blocks: seq<Cluster>, itable': seq<Inode>, blocks': seq<Cluster>,
                            dirs: set<nat>, files: set<nat>) {
    && (forall i :: i in dirs ==> IsDir(itable, i) && IsDir(itable', i))
    && (forall i :: i in files ==> !IsDir(itable, i) && !IsDir(itable', i))
    && SameBytes(itable, blocks, itable', blocks', files)
  }

  lemma SameNode(itable: seq<Inode>, blocks: seq<Cluster>, itable': seq<Inode>, blocks': seq<Cluster>,
                 dirs: set<nat>, files: set<nat>, i: nat)
    requires SameNodes(itable, blocks, itable', blocks', dirs, files) && (i in dirs || i in files)
    ensures NodeAt(itable', blocks', i) == NodeAt(itable, blocks, i)
  {
  }

  /** Whatever a legal path resolves to is a directory or a file of the tree. */
  lemma ResolvesToLive(ns: Dirs, files: set<nat>, p: Path)
    requires Plan(ns, files) && LegalPath(p) && Resolve(ns, p).Some?
    ensures Resolve(ns, p).value in ns || Resolve(ns, p).value in files
  {
    if p != [] {
      var d, k := LastStep(ns, p);
    }
  }

  // ---------------------------------------------------------------- listing a directory

  lemma {:induction false} ListedIff(itable: seq<Inode>, slots: seq<Slot>, e: (string, nat, bool))
    ensures e in Listing(itable, slots) <==> exists k :: 0 <= k < |slots| && slots[k].flag == Used && Listed(itable, slots[k]) == e
  {
    if slots != [] {
      ListedIff(itable, slots[1..], e);
      assert forall k :: 1 <= k < |slots| ==> slots[k] == slots[1..][k - 1];
    }
  }

  lemma {:induction false} ListingSnoc(itable: seq<Inode>, slots: seq<Slot>, e: Slot)
    ensures Listing(itable, slots + [e]) == Listing(itable, slots) + if e.flag == Used then [Listed(itable, e)] else []
  {
    if slots != [] {
      assert (slots + [e])[1..] == slots[1..] + [e];
      ListingSnoc(itable, slots[1..], e);
    }
  }

  /** How many of the first k slots are in use. */
  function UsedBefore(slots: seq<Slot>, k: nat): nat
    requires k <= |slots|
  {
    if k == 0 then 0 else UsedBefore(slots, k - 1) + if slots[k - 1].flag == Used then 1 else 0
  }

  /** What do_readdir hands out, entry by entry: of the first n slots, n being `offset` less than there are, those in
      use, in slot order, each with its name, its inode number, and whether that inode is a directory now. */
  lemma ReaddirEntries(itable: seq<Inode>, slots: seq<Slot>, offset: nat)
    ensures var l := Readdir(itable, slots, offset);
            if offset > |slots| then l == []
            else
              && |l| == UsedBefore(slots, |slots| - offset)
              && forall k :: 0 <= k < |slots| - offset && slots[k].flag == Used ==>
                   && UsedBefore(slots, k) < |l|
                   && l[UsedBefore(slots, k)] ==
                      (slots[k].name, slots[k].ino, slots[k].ino < |itable| && itable[slots[k].ino].kind == Directory)
  {
    if offset <= |slots| { FirstEntries(itable, slots, |slots| - offset); }
  }

  lemma {:induction false} FirstEntries(itable: seq<Inode>, slots: seq<Slot>, n: nat)
    requires n <= |slots|
    ensures var l := Listing(itable, slots[..n]);
            && |l| == UsedBefore(slots, n)
            && forall k :: 0 <= k < n && slots[k].flag == Used ==>
                 UsedBefore(slots, k) < |l| && l[UsedBefore(slots, k)] == Listed(itable, slots[k])
  {
    if n > 0 {
      FirstEntries(itable, slots, n - 1);
      ListingSnoc(itable, slots[..n - 1], slots[n - 1]);
      assert slots[..n] == slots[..n - 1] + [slots[n - 1]];
    }
  }

  /** do_readdir lists exactly the names below the directory, each with its inode and its type. */
  lemma ListingIsNames(itable: seq<Inode>, blocks: seq<Cluster>, d: nat, dp: Path, x: string, i: nat, isDir: bool)
    requires var ns := DirView(itable, blocks); d in ns && DirShape(ns[d], d) && LegalPath(dp) && Resolve(ns, dp) == Some(d)
    requires LegalName(x)
    ensures (x, i, isDir) in Readdir(itable, DirView(itable, blocks)[d], 0) <==>
            && dp + [x] in TreeOf(itable, blocks)
            && TreeOf(itable, blocks)[dp + [x]].ino == i && TreeOf(itable, blocks)[dp + [x]].DirNode? == isDir
  {
    hide DirView, Content;
    var slots := DirView(itable, blocks)[d];
    assert slots[..|slots|] == slots;
    ListedIff(itable, slots, (x, i, isDir));
    ResolveSnoc(DirView(itable, blocks), dp, x);
    assert LegalPath(dp + [x]);
    if k :| 0 <= k < |slots| && slots[k].flag == Used && Listed(itable, slots[k]) == (x, i, isDir) {
      FindUnique(slots, k, x);
    }
  }

  /** No name is listed twice. */
  lemma {:induction false} ListingNames(itable: seq<Inode>, slots: seq<Slot>)
    requires UniqueNames(slots)
    ensures var es := Listing(itable, slots); forall j, k :: 0 <= j < k < |es| ==> es[j].0 != es[k].0
  {
    if slots != [] {
      var rest := Listing(itable, slots[1..]);
      ListingNames(itable, slots[1..]);
      forall k | 0 <= k < |rest|
        ensures slots[0].flag == Used ==> rest[k].0 != slots[0].name
      {
        ListedIff(itable, slots[1..], rest[k]);
        var m :| 0 <= m < |slots[1..]| && slots[1..][m].flag == Used && Listed(itable, slots[1..][m]) == rest[k];
        assert slots[1..][m] == slots[m + 1];
      }
    }
  }

  /** From a later offset do_readdir lists what it should, the entries from there on, only when there are none:
      it begins with the first slot again. */
  lemma ReaddirIsRightIff(itable: seq<Inode>, slots: seq<Slot>, self: nat, offset: nat)
    requires DirShape(slots, self) && offset <= SLOTS
    ensures Readdir(itable, slots, offset) == Listing(itable, slots[offset..]) <==> offset == 0 || offset == SLOTS
  {
    var rest := Listing(itable, slots[offset..]);
    assert slots[..SLOTS] == slots == slots[0..];
    if 0 < offset < SLOTS && rest != [] {
      ListedIff(itable, slots[offset..], rest[0]);
      var k :| 0 <= k < |slots[offset..]| && slots[offset..][k].flag == Used && Listed(itable, slots[offset..][k]) == rest[0];
      assert slots[offset..][k] == slots[offset + k];
    }
  }

  // ---------------------------------------------------------------- what the steps do to the names

  ghost predicate Adds(itable: seq<Inode>, blocks: seq<Cluster>, itable': seq<Inode>, blocks': seq<Cluster>,
                       d: nat, k: nat, e: Slot, isDir: bool) {
    var ns := DirView(itable, blocks);
    && CanAdd(ns, FileSet(itable), d, k, e)
    && DirView(itable', blocks') == AddEntry(ns, d, k, e, isDir)
    && SameNodes(itable, blocks, itable', blocks', ns.Keys, FileSet(itable))
  }

  lemma NameAfterAdd(itable: seq<Inode>, blocks: seq<Cluster>, itable': seq<Inode>, blocks': seq<Cluster>,
                     d: nat, k: nat, e: Slot, isDir: bool, dp: Path, q: Path)
    requires Adds(itable, blocks, itable', blocks', d, k, e, isDir)
    requires LegalPath(dp) && Resolve(DirView(itable, blocks), dp) == Some(d) && LegalPath(q)
    ensures var ns: Dirs := DirView(itable, blocks);
            && Resolve(DirView(itable', blocks'), q) == (if q == dp + [e.name] then Some(e.ino) else Resolve(ns, q))
            && (Resolve(ns, q).Some? ==> NodeAt(itable', blocks', Resolve(ns, q).value) == NodeAt(itable, blocks, Resolve(ns, q).value))
  {
    var ns: Dirs := DirView(itable, blocks);
    AddResolves(ns, FileSet(itable), d, k, e, isDir, dp, q);
    if Resolve(ns, q).Some? {
      ResolvesToLive(ns, FileSet(itable), q);
      SameNode(itable, blocks, itable', blocks', ns.Keys, FileSet(itable), Resolve(ns, q).value);
    }
  }

  /** An added entry is one new leaf of the names. */
  lemma NamesAdded(itable: seq<Inode>, blocks: seq<Cluster>, itable': seq<Inode>, blocks': seq<Cluster>,
                   d: nat, k: nat, e: Slot, isDir: bool, dp: Path)
    requires Adds(itable, blocks, itable', blocks', d, k, e, isDir)
    requires LegalPath(dp) && Resolve(DirView(itable, blocks), dp) == Some(d) && LegalName(e.name)
    ensures dp + [e.name] !in TreeOf(itable, blocks)
    ensures TreeOf(itable', blocks') == TreeOf(itable, blocks)[dp + [e.name] := NodeAt(itable', blocks', e.ino)]
  {
    hide Tree, AddEntry, DirShape, SameNodes, NodeAt, Resolve;
    assert d in DirView(itable, blocks) by { assert CanAdd(DirView(itable, blocks), FileSet(itable), d, k, e); }
    ResolveSnoc(DirView(itable, blocks), dp, e.name);
    forall q: Path | LegalPath(q)
      ensures Resolve(DirView(itable', blocks'), q) == if q == dp + [e.name] then Some(e.ino) else Resolve(DirView(itable, blocks), q)
      ensures Resolve(DirView(itable, blocks), q).Some? ==>
                NodeAt(itable', blocks', Resolve(DirView(itable, blocks), q).value) ==
                NodeAt(itable, blocks, Resolve(DirView(itable, blocks), q).value)
    {
      NameAfterAdd(itable, blocks, itable', blocks', d, k, e, isDir, dp, q);
    }
  }

  ghost function Without(t: imap<Path, Node>, p: Path): imap<Path, Node> {
    imap q | q in t && q != p :: t[q]
  }

  ghost predicate Removes(itable: seq<Inode>, blocks: seq<Cluster>, itable': seq<Inode>, blocks': seq<Cluster>, d: nat, k: nat) {
    var ns := DirView(itable, blocks);
    && CanRemove(ns, FileSet(itable), d, k)
    && DirView(itable', blocks') == RemoveEntry(ns, d, k)
    && SameNodes(itable, blocks, itable', blocks', ns.Keys - {ns[d][k].ino}, FileSet(itable) - {ns[d][k].ino})
  }

  lemma RemovedPath(itable: seq<Inode>, blocks: seq<Cluster>, d: nat, k: nat, dp: Path)
    requires CanRemove(DirView(itable, blocks), FileSet(itable), d, k)
    requires LegalPath(dp) && Resolve(DirView(itable, blocks), dp) == Some(d)
    ensures k < |DirView(itable, blocks)[d]|
    ensures var ns := DirView(itable, blocks);
            LegalName(ns[d][k].name) && Resolve(ns, dp + [ns[d][k].name]) == Some(ns[d][k].ino)
  {
    var ns: Dirs := DirView(itable, blocks);
    assert DirShape(ns[d], d);
    FindUnique(ns[d], k, ns[d][k].name);
    ResolveSnoc(ns, dp, ns[d][k].name);
  }

  lemma NameAfterRemove(itable: seq<Inode>, blocks: seq<Cluster>, itable': seq<Inode>, blocks': seq<Cluster>,
                        d: nat, k: nat, dp: Path, q: Path)
    requires Removes(itable, blocks, itable', blocks', d, k)
    requires LegalPath(dp) && Resolve(DirView(itable, blocks), dp) == Some(d) && LegalPath(q)
    ensures var ns: Dirs := DirView(itable, blocks);
            && Resolve(DirView(itable', blocks'), q) == (if q == dp + [ns[d][k].name] then None else Resolve(ns, q))
            && (q != dp + [ns[d][k].name] && Resolve(ns, q).Some? ==>
                  NodeAt(itable', blocks', Resolve(ns, q).value) == NodeAt(itable, blocks, Resolve(ns, q).value))
  {
    var ns: Dirs := DirView(itable, blocks);
    var n, m := ns[d][k].name, ns[d][k].ino;
    RemoveResolves(ns, FileSet(itable), d, k, dp, q);
    if q != dp + [n] && Resolve(ns, q).Some? {
      RemovedPath(itable, blocks, d, k, dp);
      if Resolve(ns, q) == Some(m) { PathUnique(ns, FileSet(itable), q, dp + [n]); }
      ResolvesToLive(ns, FileSet(itable), q);
      SameNode(itable, blocks, itable', blocks', ns.Keys - {m}, FileSet(itable) - {m}, Resolve(ns, q).value);
    }
  }

  /** A removed entry is one leaf less. */
  lemma NamesRemoved(itable: seq<Inode>, blocks: seq<Cluster>, itable': seq<Inode>, blocks': seq<Cluster>, d: nat, k: nat, dp: Path)
    requires Removes(itable, blocks, itable', blocks', d, k)
    requires LegalPath(dp) && Resolve(DirView(itable, blocks), dp) == Some(d)
    ensures var e := DirView(itable, blocks)[d][k];
            && dp + [e.name] in TreeOf(itable, blocks)
            && TreeOf(itable, blocks)[dp + [e.name]] == NodeAt(itable, blocks, e.ino)
            && TreeOf(itable', blocks') == Without(TreeOf(itable, blocks), dp + [e.name])
  {
    hide Tree, RemoveEntry, DirShape, SameNodes, NodeAt, Resolve, DirView;
    RemovedPath(itable, blocks, d, k, dp);
    var p := dp + [DirView(itable, blocks)[d][k].name];
    forall q: Path | LegalPath(q)
      ensures Resolve(DirView(itable', blocks'), q) == if q == p then None else Resolve(DirView(itable, blocks), q)
      ensures q != p && Resolve(DirView(itable, blocks), q).Some? ==>
                NodeAt(itable', blocks', Resolve(DirView(itable, blocks), q).value) ==
                NodeAt(itable, blocks, Resolve(DirView(itable, blocks), q).value)
    {
      NameAfterRemove(itable, blocks, itable', blocks', d, k, dp, q);
    }
  }

  /** The names after the subtree at `from` has become the subtree at `to`. */
  ghost function Relocate(t: imap<Path, Node>, from: Path, to: Path): imap<Path, Node> {
    imap q: Path | LegalPath(q) && Relocated(from, to, q).Some? && Relocated(from, to, q).value in t ::
      t[Relocated(from, to, q).value]
  }

  /** A moved entry relocates everything at or below it. */
  lemma NamesMovedTo(itable: seq<Inode>, blocks: seq<Cluster>, blocks': seq<Cluster>,
                     sd: nat, k: nat, dd: nat, j: nat, name: string, sp: Path, dp: Path)
    requires var ns := DirView(itable, blocks);
             && CanMove(ns, FileSet(itable), sd, k, dd, j, name)
             && DirView(itable, blocks') == MoveEntry(ns, sd, k, dd, j, name)
             && LegalPath(sp) && Resolve(ns, sp) == Some(sd) && LegalPath(dp) && Resolve(ns, dp) == Some(dd)
             && !Below(sp + [ns[sd][k].name], dp)
             && SameBytes(itable, blocks, itable, blocks', FileSet(itable))
    ensures TreeOf(itable, blocks') ==
            Relocate(TreeOf(itable, blocks), sp + [DirView(itable, blocks)[sd][k].name], dp + [name])
  {
    hide Resolve, NodeAt, Content, MoveEntry;
    var ns: Dirs := DirView(itable, blocks);
    var from, to := sp + [ns[sd][k].name], dp + [name];
    assert DirShape(ns[sd], sd);
    assert LegalPath(from);
    forall q: Path | LegalPath(q)
      ensures var r := Relocated(from, to, q);
              && Resolve(DirView(itable, blocks'), q) == ResolveOpt(ns, r)
              && (r.Some? ==> LegalPath(r.value))
              && (ResolveOpt(ns, r).Some? ==>
                    NodeAt(itable, blocks', ResolveOpt(ns, r).value) == NodeAt(itable, blocks, ResolveOpt(ns, r).value))
    {
      MoveResolves(ns, FileSet(itable), sd, k, dd, j, name, sp, dp, q);
      RelocatedLegal(from, to, q);
      if ResolveOpt(ns, Relocated(from, to, q)).Some? {
        ResolvesToLive(ns, FileSet(itable), Relocated(from, to, q).value);
        KeptNode(itable, blocks, blocks', ResolveOpt(ns, Relocated(from, to, q)).value);
      }
    }
  }

  lemma KeptNode(itable: seq<Inode>, blocks: seq<Cluster>, blocks': seq<Cluster>, i: nat)
    requires i in DirView(itable, blocks) || i in FileSet(itable)
    requires SameBytes(itable, blocks, itable, blocks', FileSet(itable))
    ensures NodeAt(itable, blocks', i) == NodeAt(itable, blocks, i)
  {
  }

  lemma RelocatedLegal(from: Path, to: Path, q: Path)
    requires LegalPath(from) && LegalPath(q)
    ensures Relocated(from, to, q).Some? ==> LegalPath(Relocated(from, to, q).value)
  {
    if Below(to, q) { LegalSuffix(q, |to|); }
  }
}
