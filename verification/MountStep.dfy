/** Formatting and mounting: the initial state, and what a remount keeps. */
module MountStep {
  import opened Layout
  import opened Paths
  import opened Namespace
  import opened FsSpec
  import opened Fsck
  import opened NameTree

  // ---------------------------------------------------------------- format

  lemma FormatView(sectors: nat)
    requires Formattable(sectors)
    ensures DirView(FormatTable(), FormatBlocks(sectors)) == map[ROOT_INO := DotSlots(ROOT_INO, ROOT_INO)]
    ensures FileSet(FormatTable()) == {}
  {
    AddrIs(0);
    var t := FormatTable();
    assert t[ROOT_INO] == ROOT_INODE;
    assert forall i: nat :: i < INODES && i != ROOT_INO ==> t[i].kind == Unused;
  }

  lemma RootOnly(ns: Dirs)
    requires ns == map[ROOT_INO := DotSlots(ROOT_INO, ROOT_INO)]
    ensures Tree(ns, {})
  {
    DotSlotsShape(ROOT_INO, ROOT_INO);
    assert Resolve(ns, []) == Some(ROOT_INO) && LegalPath([]);
    assert forall d, k, i :: !Names(ns, d, k, i);
  }

  lemma FormatBlocksOk(sectors: nat)
    requires Formattable(sectors)
    ensures BlocksOk(FormatTable(), {0}, FormatBlocks(sectors))
  {
    var t := FormatTable();
    AddrIs(0);
    assert t[ROOT_INO] == ROOT_INODE;
    assert forall i: nat :: OwnerAt(t, i) <==> i == ROOT_INO;
    assert OwnerAt(t, ROOT_INO) && BlockAt(t, ROOT_INO) == 0;
    assert Owned(t, 0);
  }

  lemma FormatBooks(sectors: nat)
    requires Formattable(sectors)
    ensures var s := FormatAndMount(sectors); Geometry(s) && InodesOk(s) && DiskOk(s) && HandlesOk(s)
  {
    var t := FormatTable();
    assert t[ROOT_INO] == ROOT_INODE;
    assert forall i: nat :: i < INODES && i != ROOT_INO ==> t[i].kind == Unused;
    assert forall i: nat :: NUM_RESV_INO <= i < INODES ==> t[i] == ZERO_INODE;
    assert Pow2(3) == 8;
  }

  /** A freshly formatted, zeroed device mounts as a consistent file system with an empty root. */
  lemma FormatConsistent(sectors: nat)
    requires Formattable(sectors)
    ensures Consistent(FormatAndMount(sectors))
    ensures NamesOf(FormatAndMount(sectors)) == imap[[] := DirNode(ROOT_INO)]
  {
    var s := FormatAndMount(sectors);
    FormatBooks(sectors);
    FormatBlocksOk(sectors);
    FormatView(sectors);
    RootOnly(View(s));
    forall p: Path | LegalPath(p) && Resolve(View(s), p).Some?
      ensures p == []
    {
      if p != [] {
        var d, k := LastStep(View(s), p);
      }
    }
    assert Resolve(View(s), []) == Some(ROOT_INO) && LegalPath([]);
  }

  // ---------------------------------------------------------------- remount

  /** A remount of any consistent state, even after a mkdir that failed halfway, is consistent and
      shows the same names and bytes. */
  lemma RemountConsistent(s: State)
    requires Consistent(s)
    ensures Consistent(Remount(s)) && NamesOf(Remount(s)) == NamesOf(s)
  {
    hide BlocksOk, Tree;
    assert Pow2(3) == 8;
  }

  /** Memory and device hold the same four metadata clusters. */
  predicate Synced(s: State) {
    s.mem == s.disk
  }

  /** A remount of a synced state loses nothing but the open files; the block hint becomes the one
      that was recorded on the device. */
  lemma RemountTransparent(s: State)
    requires Consistent(s) && Synced(s)
    ensures Remount(s) == s.(sbi := s.sbi.(lastBlk := s.mem.sb.lastBlk), files := seq(MAX_OPEN_FILE, _ => CLOSED))
  {
    assert Pow2(3) == 8;
  }
}
