/** Directories as tables of slots, the path walk over them, and the tree they form. */
module Namespace {
  import opened Layout
  import opened Paths

  /** The slot table of every live directory, by inode number. */
  type Dirs = map<nat, seq<Slot>>

  // ---------------------------------------------------------------- one directory

  predicate Match(e: Slot, name: string) {
    e.flag == Used && e.name == name
  }

  /** The slot scan of lab4_lookup: the first USED slot with the name. */
  function FindSlot(slots: seq<Slot>, name: string): (r: Option<nat>)
    ensures r.Some? ==> r.value < |slots| && Match(slots[r.value], name) && forall j :: 0 <= j < r.value ==> !Match(slots[j], name)
    ensures r.None? ==> forall j :: 0 <= j < |slots| ==> !Match(slots[j], name)
  {
    if slots == [] then None
    else if Match(slots[0], name) then Some(0)
    else
      assert forall j :: 1 <= j < |slots| ==> slots[j] == slots[1..][j - 1];
      match FindSlot(slots[1..], name)
      case None => None
      case Some(k) => Some(k + 1)
  }

  /** The scan for a place to put a new entry: the first slot that is not USED, or the table size. */
  function FreeSlot(slots: seq<Slot>): (k: nat)
    ensures k <= |slots| && (k < |slots| ==> slots[k].flag != Used)
    ensures forall j :: 0 <= j < k ==> slots[j].flag == Used
  {
    if slots == [] || slots[0].flag != Used then 0 else FreeSlot(slots[1..]) + 1
  }

  function Child(slots: seq<Slot>, name: string): Option<nat> {
    match FindSlot(slots, name)
    case None => None
    case Some(k) => Some(slots[k].ino)
  }

  ghost predicate UniqueNames(slots: seq<Slot>) {
    forall j, k :: 0 <= j < k < |slots| && slots[j].flag == Used && slots[k].flag == Used ==> slots[j].name != slots[k].name
  }

  /** Dot entries in slots 0 and 1, legal and pairwise different names in the other USED slots. */
  ghost predicate DirShape(slots: seq<Slot>, self: nat) {
    && |slots| == SLOTS
    && slots[0].flag == Used && slots[0].name == "." && slots[0].ino == self
    && slots[1].flag == Used && slots[1].name == ".." && slots[1].ino < INODES
    && (forall k :: 2 <= k < SLOTS && slots[k].flag == Used ==> LegalName(slots[k].name))
    && UniqueNames(slots)
  }

  predicate NoEntries(slots: seq<Slot>) {
    forall k :: 2 <= k < |slots| ==> slots[k].flag != Used
  }

  lemma FindUnique(slots: seq<Slot>, k: nat, name: string)
    requires UniqueNames(slots) && k < |slots| && Match(slots[k], name)
    ensures FindSlot(slots, name) == Some(k)
  {
  }

  function Unlinked(e: Slot): Slot {
    e.(flag := Deleted)
  }

  /** Overwriting a slot changes the lookup of the name that goes and of the name that comes, no other. */
  lemma ChildAfterWrite(slots: seq<Slot>, k: nat, e: Slot, x: string)
    requires k < |slots| && UniqueNames(slots) && UniqueNames(slots[k := e])
    ensures Child(slots[k := e], x) ==
            if Match(e, x) then Some(e.ino) else if Match(slots[k], x) then None else Child(slots, x)
  {
    var t := slots[k := e];
    if Match(e, x) {
      FindUnique(t, k, x);
    } else if Match(slots[k], x) {
      FindUnique(slots, k, x);
      assert FindSlot(t, x) == None;
    } else {
      match FindSlot(slots, x) {
        case None => assert FindSlot(t, x) == None;
        case Some(j) =>
          assert t[j] == slots[j];
          FindUnique(t, j, x);
      }
    }
  }

  lemma ShapeAfterWrite(slots: seq<Slot>, self: nat, k: nat, e: Slot)
    requires DirShape(slots, self) && 2 <= k < SLOTS
    requires e.flag == Used ==> LegalName(e.name) && forall j :: 0 <= j < SLOTS && j != k ==> !Match(slots[j], e.name)
    ensures DirShape(slots[k := e], self)
  {
    var t := slots[k := e];
    forall i, j | 0 <= i < j < SLOTS && t[i].flag == Used && t[j].flag == Used
      ensures t[i].name != t[j].name
    {
      assert i != k ==> t[i] == slots[i];
      assert j != k ==> t[j] == slots[j];
      if i == k { assert !Match(slots[j], e.name); }
      if j == k { assert !Match(slots[i], e.name); }
    }
  }

  lemma DotSlotsShape(self: nat, parent: nat)
    requires parent < INODES
    ensures DirShape(DotSlots(self, parent), self)
    ensures forall x :: LegalName(x) ==> Child(DotSlots(self, parent), x) == None
  {
    var t := DotSlots(self, parent);
    forall x | LegalName(x)
      ensures Child(t, x) == None
    {
      assert forall k :: 0 <= k < SLOTS ==> !Match(t[k], x);
    }
  }

  // ---------------------------------------------------------------- the walk

  /** The inode a path leads to from the root, one lookup per component. */
  function Resolve(ns: Dirs, p: Path): Option<nat>
    decreases |p|
  {
    if p == [] then Some(ROOT_INO) else LookupIn(ns, Resolve(ns, p[..|p| - 1]), p[|p| - 1])
  }

  function LookupIn(ns: Dirs, d: Option<nat>, name: string): Option<nat> {
    if d.Some? && d.value in ns then Child(ns[d.value], name) else None
  }

  lemma ResolveSnoc(ns: Dirs, p: Path, x: string)
    ensures Resolve(ns, p + [x]) == LookupIn(ns, Resolve(ns, p), x)
  {
    assert (p + [x])[..|p|] == p;
  }

  lemma {:induction false} PrefixResolves(ns: Dirs, p: Path, k: nat)
    requires k <= |p| && Resolve(ns, p).Some?
    ensures Resolve(ns, p[..k]).Some?
    decreases |p|
  {
    if k == |p| {
      assert p[..k] == p;
    } else {
      PrefixResolves(ns, p[..|p| - 1], k);
      assert p[..|p| - 1][..k] == p[..k];
    }
  }

  // ---------------------------------------------------------------- the tree

  /** Slot k of directory d is a USED non-dot slot for inode i. */
  predicate Names(ns: Dirs, d: nat, k: nat, i: nat) {
    d in ns && 2 <= k < |ns[d]| && ns[d][k].flag == Used && ns[d][k].ino == i
  }

  ghost predicate Reached(ns: Dirs, i: nat) {
    exists p :: LegalPath(p) && Resolve(ns, p) == Some(i)
  }

  ghost predicate Shapes(ns: Dirs) {
    forall d :: d in ns ==> DirShape(ns[d], d)
  }

  /** Every USED non-dot slot names a live inode other than the root, and no inode has two such slots. */
  ghost predicate NamesLive(ns: Dirs, files: set<nat>) {
    && (forall d, k, i :: Names(ns, d, k, i) ==> i != ROOT_INO && (i in ns || i in files))
    && (forall d, k, e, j, i :: Names(ns, d, k, i) && Names(ns, e, j, i) ==> d == e && k == j)
  }

  ghost predicate AllReached(ns: Dirs, files: set<nat>) {
    forall i :: i in ns || i in files ==> Reached(ns, i)
  }

  /** Everything about the tree except that it hangs together. */
  ghost predicate Plan(ns: Dirs, files: set<nat>) {
    && ROOT_INO in ns && ns.Keys !! files
    && (forall i :: i in ns || i in files ==> ROOT_INO <= i < INODES)
    && Shapes(ns) && NamesLive(ns, files)
  }

  /** The directories and files form a tree: every inode but the root has exactly one entry, and
      every inode is reached from the root (so there is no cycle and no orphan). */
  ghost predicate Tree(ns: Dirs, files: set<nat>) {
    Plan(ns, files) && AllReached(ns, files)
  }

  /** The last lookup of a walk goes through a non-dot slot. */
  lemma LastStep(ns: Dirs, p: Path) returns (d: nat, k: nat)
    requires Shapes(ns) && LegalPath(p) && p != [] && Resolve(ns, p).Some?
    ensures Resolve(ns, p[..|p| - 1]) == Some(d) && Names(ns, d, k, Resolve(ns, p).value)
    ensures ns[d][k].name == p[|p| - 1]
  {
    d := Resolve(ns, p[..|p| - 1]).value;
    k := FindSlot(ns[d], p[|p| - 1]).value;
    assert LegalName(p[|p| - 1]);
  }

  /** A tree has one path to each inode. */
  lemma {:induction false} PathUnique(ns: Dirs, files: set<nat>, p: Path, q: Path)
    requires Plan(ns, files) && LegalPath(p) && LegalPath(q)
    requires Resolve(ns, p).Some? && Resolve(ns, p) == Resolve(ns, q)
    ensures p == q
    decreases |p|
  {
    if p == [] && q == [] {
    } else if p == [] {
      var d, k := LastStep(ns, q);
    } else if q == [] {
      var d, k := LastStep(ns, p);
    } else {
      var d, k := LastStep(ns, p);
      var e, j := LastStep(ns, q);
      PathUnique(ns, files, p[..|p| - 1], q[..|q| - 1]);
      assert p == p[..|p| - 1] + [p[|p| - 1]];
      assert q == q[..|q| - 1] + [q[|q| - 1]];
    }
  }

  /** A directory does not name itself. */
  lemma NoSelfEntry(ns: Dirs, files: set<nat>, d: nat, k: nat)
    requires Tree(ns, files) && d in ns
    ensures !Names(ns, d, k, d)
  {
    if Names(ns, d, k, d) {
      var p :| LegalPath(p) && Resolve(ns, p) == Some(d);
      var q := p + [ns[d][k].name];
      FindUnique(ns[d], k, ns[d][k].name);
      ResolveSnoc(ns, p, ns[d][k].name);
      PathUnique(ns, files, p, q);
    }
  }

  /** Each live inode but the root is named by a slot. */
  lemma NamedBySlot(ns: Dirs, files: set<nat>, i: nat) returns (d: nat, k: nat)
    requires Tree(ns, files) && (i in ns || i in files) && i != ROOT_INO
    ensures Names(ns, d, k, i)
  {
    var p :| LegalPath(p) && Resolve(ns, p) == Some(i);
    d, k := LastStep(ns, p);
  }

  // ---------------------------------------------------------------- no directory overflows

  /** At most 29 inode numbers can be named and there are 30 slots to name them from. */
  lemma NoOverflow(ns: Dirs, files: set<nat>, d: nat)
    requires Plan(ns, files) && d in ns
    ensures 2 <= FreeSlot(ns[d]) < SLOTS
  {
    var slots := ns[d];
    if FreeSlot(slots) == SLOTS {
      assert forall k :: 2 <= k < SLOTS ==> Names(ns, d, k, slots[k].ino);
      var inos := seq(SLOTS - 2, k requires 0 <= k < SLOTS - 2 => slots[k + 2].ino);
      forall j, k | 0 <= j < k < |inos|
        ensures inos[j] != inos[k]
      {
        assert Names(ns, d, j + 2, inos[j]) && Names(ns, d, k + 2, inos[k]);
      }
      forall k | 0 <= k < |inos|
        ensures ROOT_INO < inos[k] < INODES
      {
        assert Names(ns, d, k + 2, inos[k]);
      }
      Pigeonhole(inos, ROOT_INO + 1, INODES);
    }
  }

  // ---------------------------------------------------------------- counting

  function Range(n: nat): (r: set<nat>)
    ensures |r| == n && forall i: nat :: i in r <==> i < n
  {
    if n == 0 then {} else Range(n - 1) + {n - 1}
  }

  lemma {:induction false} SubsetCard(a: set<nat>, b: set<nat>)
    requires a <= b
    ensures |a| <= |b|
  {
    if x :| x in a {
      SubsetCard(a - {x}, b - {x});
    }
  }

  lemma SameCard(a: set<nat>, b: set<nat>)
    requires a <= b && |a| == |b|
    ensures a == b
  {
    assert |b - a| == 0;
  }

  lemma {:induction false} Pigeonhole(xs: seq<nat>, lo: nat, hi: nat)
    requires lo <= hi
    requires forall j, k :: 0 <= j < k < |xs| ==> xs[j] != xs[k]
    requires forall k :: 0 <= k < |xs| ==> lo <= xs[k] < hi
    ensures |xs| <= hi - lo
    decreases hi - lo
  {
    if xs != [] {
      assert lo <= xs[0] < hi;
      if k :| 0 <= k < |xs| && xs[k] == hi - 1 {
        Pigeonhole(xs[..k] + xs[k + 1..], lo, hi - 1);
      } else {
        Pigeonhole(xs, lo, hi - 1);
      }
    }
  }
}
