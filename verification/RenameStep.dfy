/** do_rename relocates a subtree; when it keeps the invariant, and where the entry lands. */
module RenameStep {
  import opened Layout
  import opened Paths
  import opened Namespace
  import opened TreeSteps
  import opened FsSpec
  import opened Fsck
  import opened StepFacts
  import opened Updates
  import opened NameTree
  import RemoveStep

  /** Components a walk goes through, as far as they exist, are directories. */
  ghost predicate WalkSafe(s: State, p: Path) {
    forall k :: 0 <= k < |p| && Resolve(View(s), p[..k]).Some? ==> IsDir(s.mem.itable, Resolve(View(s), p[..k]).value)
  }

  /** What the kernel guarantees of two paths it hands to rename: slashes only between legal names,
      directories on the way, and an existing parent of the target. */
  ghost predicate CanRename(s: State, from: string, to: string) {
    && Consistent(s) && PathFits(from) && PathFits(to)
    && LegalPath(Tokens(from)) && LegalName(BaseName(from)) && LegalPath(Tokens(to)) && LegalName(BaseName(to))
    && WalkSafe(s, Tokens(from)) && WalkSafe(s, Tokens(to)) && Walk(s, DirName(to)).Some?
  }

  /** The directory the entry goes to: the target if it exists, else the target's parent. */
  function LandingDir(s: State, to: string): Path
    requires '/' in to
  {
    if Walk(s, to).Some? then Tokens(to) else Tokens(DirName(to))
  }

  /** The name it has there: a new one only when it stays in its directory and the target does not exist. */
  function LandingName(s: State, from: string, to: string): string
    requires '/' in from && '/' in to
  {
    if Walk(s, to).None? && Walk(s, DirName(to)) == Walk(s, DirName(from)) then BaseName(to) else BaseName(from)
  }

  function Landing(s: State, from: string, to: string): Path
    requires '/' in from && '/' in to
  {
    LandingDir(s, to) + [LandingName(s, from, to)]
  }

  /** Slot k of directory sd has become slot j of directory t under `name`; nothing but blocks changed. */
  ghost predicate Moving(s: State, s': State, sd: nat, k: nat, t: nat, j: nat, name: string) {
    && Consistent(s) && IsDir(s.mem.itable, sd) && IsDir(s.mem.itable, t)
    && 2 <= k < |DirSlots(s, sd)| == SLOTS && DirSlots(s, sd)[k].flag == Used
    && 2 <= j < |DirSlots(s, t)| == SLOTS && (sd == t ==> j == k) && (sd != t ==> DirSlots(s, t)[j].flag != Used)
    && s' == s.(blocks := s'.blocks) && |s'.blocks| == |s.blocks|
    && BlocksOk(s.mem.itable, s.mem.dbits, s'.blocks)
    && SameBytes(s.mem.itable, s.blocks, s.mem.itable, s'.blocks, FileSet(s.mem.itable))
    && sd in View(s) && t in View(s) && k < |View(s)[sd]| && j < |View(s)[t]|
    && View(s') == MoveEntry(View(s), sd, k, t, j, name)
  }

  lemma SlotRenamed(s: State, sd: nat, k: nat, name: string)
    requires Consistent(s) && IsDir(s.mem.itable, sd)
    requires 2 <= k < |DirSlots(s, sd)| && DirSlots(s, sd)[k].flag == Used
    ensures Moving(s, RenameSlot(s, sd, k, name).0, sd, k, sd, k, name)
  {
    hide BlocksOk, TreeOk, HandlesOk, DiskOk, InodesOk, DirShape, PutSlot;
    DirFacts(s, sd);
    RemoveStep.ViewAt(s, sd);
    var e := DirSlots(s, sd)[k].(name := name);
    PutSlotAt(s.blocks, BlockAt(s.mem.itable, sd), k, e);
    SetSlots(s.mem.itable, s.mem.dbits, s.blocks, sd, DirSlots(s, sd)[k := e]);
  }

  lemma TwoSlots(s: State, sd: nat, k: nat, e: Slot, t: nat, j: nat, f: Slot)
    requires Consistent(s) && IsDir(s.mem.itable, sd) && IsDir(s.mem.itable, t) && sd != t
    requires k < |DirSlots(s, sd)| && j < |DirSlots(s, t)|
    ensures sd in View(s) && t in View(s) && View(s)[sd] == DirSlots(s, sd) && View(s)[t] == DirSlots(s, t)
    ensures var p, q := s.mem.itable[sd], s.mem.itable[t];
            var blocks := PutSlot(PutSlot(s.blocks, q.block + j * ENTRY_SIZE, f), p.block + k * ENTRY_SIZE, e);
            && BlocksOk(s.mem.itable, s.mem.dbits, blocks)
            && SameBytes(s.mem.itable, s.blocks, s.mem.itable, blocks, FileSet(s.mem.itable))
            && DirView(s.mem.itable, blocks) == View(s)[t := DirSlots(s, t)[j := f]][sd := DirSlots(s, sd)[k := e]]
  {
    hide BlocksOk, TreeOk, HandlesOk, DiskOk, InodesOk, DirShape, PutSlot, Addr, SameBytes, FreeSlot;
    DirFacts(s, sd);
    DirFacts(s, t);
    RemoveStep.ViewAt(s, sd);
    RemoveStep.ViewAt(s, t);
    RemoveStep.BlocksDiffer(s, sd, t);
    var sb, tb := BlockAt(s.mem.itable, sd), BlockAt(s.mem.itable, t);
    var slots := DirSlots(s, t)[j := f];
    PutSlotAt(s.blocks, tb, j, f);
    PutSlotAt(s.blocks[tb := Entries(slots)], sb, k, e);
    SetSlots(s.mem.itable, s.mem.dbits, s.blocks, t, slots);
    var blocks := s.blocks[tb := Entries(slots)];
    SetSlots(s.mem.itable, s.mem.dbits, blocks, sd, DirSlots(s, sd)[k := e]);
    SameBytesChain(s.mem.itable, s.blocks, blocks, blocks[sb := Entries(DirSlots(s, sd)[k := e])], FileSet(s.mem.itable));
  }

  lemma MovedInto(s: State, sd: nat, k: nat, t: nat, probe: string)
    requires Consistent(s) && IsDir(s.mem.itable, sd) && sd != t
    requires 2 <= k < |DirSlots(s, sd)| && DirSlots(s, sd)[k].flag == Used
    requires MoveInto(s, sd, k, t, probe).1 == Success
    ensures IsDir(s.mem.itable, t)
    ensures Moving(s, MoveInto(s, sd, k, t, probe).0, sd, k, t, FreeSlot(DirSlots(s, t)), DirSlots(s, sd)[k].name)
  {
    hide BlocksOk, TreeOk, HandlesOk, DiskOk, InodesOk, DirShape, PutSlot, SameBytes;
    var e, j := DirSlots(s, sd)[k], FreeSlot(DirSlots(s, t));
    DirFacts(s, t);
    RemoveStep.ViewAt(s, t);
    RemoveStep.ViewAt(s, sd);
    assert e.(flag := Used) == e;
    TwoSlots(s, sd, k, Unlinked(e), t, j, e);
  }

  /** The parent of the source, as the walk finds it. */
  lemma SourceDir(s: State, path: string)
    requires Consistent(s) && '/' in path && LegalName(BaseName(path)) && WalkSafe(s, Tokens(path)) && LegalPath(Tokens(path))
    ensures Tokens(path) == Tokens(DirName(path)) + [BaseName(path)] && LegalPath(Tokens(DirName(path)))
    ensures Walk(s, DirName(path)).Some? ==> IsDir(s.mem.itable, Walk(s, DirName(path)).value)
    ensures Walk(s, path) == LookupIn(View(s), Walk(s, DirName(path)), BaseName(path))
  {
    SplitAgreesWithTokens(path);
    var d := Tokens(DirName(path));
    assert Tokens(path)[..|d|] == d;
    ResolveSnoc(View(s), d, BaseName(path));
  }

  /** A successful rename moves the slot of `from` to the landing place: the first slot not in use of the landing
      directory, unless the entry stays in its directory. */
  lemma RenameMoves(s: State, from: string, to: string) returns (sd: nat, k: nat, t: nat, j: nat)
    requires CanRename(s, from, to) && Rename(s, from, to).1 == Success
    ensures Moving(s, Rename(s, from, to).0, sd, k, t, j, LandingName(s, from, to))
    ensures Walk(s, DirName(from)) == Some(sd) && DirSlots(s, sd)[k].name == BaseName(from)
    ensures Resolve(View(s), LandingDir(s, to)) == Some(t)
    ensures sd != t ==> forall i :: 0 <= i < j ==> DirSlots(s, t)[i].flag == Used
    ensures sd == t ==> Walk(s, to).None? && LandingName(s, from, to) == BaseName(to)
  {
    hide Consistent, RenameSlot, MoveInto;
    SourceDir(s, from);
    SourceDir(s, to);
    sd := Walk(s, DirName(from)).value;
    k := FindSlot(DirSlots(s, sd), BaseName(from)).value;
    RemoveStep.FoundEntry(s, sd, BaseName(from));
    if Walk(s, to).Some? {
      t := Walk(s, to).value;
      j := FreeSlot(DirSlots(s, t));
      FoundNotFree(s, sd, k, BaseName(from), t);
      MovedInto(s, sd, k, t, BaseName(from));
    } else {
      t := Walk(s, DirName(to)).value;
      j := if t == sd then k else FreeSlot(DirSlots(s, t));
      if t == sd {
        SlotRenamed(s, sd, k, BaseName(to));
      } else {
        MovedInto(s, sd, k, t, BaseName(to));
      }
    }
  }

  lemma FoundNotFree(s: State, sd: nat, k: nat, probe: string, t: nat)
    requires k < |DirSlots(s, sd)| && FindSlot(DirSlots(s, sd), probe).Some? && MoveInto(s, sd, k, t, probe).1 == Success
    ensures t != sd
  {
  }

  lemma OnlyBlocksMoved(s: State, s': State, sd: nat, k: nat, t: nat, j: nat, name: string)
    requires Moving(s, s', sd, k, t, j, name)
    ensures Consistent(s') <==> TreeOk(s')
  {
    hide BlocksOk, TreeOk, SameBytes, View, MoveEntry;
  }

  lemma LandingFree(s: State, t: nat, name: string, dp: Path)
    requires Consistent(s) && IsDir(s.mem.itable, t) && LegalName(name) && LegalPath(dp) && Resolve(View(s), dp) == Some(t)
    ensures dp + [name] !in NamesOf(s) <==> FindSlot(View(s)[t], name) == None
  {
    hide TreeOf, DirView;
    RemoveStep.InNames(s, t, name, dp);
    RemoveStep.ViewAt(s, t);
  }

  /** Landing on a name that is taken leaves two slots with that name in one directory. */
  lemma TwiceNamed(ns: Dirs, files: set<nat>, sd: nat, k: nat, t: nat, j: nat, name: string)
    requires sd in ns && k < |ns[sd]| && t in ns && j < |ns[t]| && sd != t
    requires ns[sd][k].flag == Used && ns[t][j].flag != Used && FindSlot(ns[t], name).Some?
    ensures !Tree(MoveEntry(ns, sd, k, t, j, name), files)
  {
    var i := FindSlot(ns[t], name).value;
    var slots := MoveEntry(ns, sd, k, t, j, name)[t];
    assert slots[i].name == slots[j].name && slots[i].flag == slots[j].flag == Used && i != j;
    assert !UniqueNames(slots);
    assert !DirShape(slots, t);
  }

  lemma MoveAllowed(s: State, s': State, sd: nat, k: nat, t: nat, j: nat, name: string)
    requires Moving(s, s', sd, k, t, j, name) && LegalName(name) && FindSlot(View(s)[t], name) == None
    ensures CanMove(View(s), FileSet(s.mem.itable), sd, k, t, j, name)
  {
    hide BlocksOk, SameBytes, MoveEntry, DirShape;
    RemoveStep.ViewAt(s, sd);
    RemoveStep.ViewAt(s, t);
  }

  lemma LandingLegal(s: State, from: string, to: string)
    requires CanRename(s, from, to)
    ensures LegalName(LandingName(s, from, to)) && LegalPath(LandingDir(s, to))
    ensures Tokens(from) == Tokens(DirName(from)) + [BaseName(from)] && LegalPath(Tokens(DirName(from)))
  {
    hide Consistent, TreeOf;
    SourceDir(s, from);
    SourceDir(s, to);
  }

  /** A successful rename keeps the invariant iff the directory it lands in is not at or below what is
      moved and the landing path is free. do_rename checks neither: it looks up the target's name, but
      across directories the entry arrives under its old one. */
  lemma RenameConsistentIff(s: State, from: string, to: string)
    requires CanRename(s, from, to) && Rename(s, from, to).1 == Success
    ensures Consistent(Rename(s, from, to).0) <==>
            !Below(Tokens(from), LandingDir(s, to)) && Landing(s, from, to) !in NamesOf(s)
  {
    hide Consistent, Rename, TreeOf, DirView, MoveEntry, Tree, BlocksOk, SameBytes;
    var s', name := Rename(s, from, to).0, LandingName(s, from, to);
    var sd, k, t, j := RenameMoves(s, from, to);
    LandingLegal(s, from, to);
    OnlyBlocksMoved(s, s', sd, k, t, j, name);
    LandingFree(s, t, name, LandingDir(s, to));
    RemoveStep.ViewAt(s, sd);
    RemoveStep.ViewAt(s, t);
    if FindSlot(View(s)[t], name) == None {
      MoveAllowed(s, s', sd, k, t, j, name);
      MoveKeepsTreeIff(View(s), FileSet(s.mem.itable), sd, k, t, j, name, Tokens(DirName(from)), LandingDir(s, to));
    } else {
      if sd == t { SourceDir(s, to); }
      TwiceNamed(View(s), FileSet(s.mem.itable), sd, k, t, j, name);
    }
  }

  /** A successful rename relocates a whole subtree: what was at or below `from` is at or below the
      landing path, nothing is left at or below `from`, every other path has the same node. */
  lemma RenameRefines(s: State, from: string, to: string)
    requires CanRename(s, from, to) && Rename(s, from, to).1 == Success
    requires !Below(Tokens(from), LandingDir(s, to)) && Landing(s, from, to) !in NamesOf(s)
    ensures NamesOf(Rename(s, from, to).0) == Relocate(NamesOf(s), Tokens(from), Landing(s, from, to))
  {
    hide Consistent, Rename, TreeOf, DirView, MoveEntry, CanMove, BlocksOk, SameBytes;
    var s', name := Rename(s, from, to).0, LandingName(s, from, to);
    var sd, k, t, j := RenameMoves(s, from, to);
    LandingLegal(s, from, to);
    LandingFree(s, t, name, LandingDir(s, to));
    RemoveStep.ViewAt(s, sd);
    MoveAllowed(s, s', sd, k, t, j, name);
    NamesMovedTo(s.mem.itable, s.blocks, s'.blocks, sd, k, t, j, name, Tokens(DirName(from)), LandingDir(s, to));
  }

  /** The target exists and is a file, or is a directory that already has the source's base name. */
  predicate TargetTaken(s: State, from: string, to: string)
    requires '/' in from
  {
    Walk(s, to).Some? && (!IsDir(s.mem.itable, Walk(s, to).value) || LookupIn(View(s), Walk(s, to), BaseName(from)).Some?)
  }

  predicate Succeeds(s: State, from: string, to: string)
    requires '/' in from
  {
    Walk(s, from).Some? && !TargetTaken(s, from, to)
  }

  lemma SourceMissing(s: State, from: string, to: string)
    requires CanRename(s, from, to) && Walk(s, from).None?
    ensures Rename(s, from, to) == (s, NoEntry)
  {
    hide Consistent, DirView, WalkSafe, FreeSlot, PutSlot, PathFits, Resolve, FindSlot;
    SourceDir(s, from);
    if Walk(s, DirName(from)).Some? { RemoveStep.ViewAt(s, Walk(s, DirName(from)).value); }
  }

  lemma TargetExists(s: State, from: string, to: string)
    requires CanRename(s, from, to) && Walk(s, from).Some? && Walk(s, to).Some?
    ensures if TargetTaken(s, from, to) then Rename(s, from, to) == (s, Exists) else Rename(s, from, to).1 == Success
  {
    hide Consistent, DirView, WalkSafe, FreeSlot, PutSlot, PathFits, Resolve, FindSlot;
    SourceDir(s, from);
    RemoveStep.ViewAt(s, Walk(s, DirName(from)).value);
    if IsDir(s.mem.itable, Walk(s, to).value) { RemoveStep.ViewAt(s, Walk(s, to).value); }
  }

  lemma TargetAbsent(s: State, from: string, to: string)
    requires CanRename(s, from, to) && Walk(s, from).Some? && Walk(s, to).None?
    ensures Rename(s, from, to).1 == Success
  {
    hide Consistent, DirView, WalkSafe, FreeSlot, PutSlot, PathFits, Resolve, FindSlot;
    SourceDir(s, from);
    SourceDir(s, to);
    RemoveStep.ViewAt(s, Walk(s, DirName(from)).value);
    RemoveStep.ViewAt(s, Walk(s, DirName(to)).value);
  }

  /** When do_rename fails; a failure changes nothing. */
  lemma RenameStatus(s: State, from: string, to: string)
    requires CanRename(s, from, to)
    ensures var (s', status) := Rename(s, from, to);
            && (status != Success ==> s' == s)
            && status == if Walk(s, from).None? then NoEntry else if TargetTaken(s, from, to) then Exists else Success
  {
    hide Consistent, Rename, TargetTaken, Walk;
    if Walk(s, from).None? { SourceMissing(s, from, to); }
    else if Walk(s, to).Some? { TargetExists(s, from, to); }
    else { TargetAbsent(s, from, to); NotTaken(s, from, to); }
  }

  lemma NotTaken(s: State, from: string, to: string)
    requires '/' in from && Walk(s, to).None?
    ensures !TargetTaken(s, from, to)
  {
  }

  /** A target that did not exist leads to the moved inode afterwards iff the entry stays in its
      directory or the base names agree; otherwise the target path still leads nowhere. */
  lemma RenameNewTarget(s: State, from: string, to: string)
    requires CanRename(s, from, to) && Rename(s, from, to).1 == Success && Walk(s, to).None?
    requires !Below(Tokens(from), LandingDir(s, to)) && Landing(s, from, to) !in NamesOf(s)
    ensures var names := NamesOf(Rename(s, from, to).0);
            && (Walk(s, DirName(to)) == Walk(s, DirName(from)) || BaseName(to) == BaseName(from) ==>
                  Tokens(from) in NamesOf(s) && Tokens(to) in names && names[Tokens(to)] == NamesOf(s)[Tokens(from)])
            && (!(Walk(s, DirName(to)) == Walk(s, DirName(from)) || BaseName(to) == BaseName(from)) ==> Tokens(to) !in names)
  {
    hide Consistent, Rename, DirView, TargetTaken, WalkSafe, Relocate, Below, Resolve, Landing, LandingDir, NamesOf, Walk;
    RenameRefines(s, from, to);
    RenameStatus(s, from, to);
    LandingLegal(s, from, to);
    LandsOnTarget(s, from, to);
    InNamesIff(s, from);
    InNamesIff(s, to);
    AtTarget(NamesOf(s), Tokens(from), Landing(s, from, to), Tokens(to));
  }

  /** A target that was there, a directory, keeps its own node; the moved inode is one level below it. */
  lemma RenameOntoDirectory(s: State, from: string, to: string)
    requires CanRename(s, from, to) && Rename(s, from, to).1 == Success && Walk(s, to).Some?
    requires !Below(Tokens(from), LandingDir(s, to)) && Landing(s, from, to) !in NamesOf(s)
    ensures var t, names := NamesOf(s), NamesOf(Rename(s, from, to).0);
            var below := Tokens(to) + [BaseName(from)];
            && Tokens(from) in t && Tokens(to) in t && t[Tokens(to)] != t[Tokens(from)]
            && Tokens(to) in names && names[Tokens(to)] == t[Tokens(to)]
            && below in names && names[below] == t[Tokens(from)]
  {
    hide Consistent, Rename, DirView, TargetTaken, WalkSafe, Relocate, Resolve, NamesOf, Walk;
    RenameRefines(s, from, to);
    RenameStatus(s, from, to);
    LandingLegal(s, from, to);
    LandsBelow(s, from, to);
    InNamesIff(s, from);
    InNamesIff(s, to);
    SameNodeSamePath(s, Tokens(from), Tokens(to));
    BelowTarget(NamesOf(s), Tokens(from), Tokens(to), BaseName(from));
  }

  lemma LandsBelow(s: State, from: string, to: string)
    requires '/' in from && '/' in to && Walk(s, to).Some?
    ensures LandingDir(s, to) == Tokens(to) && Landing(s, from, to) == Tokens(to) + [BaseName(from)]
  {
  }

  lemma BelowTarget(names: imap<Path, Node>, f: Path, q: Path, x: string)
    requires LegalPath(q + [x]) && f in names && q in names && !Below(f, q)
    ensures var l := q + [x];
            var moved := Relocate(names, f, l);
            q in moved && moved[q] == names[q] && l in moved && moved[l] == names[f]
  {
    var l := q + [x];
    assert f + l[|l|..] == f;
    assert LegalPath(q) by { assert q == l[..|q|]; }
  }

  lemma SamePath(s: State, p: Path, q: Path)
    requires Consistent(s) && LegalPath(p) && LegalPath(q) && Resolve(View(s), p).Some? && Resolve(View(s), p) == Resolve(View(s), q)
    ensures p == q
  {
    PathUnique(View(s), FileSet(s.mem.itable), p, q);
  }

  lemma SameNodeSamePath(s: State, p: Path, q: Path)
    requires Consistent(s) && p in NamesOf(s) && q in NamesOf(s)
    ensures NamesOf(s)[p] == NamesOf(s)[q] ==> p == q
  {
    hide Consistent, DirView, Content;
    if NamesOf(s)[p] == NamesOf(s)[q] { SamePath(s, p, q); }
  }

  /** After a successful rename the target path leads to what was at the source path iff the target did not
      exist, and the entry stays in its directory or the base names agree. */
  lemma RenameReachesTargetIff(s: State, from: string, to: string)
    requires CanRename(s, from, to) && Rename(s, from, to).1 == Success
    requires !Below(Tokens(from), LandingDir(s, to)) && Landing(s, from, to) !in NamesOf(s)
    ensures var t, names := NamesOf(s), NamesOf(Rename(s, from, to).0);
            && Tokens(from) in t
            && ((Tokens(to) in names && names[Tokens(to)] == t[Tokens(from)]) <==>
                && Walk(s, to).None?
                && (Walk(s, DirName(to)) == Walk(s, DirName(from)) || BaseName(to) == BaseName(from)))
  {
    hide Consistent, Rename, DirView, TargetTaken, WalkSafe, Relocate, Below, Resolve, Landing, LandingDir, NamesOf, Walk;
    RenameStatus(s, from, to);
    LandingLegal(s, from, to);
    InNamesIff(s, from);
    if Walk(s, to).None? { RenameNewTarget(s, from, to); } else { RenameOntoDirectory(s, from, to); }
  }

  lemma LandsOnTarget(s: State, from: string, to: string)
    requires CanRename(s, from, to) && Walk(s, to).None?
    ensures |Landing(s, from, to)| == |Tokens(to)|
    ensures Landing(s, from, to) == Tokens(to) <==> Walk(s, DirName(to)) == Walk(s, DirName(from)) || BaseName(to) == BaseName(from)
  {
    hide Consistent, DirView, WalkSafe, Walk;
    SourceDir(s, to);
    var l, q := Landing(s, from, to), Tokens(to);
    assert l[|l| - 1] == LandingName(s, from, to) && q[|q| - 1] == BaseName(to);
  }

  lemma InNamesIff(s: State, path: string)
    requires LegalPath(Tokens(path))
    ensures Tokens(path) in NamesOf(s) <==> Walk(s, path).Some?
  {
  }

  /** A path of the length of the landing path that was free leads somewhere iff it is the landing path. */
  lemma AtTarget(names: imap<Path, Node>, f: Path, l: Path, q: Path)
    requires LegalPath(q) && |l| == |q| && f in names && q !in names
    ensures if q == l then q in Relocate(names, f, l) && Relocate(names, f, l)[q] == names[f] else q !in Relocate(names, f, l)
  {
    if l == q { assert f + q[|l|..] == f; }
  }
}
