/** Concrete runs in which the code departs from what its callers may expect: one for each condition that the
    theorems on rename, link counts, the device copy, inode numbers and file data carry. */
module Examples {
  import opened Layout
  import opened Paths
  import opened Namespace
  import opened TreeSteps
  import opened FsSpec
  import opened Fsck
  import opened NameTree
  import opened Runs
  import opened Lifetimes
  import opened AbstractFs
  import opened Abstraction
  import MkdirStep
  import CreateStep
  import RemoveStep
  import RenameStep
  import FileStep
  import MountStep
  import Links
  import Ledger
  import Listings

  const SMALL: nat := 48    // sectors: a device with two data blocks
  const LARGE: nat := 64    // and one with four

  /** A new name in a directory of the tree, spelled as one path string. */
  ghost predicate NewName(t: NameMap, path: string, d: Path, x: string) {
    && Spelled(path, d, x) && LegalPath(d) && LegalName(x)
    && d in t && d + [x] !in t && DirsAbove(t, d + [x])
  }

  ghost predicate Spelled(path: string, d: Path, x: string) {
    PathFits(path) && Tokens(DirName(path)) == d && BaseName(path) == x && Tokens(path) == d + [x]
  }

  /** The path and the paths above it are directories as far as they exist. */
  ghost predicate DirsAbove(t: NameMap, p: Path) {
    forall k :: 0 <= k < |p| && p[..k] in t ==> t[p[..k]].DirNode?
  }

  lemma SpelledOut(d: string, x: string)
    requires x != "" && '/' !in x && '\0' !in d && '\0' !in x && |d| < FNAME_SIZE && |x| < FNAME_SIZE
    ensures Spelled(d + "/" + x, Tokens(d), x)
  {
    hide Tokens, LastSlash, PathFits;
    OneSlash(d, x);
    SplitIs(d + "/" + x, |d|);
    TokensJoin(d, x);
  }

  lemma OneSlash(d: string, x: string)
    requires '/' !in x && '\0' !in d && '\0' !in x && |d| < FNAME_SIZE && |x| < FNAME_SIZE
    ensures var path := d + "/" + x; PathFits(path) && path[|d|] == '/' && path[|d| + 1..] == x && path[..|d|] == d
  {
    var path := d + "/" + x;
    assert path[|d|] == '/' && path[|d| + 1..] == x && path[..|d|] == d;
    SplitIs(path, |d|);
    forall i | 0 <= i < |path|
      ensures path[i] != '\0'
    {
      if i < |d| { assert path[i] == d[i]; } else if i > |d| { assert path[i] == x[i - |d| - 1]; }
    }
  }

  lemma GoodWhen(s: State, path: string, d: Path, x: string)
    requires Consistent(s) && Spelled(path, d, x) && LegalPath(d) && LegalName(x) && DirsAbove(NamesOf(s), d + [x])
    ensures GoodPath(s, path)
    ensures d in NamesOf(s) ==> InDir(s, path).Some?
  {
    hide Consistent, DirView;
    var p := d + [x];
    forall k | 0 <= k < |p| && Resolve(View(s), p[..k]).Some?
      ensures IsDir(s.mem.itable, Resolve(View(s), p[..k]).value)
    {
      assert LegalPath(p[..k]);
      assert p[..k] in NamesOf(s);
    }
  }

  ghost predicate Ready(s: State) {
    Good(s) && Links.LinksOk(s) && s.sbi.lastIno < INODES
  }

  /** A mkdir that succeeds. */
  lemma Made(s: State, path: string, d: Path, x: string)
    requires Ready(s) && NewName(NamesOf(s), path, d, x) && |s.mem.dbits| < |s.blocks|
    ensures Allowed(s, MkdirAt(path)) && Step(s, MkdirAt(path)).1 == Done(Success)
    ensures var s' := Step(s, MkdirAt(path)).0;
            && Good(s') && Links.LinksOk(s') && s'.sbi.lastIno == s.sbi.lastIno + 1
            && NamesOf(s') == NamesOf(s)[d + [x] := DirNode(s.sbi.lastIno)]
            && |s'.mem.dbits| == |s.mem.dbits| + 1 && |s'.blocks| == |s.blocks|
            && (MountStep.Synced(s) ==> MountStep.Synced(s'))
  {
    hide Consistent, Links.LinksOk, LinksNear, Mkdir, NamesOf, Abs;
    GoodWhen(s, path, d, x);
    PathFacts(s, path);
    var par := InDir(s, path).value;
    MkdirStep.MkdirRefines(s, par, x, d);
    MkdirStep.MkdirStatus(s, par, x);
    if MkdirStep.Full(s) {
      assert Range(|s.blocks|) <= s.mem.dbits;
      SubsetCard(Range(|s.blocks|), s.mem.dbits);
    }
    var b := MkdirStep.MkdirSuccess(s, par, x);
    StepRefines(s, MkdirAt(path));
    Links.StepLinksIff(s, MkdirAt(path));
  }

  /** A create that succeeds, with or without a handle left for it. */
  lemma Created(s: State, path: string, d: Path, x: string)
    requires Ready(s) && NewName(NamesOf(s), path, d, x)
    ensures Allowed(s, OpenAt(path, true, false, 0))
    ensures var s' := Step(s, OpenAt(path, true, false, 0)).0;
            && Good(s') && Links.LinksOk(s') && s'.sbi.lastIno == s.sbi.lastIno + 1
            && NamesOf(s') == NamesOf(s)[d + [x] := FileNode(s.sbi.lastIno, [])]
    ensures Ledger.Issued(s, OpenAt(path, true, false, 0)) == Some(s.sbi.lastIno)
  {
    hide Consistent, Links.LinksOk, LinksNear, CreateFile, NamesOf, OpenFileIn, Abs, Tokens, PathFits, RemoveStep.IsOpen;
    GoodWhen(s, path, d, x);
    PathFacts(s, path);
    CreatedIn(s, InDir(s, path).value, d, x);
    StepRefines(s, OpenAt(path, true, false, 0));
    Links.StepLinksIff(s, OpenAt(path, true, false, 0));
  }

  lemma CreatedIn(s: State, par: nat, d: Path, x: string)
    requires Ready(s) && MkdirStep.CanMkdir(s, par, x) && LegalPath(d) && Resolve(View(s), d) == Some(par) && d + [x] !in NamesOf(s)
    ensures var s' := OpenFileIn(s, par, x, true, false, 0).0;
            && s'.sbi.lastIno == s.sbi.lastIno + 1 && NamesOf(s') == NamesOf(s)[d + [x] := FileNode(s.sbi.lastIno, [])]
    ensures RemoveStep.Target(s, par, x).None? && CreateFile(s, par, x).1 == Success
  {
    hide Consistent, Links.LinksOk, LinksNear, CreateFile, TreeOf, OpenInode, Abs, DirView;
    MkdirStep.ChildInNames(s, par, x, d);
    Links.LinksBound(s, par);
    CreateStep.CreateRefines(s, par, x, d);
    CreateStep.CreateCases(s, par, x);
    FileStep.OpenOnlyHandles(s, par, x, true, false, 0);
  }

  // ---------------------------------------------------------------- the runs

  lemma Above(t: NameMap, d: Path, x: string)
    requires |d| <= 1 && [] in t && t[[]].DirNode? && d in t && t[d].DirNode?
    ensures DirsAbove(t, d + [x])
  {
    var p := d + [x];
    forall k | 0 <= k < |p| && p[..k] in t
      ensures t[p[..k]].DirNode?
    {
      assert p[..k] == [] || p[..k] == d;
    }
  }

  /** The paths the runs use. */
  lemma PathsUsed()
    ensures LegalPath([]) && LegalPath(["a"]) && LegalPath(["b"])
    ensures Tokens("/a") == ["a"] && Tokens("/b") == ["b"] && Tokens("/f") == ["f"]
    ensures LegalName("a") && LegalName("b") && LegalName("f") && LegalName("g")
    ensures Spelled("/a", [], "a") && Spelled("/b", [], "b") && Spelled("/f", [], "f")
    ensures Spelled("/a/b", ["a"], "b") && Spelled("/a/f", ["a"], "f") && Spelled("/a/g", ["a"], "g") && Spelled("/b/a", ["b"], "a")
  {
    hide Spelled;
    SpelledOut("", "a");
    SpelledOut("", "b");
    SpelledOut("", "f");
    SpelledOut("/a", "b");
    SpelledOut("/a", "f");
    SpelledOut("/a", "g");
    SpelledOut("/b", "a");
    assert "" + "/" + "a" == "/a" && "" + "/" + "b" == "/b" && "" + "/" + "f" == "/f";
    assert "/a" + "/" + "b" == "/a/b" && "/a" + "/" + "f" == "/a/f" && "/a" + "/" + "g" == "/a/g" && "/b" + "/" + "a" == "/b/a";
    TokensJoin("", "a");
    TokensJoin("", "b");
    TokensJoin("", "f");
    assert Tokens("") == [];
  }

  lemma Fresh(sectors: nat)
    requires sectors == SMALL || sectors == LARGE
    ensures Formattable(sectors)
    ensures var s := FormatAndMount(sectors);
            && Ready(s) && MountStep.Synced(s) && s.sbi.lastIno == 3 && |s.mem.dbits| == 1 && |s.blocks| == sectors / 8 - 4
            && NamesOf(s) == imap[[] := DirNode(ROOT_INO)]
  {
    hide Consistent, Links.LinksOk, LinksNear, NamesOf;
    MountStep.FormatConsistent(sectors);
    FormatNear(sectors);
    Links.FormatLinks(sectors);
    var dbits: set<nat> := {0};
    assert |dbits| == 1;
  }

  /** One directory on a fresh device. */
  function AfterA(sectors: nat): State
    requires Formattable(sectors)
  {
    Step(FormatAndMount(sectors), MkdirAt("/a")).0
  }

  lemma HasA(sectors: nat)
    requires sectors == SMALL || sectors == LARGE
    ensures Formattable(sectors) && Allowed(FormatAndMount(sectors), MkdirAt("/a"))
    ensures var s := AfterA(sectors);
            && Ready(s) && MountStep.Synced(s) && s.sbi.lastIno == 4 && |s.mem.dbits| == 2 && |s.blocks| == sectors / 8 - 4
            && NamesOf(s) == imap[[] := DirNode(ROOT_INO), ["a"] := DirNode(3)]
  {
    hide Consistent, Links.LinksOk, LinksNear, NamesOf, Spelled, Step, Allowed;
    PathsUsed();
    Fresh(sectors);
    assert [] + ["a"] == ["a"];
    Made(FormatAndMount(sectors), "/a", [], "a");
  }

  /** A rename whose source is in the tree and whose target is new, across directories. */
  lemma Lands(s: State, from: string, d: Path, x: string, to: string, e: Path, y: string)
    requires Consistent(s) && Spelled(from, d, x) && LegalPath(d) && LegalName(x) && d + [x] in NamesOf(s)
    requires NewName(NamesOf(s), to, e, y) && DirsAbove(NamesOf(s), d + [x]) && d in NamesOf(s) && e != d
    ensures RenameStep.CanRename(s, from, to) && Rename(s, from, to).1 == Success && RenameStep.Succeeds(s, from, to)
    ensures Walk(s, to).None? && RenameStep.LandingDir(s, to) == e && RenameStep.Landing(s, from, to) == e + [x]
    ensures Resolve(View(s), e) != Walk(s, DirName(from))
  {
    hide Consistent, DirView, NodeAt;
    GoodWhen(s, from, d, x);
    GoodWhen(s, to, e, y);
    PathFacts(s, from);
    PathFacts(s, to);
    RenameStep.RenameStatus(s, from, to);
    if Walk(s, DirName(to)) == Walk(s, DirName(from)) { RenameStep.SamePath(s, d, e); }
  }

  /** A directory /a and a file /f. */
  function AfterAF(): State {
    Step(AfterA(LARGE), OpenAt("/f", true, false, 0)).0
  }

  lemma HasAF()
    ensures Allowed(AfterA(LARGE), OpenAt("/f", true, false, 0))
    ensures Ready(AfterAF())
    ensures NamesOf(AfterAF()) == imap[[] := DirNode(ROOT_INO), ["a"] := DirNode(3), ["f"] := FileNode(4, [])]
  {
    hide Consistent, Links.LinksOk, LinksNear, NamesOf, Spelled, AfterA, LegalName, LegalPath, DirsAbove, Tokens, Step,
         Allowed;
    HasA(LARGE);
    PathsUsed();
    assert [] + ["f"] == ["f"];
    Above(NamesOf(AfterA(LARGE)), [], "f");
    Created(AfterA(LARGE), "/f", [], "f");
  }

  lemma FileRelocated(t: NameMap)
    requires t == imap[[] := DirNode(ROOT_INO), ["a"] := DirNode(3), ["f"] := FileNode(4, [])]
    ensures Relocate(t, ["f"], ["a", "f"]) == imap[[] := DirNode(ROOT_INO), ["a"] := DirNode(3), ["a", "f"] := FileNode(4, [])]
  {
    assert Relocated(["f"], ["a", "f"], ["a", "f"]) == Some(["f"]) by { assert ["f"] + ["a", "f"][2..] == ["f"]; }
    NotBelow(["f"], ["a"]);
    assert Relocated(["f"], ["a", "f"], []) == Some([]) && Relocated(["f"], ["a", "f"], ["a"]) == Some(["a"]);
    hide LegalName;
    LegalOnes();
    forall q: Path | Relocated(["f"], ["a", "f"], q).Some? && Relocated(["f"], ["a", "f"], q).value in t
      ensures q == [] || q == ["a"] || q == ["a", "f"]
    {
      if Below(["a", "f"], q) {
        assert |Relocated(["f"], ["a", "f"], q).value| == 1 + |q[2..]|;
        assert q == ["a", "f"] + q[2..];
      }
    }
  }

  lemma NotBelow(p: Path, q: Path)
    requires p != [] && q != [] && |p[0]| == |q[0]| == 1 && p[0][0] != q[0][0]
    ensures !Below(p, q)
  {
  }

  lemma LegalOnes()
    ensures LegalPath([]) && LegalPath(["a"]) && LegalPath(["a", "f"])
  {
  }

  lemma FileLands()
    ensures var s := AfterAF();
            && RenameStep.CanRename(s, "/f", "/a/g") && Rename(s, "/f", "/a/g").1 == Success
            && RenameStep.LandingDir(s, "/a/g") == ["a"] && RenameStep.Landing(s, "/f", "/a/g") == ["a", "f"]
            && ["a", "f"] !in NamesOf(s) && !Below(["f"], ["a"])
  {
    hide Consistent, Links.LinksOk, LinksNear, NamesOf, Spelled, AfterAF, LegalName, LegalPath, DirsAbove, Tokens,
         Rename, Walk, Below, NewName, Good,
         RenameStep.CanRename, RenameStep.LandingDir, RenameStep.Landing, RenameStep.Succeeds;
    NewInAF();
    PathsUsed();
    assert ["a"] + ["f"] == ["a", "f"];
    Lands(AfterAF(), "/f", [], "f", "/a/g", ["a"], "g");
    NotBelow(["f"], ["a"]);
  }

  lemma NewInAF()
    ensures Consistent(AfterAF())
    ensures var t := NamesOf(AfterAF());
            && NewName(t, "/a/g", ["a"], "g") && DirsAbove(t, [] + ["f"]) && [] + ["f"] in t && [] in t && ["a", "f"] !in t
  {
    hide Consistent, Links.LinksOk, LinksNear, NamesOf, Spelled, AfterAF, LegalName, LegalPath, DirsAbove, Tokens;
    HasAF();
    PathsUsed();
    RoomInA(NamesOf(AfterAF()), "/a/g");
  }

  lemma RoomInA(t: NameMap, path: string)
    requires t == imap[[] := DirNode(ROOT_INO), ["a"] := DirNode(3), ["f"] := FileNode(4, [])]
    requires Spelled(path, ["a"], "g") && LegalName("g")
    ensures NewName(t, path, ["a"], "g") && DirsAbove(t, [] + ["f"]) && [] + ["f"] in t && [] in t && ["a", "f"] !in t
  {
    hide LegalName, DirsAbove, Spelled;
    assert [] + ["f"] == ["f"] && ["a"] + ["g"] == ["a", "g"];
    LegalShort();
    Above(t, [], "f");
    Above(t, ["a"], "g");
  }

  /** Rename /f to /a/g succeeds, but afterwards nothing is at /a/g. */
  lemma RenameMissesTarget()
    ensures Allowed(AfterAF(), RenameAt("/f", "/a/g")) && Rename(AfterAF(), "/f", "/a/g").1 == Success
    ensures NamesOf(Rename(AfterAF(), "/f", "/a/g").0) ==
            imap[[] := DirNode(ROOT_INO), ["a"] := DirNode(3), ["a", "f"] := FileNode(4, [])]
  {
    hide Consistent, Links.LinksOk, LinksNear, NamesOf, Spelled, AfterAF, LegalName, LegalPath, DirsAbove, Tokens,
         Rename, Relocate, Walk, Below,
         RenameStep.CanRename, RenameStep.LandingDir, RenameStep.Landing;
    HasAF();
    PathsUsed();
    FileLands();
    FileRelocated(NamesOf(AfterAF()));
    RenameStep.RenameRefines(AfterAF(), "/f", "/a/g");
  }

  /** Rename /a to /a/b succeeds and takes the directory out of the tree. */
  lemma RenameIntoItself()
    ensures RenameStep.CanRename(AfterA(LARGE), "/a", "/a/b") && Rename(AfterA(LARGE), "/a", "/a/b").1 == Success
    ensures !Consistent(Rename(AfterA(LARGE), "/a", "/a/b").0)
  {
    hide Consistent, Links.LinksOk, LinksNear, NamesOf, Spelled, AfterA, LegalName, LegalPath, DirsAbove, Tokens,
         Rename, Walk,
         RenameStep.CanRename, RenameStep.LandingDir, RenameStep.Landing;
    HasA(LARGE);
    PathsUsed();
    assert [] + ["a"] == ["a"] && ["a"] + ["b"] == ["a", "b"];
    Above(NamesOf(AfterA(LARGE)), [], "a");
    Above(NamesOf(AfterA(LARGE)), ["a"], "b");
    Lands(AfterA(LARGE), "/a", [], "a", "/a/b", ["a"], "b");
    RenameStep.RenameConsistentIff(AfterA(LARGE), "/a", "/a/b");
  }

  /** With a file at /a/f, rename /f to /a/g succeeds and puts a second f into /a. */
  lemma RenameTwiceNamed()
    ensures Allowed(AfterAF(), OpenAt("/a/f", true, false, 0))
    ensures var s := Step(AfterAF(), OpenAt("/a/f", true, false, 0)).0;
            && RenameStep.CanRename(s, "/f", "/a/g") && Rename(s, "/f", "/a/g").1 == Success
            && !Consistent(Rename(s, "/f", "/a/g").0)
  {
    hide Consistent, Links.LinksOk, LinksNear, NamesOf, Spelled, AfterAF, LegalName, LegalPath, DirsAbove, Tokens,
         Rename, Step, Allowed, Walk,
         RenameStep.CanRename, RenameStep.LandingDir, RenameStep.Landing;
    HasAF();
    PathsUsed();
    assert [] + ["f"] == ["f"] && ["a"] + ["g"] == ["a", "g"] && ["a"] + ["f"] == ["a", "f"];
    Above(NamesOf(AfterAF()), ["a"], "f");
    Created(AfterAF(), "/a/f", ["a"], "f");
    var s := Step(AfterAF(), OpenAt("/a/f", true, false, 0)).0;
    Above(NamesOf(s), [], "f");
    Above(NamesOf(s), ["a"], "g");
    Lands(s, "/f", [], "f", "/a/g", ["a"], "g");
    RenameStep.RenameConsistentIff(s, "/f", "/a/g");
  }

  /** Two directories, /a and /b. */
  function AfterAB(): State {
    Step(AfterA(LARGE), MkdirAt("/b")).0
  }

  lemma HasAB()
    ensures Allowed(AfterA(LARGE), MkdirAt("/b")) && Consistent(AfterAB()) && Links.LinksOk(AfterAB())
    ensures NamesOf(AfterAB()) == imap[[] := DirNode(ROOT_INO), ["a"] := DirNode(3), ["b"] := DirNode(4)]
  {
    hide Consistent, Links.LinksOk, LinksNear, NamesOf, Spelled, AfterA, LegalName, LegalPath, DirsAbove, Tokens, Step,
         Allowed;
    HasA(LARGE);
    PathsUsed();
    assert [] + ["b"] == ["b"];
    Above(NamesOf(AfterA(LARGE)), [], "b");
    Made(AfterA(LARGE), "/b", [], "b");
  }

  lemma RoomInAB(t: NameMap)
    requires t == imap[[] := DirNode(ROOT_INO), ["a"] := DirNode(3), ["b"] := DirNode(4)]
    ensures [] + ["a"] == ["a"] && [] + ["b"] == ["b"] && ["a"] + ["b"] == ["a", "b"] && ["b"] + ["a"] == ["b", "a"]
    ensures ["a", "b"] !in t && ["b", "a"] !in t
    ensures DirsAbove(t, ["a"]) && DirsAbove(t, ["b"]) && DirsAbove(t, ["b", "a"])
  {
    hide DirsAbove;
    assert [] + ["a"] == ["a"] && [] + ["b"] == ["b"] && ["a"] + ["b"] == ["a", "b"] && ["b"] + ["a"] == ["b", "a"];
    Above(t, [], "a");
    Above(t, [], "b");
    Above(t, ["b"], "a");
  }

  lemma DirLands()
    ensures var s := AfterAB();
            && RenameStep.CanRename(s, "/a", "/b/a") && Rename(s, "/a", "/b/a").1 == Success
            && RenameStep.Succeeds(s, "/a", "/b/a")
            && RenameStep.LandingDir(s, "/b/a") == ["b"] && RenameStep.Landing(s, "/a", "/b/a") == ["b", "a"]
            && ["b", "a"] !in NamesOf(s) && !Below(["a"], ["b"]) && Resolve(View(s), ["b"]) != Walk(s, DirName("/a"))
            && Walk(s, "/a").Some? && IsDir(s.mem.itable, Walk(s, "/a").value)
  {
    hide Consistent, Links.LinksOk, LinksNear, NamesOf, Spelled, AfterAB, LegalName, LegalPath, DirsAbove, Tokens,
         Rename, Walk, Below,
         Resolve, RenameStep.CanRename, RenameStep.Succeeds, RenameStep.LandingDir, RenameStep.Landing;
    HasAB();
    PathsUsed();
    RoomInAB(NamesOf(AfterAB()));
    Lands(AfterAB(), "/a", [], "a", "/b/a", ["b"], "a");
    NotBelow(["a"], ["b"]);
    NodeIsDir(AfterAB(), "/a", ["a"]);
  }

  /** Rename /a to /b/a, allowed and successful, leaves a wrong link count or dot-dot entry. */
  lemma RenameStaleLinks()
    ensures Allowed(AfterAB(), RenameAt("/a", "/b/a")) && Rename(AfterAB(), "/a", "/b/a").1 == Success
    ensures Links.LinksOk(AfterAB()) && !Links.LinksOk(Rename(AfterAB(), "/a", "/b/a").0)
  {
    hide Consistent, Links.LinksOk, LinksNear, NamesOf, Spelled, AfterAB, LegalName, LegalPath, DirsAbove, Tokens,
         Rename, Walk, Below,
         Resolve, RenameStep.CanRename, RenameStep.Succeeds, RenameStep.LandingDir, RenameStep.Landing;
    HasAB();
    PathsUsed();
    DirLands();
    Links.StepLinksIff(AfterAB(), RenameAt("/a", "/b/a"));
  }

  /** A rename whose target is a directory that has nothing by the source's name. */
  lemma LandsIn(s: State, from: string, d: Path, x: string, to: string, e: Path, y: string)
    requires Consistent(s) && Spelled(from, d, x) && LegalPath(d) && LegalName(x) && d + [x] in NamesOf(s)
    requires Spelled(to, e, y) && LegalPath(e) && LegalName(y) && e in NamesOf(s)
    requires e + [y] in NamesOf(s) && NamesOf(s)[e + [y]].DirNode? && e + [y] + [x] !in NamesOf(s)
    requires DirsAbove(NamesOf(s), d + [x]) && DirsAbove(NamesOf(s), e + [y])
    ensures RenameStep.CanRename(s, from, to) && Rename(s, from, to).1 == Success && Walk(s, to).Some?
    ensures RenameStep.LandingDir(s, to) == e + [y] && RenameStep.Landing(s, from, to) == e + [y] + [x]
  {
    hide Consistent, DirView, NodeAt, Rename, RenameStep.TargetTaken;
    GoodWhen(s, from, d, x);
    GoodWhen(s, to, e, y);
    PathFacts(s, from);
    PathFacts(s, to);
    TakenInNames(s, from, to);
    RenameStep.RenameStatus(s, from, to);
  }

  lemma DirLandsIn()
    ensures var s := AfterAB();
            && RenameStep.CanRename(s, "/b", "/a") && Rename(s, "/b", "/a").1 == Success && Walk(s, "/a").Some?
            && RenameStep.LandingDir(s, "/a") == ["a"] && RenameStep.Landing(s, "/b", "/a") == ["a", "b"]
            && ["a", "b"] !in NamesOf(s) && !Below(["b"], ["a"])
  {
    hide Consistent, Links.LinksOk, LinksNear, NamesOf, Spelled, AfterAB, LegalName, LegalPath, DirsAbove, Tokens,
         Rename, Walk, Below,
         RenameStep.CanRename, RenameStep.Succeeds, RenameStep.LandingDir, RenameStep.Landing;
    HasAB();
    PathsUsed();
    RoomInAB(NamesOf(AfterAB()));
    LandsIn(AfterAB(), "/b", [], "b", "/a", [], "a");
    NotBelow(["b"], ["a"]);
  }

  /** Rename /b to /a, which is there, succeeds and leaves the directory at /a/b. */
  lemma RenameLandsBelow()
    ensures Allowed(AfterAB(), RenameAt("/b", "/a")) && Rename(AfterAB(), "/b", "/a").1 == Success
    ensures var names := NamesOf(Rename(AfterAB(), "/b", "/a").0);
            ["a"] in names && names[["a"]] == DirNode(3) && ["a", "b"] in names && names[["a", "b"]] == DirNode(4)
  {
    hide Consistent, Links.LinksOk, LinksNear, NamesOf, Spelled, AfterAB, LegalName, LegalPath, DirsAbove, Tokens,
         Rename, Walk, Below, BaseName, Allowed,
         RenameStep.CanRename, RenameStep.Succeeds, RenameStep.LandingDir, RenameStep.Landing;
    HasAB();
    PathsUsed();
    DirLandsIn();
    SpelledBase("/b", [], "b");
    assert ["a"] + ["b"] == ["a", "b"];
    OneBelow(AfterAB(), "/b", ["b"], "b", "/a", ["a"]);
  }

  lemma OneBelow(s: State, from: string, f: Path, x: string, to: string, q: Path)
    requires RenameStep.CanRename(s, from, to) && Rename(s, from, to).1 == Success && Walk(s, to).Some? && '/' in from && '/' in to
    requires Tokens(from) == f && BaseName(from) == x && Tokens(to) == q && !Below(f, q)
    requires RenameStep.LandingDir(s, to) == q && RenameStep.Landing(s, from, to) == q + [x] && q + [x] !in NamesOf(s)
    ensures Allowed(s, RenameAt(from, to))
    ensures var t, names := NamesOf(s), NamesOf(Rename(s, from, to).0);
            && f in t && q in t && q in names && names[q] == t[q] && q + [x] in names && names[q + [x]] == t[f]
  {
    hide Consistent, NamesOf, Rename, Below, RenameStep.CanRename, RenameStep.Succeeds, RenameStep.LandingDir, RenameStep.Landing;
    RenameStep.RenameOntoDirectory(s, from, to);
  }

  lemma SpelledBase(path: string, d: Path, x: string)
    requires Spelled(path, d, x)
    ensures '/' in path && BaseName(path) == x
  {
  }

  lemma NodeIsDir(s: State, path: string, p: Path)
    requires Tokens(path) == p && p in NamesOf(s) && NamesOf(s)[p].DirNode?
    ensures Walk(s, path).Some? && IsDir(s.mem.itable, Walk(s, path).value)
  {
  }

  // ---------------------------------------------------------------- a dot-dot that leads nowhere

  const NESTED := MkdirAt("/a/b")
  const MOVE_OUT := RenameAt("/a/b", "/b")
  const REMOVE_A := RmdirAt("/a")

  /** A directory /a/b, moved to /b. */
  function AfterNested(): State {
    Step(AfterA(LARGE), NESTED).0
  }

  function AfterMoved(): State {
    Step(AfterNested(), MOVE_OUT).0
  }

  lemma HasNested()
    ensures Allowed(AfterA(LARGE), NESTED) && Step(AfterA(LARGE), NESTED).1 == Done(Success) && Good(AfterNested())
    ensures NamesOf(AfterNested()) == imap[[] := DirNode(ROOT_INO), ["a"] := DirNode(3), ["a", "b"] := DirNode(4)]
  {
    hide Consistent, Links.LinksOk, LinksNear, NamesOf, Spelled, AfterA, LegalName, LegalPath, DirsAbove, Tokens, Step,
         Allowed;
    HasA(LARGE);
    PathsUsed();
    assert ["a"] + ["b"] == ["a", "b"];
    Above(NamesOf(AfterA(LARGE)), ["a"], "b");
    Made(AfterA(LARGE), "/a/b", ["a"], "b");
  }

  lemma MovedOut(t: NameMap)
    requires t == imap[[] := DirNode(ROOT_INO), ["a"] := DirNode(3), ["a", "b"] := DirNode(4)]
    ensures Relocate(t, ["a", "b"], ["b"]) == imap[[] := DirNode(ROOT_INO), ["a"] := DirNode(3), ["b"] := DirNode(4)]
  {
    hide LegalPath;
    var from, to := ["a", "b"], ["b"];
    LegalShort();
    assert Relocated(from, to, to) == Some(from) by { assert from + to[1..] == from; }
    NotBelow(to, ["a"]);
    assert Relocated(from, to, []) == Some([]) && Relocated(from, to, ["a"]) == Some(["a"]);
    forall q: Path | Relocated(from, to, q).Some? && Relocated(from, to, q).value in t
      ensures q == [] || q == ["a"] || q == to
    {
      if Below(to, q) {
        assert |Relocated(from, to, q).value| == 2 + |q[1..]|;
        assert q == to + q[1..];
      }
    }
  }

  lemma LegalShort()
    ensures LegalPath([]) && LegalPath(["a"]) && LegalPath(["b"])
  {
  }

  /** A rename that takes /a/b to the root. */
  lemma MovesOut(s: State, from: string, to: string)
    requires Good(s) && Tokens(from) == ["a", "b"] && '/' in from && '/' in to
    requires NamesOf(s) == imap[[] := DirNode(ROOT_INO), ["a"] := DirNode(3), ["a", "b"] := DirNode(4)]
    requires RenameStep.CanRename(s, from, to) && Rename(s, from, to).1 == Success
    requires RenameStep.LandingDir(s, to) == [] && RenameStep.Landing(s, from, to) == ["b"]
    ensures Allowed(s, RenameAt(from, to)) && Good(Step(s, RenameAt(from, to)).0)
    ensures NamesOf(Step(s, RenameAt(from, to)).0) == imap[[] := DirNode(ROOT_INO), ["a"] := DirNode(3), ["b"] := DirNode(4)]
  {
    hide Consistent, LinksNear, NamesOf, Relocate, Rename, Tokens, RenameStep.CanRename, RenameStep.Succeeds,
         RenameStep.LandingDir, RenameStep.Landing, Abs;
    assert ["b"] !in NamesOf(s);
    MovedOut(NamesOf(s));
    RenameStep.RenameRefines(s, from, to);
    StepRefines(s, RenameAt(from, to));
  }

  lemma HasMoved()
    ensures Allowed(AfterNested(), MOVE_OUT) && Good(AfterMoved())
    ensures NamesOf(AfterMoved()) == imap[[] := DirNode(ROOT_INO), ["a"] := DirNode(3), ["b"] := DirNode(4)]
  {
    hide Consistent, LinksNear, NamesOf, Spelled, AfterNested, LegalName, LegalPath, DirsAbove, Tokens, Relocate, Rename, Step,
         Walk, Resolve, RenameStep.CanRename, RenameStep.Succeeds, RenameStep.LandingDir, RenameStep.Landing, Allowed, Good, Below;
    HasNested();
    MoveLands();
    MovesOut(AfterNested(), "/a/b", "/b");
  }

  lemma MoveLands()
    ensures var s := AfterNested();
            && RenameStep.CanRename(s, "/a/b", "/b") && Rename(s, "/a/b", "/b").1 == Success
            && RenameStep.LandingDir(s, "/b") == [] && RenameStep.Landing(s, "/a/b", "/b") == ["b"]
    ensures Tokens("/a/b") == ["a", "b"]
  {
    hide Consistent, LinksNear, NamesOf, Spelled, AfterNested, LegalName, LegalPath, DirsAbove, Tokens, Good,
         Rename, Walk, Resolve, RenameStep.CanRename, RenameStep.LandingDir, RenameStep.Landing, RenameStep.Succeeds;
    NewInNested();
    PathsUsed();
    assert ["a"] + ["b"] == ["a", "b"] && [] + ["b"] == ["b"];
    SpelledTokens("/a/b", ["a"], "b");
    Lands(AfterNested(), "/a/b", ["a"], "b", "/b", [], "b");
  }

  lemma SpelledTokens(path: string, d: Path, x: string)
    requires Spelled(path, d, x)
    ensures Tokens(path) == d + [x]
  {
  }

  lemma NewInNested()
    ensures Consistent(AfterNested())
    ensures var t := NamesOf(AfterNested()); NewName(t, "/b", [], "b") && DirsAbove(t, ["a"] + ["b"]) && ["a"] + ["b"] in t && ["a"] in t
  {
    hide Consistent, LinksNear, NamesOf, Spelled, AfterNested, LegalName, LegalPath, DirsAbove, Tokens;
    HasNested();
    PathsUsed();
    RoomAtTop(NamesOf(AfterNested()), "/b");
  }

  lemma RoomAtTop(t: NameMap, path: string)
    requires t == imap[[] := DirNode(ROOT_INO), ["a"] := DirNode(3), ["a", "b"] := DirNode(4)]
    requires Spelled(path, [], "b") && LegalName("b")
    ensures NewName(t, path, [], "b") && DirsAbove(t, ["a"] + ["b"]) && ["a"] + ["b"] in t && ["a"] in t
  {
    hide LegalName, DirsAbove, Spelled;
    assert ["a"] + ["b"] == ["a", "b"] && [] + ["b"] == ["b"] && ["b"][0] != ["a"][0];
    LegalShort();
    Above(t, ["a"], "b");
    Above(t, [], "b");
  }

  lemma RemovesA()
    ensures Allowed(AfterMoved(), REMOVE_A)
    ensures var (s, reply) := Step(AfterMoved(), REMOVE_A);
            && reply == Done(Success) && Good(s) && NamesOf(s) == imap[[] := DirNode(ROOT_INO), ["b"] := DirNode(4)]
  {
    hide Consistent, LinksNear, NamesOf, Spelled, AfterMoved, LegalName, LegalPath, DirsAbove, Tokens, Step, Walk;
    HasMoved();
    PathsUsed();
    var t := NamesOf(AfterMoved());
    assert [] + ["a"] == ["a"];
    Above(t, [], "a");
    GoodWhen(AfterMoved(), "/a", [], "a");
    NodeIsDir(AfterMoved(), "/a", ["a"]);
    NotBelow(["a"], ["b"]);
    assert Childless(t, ["a"]);
    StepRefines(AfterMoved(), REMOVE_A);
    assert Without(t, ["a"]) == imap[[] := DirNode(ROOT_INO), ["b"] := DirNode(4)];
  }

  lemma DirsAreNodes(s: State, i: nat)
    requires Consistent(s)
    ensures IsDir(s.mem.itable, i) <==> exists p :: p in NamesOf(s) && NamesOf(s)[p] == DirNode(i)
  {
    hide BlocksOk, HandlesOk, DiskOk, Content;
    if IsDir(s.mem.itable, i) {
      assert i in View(s);
      var p :| LegalPath(p) && Resolve(View(s), p) == Some(i);
      assert p in NamesOf(s) && NamesOf(s)[p] == DirNode(i);
    }
  }

  /** A directory made as inode 4 in inode 3 that outlives it by two operations. */
  lemma Outlives(s: State, path: string, op: Op, last: Op)
    requires Consistent(s) && Allowed(s, MkdirAt(path)) && Step(s, MkdirAt(path)).1 == Done(Success)
    requires s.sbi.lastIno == 4 && InDir(s, path) == Some(3)
    requires var s1 := Step(s, MkdirAt(path)).0;
             var s2 := Step(s1, op).0;
             var s3 := Step(s2, last).0;
             && Allowed(s1, op) && Allowed(s2, last)
             && IsDir(s1.mem.itable, 4) && IsDir(s2.mem.itable, 4) && IsDir(s3.mem.itable, 4) && !IsDir(s3.mem.itable, 3)
    ensures var s3 := Step(Step(Step(s, MkdirAt(path)).0, op).0, last).0;
            |Listings.Shown(s3, 4)| > 1 && Listings.Shown(s3, 4)[1] == ("..", 3, false)
  {
    hide Consistent, Allowed, Step, InDir, Listings.Shown;
    var s1 := Step(s, MkdirAt(path)).0;
    var s2 := Step(s1, op).0;
    var s3 := Step(s2, last).0;
    var ops := [op, last];
    assert ops[1..] == [last] && [last][1..] == [];
    assert Run(s2, [last]) == Run(s3, []) == s3 && AllowedRun(s2, [last]) && Listings.Stays(s2, [last], 4);
    Listings.DotDotIsBirthplace(s, path, ops);
  }

  /** mkdir /a/b, rename /a/b to /b, rmdir /a: from then on readdir of /b shows dot-dot as inode 3, not a directory. */
  lemma DotDotDangles()
    ensures Allowed(AfterA(LARGE), NESTED) && Allowed(AfterNested(), MOVE_OUT) && Allowed(AfterMoved(), REMOVE_A)
    ensures var (s, reply) := Step(AfterMoved(), REMOVE_A);
            && reply == Done(Success) && ["b"] in NamesOf(s) && NamesOf(s)[["b"]] == DirNode(4)
            && |Listings.Shown(s, 4)| > 1 && Listings.Shown(s, 4)[1] == ("..", 3, false)
  {
    hide Consistent, LinksNear, NamesOf, Allowed, Step, AfterA, Listings.Shown, Spelled, Tokens, IsDir, Links.LinksOk, InDir;
    HasNested();
    HasMoved();
    RemovesA();
    HasA(LARGE);
    PathsUsed();
    InDirIs(AfterA(LARGE), "/a/b", ["a"], "b", 3);
    IsDirAt(AfterNested(), ["a", "b"], 4);
    IsDirAt(AfterMoved(), ["b"], 4);
    IsDirAt(Step(AfterMoved(), REMOVE_A).0, ["b"], 4);
    NoDir(Step(AfterMoved(), REMOVE_A).0, 3);
    Outlives(AfterA(LARGE), "/a/b", MOVE_OUT, REMOVE_A);
  }

  lemma IsDirAt(s: State, p: Path, i: nat)
    requires Consistent(s) && p in NamesOf(s) && NamesOf(s)[p] == DirNode(i)
    ensures IsDir(s.mem.itable, i)
  {
    hide Consistent, NamesOf;
    DirsAreNodes(s, i);
  }

  lemma NoDir(s: State, i: nat)
    requires Consistent(s) && forall p :: p in NamesOf(s) ==> NamesOf(s)[p] != DirNode(i)
    ensures !IsDir(s.mem.itable, i)
  {
    hide Consistent, NamesOf;
    DirsAreNodes(s, i);
  }

  lemma InDirIs(s: State, path: string, d: Path, x: string, i: nat)
    requires Spelled(path, d, x) && d in NamesOf(s) && NamesOf(s)[d] == DirNode(i)
    ensures InDir(s, path) == Some(i)
  {
  }

  /** With both data blocks taken, mkdir /b fails, and memory and device part. */
  lemma MkdirLosesInode()
    ensures var s := AfterA(SMALL);
            var (s', reply) := Step(s, MkdirAt("/b"));
            && Allowed(s, MkdirAt("/b")) && Ledger.LosesInode(s, MkdirAt("/b")) && reply == Done(Error)
            && MountStep.Synced(s) && !MountStep.Synced(s')
  {
    hide Consistent, Links.LinksOk, LinksNear, NamesOf, Spelled, AfterA, Mkdir;
    HasA(SMALL);
    PathsUsed();
    var s := AfterA(SMALL);
    GoodWhen(s, "/b", [], "b");
    PathFacts(s, "/b");
    TwoTaken(s);
    MkdirStep.MkdirStatus(s, InDir(s, "/b").value, "b");
    MkdirStep.ChildInNames(s, InDir(s, "/b").value, "b", []);
    Ledger.SyncedStepIff(s, MkdirAt("/b"));
  }

  /** After that, a remount makes alloc_new_inode hand out the lost number again. */
  lemma NumberComesBack()
    ensures var s := AfterA(SMALL);
            var s1 := Step(s, MkdirAt("/b")).0;
            var s2 := Step(s1, Unmount).0;
            && Allowed(s, MkdirAt("/b")) && Allocated(s, MkdirAt("/b")) == Some(4) && Lagging(s1)
            && Allowed(s2, OpenAt("/f", true, false, 0)) && Allocated(s2, OpenAt("/f", true, false, 0)) == Some(4)
  {
    hide Consistent, Links.LinksOk, LinksNear, NamesOf, Spelled, AfterA, LegalName, LegalPath, DirsAbove, Tokens, Step,
         Allowed,
         Ledger.LosesInode, Ledger.Issued;
    HasA(SMALL);
    PathsUsed();
    MkdirLosesInode();
    var s := AfterA(SMALL);
    var s1 := Step(s, MkdirAt("/b")).0;
    var s2 := Step(s1, Unmount).0;
    SyncedNotLagging(s);
    LostThenMounted(s, MkdirAt("/b"));
    assert [] + ["f"] == ["f"];
    Above(NamesOf(s2), [], "f");
    Created(s2, "/f", [], "f");
  }

  lemma SyncedNotLagging(s: State)
    requires Consistent(s) && MountStep.Synced(s)
    ensures !Lagging(s)
  {
    hide BlocksOk, TreeOk, HandlesOk;
  }

  /** A mkdir that loses its inode changes no name; a remount takes the hint back. */
  lemma LostThenMounted(s: State, op: Op)
    requires Ready(s) && Allowed(s, op) && Ledger.LosesInode(s, op) && !Lagging(s)
    ensures var s1 := Step(s, op).0;
            var s2 := Step(s1, Unmount).0;
            Lagging(s1) && Ready(s2) && s2.sbi.lastIno == s.sbi.lastIno && NamesOf(s2) == NamesOf(s)
  {
    hide Consistent, Links.LinksOk, LinksNear, NamesOf, Ledger.Booked, Allowed, Step;
    var s1 := Step(s, op).0;
    var s2 := Step(s1, Unmount).0;
    var c := Ledger.StepBooked(s, op);
    HintMoves(s, s1, c);
    HintBounds(s);
    CountsMove(s, s1, c);
    UnmountAllowed(s1);
    StepRefines(s, op);
    StepRefines(s1, Unmount);
    Links.StepLinksIff(s, op);
    Links.StepLinksIff(s1, Unmount);
    assert Abs(s1).names == Abs(s).names by { LostNames(s, op); }
  }

  lemma UnmountAllowed(s: State)
    ensures Allowed(s, Unmount)
  {
  }

  lemma LostNames(s: State, op: Op)
    requires Good(s) && Allowed(s, op) && Ledger.LosesInode(s, op)
    ensures Abs(Step(s, op).0).names == Abs(s).names
  {
    hide Consistent, LinksNear, NamesOf, Step;
    FullIffNoneFree(s);
    StepRefines(s, op);
  }

  lemma TwoTaken(s: State)
    requires Consistent(s) && |s.mem.dbits| == |s.blocks|
    ensures MkdirStep.Full(s)
  {
    hide TreeOk;
    var all := Range(|s.blocks|);
    assert s.mem.dbits <= all;
    SameCard(s.mem.dbits, all);
  }

  // ---------------------------------------------------------------- file data

  const THREE: seq<bv8> := [1, 2, 3]
  const CUT: seq<bv8> := [1, 0, 3]
  const NINE: seq<bv8> := [9]

  /** An empty file /f, open under id 3. */
  function AfterF(sectors: nat): State
    requires Formattable(sectors)
  {
    Step(FormatAndMount(sectors), OpenAt("/f", true, false, 0)).0
  }

  ghost function AbstractF(data: seq<bv8>, free: int, next: nat, kept: nat): Abstract {
    Abstract(imap[[] := DirNode(ROOT_INO), ["f"] := FileNode(3, data)], map[3 := 3], next, kept, free)
  }

  lemma HasF(sectors: nat)
    requires sectors == SMALL || sectors == LARGE
    ensures Formattable(sectors) && Allowed(FormatAndMount(sectors), OpenAt("/f", true, false, 0))
    ensures Step(FormatAndMount(sectors), OpenAt("/f", true, false, 0)).1 == Opened(3)
    ensures Good(AfterF(sectors)) && Abs(AfterF(sectors)) == AbstractF([], sectors / 8 - 5, 4, 4)
    ensures Ledger.IsCreate(FormatAndMount(sectors), OpenAt("/f", true, false, 0))
  {
    hide Consistent, Links.LinksOk, LinksNear, NamesOf, Spelled, LegalName, LegalPath, DirsAbove, Step, Allowed, Abs,
         Tokens, Childless, FormatAndMount, DirName, Formattable, Ledger.Issued;
    PathsUsed();
    Fresh(sectors);
    FormatAbs(sectors);
    BlocksOf(sectors);
    assert [] + ["f"] == ["f"];
    Above(NamesOf(FormatAndMount(sectors)), [], "f");
    Created(FormatAndMount(sectors), "/f", [], "f");
    StepRefines(FormatAndMount(sectors), OpenAt("/f", true, false, 0));
    SpelledParts("/f", [], "f");
    assert FirstFree(map[], START_OPEN_FILE) == Some(3);
  }

  lemma BlocksOf(sectors: nat)
    requires sectors == SMALL || sectors == LARGE
    ensures DataBlocks(sectors) == sectors / 8 - 4
  {
  }

  lemma SpelledParts(path: string, d: Path, x: string)
    requires Spelled(path, d, x)
    ensures '/' in path && Tokens(DirName(path)) == d && Tokens(path) == d + [x]
  {
  }

  /** File 3 holds `data` in such a state, and its handle is open. */
  lemma HoldsData(s: State, data: seq<bv8>, free: int, next: nat, kept: nat)
    requires Good(s) && Abs(s) == AbstractF(data, free, next, kept)
    ensures FileStep.OpenHandle(s, 3) && FileStep.FileData(s, 3) == data && DataOf(Abs(s).names, 3) == data
  {
    hide Consistent, LinksNear, NamesOf, FileStep.FileData;
    assert 3 in HandlesOf(s.files);
    var p := HandleData(s, 3);
    assert FileAt(Abs(s).names, ["f"], 3);
  }

  lemma WritesTo(s: State, data: seq<bv8>, free: int, next: nat, kept: nat, buf: seq<bv8>)
    requires Good(s) && Abs(s) == AbstractF(data, free, next, kept)
    requires buf != [] && |buf| <= CLUSTER_SIZE && (data == [] ==> free > 0)
    ensures Allowed(s, WriteAt(3, buf, 0)) && Good(Step(s, WriteAt(3, buf, 0)).0)
    ensures Step(s, WriteAt(3, buf, 0)).1 == Wrote(if data == [] then |buf| else CLUSTER_SIZE)
    ensures Abs(Step(s, WriteAt(3, buf, 0)).0) ==
            AbstractF(FileStep.Written(data, buf, 0), if data == [] then free - 1 else free, next, next)
  {
    hide Consistent, LinksNear, NamesOf, FileStep.FileData, Step, FileStep.Written, Abs, DataOf;
    HoldsData(s, data, free, next, kept);
    StepRefines(s, WriteAt(3, buf, 0));
    var t := AbstractF(data, free, next, kept).names;
    assert FileAt(t, ["f"], 3);
  }

  /** The same with 1, 2, 3 written to it. */
  function AfterThree(sectors: nat): State
    requires Formattable(sectors)
  {
    Step(AfterF(sectors), WriteAt(3, THREE, 0)).0
  }

  lemma HasThree(sectors: nat)
    requires sectors == SMALL || sectors == LARGE
    ensures Formattable(sectors)
    ensures Allowed(AfterF(sectors), WriteAt(3, THREE, 0)) && Step(AfterF(sectors), WriteAt(3, THREE, 0)).1 == Wrote(3)
    ensures Good(AfterThree(sectors)) && Abs(AfterThree(sectors)) == AbstractF(THREE, sectors / 8 - 6, 4, 4)
  {
    hide Consistent, LinksNear, NamesOf, AfterF, Step, Abs, DataOf, StrLen, Allowed;
    HasF(sectors);
    WritesTo(AfterF(sectors), [], sectors / 8 - 5, 4, 4, THREE);
    assert FileStep.Written([], THREE, 0) == THREE;
  }

  /** A read at offset 1 of a file that holds 1, 2, 3 hands out 1, 2, 3, not 2, 3. */
  lemma ReadIgnoresOffset()
    ensures FileStep.OpenHandle(AfterThree(LARGE), 3) && FileStep.FileData(AfterThree(LARGE), 3) == THREE
    ensures Allowed(AfterThree(LARGE), ReadAt(3, 10, 1)) && Step(AfterThree(LARGE), ReadAt(3, 10, 1)).1 == Got(THREE)
    ensures FileStep.Head(THREE[1..], 10) == [2, 3]
  {
    hide Consistent, LinksNear, NamesOf, AfterThree, Step, Abs, DataOf, StrLen;
    HasThree(LARGE);
    HoldsData(AfterThree(LARGE), THREE, 2, 4, 4);
    StepRefines(AfterThree(LARGE), ReadAt(3, 10, 1));
    FileStep.StrLenIs(THREE, 3);
    assert FileStep.Head(THREE, 10) == THREE == THREE[..3];
  }

  /** Writing 1, 0, 3 over 1, 2, 3 reports 4096 bytes and leaves 1, 0, 0. */
  lemma OverwriteCutsAtNul()
    ensures Allowed(AfterThree(LARGE), WriteAt(3, CUT, 0)) && Step(AfterThree(LARGE), WriteAt(3, CUT, 0)).1 == Wrote(CLUSTER_SIZE)
    ensures var s := Step(AfterThree(LARGE), WriteAt(3, CUT, 0)).0;
            FileStep.OpenHandle(s, 3) && FileStep.FileData(s, 3) == [1, 0, 0]
  {
    hide Consistent, LinksNear, NamesOf, AfterThree, Step, Abs, DataOf, StrLen, FileStep.FileData, Allowed;
    HasThree(LARGE);
    WritesTo(AfterThree(LARGE), THREE, 2, 4, 4, CUT);
    FileStep.StrLenIs(CUT, 1);
    assert FileStep.Written(THREE, CUT, 0) == [1, 0, 0];
    HoldsData(Step(AfterThree(LARGE), WriteAt(3, CUT, 0)).0, [1, 0, 0], 2, 4, 4);
  }

  /** Writing 9 over 1, 2, 3 leaves 9 alone, not 9, 2, 3. */
  lemma OverwriteDropsTheRest()
    ensures Allowed(AfterThree(LARGE), WriteAt(3, NINE, 0))
    ensures var s := Step(AfterThree(LARGE), WriteAt(3, NINE, 0)).0;
            FileStep.OpenHandle(s, 3) && FileStep.FileData(s, 3) == NINE
    ensures FileStep.Overlaid(THREE, NINE, 0) == [9, 2, 3]
  {
    hide Consistent, LinksNear, NamesOf, AfterThree, Step, Abs, DataOf, StrLen, FileStep.FileData, Allowed;
    HasThree(LARGE);
    WritesTo(AfterThree(LARGE), THREE, 2, 4, 4, NINE);
    WrittenNine();
    HoldsData(Step(AfterThree(LARGE), WriteAt(3, NINE, 0)).0, NINE, 2, 4, 4);
  }

  lemma WrittenNine()
    ensures FileStep.Written(THREE, NINE, 0) == NINE
  {
    hide StrLen;
    FileStep.StrLenIs(NINE, 1);
  }

  // ---------------------------------------------------------------- the inode count

  /** On a device that is full, a mkdir that loses its inode, then an overwrite, which writes the superblock but not
      the inode bitmap, then a remount. */
  function AfterLoss(): State {
    Step(AfterThree(SMALL), MkdirAt("/b")).0
  }

  function AfterOverwrite(): State {
    Step(AfterLoss(), WriteAt(3, NINE, 0)).0
  }

  lemma HasLoss()
    ensures Formattable(SMALL) && Allowed(AfterThree(SMALL), MkdirAt("/b")) && Ledger.LosesInode(AfterThree(SMALL), MkdirAt("/b"))
    ensures Good(AfterLoss()) && Abs(AfterLoss()) == AbstractF(THREE, 0, 5, 4)
  {
    hide Consistent, Links.LinksOk, LinksNear, NamesOf, Spelled, LegalName, LegalPath, DirsAbove, Step, Allowed, Abs,
         Tokens, DirName, AfterThree;
    HasThree(SMALL);
    PathsUsed();
    var s := AfterThree(SMALL);
    assert [] + ["b"] == ["b"];
    Above(AbstractF(THREE, 0, 4, 4).names, [], "b");
    SpelledParts("/b", [], "b");
    FullWithoutRoom(s, "/b", [], "b");
    StepRefines(s, MkdirAt("/b"));
  }

  /** With no block free, a mkdir of a new name loses an inode. */
  lemma FullWithoutRoom(s: State, path: string, d: Path, x: string)
    requires Good(s) && NewName(Abs(s).names, path, d, x) && Abs(s).free == 0 && Abs(s).next < INODES
    ensures Allowed(s, MkdirAt(path)) && Ledger.LosesInode(s, MkdirAt(path))
  {
    hide Consistent, LinksNear, NamesOf, Tokens;
    GoodWhen(s, path, d, x);
    PathFacts(s, path);
    FullIffNoneFree(s);
  }

  /** One file was created, but free inodes and set bits add up to 30. */
  lemma InodeCountSlips()
    ensures Formattable(SMALL) && Ledger.IsCreate(FormatAndMount(SMALL), OpenAt("/f", true, false, 0))
    ensures Allowed(AfterLoss(), WriteAt(3, NINE, 0))
    ensures var s := Step(AfterOverwrite(), Unmount).0;
            s.mem.sb.freeInodes + |s.mem.ibits| == 30 && !Ledger.InodesBalance(s, 1)
  {
    hide Consistent, LinksNear, NamesOf, AfterF, AfterThree, AfterLoss, AfterOverwrite, Step, Abs, Allowed, Behind,
         Ledger.LosesInode, Ledger.IsCreate;
    HasF(SMALL);
    HasThree(SMALL);
    HasLoss();
    WritesTo(AfterLoss(), THREE, 0, 5, 4, NINE);
    CountAfterThree();
    CountAfterOverwrite();
    UnmountAllowed(AfterOverwrite());
    OverwriteGood();
    NoLossIn(AfterOverwrite(), Unmount);
    StepSlips(AfterOverwrite(), Unmount, 0, 1);
  }

  lemma OverwriteGood()
    ensures Formattable(SMALL) && Good(AfterOverwrite())
  {
    hide Good, Abs, AfterLoss, Step, Allowed;
    HasLoss();
    WritesTo(AfterLoss(), THREE, 0, 5, 4, NINE);
  }

  lemma CountAfterThree()
    ensures Formattable(SMALL)
    ensures var s := AfterThree(SMALL); Behind(s, 0, 0) && s.mem.sb.freeInodes + |s.mem.ibits| == 31
  {
    hide Consistent, LinksNear, Step, Abs, Allowed, Behind, Ledger.LosesInode, Ledger.IsCreate, Ledger.Rereads;
    HasF(SMALL);
    HasThree(SMALL);
    MountStep.FormatConsistent(SMALL);
    FormatBalance(SMALL);
    StepSlips(FormatAndMount(SMALL), OpenAt("/f", true, false, 0), 0, 0);
    NoLossIn(FormatAndMount(SMALL), OpenAt("/f", true, false, 0));
    StepSlips(AfterF(SMALL), WriteAt(3, THREE, 0), 0, 0);
    NoLossIn(AfterF(SMALL), WriteAt(3, THREE, 0));
  }

  lemma CountAfterOverwrite()
    requires Behind(AfterThree(SMALL), 0, 0)
    requires AfterThree(SMALL).mem.sb.freeInodes + |AfterThree(SMALL).mem.ibits| == 31
    ensures var s := AfterOverwrite(); Behind(s, 0, 1) && s.mem.sb.freeInodes + |s.mem.ibits| == 31
  {
    hide Consistent, LinksNear, Step, Abs, Allowed, Behind, Ledger.LosesInode, Ledger.IsCreate, Ledger.Rereads, AfterThree;
    HasThree(SMALL);
    HasLoss();
    WritesTo(AfterLoss(), THREE, 0, 5, 4, NINE);
    StepSlips(AfterThree(SMALL), MkdirAt("/b"), 0, 0);
    LossKeepsHint(AfterThree(SMALL), MkdirAt("/b"));
    StepSlips(AfterLoss(), WriteAt(3, NINE, 0), 1, 1);
    NoLossIn(AfterLoss(), WriteAt(3, NINE, 0));
  }

  lemma NoLossIn(s: State, op: Op)
    requires !op.MkdirAt?
    ensures !Ledger.LosesInode(s, op)
    ensures op.WriteAt? || op.Unmount? ==> !Ledger.IsCreate(s, op) && !Ledger.Rereads(s, op)
  {
  }

  lemma LossKeepsHint(s: State, op: Op)
    requires Ledger.LosesInode(s, op)
    ensures !Ledger.Rereads(s, op) && !Ledger.IsCreate(s, op)
  {
  }
}
