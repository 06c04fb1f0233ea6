/** What the namespace operations do to the tree: one entry added, removed or moved. */
module TreeSteps {
  import opened Layout
  import opened Paths
  import opened Namespace

  // ---------------------------------------------------------------- adding a leaf

  /** Slot k of d becomes the entry e; a new directory also gets its own table of dot entries. */
  function AddEntry(ns: Dirs, d: nat, k: nat, e: Slot, isDir: bool): Dirs
    requires d in ns && k < |ns[d]|
  {
    var t := ns[d := ns[d][k := e]];
    if isDir then t[e.ino := DotSlots(e.ino, d)] else t
  }

  ghost predicate CanAdd(ns: Dirs, files: set<nat>, d: nat, k: nat, e: Slot) {
    && Tree(ns, files) && d in ns
    && 2 <= k < SLOTS && ns[d][k].flag != Used
    && e.flag == Used && LegalName(e.name) && FindSlot(ns[d], e.name) == None
    && ROOT_INO < e.ino < INODES && e.ino !in ns && e.ino !in files
  }

  lemma AddLookup(ns: Dirs, files: set<nat>, d: nat, k: nat, e: Slot, isDir: bool, f: nat, x: string)
    requires CanAdd(ns, files, d, k, e) && LegalName(x)
    ensures LookupIn(AddEntry(ns, d, k, e, isDir), Some(f), x) ==
            if f == d && x == e.name then Some(e.ino) else LookupIn(ns, Some(f), x)
  {
    ShapeAfterWrite(ns[d], d, k, e);
    ChildAfterWrite(ns[d], k, e, x);
    DotSlotsShape(e.ino, d);
  }

  /** Adding an entry adds one leaf: its path resolves to the new inode, every other path as before. */
  lemma {:induction false} AddResolves(ns: Dirs, files: set<nat>, d: nat, k: nat, e: Slot, isDir: bool, dp: Path, q: Path)
    requires CanAdd(ns, files, d, k, e)
    requires LegalPath(dp) && Resolve(ns, dp) == Some(d) && LegalPath(q)
    ensures Resolve(AddEntry(ns, d, k, e, isDir), q) == if q == dp + [e.name] then Some(e.ino) else Resolve(ns, q)
    decreases |q|
  {
    var ns' := AddEntry(ns, d, k, e, isDir);
    if q != [] {
      var q', x := q[..|q| - 1], q[|q| - 1];
      assert q == q' + [x];
      AddResolves(ns, files, d, k, e, isDir, dp, q');
      ResolveSnoc(ns, dp, e.name);
      var c := Resolve(ns', q');
      if c.Some? {
        AddLookup(ns, files, d, k, e, isDir, c.value, x);
        if c == Resolve(ns, q') && c.value == d { PathUnique(ns, files, q', dp); }
      }
    }
  }

  lemma AddKeepsNames(ns: Dirs, files: set<nat>, d: nat, k: nat, e: Slot, isDir: bool)
    requires CanAdd(ns, files, d, k, e)
    ensures NamesLive(AddEntry(ns, d, k, e, isDir), if isDir then files else files + {e.ino})
  {
    hide AllReached, FindSlot, LegalName;
    var ns' := AddEntry(ns, d, k, e, isDir);
    forall f, j, i | Names(ns', f, j, i)
      ensures if f == d && j == k then i == e.ino else Names(ns, f, j, i)
    {
    }
  }

  lemma AddKeepsPlan(ns: Dirs, files: set<nat>, d: nat, k: nat, e: Slot, isDir: bool)
    requires CanAdd(ns, files, d, k, e)
    ensures Plan(AddEntry(ns, d, k, e, isDir), if isDir then files else files + {e.ino})
  {
    hide NamesLive, AllReached, FindSlot, LegalName;
    AddKeepsNames(ns, files, d, k, e, isDir);
    AddKeepsShapes(ns, files, d, k, e, isDir);
  }

  lemma AddKeepsShapes(ns: Dirs, files: set<nat>, d: nat, k: nat, e: Slot, isDir: bool)
    requires CanAdd(ns, files, d, k, e)
    ensures Shapes(AddEntry(ns, d, k, e, isDir))
  {
    hide NamesLive, AllReached, LegalName, DotSlots, UniqueNames;
    ShapeAfterWrite(ns[d], d, k, e);
    DotSlotsShape(e.ino, d);
  }

  lemma AddKeepsTree(ns: Dirs, files: set<nat>, d: nat, k: nat, e: Slot, isDir: bool)
    requires CanAdd(ns, files, d, k, e)
    ensures Tree(AddEntry(ns, d, k, e, isDir), if isDir then files else files + {e.ino})
  {
    var ns' := AddEntry(ns, d, k, e, isDir);
    AddKeepsPlan(ns, files, d, k, e, isDir);
    var dp :| LegalPath(dp) && Resolve(ns, dp) == Some(d);
    forall i | i in ns' || i in files || i == e.ino
      ensures Reached(ns', i)
    {
      if i == e.ino {
        AddResolves(ns, files, d, k, e, isDir, dp, dp + [e.name]);
        assert LegalPath(dp + [e.name]);
      } else {
        var p :| LegalPath(p) && Resolve(ns, p) == Some(i);
        ResolveSnoc(ns, dp, e.name);
        AddResolves(ns, files, d, k, e, isDir, dp, p);
      }
    }
  }

  // ---------------------------------------------------------------- removing a leaf

  /** Slot k of d is marked deleted, and the table of the inode it named goes with it. */
  function RemoveEntry(ns: Dirs, d: nat, k: nat): Dirs
    requires d in ns && k < |ns[d]|
  {
    ns[d := ns[d][k := Unlinked(ns[d][k])]] - {ns[d][k].ino}
  }

  ghost predicate CanRemove(ns: Dirs, files: set<nat>, d: nat, k: nat) {
    && Tree(ns, files) && d in ns && 2 <= k < SLOTS && ns[d][k].flag == Used
    && (ns[d][k].ino in ns ==> NoEntries(ns[ns[d][k].ino]))
  }

  /** Name n of directory d is gone, the inode m it led to had no names below it, no other lookup differs. */
  ghost predicate LookupsRemoved(ns: Dirs, ns': Dirs, d: nat, n: string, m: nat) {
    && LookupIn(ns, Some(d), n) == Some(m)
    && (forall x :: LegalName(x) ==> LookupIn(ns, Some(m), x) == None)
    && forall f, x :: f != m && LegalName(x) ==>
         LookupIn(ns', Some(f), x) == if f == d && x == n then None else LookupIn(ns, Some(f), x)
  }

  lemma RemoveLookup(ns: Dirs, files: set<nat>, d: nat, k: nat, f: nat, x: string)
    requires CanRemove(ns, files, d, k) && LegalName(x) && f != ns[d][k].ino
    ensures LookupIn(RemoveEntry(ns, d, k), Some(f), x) ==
            if f == d && x == ns[d][k].name then None else LookupIn(ns, Some(f), x)
  {
    NoSelfEntry(ns, files, d, k);
    ShapeAfterWrite(ns[d], d, k, Unlinked(ns[d][k]));
    ChildAfterWrite(ns[d], k, Unlinked(ns[d][k]), x);
  }

  lemma RemoveLookups(ns: Dirs, files: set<nat>, d: nat, k: nat)
    requires CanRemove(ns, files, d, k)
    ensures LookupsRemoved(ns, RemoveEntry(ns, d, k), d, ns[d][k].name, ns[d][k].ino)
  {
    var m := ns[d][k].ino;
    FindUnique(ns[d], k, ns[d][k].name);
    forall x | LegalName(x)
      ensures LookupIn(ns, Some(m), x) == None
    {
      if m in ns { assert FindSlot(ns[m], x) == None; }
    }
    forall f, x | f != m && LegalName(x)
      ensures LookupIn(RemoveEntry(ns, d, k), Some(f), x) ==
              if f == d && x == ns[d][k].name then None else LookupIn(ns, Some(f), x)
    {
      RemoveLookup(ns, files, d, k, f, x);
    }
  }

  lemma {:induction false} WalkAfterRemove(ns: Dirs, files: set<nat>, ns': Dirs, d: nat, n: string, m: nat, dp: Path, q: Path)
    requires Plan(ns, files) && LookupsRemoved(ns, ns', d, n, m)
    requires LegalPath(dp) && LegalName(n) && Resolve(ns, dp) == Some(d) && LegalPath(q)
    ensures Resolve(ns', q) == if q == dp + [n] then None else Resolve(ns, q)
    decreases |q|
  {
    hide Plan, LegalName, Child;
    if q != [] {
      var q', x := q[..|q| - 1], q[|q| - 1];
      assert q == q' + [x];
      WalkAfterRemove(ns, files, ns', d, n, m, dp, q');
      ResolveSnoc(ns, dp, n);
      var c := Resolve(ns, q');
      if c == Some(m) {
        PathUnique(ns, files, q', dp + [n]);
        assert LookupIn(ns, Some(m), x) == None;
      } else if c.Some? {
        assert LookupIn(ns', Some(c.value), x) == if c.value == d && x == n then None else LookupIn(ns, Some(c.value), x);
        if c.value == d { PathUnique(ns, files, q', dp); }
      }
    }
  }

  /** Removing an entry removes one leaf: its path is gone, every other path resolves as before. */
  lemma RemoveResolves(ns: Dirs, files: set<nat>, d: nat, k: nat, dp: Path, q: Path)
    requires CanRemove(ns, files, d, k)
    requires LegalPath(dp) && Resolve(ns, dp) == Some(d) && LegalPath(q)
    ensures Resolve(RemoveEntry(ns, d, k), q) == if q == dp + [ns[d][k].name] then None else Resolve(ns, q)
  {
    RemoveLookups(ns, files, d, k);
    assert DirShape(ns[d], d);
    WalkAfterRemove(ns, files, RemoveEntry(ns, d, k), d, ns[d][k].name, ns[d][k].ino, dp, q);
  }

  lemma RemoveKeepsNames(ns: Dirs, files: set<nat>, d: nat, k: nat)
    requires NamesLive(ns, files) && d in ns && 2 <= k < |ns[d]| && ns[d][k].flag == Used
    ensures NamesLive(RemoveEntry(ns, d, k), files - {ns[d][k].ino})
  {
    var ns', m := RemoveEntry(ns, d, k), ns[d][k].ino;
    assert Names(ns, d, k, m);
    forall f, j, i | Names(ns', f, j, i)
      ensures Names(ns, f, j, i) && i != m
    {
      assert ns'[f] == if f == d then ns[d][k := Unlinked(ns[d][k])] else ns[f];
      assert f == d ==> j != k;
      if i == m { assert Names(ns, f, j, m); }
    }
  }

  lemma RemoveKeepsPlan(ns: Dirs, files: set<nat>, d: nat, k: nat)
    requires CanRemove(ns, files, d, k)
    ensures Plan(RemoveEntry(ns, d, k), files - {ns[d][k].ino})
  {
    var ns' := RemoveEntry(ns, d, k);
    RemoveKeepsNames(ns, files, d, k);
    assert Names(ns, d, k, ns[d][k].ino);
    ShapeAfterWrite(ns[d], d, k, Unlinked(ns[d][k]));
    forall f | f in ns'
      ensures DirShape(ns'[f], f)
    {
    }
  }

  lemma RemoveKeepsTree(ns: Dirs, files: set<nat>, d: nat, k: nat)
    requires CanRemove(ns, files, d, k)
    ensures Tree(RemoveEntry(ns, d, k), files - {ns[d][k].ino})
  {
    var ns', m := RemoveEntry(ns, d, k), ns[d][k].ino;
    RemoveKeepsPlan(ns, files, d, k);
    RemoveLookups(ns, files, d, k);
    assert Reached(ns, d);
    var dp :| LegalPath(dp) && Resolve(ns, dp) == Some(d);
    forall i | (i in ns || i in files) && i != m
      ensures Reached(ns', i)
    {
      var p :| LegalPath(p) && Resolve(ns, p) == Some(i);
      RemoveResolves(ns, files, d, k, dp, p);
      ResolveSnoc(ns, dp, ns[d][k].name);
    }
  }

  // ---------------------------------------------------------------- moving an entry

  /** The entry in slot k of `sd` goes, renamed, to slot j of `dd`; within one directory it stays put. */
  function MoveEntry(ns: Dirs, sd: nat, k: nat, dd: nat, j: nat, name: string): Dirs
    requires sd in ns && k < |ns[sd]| && dd in ns && j < |ns[dd]|
  {
    var e := ns[sd][k].(name := name);
    if sd == dd then ns[sd := ns[sd][k := e]]
    else ns[dd := ns[dd][j := e]][sd := ns[sd][k := Unlinked(ns[sd][k])]]
  }

  ghost predicate CanMove(ns: Dirs, files: set<nat>, sd: nat, k: nat, dd: nat, j: nat, name: string) {
    && Tree(ns, files) && sd in ns && dd in ns
    && 2 <= k < SLOTS && ns[sd][k].flag == Used
    && 2 <= j < SLOTS && (sd != dd ==> ns[dd][j].flag != Used)
    && LegalName(name) && FindSlot(ns[dd], name) == None
  }

  /** Name n of sd is gone, `name` of dd now leads to m, no other lookup differs. */
  ghost predicate LookupsMoved(ns: Dirs, ns': Dirs, sd: nat, n: string, dd: nat, name: string, m: nat) {
    && LookupIn(ns, Some(sd), n) == Some(m) && LookupIn(ns, Some(dd), name) == None
    && forall f, x :: LegalName(x) ==>
         LookupIn(ns', Some(f), x) ==
         if f == dd && x == name then Some(m) else if f == sd && x == n then None else LookupIn(ns, Some(f), x)
  }

  /** A lookup by another name than the one written, or in a table where that name was not. */
  lemma ChildAfterRename(slots: seq<Slot>, self: nat, k: nat, name: string, x: string)
    requires DirShape(slots, self) && 2 <= k < SLOTS && slots[k].flag == Used
    requires LegalName(name) && FindSlot(slots, name) == None
    ensures DirShape(slots[k := slots[k].(name := name)], self)
    ensures Child(slots[k := slots[k].(name := name)], x) ==
            if x == name then Some(slots[k].ino) else if x == slots[k].name then None else Child(slots, x)
  {
    ShapeAfterWrite(slots, self, k, slots[k].(name := name));
    ChildAfterWrite(slots, k, slots[k].(name := name), x);
  }

  lemma ChildAfterEntry(slots: seq<Slot>, self: nat, k: nat, e: Slot, x: string)
    requires DirShape(slots, self) && 2 <= k < SLOTS && slots[k].flag != Used && e.flag == Used
    requires LegalName(e.name) && FindSlot(slots, e.name) == None
    ensures DirShape(slots[k := e], self)
    ensures Child(slots[k := e], x) == if x == e.name then Some(e.ino) else Child(slots, x)
  {
    ShapeAfterWrite(slots, self, k, e);
    ChildAfterWrite(slots, k, e, x);
  }

  lemma ChildAfterUnlink(slots: seq<Slot>, self: nat, k: nat, x: string)
    requires DirShape(slots, self) && 2 <= k < SLOTS && slots[k].flag == Used
    ensures DirShape(slots[k := Unlinked(slots[k])], self)
    ensures Child(slots[k := Unlinked(slots[k])], x) == if x == slots[k].name then None else Child(slots, x)
  {
    ShapeAfterWrite(slots, self, k, Unlinked(slots[k]));
    ChildAfterWrite(slots, k, Unlinked(slots[k]), x);
  }

  lemma MoveLookup(ns: Dirs, files: set<nat>, sd: nat, k: nat, dd: nat, j: nat, name: string, f: nat, x: string)
    requires CanMove(ns, files, sd, k, dd, j, name) && LegalName(x)
    ensures LookupIn(MoveEntry(ns, sd, k, dd, j, name), Some(f), x) ==
            if f == dd && x == name then Some(ns[sd][k].ino)
            else if f == sd && x == ns[sd][k].name then None
            else LookupIn(ns, Some(f), x)
  {
    hide Child, FindSlot, NamesLive, AllReached;
    if sd == dd {
      ChildAfterRename(ns[sd], sd, k, name, x);
    } else {
      ChildAfterEntry(ns[dd], dd, j, ns[sd][k].(name := name), x);
      ChildAfterUnlink(ns[sd], sd, k, x);
    }
  }

  lemma MoveLookups(ns: Dirs, files: set<nat>, sd: nat, k: nat, dd: nat, j: nat, name: string)
    requires CanMove(ns, files, sd, k, dd, j, name)
    ensures LookupsMoved(ns, MoveEntry(ns, sd, k, dd, j, name), sd, ns[sd][k].name, dd, name, ns[sd][k].ino)
  {
    FindUnique(ns[sd], k, ns[sd][k].name);
    forall f, x | LegalName(x)
      ensures LookupIn(MoveEntry(ns, sd, k, dd, j, name), Some(f), x) ==
              if f == dd && x == name then Some(ns[sd][k].ino)
              else if f == sd && x == ns[sd][k].name then None
              else LookupIn(ns, Some(f), x)
    {
      MoveLookup(ns, files, sd, k, dd, j, name, f, x);
    }
  }

  predicate Below(p: Path, q: Path) {
    p <= q
  }

  /** Where the tree before the move has what `q` names after it. */
  function Relocated(from: Path, to: Path, q: Path): Option<Path> {
    if Below(to, q) then Some(from + q[|to|..])
    else if Below(from, q) then None
    else Some(q)
  }

  function ResolveOpt(ns: Dirs, p: Option<Path>): Option<nat> {
    if p.Some? then Resolve(ns, p.value) else None
  }

  lemma RelocatedSnoc(from: Path, to: Path, q: Path, x: string)
    requires from != to && (Below(to, q) ==> q + [x] != from)
    ensures Relocated(from, to, q + [x]) ==
            if q + [x] == to then Some(from)
            else if q + [x] == from then None
            else match Relocated(from, to, q) case None => None case Some(r) => Some(r + [x])
  {
    BelowSnoc(to, q, x);
    BelowSnoc(from, q, x);
    if q + [x] == to {
      assert from + (q + [x])[|to|..] == from;
    } else if Below(to, q) {
      assert from + (q + [x])[|to|..] == from + q[|to|..] + [x];
    }
  }

  lemma {:induction false} WalkAfterMove(ns: Dirs, files: set<nat>, ns': Dirs, sp: Path, n: string, dp: Path, name: string,
                                         m: nat, q: Path)
    requires Plan(ns, files) && LegalPath(sp + [n]) && LegalPath(dp + [name]) && LegalPath(q)
    requires Resolve(ns, sp).Some? && Resolve(ns, dp).Some?
    requires LookupsMoved(ns, ns', Resolve(ns, sp).value, n, Resolve(ns, dp).value, name, m)
    requires !Below(sp + [n], dp)
    ensures Resolve(ns', q) == ResolveOpt(ns, Relocated(sp + [n], dp + [name], q))
    decreases |q|
  {
    var from, to := sp + [n], dp + [name];
    ResolveSnoc(ns, sp, n);
    ResolveSnoc(ns, dp, name);
    NothingBelow(ns, to, sp);
    NothingBelow(ns, to, dp);
    if q != [] {
      var q', x := q[..|q| - 1], q[|q| - 1];
      assert q == q' + [x];
      WalkAfterMove(ns, files, ns', sp, n, dp, name, m, q');
      assert q == from ==> q' == sp;
      assert q == to ==> q' == dp && x == name;
      RelocatedSnoc(from, to, q', x);
      if q == to {
        assert Relocated(from, to, dp) == Some(dp);
        assert LegalName((dp + [name])[|dp|]);
      } else if Relocated(from, to, q').Some? {
        var r := Relocated(from, to, q').value;
        ResolveSnoc(ns, r, x);
        assert LegalPath(r);
        assert r == q' || Below(from, r);
        StepAfterMove(ns, files, ns', sp, n, dp, name, m, r, x);
      }
    }
  }

  /** One lookup in directory `r` after the move finds what it found before, except at the two ends. */
  lemma StepAfterMove(ns: Dirs, files: set<nat>, ns': Dirs, sp: Path, n: string, dp: Path, name: string, m: nat, r: Path, x: string)
    requires Plan(ns, files) && LegalPath(sp) && LegalPath(dp) && LegalPath(r) && LegalName(x)
    requires Resolve(ns, sp).Some? && Resolve(ns, dp).Some?
    requires LookupsMoved(ns, ns', Resolve(ns, sp).value, n, Resolve(ns, dp).value, name, m)
    requires !(r == dp && x == name)
    ensures LookupIn(ns', Resolve(ns, r), x) == if r == sp && x == n then None else LookupIn(ns, Resolve(ns, r), x)
  {
    if Resolve(ns, r).Some? {
      if Resolve(ns, r) == Resolve(ns, sp) { PathUnique(ns, files, r, sp); }
      if Resolve(ns, r) == Resolve(ns, dp) { PathUnique(ns, files, r, dp); }
    }
  }

  /** A move relocates a whole subtree: what is at or below `to` afterwards is what was at or below
      `from`, nothing is left at or below `from`, and every other path resolves as before. */
  lemma MoveResolves(ns: Dirs, files: set<nat>, sd: nat, k: nat, dd: nat, j: nat, name: string, sp: Path, dp: Path, q: Path)
    requires CanMove(ns, files, sd, k, dd, j, name)
    requires LegalPath(sp) && Resolve(ns, sp) == Some(sd)
    requires LegalPath(dp) && Resolve(ns, dp) == Some(dd)
    requires !Below(sp + [ns[sd][k].name], dp) && LegalPath(q)
    ensures Resolve(MoveEntry(ns, sd, k, dd, j, name), q) ==
            ResolveOpt(ns, Relocated(sp + [ns[sd][k].name], dp + [name], q))
  {
    MoveLookups(ns, files, sd, k, dd, j, name);
    assert DirShape(ns[sd], sd);
    WalkAfterMove(ns, files, MoveEntry(ns, sd, k, dd, j, name), sp, ns[sd][k].name, dp, name, ns[sd][k].ino, q);
  }

  lemma BelowSnoc(p: Path, q: Path, x: string)
    ensures Below(p, q + [x]) <==> Below(p, q) || p == q + [x]
  {
    if Below(p, q + [x]) && p != q + [x] {
      assert p == (q + [x])[..|p|] == q[..|p|];
    }
  }

  lemma NothingBelow(ns: Dirs, p: Path, q: Path)
    requires Resolve(ns, p) == None && Resolve(ns, q).Some?
    ensures !Below(p, q)
  {
    if Below(p, q) {
      assert q[..|p|] == p;
      PrefixResolves(ns, q, |p|);
    }
  }

  /** In the tree after the move m has one slot, in dd; every other slot was there before. */
  ghost predicate NamesMoved(ns: Dirs, ns': Dirs, dd: nat, j: nat, m: nat) {
    forall f, g, i :: Names(ns', f, g, i) ==> if i == m then f == dd && g == j else Names(ns, f, g, i)
  }

  lemma MoveNames(ns: Dirs, files: set<nat>, sd: nat, k: nat, dd: nat, j: nat, name: string)
    requires CanMove(ns, files, sd, k, dd, j, name)
    ensures NamesMoved(ns, MoveEntry(ns, sd, k, dd, j, name), dd, if sd == dd then k else j, ns[sd][k].ino)
    ensures Names(MoveEntry(ns, sd, k, dd, j, name), dd, if sd == dd then k else j, ns[sd][k].ino)
  {
    var ns', m := MoveEntry(ns, sd, k, dd, j, name), ns[sd][k].ino;
    assert Names(ns, sd, k, m);
    forall f, g, i | Names(ns', f, g, i)
      ensures if i == m then f == dd && g == (if sd == dd then k else j) else Names(ns, f, g, i)
    {
      if sd != dd && f == dd && g == j {
      } else if f == sd && g == k {
      } else {
        assert Names(ns, f, g, i);
      }
    }
  }

  lemma MoveKeepsPlan(ns: Dirs, files: set<nat>, sd: nat, k: nat, dd: nat, j: nat, name: string)
    requires CanMove(ns, files, sd, k, dd, j, name)
    ensures Plan(MoveEntry(ns, sd, k, dd, j, name), files)
  {
    var e := ns[sd][k].(name := name);
    assert Names(ns, sd, k, ns[sd][k].ino);
    if sd == dd {
      ShapeAfterWrite(ns[sd], sd, k, e);
    } else {
      ShapeAfterWrite(ns[dd], dd, j, e);
      ShapeAfterWrite(ns[sd], sd, k, Unlinked(ns[sd][k]));
    }
    MoveNames(ns, files, sd, k, dd, j, name);
  }

  /** Every path that is not hidden by the new entry is the source of one after the move. */
  lemma SourceOf(from: Path, to: Path, p: Path) returns (q: Path)
    requires LegalPath(to) && LegalPath(p) && (Below(from, p) || !Below(to, p))
    ensures LegalPath(q) && Relocated(from, to, q) == Some(p)
  {
    if Below(from, p) {
      var tail := p[|from|..];
      LegalSuffix(p, |from|);
      q := to + tail;
      assert q[|to|..] == tail && from + tail == p;
    } else {
      q := p;
    }
  }

  lemma ReachedAfterMove(ns: Dirs, files: set<nat>, ns': Dirs, sp: Path, n: string, dp: Path, name: string, m: nat, i: nat)
    requires Plan(ns, files) && LegalPath(sp + [n]) && LegalPath(dp + [name])
    requires Resolve(ns, sp).Some? && Resolve(ns, dp).Some?
    requires LookupsMoved(ns, ns', Resolve(ns, sp).value, n, Resolve(ns, dp).value, name, m)
    requires !Below(sp + [n], dp) && Reached(ns, i)
    ensures Reached(ns', i)
  {
    var p :| LegalPath(p) && Resolve(ns, p) == Some(i);
    ResolveSnoc(ns, dp, name);
    NothingBelow(ns, dp + [name], p);
    var q := SourceOf(sp + [n], dp + [name], p);
    WalkAfterMove(ns, files, ns', sp, n, dp, name, m, q);
  }

  lemma LegalSuffix(p: Path, k: nat)
    requires LegalPath(p) && k <= |p|
    ensures LegalPath(p[k..])
  {
  }

  lemma MoveKeepsReached(ns: Dirs, files: set<nat>, sd: nat, k: nat, dd: nat, j: nat, name: string, sp: Path, dp: Path)
    requires CanMove(ns, files, sd, k, dd, j, name)
    requires LegalPath(sp) && Resolve(ns, sp) == Some(sd)
    requires LegalPath(dp) && Resolve(ns, dp) == Some(dd)
    requires !Below(sp + [ns[sd][k].name], dp)
    ensures AllReached(MoveEntry(ns, sd, k, dd, j, name), files)
  {
    var ns' := MoveEntry(ns, sd, k, dd, j, name);
    MoveLookups(ns, files, sd, k, dd, j, name);
    assert DirShape(ns[sd], sd);
    forall i | i in ns || i in files
      ensures Reached(ns', i)
    {
      ReachedAfterMove(ns, files, ns', sp, ns[sd][k].name, dp, name, ns[sd][k].ino, i);
    }
  }

  /** When the destination lies below the moved inode, no path reaches any inode from the moved one
      down to the destination any more: each is named only from another one of them. */
  lemma {:induction false} Orphaned(ns: Dirs, files: set<nat>, ns': Dirs, from: Path, dp: Path, j: nat, q: Path, h: nat)
    requires Shapes(ns) && Shapes(ns') && NamesLive(ns, files)
    requires from != [] && Below(from, dp) && LegalPath(dp) && LegalPath(q)
    requires Resolve(ns, from).Some? && Resolve(ns, dp).Some?
    requires NamesMoved(ns, ns', Resolve(ns, dp).value, j, Resolve(ns, from).value)
    requires |from| <= h <= |dp|
    ensures Resolve(ns, dp[..h]).Some? && Resolve(ns', q) != Resolve(ns, dp[..h])
    decreases |q|
  {
    hide Names, LookupIn, DirShape, LegalName;
    PrefixResolves(ns, dp, h);
    var d, s := LastStep(ns, dp[..h]);
    if Resolve(ns', q) == Resolve(ns, dp[..h]) && q != [] {
      var d', s' := LastStep(ns', q);
      assert dp[..|from|] == from && dp[..|dp|] == dp && dp[..h][..h - 1] == dp[..h - 1];
      var up := if Resolve(ns', q) == Resolve(ns, from) then |dp| else h - 1;
      Orphaned(ns, files, ns', from, dp, j, q[..|q| - 1], up);
    }
  }

  /** A move keeps the tree a tree iff its destination is not at or below what is moved. */
  lemma MoveKeepsTreeIff(ns: Dirs, files: set<nat>, sd: nat, k: nat, dd: nat, j: nat, name: string, sp: Path, dp: Path)
    requires CanMove(ns, files, sd, k, dd, j, name)
    requires LegalPath(sp) && Resolve(ns, sp) == Some(sd)
    requires LegalPath(dp) && Resolve(ns, dp) == Some(dd)
    ensures Tree(MoveEntry(ns, sd, k, dd, j, name), files) <==> !Below(sp + [ns[sd][k].name], dp)
  {
    var ns', n, m := MoveEntry(ns, sd, k, dd, j, name), ns[sd][k].name, ns[sd][k].ino;
    var from := sp + [n];
    MoveKeepsPlan(ns, files, sd, k, dd, j, name);
    if Below(from, dp) {
      FindUnique(ns[sd], k, n);
      ResolveSnoc(ns, sp, n);
      MoveNames(ns, files, sd, k, dd, j, name);
      assert dp[..|from|] == from;
      forall q | LegalPath(q)
        ensures Resolve(ns', q) != Some(m)
      {
        Orphaned(ns, files, ns', from, dp, if sd == dd then k else j, q, |from|);
      }
      assert Names(ns, sd, k, m);
      assert !Reached(ns', m);
    } else {
      MoveKeepsReached(ns, files, sd, k, dd, j, name, sp, dp);
    }
  }
}
