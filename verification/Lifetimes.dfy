/** What outlives an operation: inode numbers over whole runs, and when memory and device agree. */
module Lifetimes {
  import opened Layout
  import opened Namespace
  import opened FsSpec
  import opened Fsck
  import opened Runs
  import opened Ledger
  import opened MountStep
  import StepFacts

  // ---------------------------------------------------------------- the inode hint

  /** The device does not know of the last inode numbers handed out. */
  predicate Lagging(s: State) {
    s.disk.sb.lastIno < s.sbi.lastIno
  }

  predicate Allocates(c: Change) {
    c.NewDir? || c.NewFile? || c.Lost?
  }

  lemma HintMoves(s: State, s': State, c: Change)
    requires Consistent(s) && Booked(s, s', c)
    ensures s.disk.sb.lastIno <= s.sbi.lastIno <= INODES && s.disk.sb.lastIno <= s'.disk.sb.lastIno
    ensures Allocates(c) ==> s.sbi.lastIno < INODES
    ensures s'.sbi.lastIno == if Allocates(c) then s.sbi.lastIno + 1 else if c.Mounted? then s.disk.sb.lastIno else s.sbi.lastIno
    ensures Lagging(s') <==> c.Lost? || (Lagging(s) && !SuperSaved(c))
  {
    hide BlocksOk, TreeOk, HandlesOk, Live, LinksMoved;
  }

  // ---------------------------------------------------------------- numbers of inodes that live

  /** The inode numbers of what a run creates, remounts included. */
  function IssuedBy(s: State, ops: seq<Op>): seq<nat>
    decreases |ops|
  {
    if ops == [] then []
    else (if Issued(s, ops[0]).Some? then [Issued(s, ops[0]).value] else []) + IssuedBy(Step(s, ops[0]).0, ops[1..])
  }

  ghost predicate Increasing(xs: seq<nat>) {
    forall j, k :: 0 <= j < k < |xs| ==> xs[j] < xs[k]
  }

  lemma IssuedIsHint(s: State, op: Op)
    requires Issued(s, op).Some?
    ensures Issued(s, op).value == s.sbi.lastIno
  {
  }

  /** The numbers of created inodes strictly increase over any run, whatever is deleted or remounted in between:
      no two inodes ever live under one number. There are no more of them than the device's hint has moved. */
  lemma {:induction false} IssuedIncreasing(s: State, ops: seq<Op>)
    requires Consistent(s) && AllowedRun(s, ops)
    ensures forall k :: 0 <= k < |IssuedBy(s, ops)| ==> s.disk.sb.lastIno <= IssuedBy(s, ops)[k] < INODES
    ensures Increasing(IssuedBy(s, ops))
    ensures |IssuedBy(s, ops)| <= Run(s, ops).disk.sb.lastIno - s.disk.sb.lastIno
    decreases |ops|
  {
    hide Consistent, Step, Allowed, Booked, Issued;
    if ops != [] {
      var s' := Step(s, ops[0]).0;
      var c := StepBooked(s, ops[0]);
      StepConsistent(s, ops[0]);
      HintMoves(s, s', c);
      IssuedIncreasing(s', ops[1..]);
      if Issued(s, ops[0]).Some? { IssuedIsHint(s, ops[0]); }
    }
  }

  /** Once the device's hint has reached the table size no inode is ever allocated again. */
  lemma {:induction false} Exhausted(s: State, ops: seq<Op>)
    requires Consistent(s) && AllowedRun(s, ops) && s.disk.sb.lastIno == INODES
    ensures AllocInode(Run(s, ops)).1 == None && AllocatedBy(s, ops) == []
    decreases |ops|
  {
    hide Consistent, Step, Allowed, Booked, Issued, LosesInode, AllocInode;
    if ops == [] {
      NoneLeft(s);
    } else {
      var c := StepBooked(s, ops[0]);
      StepConsistent(s, ops[0]);
      HintMoves(s, Step(s, ops[0]).0, c);
      HintBounds(Step(s, ops[0]).0);
      Exhausted(Step(s, ops[0]).0, ops[1..]);
    }
  }

  lemma HintBounds(s: State)
    requires Consistent(s)
    ensures NUM_RESV_INO <= s.disk.sb.lastIno <= s.sbi.lastIno <= INODES
  {
    hide BlocksOk, TreeOk, HandlesOk;
  }

  lemma NoneLeft(s: State)
    requires Consistent(s) && s.disk.sb.lastIno == INODES
    ensures AllocInode(s).1 == None
  {
    hide BlocksOk, TreeOk, HandlesOk;
    StepFacts.AllocTakesHint(s);
  }

  /** At most 29 inodes are created over the whole life of a device, whatever is deleted; after the 29th every
      allocation of every later state fails. */
  lemma AtMostTwentyNine(sectors: nat, ops: seq<Op>, more: seq<Op>)
    requires Formattable(sectors) && AllowedRun(FormatAndMount(sectors), ops) && AllowedRun(Run(FormatAndMount(sectors), ops), more)
    ensures |IssuedBy(FormatAndMount(sectors), ops)| <= INODES - NUM_RESV_INO == 29
    ensures |IssuedBy(FormatAndMount(sectors), ops)| == 29 ==>
              AllocInode(Run(Run(FormatAndMount(sectors), ops), more)).1 == None
  {
    hide Consistent, Step, Allowed, AllocInode, IssuedBy, AllocatedBy;
    FormatConsistent(sectors);
    ReachableConsistent(sectors, ops);
    IssuedIncreasing(FormatAndMount(sectors), ops);
    HintBounds(Run(FormatAndMount(sectors), ops));
    if |IssuedBy(FormatAndMount(sectors), ops)| == 29 {
      Exhausted(Run(FormatAndMount(sectors), ops), more);
    }
  }

  // ---------------------------------------------------------------- numbers alloc_new_inode hands out

  /** The number an operation gets from alloc_new_inode, whether or not it goes on to succeed. */
  ghost function Allocated(s: State, op: Op): Option<nat> {
    if Issued(s, op).Some? || LosesInode(s, op) then Some(s.sbi.lastIno) else None
  }

  ghost function AllocatedBy(s: State, ops: seq<Op>): seq<nat>
    decreases |ops|
  {
    if ops == [] then []
    else (if Allocated(s, ops[0]).Some? then [Allocated(s, ops[0]).value] else []) + AllocatedBy(Step(s, ops[0]).0, ops[1..])
  }

  /** Somewhere in the run the device is remounted while it lags, and an inode is allocated later on. */
  ghost predicate Forgets(s: State, ops: seq<Op>)
    decreases |ops|
  {
    ops != [] &&
    var s' := Step(s, ops[0]).0;
    (ops[0].Unmount? && Lagging(s) && AllocatedBy(s', ops[1..]) != []) || Forgets(s', ops[1..])
  }

  lemma {:induction false} AllocatedFromHint(s: State, ops: seq<Op>)
    requires Consistent(s) && AllowedRun(s, ops) && !Forgets(s, ops)
    ensures Increasing(AllocatedBy(s, ops))
    ensures forall k :: 0 <= k < |AllocatedBy(s, ops)| ==> s.sbi.lastIno <= AllocatedBy(s, ops)[k]
    decreases |ops|
  {
    hide Consistent, Step, Allowed, Booked, Issued, LosesInode;
    if ops != [] {
      var c := StepBooked(s, ops[0]);
      StepConsistent(s, ops[0]);
      HintMoves(s, Step(s, ops[0]).0, c);
      AllocatedFromHint(Step(s, ops[0]).0, ops[1..]);
    }
  }

  /** While the device does not lag, the next number is the hint. */
  lemma {:induction false} FirstAllocated(s: State, ops: seq<Op>)
    requires Consistent(s) && AllowedRun(s, ops) && !Lagging(s) && AllocatedBy(s, ops) != []
    ensures AllocatedBy(s, ops)[0] == s.sbi.lastIno
    decreases |ops|
  {
    hide Consistent, Step, Allowed, Booked, Issued, LosesInode;
    var c := StepBooked(s, ops[0]);
    StepConsistent(s, ops[0]);
    HintMoves(s, Step(s, ops[0]).0, c);
    if Allocated(s, ops[0]).None? {
      FirstAllocated(Step(s, ops[0]).0, ops[1..]);
    }
  }

  lemma {:induction false} ForgottenComesBack(s: State, ops: seq<Op>)
    requires Consistent(s) && AllowedRun(s, ops) && Forgets(s, ops)
    ensures !Increasing(AllocatedBy(s, ops)) || exists k :: 0 <= k < |AllocatedBy(s, ops)| && AllocatedBy(s, ops)[k] < s.sbi.lastIno
    decreases |ops|
  {
    hide Consistent, Step, Allowed, Booked, Issued, LosesInode;
    var s', rest := Step(s, ops[0]).0, ops[1..];
    var c := StepBooked(s, ops[0]);
    StepConsistent(s, ops[0]);
    HintMoves(s, s', c);
    var ys := AllocatedBy(s', rest);
    if Forgets(s', rest) {
      ForgottenComesBack(s', rest);
      BackBefore(Allocated(s, ops[0]), ys, s.sbi.lastIno, s'.sbi.lastIno);
    } else {
      FirstAllocated(s', rest);
      assert AllocatedBy(s, ops) == ys && ys[0] < s.sbi.lastIno;
    }
  }

  lemma BackBefore(first: Option<nat>, ys: seq<nat>, hint: nat, hint': nat)
    requires if first.Some? then first.value == hint && hint' == hint + 1 else hint' <= hint
    requires !Increasing(ys) || exists k :: 0 <= k < |ys| && ys[k] < hint'
    ensures var xs := (if first.Some? then [first.value] else []) + ys;
            !Increasing(xs) || exists k :: 0 <= k < |xs| && xs[k] < hint
  {
    var head := if first.Some? then [first.value] else [];
    var xs := head + ys;
    if !Increasing(ys) {
      var j, k :| 0 <= j < k < |ys| && ys[j] >= ys[k];
      assert xs[|head| + j] == ys[j] && xs[|head| + k] == ys[k];
    } else {
      var k :| 0 <= k < |ys| && ys[k] < hint';
      assert xs[|head| + k] == ys[k];
      assert first.Some? ==> xs[0] == hint;
    }
  }

  /** From a state that does not lag, alloc_new_inode hands out strictly increasing numbers iff no remount of a
      lagging device is followed by an allocation: such a remount forgets numbers already handed out. */
  lemma AllocatedIncreasingIff(s: State, ops: seq<Op>)
    requires Consistent(s) && AllowedRun(s, ops) && !Lagging(s)
    ensures Increasing(AllocatedBy(s, ops)) <==> !Forgets(s, ops)
  {
    hide Consistent, Step, Allowed, Issued, LosesInode, AllocatedBy, Forgets, Lagging;
    if Forgets(s, ops) {
      ForgottenComesBack(s, ops);
      if Increasing(AllocatedBy(s, ops)) {
        var k :| 0 <= k < |AllocatedBy(s, ops)| && AllocatedBy(s, ops)[k] < s.sbi.lastIno;
        FirstAllocated(s, ops);
      }
    } else {
      AllocatedFromHint(s, ops);
    }
  }

  /** When the device lags: after a mkdir that found no data block, until the superblock is next written. */
  lemma LaggingStepIff(s: State, op: Op)
    requires Consistent(s) && Allowed(s, op)
    ensures Lagging(Step(s, op).0) <==> LosesInode(s, op) || (Lagging(s) && !SavesSuper(s, op))
  {
    hide Consistent, Step, Allowed, Booked, LosesInode, SavesSuper, Lagging;
    var c := StepBooked(s, op);
    HintMoves(s, Step(s, op).0, c);
  }

  // ---------------------------------------------------------------- memory and device over runs

  /** Memory and device hold the same superblock. */
  predicate SuperSame(s: State) {
    s.mem.sb == s.disk.sb
  }

  predicate BitmapSame(s: State) {
    s.mem.ibits == s.disk.ibits
  }

  lemma SyncedParts(s: State)
    requires Consistent(s)
    ensures Synced(s) <==> SuperSame(s) && BitmapSame(s)
  {
    hide BlocksOk, TreeOk, HandlesOk;
  }

  lemma SavedByStep(s: State, s': State, c: Change)
    requires Consistent(s) && Booked(s, s', c)
    ensures SuperSame(s') <==> !c.Lost? && (SuperSame(s) || SuperSaved(c))
    ensures BitmapSame(s') <==> !c.Lost? && (BitmapSame(s) || BitmapSaved(c))
  {
    hide BlocksOk, TreeOk, HandlesOk, Live, LinksMoved;
  }

  predicate EverSavesSuper(s: State, ops: seq<Op>)
    decreases |ops|
  {
    ops != [] && (SavesSuper(s, ops[0]) || EverSavesSuper(Step(s, ops[0]).0, ops[1..]))
  }

  predicate EverSavesBitmap(s: State, ops: seq<Op>)
    decreases |ops|
  {
    ops != [] && (SavesBitmap(s, ops[0]) || EverSavesBitmap(Step(s, ops[0]).0, ops[1..]))
  }

  /** Some mkdir of the run loses an inode and the superblock is not written after it. */
  ghost predicate SuperLeft(s: State, ops: seq<Op>)
    decreases |ops|
  {
    ops != [] &&
    var s' := Step(s, ops[0]).0;
    SuperLeft(s', ops[1..]) || (LosesInode(s, ops[0]) && !EverSavesSuper(s', ops[1..]))
  }

  ghost predicate BitmapLeft(s: State, ops: seq<Op>)
    decreases |ops|
  {
    ops != [] &&
    var s' := Step(s, ops[0]).0;
    BitmapLeft(s', ops[1..]) || (LosesInode(s, ops[0]) && !EverSavesBitmap(s', ops[1..]))
  }

  lemma {:induction false} SuperSameAfterRun(s: State, ops: seq<Op>)
    requires Consistent(s) && AllowedRun(s, ops)
    ensures SuperSame(Run(s, ops)) <==> !SuperLeft(s, ops) && (SuperSame(s) || EverSavesSuper(s, ops))
    decreases |ops|
  {
    hide Consistent, Step, Allowed, Booked, LosesInode, SavesSuper, SuperSame;
    if ops != [] {
      var c := StepBooked(s, ops[0]);
      StepConsistent(s, ops[0]);
      SavedByStep(s, Step(s, ops[0]).0, c);
      SuperSameAfterRun(Step(s, ops[0]).0, ops[1..]);
    }
  }

  lemma {:induction false} BitmapSameAfterRun(s: State, ops: seq<Op>)
    requires Consistent(s) && AllowedRun(s, ops)
    ensures BitmapSame(Run(s, ops)) <==> !BitmapLeft(s, ops) && (BitmapSame(s) || EverSavesBitmap(s, ops))
    decreases |ops|
  {
    hide Consistent, Step, Allowed, Booked, LosesInode, SavesBitmap, BitmapSame;
    if ops != [] {
      var c := StepBooked(s, ops[0]);
      StepConsistent(s, ops[0]);
      SavedByStep(s, Step(s, ops[0]).0, c);
      BitmapSameAfterRun(Step(s, ops[0]).0, ops[1..]);
    }
  }

  /** A run from a format ends with memory and device agreeing, and a remount there gives back its final state but
      for the block hint and the open files, iff after every mkdir that lost an inode the superblock was written
      again, and the inode bitmap was written or read back. */
  lemma RemountAfterRunIff(sectors: nat, ops: seq<Op>)
    requires Formattable(sectors) && AllowedRun(FormatAndMount(sectors), ops)
    ensures var s0 := FormatAndMount(sectors);
            var s := Run(s0, ops);
            && (Synced(s) <==> !SuperLeft(s0, ops) && !BitmapLeft(s0, ops))
            && (Synced(s) <==> Remount(s) == s.(sbi := s.sbi.(lastBlk := s.mem.sb.lastBlk), files := seq(MAX_OPEN_FILE, _ => CLOSED)))
  {
    hide Consistent, Step, Allowed, Synced, Remount, SuperSame, BitmapSame, SuperLeft, BitmapLeft, AllowedRun, Run;
    var s0 := FormatAndMount(sectors);
    FormatConsistent(sectors);
    ReachableConsistent(sectors, ops);
    FormatSame(sectors);
    SuperSameAfterRun(s0, ops);
    BitmapSameAfterRun(s0, ops);
    SyncedParts(Run(s0, ops));
    if Synced(Run(s0, ops)) { RemountTransparent(Run(s0, ops)); } else { RemountLoses(Run(s0, ops)); }
  }

  lemma FormatSame(sectors: nat)
    requires Formattable(sectors)
    ensures SuperSame(FormatAndMount(sectors)) && BitmapSame(FormatAndMount(sectors))
  {
  }

  lemma RemountLoses(s: State)
    requires !Synced(s)
    ensures Remount(s) != s.(sbi := s.sbi.(lastBlk := s.mem.sb.lastBlk), files := seq(MAX_OPEN_FILE, _ => CLOSED))
  {
  }

  // ---------------------------------------------------------------- the inode count over all runs

  /** Inodes lost since the superblock was last written, and since the inode bitmap was last written or read back. */
  ghost function UnsavedSuper(s: State, op: Op, a: nat): nat {
    if LosesInode(s, op) then a + 1 else if SavesSuper(s, op) then 0 else a
  }

  ghost function UnsavedBitmap(s: State, op: Op, b: nat): nat {
    if LosesInode(s, op) then b + 1 else if SavesBitmap(s, op) then 0 else b
  }

  /** The device's counter and bitmap differ from memory's by these. */
  ghost predicate Behind(s: State, a: nat, b: nat) {
    s.disk.sb.freeInodes == s.mem.sb.freeInodes + a && |s.mem.ibits| == |s.disk.ibits| + b
  }

  /** By how much an operation makes counter and bitmap disagree: reading the bitmap back forgets the lost bits
      and keeps the counter, a mount takes both from the device. */
  ghost function Slip(s: State, op: Op, a: nat, b: nat): int {
    if op.Unmount? then b - a else if Rereads(s, op) then b else 0
  }

  ghost function Slipped(s: State, ops: seq<Op>, a: nat, b: nat): int
    decreases |ops|
  {
    if ops == [] then 0
    else Slip(s, ops[0], a, b) + Slipped(Step(s, ops[0]).0, ops[1..], UnsavedSuper(s, ops[0], a), UnsavedBitmap(s, ops[0], b))
  }

  lemma SlipIs(s: State, s': State, c: Change, a: nat, b: nat)
    requires Consistent(s) && Booked(s, s', c) && Behind(s, a, b)
    ensures Behind(s', if c.Lost? then a + 1 else if SuperSaved(c) then 0 else a,
                   if c.Lost? then b + 1 else if BitmapSaved(c) then 0 else b)
    ensures s'.mem.sb.freeInodes + |s'.mem.ibits| ==
            s.mem.sb.freeInodes + |s.mem.ibits| - (if c.NewFile? then 1 else 0)
            - (if c.Mounted? then b - a else if c.Reread? then b else 0)
  {
    hide BlocksOk, TreeOk, HandlesOk, InodesOk, Live, LinksMoved;
    HintClear(s);
  }

  lemma StepSlips(s: State, op: Op, a: nat, b: nat)
    requires Consistent(s) && Allowed(s, op) && Behind(s, a, b)
    ensures var s' := Step(s, op).0;
            && Behind(s', UnsavedSuper(s, op, a), UnsavedBitmap(s, op, b))
            && s'.mem.sb.freeInodes + |s'.mem.ibits| + (if IsCreate(s, op) then 1 else 0) + Slip(s, op, a, b) ==
               s.mem.sb.freeInodes + |s.mem.ibits|
  {
    hide Consistent, Allowed, Step, Booked, LosesInode, SavesSuper, SavesBitmap, Rereads, IsCreate, Behind;
    var c := StepBooked(s, op);
    SlipIs(s, Step(s, op).0, c, a, b);
  }

  lemma {:induction false} RunSlips(s: State, ops: seq<Op>, a: nat, b: nat)
    requires Consistent(s) && AllowedRun(s, ops) && Behind(s, a, b)
    ensures var s' := Run(s, ops);
            s'.mem.sb.freeInodes + |s'.mem.ibits| + Creates(s, ops) + Slipped(s, ops, a, b) ==
            s.mem.sb.freeInodes + |s.mem.ibits|
    decreases |ops|
  {
    hide Consistent, Allowed, Step, Slip, UnsavedSuper, UnsavedBitmap, IsCreate, Behind;
    if ops != [] {
      StepConsistent(s, ops[0]);
      StepSlips(s, ops[0], a, b);
      RunSlips(Step(s, ops[0]).0, ops[1..], UnsavedSuper(s, ops[0], a), UnsavedBitmap(s, ops[0], b));
    }
  }

  /** The inode count after any run from a format: free inodes, set bits, creates and slips add up to 32. So the
      balance of the lossless runs holds after a run iff its slips cancel out. */
  lemma InodesBalanceIff(sectors: nat, ops: seq<Op>)
    requires Formattable(sectors) && AllowedRun(FormatAndMount(sectors), ops)
    ensures var s0 := FormatAndMount(sectors);
            var s := Run(s0, ops);
            && s.mem.sb.freeInodes + |s.mem.ibits| + Creates(s0, ops) + Slipped(s0, ops, 0, 0) == INODES
            && (InodesBalance(s, Creates(s0, ops)) <==> Slipped(s0, ops, 0, 0) == 0)
  {
    hide Consistent, Allowed, Step, AllowedRun, Creates, Slipped, Run;
    FormatConsistent(sectors);
    FormatBalance(sectors);
    RunSlips(FormatAndMount(sectors), ops, 0, 0);
  }

  lemma FormatBalance(sectors: nat)
    requires Formattable(sectors)
    ensures var s := FormatAndMount(sectors); Behind(s, 0, 0) && s.mem.sb.freeInodes + |s.mem.ibits| == INODES
  {
    var ibits: set<nat> := {0, 1, 2};
    assert |ibits| == 3;
  }

  // ---------------------------------------------------------------- link counts stay near zero

  /** A count that went up to `up` at most, or down below zero by `down` at most and around. */
  predicate Near(n: nat, up: nat, down: int) {
    n <= up || n >= U32 - down
  }

  /** No link count has drifted further than inodes were created or removed, wherever directories were moved. */
  ghost predicate LinksNear(s: State) {
    forall i: nat :: i < |s.mem.itable| ==>
      Near(s.mem.itable[i].links, s.disk.sb.lastIno, s.disk.sb.lastIno - |Live(s.mem.itable)|)
  }

  lemma LiveBound(s: State)
    requires Consistent(s)
    ensures |Live(s.mem.itable)| <= s.disk.sb.lastIno
  {
    hide BlocksOk, TreeOk, HandlesOk;
    var live, below := Live(s.mem.itable), Range(s.disk.sb.lastIno);
    assert forall i :: i in live ==> i in s.disk.ibits && i in below;
    SubsetCard(live, below);
  }

  /** How far the two ends of the range move in a step. */
  lemma EndsMove(s: State, s': State, c: Change)
    requires Consistent(s) && Booked(s, s', c)
    ensures var up, up' := s.disk.sb.lastIno, s'.disk.sb.lastIno;
            var down, down' := up - |Live(s.mem.itable)|, up' - |Live(s'.mem.itable)|;
            && 0 <= down <= down' && NUM_RESV_INO <= up <= up'
            && (c.NewDir? ==> up < up') && (c.OldDir? ==> down < down')
  {
    hide Consistent, Live, LinksMoved;
    LiveBound(s);
    HintClear(s);
    HintMoves(s, s', c);
    HintBounds(s);
  }

  lemma LinksStayNear(s: State, s': State, c: Change)
    requires Consistent(s) && Booked(s, s', c) && LinksNear(s)
    ensures LinksNear(s')
  {
    hide Consistent, Booked, Live, Near, LinkMoved;
    EndsMove(s, s', c);
    LinksDrift(s, s', c);
    var t, t' := s.mem.itable, s'.mem.itable;
    forall i: nat | i < |t'|
      ensures Near(t'[i].links, s'.disk.sb.lastIno, s'.disk.sb.lastIno - |Live(t')|)
    {
      assert LinkMoved(t[i].links, t'[i].links, c) && Near(t[i].links, s.disk.sb.lastIno, s.disk.sb.lastIno - |Live(t)|);
      StaysNear(t[i].links, t'[i].links, c, s.disk.sb.lastIno, s.disk.sb.lastIno - |Live(t)|,
                s'.disk.sb.lastIno, s'.disk.sb.lastIno - |Live(t')|);
    }
  }

  lemma StaysNear(n: nat, n': nat, c: Change, up: nat, down: int, up': nat, down': int)
    requires Near(n, up, down) && LinkMoved(n, n', c) && n < U32
    requires 0 <= down <= down' && NUM_RESV_INO <= up <= up' && (c.NewDir? ==> up < up') && (c.OldDir? ==> down < down')
    ensures Near(n', up', down')
  {
  }

  lemma LinksDrift(s: State, s': State, c: Change)
    requires Consistent(s) && Booked(s, s', c)
    ensures LinksMoved(s.mem.itable, s'.mem.itable, c) && forall i: nat :: i < |s.mem.itable| ==> s.mem.itable[i].links < U32
  {
    hide BlocksOk, TreeOk, HandlesOk, Live, LinksMoved;
  }

  /** So the check of lab4_createfile against the largest count never fails. */
  lemma NeverCrowded(s: State, d: nat)
    requires Consistent(s) && LinksNear(s) && d < |s.mem.itable|
    ensures s.mem.itable[d].links != MAX_FILES_PER_DIR
  {
    hide BlocksOk, TreeOk, HandlesOk;
    HintBounds(s);
    assert Near(s.mem.itable[d].links, s.disk.sb.lastIno, s.disk.sb.lastIno - |Live(s.mem.itable)|);
  }

  lemma FormatNear(sectors: nat)
    requires Formattable(sectors)
    ensures LinksNear(FormatAndMount(sectors))
  {
    var t := FormatTable();
    assert t[ROOT_INO] == ROOT_INODE;
    assert forall i: nat :: i < INODES && i != ROOT_INO ==> t[i].links == 0;
  }
}
