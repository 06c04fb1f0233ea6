/** The bit primitives of bmap_raw.c: a buffer of bytes seen as a set of bit numbers. */
module BmapRaw {

  function Mask(nr: nat): bv8 {
    (1 as bv8) << (nr % 8)
  }

  predicate TestBitIn(s: seq<bv8>, nr: nat)
    requires nr < 8 * |s|
  {
    Mask(nr) & s[nr / 8] != 0
  }

  /** The bit numbers that are set in a buffer. */
  function Bits(s: seq<bv8>): set<nat> {
    set nr: nat | nr < 8 * |s| && TestBitIn(s, nr)
  }

  /** Within one byte, setting or clearing the bit of `nr` changes the bit of `nr` and no other. */
  lemma MaskOps(b: bv8, nr: nat, other: nat)
    ensures Mask(nr) & (b | Mask(nr)) != 0
    ensures Mask(nr) & (b & !Mask(nr)) == 0
    ensures nr % 8 != other % 8 ==> Mask(other) & (b | Mask(nr)) == Mask(other) & b
    ensures nr % 8 != other % 8 ==> Mask(other) & (b & !Mask(nr)) == Mask(other) & b
  {
    MaskValue(nr);
    MaskValue(other);
  }

  lemma MaskValue(nr: nat)
    ensures Mask(nr) == [1, 2, 4, 8, 16, 32, 64, 128][nr % 8]
  {
    var k := nr % 8;
    if k == 0 {} else if k == 1 {} else if k == 2 {} else if k == 3 {}
    else if k == 4 {} else if k == 5 {} else if k == 6 {} else {}
  }

  /** Bit nr lies in byte nr / 8, the lowest bit of a byte first. */
  lemma BitsAre(s: seq<bv8>, nr: nat)
    requires nr < 8 * |s|
    ensures nr in Bits(s) <==> s[nr / 8] & [1, 2, 4, 8, 16, 32, 64, 128][nr % 8] != 0
  {
    MaskValue(nr);
  }

  function SetIn(s: seq<bv8>, nr: nat): seq<bv8>
    requires nr < 8 * |s|
  {
    s[nr / 8 := s[nr / 8] | Mask(nr)]
  }

  function ClearIn(s: seq<bv8>, nr: nat): seq<bv8>
    requires nr < 8 * |s|
  {
    s[nr / 8 := s[nr / 8] & !Mask(nr)]
  }

  /** Setting a bit of the buffer adds exactly that number to the set it stands for. */
  lemma SetInAdds(s: seq<bv8>, nr: nat)
    requires nr < 8 * |s|
    ensures Bits(SetIn(s, nr)) == Bits(s) + {nr}
  {
    var t := SetIn(s, nr);
    forall i: nat | i < 8 * |s|
      ensures TestBitIn(t, i) <==> TestBitIn(s, i) || i == nr
    {
      MaskOps(s[nr / 8], nr, i);
    }
  }

  /** Clearing a bit of the buffer removes exactly that number from the set it stands for. */
  lemma ClearInRemoves(s: seq<bv8>, nr: nat)
    requires nr < 8 * |s|
    ensures Bits(ClearIn(s, nr)) == Bits(s) - {nr}
  {
    var t := ClearIn(s, nr);
    forall i: nat | i < 8 * |s|
      ensures TestBitIn(t, i) <==> TestBitIn(s, i) && i != nr
    {
      MaskOps(s[nr / 8], nr, i);
    }
  }

  lemma NoBitsInZeros(s: seq<bv8>)
    requires forall i :: 0 <= i < |s| ==> s[i] == 0
    ensures Bits(s) == {}
  {
    forall nr: nat | nr < 8 * |s|
      ensures !TestBitIn(s, nr)
    {
      MaskValue(nr);
    }
  }

  method SetBit(nr: nat, addr: array<bv8>) returns (wasSet: bool)
    requires nr < 8 * addr.Length
    modifies addr
    ensures addr[..] == old(SetIn(addr[..], nr))
    ensures Bits(addr[..]) == old(Bits(addr[..])) + {nr}
    ensures wasSet <==> nr in old(Bits(addr[..]))
  {
    SetInAdds(addr[..], nr);
    var mask := Mask(nr);
    wasSet := mask & addr[nr / 8] != 0;
    addr[nr / 8] := addr[nr / 8] | mask;
  }

  method ClearBit(nr: nat, addr: array<bv8>) returns (wasSet: bool)
    requires nr < 8 * addr.Length
    modifies addr
    ensures addr[..] == old(ClearIn(addr[..], nr))
    ensures Bits(addr[..]) == old(Bits(addr[..])) - {nr}
    ensures wasSet <==> nr in old(Bits(addr[..]))
  {
    ClearInRemoves(addr[..], nr);
    var mask := Mask(nr);
    wasSet := mask & addr[nr / 8] != 0;
    addr[nr / 8] := addr[nr / 8] & !mask;
  }

  method TestBit(nr: nat, addr: array<bv8>) returns (isSet: bool)
    requires nr < 8 * addr.Length
    ensures isSet <==> nr in Bits(addr[..])
  {
    isSet := Mask(nr) & addr[nr / 8] != 0;
  }

  datatype BitOp = Set(nr: nat) | Clear(nr: nat)

  function Apply(s: seq<bv8>, ops: seq<BitOp>): (t: seq<bv8>)
    requires forall op :: op in ops ==> op.nr < 8 * |s|
    ensures |t| == |s|
    decreases |ops|
  {
    if ops == [] then s
    else
      var init := Apply(s, ops[..|ops| - 1]);
      match ops[|ops| - 1]
      case Set(nr) => SetIn(init, nr)
      case Clear(nr) => ClearIn(init, nr)
  }

  /** After any sequence of calls a bit tests as set iff the last call that named it was a set,
      or no call named it and it was set to begin with. */
  lemma {:induction false} TestAfterCalls(s: seq<bv8>, ops: seq<BitOp>, nr: nat)
    requires forall op :: op in ops ==> op.nr < 8 * |s|
    ensures nr in Bits(Apply(s, ops)) <==>
            (exists k :: 0 <= k < |ops| && LastNamed(ops, k, nr) && ops[k].Set?) || (nr in Bits(s) && Unnamed(ops, 0, nr))
    decreases |ops|
  {
    hide Bits, SetIn, ClearIn;
    if ops != [] {
      var n := |ops| - 1;
      var init := ops[..n];
      TestAfterCalls(s, init, nr);
      match ops[n] {
        case Set(i) => SetInAdds(Apply(s, init), i);
        case Clear(i) => ClearInRemoves(Apply(s, init), i);
      }
      if ops[n].nr == nr {
        assert LastNamed(ops, n, nr);
      } else {
        assert Unnamed(ops, 0, nr) <==> Unnamed(init, 0, nr);
        assert forall k :: 0 <= k < n ==> (LastNamed(ops, k, nr) <==> LastNamed(init, k, nr));
      }
    }
  }

  /** No call from the k-th on names the bit. */
  ghost predicate Unnamed(ops: seq<BitOp>, k: nat, nr: nat) {
    forall j :: k <= j < |ops| ==> ops[j].nr != nr
  }

  ghost predicate LastNamed(ops: seq<BitOp>, k: nat, nr: nat)
    requires k < |ops|
  {
    ops[k].nr == nr && Unnamed(ops, k + 1, nr)
  }
}
