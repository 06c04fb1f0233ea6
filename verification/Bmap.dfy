/** The next-fit scans of bmap.c over an allocation bitmap. */
module Bmap {
  import opened Layout
  import opened BmapRaw

  function Next(x: nat, n: nat): (r: nat)
    requires n > 0
    ensures r < n
  {
    (x + 1) % n
  }

  /** The position a scan looks at after `k` steps: it starts at `hint` and wraps at `n`. */
  function Visited(hint: nat, k: nat, n: nat): nat
    requires n > 0
  {
    if k == 0 then hint else Next(Visited(hint, k - 1, n), n)
  }

  ghost predicate ScannedOver(bits: set<nat>, hint: nat, k: nat, n: nat)
    requires n > 0
  {
    forall j: nat :: j < k ==> Visited(hint, j, n) in bits
  }

  /** The first clear position in cyclic order from `hint`, provided it lies inside [0, n). */
  function Scan(bits: set<nat>, hint: nat, n: nat): (r: Option<nat>)
    ensures r.Some? ==> r.value < n && r.value !in bits
    ensures r.Some? ==> exists k :: 0 <= k < n && r.value == Visited(hint, k, n) && ScannedOver(bits, hint, k, n)
  {
    if n == 0 then None
    else
      var k := Steps(bits, hint, 0, n);
      if k < n && Visited(hint, k, n) < n then Some(Visited(hint, k, n)) else None
  }

  /** The number of occupied positions a scan passes, counted from step `k` on. */
  function Steps(bits: set<nat>, hint: nat, k: nat, n: nat): (r: nat)
    requires n > 0 && k <= n
    ensures k <= r <= n
    ensures forall j: nat :: k <= j < r ==> Visited(hint, j, n) in bits
    ensures r < n ==> Visited(hint, r, n) !in bits
    decreases n - k
  {
    if k == n || Visited(hint, k, n) !in bits then k else Steps(bits, hint, k + 1, n)
  }

  lemma {:induction false} VisitedAt(hint: nat, k: nat, n: nat)
    requires hint < n && k < n
    ensures Visited(hint, k, n) == if hint + k < n then hint + k else hint + k - n
  {
    if k > 0 {
      VisitedAt(hint, k - 1, n);
      ModNext(Visited(hint, k - 1, n), n);
    }
  }

  lemma ModNext(x: nat, n: nat)
    requires x < n
    ensures (x + 1) % n == if x + 1 == n then 0 else x + 1
  {
    if x + 1 < n {
      assert (x + 1) / n == 0;
    }
  }

  /** A scan from any hint below n visits every position of [0, n) exactly once. */
  lemma VisitsEachOnce(hint: nat, n: nat, p: nat)
    requires hint < n && p < n
    ensures exists k: nat :: k < n && Visited(hint, k, n) == p && forall j: nat :: j < n && Visited(hint, j, n) == p ==> j == k
  {
    var k: nat := if hint <= p then p - hint else p + n - hint;
    VisitedAt(hint, k, n);
    forall j: nat | j < n && Visited(hint, j, n) == p
      ensures j == k
    {
      VisitedAt(hint, j, n);
    }
  }

  /** From a hint below n the scan fails iff every position is occupied. */
  lemma ScanFailsIffFull(bits: set<nat>, hint: nat, n: nat)
    requires hint < n
    ensures Scan(bits, hint, n) == None <==> forall p: nat :: p < n ==> p in bits
  {
    var k := Steps(bits, hint, 0, n);
    if k < n {
      VisitedAt(hint, k, n);
    } else {
      forall p: nat | p < n
        ensures p in bits
      {
        VisitsEachOnce(hint, n, p);
      }
    }
  }

  /** p is the first clear position from the hint on, or, when there is none, the first one from 0 on. */
  ghost predicate FirstClear(bits: set<nat>, hint: nat, n: nat, p: nat) {
    && p < n && p !in bits
    && (forall q: nat :: hint <= q < (if hint <= p then p else n) ==> q in bits)
    && (p < hint ==> forall q: nat :: q < p ==> q in bits)
  }

  /** What a scan finds, in terms of positions alone. */
  lemma ScanTakesFirstClear(bits: set<nat>, hint: nat, n: nat)
    requires hint < n && Scan(bits, hint, n).Some?
    ensures FirstClear(bits, hint, n, Scan(bits, hint, n).value)
  {
    var p := Scan(bits, hint, n).value;
    var k := Steps(bits, hint, 0, n);
    VisitedAt(hint, k, n);
    forall q: nat | (hint <= q < if hint <= p then p else n) || (p < hint && q < p)
      ensures q in bits
    {
      VisitedAt(hint, if hint <= q then q - hint else q + n - hint, n);
    }
  }

  /** A scan whose hint is clear takes the hint itself, or fails when the hint is out of range. */
  lemma ScanAtClearHint(bits: set<nat>, hint: nat, n: nat)
    requires n > 0 && hint !in bits
    ensures Scan(bits, hint, n) == if hint < n then Some(hint) else None
  {
    assert Visited(hint, 0, n) == hint;
  }

  method ScanAllocate(buf: array<bv8>, hint: nat, n: nat) returns (r: Option<nat>)
    requires hint < 8 * buf.Length && n <= 8 * buf.Length
    modifies buf
    ensures r == old(Scan(Bits(buf[..]), hint, n))
    ensures Bits(buf[..]) == old(Bits(buf[..])) + (if r.Some? then {r.value} else {})
  {
    hide Bits, Scan, Steps, SetIn, Next;
    var count, found, free := 0, false, hint;
    ghost var bits := Bits(buf[..]);
    while count < n && !found
      invariant 0 <= count <= n && free < 8 * buf.Length
      invariant n > 0 ==> free == Visited(hint, count, n)
      invariant found ==> count < n && free !in bits
      invariant n > 0 ==> ScannedOver(bits, hint, count, n)
      invariant buf[..] == old(buf[..])
      decreases n - count, !found
    {
      var occupied := TestBit(free, buf);
      if !occupied {
        found := true;
      } else {
        free := Next(free, n);
        count := count + 1;
      }
    }
    if n > 0 { ScanIs(bits, hint, count, n); } else { NothingToScan(bits, hint); }
    if found && free < n {
      var _ := SetBit(free, buf);
      r := Some(free);
    } else {
      r := None;
    }
  }

  lemma NothingToScan(bits: set<nat>, hint: nat)
    ensures Scan(bits, hint, 0) == None
  {
  }

  lemma ScanIs(bits: set<nat>, hint: nat, k: nat, n: nat)
    requires n > 0 && k <= n && ScannedOver(bits, hint, k, n)
    requires k < n ==> Visited(hint, k, n) !in bits
    ensures Scan(bits, hint, n) == if k < n && Visited(hint, k, n) < n then Some(Visited(hint, k, n)) else None
  {
    assert Steps(bits, hint, 0, n) == k by {
      assert forall j: nat :: j < k ==> Visited(hint, j, n) in bits;
      assert k < n ==> Visited(hint, k, n) !in bits;
    }
  }
}
