/** The circular doubly linked list of include/lab4_list.h: pointer surgery on shared nodes that refines
    operations on sequences. */
module ListHead {

  /** struct list_head. */
  class Node {
    var next: Node?
    var prev: Node?

    /** INIT_LIST_HEAD. */
    constructor ()
      ensures List(this, [])
    {
      next := this;
      prev := this;
    }
  }

  ghost predicate Linked(a: Node, b: Node)
    reads a, b
  {
    a.next == b && b.prev == a
  }

  ghost predicate Distinct(ns: seq<Node>) {
    forall i, j :: 0 <= i < j < |ns| ==> ns[i] != ns[j]
  }

  /** The node after the i-th one, going round. */
  function After(ns: seq<Node>, i: nat): Node
    requires i < |ns|
  {
    if i + 1 == |ns| then ns[0] else ns[i + 1]
  }

  /** The nodes form a ring in this order: next and prev are inverses of each other all the way round. */
  ghost predicate Ring(ns: seq<Node>)
    reads ns
  {
    |ns| > 0 && Distinct(ns) && forall i: nat {:trigger After(ns, i)} :: i < |ns| ==> Linked(ns[i], After(ns, i))
  }

  /** A list with this head and these entries. */
  ghost predicate List(head: Node, xs: seq<Node>)
    reads head, xs
  {
    Ring([head] + xs)
  }

  // ---------------------------------------------------------------- adding and deleting

  function Inserted(ns: seq<Node>, i: nat, n: Node): seq<Node>
    requires i < |ns|
  {
    ns[..i + 1] + [n] + ns[i + 1..]
  }

  lemma InsertedAt(ns: seq<Node>, i: nat, n: Node, j: nat)
    requires i < |ns| && j <= |ns|
    ensures var ms := Inserted(ns, i, n);
            if j < i then ms[j] == ns[j] && After(ms, j) == After(ns, j)
            else if j == i then ms[j] == ns[i] && After(ms, j) == n
            else if j == i + 1 then ms[j] == n && After(ms, j) == After(ns, i)
            else ms[j] == ns[j - 1] && After(ms, j) == After(ns, j - 1)
  {
  }

  lemma AfterDistinct(ns: seq<Node>, i: nat, j: nat)
    requires Distinct(ns) && i < |ns| && j < |ns| && i != j
    ensures ns[i] != ns[j] && After(ns, i) != After(ns, j)
  {
  }

  /** __list_add: between the i-th node of a ring and the one after it. */
  method AddBetween(n: Node, prev: Node, next: Node, ghost ns: seq<Node>, ghost i: nat)
    requires Ring(ns) && i < |ns| && prev == ns[i] && next == After(ns, i) && n !in ns
    modifies n, prev, next
    ensures Ring(Inserted(ns, i, n))
  {
    next.prev := n;
    n.next := next;
    n.prev := prev;
    prev.next := n;
    ghost var ms := Inserted(ns, i, n);
    forall j: nat | j < |ms|
      ensures Linked(ms[j], After(ms, j))
    {
      InsertedAt(ns, i, n, j);
      if j < i { AfterDistinct(ns, i, j); assert old(Linked(ns[j], After(ns, j))); }
      if j > i + 1 { AfterDistinct(ns, i, j - 1); assert old(Linked(ns[j - 1], After(ns, j - 1))); }
    }
  }

  /** list_add. */
  method Add(n: Node, head: Node, ghost xs: seq<Node>)
    requires List(head, xs) && n !in [head] + xs
    modifies n, head, head.next
    ensures List(head, [n] + xs)
  {
    assert head.next == After([head] + xs, 0);
    AddBetween(n, head, head.next, [head] + xs, 0);
    assert Inserted([head] + xs, 0, n) == [head] + ([n] + xs);
  }

  /** list_add_tail. */
  method AddTail(n: Node, head: Node, ghost xs: seq<Node>)
    requires List(head, xs) && n !in [head] + xs
    modifies n, head, head.prev
    ensures List(head, xs + [n])
  {
    assert head == After([head] + xs, |xs|);
    AddBetween(n, head.prev, head, [head] + xs, |xs|);
    assert Inserted([head] + xs, |xs|, n) == [head] + (xs + [n]);
  }

  /** The list without its k-th entry. */
  ghost function Without(xs: seq<Node>, k: nat): seq<Node>
    requires k < |xs|
  {
    xs[..k] + xs[k + 1..]
  }

  lemma WithoutAt(head: Node, xs: seq<Node>, k: nat, j: nat)
    requires k < |xs| && j < |xs|
    ensures var ns, ms := [head] + xs, [head] + Without(xs, k);
            if j < k then ms[j] == ns[j] && After(ms, j) == After(ns, j)
            else if j == k then ms[j] == ns[k] && After(ms, j) == After(ns, k + 1)
            else ms[j] == ns[j + 1] && After(ms, j) == After(ns, j + 1)
  {
  }

  lemma WithoutDistinct(head: Node, xs: seq<Node>, k: nat)
    requires k < |xs| && Distinct([head] + xs)
    ensures Distinct([head] + Without(xs, k)) && xs[k] !in [head] + Without(xs, k)
  {
    var ns, ms := [head] + xs, [head] + Without(xs, k);
    forall j | 0 <= j < |ms|
      ensures ms[j] == ns[if j <= k then j else j + 1]
    {
    }
    assert ns[k + 1] == xs[k];
  }

  /** __list_del with the neighbours of the entry, which keeps its own fields. */
  method DelEntry(entry: Node, ghost head: Node, ghost xs: seq<Node>, ghost k: nat)
    requires List(head, xs) && k < |xs| && xs[k] == entry
    modifies entry.prev, entry.next
    ensures List(head, Without(xs, k)) && entry !in [head] + Without(xs, k)
  {
    ghost var ns, ms := [head] + xs, [head] + Without(xs, k);
    assert After(ns, k) == ns[k + 1] == entry && Linked(entry, After(ns, k + 1));
    WithoutDistinct(head, xs, k);
    entry.next.prev := entry.prev;
    entry.prev.next := entry.next;
    forall j: nat | j < |ms|
      ensures Linked(ms[j], After(ms, j))
    {
      WithoutAt(head, xs, k, j);
      if j < k { AfterDistinct(ns, k, j); AfterDistinct(ns, k + 1, j); assert old(Linked(ns[j], After(ns, j))); }
      if j > k { AfterDistinct(ns, k, j + 1); AfterDistinct(ns, k + 1, j + 1); assert old(Linked(ns[j + 1], After(ns, j + 1))); }
    }
  }

  /** list_del; the two poison addresses are nodes the caller names. */
  method Del(entry: Node, poison1: Node?, poison2: Node?, ghost head: Node, ghost xs: seq<Node>, ghost k: nat)
    requires List(head, xs) && k < |xs| && xs[k] == entry
    modifies entry, entry.prev, entry.next
    ensures List(head, Without(xs, k)) && entry.next == poison1 && entry.prev == poison2
  {
    NeighboursInside(head, xs, k);
    DelEntry(entry, head, xs, k);
    entry.next := poison1;
    entry.prev := poison2;
  }

  lemma NeighboursInside(head: Node, xs: seq<Node>, k: nat)
    requires List(head, xs) && k < |xs|
    ensures xs[k].prev != null && xs[k].prev in [head] + xs
    ensures xs[k].next != null && xs[k].next in [head] + xs
  {
    var ns := [head] + xs;
    assert ns[k + 1] == xs[k] && Linked(ns[k], After(ns, k)) && Linked(ns[k + 1], After(ns, k + 1));
    assert After(ns, k + 1) in ns && ns[k] in ns;
  }

  /** list_del_init. */
  method DelInit(entry: Node, ghost head: Node, ghost xs: seq<Node>, ghost k: nat)
    requires List(head, xs) && k < |xs| && xs[k] == entry
    modifies entry, entry.prev, entry.next
    ensures List(head, Without(xs, k)) && List(entry, [])
  {
    NeighboursInside(head, xs, k);
    DelEntry(entry, head, xs, k);
    entry.next := entry;
    entry.prev := entry;
  }

  lemma ReplacedAt(ns: seq<Node>, k: nat, n: Node, j: nat)
    requires k < |ns| && j < |ns|
    ensures var ms := ns[k := n];
            && ms[j] == (if j == k then n else ns[j])
            && After(ms, j) == if j + 1 == k || (k == 0 && j + 1 == |ns|) then n else After(ns, j)
  {
  }

  /** list_replace, at any place of any ring: the head of an empty list included. */
  method Replace(prior: Node, n: Node, ghost ns: seq<Node>, ghost k: nat)
    requires Ring(ns) && k < |ns| && ns[k] == prior && n !in ns
    modifies n, prior.next, prior.prev
    ensures Ring(ns[k := n])
  {
    ghost var before: nat := if k == 0 then |ns| - 1 else k - 1;
    assert Linked(prior, After(ns, k)) && Linked(ns[before], After(ns, before));
    n.next := prior.next;
    n.next.prev := n;
    n.prev := prior.prev;
    n.prev.next := n;
    ghost var ms := ns[k := n];
    forall j: nat | j < |ms|
      ensures Linked(ms[j], After(ms, j))
    {
      ReplacedAt(ns, k, n, j);
      if j != k && j != before {
        AfterDistinct(ns, k, j);
        AfterDistinct(ns, before, j);
        assert old(Linked(ns[j], After(ns, j)));
      }
    }
  }

  // ---------------------------------------------------------------- moving and rotating

  lemma WithoutInside(head: Node, xs: seq<Node>, k: nat)
    requires k < |xs|
    ensures forall n :: n in [head] + Without(xs, k) ==> n in [head] + xs
    ensures xs[k] in [head] + xs
  {
    assert xs[k] == ([head] + xs)[k + 1];
  }

  /** Apart, by membership. */
  lemma ApartOutside(ms: seq<Node>, ns: seq<Node>)
    ensures Apart(ms, ns) ==> forall n :: n in ms ==> n !in ns
  {
  }

  /** list_move_tail: from its list to the end of the list of `head`, which is the same or another one. */
  method MoveTail(entry: Node, head: Node, ghost from: Node, ghost ys: seq<Node>, ghost k: nat, ghost xs: seq<Node>)
    requires List(from, ys) && k < |ys| && ys[k] == entry && List(head, xs)
    requires if from == head then ys == xs else Apart([from] + ys, [head] + xs)
    modifies [from] + ys, [head] + xs
    ensures from == head ==> List(head, Without(xs, k) + [entry])
    ensures from != head ==> List(from, Without(ys, k)) && List(head, xs + [entry])
  {
    ghost var target := if from == head then Without(xs, k) else xs;
    EndsInside(head, xs);
    NeighboursInside(from, ys, k);
    ApartOutside([from] + ys, [head] + xs);
    WithoutInside(from, ys, k);
    DelEntry(entry, from, ys, k);
    EndsInside(head, target);
    assert entry in [from] + ys && head in [head] + xs && head.prev in [head] + xs;
    AddTail(entry, head, target);
  }

  /** list_move: to the front of the list of `head`. */
  method Move(entry: Node, head: Node, ghost from: Node, ghost ys: seq<Node>, ghost k: nat, ghost xs: seq<Node>)
    requires List(from, ys) && k < |ys| && ys[k] == entry && List(head, xs)
    requires if from == head then ys == xs else Apart([from] + ys, [head] + xs)
    modifies [from] + ys, [head] + xs
    ensures from == head ==> List(head, [entry] + Without(xs, k))
    ensures from != head ==> List(from, Without(ys, k)) && List(head, [entry] + xs)
  {
    ghost var target := if from == head then Without(xs, k) else xs;
    EndsInside(head, xs);
    NeighboursInside(from, ys, k);
    ApartOutside([from] + ys, [head] + xs);
    WithoutInside(from, ys, k);
    DelEntry(entry, from, ys, k);
    EndsInside(head, target);
    assert entry in [from] + ys && head in [head] + xs && head.next in [head] + xs;
    Add(entry, head, target);
  }

  /** list_empty. */
  method IsEmpty(head: Node, ghost xs: seq<Node>) returns (r: bool)
    requires List(head, xs)
    ensures r <==> xs == []
  {
    EndsInside(head, xs);
    r := head.next == head;
  }

  /** list_is_last. */
  method IsLast(entry: Node, head: Node, ghost xs: seq<Node>, ghost k: nat) returns (r: bool)
    requires List(head, xs) && k < |xs| && xs[k] == entry
    ensures r <==> k == |xs| - 1
  {
    ghost var ns := [head] + xs;
    assert Linked(ns[k + 1], After(ns, k + 1)) && ns[0] == head;
    r := entry.next == head;
  }

  /** list_is_singular. */
  method IsSingular(head: Node, ghost xs: seq<Node>) returns (r: bool)
    requires List(head, xs)
    ensures r <==> |xs| == 1
  {
    EndsInside(head, xs);
    var empty := IsEmpty(head, xs);
    assert |xs| > 1 ==> ([head] + xs)[1] != ([head] + xs)[|xs|];
    r := !empty && head.next == head.prev;
  }

  /** The neighbours of a head are the ends of its list. */
  lemma EndsInside(head: Node, xs: seq<Node>)
    requires List(head, xs)
    ensures head.next in [head] + xs && head.prev in [head] + xs
    ensures xs != [] ==> head.next == xs[0] != head && head.prev == xs[|xs| - 1]
    ensures xs == [] ==> head.next == head == head.prev
  {
    var ns := [head] + xs;
    assert Linked(ns[0], After(ns, 0)) && Linked(ns[|xs|], After(ns, |xs|));
  }

  /** list_rotate_left. */
  method RotateLeft(head: Node, ghost xs: seq<Node>)
    requires List(head, xs)
    modifies [head] + xs
    ensures List(head, if xs == [] then [] else xs[1..] + [xs[0]])
  {
    var empty := IsEmpty(head, xs);
    if !empty {
      EndsInside(head, xs);
      var first := head.next;
      MoveTail(first, head, head, xs, 0, xs);
      assert Without(xs, 0) + [first] == xs[1..] + [xs[0]];
    }
  }

  // ---------------------------------------------------------------- cutting and splicing

  lemma CutParts(list: Node, head: Node, xs: seq<Node>, k: nat)
    requires k < |xs| && Distinct([head] + xs) && list !in [head] + xs
    ensures Distinct([list] + xs[..k + 1]) && Distinct([head] + xs[k + 1..])
  {
    var ns, cut, rest := [head] + xs, [list] + xs[..k + 1], [head] + xs[k + 1..];
    assert forall j :: 1 <= j < |cut| ==> cut[j] == ns[j];
    assert forall j :: 0 <= j < |rest| ==> rest[j] == ns[if j == 0 then 0 else k + 1 + j];
  }

  lemma FirstPartAt(list: Node, head: Node, xs: seq<Node>, k: nat, j: nat)
    requires k < |xs| && j <= k + 1
    ensures var ns, cut := [head] + xs, [list] + xs[..k + 1];
            && cut[j] == (if j == 0 then list else ns[j])
            && After(cut, j) == if j == k + 1 then list else ns[j + 1]
  {
  }

  lemma LastPartAt(head: Node, xs: seq<Node>, k: nat, j: nat)
    requires k < |xs| && j < |xs| - k
    ensures var ns, rest := [head] + xs, [head] + xs[k + 1..];
            && rest[j] == (if j == 0 then head else ns[k + 1 + j])
            && After(rest, j) == After(ns, k + 1 + j)
  {
  }

  /** __list_cut_position after the k-th entry. */
  method CutAt(list: Node, head: Node, entry: Node, ghost xs: seq<Node>, ghost k: nat)
    requires List(head, xs) && k < |xs| && xs[k] == entry && list !in [head] + xs
    modifies list, head, head.next, entry, entry.next
    ensures List(list, xs[..k + 1]) && List(head, xs[k + 1..])
  {
    ghost var ns := [head] + xs;
    assert Linked(ns[0], After(ns, 0)) && ns[k + 1] == entry && Linked(entry, After(ns, k + 1));
    var newFirst := entry.next;
    list.next := head.next;
    list.next.prev := list;
    list.prev := entry;
    entry.next := list;
    head.next := newFirst;
    newFirst.prev := head;
    ghost var cut, rest := [list] + xs[..k + 1], [head] + xs[k + 1..];
    CutParts(list, head, xs, k);
    forall j: nat | j < |cut|
      ensures Linked(cut[j], After(cut, j))
    {
      FirstPartAt(list, head, xs, k, j);
      if 0 < j <= k { assert old(Linked(ns[j], After(ns, j))); }
    }
    forall j: nat | j < |rest|
      ensures Linked(rest[j], After(rest, j))
    {
      LastPartAt(head, xs, k, j);
      if j > 0 { assert old(Linked(ns[k + 1 + j], After(ns, k + 1 + j))); AfterDistinct(ns, 0, k + 1 + j); }
    }
  }

  /** list_cut_position at an entry of the list, or at its head (k == -1). An empty list is left alone, and so
      is one whose single entry is another: then `list` keeps its fields too. */
  method CutPosition(list: Node, head: Node, entry: Node, ghost xs: seq<Node>, ghost k: int)
    requires List(head, xs) && list !in [head] + xs
    requires if entry in [head] + xs then -1 <= k < |xs| && entry == ([head] + xs)[k + 1] else |xs| <= 1
    modifies list, [head] + xs
    ensures xs != [] && entry in [head] + xs ==> List(list, xs[..k + 1]) && List(head, xs[k + 1..])
    ensures xs == [] || entry !in [head] + xs ==> unchanged(list, [head] + xs)
  {
    EndsInside(head, xs);
    var empty := IsEmpty(head, xs);
    if empty {
      return;
    }
    var singular := IsSingular(head, xs);
    if singular && head.next != entry && head != entry {
      return;
    }
    if entry == head {
      assert ([head] + xs)[0] == head && k == -1;
      list.next := list;
      list.prev := list;
      assert xs[0..] == xs && xs[..0] == [];
    } else {
      assert entry in [head] + xs;
      NeighboursInside(head, xs, k);
      assert head in [head] + xs && head.next in [head] + xs;
      CutAt(list, head, entry, xs, k);
    }
  }

  function Spliced(ns: seq<Node>, i: nat, ys: seq<Node>): seq<Node>
    requires i < |ns|
  {
    ns[..i + 1] + ys + ns[i + 1..]
  }

  lemma SplicedAt(ns: seq<Node>, i: nat, ys: seq<Node>, j: nat)
    requires i < |ns| && ys != [] && j < |ns| + |ys|
    ensures var all := Spliced(ns, i, ys);
            if j < i then all[j] == ns[j] && After(all, j) == After(ns, j)
            else if j == i then all[j] == ns[i] && After(all, j) == ys[0]
            else if j < i + |ys| then all[j] == ys[j - i - 1] && After(all, j) == ys[j - i]
            else if j == i + |ys| then all[j] == ys[|ys| - 1] && After(all, j) == After(ns, i)
            else all[j] == ns[j - |ys|] && After(all, j) == After(ns, j - |ys|)
  {
  }

  ghost predicate Apart(ms: seq<Node>, ns: seq<Node>) {
    forall i, j :: 0 <= i < |ms| && 0 <= j < |ns| ==> ms[i] != ns[j]
  }

  lemma SplicedDistinct(list: Node, ys: seq<Node>, ns: seq<Node>, i: nat)
    requires Distinct([list] + ys) && Distinct(ns) && Apart([list] + ys, ns) && i < |ns|
    ensures Distinct(Spliced(ns, i, ys))
  {
    var ms, all := [list] + ys, Spliced(ns, i, ys);
    forall j | 0 <= j < |all|
      ensures all[j] == if j <= i then ns[j] else if j <= i + |ys| then ms[j - i] else ns[j - |ys|]
    {
    }
    forall p, q | 0 <= p < q < |all|
      ensures all[p] != all[q]
    {
      var inP, inQ := i < p <= i + |ys|, i < q <= i + |ys|;
      if inP && inQ {
        assert ms[p - i] != ms[q - i];
      } else if !inP && !inQ {
        assert ns[if p <= i then p else p - |ys|] != ns[if q <= i then q else q - |ys|];
      } else if inP {
        assert ms[p - i] != ns[q - |ys|];
      } else {
        assert ms[q - i] != ns[if p <= i then p else p - |ys|];
      }
    }
  }

  /** __list_splice between the i-th node of a ring and the one after it. */
  method SpliceBetween(list: Node, prev: Node, next: Node, ghost ys: seq<Node>, ghost ns: seq<Node>, ghost i: nat)
    requires List(list, ys) && ys != [] && Ring(ns) && i < |ns| && prev == ns[i] && next == After(ns, i)
    requires Apart([list] + ys, ns)
    modifies list.next, list.prev, prev, next
    ensures Ring(Spliced(ns, i, ys))
    ensures list.next == old(list.next) && list.prev == old(list.prev)
  {
    ghost var ms := [list] + ys;
    EndsInside(list, ys);
    SplicedDistinct(list, ys, ns, i);
    assert ms[1] == ys[0] && ms[|ys|] == ys[|ys| - 1] && ms[0] == list;
    var first, last := list.next, list.prev;
    first.prev := prev;
    prev.next := first;
    last.next := next;
    next.prev := last;
    ghost var all := Spliced(ns, i, ys);
    forall j: nat | j < |all|
      ensures Linked(all[j], After(all, j))
    {
      SplicedAt(ns, i, ys, j);
      if j < i { AfterDistinct(ns, i, j); assert old(Linked(ns[j], After(ns, j))); }
      else if i < j < i + |ys| {
        assert old(Linked(ms[j - i], After(ms, j - i))) && ms[j - i] == ys[j - i - 1] && ms[j - i + 1] == ys[j - i];
      }
      else if j > i + |ys| { AfterDistinct(ns, i, j - |ys|); assert old(Linked(ns[j - |ys|], After(ns, j - |ys|))); }
    }
  }

  /** list_splice: the entries of `list` go before those of `head`; `list` itself keeps its fields. */
  method Splice(list: Node, head: Node, ghost ys: seq<Node>, ghost xs: seq<Node>)
    requires List(list, ys) && List(head, xs) && Apart([list] + ys, [head] + xs)
    modifies ys, [head] + xs
    ensures List(head, ys + xs)
    ensures list.next == old(list.next) && list.prev == old(list.prev)
  {
    hide Distinct, Linked, Apart;
    EndsInside(list, ys);
    EndsInside(head, xs);
    var empty := IsEmpty(list, ys);
    if !empty {
      assert head in [head] + xs && head.next in [head] + xs && list.next in ys && list.prev in ys;
      SpliceBetween(list, head, head.next, ys, [head] + xs, 0);
      assert Spliced([head] + xs, 0, ys) == [head] + (ys + xs);
    } else {
      assert ys + xs == xs;
    }
  }

  /** list_splice_tail: the entries of `list` go after those of `head`. */
  method SpliceTail(list: Node, head: Node, ghost ys: seq<Node>, ghost xs: seq<Node>)
    requires List(list, ys) && List(head, xs) && Apart([list] + ys, [head] + xs)
    modifies ys, [head] + xs
    ensures List(head, xs + ys)
    ensures list.next == old(list.next) && list.prev == old(list.prev)
  {
    hide Distinct, Linked, Apart;
    EndsInside(list, ys);
    EndsInside(head, xs);
    var empty := IsEmpty(list, ys);
    if !empty {
      assert head in [head] + xs && head.prev in [head] + xs && list.next in ys && list.prev in ys;
      SpliceBetween(list, head.prev, head, ys, [head] + xs, |xs|);
      assert Spliced([head] + xs, |xs|, ys) == [head] + (xs + ys);
    } else {
      assert xs + ys == xs;
    }
  }

  /** list_splice_init: as list_splice, and `list` becomes an empty list again. */
  method SpliceInit(list: Node, head: Node, ghost ys: seq<Node>, ghost xs: seq<Node>)
    requires List(list, ys) && List(head, xs) && Apart([list] + ys, [head] + xs)
    modifies list, ys, [head] + xs
    ensures List(head, ys + xs) && List(list, [])
  {
    var empty := IsEmpty(list, ys);
    Splice(list, head, ys, xs);
    if !empty {
      Outside(list, head, ys, xs);
      list.next := list;
      list.prev := list;
    }
  }

  lemma Outside(list: Node, head: Node, ys: seq<Node>, xs: seq<Node>)
    requires Distinct([list] + ys) && Apart([list] + ys, [head] + xs)
    ensures list !in [head] + (ys + xs)
  {
    var ms, ns, all := [list] + ys, [head] + xs, [head] + (ys + xs);
    forall j | 0 <= j < |all|
      ensures all[j] != ms[0]
    {
      assert all[j] == if j == 0 then ns[0] else if j <= |ys| then ms[j] else ns[j - |ys|];
    }
  }

  /** Cutting a list anywhere and splicing the cut part back onto its head restores the list. */
  method CutAndSpliceBack(list: Node, head: Node, entry: Node, ghost xs: seq<Node>, ghost k: int)
    requires List(head, xs) && -1 <= k < |xs| && entry == ([head] + xs)[k + 1] && list !in [head] + xs && xs != []
    modifies list, [head] + xs
    ensures List(head, xs)
  {
    CutPosition(list, head, entry, xs, k);
    ghost var cut, rest := xs[..k + 1], xs[k + 1..];
    assert cut + rest == xs;
    PartsApart(list, head, xs, k);
    PartsInside(head, xs, k);
    Splice(list, head, cut, rest);
  }

  lemma PartsInside(head: Node, xs: seq<Node>, k: int)
    requires -1 <= k < |xs|
    ensures Within(xs[..k + 1], [head] + xs) && Within([head] + xs[k + 1..], [head] + xs)
  {
    var ns, rest := [head] + xs, [head] + xs[k + 1..];
    assert forall i :: 0 <= i < |xs| ==> ns[i + 1] == xs[i];
    assert forall i :: 0 <= i < |rest| ==> rest[i] == ns[if i == 0 then 0 else k + 1 + i];
  }

  ghost predicate Within(ms: seq<Node>, ns: seq<Node>) {
    forall i :: 0 <= i < |ms| ==> ms[i] in ns
  }

  lemma PartsApart(list: Node, head: Node, xs: seq<Node>, k: int)
    requires -1 <= k < |xs| && list !in [head] + xs && Distinct([head] + xs)
    ensures Apart([list] + xs[..k + 1], [head] + xs[k + 1..])
  {
    var ns, cut, rest := [head] + xs, [list] + xs[..k + 1], [head] + xs[k + 1..];
    forall i, j | 0 <= i < |cut| && 0 <= j < |rest|
      ensures cut[i] != rest[j]
    {
      var b := if j == 0 then 0 else k + 1 + j;
      assert rest[j] == ns[b] && (if i == 0 then cut[i] == list else cut[i] == ns[i]);
    }
  }
}
