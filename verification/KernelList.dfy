/**
 Intrusive doubly linked lists with a head and a tail sentinel
 (lib/kernel/list.c).  A list's ghost field `nodes` is the chain from head to
 tail; every operation rewrites `prev` and `next` in place and says how the
 chain changes.  Ghost parameters name positions in that chain.

 `less` is a function of the two elements alone: what it compares lives in the
 structures the elements are embedded in, which no list operation touches.
 */
module KernelList {
  import opened Sequences
  import opened Ordering

  class ListElem {
    var prev: ListElem?
    var next: ListElem?

    constructor ()
      ensures prev == null && next == null
    {
      prev, next := null, null;
    }
  }

  type Less = (ListElem, ListElem) -> bool

  ghost function NodeAt(s: seq<ListElem>, i: int): ListElem? {
    if 0 <= i < |s| then s[i] else null
  }

  /** `s` is a doubly linked chain of distinct nodes with nothing at either end. */
  ghost predicate Chain(s: seq<ListElem>)
    reads s
  {
    && Distinct(s)
    && (forall i {:trigger s[i].next} | 0 <= i < |s| :: s[i].next == NodeAt(s, i + 1))
    && (forall i {:trigger s[i].prev} | 0 <= i < |s| :: s[i].prev == NodeAt(s, i - 1))
  }

  // Exchanging two adjacent blocks of a chain takes three links each way.
  ghost function NextIndex(x: int, y: int, z: int, i: int): int {
    if i == x - 1 then y else if i == z - 1 then x else if i == y - 1 then z else i + 1
  }

  ghost function PrevIndex(x: int, y: int, z: int, i: int): int {
    if i == y then x - 1 else if i == x then z - 1 else if i == z then y - 1 else i - 1
  }

  ghost predicate Relinked(s: seq<ListElem>, x: int, y: int, z: int)
    reads s
  {
    && (forall i {:trigger s[i].next} | 0 <= i < |s| :: s[i].next == NodeAt(s, NextIndex(x, y, z, i)))
    && (forall i {:trigger s[i].prev} | 0 <= i < |s| :: s[i].prev == NodeAt(s, PrevIndex(x, y, z, i)))
  }

  lemma LinkIndices(x: int, y: int, z: int, i: int)
    requires 1 <= x < y < z && 0 <= i
    ensures NextIndex(x, y, z, Source(x, y, z, i)) == Source(x, y, z, i + 1)
    ensures PrevIndex(x, y, z, Source(x, y, z, i)) == Source(x, y, z, i - 1)
  {
  }

  lemma RelinkedAt(s: seq<ListElem>, t: seq<ListElem>, x: nat, y: nat, z: nat, i: nat)
    requires 1 <= x < y < z < |s| && i < |s|
    requires Relinked(s, x, y, z) && t == SwapBlocks(s, x, y, z)
    ensures t[i].next == NodeAt(t, i + 1) && t[i].prev == NodeAt(t, i - 1)
  {
    LinkIndices(x, y, z, i);
    var k := Source(x, y, z, i);
    assert t[i] == s[k];
    assert s[k].next == NodeAt(s, Source(x, y, z, i + 1));
    assert s[k].prev == NodeAt(s, Source(x, y, z, i - 1));
  }

  lemma RelinkedChain(s: seq<ListElem>, x: nat, y: nat, z: nat)
    requires Distinct(s) && 1 <= x < y < z < |s|
    requires Relinked(s, x, y, z)
    ensures Chain(SwapBlocks(s, x, y, z))
  {
    var t := SwapBlocks(s, x, y, z);
    SwapBlocksPermutes(s, x, y, z);
    DistinctPermutation(s, t);
    forall i | 0 <= i < |t| ensures t[i].next == NodeAt(t, i + 1) && t[i].prev == NodeAt(t, i - 1) {
      RelinkedAt(s, t, x, y, z, i);
    }
  }

  /** The links after s[f..l] has been cut out and put in before s[b]: six of
      them change, the rest are those of the chain `s`. */
  ghost predicate Spliced(s: seq<ListElem>, b: int, f: int, l: int)
    requires 1 <= b < |s| && 1 <= f < |s| && 1 <= l < |s|
    reads s
  {
    && s[f - 1].next == s[l] && s[l - 1].next == s[b] && s[b - 1].next == s[f]
    && s[l].prev == s[f - 1] && s[b].prev == s[l - 1] && s[f].prev == s[b - 1]
    && (forall k {:trigger s[k].next} | 0 <= k < |s| && k != f - 1 && k != l - 1 && k != b - 1 ::
          s[k].next == NodeAt(s, k + 1))
    && (forall k {:trigger s[k].prev} | 0 <= k < |s| && k != f && k != l && k != b ::
          s[k].prev == NodeAt(s, k - 1))
  }

  lemma SplicedLeft(s: seq<ListElem>, b: nat, f: nat, l: nat)
    requires Distinct(s) && 1 <= b < f < l < |s| && Spliced(s, b, f, l)
    ensures Chain(SwapBlocks(s, b, f, l))
  {
    assert Relinked(s, b, f, l);
    RelinkedChain(s, b, f, l);
  }

  lemma SplicedRight(s: seq<ListElem>, b: nat, f: nat, l: nat)
    requires Distinct(s) && 1 <= f < l < b < |s| && Spliced(s, b, f, l)
    ensures Chain(SwapBlocks(s, f, l, b))
  {
    assert Relinked(s, f, l, b);
    RelinkedChain(s, f, l, b);
  }

  lemma OnlyIndex(s: seq<ListElem>, i: nat)
    requires Distinct(s) && i < |s|
    ensures forall k | 0 <= k < |s| :: s[k] == s[i] <==> k == i
  {
    forall k | 0 <= k < |s| ensures s[k] == s[i] <==> k == i { SameIndex(s, k, i); }
  }

  // Six pointer writes.
  method Relink(before: ListElem, first: ListElem, back: ListElem,
                ghost s: seq<ListElem>, ghost b: nat, ghost f: nat, ghost l: nat)
    requires Chain(s)
    requires 1 <= b < |s| && 1 <= f < l < |s| && (b < f || l <= b)
    requires s[b] == before && s[f] == first && s[l - 1] == back
    modifies s
    ensures if l == b then Chain(s) else Spliced(s, b, f, l)
  {
    AllApart(s);
    // Cut first..back out of the chain.
    first.prev.next := back.next;
    back.next.prev := first.prev;
    // Link it in before `before`.
    first.prev := before.prev;
    back.next := before;
    before.prev.next := first;
    before.prev := back;
  }

  // ---------- Splicing across lists ----------

  ghost predicate Strangers(s: seq<ListElem>, t: seq<ListElem>) {
    forall i, j | 0 <= i < |s| && 0 <= j < |t| :: s[i] != t[j]
  }

  // The links of a chain s whose nodes f..l now stand between p and n in another one.
  ghost predicate Shortened(s: seq<ListElem>, p: ListElem, n: ListElem, f: int, l: int)
    requires 1 <= f < l < |s|
    reads s
  {
    && s[f - 1].next == s[l] && s[l - 1].next == n && s[l].prev == s[f - 1] && s[f].prev == p
    && (forall k {:trigger s[k].next} | 0 <= k < |s| && k != f - 1 && k != l - 1 :: s[k].next == NodeAt(s, k + 1))
    && (forall k {:trigger s[k].prev} | 0 <= k < |s| && k != f && k != l :: s[k].prev == NodeAt(s, k - 1))
  }

  // The links of a chain t into which first..back have been put before t[b].
  ghost predicate Lengthened(t: seq<ListElem>, first: ListElem, back: ListElem, b: int)
    requires 1 <= b < |t|
    reads t
  {
    && t[b - 1].next == first && t[b].prev == back
    && (forall k {:trigger t[k].next} | 0 <= k < |t| && k != b - 1 :: t[k].next == NodeAt(t, k + 1))
    && (forall k {:trigger t[k].prev} | 0 <= k < |t| && k != b :: t[k].prev == NodeAt(t, k - 1))
  }

  // The same six writes when `before` is at b in another chain.
  method RelinkAcross(before: ListElem, first: ListElem, back: ListElem,
                      ghost s: seq<ListElem>, ghost t: seq<ListElem>, ghost b: nat, ghost f: nat, ghost l: nat)
    requires Chain(s) && Chain(t) && Strangers(s, t) && 1 <= b < |t| && 1 <= f < l < |s|
    requires t[b] == before && s[f] == first && s[l - 1] == back
    modifies s, t
    ensures Shortened(s, t[b - 1], before, f, l) && Lengthened(t, first, back, b)
  {
    AllApart(s);
    AllApart(t);
    first.prev.next := back.next;
    back.next.prev := first.prev;
    first.prev := before.prev;
    back.next := before;
    before.prev.next := first;
    before.prev := back;
  }

  /** s without its nodes f..l. */
  ghost function CutOut(s: seq<ListElem>, f: nat, l: nat): seq<ListElem>
    requires f <= l <= |s|
  {
    s[..f] + s[l..]
  }

  /** t with the nodes of r put in before the one at b. */
  ghost function PutIn(t: seq<ListElem>, b: nat, r: seq<ListElem>): seq<ListElem>
    requires b <= |t|
  {
    t[..b] + r + t[b..]
  }

  lemma CutChain(s: seq<ListElem>, p: ListElem, n: ListElem, f: nat, l: nat)
    requires Distinct(s) && 1 <= f < l < |s| && Shortened(s, p, n, f, l)
    ensures Chain(CutOut(s, f, l))
  {
    var u := CutOut(s, f, l);
    AllApart(s);
    forall i | 0 <= i < |u| ensures u[i].next == NodeAt(u, i + 1) && u[i].prev == NodeAt(u, i - 1) {
      var k := if i < f then i else i + l - f;
      assert u[i] == s[k];
      assert i + 1 < |u| ==> u[i + 1] == s[if i + 1 < f then i + 1 else i + 1 + l - f];
    }
  }

  lemma PutChain(s: seq<ListElem>, t: seq<ListElem>, b: nat, f: nat, l: nat)
    requires Distinct(s) && Distinct(t) && Strangers(s, t) && 1 <= b < |t| && 1 <= f < l < |s|
    requires Shortened(s, t[b - 1], t[b], f, l) && Lengthened(t, s[f], s[l - 1], b)
    ensures Chain(PutIn(t, b, s[f..l]))
  {
    var v, m := PutIn(t, b, s[f..l]), l - f;
    PutDistinct(s, t, b, f, l);
    forall i | 0 <= i < |v| ensures v[i].next == NodeAt(v, i + 1) && v[i].prev == NodeAt(v, i - 1) {
      PutAt(s, t, b, f, l, i);
      if i + 1 < |v| { PutAt(s, t, b, f, l, i + 1); }
      if i > 0 { PutAt(s, t, b, f, l, i - 1); }
    }
  }

  lemma PutAt(s: seq<ListElem>, t: seq<ListElem>, b: nat, f: nat, l: nat, i: nat)
    requires b <= |t| && f <= l <= |s| && i < |t| + l - f
    ensures var v := PutIn(t, b, s[f..l]);
      |v| == |t| + l - f && v[i] == if i < b then t[i] else if i < b + l - f then s[f + i - b] else t[i - (l - f)]
  {
  }

  // Where the nodes of both chains are to be found afterwards.
  lemma NodesMoved(s: seq<ListElem>, t: seq<ListElem>, b: nat, f: nat, l: nat, from: set<ListElem>, to: set<ListElem>,
                   moved: set<ListElem>)
    requires Distinct(s) && b <= |t| && f <= l <= |s| && moved == set x | x in s[f..l]
    requires (forall i | 0 <= i < |s| :: s[i] in from) && (forall j | 0 <= j < |t| :: t[j] in to)
    ensures moved <= from
    ensures forall i | 0 <= i < |PutIn(t, b, s[f..l])| :: PutIn(t, b, s[f..l])[i] in to + moved
    ensures forall i | 0 <= i < |CutOut(s, f, l)| :: CutOut(s, f, l)[i] in from - moved
  {
    AllApart(s);
    forall i | 0 <= i < |PutIn(t, b, s[f..l])| ensures PutIn(t, b, s[f..l])[i] in to + moved {
      PutAt(s, t, b, f, l, i);
    }
    forall i | 0 <= i < |CutOut(s, f, l)| ensures CutOut(s, f, l)[i] in from - moved {
      var k := if i < f then i else i + l - f;
      assert CutOut(s, f, l)[i] == s[k];
      forall x | x in s[f..l] ensures x != s[k] {
        var j :| 0 <= j < l - f && s[f..l][j] == x;
        assert s[f + j] == x;
      }
    }
  }

  lemma PutDistinct(s: seq<ListElem>, t: seq<ListElem>, b: nat, f: nat, l: nat)
    requires Distinct(s) && Distinct(t) && Strangers(s, t) && b <= |t| && f <= l <= |s|
    ensures Distinct(PutIn(t, b, s[f..l]))
  {
    var v := PutIn(t, b, s[f..l]);
    AllApart(s);
    AllApart(t);
    forall i, j | 0 <= i < j < |v| ensures v[i] != v[j] {
      PutAt(s, t, b, f, l, i);
      PutAt(s, t, b, f, l, j);
    }
    assert forall i, j | 0 <= i < j < |v| :: Apart(v, i, j);
  }

  ghost function AfterSplice(s: seq<ListElem>, b: nat, f: nat, l: nat): (t: seq<ListElem>)
    requires b <= |s| && f <= l <= |s| && (b < f || l <= b)
    ensures |t| == |s|
  {
    if b < f then SwapBlocks(s, b, f, l) else SwapBlocks(s, f, l, b)
  }

  /** list_splice within one list: removes the nodes at f..l (exclusive) from the
      chain and puts them just before the node at b, which must not be one of them. */
  method ListSplice(before: ListElem, first: ListElem, last: ListElem,
                    ghost s: seq<ListElem>, ghost b: nat, ghost f: nat, ghost l: nat)
    requires Chain(s)
    requires 1 <= b < |s| && 1 <= f <= l < |s| && (b < f || l <= b)
    requires s[b] == before && s[f] == first && s[l] == last
    modifies s
    ensures Chain(AfterSplice(s, b, f, l))
  {
    SameIndex(s, f, l);
    if first == last {
      assert AfterSplice(s, b, f, l) == s;
      return;
    }
    Relink(before, first, last.prev, s, b, f, l);
    if l == b {
      assert AfterSplice(s, b, f, l) == s;
    } else if b < f {
      SplicedLeft(s, b, f, l);
    } else {
      SplicedRight(s, b, f, l);
    }
  }

  /** list_splice from one list into another. */
  method ListSpliceAcross(before: ListElem, first: ListElem, last: ListElem,
                          ghost s: seq<ListElem>, ghost t: seq<ListElem>, ghost b: nat, ghost f: nat, ghost l: nat)
    requires Chain(s) && Chain(t) && Strangers(s, t) && 1 <= b < |t| && 1 <= f <= l < |s|
    requires t[b] == before && s[f] == first && s[l] == last
    modifies s, t
    ensures Chain(CutOut(s, f, l)) && Chain(PutIn(t, b, s[f..l]))
  {
    SameIndex(s, f, l);
    if first == last {
      assert CutOut(s, f, l) == s && PutIn(t, b, s[f..l]) == t;
      return;
    }
    RelinkAcross(before, first, last.prev, s, t, b, f, l);
    CutChain(s, t[b - 1], before, f, l);
    PutChain(s, t, b, f, l);
  }

  // Pointer writes of list_insert, list_remove and list_reverse.
  method LinkIn(before: ListElem, elem: ListElem, ghost s: seq<ListElem>, ghost b: nat)
    requires Chain(s) && 1 <= b < |s| && s[b] == before && elem !in s
    modifies s, elem
    ensures Chain(Inserted(s, b, elem))
  {
    AllApart(s);
    elem.prev := before.prev;
    elem.next := before;
    before.prev.next := elem;
    before.prev := elem;
    InsertedDistinct(s, b, elem);
  }

  method Unlink(elem: ListElem, ghost s: seq<ListElem>, ghost b: nat) returns (next: ListElem)
    requires Chain(s) && 1 <= b < |s| - 1 && s[b] == elem
    modifies s
    ensures Chain(Removed(s, b)) && next == s[b + 1]
    ensures elem.prev == old(elem.prev) && elem.next == old(elem.next)
  {
    AllApart(s);
    elem.prev.next := elem.next;
    elem.next.prev := elem.prev;
    next := elem.next;
    RemovedDistinct(s, b);
  }

  // The links when the nodes at 1..i have had theirs exchanged.
  ghost predicate HalfReversed(s: seq<ListElem>, i: int)
    reads s
  {
    && (forall k {:trigger s[k].next} | 0 <= k < |s| :: s[k].next == NodeAt(s, Half(i, k, 1)))
    && (forall k {:trigger s[k].prev} | 0 <= k < |s| :: s[k].prev == NodeAt(s, Half(i, k, -1)))
  }

  ghost function Half(i: int, k: int, d: int): int {
    if 1 <= k < i then k - d else k + d
  }

  method ExchangeLinks(head: ListElem, tail: ListElem, ghost s: seq<ListElem>)
    requires Chain(s) && |s| >= 2 && s[0] == head && s[|s| - 1] == tail
    modifies s
    ensures HalfReversed(s, |s| - 1)
  {
    var e := head.next;
    ghost var i := 1;
    SameIndex(s, i, |s| - 1);
    while e != tail
      invariant 1 <= i < |s| && e == s[i] && (e == tail <==> i == |s| - 1)
      invariant HalfReversed(s, i)
      decreases |s| - i
    {
      ExchangeOne(e, s, i);
      e, i := e.prev, i + 1;
      SameIndex(s, i, |s| - 1);
    }
  }

  method ExchangeOne(e: ListElem, ghost s: seq<ListElem>, ghost i: nat)
    requires Distinct(s) && HalfReversed(s, i) && 1 <= i < |s| - 1 && s[i] == e
    modifies e
    ensures HalfReversed(s, i + 1)
  {
    forall k | 0 <= k < |s| ensures s[k] == e <==> k == i { SameIndex(s, k, i); }
    e.prev, e.next := e.next, e.prev;
  }

  // The links of a chain whose interior is linked backwards.
  ghost predicate Backwards(s: seq<ListElem>)
    reads s
  {
    && (forall k {:trigger s[k].next} | 0 <= k < |s| :: s[k].next == NodeAt(s, BackNext(|s|, k)))
    && (forall k {:trigger s[k].prev} | 0 <= k < |s| :: s[k].prev == NodeAt(s, BackPrev(|s|, k)))
  }

  ghost function BackNext(n: int, k: int): int {
    if k == 0 then n - 2 else if k == n - 1 then n else if k == 1 then n - 1 else k - 1
  }

  ghost function BackPrev(n: int, k: int): int {
    if k == 0 then -1 else if k == n - 1 then 1 else if k == n - 2 then 0 else k + 1
  }

  // After the sentinels' links have been exchanged.
  ghost predicate EndsExchanged(s: seq<ListElem>)
    reads s
  {
    && (forall k {:trigger s[k].next} | 0 <= k < |s| :: s[k].next == NodeAt(s, EndNext(|s|, k)))
    && (forall k {:trigger s[k].prev} | 0 <= k < |s| :: s[k].prev == NodeAt(s, EndPrev(|s|, k)))
  }

  ghost function EndNext(n: int, k: int): int {
    if k == 0 then n - 2 else Half(n - 1, k, 1)
  }

  ghost function EndPrev(n: int, k: int): int {
    if k == n - 1 then 1 else Half(n - 1, k, -1)
  }

  method ExchangeEnds(head: ListElem, tail: ListElem, ghost s: seq<ListElem>)
    requires Distinct(s) && |s| >= 3 && HalfReversed(s, |s| - 1) && s[0] == head && s[|s| - 1] == tail
    modifies head, tail
    ensures EndsExchanged(s)
  {
    OnlyIndex(s, 0);
    OnlyIndex(s, |s| - 1);
    head.next, tail.prev := tail.prev, head.next;
  }

  method ExchangeNext(last: ListElem, first: ListElem, ghost s: seq<ListElem>)
    requires Distinct(s) && |s| >= 3 && EndsExchanged(s) && s[1] == first && s[|s| - 2] == last
    modifies last, first
    ensures Backwards(s)
  {
    OnlyIndex(s, 1);
    OnlyIndex(s, |s| - 2);
    last.prev, first.next := first.next, last.prev;
  }

  method ReverseEnds(head: ListElem, tail: ListElem, ghost s: seq<ListElem>)
    requires Distinct(s) && |s| >= 3 && HalfReversed(s, |s| - 1) && s[0] == head && s[|s| - 1] == tail
    modifies s
    ensures Backwards(s)
  {
    ExchangeEnds(head, tail, s);
    assert s[0].next == s[|s| - 2] && s[|s| - 1].prev == s[1];
    ExchangeNext(head.next, tail.prev, s);
  }

  lemma BackwardsChain(s: seq<ListElem>)
    requires Distinct(s) && |s| >= 3 && Backwards(s)
    ensures Chain(ReversedInside(s))
  {
    var t := ReversedInside(s);
    ReversedDistinct(s);
    forall i | 0 <= i < |t| ensures t[i].next == NodeAt(t, i + 1) && t[i].prev == NodeAt(t, i - 1) {
      var k := if 0 < i < |s| - 1 then |s| - 1 - i else i;
      assert t[i] == s[k];
    }
  }

  class List {
    const head: ListElem
    const tail: ListElem
    ghost var nodes: seq<ListElem>
    ghost var repr: set<ListElem>

    ghost predicate Valid()
      reads this, repr
    {
      && (forall i {:trigger nodes[i] in repr} | 0 <= i < |nodes| :: nodes[i] in repr)
      && |nodes| >= 2 && nodes[0] == head && nodes[|nodes| - 1] == tail
      && Chain(nodes)
    }

    ghost function Elems(): seq<ListElem>
      requires |nodes| >= 2
      reads this
    {
      nodes[1..|nodes| - 1]
    }

    /** Position of the end sentinel. */
    ghost function End(): int
      reads this
    {
      |nodes| - 1
    }

    constructor ()
      ensures Valid() && Elems() == [] && fresh(repr)
    {
      var h := new ListElem();
      var t := new ListElem();
      h.next, t.prev := t, h;
      head, tail, nodes, repr := h, t, [h, t], {h, t};
    }

    /** Moves the nodes at f..l (exclusive) to just before the node at b. */
    method Splice(before: ListElem, first: ListElem, last: ListElem, ghost b: nat, ghost f: nat, ghost l: nat)
      requires Valid()
      requires 1 <= b <= End() && 1 <= f <= l <= End() && (b < f || l <= b)
      requires nodes[b] == before && nodes[f] == first && nodes[l] == last
      modifies this, repr
      ensures Valid() && repr == old(repr)
      ensures nodes == AfterSplice(old(nodes), b, f, l)
    {
      ListSplice(before, first, last, nodes, b, f, l);
      nodes := AfterSplice(nodes, b, f, l);
    }

    /** Moves the nodes at f..l (exclusive) of another list to just before the node
        at b of this one. */
    method SpliceFrom(other: List, before: ListElem, first: ListElem, last: ListElem,
                      ghost b: nat, ghost f: nat, ghost l: nat)
      requires Valid() && other.Valid() && other != this && repr !! other.repr
      requires 1 <= b <= End() && nodes[b] == before
      requires 1 <= f <= l <= other.End() && other.nodes[f] == first && other.nodes[l] == last
      modifies this, repr, other, other.repr
      ensures Valid() && other.Valid() && repr !! other.repr && repr + other.repr == old(repr + other.repr)
      ensures nodes == PutIn(old(nodes), b, old(other.nodes)[f..l])
      ensures other.nodes == CutOut(old(other.nodes), f, l)
    {
      ghost var s, t := other.nodes, nodes;
      assert forall i, j | 0 <= i < |s| && 0 <= j < |t| :: s[i] in other.repr && t[j] in repr;
      ListSpliceAcross(before, first, last, s, t, b, f, l);
      ghost var moved := set x | x in s[f..l];
      NodesMoved(s, t, b, f, l, other.repr, repr, moved);
      Become(PutIn(t, b, s[f..l]), repr + moved);
      other.Become(CutOut(s, f, l), other.repr - moved);
    }

    ghost method Become(chain: seq<ListElem>, all: set<ListElem>)
      requires Chain(chain) && |chain| >= 2 && chain[0] == head && chain[|chain| - 1] == tail
      requires forall i | 0 <= i < |chain| :: chain[i] in all
      modifies this
      ensures Valid() && nodes == chain && repr == all
    {
      nodes, repr := chain, all;
    }

    // ---------- Sorting ----------

    /** The exclusive end of the natural run that starts at `a`, looking no
        further than `b`. */
    method FindEndOfRun(a: ListElem, b: ListElem, less: Less, ghost i: nat, ghost hi: nat)
      returns (e: ListElem, ghost j: nat)
      requires Valid() && 1 <= i < hi <= End() && nodes[i] == a && nodes[hi] == b
      ensures j == RunEnd(nodes, i, hi, less) && e == nodes[RunEnd(nodes, i, hi, less)]
    {
      e, j := a.next, i + 1;
      SameIndex(nodes, j, hi);
      while e != b && !less(e, e.prev)
        invariant i < j <= hi && e == nodes[j] && (e == b <==> j == hi)
        invariant RunEnd(nodes, i, hi, less) == RunEnd(nodes, j - 1, hi, less)
        decreases hi - j
      {
        e, j := e.next, j + 1;
        SameIndex(nodes, j, hi);
      }
    }

    // Moves the node at j to just before the one at i.
    method TakeSecond(p: ListElem, q: ListElem, ghost i: nat, ghost j: nat) returns (q': ListElem)
      requires Valid() && 1 <= i < j < End() && nodes[i] == p && nodes[j] == q
      modifies this, repr
      ensures Valid() && repr == old(repr)
      ensures nodes == SwapBlocks(old(nodes), i, j, j + 1) && q' == nodes[j + 1] == old(nodes[j + 1])
    {
      q' := q.next;
      Splice(p, q'.prev, q', i, j, j + 1);
    }

    /** Merges the ranges [i, m) and [m, k) in place, taking from the second
        range only what is strictly less than the front of the first. */
    method InplaceMerge(a0: ListElem, a1b0: ListElem, b1: ListElem, less: Less,
                        ghost i: nat, ghost m: nat, ghost k: nat)
      requires Valid() && 1 <= i < m < k <= End()
      requires nodes[i] == a0 && nodes[m] == a1b0 && nodes[k] == b1
      modifies this, repr
      ensures Valid() && repr == old(repr)
      ensures nodes == Merged(old(nodes), i, m, k, less) && nodes[k] == b1
    {
      var p: ListElem, q: ListElem := a0, a1b0;
      ghost var pi, qi := i, m;
      ghost var goal := Merged(nodes, i, m, k, less);
      SameIndex(nodes, pi, qi);
      SameIndex(nodes, qi, k);
      while p != q && q != b1
        invariant Valid() && repr == old(repr) && |nodes| == |goal|
        invariant 1 <= pi <= qi <= k <= End() && nodes[pi] == p && nodes[qi] == q && nodes[k] == b1
        invariant (p == q <==> pi == qi) && (q == b1 <==> qi == k)
        invariant Merged(nodes, pi, qi, k, less) == goal
        decreases k - pi
      {
        if !less(q, p) {
          p, pi := p.next, pi + 1;
        } else {
          q := TakeSecond(p, q, pi, qi);
          pi, qi := pi + 1, qi + 1;
        }
        SameIndex(nodes, pi, qi);
        SameIndex(nodes, qi, k);
      }
    }

    // Locates the two adjacent natural runs from a0 on and merges them.
    method MergePair(a0: ListElem, less: Less, ghost i: nat, ghost hi: nat)
      returns (b1: ListElem, ghost k: nat, last: bool)
      requires Valid() && 1 <= i < hi == End() && nodes[i] == a0
      modifies this, repr
      ensures Valid() && repr == old(repr)
      ensures last <==> RunEnd(old(nodes), i, hi, less) == hi
      ensures last ==> nodes == old(nodes)
      ensures !last ==> nodes == PairMerged(old(nodes), i, hi, less) && k == PairEnd(old(nodes), i, hi, less)
      ensures !last ==> nodes[k] == b1
    {
      var a1b0, m := FindEndOfRun(a0, tail, less, i, hi);
      SameIndex(nodes, m, hi);
      last := a1b0 == tail;
      if last {
        b1, k := tail, hi;
      } else {
        b1, k := FindEndOfRun(a1b0, tail, less, m, hi);
        InplaceMerge(a0, a1b0, b1, less, i, m, k);
      }
    }

    // One trip over the list, merging natural runs in pairs.
    method SortPass(less: Less) returns (runs: nat)
      requires Valid()
      modifies this, repr
      ensures Valid() && repr == old(repr)
      ensures nodes == Pass(old(nodes), 1, |old(nodes)| - 1, less)
      ensures runs == PassRuns(old(nodes), 1, |old(nodes)| - 1, less)
    {
      ghost var hi := End();
      runs := 0;
      var a0: ListElem := head.next;
      ghost var i := 1;
      SameIndex(nodes, 1, hi);
      while a0 != tail
        invariant Valid() && repr == old(repr) && hi == End()
        invariant 1 <= i <= hi && nodes[i] == a0 && (a0 == tail <==> i == hi)
        invariant Pass(nodes, i, hi, less) == Pass(old(nodes), 1, hi, less)
        invariant runs + PassRuns(nodes, i, hi, less) == PassRuns(old(nodes), 1, hi, less)
        decreases hi - i
      {
        runs := runs + 1;
        var b1, k, last := MergePair(a0, less, i, hi);
        if last { break; }
        a0, i := b1, k;
        SameIndex(nodes, i, hi);
      }
    }

    // A pass that keeps the list a stable rearrangement of the original.
    method SortOnce(less: Less, ghost orig: seq<ListElem>) returns (runs: nat)
      requires Valid() && StableRearrangement(orig, nodes, less) && OrderInside(less, orig)
      modifies this, repr
      ensures Valid() && repr == old(repr) && |nodes| == |old(nodes)|
      ensures StableRearrangement(orig, nodes, less)
      ensures runs > 1 ==> NaturalRuns(nodes, 1, End(), less) < NaturalRuns(old(nodes), 1, |old(nodes)| - 1, less)
      ensures runs <= 1 ==> NaturalRuns(nodes, 1, End(), less) <= 1
      ensures NaturalRuns(nodes, 1, End(), less) <= NaturalRuns(old(nodes), 1, |old(nodes)| - 1, less)
    {
      SortStep(orig, nodes, End(), less);
      runs := SortPass(less);
    }

    /** Natural merge sort: passes over the list until one outputs at most one
        run.  Each pass halves the number of natural runs. */
    method Sort(less: Less)
      requires Valid() && OrderInside(less, nodes)
      modifies this, repr
      ensures Valid() && repr == old(repr) && |nodes| == |old(nodes)|
      ensures Sorted(nodes, 1, |nodes| - 1, less)
      ensures StableRearrangement(old(nodes), nodes, less)
    {
      ghost var orig, hi := nodes, End();
      OriginalOrder(orig, less);
      var runs := 2;
      while runs > 1
        invariant Valid() && repr == old(repr) && End() == hi
        invariant StableRearrangement(orig, nodes, less)
        invariant runs <= 1 ==> NaturalRuns(nodes, 1, hi, less) <= 1
        decreases NaturalRuns(nodes, 1, hi, less), runs
      {
        runs := SortOnce(less, orig);
      }
      SortDone(orig, nodes, hi, less);
    }

    // ---------- Insertion, removal, reversal ----------

    /** Inserts `elem`, which is in no list, just before the node at b. */
    method Insert(before: ListElem, elem: ListElem, ghost b: nat)
      requires Valid() && 1 <= b <= End() && nodes[b] == before && elem !in repr
      modifies this, repr, elem
      ensures Valid() && repr == old(repr) + {elem}
      ensures nodes == Inserted(old(nodes), b, elem)
    {
      assert forall i | 0 <= i < |nodes| :: nodes[i] in repr;
      LinkIn(before, elem, nodes, b);
      nodes, repr := Inserted(nodes, b, elem), repr + {elem};
    }

    /** Removes the node at b and returns the one that followed it. */
    method Remove(elem: ListElem, ghost b: nat) returns (next: ListElem)
      requires Valid() && 1 <= b < End() && nodes[b] == elem
      modifies this, repr
      ensures Valid() && repr == old(repr) - {elem}
      ensures nodes == Removed(old(nodes), b) && next == old(nodes)[b + 1]
      ensures elem.prev == old(elem.prev) && elem.next == old(elem.next)
    {
      AllApart(nodes);
      next := Unlink(elem, nodes, b);
      nodes, repr := Removed(nodes, b), repr - {elem};
    }

    /** Reverses the interior by exchanging the two links of every node. */
    method Reverse()
      requires Valid()
      modifies this, repr
      ensures Valid() && repr == old(repr)
      ensures nodes == ReversedInside(old(nodes))
    {
      SameIndex(nodes, 1, End());
      if head.next == tail {
        assert ReversedInside(nodes) == nodes;
      } else {
        ExchangeLinks(head, tail, nodes);
        ReverseEnds(head, tail, nodes);
        BackwardsChain(nodes);
        nodes := ReversedInside(nodes);
      }
    }

    // The first node that `elem` is less than, or the tail.
    method FindPosition(elem: ListElem, less: Less) returns (e: ListElem, ghost b: nat)
      requires Valid()
      ensures 1 <= b <= End() && nodes[b] == e
      ensures b < End() ==> less(elem, e)
      ensures forall i | 1 <= i < b :: !less(elem, nodes[i])
    {
      e, b := head.next, 1;
      SameIndex(nodes, 1, End());
      while e != tail && !less(elem, e)
        invariant 1 <= b <= End() && nodes[b] == e && (e == tail <==> b == End())
        invariant forall i | 1 <= i < b :: !less(elem, nodes[i])
        decreases End() - b
      {
        e, b := e.next, b + 1;
        SameIndex(nodes, b, End());
      }
    }

    /** Inserts `elem` into a sorted list, after everything it is not less than. */
    method InsertOrdered(elem: ListElem, less: Less) returns (ghost b: nat)
      requires Valid() && elem !in repr
      requires Sorted(nodes, 1, End(), less) && StrictWeakOrder(less, Inner(nodes) + {elem})
      modifies this, repr, elem
      ensures Valid() && repr == old(repr) + {elem}
      ensures 1 <= b < |old(nodes)| && nodes == Inserted(old(nodes), b, elem)
      ensures Sorted(nodes, 1, |nodes| - 1, less)
      ensures forall i | 1 <= i < b :: !less(elem, nodes[i])
      ensures forall i | b < i < |nodes| - 1 :: less(elem, nodes[i])
    {
      var e: ListElem;
      e, b := FindPosition(elem, less);
      InsertedSorted(nodes, b, elem, less);
      LessThanRest(nodes, b, elem, less);
      Insert(e, elem, b);
    }
  }
}
