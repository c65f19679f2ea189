/**
 The steps that malloc and free are made of (threads/malloc.c), as changes of
 the allocator's state, and the proof that each keeps it well-formed.
 */
module ArenaSteps {
  import opened Sequences
  import opened PageAllocator
  import opened Arenas

  // ---------- Changes confined to one arena ----------

  ghost predicate SameFree(h: Heap, g: Heap, y: int) {
    |h.free| == DESCS == |g.free| && forall k | 0 <= k < DESCS :: y in g.free[k] <==> y in h.free[k]
  }

  ghost predicate SameLive(h: Heap, g: Heap, y: int) {
    (y in g.live <==> y in h.live) && (y in h.live ==> g.live[y] == h.live[y])
  }

  ghost predicate SameArena(h: Heap, g: Heap, b: int) {
    (b in g.arenas <==> b in h.arenas) && (b in h.arenas ==> g.arenas[b] == h.arenas[b])
  }

  /** The two states differ only in arena a and its blocks. */
  ghost predicate SameOutside(h: Heap, g: Heap, a: int) {
    && |h.free| == DESCS == |g.free|
    && (forall b | b != a :: SameArena(h, g, b))
    && (forall y | PageOf(y) != a :: SameFree(h, g, y) && SameLive(h, g, y))
  }

  /** What a step has to establish about the arena it works on. */
  ghost predicate LocalOk(g: Heap, a: int, midway: bool) {
    && |g.free| == DESCS
    && (a in g.arenas ==> ArenaOk(g, a, midway))
    && (forall k | 0 <= k < DESCS :: Distinct(g.free[k]))
    && (forall k, x | 0 <= k < DESCS && x in g.free[k] && PageOf(x) == a :: EntryOk(g, k, x))
    && (forall x | x in g.live && PageOf(x) == a :: LiveOk(g, x))
  }

  lemma BlockIndex(a: int, k: int, i: int, j: int)
    ensures BlockAt(a, k, i) == BlockAt(a, k, j) <==> i == j
  {
    if i < j { BlocksApart(a, k, i, j); }
    if j < i { BlocksApart(a, k, j, i); }
  }

  lemma OtherArena(h: Heap, g: Heap, a: int, b: int, midway: bool)
    requires SameOutside(h, g, a) && b != a && b in h.arenas && ArenaOk(h, b, midway)
    ensures b in g.arenas && ArenaOk(g, b, midway)
  {
    assert SameArena(h, g, b);
    if h.arenas[b].Small? {
      var k := h.arenas[b].desc;
      forall i | 0 <= i < PerArena(k)
        ensures BlockAt(b, k, i) in g.free[k] <==> BlockAt(b, k, i) in h.free[k]
        ensures FreeXorLive(g, b, k, i)
      {
        BlockInPage(b, k, i);
        assert SameFree(h, g, BlockAt(b, k, i)) && SameLive(h, g, BlockAt(b, k, i));
        assert FreeXorLive(h, b, k, i);
      }
      assert FreeIn(g, b) == FreeIn(h, b);
    } else {
      assert SameLive(h, g, b * PGSIZE + HEADER);
    }
  }

  /** A step that is right about its own arena keeps the whole state right. */
  lemma StepKeeps(h: Heap, g: Heap, a: int, mid: set<int>, mid': set<int>)
    requires HeapMid(h, mid) && SameOutside(h, g, a) && mid <= {a} && mid' <= {a} && LocalOk(g, a, a in mid')
    ensures HeapMid(g, mid')
  {
    forall b | b in g.arenas ensures ArenaOk(g, b, b in mid') {
      if b != a {
        assert SameArena(h, g, b);
        OtherArena(h, g, a, b, b in mid);
      }
    }
    forall k | 0 <= k < DESCS ensures ListOk(g, k) {
      forall x | x in g.free[k] ensures EntryOk(g, k, x) {
        if PageOf(x) != a {
          assert SameFree(h, g, x) && ListOk(h, k) && EntryOk(h, k, x) && SameArena(h, g, PageOf(x));
        }
      }
    }
    forall x | x in g.live ensures LiveOk(g, x) {
      if PageOf(x) != a {
        assert SameLive(h, g, x) && LiveOk(h, x) && SameArena(h, g, PageOf(x));
      }
    }
  }

  /** A set of indices below n that has n elements has all of them. */
  lemma {:induction false} CountBound(s: set<int>, n: nat)
    requires forall i | i in s :: 0 <= i < n
    ensures |s| <= n && (|s| == n <==> forall i | 0 <= i < n :: i in s)
    decreases n
  {
    if n == 0 {
      assert forall i :: i !in s;
      assert |s| == 0;
    } else {
      var t := s - {n - 1};
      CountBound(t, n - 1);
      if n - 1 in s { assert s == t + {n - 1}; } else { assert s == t; }
    }
  }

  // ---------- Taking a block ----------

  /** Hand out the block at the front of free list k. */
  ghost function Take(h: Heap, k: int, size: int): Heap
    requires |h.free| == DESCS && 0 <= k < DESCS && h.free[k] != []
    requires PageOf(h.free[k][0]) in h.arenas && h.arenas[PageOf(h.free[k][0])].cnt > 0
  {
    var x := h.free[k][0];
    var a := PageOf(x);
    Heap(h.free[k := h.free[k][1..]], h.arenas[a := Small(k, h.arenas[a].cnt - 1)], h.live[x := size])
  }

  // The front block's arena and index.
  lemma FrontBlock(h: Heap, k: int, mid: set<int>) returns (a: int, i: int)
    requires HeapMid(h, mid) && 0 <= k < DESCS && h.free[k] != []
    ensures a == PageOf(h.free[k][0]) && a in h.arenas && h.arenas[a].Small? && h.arenas[a].desc == k
    ensures 0 <= i < PerArena(k) && h.free[k][0] == BlockAt(a, k, i) && i in FreeIn(h, a)
    ensures 0 < h.arenas[a].cnt <= PerArena(k) && h.free[k][0] !in h.live
  {
    var x := h.free[k][0];
    assert x in h.free[k] && ListOk(h, k) && EntryOk(h, k, x);
    a := PageOf(x);
    i :| 0 <= i < PerArena(k) && x == BlockAt(a, k, i);
    assert ArenaOk(h, a, a in mid) && FreeXorLive(h, a, k, i);
    CountBound(FreeIn(h, a), PerArena(k));
  }

  lemma TakeLocal(h: Heap, k: int, size: int, a: int, i: int, mid: set<int>)
    requires HeapMid(h, mid) && 0 <= k < DESCS && h.free[k] != [] && 0 < size <= BlockSize(k)
    requires a == PageOf(h.free[k][0]) && a in h.arenas && h.arenas[a].Small? && h.arenas[a].desc == k
    requires 0 <= i < PerArena(k) && h.free[k][0] == BlockAt(a, k, i) && i in FreeIn(h, a)
    requires 0 < h.arenas[a].cnt <= PerArena(k)
    ensures LocalOk(Take(h, k, size), a, false)
  {
    var g, x := Take(h, k, size), h.free[k][0];
    assert ListOk(h, k) && ArenaOk(h, a, a in mid);
    DistinctTail(h.free[k]);
    forall j | 0 <= j < PerArena(k) ensures FreeXorLive(g, a, k, j) {
      BlockIndex(a, k, i, j);
      assert FreeXorLive(h, a, k, j);
    }
    assert FreeIn(g, a) == FreeIn(h, a) - {i} by {
      forall j ensures BlockAt(a, k, j) == x <==> j == i { BlockIndex(a, k, i, j); }
    }
    forall l | 0 <= l < DESCS ensures Distinct(g.free[l]) { assert ListOk(h, l); }
    forall l, y | 0 <= l < DESCS && y in g.free[l] && PageOf(y) == a ensures EntryOk(g, l, y) {
      assert ListOk(h, l) && EntryOk(h, l, y);
    }
    forall y | y in g.live && PageOf(y) == a ensures LiveOk(g, y) {
      if y != x { assert LiveOk(h, y); }
    }
  }

  /** Taking a block keeps the state right, and uses up the midway allowance. */
  lemma TakeKeeps(h: Heap, k: int, size: int, mid: set<int>)
    requires HeapMid(h, mid) && 0 <= k < DESCS && h.free[k] != [] && 0 < size <= BlockSize(k)
    requires mid <= {PageOf(h.free[k][0])}
    ensures PageOf(h.free[k][0]) in h.arenas && h.arenas[PageOf(h.free[k][0])].cnt > 0
    ensures h.free[k][0] !in h.live && HeapOk(Take(h, k, size))
  {
    var a, i := FrontBlock(h, k, mid);
    TakeLocal(h, k, size, a, i, mid);
    StepKeeps(h, Take(h, k, size), a, mid, {});
  }

  // ---------- Carving a new arena ----------

  /** The blocks of an arena, first to last. */
  function Blocks(a: int, k: int, n: nat): (s: seq<int>)
    ensures |s| == n
  {
    seq(n, i => BlockAt(a, k, i))
  }

  /** Turn a fresh page into an arena and put its blocks on the free list. */
  ghost function Carve(h: Heap, k: int, a: int): Heap
    requires |h.free| == DESCS && 0 <= k < DESCS
  {
    Heap(h.free[k := h.free[k] + Blocks(a, k, PerArena(k))], h.arenas[a := Small(k, PerArena(k))], h.live)
  }

  lemma BlocksDistinct(a: int, k: int, n: nat)
    ensures Distinct(Blocks(a, k, n))
  {
    var s := Blocks(a, k, n);
    forall i, j | 0 <= i < j < |s| ensures Sequences.Apart(s, i, j) {
      BlockIndex(a, k, i, j);
    }
  }

  // Nothing lies in a page that is no arena.
  lemma NothingThere(h: Heap, a: int, mid: set<int>)
    requires HeapMid(h, mid) && a !in h.arenas
    ensures forall k, x | 0 <= k < DESCS && x in h.free[k] :: PageOf(x) != a
    ensures forall x | x in h.live :: PageOf(x) != a
  {
    forall k, x | 0 <= k < DESCS && x in h.free[k] ensures PageOf(x) != a {
      assert ListOk(h, k) && EntryOk(h, k, x);
    }
    forall x | x in h.live ensures PageOf(x) != a {
      assert LiveOk(h, x);
    }
  }

  /** Carving keeps the state right, with the new arena still all free. */
  lemma CarveKeeps(h: Heap, k: int, a: int)
    requires HeapOk(h) && 0 <= k < DESCS && a !in h.arenas && h.free[k] == []
    ensures HeapMid(Carve(h, k, a), {a})
    ensures Carve(h, k, a).free[k] != [] && PageOf(Carve(h, k, a).free[k][0]) == a
  {
    var g, bs := Carve(h, k, a), Blocks(a, k, PerArena(k));
    NothingThere(h, a, {});
    BlocksDistinct(a, k, PerArena(k));
    assert g.free[k] == bs;
    forall i | 0 <= i < PerArena(k)
      ensures bs[i] in g.free[k] && PageOf(bs[i]) == a && EntryOk(g, k, bs[i]) && FreeXorLive(g, a, k, i)
    {
      BlockInPage(a, k, i);
    }
    assert forall i | 0 <= i < PerArena(k) :: i in FreeIn(g, a) by {
      assert forall i | 0 <= i < PerArena(k) :: bs[i] == BlockAt(a, k, i);
    }
    CountBound(FreeIn(g, a), PerArena(k));
    forall l | 0 <= l < DESCS ensures Distinct(g.free[l]) { assert ListOk(h, l); }
    StepKeeps(h, g, a, {}, {a});
  }

  // ---------- Giving a block back ----------

  /** Put block x at the front of its free list. */
  ghost function Give(h: Heap, x: int): Heap
    requires |h.free| == DESCS && PageOf(x) in h.arenas && h.arenas[PageOf(x)].Small?
    requires 0 <= h.arenas[PageOf(x)].desc < DESCS
  {
    var a := PageOf(x);
    var k := h.arenas[a].desc;
    Heap(h.free[k := [x] + h.free[k]], h.arenas[a := Small(k, h.arenas[a].cnt + 1)], h.live - {x})
  }

  // Only x joins a free list, and only list k of its arena.
  lemma GiveFree(h: Heap, x: int, l: int, y: int)
    requires |h.free| == DESCS && PageOf(x) in h.arenas && h.arenas[PageOf(x)].Small?
    requires 0 <= h.arenas[PageOf(x)].desc < DESCS && 0 <= l < DESCS
    ensures y in Give(h, x).free[l] <==> y in h.free[l] || (y == x && l == h.arenas[PageOf(x)].desc)
  {
  }

  lemma GiveLocal(h: Heap, x: int, a: int, k: int, i: int)
    requires HeapOk(h) && x in h.live && a == PageOf(x) && a in h.arenas && h.arenas[a].Small? && h.arenas[a].desc == k
    requires 0 <= k < DESCS && 0 <= i < PerArena(k) && x == BlockAt(a, k, i) && x !in h.free[k]
    ensures LocalOk(Give(h, x), a, true)
  {
    var g := Give(h, x);
    assert ArenaOk(h, a, false);
    forall j | 0 <= j < PerArena(k)
      ensures BlockAt(a, k, j) in g.free[k] <==> BlockAt(a, k, j) in h.free[k] || j == i
      ensures FreeXorLive(g, a, k, j)
    {
      BlockIndex(a, k, i, j);
      GiveFree(h, x, k, BlockAt(a, k, j));
      assert FreeXorLive(h, a, k, j);
    }
    assert FreeIn(g, a) == FreeIn(h, a) + {i} && i !in FreeIn(h, a);
    forall l | 0 <= l < DESCS ensures Distinct(g.free[l]) {
      assert ListOk(h, l);
      if l == k { DistinctPrepend(h.free[k], x); }
    }
    forall l, y | 0 <= l < DESCS && y in g.free[l] && PageOf(y) == a ensures EntryOk(g, l, y) {
      GiveFree(h, x, l, y);
      assert ListOk(h, l) && (y in h.free[l] ==> EntryOk(h, l, y));
    }
    forall y | y in g.live && PageOf(y) == a ensures LiveOk(g, y) { assert LiveOk(h, y); }
  }

  /** Giving a block back keeps the state right, except that its arena may now be
      all free. */
  lemma GiveKeeps(h: Heap, x: int)
    requires HeapOk(h) && x in h.live && PageOf(x) in h.arenas && h.arenas[PageOf(x)].Small?
    ensures 0 <= h.arenas[PageOf(x)].desc < DESCS
    ensures HeapMid(Give(h, x), {PageOf(x)})
  {
    var a := PageOf(x);
    var k := h.arenas[a].desc;
    assert ArenaOk(h, a, false) && LiveOk(h, x);
    var i :| 0 <= i < PerArena(k) && x == BlockAt(a, k, i);
    assert FreeXorLive(h, a, k, i);
    GiveLocal(h, x, a, k, i);
    var g := Give(h, x);
    forall y | PageOf(y) != a ensures SameFree(h, g, y) && SameLive(h, g, y) {
      forall l | 0 <= l < DESCS ensures y in g.free[l] <==> y in h.free[l] { GiveFree(h, x, l, y); }
    }
    StepKeeps(h, g, a, {}, {a});
  }

  // ---------- Reclaiming an unused arena ----------

  function BlockSet(a: int, k: int, n: nat): set<int> {
    set i | 0 <= i < n :: BlockAt(a, k, i)
  }

  /** Take all blocks of arena a off the free list and forget the arena. */
  ghost function Reclaim(h: Heap, a: int): Heap
    requires |h.free| == DESCS && a in h.arenas && h.arenas[a].Small? && 0 <= h.arenas[a].desc < DESCS
  {
    var k := h.arenas[a].desc;
    Heap(h.free[k := Without(h.free[k], BlockSet(a, k, PerArena(k)))], h.arenas - {a}, h.live)
  }

  /** An arena counts all its blocks as free exactly if none is handed out. */
  lemma AllFree(h: Heap, a: int, mid: set<int>)
    requires HeapMid(h, mid) && a in h.arenas && h.arenas[a].Small?
    ensures h.arenas[a].cnt <= PerArena(h.arenas[a].desc)
    ensures h.arenas[a].cnt == PerArena(h.arenas[a].desc) <==> forall x | x in h.live :: PageOf(x) != a
  {
    var k := h.arenas[a].desc;
    assert ArenaOk(h, a, a in mid);
    CountBound(FreeIn(h, a), PerArena(k));
    forall x | x in h.live && PageOf(x) == a ensures h.arenas[a].cnt < PerArena(k) {
      assert LiveOk(h, x);
      var i :| 0 <= i < PerArena(k) && x == BlockAt(a, k, i);
      assert FreeXorLive(h, a, k, i) && i !in FreeIn(h, a);
    }
    forall i | 0 <= i < PerArena(k) && i !in FreeIn(h, a)
      ensures BlockAt(a, k, i) in h.live && PageOf(BlockAt(a, k, i)) == a
    {
      assert FreeXorLive(h, a, k, i);
      BlockInPage(a, k, i);
    }
  }

  // An arena with a block in use needs no allowance.
  lemma NotMidway(h: Heap, a: int)
    requires HeapMid(h, {a}) && a in h.arenas && h.arenas[a].Small? && h.arenas[a].cnt < PerArena(h.arenas[a].desc)
    ensures HeapOk(h)
  {
    forall b | b in h.arenas ensures ArenaOk(h, b, false) { assert ArenaOk(h, b, b in {a}); }
  }

  lemma ReclaimKeeps(h: Heap, a: int)
    requires HeapMid(h, {a}) && a in h.arenas && h.arenas[a].Small? && h.arenas[a].cnt == PerArena(h.arenas[a].desc)
    ensures 0 <= h.arenas[a].desc < DESCS && HeapOk(Reclaim(h, a))
  {
    assert ArenaOk(h, a, true);
    var g, k := Reclaim(h, a), h.arenas[a].desc;
    AllFree(h, a, {a});
    forall l | 0 <= l < DESCS ensures Distinct(g.free[l]) {
      assert ListOk(h, l);
      WithoutDistinct(h.free[l], BlockSet(a, k, PerArena(k)));
    }
    forall l, y | 0 <= l < DESCS && y in g.free[l] ensures PageOf(y) != a {
      assert ListOk(h, l) && EntryOk(h, l, y);
    }
    forall y | PageOf(y) != a ensures y !in BlockSet(a, k, PerArena(k)) {
      forall i | 0 <= i < PerArena(k) ensures BlockAt(a, k, i) != y { BlockInPage(a, k, i); }
    }
    StepKeeps(h, g, a, {a}, {});
  }

  // ---------- Big blocks ----------

  ghost function AddBig(h: Heap, a: int, n: nat, size: int): Heap {
    h.(arenas := h.arenas[a := Big(n)], live := h.live[a * PGSIZE + HEADER := size])
  }

  lemma AddBigKeeps(h: Heap, a: int, n: nat, size: int)
    requires HeapOk(h) && a !in h.arenas && n > 0 && BigHolds(size, n)
    ensures HeapOk(AddBig(h, a, n, size)) && a * PGSIZE + HEADER !in h.live
  {
    NothingThere(h, a, {});
    var g := AddBig(h, a, n, size);
    assert PageOf(a * PGSIZE + HEADER) == a;
    forall l | 0 <= l < DESCS ensures Distinct(g.free[l]) { assert ListOk(h, l); }
    StepKeeps(h, g, a, {}, {});
  }

  ghost function DropBig(h: Heap, a: int): Heap {
    h.(arenas := h.arenas - {a}, live := h.live - {a * PGSIZE + HEADER})
  }

  lemma DropBigKeeps(h: Heap, a: int)
    requires HeapOk(h) && a in h.arenas && h.arenas[a].Big?
    ensures HeapOk(DropBig(h, a))
  {
    var g := DropBig(h, a);
    assert PageOf(a * PGSIZE + HEADER) == a;
    forall l | 0 <= l < DESCS ensures Distinct(g.free[l]) { assert ListOk(h, l); }
    forall l, y | 0 <= l < DESCS && y in g.free[l] ensures PageOf(y) != a {
      assert ListOk(h, l) && EntryOk(h, l, y);
    }
    forall y | y in g.live ensures PageOf(y) != a { assert LiveOk(h, y); }
    StepKeeps(h, g, a, {}, {});
  }

  // ---------- Nothing leaks ----------

  /** Each arena has a block in use: once every block has been freed, no arena is
      left and every free list is empty. */
  lemma ArenaInUse(h: Heap, a: int)
    requires HeapOk(h) && a in h.arenas
    ensures exists x :: x in h.live && PageOf(x) == a
  {
    assert ArenaOk(h, a, false);
    if h.arenas[a].Small? {
      AllFree(h, a, {});
    } else {
      assert PageOf(a * PGSIZE + HEADER) == a;
    }
  }

  lemma NothingLeaks(h: Heap)
    requires HeapOk(h) && h.live == map[]
    ensures h.arenas == map[] && forall k | 0 <= k < DESCS :: h.free[k] == []
  {
    forall a ensures a !in h.arenas {
      if a in h.arenas { ArenaInUse(h, a); }
    }
    forall k | 0 <= k < DESCS ensures h.free[k] == [] {
      assert ListOk(h, k);
      assert h.free[k] != [] ==> EntryOk(h, k, h.free[k][0]);
    }
  }
}
