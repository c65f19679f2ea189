/**
 The block allocator (threads/malloc.c) on top of the page allocator.  Every
 call keeps `Valid`, so in every run the blocks handed out are disjoint, big
 enough and inside their arenas (Arenas.LiveBlocksDisjoint).
 */
module Malloc {
  import opened Sequences
  import opened PageAllocator
  import opened Arenas
  import opened ArenaSteps

  datatype Block = NullBlock | At(addr: int)

  /** The descriptors that initialisation sets up, by block size. */
  method InitDescs() returns (sizes: seq<int>, perArena: seq<int>)
    ensures |sizes| == |perArena| == DESCS
    ensures forall k | 0 <= k < DESCS :: sizes[k] == BlockSize(k) && perArena[k] == PerArena(k)
    ensures forall k | 0 <= k < DESCS - 1 :: sizes[k + 1] == 2 * sizes[k]
  {
    sizes, perArena := [], [];
    var blockSize := 16;
    while blockSize < PGSIZE / 2
      invariant |sizes| == |perArena| <= DESCS
      invariant blockSize == if |sizes| < DESCS then BlockSize(|sizes|) else PGSIZE / 2
      invariant forall k | 0 <= k < |sizes| :: sizes[k] == BlockSize(k) && perArena[k] == PerArena(k)
      decreases PGSIZE - blockSize
    {
      perArena := perArena + [(PGSIZE - HEADER) / blockSize];
      sizes := sizes + [blockSize];
      blockSize := blockSize * 2;
    }
  }

  /** The first descriptor whose blocks are big enough. */
  method FindDesc(size: nat) returns (k: int)
    ensures 0 <= k <= DESCS && (k < DESCS ==> size <= BlockSize(k))
    ensures forall j | 0 <= j < k :: BlockSize(j) < size
  {
    k := 0;
    while k < DESCS && BlockSize(k) < size
      invariant 0 <= k <= DESCS && forall j | 0 <= j < k :: BlockSize(j) < size
    {
      k := k + 1;
    }
  }

  /** Pages to ask for when the request needs a new arena.  The sum is taken in 32
      bits. */
  function PagesFor(size: nat): nat {
    if DescFor(size) < DESCS then 1 else (size + HEADER + PGSIZE - 1) % 0x1_0000_0000 / PGSIZE
  }

  /** The pages counted for a big request are none, or enough for it exactly if the
      request is below WRAP. */
  lemma PagesEnough(size: nat)
    requires DescFor(size) == DESCS && size < 0x1_0000_0000
    ensures PagesFor(size) == 0 || (HEADER + size <= PagesFor(size) * PGSIZE <==> size < WRAP)
    ensures PagesFor(size) > 0 ==> BigHolds(size, PagesFor(size)) && PagesFor(size) * PGSIZE < HEADER + size + PGSIZE
  {
    var sum := size + HEADER + PGSIZE - 1;
    if sum >= 0x1_0000_0000 {
      assert sum % 0x1_0000_0000 == sum - 0x1_0000_0000;
    } else {
      assert sum % 0x1_0000_0000 == sum;
    }
  }

  /** A request for all but 11 bytes of the address space is given one page. */
  lemma WrappedRequest()
    ensures PagesFor(0xffff_fff5) == 1 && HEADER + 0xffff_fff5 > PagesFor(0xffff_fff5) * PGSIZE
  {
    assert (0xffff_fff5 + HEADER + PGSIZE - 1) % 0x1_0000_0000 == 4096;
  }

  class Allocator {
    const pages: PageAllocator.Allocator
    var free: seq<seq<int>>
    var arenas: map<int, Arena>
    ghost var live: map<int, int>

    ghost function View(): Heap
      reads this
    {
      Heap(free, arenas, live)
    }

    ghost predicate Valid()
      reads this, pages, pages.kernel.used.words, pages.user.used.words
    {
      pages.Valid() && HeapOk(View()) && Backed(View(), pages.live)
    }

    constructor (p: PageAllocator.Allocator)
      requires p.Valid()
      ensures Valid() && pages == p && live == map[] && arenas == map[]
    {
      pages, free, arenas, live := p, seq(DESCS, _ => []), map[], map[];
    }

    // Appends the blocks of an arena to a free list.
    method PushBlocks(k: int, a: int)
      requires |free| == DESCS && 0 <= k < DESCS
      modifies `free
      ensures free == old(free)[k := old(free)[k] + Blocks(a, k, PerArena(k))]
    {
      var l := free[k];
      assert l == l + Blocks(a, k, 0) && free == free[k := l];
      for i := 0 to PerArena(k)
        invariant free == old(free)[k := l + Blocks(a, k, i)]
      {
        assert l + Blocks(a, k, i + 1) == l + Blocks(a, k, i) + [BlockAt(a, k, i)];
        free := free[k := free[k] + [BlockAt(a, k, i)]];
      }
    }

    // Takes the blocks of an arena off a free list.
    method RemoveBlocks(k: int, a: int)
      requires |free| == DESCS && 0 <= k < DESCS
      modifies `free
      ensures free == old(free)[k := Without(old(free)[k], BlockSet(a, k, PerArena(k)))]
    {
      var l := free[k];
      WithoutAbsent(l, {});
      assert BlockSet(a, k, 0) == {} && free == free[k := l];
      for i := 0 to PerArena(k)
        invariant free == old(free)[k := Without(l, BlockSet(a, k, i))]
      {
        WithoutTwice(l, BlockSet(a, k, i), BlockAt(a, k, i));
        assert BlockSet(a, k, i + 1) == BlockSet(a, k, i) + {BlockAt(a, k, i)};
        free := free[k := Without(free[k], {BlockAt(a, k, i)})];
      }
    }

    // Makes a page into an arena with all its blocks on the free list.
    method NewArena(k: int) returns (r: Pages)
      requires Valid() && 0 <= k < DESCS && free[k] == []
      modifies `free, `arenas, pages`live, pages.kernel.used.words, pages.user.used.words
      ensures pages.Valid() && FirstFit(old(pages.live), pages.kernel.base, pages.kernel.End(), 1, r)
      ensures r.Null? ==> View() == old(View()) && pages.live == old(pages.live)
      ensures r.Run? ==> r.page !in old(pages.live) && pages.live == old(pages.live)[r.page := 1]
      ensures r.Run? ==> View() == Carve(old(View()), k, r.page)
    {
      r := pages.GetMultiple(false, 1);
      if r.Run? {
        arenas := arenas[r.page := Small(k, PerArena(k))];
        PushBlocks(k, r.page);
      }
    }

    // Takes the first free block.
    method TakeBlock(k: int, size: nat, ghost mid: set<int>) returns (x: int)
      requires HeapMid(View(), mid) && 0 <= k < DESCS && free[k] != [] && 0 < size <= BlockSize(k)
      requires mid <= {PageOf(free[k][0])}
      modifies `free, `arenas, `live
      ensures HeapOk(View()) && x == old(free)[k][0] && x !in old(live) && live == old(live)[x := size]
      ensures arenas.Keys == old(arenas.Keys) && forall a | a in arenas :: PagesIn(arenas[a]) == PagesIn(old(arenas)[a])
    {
      TakeKeeps(View(), k, size, mid);
      ghost var _, _ := FrontBlock(View(), k, mid);
      x := free[k][0];
      free := free[k := free[k][1..]];
      var a := PageOf(x);
      arenas := arenas[a := Small(k, arenas[a].cnt - 1)];
      live := live[x := size];
    }

    // A request that no descriptor serves gets its own run of pages.
    method MallocBig(size: nat) returns (r: Block)
      requires Valid() && DescFor(size) == DESCS && size < 0x1_0000_0000
      modifies `arenas, `live, pages`live, pages.kernel.used.words, pages.user.used.words
      ensures Valid()
      ensures r.NullBlock? ==> View() == old(View()) && pages.live == old(pages.live)
      ensures r.At? ==> r.addr !in old(live) && live == old(live)[r.addr := size]
      ensures r.At? ==> pages.live == old(pages.live)[PageOf(r.addr) := PagesFor(size)]
      ensures r.NullBlock? <==> NoRoom(old(pages.live), size)
    {
      var n := (size + HEADER + PGSIZE - 1) % 0x1_0000_0000 / PGSIZE;
      PagesEnough(size);
      var run := pages.GetMultiple(false, n);
      if run.Null? { return NullBlock; }
      AddBigKeeps(View(), run.page, n, size);
      arenas := arenas[run.page := Big(n)];
      live := live[run.page * PGSIZE + HEADER := size];
      assert PageOf(run.page * PGSIZE + HEADER) == run.page;
      r := At(run.page * PGSIZE + HEADER);
    }

    // The kernel pool has no run of pages for the request, or none is counted.
    ghost predicate NoRoom(runs: Runs, size: nat) {
      PagesFor(size) == 0 || FirstFit(runs, pages.kernel.base, pages.kernel.End(), PagesFor(size), Null)
    }

    /** A block, or null exactly if none is free and the kernel pool has no room for
        a new arena, or if nothing is asked for.  The block is as big as asked for
        exactly if the request is below WRAP. */
    method Malloc(size: nat) returns (r: Block)
      requires Valid() && size < 0x1_0000_0000
      modifies this, pages`live, pages.kernel.used.words, pages.user.used.words
      ensures Valid()
      ensures r.NullBlock? ==> View() == old(View()) && pages.live == old(pages.live)
      ensures r.At? ==> r.addr !in old(live) && live == old(live)[r.addr := size]
      ensures r.At? ==> PageOf(r.addr) in arenas && (size <= Capacity(View(), r.addr) <==> size < WRAP)
      ensures r.At? && NeedsArena(old(free), size) ==> pages.live == old(pages.live)[PageOf(r.addr) := PagesFor(size)]
      ensures r.At? && !NeedsArena(old(free), size) ==> pages.live == old(pages.live)
      ensures r.NullBlock? <==> size == 0 || (NeedsArena(old(free), size) && NoRoom(old(pages.live), size))
    {
      if size == 0 { return NullBlock; }
      var k := FindDesc(size);
      assert k == DescFor(size);
      if k == DESCS { r := MallocBig(size); } else { r := MallocSmall(k, size); }
      if r.At? {
        assert LiveOk(View(), r.addr);
        BigEnough(View(), r.addr);
      }
    }

    // A block from free list k, after carving a new arena if the list is empty.
    method MallocSmall(k: int, size: nat) returns (r: Block)
      requires Valid() && 0 <= k < DESCS && k == DescFor(size) && size > 0
      modifies this, pages`live, pages.kernel.used.words, pages.user.used.words
      ensures Valid()
      ensures r.NullBlock? ==> View() == old(View()) && pages.live == old(pages.live)
      ensures r.At? ==> r.addr !in old(live) && live == old(live)[r.addr := size]
      ensures r.At? && old(free)[k] == [] ==> pages.live == old(pages.live)[PageOf(r.addr) := 1]
      ensures r.At? && old(free)[k] != [] ==> pages.live == old(pages.live)
      ensures r.NullBlock? <==> old(free)[k] == [] && NoRoom(old(pages.live), size)
    {
      ghost var mid: set<int> := {};
      if free[k] == [] {
        var run := NewArena(k);
        if run.Null? { return NullBlock; }
        mid := {run.page};
        CarveKeeps(old(View()), k, run.page);
      }
      var x := TakeBlock(k, size, mid);
      r := At(x);
    }

    // Frees the page of an arena that has no block in use.
    method ReleaseArena(a: int)
      requires pages.Valid() && Backed(View(), pages.live) && HeapMid(View(), {a})
      requires a in arenas && arenas[a].Small? && arenas[a].cnt == PerArena(arenas[a].desc)
      modifies `free, `arenas, pages`live, pages.kernel.used.words, pages.user.used.words
      ensures Valid() && pages.live == old(pages.live) - {a}
    {
      ReclaimKeeps(View(), a);
      RemoveBlocks(arenas[a].desc, a);
      arenas := arenas - {a};
      pages.FreeMultiple(a, 1);
    }

    // Puts a block back on its free list, and its page back if that was the last.
    method FreeSmall(x: int)
      requires Valid() && x in live && PageOf(x) in arenas && arenas[PageOf(x)].Small?
      modifies this, pages`live, pages.kernel.used.words, pages.user.used.words
      ensures Valid() && live == old(live) - {x}
      ensures pages.live == if LastInArena(old(live), x) then old(pages.live) - {PageOf(x)} else old(pages.live)
    {
      GiveKeeps(View(), x);
      var a := PageOf(x);
      var k := arenas[a].desc;
      free := free[k := [x] + free[k]];
      arenas := arenas[a := Small(k, arenas[a].cnt + 1)];
      live := live - {x};
      AllFree(View(), a, {a});
      if arenas[a].cnt >= PerArena(k) { ReleaseArena(a); } else { NotMidway(View(), a); }
    }

    /** Gives back a block; its arena's pages go back exactly when no other block
        of the arena is in use. */
    method Free(p: Block)
      requires Valid() && (p.At? ==> p.addr in live)
      modifies this, pages`live, pages.kernel.used.words, pages.user.used.words
      ensures Valid()
      ensures live == if p.At? then old(live) - {p.addr} else old(live)
      ensures pages.live ==
        if p.At? && LastInArena(old(live), p.addr) then old(pages.live) - {PageOf(p.addr)} else old(pages.live)
    {
      if p.NullBlock? { return; }
      var x := p.addr;
      var a := PageOf(x);
      assert LiveOk(View(), x);
      if arenas[a].Small? {
        FreeSmall(x);
      } else {
        DropBigKeeps(View(), a);
        BigAlone(View(), x);
        var n := arenas[a].cnt;
        arenas := arenas - {a};
        live := live - {x};
        pages.FreeMultiple(a, n);
      }
    }
  }

  /** No block big enough is on hand. */
  ghost predicate NeedsArena(free: seq<seq<int>>, size: nat)
    requires |free| == DESCS
  {
    DescFor(size) == DESCS || free[DescFor(size)] == []
  }

  /** No other block of x's arena is in use. */
  ghost predicate LastInArena(live: map<int, int>, x: int) {
    forall y | y in live && y != x :: PageOf(y) != PageOf(x)
  }

  lemma BigAlone(h: Heap, x: int)
    requires HeapOk(h) && x in h.live && PageOf(x) in h.arenas && h.arenas[PageOf(x)].Big?
    ensures LastInArena(h.live, x) && h.arenas[PageOf(x)].cnt > 0
  {
    assert ArenaOk(h, PageOf(x), false);
    assert LiveOk(h, x);
    forall y | y in h.live && y != x ensures PageOf(y) != PageOf(x) { assert LiveOk(h, y); }
  }
}
