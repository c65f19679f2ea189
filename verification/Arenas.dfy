/**
 Where the blocks of malloc's arenas lie, and what the allocator keeps between
 calls (threads/malloc.c).  An arena is a page with a 12-byte header followed by
 equal blocks; a big block is a run of pages with the same header.  Addresses
 are byte addresses, pages are page numbers.
 */
module Arenas {
  import opened Sequences
  import opened Arithmetic
  import opened PageAllocator

  const HEADER: int := 12
  const DESCS: int := 7

  /** From this request on the 32-bit page count wraps round to one page. */
  const WRAP: int := 0xffff_fff5

  /** Block sizes are the powers of two from 16 to below half a page. */
  function BlockSize(k: int): (s: int)
    ensures s >= 16
  {
    if k <= 0 then 16 else if k == 1 then 32 else if k == 2 then 64 else if k == 3 then 128
    else if k == 4 then 256 else if k == 5 then 512 else 1024
  }

  function PerArena(k: int): (n: int)
    ensures n >= 3
  {
    (PGSIZE - HEADER) / BlockSize(k)
  }

  /** The smallest descriptor that satisfies the request, or DESCS. */
  function DescFor(size: int): (k: int)
    ensures 0 <= k <= DESCS
    ensures k < DESCS ==> size <= BlockSize(k) && (k > 0 ==> BlockSize(k - 1) < size)
    ensures k == DESCS ==> size > 1024
  {
    if size <= 16 then 0 else if size <= 32 then 1 else if size <= 64 then 2 else if size <= 128 then 3
    else if size <= 256 then 4 else if size <= 512 then 5 else if size <= 1024 then 6 else 7
  }

  function BlockAt(a: int, k: int, i: int): int {
    a * PGSIZE + HEADER + i * BlockSize(k)
  }

  function PageOf(x: int): int {
    x / PGSIZE
  }

  lemma Multiples(i: int, j: int, s: int)
    requires i < j && s > 0
    ensures i * s + s <= j * s
  {
    MulMono(i + 1, j, s);
    assert (i + 1) * s == i * s + s;
  }

  /** A block lies inside its arena's page, after the header. */
  lemma BlockInPage(a: int, k: int, i: int)
    requires 0 <= i < PerArena(k)
    ensures a * PGSIZE + HEADER <= BlockAt(a, k, i)
    ensures BlockAt(a, k, i) + BlockSize(k) <= (a + 1) * PGSIZE
    ensures PageOf(BlockAt(a, k, i)) == a
  {
    var s, n := BlockSize(k), PerArena(k);
    assert n * s <= PGSIZE - HEADER;
    if i + 1 < n { Multiples(i + 1, n, s); }
    assert i * s + s == (i + 1) * s;
    assert 0 <= i * s;
  }

  lemma BlocksApart(a: int, k: int, i: int, j: int)
    requires i < j
    ensures BlockAt(a, k, i) + BlockSize(k) <= BlockAt(a, k, j)
  {
    Multiples(i, j, BlockSize(k));
  }

  // ---------- The allocator's state ----------

  /** `cnt` is the number of free blocks, or of pages in a big block. */
  datatype Arena = Small(desc: int, cnt: nat) | Big(cnt: nat)

  /** Free lists by descriptor, arena headers by page, and the blocks handed out
      with the sizes asked for. */
  datatype Heap = Heap(free: seq<seq<int>>, arenas: map<int, Arena>, live: map<int, int>)

  ghost predicate IsBlock(x: int, a: int, k: int) {
    exists i :: 0 <= i < PerArena(k) && x == BlockAt(a, k, i)
  }

  // The indices of the free blocks of small arena a.
  ghost function FreeIn(h: Heap, a: int): set<int>
    requires |h.free| == DESCS && a in h.arenas && h.arenas[a].Small? && 0 <= h.arenas[a].desc < DESCS
  {
    var k := h.arenas[a].desc;
    set i | 0 <= i < PerArena(k) && BlockAt(a, k, i) in h.free[k]
  }

  // Block i of arena a is free or handed out, and not both.
  ghost predicate FreeXorLive(h: Heap, a: int, k: int, i: int)
    requires |h.free| == DESCS && 0 <= k < DESCS
  {
    BlockAt(a, k, i) in h.free[k] <==> BlockAt(a, k, i) !in h.live
  }

  /** The header of an arena tells the truth, and a small arena has a block in
      use, except that in the middle of a call one arena may have none. */
  ghost predicate ArenaOk(h: Heap, a: int, midway: bool)
    requires |h.free| == DESCS && a in h.arenas
  {
    match h.arenas[a]
    case Small(k, cnt) =>
      && 0 <= k < DESCS && cnt == |FreeIn(h, a)| && (cnt < PerArena(k) || midway)
      && forall i | 0 <= i < PerArena(k) :: FreeXorLive(h, a, k, i)
    case Big(cnt) => cnt > 0 && a * PGSIZE + HEADER in h.live
  }

  /** A free list holds blocks of arenas of its descriptor, each once. */
  ghost predicate ListOk(h: Heap, k: int)
    requires |h.free| == DESCS && 0 <= k < DESCS
  {
    Distinct(h.free[k]) && forall x | x in h.free[k] :: EntryOk(h, k, x)
  }

  ghost predicate EntryOk(h: Heap, k: int, x: int) {
    PageOf(x) in h.arenas && h.arenas[PageOf(x)].Small? && h.arenas[PageOf(x)].desc == k && IsBlock(x, PageOf(x), k)
  }

  /** The pages of a big block hold the request, unless the count has wrapped. */
  ghost predicate BigHolds(size: int, cnt: int) {
    0 < size < 0x1_0000_0000 && if size < WRAP then HEADER + size <= cnt * PGSIZE else cnt == 1
  }

  /** A block handed out is inside its arena, and big enough unless the page count
      wrapped. */
  ghost predicate LiveOk(h: Heap, x: int)
    requires x in h.live
  {
    && h.live[x] > 0 && PageOf(x) in h.arenas
    && match h.arenas[PageOf(x)]
       case Small(k, _) => IsBlock(x, PageOf(x), k) && h.live[x] <= BlockSize(k)
       case Big(cnt) => x == PageOf(x) * PGSIZE + HEADER && BigHolds(h.live[x], cnt)
  }

  function PagesIn(ar: Arena): int {
    if ar.Small? then 1 else ar.cnt
  }

  /** All of the above; `mid` is the arena a call is working on, if any. */
  ghost predicate HeapMid(h: Heap, mid: set<int>) {
    && |h.free| == DESCS
    && (forall a | a in h.arenas :: ArenaOk(h, a, a in mid))
    && (forall k | 0 <= k < DESCS :: ListOk(h, k))
    && (forall x | x in h.live :: LiveOk(h, x))
  }

  /** What holds between calls. */
  ghost predicate HeapOk(h: Heap) {
    HeapMid(h, {})
  }

  /** Every arena is a run that the page allocator has handed out. */
  ghost predicate Backed(h: Heap, runs: Runs) {
    forall a | a in h.arenas :: a in runs && runs[a] == PagesIn(h.arenas[a])
  }

  /** Bytes that block x may use. */
  ghost function Capacity(h: Heap, x: int): int
    requires PageOf(x) in h.arenas
  {
    match h.arenas[PageOf(x)]
    case Small(k, _) => BlockSize(k)
    case Big(cnt) => cnt * PGSIZE - HEADER
  }

  /** A block is as big as asked for exactly if the request is below WRAP. */
  lemma BigEnough(h: Heap, x: int)
    requires x in h.live && LiveOk(h, x)
    ensures PageOf(x) in h.arenas && (h.live[x] <= Capacity(h, x) <==> h.live[x] < WRAP)
  {
  }

  /** Any two blocks handed out occupy disjoint bytes. */
  lemma LiveBlocksDisjoint(h: Heap, runs: Runs, x: int, y: int)
    requires HeapOk(h) && Backed(h, runs) && Disjoint(runs) && x in h.live && y in h.live && x != y
    ensures PageOf(x) in h.arenas && PageOf(y) in h.arenas
    ensures h.live[x] <= Capacity(h, x) <==> h.live[x] < WRAP
    ensures x + Capacity(h, x) <= y || y + Capacity(h, y) <= x
  {
    assert LiveOk(h, x) && LiveOk(h, y);
    var a, b := PageOf(x), PageOf(y);
    BigEnough(h, x);
    BlockExtent(h, x);
    BlockExtent(h, y);
    if a == b {
      assert h.arenas[a].Small?;
      var k := h.arenas[a].desc;
      var i :| 0 <= i < PerArena(k) && x == BlockAt(a, k, i);
      var j :| 0 <= j < PerArena(k) && y == BlockAt(a, k, j);
      if i < j { BlocksApart(a, k, i, j); } else { BlocksApart(a, k, j, i); }
    } else {
      assert PageAllocator.Apart(runs, a, b);
    }
  }

  // A live block lies within the pages of its arena, past the header.
  lemma BlockExtent(h: Heap, x: int)
    requires x in h.live && LiveOk(h, x)
    ensures var a := PageOf(x);
      a * PGSIZE + HEADER <= x && x + Capacity(h, x) <= (a + PagesIn(h.arenas[a])) * PGSIZE
  {
    var a := PageOf(x);
    if h.arenas[a].Small? {
      var i :| 0 <= i < PerArena(h.arenas[a].desc) && x == BlockAt(a, h.arenas[a].desc, i);
      BlockInPage(a, h.arenas[a].desc, i);
    }
  }
}
