/**
 The two-pool page allocator (threads/old_palloc.c).  Addresses are page
 numbers.  `live` is the set of runs handed out and not yet given back.
 */
module PageAllocator {
  import opened Bitmap

  const PGSIZE: int := 4096

  datatype Pages = Null | Run(page: int)

  // ---------- Runs of pages ----------

  type Runs = map<int, int>

  ghost predicate Covers(live: Runs, p: int, x: int) {
    p in live && p <= x < p + live[p]
  }

  ghost predicate Covered(live: Runs, x: int) {
    exists p :: Covers(live, p, x)
  }

  ghost predicate Apart(live: Runs, p: int, q: int)
    requires p in live && q in live
  {
    p + live[p] <= q || q + live[q] <= p
  }

  /** No page is in two runs. */
  ghost predicate Disjoint(live: Runs) {
    && (forall p | p in live :: live[p] > 0)
    && (forall p, q | p in live && q in live && p != q :: Apart(live, p, q))
  }

  lemma AddRun(live: Runs, after: Runs, p: int, n: int)
    requires Disjoint(live) && n > 0 && forall x | p <= x < p + n :: !Covered(live, x)
    requires after == live[p := n]
    ensures p !in live && Disjoint(after)
    ensures forall x :: Covered(after, x) == if p <= x < p + n then true else Covered(live, x)
  {
    assert p in live ==> Covers(live, p, p);
    assert !Covered(live, p);
    forall q | q in live ensures p + n <= q || q + live[q] <= p {
      if q <= p { assert !Covers(live, q, p); } else { assert Covers(live, q, q); assert Covered(live, q); }
    }
    forall x ensures Covered(after, x) <==> Covered(live, x) || p <= x < p + n {
      if p <= x < p + n { assert Covers(after, p, x); }
      forall q | q != p ensures Covers(after, q, x) <==> Covers(live, q, x) {}
    }
  }

  lemma DropRun(live: Runs, after: Runs, p: int)
    requires Disjoint(live) && p in live && after == live - {p}
    ensures Disjoint(after)
    ensures forall x :: Covered(after, x) == if p <= x < p + live[p] then false else Covered(live, x)
  {
    forall x ensures Covered(after, x) <==> Covered(live, x) && !(p <= x < p + live[p]) {
      forall q | q != p ensures Covers(after, q, x) <==> Covers(live, q, x) {}
      if p <= x < p + live[p] {
        forall q | q in after ensures !Covers(after, q, x) { assert Apart(live, p, q); }
      }
    }
  }

  // ---------- Bits and runs ----------

  /** A bit is set exactly when some live run covers its page. */
  ghost predicate MarksSeq(b: seq<bool>, base: int, live: Runs) {
    forall k | 0 <= k < |b| :: b[k] <==> Covered(live, base + k)
  }

  // Some page of the cnt pages from p on is taken.
  ghost predicate Blocked(live: Runs, p: int, cnt: int) {
    exists x :: p <= x < p + cnt && Covered(live, x)
  }

  lemma NothingMarked(b: seq<bool>, base: int)
    requires b == seq(|b|, _ => false)
    ensures MarksSeq(b, base, map[])
  {
  }

  /** r is the lowest run of cnt free pages in [lo, hi), or null if there is none. */
  ghost predicate FirstFit(live: Runs, lo: int, hi: int, cnt: int, r: Pages) {
    match r
    case Null => forall p | lo <= p && p + cnt <= hi :: Blocked(live, p, cnt)
    case Run(q) => lo <= q && q + cnt <= hi && !Blocked(live, q, cnt) && forall p | lo <= p < q :: Blocked(live, p, cnt)
  }

  // A group of clear bits is a run of free pages.
  lemma GroupFree(b: seq<bool>, base: int, live: Runs, i: int, cnt: int)
    requires MarksSeq(b, base, live) && 0 <= i && i + cnt <= |b|
    ensures Group(b, i, cnt, false) <==> !Blocked(live, base + i, cnt)
  {
    if Group(b, i, cnt, false) {
      forall x | base + i <= x < base + i + cnt ensures !Covered(live, x) {
        assert b[x - base] == false && base + (x - base) == x;
      }
    } else {
      var k :| i <= k < i + cnt && 0 <= k < |b| && b[k] != false;
      assert Covered(live, base + k);
    }
  }

  /** Scanning the bitmap for clear bits finds the first fit. */
  lemma ScanFits(b: seq<bool>, base: int, live: Runs, cnt: int, f: Found)
    requires MarksSeq(b, base, live) && cnt > 0 && FirstGroup(b, 0, cnt, false, f)
    ensures FirstFit(live, base, base + |b|, cnt, if f.At? then Run(base + f.idx) else Null)
  {
    forall p | base <= p && p + cnt <= base + |b|
      ensures Group(b, p - base, cnt, false) <==> !Blocked(live, p, cnt)
    {
      GroupFree(b, base, live, p - base, cnt);
    }
  }

  // Marks stay right for a pool that holds all, or nothing, of the run.
  lemma MarksAfter(b: seq<bool>, base: int, live: Runs, live': Runs, p: int, n: int, v: bool)
    requires MarksSeq(b, base, live)
    requires forall x :: Covered(live', x) == if p <= x < p + n then v else Covered(live, x)
    ensures MarksSeq(SetRange(b, p - base, n, v), base, live')
    ensures p + n <= base || base + |b| <= p ==> MarksSeq(b, base, live')
  {
  }

  // ---------- Pools ----------

  /** Bytes needed for a bitmap of this many bits with its header. */
  function BitmapBufSize(bits: nat): nat {
    8 + 4 * ElemCnt(bits)
  }

  class Pool {
    const base: int
    const used: Bits

    ghost predicate Valid() {
      used.Valid()
    }

    ghost function End(): int {
      base + used.bitCnt
    }

    /** The bitmap goes into the first pages of the memory it manages. */
    constructor (start: int, pageCnt: nat)
      requires (BitmapBufSize(pageCnt) + PGSIZE - 1) / PGSIZE <= pageCnt
      ensures Valid() && fresh(used) && fresh(used.words)
      ensures start <= base && End() == start + pageCnt && used.View() == seq(used.bitCnt, _ => false)
    {
      var bmPages := (BitmapBufSize(pageCnt) + PGSIZE - 1) / PGSIZE;
      base := start + bmPages;
      used := new Bits(pageCnt - bmPages);
    }

    predicate Owns(page: int) {
      base <= page < base + used.bitCnt
    }

    ghost predicate Marks(live: Runs)
      reads used.words
      requires Valid()
    {
      MarksSeq(used.View(), base, live)
    }
  }

  class Allocator {
    const kernel: Pool
    const user: Pool
    ghost var live: Runs

    ghost predicate Inside(p: int, n: int) {
      (kernel.base <= p && p + n <= kernel.End()) || (user.base <= p && p + n <= user.End())
    }

    /** Live runs are disjoint and each inside one pool, the pools do not overlap,
        and the bitmaps mark exactly the live pages. */
    ghost predicate Valid()
      reads this, kernel.used.words, user.used.words
    {
      && kernel.Valid() && user.Valid() && kernel.used.words != user.used.words
      && kernel.End() <= user.base
      && Disjoint(live) && (forall p | p in live :: Inside(p, live[p]))
      && kernel.Marks(live) && user.Marks(live)
    }

    constructor (firstPage: int, freePages: nat, userLimit: nat)
      requires var up := if freePages / 2 > userLimit then userLimit else freePages / 2;
        && (BitmapBufSize(up) + PGSIZE - 1) / PGSIZE <= up
        && (BitmapBufSize(freePages - up) + PGSIZE - 1) / PGSIZE <= freePages - up
      ensures Valid() && live == map[]
      ensures firstPage <= kernel.base && user.End() == firstPage + freePages
    {
      var userPages := if freePages / 2 > userLimit then userLimit else freePages / 2;
      var kernelPages := freePages - userPages;
      kernel := new Pool(firstPage, kernelPages);
      user := new Pool(firstPage + kernelPages, userPages);
      live := map[];
      new;
      NothingMarked(kernel.used.View(), kernel.base);
      NothingMarked(user.used.View(), user.base);
    }

    // Marks the first free group of the pool and records the run.
    method GetFrom(pool: Pool, ghost other: Pool, cnt: nat) returns (r: Pages)
      requires Valid() && cnt > 0 && {pool, other} == {kernel, user} && pool != other
      modifies `live, pool.used.words
      ensures Valid()
      ensures r.Null? ==> live == old(live)
      ensures FirstFit(old(live), pool.base, pool.End(), cnt, r)
      ensures r.Run? ==> r.page !in old(live) && live == old(live)[r.page := cnt]
    {
      ghost var b := pool.used.View();
      var f := pool.used.ScanAndFlip(0, cnt, false);
      ScanFits(b, pool.base, live, cnt, f);
      if f.At? {
        r := Run(pool.base + f.idx);
        ghost var after := live[r.page := cnt];
        AddRun(live, after, r.page, cnt);
        MarksAfter(b, pool.base, live, after, r.page, cnt, true);
        MarksAfter(other.used.View(), other.base, live, after, r.page, cnt, true);
        live := after;
      } else {
        r := Null;
      }
    }

    /** The first run of free pages in the chosen pool, or null exactly if that
        pool has no such run. */
    method GetMultiple(fromUser: bool, cnt: nat) returns (r: Pages)
      requires Valid()
      modifies `live, kernel.used.words, user.used.words
      ensures Valid()
      ensures r.Null? ==> live == old(live)
      ensures cnt == 0 ==> r.Null?
      ensures var pool := if fromUser then user else kernel;
        cnt > 0 ==> FirstFit(old(live), pool.base, pool.End(), cnt, r)
      ensures r.Run? ==> r.page !in old(live) && live == old(live)[r.page := cnt]
    {
      if cnt == 0 { return Null; }
      if fromUser { r := GetFrom(user, kernel, cnt); } else { r := GetFrom(kernel, user, cnt); }
    }

    // Clears the marks of one run.
    method FreeFrom(pool: Pool, ghost other: Pool, page: int, cnt: nat)
      requires Valid() && {pool, other} == {kernel, user} && pool != other
      requires page in live && live[page] == cnt && pool.Owns(page)
      modifies `live, pool.used.words
      ensures Valid() && live == old(live) - {page}
    {
      ghost var b := pool.used.View();
      assert Inside(page, cnt);
      ghost var after := live - {page};
      DropRun(live, after, page);
      MarksAfter(b, pool.base, live, after, page, cnt, false);
      MarksAfter(other.used.View(), other.base, live, after, page, cnt, false);
      pool.used.SetMultiple(page - pool.base, cnt, false);
      live := after;
    }

    /** Gives back one live run; giving back no pages does nothing. */
    method FreeMultiple(page: int, cnt: nat)
      requires Valid() && (cnt > 0 ==> page in live && live[page] == cnt)
      modifies `live, kernel.used.words, user.used.words
      ensures Valid() && live == if cnt == 0 then old(live) else old(live) - {page}
    {
      if cnt == 0 { return; }
      assert Inside(page, cnt);
      if kernel.Owns(page) { FreeFrom(kernel, user, page, cnt); } else { FreeFrom(user, kernel, page, cnt); }
    }
  }
}
