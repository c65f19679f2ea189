/**
 Bitmaps packed into 32-bit words (lib/kernel/bitmap.c) as sequences of
 booleans.  The asm instructions are the C expressions that their comments give.
 */
module Bitmap {

  const ELEM_BITS: int := 32

  datatype Found = BitmapError | At(idx: nat)

  // ---------- Words and masks ----------

  function ElemIdx(i: nat): nat {
    i / ELEM_BITS
  }

  function BitMask(i: nat): bv32 {
    1 << Lane(i)
  }

  function Lane(i: nat): bv5 {
    (i % ELEM_BITS) as bv5
  }

  function ElemCnt(bits: nat): nat {
    (bits + ELEM_BITS - 1) / ELEM_BITS
  }

  predicate TestLane(w: bv32, b: bv5) {
    w & (1 << b) != 0
  }

  lemma OrSets(w: bv32, a: bv5, b: bv5)
    ensures TestLane(w | (1 << a), b) == (a == b || TestLane(w, b))
  {
  }

  lemma AndClears(w: bv32, a: bv5, b: bv5)
    ensures TestLane(w & !(1 << a), b) == (a != b && TestLane(w, b))
  {
  }

  lemma LanesDiffer(i: nat, j: nat)
    requires i < 32 && j < 32 && i as bv5 == j as bv5
    ensures i == j
  {
    assert (i as bv5) as int == i && (j as bv5) as int == j;
  }

  // Two bits in the same word and lane are the same bit.
  lemma SameBit(i: nat, j: nat)
    requires ElemIdx(i) == ElemIdx(j) && Lane(i) == Lane(j)
    ensures i == j
  {
    LanesDiffer(i % ELEM_BITS, j % ELEM_BITS);
  }

  /** Bit i of the words. */
  predicate BitOf(words: seq<bv32>, i: nat)
    requires ElemIdx(i) < |words|
  {
    TestLane(words[ElemIdx(i)], Lane(i))
  }

  /** The first n bits of the words. */
  ghost function BitsOf(words: seq<bv32>, n: nat): (b: seq<bool>)
    requires |words| == ElemCnt(n)
    ensures |b| == n
  {
    seq(n, i requires 0 <= i < n => BitOf(words, i))
  }

  // w' is w with one lane set to v.
  ghost predicate OneLane(w: bv32, w': bv32, a: bv5, v: bool) {
    forall b :: TestLane(w', b) == if b == a then v else TestLane(w, b)
  }

  lemma OrLane(w: bv32, a: bv5)
    ensures OneLane(w, w | (1 << a), a, true)
  {
    forall b ensures TestLane(w | (1 << a), b) == if b == a then true else TestLane(w, b) { OrSets(w, a, b); }
  }

  lemma AndLane(w: bv32, a: bv5)
    ensures OneLane(w, w & !(1 << a), a, false)
  {
    forall b ensures TestLane(w & !(1 << a), b) == if b == a then false else TestLane(w, b) { AndClears(w, a, b); }
  }

  lemma SetOneBit(words: seq<bv32>, n: nat, i: nat, w': bv32, v: bool)
    requires |words| == ElemCnt(n) && i < n && OneLane(words[ElemIdx(i)], w', Lane(i), v)
    ensures BitsOf(words[ElemIdx(i) := w'], n) == BitsOf(words, n)[i := v]
  {
    var a, b := BitsOf(words[ElemIdx(i) := w'], n), BitsOf(words, n)[i := v];
    forall j | 0 <= j < n ensures a[j] == b[j] {
      if ElemIdx(i) == ElemIdx(j) && Lane(i) == Lane(j) { SameBit(i, j); }
    }
  }

  // ---------- Boolean sequences ----------

  /** All of b[start..start + cnt] equal v. */
  ghost predicate AllAre(b: seq<bool>, start: int, cnt: int, v: bool) {
    forall k | start <= k < start + cnt && 0 <= k < |b| :: b[k] == v
  }

  ghost predicate Group(b: seq<bool>, i: int, cnt: int, v: bool) {
    0 <= i && i + cnt <= |b| && AllAre(b, i, cnt, v)
  }

  /** What a first-fit scan should return. */
  ghost predicate FirstGroup(b: seq<bool>, start: int, cnt: int, v: bool, r: Found) {
    match r
    case At(idx) => start <= idx && Group(b, idx, cnt, v) && forall i | start <= i < idx :: !Group(b, i, cnt, v)
    case BitmapError => forall i | start <= i :: !Group(b, i, cnt, v)
  }

  ghost function SetRange(b: seq<bool>, start: int, cnt: int, v: bool): (r: seq<bool>)
    ensures |r| == |b| && forall k | 0 <= k < |b| :: r[k] == if start <= k < start + cnt then v else b[k]
  {
    seq(|b|, k requires 0 <= k < |b| => if start <= k < start + cnt then v else b[k])
  }

  class Bits {
    const bitCnt: nat
    const words: array<bv32>

    ghost predicate Valid() {
      words.Length == ElemCnt(bitCnt)
    }

    ghost function View(): (b: seq<bool>)
      reads words
      requires Valid()
      ensures |b| == bitCnt
    {
      BitsOf(words[..], bitCnt)
    }

    /** All bits clear. */
    constructor (n: nat)
      ensures Valid() && fresh(words) && bitCnt == n && View() == seq(n, _ => false)
    {
      bitCnt := n;
      words := new bv32[ElemCnt(n)](_ => 0);
    }

    // Replaces the word that holds bit i by one that differs only there.
    method Store(i: nat, w: bv32, ghost v: bool)
      requires Valid() && i < bitCnt && OneLane(words[ElemIdx(i)], w, Lane(i), v)
      modifies words
      ensures View() == old(View())[i := v]
    {
      SetOneBit(words[..], bitCnt, i, w, v);
      words[ElemIdx(i)] := w;
      assert words[..] == old(words[..])[ElemIdx(i) := w];
    }

    method Mark(i: nat)
      requires Valid() && i < bitCnt
      modifies words
      ensures View() == old(View())[i := true]
    {
      OrLane(words[ElemIdx(i)], Lane(i));
      Store(i, words[ElemIdx(i)] | BitMask(i), true);
    }

    method Reset(i: nat)
      requires Valid() && i < bitCnt
      modifies words
      ensures View() == old(View())[i := false]
    {
      AndLane(words[ElemIdx(i)], Lane(i));
      Store(i, words[ElemIdx(i)] & !BitMask(i), false);
    }

    method Test(i: nat) returns (v: bool)
      requires Valid() && i < bitCnt
      ensures v == View()[i]
    {
      v := words[ElemIdx(i)] & BitMask(i) != 0;
    }

    method Set(i: nat, value: bool)
      requires Valid() && i < bitCnt
      modifies words
      ensures View() == old(View())[i := value]
    {
      if value { Mark(i); } else { Reset(i); }
    }

    method SetMultiple(start: nat, cnt: nat, value: bool)
      requires Valid() && start + cnt <= bitCnt
      modifies words
      ensures View() == SetRange(old(View()), start, cnt, value)
    {
      for i := 0 to cnt
        invariant View() == SetRange(old(View()), start, i, value)
      {
        Set(start + i, value);
      }
    }

    method Contains(start: nat, cnt: nat, value: bool) returns (found: bool)
      requires Valid() && start + cnt <= bitCnt
      ensures found <==> !AllAre(View(), start, cnt, !value)
    {
      for i := 0 to cnt
        invariant AllAre(View(), start, i, !value)
      {
        var t := Test(start + i);
        if t == value {
          assert View()[start + i] == value;
          return true;
        }
      }
      return false;
    }

    /** The first group of cnt bits at or after start that all have the value;
        an error only if there is none. */
    method Scan(start: nat, cnt: nat, value: bool) returns (r: Found)
      requires Valid() && start <= bitCnt
      ensures FirstGroup(View(), start, cnt, value, r)
    {
      if cnt <= bitCnt {
        var last := bitCnt - cnt;
        var i := start;
        while i <= last
          invariant start <= i && forall k | start <= k < i :: !Group(View(), k, cnt, value)
        {
          var other := Contains(i, cnt, !value);
          if !other { return At(i); }
          i := i + 1;
        }
      }
      return BitmapError;
    }

    method ScanAndFlip(start: nat, cnt: nat, value: bool) returns (r: Found)
      requires Valid() && start <= bitCnt
      modifies words
      ensures FirstGroup(old(View()), start, cnt, value, r)
      ensures View() == if r.At? then SetRange(old(View()), r.idx, cnt, !value) else old(View())
    {
      r := Scan(start, cnt, value);
      if r.At? { SetMultiple(r.idx, cnt, !value); }
    }
  }
}
