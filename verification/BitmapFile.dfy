/**
 Bitmaps in files (bitmap_write and bitmap_read in lib/kernel/bitmap.c).  The
 words lie in memory low byte first, so byte k of the file holds bits 8k to
 8k + 7 of the map, the lowest first.
 */
module BitmapFile {
  import opened Bitmap
  import opened InodeIo

  function ByteCnt(bits: nat): nat {
    4 * ElemCnt(bits)
  }

  // ---------- Bits of a byte ----------

  /** The number with these binary digits, the lowest first. */
  function Number(f: seq<bool>): nat {
    if f == [] then 0 else (if f[0] then 1 else 0) + 2 * Number(f[1..])
  }

  predicate NumBit(v: nat, i: nat) {
    if i == 0 then v % 2 == 1 else NumBit(v / 2, i - 1)
  }

  lemma {:induction false} NumberBit(f: seq<bool>, i: nat)
    requires i < |f|
    ensures NumBit(Number(f), i) == f[i]
  {
    if i > 0 {
      assert Number(f) / 2 == Number(f[1..]);
      NumberBit(f[1..], i - 1);
    }
  }

  // How much k binary digits can say.
  function Limit(k: nat): nat {
    if k == 0 then 1 else 2 * Limit(k - 1)
  }

  lemma {:induction false} NumberBound(f: seq<bool>)
    ensures Number(f) < Limit(|f|)
  {
    if f != [] { NumberBound(f[1..]); }
  }

  lemma ByteLimit()
    ensures Limit(8) == 256
  {
    assert Limit(4) == 16;
    assert Limit(6) == 64;
  }

  // ---------- Words as bytes ----------

  /** Bit i of a file. */
  predicate FileBit(data: seq<byte>, i: nat)
    requires i < 8 * |data|
  {
    NumBit(data[i / 8], i % 8)
  }

  /** The eight bits of the map that byte k holds. */
  function Eight(words: seq<bv32>, k: nat): (f: seq<bool>)
    requires k < 4 * |words|
    ensures |f| == 8
  {
    seq(8, j requires 0 <= j < 8 => BitOf(words, 8 * k + j))
  }

  function Octet(words: seq<bv32>, k: nat): byte
    requires k < 4 * |words|
  {
    NumberBound(Eight(words, k));
    ByteLimit();
    Number(Eight(words, k))
  }

  lemma OctetBit(words: seq<bv32>, i: nat)
    requires i < 32 * |words|
    ensures NumBit(Octet(words, i / 8), i % 8) == BitOf(words, i)
  {
    var k, j := i / 8, i % 8;
    assert 8 * k + j == i;
    OctetHas(words, k, j);
  }

  lemma OctetHas(words: seq<bv32>, k: nat, j: nat)
    requires k < 4 * |words| && j < 8
    ensures NumBit(Octet(words, k), j) == BitOf(words, 8 * k + j)
  {
    var f := Eight(words, k);
    NumberBit(f, j);
    assert f[j] == BitOf(words, 8 * k + j);
  }

  /** The file holds this map. */
  ghost predicate SavedIn(data: seq<byte>, bits: seq<bool>) {
    |data| == ByteCnt(|bits|) && forall i | 0 <= i < |bits| :: FileBit(data, i) == bits[i]
  }

  /** A file holds one map only. */
  lemma SavedOnce(data: seq<byte>, a: seq<bool>, b: seq<bool>)
    requires SavedIn(data, a) && SavedIn(data, b) && |a| == |b|
    ensures a == b
  {
    forall i | 0 <= i < |a| ensures a[i] == b[i] { assert FileBit(data, i) == a[i]; }
  }

  /** The bytes that bitmap_write gives to the file. */
  method ToBytes(b: Bits) returns (data: seq<byte>)
    requires b.Valid()
    ensures SavedIn(data, b.View())
  {
    data := [];
    for k := 0 to 4 * b.words.Length
      invariant |data| == k && forall i | 0 <= i < k :: data[i] == Octet(b.words[..], i)
    {
      data := data + [Octet(b.words[..], k)];
    }
    forall i | 0 <= i < b.bitCnt ensures FileBit(data, i) == b.View()[i] {
      OctetBit(b.words[..], i);
    }
  }

  // ---------- Bytes as words ----------

  // Lane k of a word.
  predicate HasLane(w: bv32, k: nat) {
    TestLane(w, Lane(k))
  }

  // The lanes below j of the word are those bits of the file.
  ghost predicate Lanes(data: seq<byte>, e: nat, w: bv32, j: nat)
    requires 4 * e + 4 <= |data|
  {
    forall k: nat | k < 32 :: HasLane(w, k) == (k < j && FileBit(data, 32 * e + k))
  }

  lemma NoLane(k: nat)
    ensures !HasLane(0, k)
  {
    ZeroLane(Lane(k));
  }

  lemma ZeroLane(b: bv5)
    ensures !TestLane(0, b)
  {
  }

  lemma OneMoreLane(w: bv32, w': bv32, j: nat, k: nat)
    requires j < 32 && k < 32 && OneLane(w, w', Lane(j), true)
    ensures HasLane(w', k) == (j == k || HasLane(w, k))
  {
    if Lane(j) == Lane(k) { LanesDiffer(j, k); }
  }

  lemma NextLane(data: seq<byte>, e: nat, w: bv32, w': bv32, j: nat)
    requires 4 * e + 4 <= |data| && j < 32 && Lanes(data, e, w, j)
    requires forall k: nat | k < 32 :: HasLane(w', k) == ((j == k && FileBit(data, 32 * e + j)) || HasLane(w, k))
    ensures Lanes(data, e, w', j + 1)
  {
  }

  // A word with one more lane set.
  method SetLane(v: bv32, j: nat) returns (w: bv32)
    requires j < 32
    ensures forall k: nat | k < 32 :: HasLane(w, k) == (j == k || HasLane(v, k))
  {
    OrLane(v, Lane(j));
    w := v | BitMask(j);
    LaneSet(v, w, j);
  }

  lemma LaneSet(v: bv32, w: bv32, j: nat)
    requires j < 32 && OneLane(v, w, Lane(j), true)
    ensures forall k: nat | k < 32 :: HasLane(w, k) == (j == k || HasLane(v, k))
  {
    forall k: nat | k < 32 ensures HasLane(w, k) == (j == k || HasLane(v, k)) { OneMoreLane(v, w, j, k); }
  }

  // Word e of the map.
  method WordFrom(data: seq<byte>, e: nat) returns (w: bv32)
    requires 4 * e + 4 <= |data|
    ensures Lanes(data, e, w, 32)
  {
    w := 0;
    forall k: nat ensures !HasLane(w, k) { NoLane(k); }
    for j := 0 to 32
      invariant Lanes(data, e, w, j)
    {
      ghost var v := w;
      if FileBit(data, 32 * e + j) { w := SetLane(w, j); }
      NextLane(data, e, v, w, j);
    }
  }

  lemma LaneBit(data: seq<byte>, words: seq<bv32>, i: nat)
    requires |data| == 4 * |words| && i < 32 * |words| && Lanes(data, i / 32, words[i / 32], 32)
    ensures BitOf(words, i) == FileBit(data, i)
  {
    BitIsLane(words, i);
    assert 32 * (i / 32) + i % 32 == i;
  }

  /** The lanes below l, or all of them if l is 0. */
  function LastMask(l: bv5): bv32 {
    if l != 0 then (1 << l) - 1 else 0xffff_ffff
  }

  lemma MaskLane(w: bv32, l: bv5, b: bv5)
    ensures TestLane(w & LastMask(l), b) <==> TestLane(w, b) && (l == 0 || b < l)
  {
  }

  // v is w with only the lanes below l.
  ghost predicate KeepsBelow(w: bv32, v: bv32, l: bv5) {
    forall b :: TestLane(v, b) == (TestLane(w, b) && (l == 0 || b < l))
  }

  lemma MaskKeeps(w: bv32, v: bv32, l: bv5)
    requires v == w & LastMask(l)
    ensures KeepsBelow(w, v, l)
  {
    forall b ensures TestLane(v, b) == (TestLane(w, b) && (l == 0 || b < l)) { MaskLane(w, l, b); }
  }

  lemma LaneOrder(x: nat, y: nat)
    requires x < 32 && y < 32
    ensures (Lane(x) < Lane(y) <==> x < y) && (Lane(y) == 0 <==> y == 0)
  {
    assert Lane(x) as int == x && Lane(y) as int == y;
  }

  lemma KeptLane(w: bv32, v: bv32, l: nat, k: nat)
    requires l < 32 && k < 32 && KeepsBelow(w, v, Lane(l))
    ensures HasLane(v, k) <==> HasLane(w, k) && (l == 0 || k < l)
  {
    LaneOrder(k, l);
  }

  /** Masking keeps the lanes of the map and clears the others. */
  ghost predicate Masking(w: bv32, v: bv32, bitCnt: nat) {
    forall k: nat | k < 32 :: HasLane(v, k) <==> HasLane(w, k) && (bitCnt % ELEM_BITS == 0 || k < bitCnt % ELEM_BITS)
  }

  // The last word without the bits beyond the map.
  method MaskLast(w: bv32, bitCnt: nat) returns (v: bv32)
    ensures Masking(w, v, bitCnt)
  {
    var l := bitCnt % ELEM_BITS;
    v := MaskBelow(w, Lane(l));
    forall k: nat | k < 32 ensures HasLane(v, k) <==> HasLane(w, k) && (l == 0 || k < l) { KeptLane(w, v, l, k); }
  }

  method MaskBelow(w: bv32, l: bv5) returns (v: bv32)
    ensures KeepsBelow(w, v, l)
  {
    v := w & LastMask(l);
    MaskKeeps(w, v, l);
  }

  // No bit beyond the map is set.
  ghost predicate RestClear(words: seq<bv32>, bitCnt: nat) {
    forall i: nat | bitCnt <= i < 32 * |words| :: !BitOf(words, i)
  }

  /** bitmap_read, once the file's bytes are in place of the words: the map is the
      one in the file and the rest of the last word is clear. */
  method FromBytes(b: Bits, data: seq<byte>)
    requires b.Valid() && |data| == ByteCnt(b.bitCnt)
    modifies b.words
    ensures SavedIn(data, b.View()) && RestClear(b.words[..], b.bitCnt)
  {
    for e := 0 to b.words.Length
      invariant forall i | 0 <= i < e :: Lanes(data, i, b.words[i], 32)
    {
      var w := WordFrom(data, e);
      b.words[e] := w;
    }
    if b.bitCnt > 0 {
      var last := b.words.Length - 1;
      ghost var words := b.words[..];
      var masked := MaskLast(b.words[last], b.bitCnt);
      b.words[last] := masked;
      LastWord(data, words, b.words[..], b.bitCnt);
    }
  }

  lemma LastWord(data: seq<byte>, words: seq<bv32>, masked: seq<bv32>, bitCnt: nat)
    requires bitCnt > 0 && |words| == ElemCnt(bitCnt) && |data| == ByteCnt(bitCnt)
    requires forall i | 0 <= i < |words| :: Lanes(data, i, words[i], 32)
    requires |masked| == |words| && Masking(words[|words| - 1], masked[|words| - 1], bitCnt)
    requires forall i | 0 <= i < |words| - 1 :: masked[i] == words[i]
    ensures RestClear(masked, bitCnt) && forall i: nat | i < bitCnt :: BitOf(masked, i) == FileBit(data, i)
  {
    forall i: nat | i < 32 * |words| ensures BitOf(masked, i) == (i < bitCnt && FileBit(data, i)) {
      LaneBit(data, words, i);
      MaskedBit(words, masked, bitCnt, i);
    }
  }

  lemma BitIsLane(words: seq<bv32>, i: nat)
    requires i < 32 * |words|
    ensures BitOf(words, i) == HasLane(words[i / 32], i % 32)
  {
    assert Lane(i % 32) == Lane(i);
  }

  lemma MaskedBit(words: seq<bv32>, masked: seq<bv32>, bitCnt: nat, i: nat)
    requires bitCnt > 0 && |words| == ElemCnt(bitCnt) == |masked| && i < 32 * |words|
    requires Masking(words[|words| - 1], masked[|words| - 1], bitCnt)
    requires forall i | 0 <= i < |words| - 1 :: masked[i] == words[i]
    ensures BitOf(masked, i) == (i < bitCnt && BitOf(words, i))
  {
    BitIsLane(words, i);
    BitIsLane(masked, i);
    InLastWord(bitCnt, i);
  }

  // Which bits of the last word belong to the map.
  lemma InLastWord(bitCnt: nat, i: nat)
    requires bitCnt > 0 && i < 32 * ElemCnt(bitCnt)
    ensures i / 32 < ElemCnt(bitCnt) - 1 ==> i < bitCnt
    ensures i / 32 == ElemCnt(bitCnt) - 1 ==> (i < bitCnt <==> bitCnt % ELEM_BITS == 0 || i % 32 < bitCnt % ELEM_BITS)
  {
  }
}
