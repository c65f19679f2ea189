/**
 64-bit division built from the x86 divide of a 64-bit number by a 32-bit one
 (lib/arithmetic.c).  Machine integers are mathematical integers with their
 range in the type; every place where C wraps is written out with `%`.
 A divide error (#DE) is the outcome `Trap`.
 */
module Arithmetic {

  const B32: int := 0x1_0000_0000
  const B64: int := 0x1_0000_0000_0000_0000

  type uint32 = x: int | 0 <= x < 0x1_0000_0000
  type uint64 = x: int | 0 <= x < 0x1_0000_0000_0000_0000
  type int32 = x: int | -0x8000_0000 <= x < 0x8000_0000
  type int64 = x: int | -0x8000_0000_0000_0000 <= x < 0x8000_0000_0000_0000

  datatype Outcome<T> = Trap | Value(v: T)

  function Pow2(k: nat): (r: int)
    ensures r >= 1
  {
    if k == 0 then 1 else 2 * Pow2(k - 1)
  }

  // C's division, which truncates toward zero.
  function TruncDiv(n: int, d: int): int
    requires d != 0
  {
    if (n < 0) == (d < 0) then Abs(n) / Abs(d) else -(Abs(n) / Abs(d))
  }

  function Abs(x: int): nat {
    if x < 0 then -x else x
  }

  // Reinterpretation of an unsigned word as a two's-complement one.
  function ToInt64(x: int): (y: int)
    ensures -0x8000_0000_0000_0000 <= y < 0x8000_0000_0000_0000
  {
    var w := x % B64; if w < 0x8000_0000_0000_0000 then w else w - B64
  }

  function ToInt32(x: int): (y: int)
    ensures -0x8000_0000 <= y < 0x8000_0000
  {
    var w := x % B32; if w < 0x8000_0000 then w else w - B32
  }

  // ---------- Facts about division and powers of two ----------

  lemma DivUnique(n: int, d: int, q: int)
    requires d > 0
    requires q * d <= n < (q + 1) * d
    ensures n / d == q
  {
    var e := n / d;
    assert e * d <= n < (e + 1) * d;
    if e < q { MulMono(e + 1, q, d); }
    if q < e { MulMono(q + 1, e, d); }
  }

  lemma MulMono(a: int, b: int, c: int)
    requires a <= b && c >= 0
    ensures a * c <= b * c
  {
    assert (b - a) * c >= 0;
  }

  lemma DivMono(a: int, b: int, d: int)
    requires a <= b && d > 0
    ensures a / d <= b / d
  {
    var qa, qb := a / d, b / d;
    assert qa * d <= a && b < (qb + 1) * d;
    if qb < qa { MulMono(qb + 1, qa, d); }
  }

  lemma DivDiv(n: nat, a: int, b: int)
    requires a > 0 && b > 0
    ensures a * b > 0
    ensures (n / a) / b == n / (a * b)
  {
    MulMono(1, a, b);
    var x := n / a;
    var q := x / b;
    assert x * a <= n < x * a + a && q * b <= x < q * b + b;
    NestedBounds(n, a, b, x, q);
    DivUnique(n, a * b, q);
  }

  lemma NestedBounds(n: int, a: int, b: int, x: int, q: int)
    requires a > 0 && b > 0
    requires x * a <= n < x * a + a && q * b <= x < q * b + b
    ensures q * (a * b) <= n < (q + 1) * (a * b)
  {
    MulMono(q * b, x, a);
    MulMono(x + 1, q * b + b, a);
    assert q * b * a == q * (a * b);
    assert (q * b + b) * a == q * (a * b) + a * b;
  }

  lemma {:induction false} Pow2Add(a: nat, b: nat)
    ensures Pow2(a + b) == Pow2(a) * Pow2(b)
  {
    if a > 0 {
      Pow2Add(a - 1, b);
      assert 2 * (Pow2(a - 1) * Pow2(b)) == (2 * Pow2(a - 1)) * Pow2(b);
    }
  }

  lemma Pow2Values()
    ensures Pow2(1) == 2 && Pow2(2) == 4 && Pow2(4) == 16 && Pow2(8) == 256
    ensures Pow2(16) == 0x1_0000 && Pow2(31) == 0x8000_0000 && Pow2(32) == B32
  {
    Pow2Add(1, 1); Pow2Add(2, 2); Pow2Add(4, 4); Pow2Add(8, 8); Pow2Add(16, 16);
    assert Pow2(32) == 2 * Pow2(31);
  }

  // ---------- The building blocks ----------

  // The DIVL instruction: traps when the quotient does not fit in 32 bits.
  function Divl(n: uint64, d: uint32): (r: Outcome<uint32>)
    ensures r == Trap <==> d == 0 || n >= d * B32
  {
    if d == 0 then Trap
    else if n / d < B32 then
      assert n < (n / d + 1) * d;
      MulMono(n / d + 1, B32, d);
      Value(n / d)
    else
      MulMono(B32, n / d, d);
      Trap
  }

  // A left shift before it is cut down to the word size.
  function Shl(x: int, k: nat): int {
    if k == 0 then x else 2 * Shl(x, k - 1)
  }

  lemma {:induction false} ShlAgain(x: int, k: nat, j: nat)
    ensures Shl(Shl(x, k), j) == Shl(x, k + j)
  {
    if j > 0 { ShlAgain(x, k, j - 1); }
  }

  lemma {:induction false} ShlIsProduct(x: int, k: nat)
    ensures Shl(x, k) == x * Pow2(k)
  {
    if k > 0 {
      ShlIsProduct(x, k - 1);
      assert 2 * (x * Pow2(k - 1)) == x * (2 * Pow2(k - 1));
    }
  }

  /** One rung of the search: if the top `j` bits of the word are clear, shift
      them out.  `p` is 2^j. */
  method Rung(ghost x0: int, x: int, k: nat, limit: int, j: nat, p: int)
    returns (x': int, k': nat)
    requires x == Shl(x0, k) && p == Pow2(j)
    requires limit + 1 <= x * p && 0 <= x < B32 && (limit + 1) * p == B32
    ensures x' == Shl(x0, k') && limit < x' < B32
    ensures k <= k' <= k + j
  {
    if x <= limit {
      ShlAgain(x0, k, j);
      ShlIsProduct(x, j);
      MulMono(x, limit, p);
      assert limit * p == B32 - p;
      x', k' := (x * p) % B32, k + j;
    } else {
      x', k' := x, k;
    }
  }

  /** Binary search for the highest set bit.  `k` is the one shift that moves
      it to bit 31. */
  method Nlz(x0: uint32) returns (k: nat)
    requires x0 != 0
    ensures k <= 31
    ensures 0x8000_0000 <= Shl(x0, k) < B32
  {
    Pow2Values();
    var x;
    x, k := Rung(x0, x0, 0, 0x0000_FFFF, 16, 0x1_0000);
    x, k := Rung(x0, x, k, 0x00FF_FFFF, 8, 0x100);
    x, k := Rung(x0, x, k, 0x0FFF_FFFF, 4, 0x10);
    x, k := Rung(x0, x, k, 0x3FFF_FFFF, 2, 4);
    x, k := Rung(x0, x, k, 0x7FFF_FFFF, 1, 2);
  }

  // ---------- Narrow divisor ----------

  lemma NarrowDivision(n: uint64, d: uint32)
    requires d != 0
    ensures var part := B32 * ((n / B32) % d) + n % B32;
            0 <= part < d * B32 && n / d == part / d + B32 * ((n / B32) / d)
  {
    var n1, n0 := n / B32, n % B32;
    var t, r := n1 / d, n1 % d;
    var part := B32 * r + n0;
    MulMono(r + 1, d, B32);
    assert part < d * B32;
    assert n == B32 * (d * t + r) + n0;
    assert B32 * (d * t) == d * (B32 * t);
    var q := part / d;
    assert q * d <= part < (q + 1) * d;
    assert (q + B32 * t) * d == q * d + d * (B32 * t);
    assert (q + B32 * t + 1) * d == (q + 1) * d + d * (B32 * t);
    DivUnique(n, d, q + B32 * t);
  }

  // ---------- Wide divisor: estimate, then correct by at most one ----------

  /** Rounding the divisor down to its top 32 significant bits loses so little
      that the estimate is never more than one too large. */
  lemma EstimateOffByOne(n: nat, d: int, low: int)
    requires 0 < low <= d <= n
    requires n * (d - low) < low * d
    ensures 1 <= n / low
    ensures n / low == n / d || n / low == n / d + 1
  {
    var e, q := n / low, n / d;
    Quotient(n, low);
    Quotient(n, d);
    NotTooSmall(n, d, low, q, e);
    if e >= q + 2 { TwoTooMany(n, d, low, q, e); }
  }

  lemma Quotient(n: int, d: int)
    requires d > 0
    ensures n / d * d <= n < (n / d + 1) * d
  {
  }

  lemma NotTooSmall(n: nat, d: int, low: int, q: int, e: int)
    requires 0 < low <= d <= n && q * d <= n && n < (e + 1) * low && q >= 0
    ensures e >= q && e >= 1
  {
    if e < q {
      MulMono(e + 1, q, low);
      MulMono(low, d, q);
    }
    if e < 1 { MulMono(e + 1, 1, low); }
  }

  lemma TwoTooMany(n: nat, d: int, low: int, q: int, e: int)
    requires 0 < low <= d && q + 2 <= e && e * low <= n && n < (q + 1) * d
    ensures n * (d - low) >= low * d
  {
    MulMono(q + 2, e, low);
    MulMono((q + 2) * low, n, d);
    MulMono(n, (q + 1) * d, low);
    assert (q + 2) * low * d == low * d + (q + 1) * d * low;
    assert n * (d - low) == n * d - n * low;
  }

  // p is 2^s and r is 2^(32-s), for s the leading zeros of d's upper word.
  lemma Normalised(d: int, p: int, r: int)
    requires d >= B32 && p > 0 && p * r == B32
    requires 0x8000_0000 <= (d / B32) * p < B32
    ensures d * p < B64
    ensures 0x8000_0000 <= d * p / B32 < B32
  {
    var d1 := d / B32;
    NextMultiple(d1, p, r);
    MulMono(d, d1 * B32 + B32 - 1, p);
    assert (d1 * B32 + B32 - 1) * p == (d1 * p + p) * B32 - p;
    MulMono(d1 * B32, d, p);
    assert d1 * B32 * p == d1 * p * B32;
    DivMono(d1 * p * B32, d * p, B32);
  }

  lemma NextMultiple(k: int, p: int, r: int)
    requires p > 0 && k * p < p * r
    ensures k * p + p <= p * r
  {
    if k >= r { MulMono(r, k, p); }
    MulMono(k + 1, r, p);
  }

  // `v * r` is the divisor with its low-order bits cleared.
  lemma LowBitsLost(d: int, p: int, r: int, v: int)
    requires p > 0 && p * r == B32 && v == d * p / B32
    ensures v * r <= d < v * r + r
  {
    var low := v * r;
    assert v * B32 <= d * p < v * B32 + B32;
    assert v * B32 == low * p by { assert v * (p * r) == v * r * p; }
    assert (low + r) * p == low * p + B32;
    if low > d { MulMono(d + 1, low, p); }
    if d >= low + r { MulMono(low + r, d, p); }
  }

  lemma RemainderSmall(n: int, d: int, v: int, r: int)
    requires 0 <= n < B64 && v >= 0x8000_0000 && (r == 2 || r >= 4)
    requires v * r <= d < v * r + r
    ensures n * (d - v * r) < v * r * d
  {
    MulMono(0x8000_0000, v, r);
    ProductMono(0x8000_0000 * r, v * r, d);
    SmallProduct(n, d - v * r, r);
  }

  lemma ProductMono(a: int, b: int, d: int)
    requires 0 <= a <= b <= d
    ensures a * a <= b * d
  {
    MulMono(a, d, a);
    MulMono(a, b, d);
  }

  lemma SmallProduct(n: int, e: int, r: int)
    requires 0 <= n < B64 && 0 <= e < r && (r == 2 || r >= 4)
    ensures n * e < (0x8000_0000 * r) * (0x8000_0000 * r)
  {
    var square := 0x4000_0000_0000_0000;
    if r == 2 {
      MulMono(e, 1, n);
    } else {
      MulMono(e, r, n);
      MulMono(n, B64 - 1, r);
      MulMono(4, r, square * r);
      assert (0x8000_0000 * r) * (0x8000_0000 * r) == r * (square * r);
    }
  }

  /** The facts the wide branch rests on, for `s` the number of leading zeros
      of the divisor's upper word: nothing is lost by the left shift, DIVL does
      not overflow, and the estimate is the quotient or one more. */
  lemma WideEstimate(n: uint64, d: uint64, s: nat)
    requires d >= B32 && n >= d && s <= 31
    requires 0x8000_0000 <= Shl(d / B32, s) < B32
    ensures 0 <= Shl(d, s) < B64
    ensures var v := Shl(d, s) / B32;
            0x8000_0000 <= v < B32 && n / 2 < v * B32
            && var q := (n / 2) / v / Pow2(31 - s);
               1 <= q && (q == n / d || q == n / d + 1)
  {
    var p, r := Pow2(s), Pow2(32 - s);
    Pow2Values();
    Pow2Add(s, 32 - s);
    ShlIsProduct(d / B32, s);
    ShlIsProduct(d, s);
    MulMono(0, d, p);
    Normalised(d, p, r);
    var v := d * p / B32;
    LowBitsLost(d, p, r, v);
    assert r == 2 || r >= 4 by { if s <= 30 { Pow2Add(2, 30 - s); } }
    assert n / 2 < v * B32 by { MulMono(0x8000_0000, v, B32); }
    RemainderSmall(n, d, v, r);
    MulMono(1, v, r);
    EstimateOffByOne(n, d, v * r);
    NestedShifts(n, v, 31 - s);
  }

  lemma NestedShifts(n: nat, v: int, k: nat)
    requires v > 0
    ensures v * Pow2(k + 1) > 0
    ensures (n / 2) / v / Pow2(k) == n / (v * Pow2(k + 1))
  {
    DivDiv(n / 2, v, Pow2(k));
    DivDiv(n, 2, v * Pow2(k));
    assert 2 * (v * Pow2(k)) == v * Pow2(k + 1);
  }

  // ---------- The division routines ----------

  /** `udiv64`: the exact quotient for every nonzero divisor, and a divide
      error only for a zero one, so neither DIVL can overflow. */
  method UDiv64(n: uint64, d: uint64) returns (q: Outcome<uint64>)
    ensures d == 0 ==> q == Trap
    ensures d != 0 ==> q.Value? && q.v == n / d
  {
    if d / B32 == 0 {
      if d == 0 { return Trap; }           // n1 % d0 already faults
      q := UDivNarrow(n, d);
    } else if n < d {
      DivUnique(n, d, 0);
      q := Value(0);
    } else {
      q := UDivWide(n, d);
    }
  }

  method UDivNarrow(n: uint64, d: uint32) returns (q: Outcome<uint64>)
    requires d != 0
    ensures q.Value? && q.v == n / d
  {
    NarrowDivision(n, d);
    QuotientFits(n, d);
    var n1, n0 := n / B32, n % B32;
    var low := Divl(B32 * (n1 % d) + n0, d);
    q := Value((low.v + B32 * (n1 / d)) % B64);
  }

  method UDivWide(n: uint64, d: uint64) returns (q: Outcome<uint64>)
    requires B32 <= d <= n
    ensures q.Value? && q.v == n / d
  {
    var s := Nlz(d / B32);
    WideEstimate(n, d, s);
    var v := Shl(d, s) % B64 / B32;
    assert v == Shl(d, s) / B32;
    var est := Divl(n / 2, v);
    assert est == Value((n / 2) / v);
    var e: int := est.v / Pow2(31 - s);
    QuotientFits(n, d);
    Correction(n, d, e);
    var rest := SubWrapped(n, (e - 1) * d % B64);
    q := Value(if rest < d then e - 1 else e);
  }

  function SubWrapped(a: uint64, b: uint64): uint64 {
    (a - b) % B64
  }

  lemma QuotientFits(n: uint64, d: uint64)
    requires d > 0
    ensures 0 <= n / d < B64
  {
    assert (n / d) * d <= n;
    MulMono(1, d, n / d);
  }

  // The wrapped multiply and subtract of the last line decide the correction.
  lemma Correction(n: uint64, d: uint64, e: int)
    requires d > 0 && 1 <= e && (e == n / d || e == n / d + 1)
    ensures 0 <= (e - 1) * d <= n
    ensures (n - (e - 1) * d % B64) % B64 < d <==> e - 1 == n / d
  {
    var q, m := n / d, (e - 1) * d;
    assert q * d <= n < q * d + d;
    MulMono(0, e - 1, d);
    if e == q { assert m == q * d - d; }
    assert m % B64 == m && (n - m) % B64 == n - m;
  }

  lemma RemainderOf(n: uint64, d: uint64, q: int)
    requires d > 0 && q == n / d
    ensures SubWrapped(n, d * q % B64) == n % d
  {
    assert n == d * (n / d) + n % d;
    MulMono(0, q, d);
    var m := d * q;
    assert 0 <= m <= n && m % B64 == m;
  }

  /** `umod64` subtracts in 64 bits and returns 32 of them. */
  method UMod64(n: uint64, d: uint64) returns (r: Outcome<uint32>)
    ensures d == 0 ==> r == Trap
    ensures d != 0 ==> r.Value? && r.v == (n % d) % B32
  {
    var q := UDiv64(n, d);
    if q.Trap? { return Trap; }
    RemainderOf(n, d, q.v);
    var rest := SubWrapped(n, d * q.v % B64);
    return Value(rest % B32);
  }

  // The absolute value as C computes it, by negating in unsigned arithmetic.
  function Magnitude(n: int): uint64
    requires -B64 < n < B64
  {
    if n >= 0 then n else (-(n % B64)) % B64
  }

  lemma MagnitudeIsAbs(n: int)
    requires -B64 < n < B64
    ensures Magnitude(n) == Abs(n)
  {
    if n < 0 {
      ModUnique(n, B64, -1, n + B64);
      ModUnique(-(n + B64), B64, -1, -n);
    }
  }

  /** `sdiv64`: the truncated quotient, wrapped only where it does not fit. */
  method SDiv64(n: int64, d: int64) returns (q: Outcome<int64>)
    ensures d == 0 ==> q == Trap
    ensures d != 0 ==> q.Value? && q.v == ToInt64(TruncDiv(n, d))
  {
    MagnitudeIsAbs(n);
    MagnitudeIsAbs(d);
    var a := UDiv64(Magnitude(n), Magnitude(d));
    if a.Trap? { return Trap; }
    var w: int := ToInt64(a.v);
    NegateWrapped(a.v);
    q := Value(if (n < 0) == (d < 0) then w else ToInt64(-w));
  }

  /** `smod64` subtracts in 64 bits and returns a signed 32-bit word. */
  method SMod64(n: int64, d: int64) returns (r: Outcome<int32>)
    ensures d == 0 ==> r == Trap
    ensures d != 0 ==> r.Value? && r.v == ToInt32(n - d * TruncDiv(n, d))
  {
    var q := SDiv64(n, d);
    if q.Trap? { return Trap; }
    var m: int := d * q.v;
    ghost var x := TruncDiv(n, d);
    WrappedProduct(d, x, q.v);
    ghost var k :| m == d * x + k * B64;
    SameLowWord(n - m, n - d * x, k);
    r := Value(ToInt32(ToInt64(n - m)));
  }

  lemma WrappedProduct(d: int, x: int, y: int)
    requires y == ToInt64(x)
    ensures exists k :: d * y == d * x + k * B64
  {
    var k := (y - x) / B64;
    assert y == x + k * B64;
    assert d * y == d * x + (d * k) * B64;
  }

  lemma SameLowWord(a: int, b: int, k: int)
    requires a == b - k * B64
    ensures ToInt32(ToInt64(a)) == ToInt32(b)
  {
    var w := ToInt64(a);
    var j := (w - a) / B64;
    assert w == b + ((j - k) * B32) * B32;
    ModUnique(w, B32, (j - k) * B32 + b / B32, b % B32);
  }

  lemma NegateWrapped(a: int)
    ensures ToInt64(-(ToInt64(a))) == ToInt64(-a)
  {
    var w := ToInt64(a);
    var j := (w - a) / B64;
    assert -w == -a - j * B64;
    ModUnique(-w, B64, (-a) / B64 - j, (-a) % B64);
  }

  lemma ModUnique(x: int, m: int, q: int, r: int)
    requires m > 0 && x == q * m + r && 0 <= r < m
    ensures x % m == r
  {
    DivUnique(x, m, q);
    assert x == (x / m) * m + x % m;
  }

  // ---------- What the library entry points deliver ----------

  /** `__umoddi3` promises a 64-bit remainder but its helper keeps 32 bits: it
      is right exactly when the true remainder fits in 32 bits. */
  method UModDi3(n: uint64, d: uint64) returns (r: Outcome<uint64>)
    ensures d == 0 ==> r == Trap
    ensures d != 0 ==> r.Value? && (r.v == n % d <==> n % d < B32)
  {
    var w := UMod64(n, d);
    if w.Trap? { return Trap; }
    r := Value(w.v);
  }

  /** `__moddi3`: right exactly when C's remainder fits in a signed 32-bit word. */
  method ModDi3(n: int64, d: int64) returns (r: Outcome<int64>)
    ensures d == 0 ==> r == Trap
    ensures d != 0 ==>
      var m := n - d * TruncDiv(n, d);
      r.Value? && (r.v == m <==> -0x8000_0000 <= m < 0x8000_0000)
  {
    var w := SMod64(n, d);
    if w.Trap? { return Trap; }
    r := Value(w.v);
  }

  /** 2^32 modulo 2^33 is 2^32, and that is not what comes back. */
  method LostRemainder() returns (r: Outcome<uint64>)
    ensures r.Value? && r.v != B32 % (2 * B32)
  {
    r := UModDi3(B32, 2 * B32);
  }

  /** Nor is 2^31 modulo 2^32 in signed arithmetic. */
  method LostSignedRemainder() returns (r: Outcome<int64>)
    ensures r.Value? && r.v != 0x8000_0000 - B32 * TruncDiv(0x8000_0000, B32)
  {
    r := ModDi3(0x8000_0000, B32);
  }

  /** `__divdi3`: C's truncated quotient for every pair except the one whose
      quotient, 2^63, is not a 64-bit signed number. */
  method DivDi3(n: int64, d: int64) returns (q: Outcome<int64>)
    ensures d == 0 ==> q == Trap
    ensures d != 0 ==>
      q.Value? && (q.v == TruncDiv(n, d) <==> !(n == -0x8000_0000_0000_0000 && d == -1))
  {
    q := SDiv64(n, d);
    if d != 0 { TruncDivRange(n, d); }
  }

  lemma QuotientBound(a: nat, b: nat)
    requires b > 0
    ensures 0 <= a / b <= a && (b > 1 ==> 2 * (a / b) <= a) && (b == 1 ==> a / b == a)
  {
    var q := a / b;
    assert q * b <= a;
    MulMono(1, b, q);
    if b >= 2 { MulMono(2, b, q); }
  }

  lemma TruncDivRange(n: int64, d: int64)
    requires d != 0
    ensures -0x8000_0000_0000_0000 <= TruncDiv(n, d) <= 0x8000_0000_0000_0000
    ensures TruncDiv(n, d) == 0x8000_0000_0000_0000 <==> n == -0x8000_0000_0000_0000 && d == -1
  {
    QuotientBound(Abs(n), Abs(d));
  }
}
