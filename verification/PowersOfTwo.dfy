/** Bitwise "and" of unsigned numbers, and the bit tricks that the hash table
    builds on it (lib/kernel/hash.c). */
module PowersOfTwo {
  import opened Arithmetic

  ghost predicate IsPow2(x: nat) {
    exists k: nat :: x == Pow2(k)
  }

  /** The bits set in both x and y. */
  function And(x: nat, y: nat): (r: nat)
    ensures r <= x && r <= y
  {
    if x == 0 || y == 0 then 0 else 2 * And(x / 2, y / 2) + if x % 2 == 1 && y % 2 == 1 then 1 else 0
  }

  lemma {:induction false} AndSame(x: nat)
    ensures And(x, x) == x
  {
    if x > 0 { AndSame(x / 2); }
  }

  // Against an odd number the lowest bit stays.
  lemma AndOdd(x: nat, y: nat, half: nat)
    requires y == 2 * half + 1
    ensures And(x, y) == x % 2 + 2 * And(x / 2, half)
  {
    assert y / 2 == half && y % 2 == 1;
  }

  lemma ModTwice(x: nat, p: nat)
    requires p > 0
    ensures x % (2 * p) == x % 2 + 2 * (x / 2 % p)
  {
    var h, b := x / 2, x % 2;
    var q, r := h / p, h % p;
    assert h == q * p + r;
    assert x == 2 * (q * p + r) + b == q * (2 * p) + (2 * r + b);
    ModUnique(x, 2 * p, q, 2 * r + b);
  }

  /** The low k bits of x. */
  function Low(x: nat, k: nat): nat {
    if k == 0 then 0 else x % 2 + 2 * Low(x / 2, k - 1)
  }

  lemma {:induction false} LowIsAnd(x: nat, k: nat)
    ensures And(x, Pow2(k) - 1) == Low(x, k)
  {
    if k > 0 {
      LowIsAnd(x / 2, k - 1);
      AndOdd(x, Pow2(k) - 1, Pow2(k - 1) - 1);
    }
  }

  lemma {:induction false} LowIsRemainder(x: nat, k: nat)
    ensures Low(x, k) == x % Pow2(k)
  {
    if k > 0 {
      LowIsRemainder(x / 2, k - 1);
      ModTwice(x, Pow2(k - 1));
    }
  }

  /** Keeping the low k bits is the remainder. */
  lemma AndMask(x: nat, k: nat)
    ensures And(x, Pow2(k) - 1) == x % Pow2(k)
  {
    LowIsAnd(x, k);
    LowIsRemainder(x, k);
  }

  /** x with its lowest-order 1 bit turned off. */
  function TurnOffLeast1Bit(x: nat): nat {
    if x == 0 then 0 else And(x, x - 1)
  }

  lemma {:induction false} TurnOff(x: nat)
    requires x > 0
    ensures TurnOffLeast1Bit(x) == if x % 2 == 1 then x - 1 else 2 * TurnOffLeast1Bit(x / 2)
    ensures TurnOffLeast1Bit(x) < x
  {
    if x % 2 == 1 {
      AndSame(x / 2);
      assert (x - 1) / 2 == x / 2;
    } else {
      assert (x - 1) / 2 == x / 2 - 1;
      TurnOff(x / 2);
    }
  }

  predicate IsPowerOf2(x: nat) {
    x != 0 && TurnOffLeast1Bit(x) == 0
  }

  lemma {:induction false} PowEven(k: nat)
    ensures Pow2(k) == 1 || Pow2(k) % 2 == 0
  {
    if k > 0 { assert Pow2(k) == 2 * Pow2(k - 1); }
  }

  /** The test recognises exactly the powers of two. */
  lemma {:induction false} IsPowerOf2Right(x: nat)
    ensures IsPowerOf2(x) <==> IsPow2(x)
  {
    if x > 0 {
      TurnOff(x);
      if x % 2 == 1 {
        assert Pow2(0) == 1;
        if IsPow2(x) {
          var k: nat :| x == Pow2(k);
          PowEven(k);
        }
      } else {
        IsPowerOf2Right(x / 2);
        if IsPow2(x / 2) {
          var k: nat :| x / 2 == Pow2(k);
          assert x == Pow2(k + 1);
        }
        if IsPow2(x) {
          var k: nat :| x == Pow2(k);
          assert k > 0 && x / 2 == Pow2(k - 1);
        }
      }
    }
  }

  /** The highest bit of x. */
  function HighBit(x: nat): (p: nat)
    requires x > 0
    ensures p <= x < 2 * p
  {
    if x == 1 then 1 else 2 * HighBit(x / 2)
  }

  lemma {:induction false} HighBitPow2(x: nat)
    requires x > 0
    ensures IsPow2(HighBit(x))
  {
    if x == 1 {
      assert Pow2(0) == 1;
    } else {
      HighBitPow2(x / 2);
      var k: nat :| HighBit(x / 2) == Pow2(k);
      assert HighBit(x) == Pow2(k + 1);
    }
  }

  /** Turning off the lowest bit of several leaves the highest. */
  lemma {:induction false} TurnOffKeepsHigh(x: nat)
    requires x > 0 && TurnOffLeast1Bit(x) != 0
    ensures HighBit(TurnOffLeast1Bit(x)) == HighBit(x)
  {
    TurnOff(x);
    if x % 2 == 0 {
      TurnOffKeepsHigh(x / 2);
      assert TurnOffLeast1Bit(x) / 2 == TurnOffLeast1Bit(x / 2);
    } else {
      assert (x - 1) / 2 == x / 2;
    }
  }

  lemma {:induction false} HighBitOnly(x: nat)
    requires IsPowerOf2(x)
    ensures HighBit(x) == x
  {
    TurnOff(x);
    if x > 1 { HighBitOnly(x / 2); }
  }

  /** Turning bits off until one is left: the greatest power of two up to x. */
  method RoundDown(x: nat) returns (p: nat)
    requires x > 0
    ensures IsPow2(p) && p <= x < 2 * p
  {
    p := x;
    while !IsPowerOf2(p)
      invariant p > 0 && HighBit(p) == HighBit(x)
      decreases p
    {
      TurnOff(p);
      TurnOffKeepsHigh(p);
      p := TurnOffLeast1Bit(p);
    }
    HighBitOnly(p);
    HighBitPow2(x);
  }
}
