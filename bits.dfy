/** Arbitrary-precision non-negative integers viewed as bit strings: the
    operations of java.math.BigInteger that the library relies on
    (testBit, bitCount, bitLength, and, or, xor, shiftLeft, shiftRight).
    Every operation is defined by recursion on halving, so that proofs about
    them only need arithmetic by the constant 2. */
module BigBits {

  /** 2^n. */
  function Pow2(n: nat): (r: nat)
    ensures r >= 1
  {
    if n == 0 then 1 else 2 * Pow2(n - 1)
  }

  /** Bit i of x (BigInteger.testBit). */
  predicate Bit(x: nat, i: nat)
  {
    if i == 0 then x % 2 == 1 else Bit(x / 2, i - 1)
  }

  /** Number of set bits (BigInteger.bitCount). */
  function Popcount(x: nat): (r: nat)
  {
    if x == 0 then 0 else x % 2 + Popcount(x / 2)
  }

  /** Number of bits of the binary representation (BigInteger.bitLength). */
  function BitLength(x: nat): (r: nat)
  {
    if x == 0 then 0 else 1 + BitLength(x / 2)
  }

  /** Bitwise AND of two non-negative values. */
  function And(a: nat, b: nat): (r: nat)
  {
    if a == 0 || b == 0 then 0
    else 2 * And(a / 2, b / 2) + (if a % 2 == 1 && b % 2 == 1 then 1 else 0)
  }

  /** Bitwise OR of two non-negative values. */
  function Or(a: nat, b: nat): (r: nat)
  {
    if a == 0 then b
    else if b == 0 then a
    else 2 * Or(a / 2, b / 2) + (if a % 2 == 1 || b % 2 == 1 then 1 else 0)
  }

  /** Bitwise XOR of two non-negative values. */
  function Xor(a: nat, b: nat): (r: nat)
  {
    if a == 0 then b
    else if b == 0 then a
    else 2 * Xor(a / 2, b / 2) + (if a % 2 != b % 2 then 1 else 0)
  }

  /** x << k (BigInteger.shiftLeft). */
  function Shl(x: nat, k: nat): (r: nat)
  {
    if k == 0 then x else 2 * Shl(x, k - 1)
  }

  /** x >> k (BigInteger.shiftRight). */
  function Shr(x: nat, k: nat): (r: nat)
  {
    if k == 0 then x else Shr(x / 2, k - 1)
  }

  /** The value of the lowest set bit, x & (~x + 1) in two's complement
      (0 for x = 0, where ~0 + 1 = 0). */
  function LowBit(x: nat): (r: nat)
  {
    if x == 0 then 0 else if x % 2 == 1 then 1 else 2 * LowBit(x / 2)
  }

  /** Index of the lowest set bit of a positive value. */
  function LowIndex(x: nat): (r: nat)
    requires x > 0
  {
    if x % 2 == 1 then 0 else 1 + LowIndex(x / 2)
  }

  /** Number of set bits among bits 0 .. q-1. */
  function CountBits(x: nat, q: nat): (r: nat)
  {
    if q == 0 then 0 else x % 2 + CountBits(x / 2, q - 1)
  }

  /** Every set bit of a is set in b. */
  ghost predicate BitSubset(a: nat, b: nat)
  {
    forall i: nat :: Bit(a, i) ==> Bit(b, i)
  }

  // ---------------------------------------------------------------------
  // Bits determine a value

  lemma {:induction false} BitOfZero(i: nat)
    ensures !Bit(0, i)
  {
    if i > 0 {
      BitOfZero(i - 1);
    }
  }

  lemma {:induction false} BitsDetermine(a: nat, b: nat)
    requires forall i: nat :: Bit(a, i) == Bit(b, i)
    ensures a == b
    decreases a + b
  {
    assert Bit(a, 0) == Bit(b, 0);
    if a != 0 || b != 0 {
      forall i: nat ensures Bit(a / 2, i) == Bit(b / 2, i) {
        assert Bit(a, i + 1) == Bit(b, i + 1);
      }
      BitsDetermine(a / 2, b / 2);
    }
  }

  lemma {:induction false} BitAnd(a: nat, b: nat, i: nat)
    ensures Bit(And(a, b), i) == (Bit(a, i) && Bit(b, i))
    decreases i
  {
    if a == 0 || b == 0 {
      BitOfZero(i);
    } else if i > 0 {
      BitAnd(a / 2, b / 2, i - 1);
    }
  }

  lemma {:induction false} BitOr(a: nat, b: nat, i: nat)
    ensures Bit(Or(a, b), i) == (Bit(a, i) || Bit(b, i))
    decreases i
  {
    if a == 0 || b == 0 {
      BitOfZero(i);
    } else if i > 0 {
      BitOr(a / 2, b / 2, i - 1);
    }
  }

  lemma {:induction false} BitXor(a: nat, b: nat, i: nat)
    ensures Bit(Xor(a, b), i) == (Bit(a, i) != Bit(b, i))
    decreases i
  {
    if a == 0 || b == 0 {
      BitOfZero(i);
    } else if i > 0 {
      BitXor(a / 2, b / 2, i - 1);
    }
  }

  lemma {:induction false} BitShl(x: nat, k: nat, i: nat)
    ensures Bit(Shl(x, k), i) == (i >= k && Bit(x, i - k))
    decreases k
  {
    if k > 0 && i > 0 {
      assert Shl(x, k) / 2 == Shl(x, k - 1);
      BitShl(x, k - 1, i - 1);
    }
  }

  lemma {:induction false} BitShr(x: nat, k: nat, i: nat)
    ensures Bit(Shr(x, k), i) == Bit(x, i + k)
    decreases k
  {
    if k > 0 {
      BitShr(x / 2, k - 1, i);
    }
  }

  /** x < 2^m exactly when no bit at or above m is set: one direction ... */
  lemma {:induction false} BitsBelow(x: nat, m: nat, i: nat)
    requires x < Pow2(m) && i >= m
    ensures !Bit(x, i)
    decreases i
  {
    if m == 0 {
      assert x == 0;
      BitOfZero(i);
    } else {
      BitsBelow(x / 2, m - 1, i - 1);
    }
  }

  /** ... and the other. */
  lemma {:induction false} BelowFromBits(x: nat, m: nat)
    requires forall i: nat :: i >= m ==> !Bit(x, i)
    ensures x < Pow2(m)
  {
    if m == 0 {
      if x > 0 {
        LowBitIsPow2(x);
      }
    } else {
      forall i: nat | i >= m - 1 ensures !Bit(x / 2, i) {
        assert !Bit(x, i + 1);
      }
      BelowFromBits(x / 2, m - 1);
    }
  }

  lemma {:induction false} BitLengthBound(x: nat, m: nat)
    ensures BitLength(x) <= m <==> x < Pow2(m)
  {
    if x > 0 && m > 0 {
      BitLengthBound(x / 2, m - 1);
    }
  }

  /** The highest set bit sits at bitLength - 1; no bit is set above. */
  lemma {:induction false} BitLengthTop(x: nat, i: nat)
    ensures x > 0 ==> Bit(x, BitLength(x) - 1)
    ensures Bit(x, i) ==> i < BitLength(x)
  {
    if x > 0 {
      if x / 2 > 0 {
        BitLengthTop(x / 2, 0);
      }
    }
    if Bit(x, i) && i >= BitLength(x) {
      BitLengthBound(x, BitLength(x));
      BitsBelow(x, BitLength(x), i);
    }
  }

  lemma {:induction false} BitOfPow2(m: nat, i: nat)
    ensures Bit(Pow2(m), i) == (i == m)
  {
    if m == 0 {
      if i > 0 {
        BitOfZero(i - 1);
      }
    } else if i > 0 {
      BitOfPow2(m - 1, i - 1);
    }
  }

  lemma {:induction false} BitOfMask(m: nat, i: nat)
    ensures Bit(Pow2(m) - 1, i) == (i < m)
  {
    if m == 0 {
      BitOfZero(i);
    } else if i > 0 {
      assert (Pow2(m) - 1) / 2 == Pow2(m - 1) - 1;
      BitOfMask(m - 1, i - 1);
    }
  }

  /** The bits of x & (2^m - 1) are the bits of x below m. */
  lemma BitOfWindow(x: nat, m: nat, i: nat)
    ensures Bit(And(x, Pow2(m) - 1), i) == (i < m && Bit(x, i))
  {
    BitAnd(x, Pow2(m) - 1, i);
    BitOfMask(m, i);
  }

  lemma AndPow2(x: nat, m: nat)
    ensures And(x, Pow2(m)) == if Bit(x, m) then Pow2(m) else 0
  {
    var v := if Bit(x, m) then Pow2(m) else 0;
    forall i: nat ensures Bit(And(x, Pow2(m)), i) == Bit(v, i) {
      BitAnd(x, Pow2(m), i);
      BitOfPow2(m, i);
      BitOfZero(i);
    }
    BitsDetermine(And(x, Pow2(m)), v);
  }

  /** OR of values with no common set bit is their sum. */
  lemma {:induction false} OrDisjoint(a: nat, b: nat)
    requires forall i: nat :: !(Bit(a, i) && Bit(b, i))
    ensures Or(a, b) == a + b
    decreases a
  {
    if a != 0 && b != 0 {
      assert !(Bit(a, 0) && Bit(b, 0));
      forall i: nat ensures !(Bit(a / 2, i) && Bit(b / 2, i)) {
        assert !(Bit(a, i + 1) && Bit(b, i + 1));
      }
      OrDisjoint(a / 2, b / 2);
    }
  }

  /** A value is a bit-subset of b exactly when AND-ing it with b keeps it. */
  lemma AndSubset(a: nat, b: nat)
    ensures And(a, b) == a <==> BitSubset(a, b)
  {
    if And(a, b) == a {
      forall i: nat | Bit(a, i) ensures Bit(b, i) {
        BitAnd(a, b, i);
      }
    } else if BitSubset(a, b) {
      forall i: nat ensures Bit(And(a, b), i) == Bit(a, i) {
        BitAnd(a, b, i);
      }
      BitsDetermine(And(a, b), a);
    }
  }

  lemma {:induction false} PopcountShl(x: nat, k: nat)
    ensures Popcount(Shl(x, k)) == Popcount(x)
  {
    if k > 0 {
      PopcountShl(x, k - 1);
      assert Shl(x, k) / 2 == Shl(x, k - 1);
    }
  }

  lemma {:induction false} PopcountBound(x: nat, m: nat)
    requires x < Pow2(m)
    ensures Popcount(x) <= m
  {
    if m > 0 {
      PopcountBound(x / 2, m - 1);
    }
  }

  // ---------------------------------------------------------------------
  // Counting bits below a position

  /** Counting the bits below m counts all bits of a value below 2^m. */
  lemma {:induction false} CountBitsAll(x: nat, m: nat)
    requires x < Pow2(m)
    ensures CountBits(x, m) == Popcount(x)
  {
    if m > 0 {
      CountBitsAll(x / 2, m - 1);
    } else {
      assert x == 0;
    }
  }

  lemma {:induction false} CountBitsStep(x: nat, q: nat)
    ensures CountBits(x, q + 1) == CountBits(x, q) + (if Bit(x, q) then 1 else 0)
  {
    if q > 0 {
      CountBitsStep(x / 2, q - 1);
    }
  }

  /** Values that agree below m have as many bits below m. */
  lemma {:induction false} CountBitsAgree(a: nat, b: nat, m: nat)
    requires forall i: nat :: i < m ==> Bit(a, i) == Bit(b, i)
    ensures CountBits(a, m) == CountBits(b, m)
  {
    if m > 0 {
      assert Bit(a, 0) == Bit(b, 0);
      forall i: nat | i < m - 1 ensures Bit(a / 2, i) == Bit(b / 2, i) {
        assert Bit(a, i + 1) == Bit(b, i + 1);
      }
      CountBitsAgree(a / 2, b / 2, m - 1);
    }
  }

  lemma {:induction false} CountBitsMono(x: nat, p: nat, q: nat)
    requires p <= q
    ensures CountBits(x, p) <= CountBits(x, q)
    decreases q - p
  {
    if p < q {
      CountBitsStep(x, q - 1);
      CountBitsMono(x, p, q - 1);
    }
  }

  /** No set bit in [p, q) means the count does not grow between them. */
  lemma {:induction false} CountBitsFlat(x: nat, p: nat, q: nat)
    requires p <= q
    requires forall j: nat :: p <= j < q ==> !Bit(x, j)
    ensures CountBits(x, q) == CountBits(x, p)
    decreases q - p
  {
    if p < q {
      CountBitsStep(x, q - 1);
      CountBitsFlat(x, p, q - 1);
    }
  }

  // ---------------------------------------------------------------------
  // The lowest set bit

  lemma {:induction false} LowBitIsPow2(x: nat)
    requires x > 0
    ensures LowBit(x) == Pow2(LowIndex(x))
    ensures Bit(x, LowIndex(x))
    ensures forall j: nat :: j < LowIndex(x) ==> !Bit(x, j)
  {
    if x % 2 == 0 {
      LowBitIsPow2(x / 2);
    }
  }

  /** Clearing a set bit k by subtracting 2^k. */
  lemma {:induction false} ClearBit(x: nat, k: nat, i: nat)
    requires Bit(x, k)
    ensures x >= Pow2(k)
    ensures Bit(x - Pow2(k), i) == (i != k && Bit(x, i))
    ensures Popcount(x - Pow2(k)) + 1 == Popcount(x)
    decreases k
  {
    if k == 0 {
      assert x % 2 == 1;
      if i > 0 {
        assert (x - 1) / 2 == x / 2;
      }
    } else {
      ClearBit(x / 2, k - 1, if i > 0 then i - 1 else 0);
      assert (x - Pow2(k)) / 2 == x / 2 - Pow2(k - 1);
      assert (x - Pow2(k)) % 2 == x % 2;
    }
  }

  /** XOR with a set single bit clears it. */
  lemma XorSetBit(x: nat, k: nat)
    requires Bit(x, k)
    ensures x >= Pow2(k) && Xor(x, Pow2(k)) == x - Pow2(k)
  {
    ClearBit(x, k, 0);
    forall i: nat ensures Bit(Xor(x, Pow2(k)), i) == Bit(x - Pow2(k), i) {
      BitXor(x, Pow2(k), i);
      BitOfPow2(k, i);
      ClearBit(x, k, i);
    }
    BitsDetermine(Xor(x, Pow2(k)), x - Pow2(k));
  }
}
