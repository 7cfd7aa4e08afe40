/** IntervalBase: a non-negative integer read as an interval or an interval
    structure (bit i set = the note i semitones above the root is present).
    The wrapped BigInteger is never updated in place, so a structure is a
    plain `nat`, and and/or/xor/shifts are the BigBits operations. */
module IntervalBase {
  import opened BigBits
  import Constants

  /** A window of max_bits for the rotations: (int) Math.pow(2, max_bits)
      is 2^max_bits exactly for 1 <= max_bits <= 30. */
  predicate ValidWidth(n: nat)
  {
    1 <= n <= 30
  }

  /** x & (2^n - 1): the bits of x inside a window of n bits. */
  function Window(x: nat, n: nat): (r: nat)
    ensures r < Pow2(n)
    ensures n >= 1 ==> r % 2 == x % 2
  {
    var r := And(x, Pow2(n) - 1);
    forall i: nat | i >= n ensures !Bit(r, i) {
      BitOfWindow(x, n, i);
    }
    BelowFromBits(r, n);
    BitOfWindow(x, n, 0);
    r
  }

  /** Bit i of the window is bit i of x below n and clear from n up. */
  lemma WindowBit(x: nat, n: nat, i: nat)
    ensures Bit(Window(x, n), i) == (i < n && Bit(x, i))
  {
    BitOfWindow(x, n, i);
  }

  /** A value that fits in the window is its own window. */
  lemma WindowOfSmall(x: nat, n: nat)
    requires x < Pow2(n)
    ensures Window(x, n) == x
  {
    forall i: nat ensures Bit(Window(x, n), i) == Bit(x, i) {
      WindowBit(x, n, i);
      if i >= n {
        BitsBelow(x, n, i);
      }
    }
    BitsDetermine(Window(x, n), x);
  }

  /** A window that is not 0 has a set bit below n. */
  lemma WindowHasBit(x: nat, n: nat) returns (j: nat)
    requires Window(x, n) != 0
    ensures j < n && Bit(x, j)
  {
    j := LowIndex(Window(x, n));
    LowBitIsPow2(Window(x, n));
    WindowBit(x, n, j);
  }

  // ---------------------------------------------------------------------
  // Rotations by one step

  /** rotateRight: ((x & (2^n - 1)) >> 1) | ((x << (n - 1)) & (2^n - 1)). */
  function RotateRight(x: nat, n: nat): (r: nat)
    requires ValidWidth(n)
    ensures r < Pow2(n)
  {
    var r := Or(Shr(And(x, Pow2(n) - 1), 1), And(Shl(x, n - 1), Pow2(n) - 1));
    forall i: nat | i >= n ensures !Bit(r, i) {
      RotateRightBitOf(x, n, i);
    }
    BelowFromBits(r, n);
    r
  }

  lemma RotateRightBitOf(x: nat, n: nat, i: nat)
    requires ValidWidth(n)
    ensures Bit(Or(Shr(And(x, Pow2(n) - 1), 1), And(Shl(x, n - 1), Pow2(n) - 1)), i)
         == ((i + 1 < n && Bit(x, i + 1)) || (i + 1 == n && Bit(x, 0)))
  {
    BitOr(Shr(And(x, Pow2(n) - 1), 1), And(Shl(x, n - 1), Pow2(n) - 1), i);
    BitShr(And(x, Pow2(n) - 1), 1, i);
    BitOfWindow(x, n, i + 1);
    BitOfWindow(Shl(x, n - 1), n, i);
    BitShl(x, n - 1, i);
  }

  /** Bit i + 1 of the window moves to bit i; bit 0 wraps round to bit n - 1. */
  lemma RotateRightBit(x: nat, n: nat, i: nat)
    requires ValidWidth(n)
    ensures Bit(RotateRight(x, n), i) == ((i + 1 < n && Bit(x, i + 1)) || (i + 1 == n && Bit(x, 0)))
  {
    RotateRightBitOf(x, n, i);
  }

  /** rotateRight keeps the number of set bits of the window. */
  lemma RotateRightPopcount(x: nat, n: nat)
    requires ValidWidth(n)
    ensures Popcount(RotateRight(x, n)) == Popcount(Window(x, n))
  {
    var r, w := RotateRight(x, n), Window(x, n);
    CountBitsAll(r, n);
    CountBitsAll(w, n);
    CountBitsStep(r, n - 1);
    RotateRightBit(x, n, n - 1);
    WindowBit(x, n, 0);
    forall i: nat | i < n - 1 ensures Bit(r, i) == Bit(x / 2, i) {
      RotateRightBit(x, n, i);
    }
    CountBitsAgree(r, x / 2, n - 1);
    forall i: nat | i < n - 1 ensures Bit(w / 2, i) == Bit(x / 2, i) {
      WindowBit(x, n, i + 1);
    }
    CountBitsAgree(w / 2, x / 2, n - 1);
  }

  /** Inside the window, rotateRight is (x >> 1) + (x mod 2) * 2^(n-1). */
  lemma RotateRightValue(x: nat, n: nat, v: nat)
    requires ValidWidth(n) && x < Pow2(n)
    requires v == x / 2 + (if x % 2 == 1 then Pow2(n - 1) else 0)
    ensures RotateRight(x, n) == v
  {
    var c := if x % 2 == 1 then Pow2(n - 1) else 0;
    forall i: nat ensures !(Bit(x / 2, i) && Bit(c, i)) && Bit(RotateRight(x, n), i) == Bit(Or(x / 2, c), i) {
      RotateRightBit(x, n, i);
      BitOr(x / 2, c, i);
      BitOfPow2(n - 1, i);
      BitOfZero(i);
      assert Bit(x, i + 1) == Bit(x / 2, i);
      if i >= n - 1 {
        BitsBelow(x / 2, n - 1, i);
      }
    }
    OrDisjoint(x / 2, c);
    BitsDetermine(RotateRight(x, n), Or(x / 2, c));
  }

  /** rotateLeft as written: ((x << 1) & (2^n - 1)) | ((x & 2^n) >> (n - 1)). */
  function RotateLeft(x: nat, n: nat): (r: nat)
    requires ValidWidth(n)
    ensures r < Pow2(n) || (n == 1 && r < 4)
  {
    var r := Or(And(Shl(x, 1), Pow2(n) - 1), Shr(And(x, Pow2(n)), n - 1));
    forall i: nat | i >= n && i >= 2 ensures !Bit(r, i) {
      RotateLeftBitOf(x, n, i);
    }
    BelowFromBits(r, if n == 1 then 2 else n);
    r
  }

  lemma RotateLeftBitOf(x: nat, n: nat, i: nat)
    requires ValidWidth(n)
    ensures Bit(Or(And(Shl(x, 1), Pow2(n) - 1), Shr(And(x, Pow2(n)), n - 1)), i)
         == ((1 <= i < n && Bit(x, i - 1)) || (i == 1 && Bit(x, n)))
  {
    BitOr(And(Shl(x, 1), Pow2(n) - 1), Shr(And(x, Pow2(n)), n - 1), i);
    BitOfWindow(Shl(x, 1), n, i);
    BitShl(x, 1, i);
    BitShr(And(x, Pow2(n)), n - 1, i);
    BitAnd(x, Pow2(n), i + n - 1);
    BitOfPow2(n, i + n - 1);
  }

  /** Bit i - 1 moves to bit i inside the window; the wrap term puts bit n,
      which lies outside the window, at bit 1, and bit 0 is always clear. */
  lemma RotateLeftBit(x: nat, n: nat, i: nat)
    requires ValidWidth(n)
    ensures Bit(RotateLeft(x, n), i) == ((1 <= i < n && Bit(x, i - 1)) || (i == 1 && Bit(x, n)))
  {
    RotateLeftBitOf(x, n, i);
  }

  /** Within the window, rotateLeft is a plain shift: (x << 1) mod 2^n. */
  lemma RotateLeftShifts(x: nat, n: nat)
    requires ValidWidth(n) && x < Pow2(n)
    ensures RotateLeft(x, n) == Window(Shl(x, 1), n)
  {
    forall i: nat ensures Bit(RotateLeft(x, n), i) == Bit(Window(Shl(x, 1), n), i) {
      RotateLeftBit(x, n, i);
      WindowBit(Shl(x, 1), n, i);
      BitShl(x, 1, i);
      BitsBelow(x, n, n);
    }
    BitsDetermine(RotateLeft(x, n), Window(Shl(x, 1), n));
  }

  /** The top bit of the window is lost, not wrapped: one set bit fewer. */
  lemma RotateLeftLosesTopBit(x: nat, n: nat)
    requires ValidWidth(n) && x < Pow2(n) && Bit(x, n - 1)
    ensures x >= Pow2(n - 1) && RotateLeft(x, n) == Shl(x - Pow2(n - 1), 1)
    ensures Popcount(RotateLeft(x, n)) + 1 == Popcount(x)
  {
    ClearBit(x, n - 1, 0);
    var y := x - Pow2(n - 1);
    forall i: nat ensures Bit(RotateLeft(x, n), i) == Bit(Shl(y, 1), i) {
      RotateLeftBit(x, n, i);
      BitShl(y, 1, i);
      BitsBelow(x, n, n);
      if i >= 1 {
        ClearBit(x, n - 1, i - 1);
        if i > n {
          BitsBelow(x, n, i - 1);
        }
      }
    }
    BitsDetermine(RotateLeft(x, n), Shl(y, 1));
    PopcountShl(y, 1);
  }

  /** rotateLeft does not undo rotateRight: an odd structure loses its root. */
  lemma RotateLeftNotInverse(x: nat, n: nat)
    requires ValidWidth(n) && x < Pow2(n) && x % 2 == 1
    ensures RotateLeft(RotateRight(x, n), n) == x - 1
  {
    var y := RotateRight(x, n);
    forall i: nat ensures Bit(RotateLeft(y, n), i) == Bit(x - 1, i) {
      RotateLeftBit(y, n, i);
      if i >= 1 {
        RotateRightBit(x, n, i - 1);
      }
      ClearBit(x, 0, i);
      BitsBelow(y, n, n);
      if i >= n {
        BitsBelow(x, n, i);
      }
    }
    BitsDetermine(RotateLeft(y, n), x - 1);
  }

  /** For instance, rotating the root C right and back left gives 0. */
  lemma RotateLeftRoundTripExample()
    ensures RotateLeft(RotateRight(1, 12), 12) == 0
  {
    assert Pow2(12) == 4096;
    RotateLeftNotInverse(1, 12);
  }

  /** rotateLeft as evidently intended: bit n - 1 wraps to bit 0,
      ((x << 1) & (2^n - 1)) | ((x & 2^(n-1)) >> (n - 1)). */
  function RotateLeftWrapped(x: nat, n: nat): (r: nat)
    requires ValidWidth(n)
    ensures r < Pow2(n)
  {
    var r := Or(And(Shl(x, 1), Pow2(n) - 1), Shr(And(x, Pow2(n - 1)), n - 1));
    forall i: nat | i >= n ensures !Bit(r, i) {
      RotateLeftWrappedBitOf(x, n, i);
    }
    BelowFromBits(r, n);
    r
  }

  lemma RotateLeftWrappedBitOf(x: nat, n: nat, i: nat)
    requires ValidWidth(n)
    ensures Bit(Or(And(Shl(x, 1), Pow2(n) - 1), Shr(And(x, Pow2(n - 1)), n - 1)), i)
         == ((1 <= i < n && Bit(x, i - 1)) || (i == 0 && Bit(x, n - 1)))
  {
    BitOr(And(Shl(x, 1), Pow2(n) - 1), Shr(And(x, Pow2(n - 1)), n - 1), i);
    BitOfWindow(Shl(x, 1), n, i);
    BitShl(x, 1, i);
    BitShr(And(x, Pow2(n - 1)), n - 1, i);
    BitAnd(x, Pow2(n - 1), i + n - 1);
    BitOfPow2(n - 1, i + n - 1);
  }

  /** Bit i - 1 moves to bit i; bit n - 1 wraps round to bit 0. */
  lemma RotateLeftWrappedBit(x: nat, n: nat, i: nat)
    requires ValidWidth(n)
    ensures Bit(RotateLeftWrapped(x, n), i) == ((1 <= i < n && Bit(x, i - 1)) || (i == 0 && Bit(x, n - 1)))
  {
    RotateLeftWrappedBitOf(x, n, i);
  }

  /** The corrected left rotation and rotateRight undo each other. */
  lemma RotationsInverse(x: nat, n: nat)
    requires ValidWidth(n)
    ensures RotateLeftWrapped(RotateRight(x, n), n) == Window(x, n)
    ensures RotateRight(RotateLeftWrapped(x, n), n) == Window(x, n)
  {
    var a, b := RotateLeftWrapped(RotateRight(x, n), n), RotateRight(RotateLeftWrapped(x, n), n);
    forall i: nat ensures Bit(a, i) == Bit(Window(x, n), i) && Bit(b, i) == Bit(Window(x, n), i) {
      WindowBit(x, n, i);
      RotateLeftWrappedBit(RotateRight(x, n), n, i);
      RotateRightBit(x, n, if i == 0 then n - 1 else i - 1);
      RotateRightBit(RotateLeftWrapped(x, n), n, i);
      RotateLeftWrappedBit(x, n, if i + 1 == n then 0 else i + 1);
    }
    BitsDetermine(a, Window(x, n));
    BitsDetermine(b, Window(x, n));
  }

  // ---------------------------------------------------------------------
  // Repeated rotations

  /** rotateRight applied k times. */
  function RotateRightTimes(x: nat, n: nat, k: nat): (r: nat)
    requires ValidWidth(n)
    ensures k >= 1 ==> r < Pow2(n)
  {
    if k == 0 then x else RotateRight(RotateRightTimes(x, n, k - 1), n)
  }

  /** Rotating right k times moves bit (i + k) mod n of the window to bit i. */
  lemma {:induction false} RotateRightTimesBits(x: nat, n: nat, k: nat, i: nat)
    requires ValidWidth(n) && k <= n && (k >= 1 || x < Pow2(n))
    ensures Bit(RotateRightTimes(x, n, k), i) == (i < n && (if i + k < n then Bit(x, i + k) else Bit(x, i + k - n)))
  {
    if k == 0 {
      if i >= n {
        BitsBelow(x, n, i);
      }
    } else {
      RotateRightBit(RotateRightTimes(x, n, k - 1), n, i);
      if k > 1 {
        RotateRightTimesBits(x, n, k - 1, i + 1);
        RotateRightTimesBits(x, n, k - 1, 0);
      }
    }
  }

  /** A full turn of n rotations gives back the window. */
  lemma RotateRightTimesFull(x: nat, n: nat)
    requires ValidWidth(n)
    ensures RotateRightTimes(x, n, n) == Window(x, n)
  {
    forall i: nat ensures Bit(RotateRightTimes(x, n, n), i) == Bit(Window(x, n), i) {
      RotateRightTimesBits(x, n, n, i);
      WindowBit(x, n, i);
    }
    BitsDetermine(RotateRightTimes(x, n, n), Window(x, n));
  }

  /** Rotating a times and then b times is rotating a + b times. */
  lemma {:induction false} RotateRightTimesAdd(x: nat, n: nat, a: nat, b: nat)
    requires ValidWidth(n)
    ensures RotateRightTimes(RotateRightTimes(x, n, a), n, b) == RotateRightTimes(x, n, a + b)
  {
    if b > 0 {
      RotateRightTimesAdd(x, n, a, b - 1);
    }
  }

  /** The corrected left rotation applied k times. */
  function RotateLeftTimes(x: nat, n: nat, k: nat): (r: nat)
    requires ValidWidth(n)
    ensures k >= 1 ==> r < Pow2(n)
  {
    if k == 0 then x else RotateLeftWrapped(RotateLeftTimes(x, n, k - 1), n)
  }

  /** Rotating left k times moves bit (i - k) mod n of the window to bit i. */
  lemma {:induction false} RotateLeftTimesBits(x: nat, n: nat, k: nat, i: nat)
    requires ValidWidth(n) && k <= n && (k >= 1 || x < Pow2(n))
    ensures Bit(RotateLeftTimes(x, n, k), i) == (i < n && (if i >= k then Bit(x, i - k) else Bit(x, i + n - k)))
  {
    if k == 0 {
      if i >= n {
        BitsBelow(x, n, i);
      }
    } else {
      RotateLeftWrappedBit(RotateLeftTimes(x, n, k - 1), n, i);
      if k > 1 {
        if i >= 1 {
          RotateLeftTimesBits(x, n, k - 1, i - 1);
        }
        RotateLeftTimesBits(x, n, k - 1, n - 1);
      }
    }
  }

  /** k left rotations undo k right rotations, and the other way round. */
  lemma RotateTimesInverse(x: nat, n: nat, k: nat)
    requires ValidWidth(n) && 1 <= k <= n
    ensures RotateLeftTimes(RotateRightTimes(x, n, k), n, k) == Window(x, n)
    ensures RotateRightTimes(RotateLeftTimes(x, n, k), n, k) == Window(x, n)
  {
    var a, b := RotateLeftTimes(RotateRightTimes(x, n, k), n, k), RotateRightTimes(RotateLeftTimes(x, n, k), n, k);
    forall i: nat ensures Bit(a, i) == Bit(Window(x, n), i) && Bit(b, i) == Bit(Window(x, n), i) {
      WindowBit(x, n, i);
      RotateLeftTimesBits(RotateRightTimes(x, n, k), n, k, i);
      RotateRightTimesBits(x, n, k, if i >= k then i - k else i + n - k);
      RotateRightTimesBits(RotateLeftTimes(x, n, k), n, k, i);
      RotateLeftTimesBits(x, n, k, if i + k < n then i + k else i + k - n);
    }
    BitsDetermine(a, Window(x, n));
    BitsDetermine(b, Window(x, n));
  }

  /** Popcount is kept by any positive number of right rotations. */
  lemma {:induction false} RotateRightTimesPopcount(x: nat, n: nat, k: nat)
    requires ValidWidth(n) && k >= 1
    ensures Popcount(RotateRightTimes(x, n, k)) == Popcount(Window(x, n))
  {
    var y := RotateRightTimes(x, n, k - 1);
    RotateRightPopcount(y, n);
    if k > 1 {
      RotateRightTimesPopcount(x, n, k - 1);
      WindowOfSmall(y, n);
    }
  }

  /** The corrected left rotation keeps the number of set bits of the window. */
  lemma RotateLeftWrappedPopcount(x: nat, n: nat)
    requires ValidWidth(n)
    ensures Popcount(RotateLeftWrapped(x, n)) == Popcount(Window(x, n))
  {
    var y := RotateLeftWrapped(x, n);
    RotationsInverse(x, n);
    RotateRightPopcount(y, n);
    WindowOfSmall(y, n);
  }

  lemma {:induction false} RotateLeftTimesPopcount(x: nat, n: nat, k: nat)
    requires ValidWidth(n) && k >= 1
    ensures Popcount(RotateLeftTimes(x, n, k)) == Popcount(Window(x, n))
  {
    var y := RotateLeftTimes(x, n, k - 1);
    RotateLeftWrappedPopcount(y, n);
    if k > 1 {
      RotateLeftTimesPopcount(x, n, k - 1);
      WindowOfSmall(y, n);
    }
  }

  /** The root (bit 0) after k right rotations is bit k mod n. */
  lemma RightRoot(x: nat, n: nat, k: nat)
    requires ValidWidth(n) && 1 <= k <= n
    ensures RotateRightTimes(x, n, k) % 2 == 1 <==> (if k < n then Bit(x, k) else Bit(x, 0))
  {
    RotateRightTimesBits(x, n, k, 0);
  }

  /** The root after k left rotations is bit n - k. */
  lemma LeftRoot(x: nat, n: nat, k: nat)
    requires ValidWidth(n) && 1 <= k <= n
    ensures RotateLeftTimes(x, n, k) % 2 == 1 <==> Bit(x, n - k)
  {
    RotateLeftTimesBits(x, n, k, 0);
  }

  // ---------------------------------------------------------------------
  // Inversions

  /** The first set bit at or above k, or n when there is none below n. */
  function NextSetBit(x: nat, k: nat, n: nat): (r: nat)
    requires k <= n
    ensures k <= r <= n
    ensures r < n ==> Bit(x, r)
    ensures forall j: nat :: k <= j < r ==> !Bit(x, j)
    decreases n - k
  {
    if k == n || Bit(x, k) then k else NextSetBit(x, k + 1, n)
  }

  /** The first step e >= k whose candidate root, bit n - e, is set
      (or n, where the candidate is bit 0). */
  function LeftStep(x: nat, k: nat, n: nat): (r: nat)
    requires k <= n
    ensures k <= r <= n
    ensures r < n ==> Bit(x, n - r)
    ensures forall p: nat :: n - r < p <= n - k ==> !Bit(x, p)
    decreases n - k
  {
    if k == n || Bit(x, n - k) then k else LeftStep(x, k + 1, n)
  }

  /** The number of right rotations previous_inversion performs: the least
      k >= 1 whose rotation is odd (has its root). */
  function RightDistance(x: nat, n: nat): (d: nat)
    requires ValidWidth(n) && Window(x, n) != 0
    ensures 1 <= d <= n
    ensures RotateRightTimes(x, n, d) % 2 == 1
    ensures forall k :: 1 <= k < d ==> RotateRightTimes(x, n, k) % 2 == 0
  {
    var d := NextSetBit(x, 1, n);
    RightDistanceFirst(x, n, d);
    d
  }

  lemma RightDistanceFirst(x: nat, n: nat, d: nat)
    requires ValidWidth(n) && Window(x, n) != 0 && d == NextSetBit(x, 1, n)
    ensures RotateRightTimes(x, n, d) % 2 == 1
    ensures forall k :: 1 <= k < d ==> RotateRightTimes(x, n, k) % 2 == 0
  {
    forall k | 1 <= k < d ensures RotateRightTimes(x, n, k) % 2 == 0 {
      RightRoot(x, n, k);
    }
    RightRoot(x, n, d);
    if d == n {
      var j := WindowHasBit(x, n);
    }
  }

  /** The number of corrected left rotations the next inversion performs. */
  function LeftDistance(x: nat, n: nat): (d: nat)
    requires ValidWidth(n) && Window(x, n) != 0
    ensures 1 <= d <= n
    ensures RotateLeftTimes(x, n, d) % 2 == 1
    ensures forall k :: 1 <= k < d ==> RotateLeftTimes(x, n, k) % 2 == 0
  {
    var d := LeftStep(x, 1, n);
    LeftDistanceFirst(x, n, d);
    d
  }

  lemma LeftDistanceFirst(x: nat, n: nat, d: nat)
    requires ValidWidth(n) && Window(x, n) != 0 && d == LeftStep(x, 1, n)
    ensures RotateLeftTimes(x, n, d) % 2 == 1
    ensures forall k :: 1 <= k < d ==> RotateLeftTimes(x, n, k) % 2 == 0
  {
    forall k | 1 <= k < d ensures RotateLeftTimes(x, n, k) % 2 == 0 {
      LeftRoot(x, n, k);
    }
    LeftRoot(x, n, d);
    if d == n {
      var j := WindowHasBit(x, n);
    }
  }

  /** previous_inversion: the nearest right rotation that has its root. */
  function RightInversion(x: nat, n: nat): (r: nat)
    requires ValidWidth(n) && Window(x, n) != 0
    ensures r % 2 == 1 && r < Pow2(n)
    ensures Popcount(r) == Popcount(Window(x, n))
  {
    RotateRightTimesPopcount(x, n, RightDistance(x, n));
    RotateRightTimes(x, n, RightDistance(x, n))
  }

  /** The next inversion as its name and documentation intend it: the
      nearest left rotation that has its root. */
  function LeftInversion(x: nat, n: nat): (r: nat)
    requires ValidWidth(n) && Window(x, n) != 0
    ensures r % 2 == 1 && r < Pow2(n)
    ensures Popcount(r) == Popcount(Window(x, n))
  {
    RotateLeftTimesPopcount(x, n, LeftDistance(x, n));
    RotateLeftTimes(x, n, LeftDistance(x, n))
  }

  /** An odd value inside the window is its own window and so not 0. */
  lemma OddWindow(x: nat, n: nat)
    requires x < Pow2(n) && x % 2 == 1
    ensures Window(x, n) == x != 0
  {
    WindowOfSmall(x, n);
  }

  /** For an interval structure (odd, inside the window) the two inversions
      undo each other. */
  lemma InversionsUndo(x: nat, n: nat)
    requires ValidWidth(n) && x < Pow2(n) && x % 2 == 1
    ensures Window(RightInversion(x, n), n) != 0 && LeftInversion(RightInversion(x, n), n) == x
    ensures Window(LeftInversion(x, n), n) != 0 && RightInversion(LeftInversion(x, n), n) == x
  {
    OddWindow(x, n);
    LeftAfterRight(x, n);
    RightAfterLeft(x, n);
  }

  /** The distances are the least rotation counts that reach an odd value. */
  lemma LeftDistanceLeast(y: nat, n: nat, d: nat)
    requires ValidWidth(n) && Window(y, n) != 0 && 1 <= d <= n
    requires RotateLeftTimes(y, n, d) % 2 == 1
    requires forall k :: 1 <= k < d ==> RotateLeftTimes(y, n, k) % 2 == 0
    ensures LeftDistance(y, n) == d
  {
  }

  lemma RightDistanceLeast(y: nat, n: nat, d: nat)
    requires ValidWidth(n) && Window(y, n) != 0 && 1 <= d <= n
    requires RotateRightTimes(y, n, d) % 2 == 1
    requires forall k :: 1 <= k < d ==> RotateRightTimes(y, n, k) % 2 == 0
    ensures RightDistance(y, n) == d
  {
  }

  lemma LeftAfterRightEven(x: nat, n: nat, d: nat, k: nat)
    requires ValidWidth(n) && x < Pow2(n) && x % 2 == 1
    requires Window(x, n) != 0 && d == RightDistance(x, n) && 1 <= k < d
    ensures RotateLeftTimes(RotateRightTimes(x, n, d), n, k) % 2 == 0
  {
    LeftRoot(RotateRightTimes(x, n, d), n, k);
    RotateRightTimesBits(x, n, d, n - k);
    RightRoot(x, n, d - k);
    assert RotateRightTimes(x, n, d - k) % 2 == 0;
  }

  lemma LeftAfterRight(x: nat, n: nat)
    requires ValidWidth(n) && x < Pow2(n) && x % 2 == 1
    ensures Window(RightInversion(x, n), n) != 0 && LeftInversion(RightInversion(x, n), n) == x
  {
    OddWindow(x, n);
    var d := RightDistance(x, n);
    var y := RightInversion(x, n);
    OddWindow(y, n);
    RotateTimesInverse(x, n, d);
    forall k | 1 <= k < d ensures RotateLeftTimes(y, n, k) % 2 == 0 {
      LeftAfterRightEven(x, n, d, k);
    }
    LeftDistanceLeast(y, n, d);
  }

  lemma RightAfterLeftEven(x: nat, n: nat, d: nat, k: nat)
    requires ValidWidth(n) && x < Pow2(n) && x % 2 == 1
    requires Window(x, n) != 0 && d == LeftDistance(x, n) && 1 <= k < d
    ensures RotateRightTimes(RotateLeftTimes(x, n, d), n, k) % 2 == 0
  {
    RightRoot(RotateLeftTimes(x, n, d), n, k);
    RotateLeftTimesBits(x, n, d, k);
    LeftRoot(x, n, d - k);
    assert RotateLeftTimes(x, n, d - k) % 2 == 0;
  }

  lemma RightAfterLeft(x: nat, n: nat)
    requires ValidWidth(n) && x < Pow2(n) && x % 2 == 1
    ensures Window(LeftInversion(x, n), n) != 0 && RightInversion(LeftInversion(x, n), n) == x
  {
    OddWindow(x, n);
    var d := LeftDistance(x, n);
    var y := LeftInversion(x, n);
    OddWindow(y, n);
    RotateTimesInverse(x, n, d);
    forall k | 1 <= k < d ensures RotateRightTimes(y, n, k) % 2 == 0 {
      RightAfterLeftEven(x, n, d, k);
    }
    RightDistanceLeast(y, n, d);
  }

  /** previous_inversion (both overloads). */
  method PreviousInversion(x: nat, n: nat) returns (r: nat)
    requires ValidWidth(n) && Window(x, n) != 0
    ensures r == RightInversion(x, n)
  {
    r := RotateRight(x, n);
    ghost var k := 1;
    while r % 2 == 0
      invariant 1 <= k <= RightDistance(x, n)
      invariant r == RotateRightTimes(x, n, k)
      decreases RightDistance(x, n) - k
    {
      r := RotateRight(r, n);
      k := k + 1;
    }
  }

  /** next_inversion (both overloads) as written: the same right rotations
      as previous_inversion. */
  method NextInversion(x: nat, n: nat) returns (r: nat)
    requires ValidWidth(n) && Window(x, n) != 0
    ensures r == RightInversion(x, n)
  {
    r := RotateRight(x, n);
    ghost var k := 1;
    while r % 2 == 0
      invariant 1 <= k <= RightDistance(x, n)
      invariant r == RotateRightTimes(x, n, k)
      decreases RightDistance(x, n) - k
    {
      r := RotateRight(r, n);
      k := k + 1;
    }
  }

  /** Because next_inversion rotates right too, it does not undo
      previous_inversion: from 1011 in 4 bits both steps give 1101, then 0111. */
  lemma NextAfterPreviousExample()
    ensures Window(11, 4) != 0 && RightInversion(11, 4) == 13
    ensures Window(13, 4) != 0 && RightInversion(13, 4) == 7
  {
    assert Pow2(4) == 16;
    OddWindow(11, 4);
    OddWindow(13, 4);
    assert Bit(11, 1);
    assert NextSetBit(11, 1, 4) == 1;
    assert RightInversion(11, 4) == RotateRight(11, 4);
    assert !Bit(13, 1) && Bit(13, 2);
    assert NextSetBit(13, 1, 4) == 2;
    assert RightInversion(13, 4) == RotateRight(RotateRight(13, 4), 4);
    RotateRightValue(11, 4, 13);
    RotateRightValue(13, 4, 14);
    RotateRightValue(14, 4, 7);
  }

  /** next_inversion with left rotations whose top bit wraps to the root. */
  method NextInversionLeft(x: nat, n: nat) returns (r: nat)
    requires ValidWidth(n) && Window(x, n) != 0
    ensures r == LeftInversion(x, n)
  {
    r := RotateLeftWrapped(x, n);
    ghost var k := 1;
    while r % 2 == 0
      invariant 1 <= k <= LeftDistance(x, n)
      invariant r == RotateLeftTimes(x, n, k)
      decreases LeftDistance(x, n) - k
    {
      r := RotateLeftWrapped(r, n);
      k := k + 1;
    }
  }

  // ---------------------------------------------------------------------
  // The cycle of inversions

  /** j successive previous inversions of x. */
  function RightIter(x: nat, n: nat, j: nat): (r: nat)
    requires ValidWidth(n) && (Window(x, n) != 0 || j == 0)
    ensures j >= 1 ==> r % 2 == 1 && r < Pow2(n) && Popcount(r) == Popcount(Window(x, n))
  {
    if j == 0 then x
    else
      var y := RightIter(x, n, j - 1);
      if j > 1 then OddWindow(y, n); RightInversion(y, n) else RightInversion(y, n)
  }

  /** j successive (corrected) next inversions of x. */
  function LeftIter(x: nat, n: nat, j: nat): (r: nat)
    requires ValidWidth(n) && (Window(x, n) != 0 || j == 0)
    ensures j >= 1 ==> r % 2 == 1 && r < Pow2(n) && Popcount(r) == Popcount(Window(x, n))
  {
    if j == 0 then x
    else
      var y := LeftIter(x, n, j - 1);
      if j > 1 then OddWindow(y, n); LeftInversion(y, n) else LeftInversion(y, n)
  }

  /** Position of the j-th set bit (counting from 0) of an interval
      structure, n once they are exhausted. */
  function SetBitPosition(x: nat, n: nat, j: nat): (r: nat)
    ensures r <= n
  {
    if j == 0 then 0
    else
      var p := SetBitPosition(x, n, j - 1);
      if p < n then NextSetBit(x, p + 1, n) else n
  }

  lemma {:induction false} SetBitPositions(x: nat, n: nat, j: nat)
    requires ValidWidth(n) && x < Pow2(n) && x % 2 == 1 && j <= Popcount(x)
    ensures CountBits(x, SetBitPosition(x, n, j)) == j
    ensures j < Popcount(x) ==> SetBitPosition(x, n, j) < n && Bit(x, SetBitPosition(x, n, j))
    ensures j == Popcount(x) ==> SetBitPosition(x, n, j) == n
  {
    var c := Popcount(x);
    CountBitsAll(x, n);
    if j == 0 {
      assert Bit(x, 0);
    } else {
      SetBitPositions(x, n, j - 1);
      var p := SetBitPosition(x, n, j - 1);
      assert SetBitPosition(x, n, j) == NextSetBit(x, p + 1, n);
      SetBitPositionStep(x, n, j, p, NextSetBit(x, p + 1, n));
    }
  }

  /** From the (j-1)-th set bit p, the next set bit q after it is the j-th. */
  lemma SetBitPositionStep(x: nat, n: nat, j: nat, p: nat, q: nat)
    requires CountBits(x, n) == Popcount(x) && 1 <= j <= Popcount(x)
    requires p < n && Bit(x, p) && CountBits(x, p) == j - 1
    requires q == NextSetBit(x, p + 1, n)
    ensures CountBits(x, q) == j
    ensures j < Popcount(x) ==> q < n && Bit(x, q)
    ensures j == Popcount(x) ==> q == n
  {
    CountBitsStep(x, p);
    CountBitsFlat(x, p + 1, q);
    if q < n {
      SetBitBelowAll(x, n, q);
    }
  }

  /** A set bit below n is not the last of the bits counted up to n. */
  lemma SetBitBelowAll(x: nat, n: nat, q: nat)
    requires q < n && Bit(x, q)
    ensures CountBits(x, q) < CountBits(x, n)
  {
    CountBitsStep(x, q);
    CountBitsMono(x, q + 1, n);
  }

  /** From the rotation to one set bit, previous_inversion reaches the
      rotation to the next set bit (or all the way round). */
  lemma RightStep(x: nat, n: nat, p: nat, q: nat)
    requires ValidWidth(n) && x < Pow2(n) && x % 2 == 1 && p < n && Bit(x, p)
    requires q == NextSetBit(x, p + 1, n)
    ensures Window(RotateRightTimes(x, n, p), n) != 0
    ensures RightInversion(RotateRightTimes(x, n, p), n) == RotateRightTimes(x, n, q)
  {
    var y := RotateRightTimes(x, n, p);
    if p == 0 {
      OddWindow(x, n);
    } else {
      RightRoot(x, n, p);
      OddWindow(y, n);
    }
    var d := q - p;
    RotateRightTimesAdd(x, n, p, d);
    assert p + d == q;
    assert RotateRightTimes(y, n, d) == RotateRightTimes(x, n, q);
    RightRoot(x, n, q);
    assert RotateRightTimes(x, n, q) % 2 == 1 by {
      if q == n {
        assert Bit(x, 0);
      }
    }
    forall k | 1 <= k < d ensures RotateRightTimes(y, n, k) % 2 == 0 {
      RightStepEven(x, n, p, q, k);
    }
    RightDistanceLeast(y, n, d);
    assert RightInversion(y, n) == RotateRightTimes(y, n, d);
  }

  lemma RightStepEven(x: nat, n: nat, p: nat, q: nat, k: nat)
    requires ValidWidth(n) && p < n && q == NextSetBit(x, p + 1, n) && 1 <= k < q - p
    ensures RotateRightTimes(RotateRightTimes(x, n, p), n, k) % 2 == 0
  {
    RotateRightTimesAdd(x, n, p, k);
    assert p + 1 <= p + k < q <= n;
    assert !Bit(x, p + k);
    RightRoot(x, n, p + k);
  }

  /** The j-th previous inversion rotates x right to its j-th set bit. */
  lemma {:induction false} RightIterPositions(x: nat, n: nat, j: nat)
    requires ValidWidth(n) && x < Pow2(n) && x % 2 == 1 && j <= Popcount(x)
    ensures Window(x, n) != 0
    ensures RightIter(x, n, j) == RotateRightTimes(x, n, SetBitPosition(x, n, j))
  {
    OddWindow(x, n);
    if j > 0 {
      RightIterPositions(x, n, j - 1);
      SetBitPositions(x, n, j - 1);
      var p := SetBitPosition(x, n, j - 1);
      RightStep(x, n, p, SetBitPosition(x, n, j));
    }
  }

  /** Popcount(x) previous inversions bring an interval structure back to itself. */
  lemma RightIterCycle(x: nat, n: nat)
    requires ValidWidth(n) && x < Pow2(n) && x % 2 == 1
    ensures Window(x, n) != 0 && RightIter(x, n, Popcount(x)) == x
  {
    RightIterPositions(x, n, Popcount(x));
    SetBitPositions(x, n, Popcount(x));
    RotateRightTimesFull(x, n);
    WindowOfSmall(x, n);
  }

  /** Next inversions walk the previous inversions backwards. */
  lemma {:induction false} LeftIterUndoes(x: nat, n: nat, m: nat, j: nat)
    requires ValidWidth(n) && x < Pow2(n) && x % 2 == 1 && j <= m
    ensures Window(x, n) != 0 && Window(RightIter(x, n, m), n) != 0
    ensures LeftIter(RightIter(x, n, m), n, j) == RightIter(x, n, m - j)
  {
    OddWindow(x, n);
    if m > 0 {
      OddWindow(RightIter(x, n, m), n);
    }
    if j > 0 {
      LeftIterUndoes(x, n, m, j - 1);
      var z := RightIter(x, n, m - j);
      if m - j > 0 {
        OddWindow(z, n);
      }
      LeftAfterRight(z, n);
    }
  }

  /** Popcount(x) next inversions bring an interval structure back to itself. */
  lemma LeftIterCycle(x: nat, n: nat)
    requires ValidWidth(n) && x < Pow2(n) && x % 2 == 1
    ensures Window(x, n) != 0 && LeftIter(x, n, Popcount(x)) == x
  {
    RightIterCycle(x, n);
    LeftIterUndoes(x, n, Popcount(x), Popcount(x));
  }

  // ---------------------------------------------------------------------
  // inversions

  /** The static inversions(interval_structure, max_bits): the loop bound is
      re-read from the structure after each step, and each step is
      next_inversion as written, so the list holds the successive previous
      inversions; for an interval structure it closes on the structure itself. */
  method Inversions(x: nat, n: nat) returns (rotations: seq<nat>)
    requires ValidWidth(n) && (x == 0 || Window(x, n) != 0)
    ensures |rotations| == Popcount(Window(x, n))
    ensures |rotations| > 0 ==> Window(x, n) != 0
    ensures forall j :: 0 <= j < |rotations| ==> rotations[j] == RightIter(x, n, j + 1)
    ensures x < Pow2(n) && x % 2 == 1 ==> |rotations| == Popcount(x) && rotations[|rotations| - 1] == x
  {
    rotations := [];
    var s := x;
    var i := 0;
    ghost var c := Popcount(Window(x, n));
    if x != 0 {
      PopcountPositive(x);
      PopcountPositive(Window(x, n));
    } else {
      WindowOfSmall(0, n);
    }
    while i < Popcount(s)
      invariant |rotations| == i
      invariant i == 0 ==> s == x
      invariant i > 0 ==> Window(x, n) != 0 && i <= c && s == RightIter(x, n, i)
      invariant forall j :: 0 <= j < i ==> rotations[j] == RightIter(x, n, j + 1)
      decreases (if i == 0 then c + 1 else c) - i
    {
      if i > 0 {
        OddWindow(s, n);
      }
      s := NextInversion(s, n);
      rotations := rotations + [s];
      i := i + 1;
    }
    if x < Pow2(n) && x % 2 == 1 {
      WindowOfSmall(x, n);
      RightIterCycle(x, n);
    }
  }

  /** The static inversions with the corrected next inversion (left
      rotations): the successive next inversions, closing on the structure. */
  method InversionsCorrected(x: nat, n: nat) returns (rotations: seq<nat>)
    requires ValidWidth(n) && (x == 0 || Window(x, n) != 0)
    ensures |rotations| == Popcount(Window(x, n))
    ensures |rotations| > 0 ==> Window(x, n) != 0
    ensures forall j :: 0 <= j < |rotations| ==> rotations[j] == LeftIter(x, n, j + 1)
    ensures x < Pow2(n) && x % 2 == 1 ==> |rotations| == Popcount(x) && rotations[|rotations| - 1] == x
  {
    rotations := [];
    var s := x;
    var i := 0;
    ghost var c := Popcount(Window(x, n));
    if x != 0 {
      PopcountPositive(x);
      PopcountPositive(Window(x, n));
    } else {
      WindowOfSmall(0, n);
    }
    while i < Popcount(s)
      invariant |rotations| == i
      invariant i == 0 ==> s == x
      invariant i > 0 ==> Window(x, n) != 0 && i <= c && s == LeftIter(x, n, i)
      invariant forall j :: 0 <= j < i ==> rotations[j] == LeftIter(x, n, j + 1)
      decreases (if i == 0 then c + 1 else c) - i
    {
      if i > 0 {
        OddWindow(s, n);
      }
      s := NextInversionLeft(s, n);
      rotations := rotations + [s];
      i := i + 1;
    }
    if x < Pow2(n) && x % 2 == 1 {
      WindowOfSmall(x, n);
      LeftIterCycle(x, n);
    }
  }

  /** The instance method inversions(max_bits): the loop bound is the bit
      count of the instance, fixed before the loop; each step is
      next_inversion as written. */
  method InstanceInversions(x: nat, n: nat) returns (rotations: seq<nat>)
    requires ValidWidth(n) && (x == 0 || Window(x, n) != 0)
    ensures |rotations| == Popcount(x)
    ensures |rotations| > 0 ==> Window(x, n) != 0
    ensures forall j :: 0 <= j < |rotations| ==> rotations[j] == RightIter(x, n, j + 1)
    ensures x < Pow2(n) && x % 2 == 1 ==> rotations[|rotations| - 1] == x
  {
    rotations := [];
    var s := x;
    var i := 0;
    if x != 0 {
      PopcountPositive(x);
    }
    while i < Popcount(x)
      invariant i <= Popcount(x) && |rotations| == i
      invariant i == 0 ==> s == x
      invariant i > 0 ==> Window(x, n) != 0 && s == RightIter(x, n, i)
      invariant forall j :: 0 <= j < i ==> rotations[j] == RightIter(x, n, j + 1)
    {
      if i > 0 {
        OddWindow(s, n);
      }
      s := NextInversion(s, n);
      rotations := rotations + [s];
      i := i + 1;
    }
    if x < Pow2(n) && x % 2 == 1 {
      RightIterCycle(x, n);
    }
  }

  /** Only 0 has no set bits. */
  lemma PopcountPositive(x: nat)
    requires x != 0
    ensures Popcount(x) >= 1
  {
    if x % 2 == 0 {
      PopcountPositive(x / 2);
    }
  }

  // ---------------------------------------------------------------------
  // Validity

  /** isValidInterval: exactly two set bits, one of them the root. */
  predicate IsValidInterval(x: nat)
  {
    Popcount(x) == 2 && x % 2 == 1
  }

  lemma {:induction false} PopcountPow2(k: nat)
    ensures Popcount(Pow2(k)) == 1
  {
    if k > 0 {
      PopcountPow2(k - 1);
      assert Pow2(k) / 2 == Pow2(k - 1);
    }
  }

  lemma {:induction false} PopcountOne(y: nat) returns (k: nat)
    requires Popcount(y) == 1
    ensures y == Pow2(k)
  {
    if y % 2 == 1 {
      if y / 2 != 0 {
        PopcountPositive(y / 2);
      }
      k := 0;
    } else {
      k := PopcountOne(y / 2);
      k := k + 1;
    }
  }

  /** The valid intervals are exactly 2^k + 1 for k >= 1: the root and the
      note k semitones above it. */
  lemma ValidIntervalExactly(x: nat)
    ensures IsValidInterval(x) <==> exists k: nat :: k >= 1 && x == Pow2(k) + 1
  {
    if IsValidInterval(x) {
      var k := PopcountOne(x / 2);
      assert x == Pow2(k + 1) + 1;
    }
    if exists k: nat :: k >= 1 && x == Pow2(k) + 1 {
      var k: nat :| k >= 1 && x == Pow2(k) + 1;
      PopcountPow2(k - 1);
      assert x / 2 == Pow2(k - 1);
    }
  }

  /** isValidIntervalStructure(max_bits, flipped_bits); flipped_bits = 0
      waives the bit-count test. */
  predicate IsValidIntervalStructure(x: nat, maxBits: int, flippedBits: int)
  {
    BitLength(x) <= maxBits && (flippedBits == 0 || Popcount(x) == flippedBits)
  }

  /** A valid structure fits in maxBits bits and has flippedBits notes. */
  lemma ValidStructureMeaning(x: nat, maxBits: int, flippedBits: int)
    ensures IsValidIntervalStructure(x, maxBits, flippedBits)
        <==> maxBits >= 0 && x < Pow2(maxBits) && (flippedBits == 0 || Popcount(x) == flippedBits)
  {
    if maxBits >= 0 {
      BitLengthBound(x, maxBits);
    }
  }

  // ---------------------------------------------------------------------
  // The iterator over the flipped bits

  /** Every position of s moved one up. */
  function Incremented(s: seq<nat>): (r: seq<nat>)
    ensures |r| == |s|
    ensures forall j :: 0 <= j < |s| ==> r[j] == s[j] + 1
  {
    if |s| == 0 then [] else [s[0] + 1] + Incremented(s[1..])
  }

  /** The set bits of x in ascending order. */
  function SetBits(x: nat): (r: seq<nat>)
    ensures |r| == Popcount(x)
  {
    if x == 0 then []
    else if x % 2 == 1 then [0] + Incremented(SetBits(x / 2))
    else Incremented(SetBits(x / 2))
  }

  /** A set bit p is the entry of SetBits after the CountBits(x, p) set bits
      below it. */
  lemma {:induction false} SetBitsIndex(x: nat, p: nat)
    requires Bit(x, p)
    ensures CountBits(x, p) < |SetBits(x)| && SetBits(x)[CountBits(x, p)] == p
  {
    if p > 0 {
      SetBitsIndex(x / 2, p - 1);
      assert x > 0;
      SetBitsIndexStep(x, p);
    } else {
      assert x % 2 == 1 && CountBits(x, p) == 0;
      assert SetBits(x) == [0] + Incremented(SetBits(x / 2));
    }
  }

  /** The inductive step of SetBitsIndex: one bit further up. */
  lemma SetBitsIndexStep(x: nat, p: nat)
    requires p > 0 && x > 0
    requires CountBits(x / 2, p - 1) < |SetBits(x / 2)| && SetBits(x / 2)[CountBits(x / 2, p - 1)] == p - 1
    ensures CountBits(x, p) < |SetBits(x)| && SetBits(x)[CountBits(x, p)] == p
  {
    var c := CountBits(x / 2, p - 1);
    var t := Incremented(SetBits(x / 2));
    assert c < |t| && t[c] == p;
    if x % 2 == 1 {
      SetBitsIndexOdd(x, p, c, t);
    } else {
      SetBitsIndexEven(x, p, c, t);
    }
  }

  lemma SetBitsIndexOdd(x: nat, p: nat, c: nat, t: seq<nat>)
    requires p > 0 && x % 2 == 1
    requires c == CountBits(x / 2, p - 1) && t == Incremented(SetBits(x / 2))
    requires c < |t| && t[c] == p
    ensures CountBits(x, p) < |SetBits(x)| && SetBits(x)[CountBits(x, p)] == p
  {
    assert CountBits(x, p) == c + 1 && SetBits(x) == [0] + t;
  }

  lemma SetBitsIndexEven(x: nat, p: nat, c: nat, t: seq<nat>)
    requires p > 0 && x > 0 && x % 2 == 0
    requires c == CountBits(x / 2, p - 1) && t == Incremented(SetBits(x / 2))
    requires c < |t| && t[c] == p
    ensures CountBits(x, p) < |SetBits(x)| && SetBits(x)[CountBits(x, p)] == p
  {
    assert CountBits(x, p) == c && SetBits(x) == t;
  }

  /** SetBits lists only set bits. */
  lemma {:induction false} SetBitsSound(x: nat)
    ensures forall j :: 0 <= j < |SetBits(x)| ==> Bit(x, SetBits(x)[j])
  {
    if x != 0 {
      SetBitsSound(x / 2);
      var rest := SetBits(x / 2);
      forall j | 0 <= j < |rest| ensures Bit(x, rest[j] + 1) {
        assert Bit(x / 2, rest[j]);
      }
    }
  }

  /** SetBits lists every set bit: the index where it lists p. */
  lemma {:induction false} SetBitsComplete(x: nat, p: nat) returns (j: nat)
    requires Bit(x, p)
    ensures j < |SetBits(x)| && SetBits(x)[j] == p
  {
    if x == 0 {
      BitOfZero(p);
    } else if p == 0 {
      j := 0;
    } else {
      assert Bit(x / 2, p - 1);
      var i := SetBitsComplete(x / 2, p - 1);
      j := if x % 2 == 1 then i + 1 else i;
    }
  }

  /** SetBits is strictly ascending. */
  lemma {:induction false} SetBitsAscending(x: nat)
    ensures forall j, k :: 0 <= j < k < |SetBits(x)| ==> SetBits(x)[j] < SetBits(x)[k]
  {
    if x != 0 {
      SetBitsAscending(x / 2);
    }
  }

  /** SetBits lists exactly the set bits, each once, in ascending order. */
  lemma SetBitsSpec(x: nat)
    ensures forall j :: 0 <= j < |SetBits(x)| ==> Bit(x, SetBits(x)[j])
    ensures forall p: nat :: Bit(x, p) ==> p in SetBits(x)
    ensures forall j, k :: 0 <= j < k < |SetBits(x)| ==> SetBits(x)[j] < SetBits(x)[k]
  {
    SetBitsSound(x);
    SetBitsAscending(x);
    forall p: nat | Bit(x, p) ensures p in SetBits(x) {
      var j := SetBitsComplete(x, p);
    }
  }

  /** Taking the lowest set bit off x takes the first position off SetBits. */
  lemma {:induction false} SetBitsLow(x: nat)
    requires x > 0
    ensures LowBit(x) <= x
    ensures SetBits(x) == [LowIndex(x)] + SetBits(x - LowBit(x))
  {
    if x % 2 == 1 {
      SetBitsLowOdd(x);
    } else {
      SetBitsLow(x / 2);
      assert LowBit(x) == 2 * LowBit(x / 2);
      SetBitsLowEven(x);
    }
  }

  /** An odd value: bit 0 is the lowest. */
  lemma SetBitsLowOdd(x: nat)
    requires x % 2 == 1
    ensures LowBit(x) <= x
    ensures SetBits(x) == [LowIndex(x)] + SetBits(x - LowBit(x))
  {
    var y := x / 2;
    assert LowIndex(x) == 0 && LowBit(x) == 1 && x - 1 == 2 * y;
    SetBitsDouble(y);
  }

  /** A positive even value: the lowest bit is one above that of its half. */
  lemma SetBitsLowEven(x: nat)
    requires x > 0 && x % 2 == 0
    requires LowBit(x / 2) <= x / 2
    requires SetBits(x / 2) == [LowIndex(x / 2)] + SetBits(x / 2 - LowBit(x / 2))
    ensures SetBits(x) == [LowIndex(x)] + SetBits(x - LowBit(x))
  {
    var y := x / 2;
    var z := y - LowBit(y);
    assert LowBit(x) == 2 * LowBit(y) && LowIndex(x) == 1 + LowIndex(y);
    assert x - LowBit(x) == 2 * z && x == 2 * y;
    assert SetBits(y) == [LowIndex(y)] + SetBits(z);
    SetBitsDoubleCons(x, y, z, LowIndex(y));
  }

  /** Doubling keeps the split of SetBits at its first position. */
  lemma SetBitsDoubleCons(x: nat, y: nat, z: nat, k: nat)
    requires x > 0 && x == 2 * y && x - LowBit(x) == 2 * z && LowIndex(x) == k + 1
    requires SetBits(y) == [k] + SetBits(z)
    ensures SetBits(x) == [LowIndex(x)] + SetBits(x - LowBit(x))
  {
    SetBitsDouble(y);
    SetBitsDouble(z);
    IncrementedCons(k, SetBits(z));
  }

  /** Doubling shifts every set bit up by one. */
  lemma SetBitsDouble(z: nat)
    ensures SetBits(2 * z) == Incremented(SetBits(z))
  {
    if z != 0 {
      assert (2 * z) / 2 == z && (2 * z) % 2 == 0;
    }
  }

  lemma IncrementedCons(a: nat, s: seq<nat>)
    ensures Incremented([a] + s) == [a + 1] + Incremented(s)
  {
    assert ([a] + s)[1..] == s;
  }

  /** The item the iterator yields for bit k: the interval from the root to
      bit k, or the root itself for bit 0. */
  function BitItem(k: nat): (r: nat)
    ensures r % 2 == 1
    ensures k == 0 ==> r == 1
    ensures k >= 1 ==> IsValidInterval(r) && Bit(r, k)
  {
    if k == 0 then 1
    else
      assert Pow2(k) % 2 == 0;
      ValidIntervalExactly(Pow2(k) + 1);
      assert (Pow2(k) + 1) / 2 == Pow2(k - 1);
      BitOfPow2(k - 1, k - 1);
      Pow2(k) + 1
  }

  /** What iterating over x yields, in order. */
  function Items(x: nat): (r: seq<nat>)
    ensures |r| == Popcount(x)
  {
    ItemsOf(SetBits(x))
  }

  /** The item of each bit index in a list. */
  function ItemsOf(bits: seq<nat>): (r: seq<nat>)
    ensures |r| == |bits|
    ensures forall j :: 0 <= j < |bits| ==> r[j] == BitItem(bits[j])
  {
    seq(|bits|, j requires 0 <= j < |bits| => BitItem(bits[j]))
  }

  /** Every item is the root or a valid interval, one per set bit, in
      ascending order of their upper notes. */
  lemma ItemsSpec(x: nat)
    ensures forall j :: 0 <= j < |Items(x)| ==> Items(x)[j] == 1 || IsValidInterval(Items(x)[j])
    ensures forall j, k :: 0 <= j < k < |Items(x)| ==> Items(x)[j] < Items(x)[k]
  {
    SetBitsSpec(x);
    forall j, k | 0 <= j < k < |Items(x)| ensures Items(x)[j] < Items(x)[k] {
      Pow2Mono(SetBits(x)[j], SetBits(x)[k]);
    }
  }

  lemma {:induction false} Pow2Mono(a: nat, b: nat)
    requires a < b
    ensures Pow2(a) < Pow2(b)
  {
    if a + 1 < b {
      Pow2Mono(a, b - 1);
    }
  }

  /** The iterator of IntervalBase, holding the bits still to be visited. */
  class BitIterator {
    var integer: nat

    constructor (value: nat)
      ensures integer == value
    {
      integer := value;
    }

    /** hasNext: some bit is left, that is, some item is still to come. */
    function HasNext(): (r: bool)
      reads this
      ensures r <==> |Items(integer)| > 0
    {
      if integer != 0 then PopcountPositive(integer); true else false
    }

    /** next: isolate the lowest bit, x & (~x + 1), clear it with xor, and
        yield it, turned into an interval with the root if it is not the root.
        An exhausted iterator yields 1. */
    method Next() returns (item: nat)
      modifies this
      ensures old(integer) != 0 ==> Items(old(integer)) == [item] + Items(integer)
      ensures old(integer) != 0 ==> integer < old(integer)
      ensures old(integer) == 0 ==> integer == 0 && item == 1
    {
      var current := LowBit(integer);
      if integer != 0 {
        NextStep(integer, current, if current % 2 == 0 then current + 1 else current);
      }
      integer := Xor(integer, current);
      item := if current % 2 == 0 then current + 1 else current;
    }
  }

  /** One step of next on a non-zero value: clearing the lowest bit leaves a
      smaller value whose items are the rest of the items. */
  lemma NextStep(x: nat, current: nat, item: nat)
    requires x != 0 && current == LowBit(x)
    requires item == if current % 2 == 0 then current + 1 else current
    ensures Xor(x, current) < x
    ensures Items(x) == [item] + Items(Xor(x, current))
  {
    var k := LowIndex(x);
    LowBitIsPow2(x);
    XorSetBit(x, k);
    SetBitsLow(x);
    assert item == BitItem(k) by {
      if k > 0 {
        assert Pow2(k) % 2 == 0;
      }
    }
    ItemsCons(x, Xor(x, current), k);
  }

  /** Items follow SetBits entry by entry. */
  lemma ItemsCons(x: nat, y: nat, k: nat)
    requires SetBits(x) == [k] + SetBits(y)
    ensures Items(x) == [BitItem(k)] + Items(y)
  {
    ItemsOfCons(k, SetBits(y));
  }

  lemma ItemsOfCons(k: nat, bits: seq<nat>)
    ensures ItemsOf([k] + bits) == [BitItem(k)] + ItemsOf(bits)
  {
    assert forall j :: 0 < j <= |bits| ==> ([k] + bits)[j] == bits[j - 1];
  }

  /** A for-each loop over a structure: it collects exactly Items(value). */
  method Decompose(value: nat) returns (items: seq<nat>)
    ensures items == Items(value)
  {
    var it := new BitIterator(value);
    items := [];
    while it.HasNext()
      invariant items + Items(it.integer) == Items(value)
      decreases it.integer
    {
      var item := it.Next();
      items := items + [item];
    }
  }

  /** The two bits of an item: the root and bit k. */
  lemma BitItemBit(k: nat, i: nat)
    ensures Bit(BitItem(k), i) == (i == 0 || i == k)
  {
    if k == 0 {
      if i > 0 {
        BitOfZero(i - 1);
      }
    } else if i > 0 {
      assert Pow2(k) % 2 == 0;
      assert (Pow2(k) + 1) / 2 == Pow2(k - 1);
      BitOfPow2(k - 1, i - 1);
    }
  }

  // ---------------------------------------------------------------------
  // reduce

  /** reduce: the stream's left fold of or, starting from 0. */
  function Reduce(intervals: seq<nat>): (r: nat)
    ensures |intervals| == 0 ==> r == 0
  {
    if |intervals| == 0 then 0
    else Or(Reduce(intervals[..|intervals| - 1]), intervals[|intervals| - 1])
  }

  /** A bit is set in the reduction exactly when some interval has it. */
  lemma {:induction false} ReduceBit(intervals: seq<nat>, i: nat)
    ensures Bit(Reduce(intervals), i) <==> exists j :: 0 <= j < |intervals| && Bit(intervals[j], i)
  {
    if |intervals| == 0 {
      BitOfZero(i);
    } else {
      var front := intervals[..|intervals| - 1];
      ReduceBit(front, i);
      BitOr(Reduce(front), intervals[|intervals| - 1], i);
      if exists j :: 0 <= j < |intervals| && Bit(intervals[j], i) {
        var j :| 0 <= j < |intervals| && Bit(intervals[j], i);
        if j < |intervals| - 1 {
          assert front[j] == intervals[j];
        }
      }
    }
  }

  /** The reduction is the least structure containing every interval. */
  lemma ReduceLeastUpperBound(intervals: seq<nat>, y: nat)
    ensures forall j :: 0 <= j < |intervals| ==> BitSubset(intervals[j], Reduce(intervals))
    ensures (forall j :: 0 <= j < |intervals| ==> BitSubset(intervals[j], y)) ==> BitSubset(Reduce(intervals), y)
  {
    forall j, i: nat | 0 <= j < |intervals| && Bit(intervals[j], i) ensures Bit(Reduce(intervals), i) {
      ReduceBit(intervals, i);
    }
    forall i: nat ensures Bit(Reduce(intervals), i) ==> exists j :: 0 <= j < |intervals| && Bit(intervals[j], i) {
      ReduceBit(intervals, i);
    }
  }

  /** Reducing what the iterator yields gives back the structure, with the
      root added. */
  lemma ReduceItems(x: nat)
    requires x != 0
    ensures Reduce(Items(x)) == Or(x, 1)
  {
    forall i: nat ensures Bit(Reduce(Items(x)), i) == Bit(Or(x, 1), i) {
      ReduceItemsBit(x, i);
    }
    BitsDetermine(Reduce(Items(x)), Or(x, 1));
  }

  lemma ReduceItemsBit(x: nat, i: nat)
    requires x != 0
    ensures Bit(Reduce(Items(x)), i) == Bit(Or(x, 1), i)
  {
    SetBitsSpec(x);
    PopcountPositive(x);
    var items := Items(x);
    ReduceBit(items, i);
    BitOr(x, 1, i);
    BitOfPow2(0, i);
    if i == 0 {
      BitItemBit(SetBits(x)[0], 0);
      assert Bit(items[0], 0);
    } else {
      if Bit(x, i) {
        var j :| 0 <= j < |SetBits(x)| && SetBits(x)[j] == i;
        BitItemBit(i, i);
        assert Bit(items[j], i);
      }
      if exists j :: 0 <= j < |items| && Bit(items[j], i) {
        var j :| 0 <= j < |items| && Bit(items[j], i);
        BitItemBit(SetBits(x)[j], i);
      }
    }
  }

  // ---------------------------------------------------------------------
  // transpose_interval

  /** BigInteger.shiftRight: division by 2^k rounding down. */
  function FloorShr(v: int, k: nat): (r: int)
    decreases k
  {
    if k == 0 then v else FloorShr(v / 2, k - 1)
  }

  /** BigInteger.shiftLeft for either sign of value and distance. */
  function ShiftLeftInt(v: int, s: int): (r: int)
  {
    if s < 0 then FloorShr(v, -s)
    else if v >= 0 then Shl(v, s)
    else -(Shl(-v, s) as int)
  }

  /** transpose_interval(octave, echo): drop the root unless echo, shift up
      by TONES * octave and put the root back. */
  function TransposeInterval(x: nat, octave: int, echo: bool): (r: int)
    ensures x >= 1 && octave >= 0 ==> r >= 1
  {
    ShiftLeftInt(x + (if echo then 0 else -1), Constants.TONES * octave) + 1
  }

  /** An even value plus one: the root added to the same bits. */
  lemma AddRoot(z: nat, i: nat)
    requires z % 2 == 0
    ensures Bit(z + 1, i) == (i == 0 || Bit(z, i))
    ensures Popcount(z + 1) == Popcount(z) + 1
  {
    if i > 0 {
      assert (z + 1) / 2 == z / 2;
    }
  }

  /** Transposing a structure up by octave >= 1 octaves moves each note above
      the root up 12 * octave semitones; the root stays, and reappears at the
      new octave only with echo. */
  lemma TransposeBits(x: nat, octave: int, echo: bool, i: nat)
    requires x % 2 == 1 && octave >= 1
    ensures TransposeInterval(x, octave, echo) >= 1
    ensures var k := 12 * octave;
      Bit(TransposeInterval(x, octave, echo) as nat, i)
        == (i == 0 || (i >= k && Bit(x, i - k) && (echo || i > k)))
  {
    var k := 12 * octave;
    var v: nat := if echo then x else x - 1;
    BitShl(v, k, 0);
    BitShl(v, k, i);
    AddRoot(Shl(v, k), i);
    if !echo && i >= k {
      ClearBit(x, 0, i - k);
    }
  }

  /** One more note with echo, the same number without. */
  lemma TransposePopcount(x: nat, octave: int, echo: bool)
    requires x % 2 == 1 && octave >= 1
    ensures TransposeInterval(x, octave, echo) >= 1
    ensures Popcount(TransposeInterval(x, octave, echo) as nat) == Popcount(x) + (if echo then 1 else 0)
  {
    var k := 12 * octave;
    var v: nat := if echo then x else x - 1;
    BitShl(v, k, 0);
    AddRoot(Shl(v, k), 0);
    PopcountShl(v, k);
    ClearBit(x, 0, 0);
  }

  /** At octave 0 the structure is unchanged without echo, and gains the
      root again (plus one) with it. */
  lemma TransposeZeroOctaves(x: nat, echo: bool)
    requires x >= 1
    ensures TransposeInterval(x, 0, echo) == if echo then x + 1 else x
  {
  }
}
