/** java.util.Collections.rotate and Collections.reverse, which the library
    applies in place to array-backed lists. */
module JavaCollections {

  // ---------------------------------------------------------------------
  // Euclidean remainder (Java's rotate normalises its distance the same way)

  lemma {:induction false} MulAtLeast(n: int, k: int)
    requires n > 0 && k >= 1
    ensures n * k >= n
    decreases k
  {
    if k > 1 {
      MulAtLeast(n, k - 1);
      assert n * k == n * (k - 1) + n;
    }
  }

  /** Quotient and remainder are unique. */
  lemma ModUnique(z: int, n: int, q: int, r: int)
    requires n > 0 && 0 <= r < n && z == n * q + r
    ensures z % n == r && z / n == q
  {
    var q2 := z / n;
    var r2 := z % n;
    assert z == n * q2 + r2;
    var k := q - q2;
    assert n * k == r2 - r;
    if k >= 1 {
      MulAtLeast(n, k);
      assert false;
    } else if k <= -1 {
      MulAtLeast(n, -k);
      assert false;
    }
  }

  /** Subtracting after reducing is reducing after subtracting. */
  lemma ModSub(x: int, a: int, n: int)
    requires n > 0
    ensures (x % n - a) % n == (x - a) % n
  {
    var q := x / n;
    var q2 := (x - a) / n;
    assert x == n * q + x % n;
    assert x - a == n * q2 + (x - a) % n;
    assert x % n - a == n * (q2 - q) + (x - a) % n;
    ModUnique(x % n - a, n, q2 - q, (x - a) % n);
  }

  // ---------------------------------------------------------------------
  // Specification functions

  /** The list after Collections.rotate(list, distance): the element at
      index i is the one that was at (i - distance) mod size. */
  function Rotated<T>(s: seq<T>, distance: int): (r: seq<T>)
    ensures |r| == |s|
  {
    seq(|s|, i requires 0 <= i < |s| => s[(i - distance) % |s|])
  }

  /** The list after Collections.reverse. */
  function Reversed<T>(s: seq<T>): (r: seq<T>)
    ensures |r| == |s|
  {
    seq(|s|, i requires 0 <= i < |s| => s[|s| - 1 - i])
  }

  /** Collections.rotate moves the element at index i to index
      (i + distance) mod size. */
  lemma RotatedMoves<T>(s: seq<T>, distance: int, i: int)
    requires 0 <= i < |s|
    ensures Rotated(s, distance)[(i + distance) % |s|] == s[i]
  {
    var n := |s|;
    var m := (i + distance) % n;
    ModSub(i + distance, distance, n);
    ModUnique(i, n, 0, i);
    assert (m - distance) % n == i;
  }

  /** Rotating twice rotates by the sum of the distances. */
  lemma RotatedCompose<T>(s: seq<T>, a: int, b: int)
    ensures Rotated(Rotated(s, a), b) == Rotated(s, a + b)
  {
    var n := |s|;
    forall i | 0 <= i < n
      ensures Rotated(Rotated(s, a), b)[i] == Rotated(s, a + b)[i]
    {
      var j := (i - b) % n;
      assert Rotated(Rotated(s, a), b)[i] == Rotated(s, a)[j];
      ModSub(i - b, a, n);
      assert (j - a) % n == (i - (a + b)) % n by {
        assert i - b - a == i - (a + b);
      }
    }
  }

  /** Rotating by zero changes nothing. */
  lemma RotatedZero<T>(s: seq<T>)
    ensures Rotated(s, 0) == s
  {
    forall i | 0 <= i < |s| ensures Rotated(s, 0)[i] == s[i] {
      ModUnique(i, |s|, 0, i);
    }
  }

  /** Rotating back by the same distance restores the list. */
  lemma RotatedInverse<T>(s: seq<T>, distance: int)
    ensures Rotated(Rotated(s, distance), -distance) == s
  {
    calc {
      Rotated(Rotated(s, distance), -distance);
    == { RotatedCompose(s, distance, -distance); }
      Rotated(s, distance + -distance);
    == { assert distance + -distance == 0; }
      Rotated(s, 0);
    == { RotatedZero(s); }
      s;
    }
  }

  /** Reversing twice restores the list. */
  lemma ReversedInvolution<T>(s: seq<T>)
    ensures Reversed(Reversed(s)) == s
  {
  }

  // ---------------------------------------------------------------------
  // The in-place operations

  /** Collections.rotate(list, distance) on an array-backed list. */
  method Rotate<T>(a: array<T>, distance: int)
    modifies a
    ensures a[..] == Rotated(old(a[..]), distance)
  {
    if a.Length == 0 {
      return;
    }
    var s := a[..];
    ghost var r := Rotated(s, distance);
    for i := 0 to a.Length
      invariant forall j :: 0 <= j < i ==> a[j] == r[j]
    {
      a[i] := s[(i - distance) % a.Length];
    }
    assert a[..] == r;
  }

  /** Collections.reverse: swap the ends, moving inwards. */
  method Reverse<T>(a: array<T>)
    modifies a
    ensures a[..] == Reversed(old(a[..]))
  {
    var i := 0;
    var j := a.Length - 1;
    var mid := a.Length / 2;
    while i < mid
      invariant 0 <= i <= mid && j == a.Length - 1 - i
      invariant forall k :: 0 <= k < i ==> a[k] == old(a[a.Length - 1 - k]) && a[a.Length - 1 - k] == old(a[k])
      invariant forall k :: i <= k < a.Length - i ==> a[k] == old(a[k])
    {
      a[i], a[j] := a[j], a[i];
      i := i + 1;
      j := j - 1;
    }
  }
}
