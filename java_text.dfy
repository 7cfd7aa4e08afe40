/** The java.lang.String and java.util.List operations the library calls,
    on literal strings and sequences. */
module JavaText {

  /** String.repeat(n): n copies of s. */
  function Repeat(s: string, n: nat): (r: string)
    ensures |r| == n * |s|
    ensures |s| == 1 ==> forall j :: 0 <= j < |r| ==> r[j] == s[0]
  {
    if n == 0 then "" else s + Repeat(s, n - 1)
  }

  /** List.indexOf: the first index holding x, or -1. */
  function IndexOf<T(==)>(s: seq<T>, x: T): (r: int)
    ensures -1 <= r < |s|
    ensures r == -1 <==> x !in s
    ensures r >= 0 ==> s[r] == x && x !in s[..r]
  {
    if |s| == 0 then -1
    else if s[0] == x then 0
    else
      var k := IndexOf(s[1..], x);
      if k < 0 then -1
      else
        assert s[..k + 1] == [s[0]] + s[1..][..k];
        k + 1
  }

  /** sub occurs in s at position p. */
  predicate OccursAt(s: string, sub: string, p: nat)
  {
    p + |sub| <= |s| && s[p..p + |sub|] == sub
  }

  /** String.indexOf(sub) searching from position p: the first occurrence at
      or after p, or -1. */
  function FindFrom(s: string, sub: string, p: nat): (r: int)
    requires p <= |s|
    ensures r == -1 || (p <= r <= |s| && OccursAt(s, sub, r))
    ensures r == -1 ==> forall q: nat :: p <= q <= |s| ==> !OccursAt(s, sub, q)
    ensures r >= 0 ==> forall q: nat :: p <= q < r ==> !OccursAt(s, sub, q)
    decreases |s| - p
  {
    if OccursAt(s, sub, p) then p
    else if p == |s| then -1
    else FindFrom(s, sub, p + 1)
  }

  /** String.indexOf(sub). */
  function Find(s: string, sub: string): (r: int)
    ensures r == -1 || (0 <= r <= |s| && OccursAt(s, sub, r))
    ensures r == -1 <==> forall q: nat :: q <= |s| ==> !OccursAt(s, sub, q)
    ensures r >= 0 ==> forall q: nat :: q < r ==> !OccursAt(s, sub, q)
  {
    FindFrom(s, sub, 0)
  }

  /** Character.isDigit, restricted to the ASCII digits. */
  predicate IsDigit(c: char)
  {
    '0' <= c <= '9'
  }

  function DigitChar(d: nat): (c: char)
    requires d < 10
    ensures IsDigit(c)
  {
    ('0' as int + d) as char
  }

  function NatToString(n: nat): (r: string)
    ensures |r| >= 1
    ensures forall j :: 0 <= j < |r| ==> IsDigit(r[j])
    decreases n
  {
    if n < 10 then [DigitChar(n)] else NatToString(n / 10) + [DigitChar(n % 10)]
  }

  /** Integer.toString. */
  function IntToString(n: int): (r: string)
    ensures n >= 0 ==> r == NatToString(n)
  {
    if n < 0 then "-" + NatToString(-n) else NatToString(n)
  }
}
