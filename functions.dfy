/** The miscellaneous list and string helpers of Functions. */
module Functions {
  import opened JavaText
  import opened JavaCollections

  /** Rotating by minus the index of a member brings it to the front,
      followed by the rest of the list in cyclic order. */
  lemma RotatedToFront<T>(list: seq<T>, p: int, r: seq<T>)
    requires 0 <= p < |list| && r == Rotated(list, -p)
    ensures r == list[p..] + list[..p]
  {
    var n := |list|;
    forall j | 0 <= j < n ensures r[j] == (list[p..] + list[..p])[j] {
      if j < n - p {
        ModUnique(j + p, n, 0, j + p);
      } else {
        ModUnique(j + p, n, 1, j + p - n);
      }
      assert j - -p == j + p;
    }
  }

  /** Rotating by one brings the last element to the front. */
  lemma RotatedByOne<T>(list: seq<T>)
    requires |list| > 0
    ensures Rotated(list, 1) == [list[|list| - 1]] + list[..|list| - 1]
  {
    var n := |list|;
    ModUnique(-1, n, -1, n - 1);
    forall j | 1 <= j < n ensures Rotated(list, 1)[j] == list[j - 1] {
      ModUnique(j - 1, n, 0, j - 1);
    }
  }

  /** rotateList: a copy of the list rotated so that newFirstMember (when
      present) comes first; the caller's list is a value and stays as it
      was. */
  method RotateList<T(==)>(list: seq<T>, newFirstMember: T) returns (r: seq<T>)
    ensures |r| == |list|
    ensures newFirstMember in list ==>
      r == list[IndexOf(list, newFirstMember)..] + list[..IndexOf(list, newFirstMember)]
    ensures newFirstMember !in list && |list| > 0 ==> r == [list[|list| - 1]] + list[..|list| - 1]
  {
    var copy := new T[|list|](i requires 0 <= i < |list| => list[i]);
    assert copy[..] == list;
    var modifier := -1;
    var p := IndexOf(list, newFirstMember);
    assert modifier * p == -p;
    Rotate(copy, modifier * p);
    r := copy[..];
    if p >= 0 {
      RotatedToFront(list, p, r);
    } else if |list| > 0 {
      assert r == Rotated(list, 1);
      RotatedByOne(list);
    }
  }

  /** A rotated list is a permutation of the original, with newFirstMember
      at its head when present. */
  lemma RotateListFront<T>(list: seq<T>, p: int)
    requires 0 <= p < |list|
    ensures (list[p..] + list[..p])[0] == list[p]
    ensures multiset(list[p..] + list[..p]) == multiset(list)
  {
    assert list == list[..p] + list[p..];
  }

  /** repeatList: n copies of the list one after another; none for n <= 0. */
  method RepeatList<T>(list: seq<T>, n: int) returns (r: seq<T>)
    ensures |r| == (if n > 0 then n * |list| else 0)
    ensures forall j :: 0 <= j < |r| ==> r[j] == list[j % |list|]
  {
    r := [];
    var i := 0;
    while i < n
      invariant 0 <= i <= (if n > 0 then n else 0)
      invariant |r| == i * |list|
      invariant forall j :: 0 <= j < |r| ==> r[j] == list[j % |list|]
    {
      ghost var before := r;
      r := r + list;
      forall j | |before| <= j < |r| ensures r[j] == list[j % |list|] {
        ModUnique(j, |list|, i, j - |before|);
      }
      i := i + 1;
    }
  }

  /** The string after String.replaceFirst(sub, replacement), for a
      literal sub that occurs at position p. */
  function ReplaceAt(s: string, sub: string, replacement: string, p: nat): (r: string)
    requires OccursAt(s, sub, p)
    ensures |r| == |s| - |sub| + |replacement|
    ensures r[..p] == s[..p] && r[p + |replacement|..] == s[p + |sub|..]
  {
    s[..p] + replacement + s[p + |sub|..]
  }

  /** Removing one occurrence of a single character removes one copy of it
      and nothing else. */
  lemma RemoveOne(s: string, c: char, p: nat)
    requires OccursAt(s, [c], p)
    ensures multiset(ReplaceAt(s, [c], "", p)) == multiset(s) - multiset{c}
  {
    assert s == s[..p] + [c] + s[p + 1..];
    assert ReplaceAt(s, [c], "", p) == s[..p] + s[p + 1..];
  }

  /** Without an occurrence of [c] the character does not occur. */
  lemma NoOccurrence(s: string, c: char)
    requires Find(s, [c]) == -1
    ensures multiset(s)[c] == 0
  {
    if c in s {
      var q :| 0 <= q < |s| && s[q] == c;
      assert OccursAt(s, [c], q);
    }
  }

  /** One round of countSubstring: remove the first occurrence. */
  lemma RemovalStep(s: string, sub: string, p: nat)
    requires |sub| > 0 && OccursAt(s, sub, p)
    ensures |ReplaceAt(s, sub, "", p)| + |sub| == |s|
    ensures |sub| == 1 ==>
      multiset(ReplaceAt(s, sub, "", p))[sub[0]] + 1 == multiset(s)[sub[0]]
  {
    if |sub| == 1 {
      assert sub == [sub[0]];
      RemoveOne(s, sub[0], p);
    }
  }

  /** countSubstring: remove the first occurrence of sub until none is left,
      counting the removals. For a single character that is the number of
      its occurrences; in general each removal takes |sub| characters. */
  method CountSubstring(mainString: string, subString: string) returns (count: nat)
    requires |subString| > 0
    ensures count == 0 <==> Find(mainString, subString) == -1
    ensures count * |subString| <= |mainString|
    ensures |subString| == 1 ==> count == multiset(mainString)[subString[0]]
  {
    count := 0;
    var current := mainString;
    var p := Find(current, subString);
    while p > -1
      invariant p == Find(current, subString)
      invariant count * |subString| + |current| == |mainString|
      invariant count == 0 <==> current == mainString
      invariant count == 0 ==> p == Find(mainString, subString)
      invariant Find(mainString, subString) == -1 ==> count == 0
      invariant |subString| == 1 ==>
        count + multiset(current)[subString[0]] == multiset(mainString)[subString[0]]
      decreases |current|
    {
      RemovalStep(current, subString, p);
      current := ReplaceAt(current, subString, "", p);
      count := count + 1;
      p := Find(current, subString);
    }
    if |subString| == 1 {
      assert subString == [subString[0]];
      NoOccurrence(current, subString[0]);
    }
  }
}
