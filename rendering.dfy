/** Rendering.renderPlain: the note names of a structure's set bits. */
module Rendering {
  import opened BigBits
  import opened Wrappers
  import IntervalBase
  import Constants
  import Functions
  import JavaCollections
  import Nomenclature

  /** The length of the scale renderPlain reads from: the scale itself, or
      size / 12 + 1 copies of it when the structure is longer. */
  function ScaleLength(structure: nat, scale: seq<string>): (r: nat)
    ensures r >= |scale|
  {
    if BitLength(structure) > |scale| then (|scale| / Constants.TONES + 1) * |scale| else |scale|
  }

  /** Names read from a scale that repeats chromaticScale are names of
      chromaticScale at the index modulo its length. */
  lemma ReadRepeated(positions: seq<int>, scale: seq<string>, chromaticScale: seq<string>, rendering: seq<string>)
    requires forall p :: 0 <= p < |scale| ==> |chromaticScale| > 0 && scale[p] == chromaticScale[p % |chromaticScale|]
    requires |rendering| <= |positions|
    requires forall j :: 0 <= j < |rendering| ==> 0 <= positions[j] < |scale| && rendering[j] == scale[positions[j]]
    ensures forall j :: 0 <= j < |rendering| ==>
      |chromaticScale| > 0 && rendering[j] == chromaticScale[positions[j] % |chromaticScale|]
  {
  }

  /** After bit indices 0 .. i-1 the rendering holds the names of the set
      bits below i, all of which lie inside the scale. */
  predicate RenderedBelow(structure: nat, scale: seq<string>, rendering: seq<string>, i: nat)
  {
    && |rendering| == CountBits(structure, i)
    && (forall p: nat :: p < i && Bit(structure, p) ==> p < |scale|)
    && (forall j :: 0 <= j < |rendering| && j < |IntervalBase.SetBits(structure)| ==>
         0 <= IntervalBase.SetBits(structure)[j] < |scale| && rendering[j] == scale[IntervalBase.SetBits(structure)[j]])
  }

  /** One column of the rendering loop: the column test is the bit test. */
  lemma RenderStep(structure: nat, scale: seq<string>, rendering: seq<string>, i: nat)
    requires RenderedBelow(structure, scale, rendering, i)
    ensures And(structure, Pow2(i)) == Pow2(i) <==> Bit(structure, i)
    ensures !Bit(structure, i) ==> RenderedBelow(structure, scale, rendering, i + 1)
    ensures Bit(structure, i) && i < |scale| ==> RenderedBelow(structure, scale, rendering + [scale[i]], i + 1)
    ensures Bit(structure, i) && i >= |scale| ==> BitLength(structure) > |scale|
  {
    AndPow2(structure, i);
    CountBitsStep(structure, i);
    if Bit(structure, i) {
      BitLengthTop(structure, i);
      if i < |scale| {
        RenderTake(structure, scale, rendering, i);
      }
    }
  }

  /** A set column inside the scale appends its name. */
  lemma RenderTake(structure: nat, scale: seq<string>, rendering: seq<string>, i: nat)
    requires RenderedBelow(structure, scale, rendering, i)
    requires Bit(structure, i) && i < |scale|
    ensures RenderedBelow(structure, scale, rendering + [scale[i]], i + 1)
  {
    CountBitsStep(structure, i);
    IntervalBase.SetBitsIndex(structure, i);
    var next := rendering + [scale[i]];
    var positions := IntervalBase.SetBits(structure);
    assert positions[|rendering|] == i;
    assert forall j :: 0 <= j < |rendering| && j < |positions| ==>
      0 <= positions[j] < |scale| && rendering[j] == scale[positions[j]];
    forall j | 0 <= j < |next| && j < |positions|
      ensures 0 <= positions[j] < |scale| && next[j] == scale[positions[j]]
    {
      if j < |rendering| {
        assert next[j] == rendering[j];
      } else {
        assert j == |rendering| && next[j] == scale[i];
      }
    }
  }

  /** renderPlain(structure, scale): for each bit index below bitLength
      whose column 1 << i is in the structure, the name at that index of
      the (repeated) scale. A set bit past the end of the scale makes
      List.get throw. */
  method RenderPlain(structure: nat, chromaticScale: seq<string>) returns (r: Result<seq<string>>)
    requires BitLength(structure) <= 31
    ensures r.Ok? <==> BitLength(structure) <= ScaleLength(structure, chromaticScale)
    ensures r.Err? ==> r.error == IndexOutOfBounds
    ensures r.Ok? ==> |r.value| == Popcount(structure)
    ensures r.Ok? ==> forall j :: 0 <= j < |r.value| ==>
      |chromaticScale| > 0 && r.value[j] == chromaticScale[IntervalBase.SetBits(structure)[j] % |chromaticScale|]
    ensures structure == 0 ==> r == Ok([])
  {
    var scale := chromaticScale;
    if BitLength(structure) > |chromaticScale| {
      var n := |chromaticScale| / Constants.TONES + 1;
      scale := Functions.RepeatList(chromaticScale, n);
    }
    assert |scale| == ScaleLength(structure, chromaticScale);
    if BitLength(structure) <= |chromaticScale| {
      RepeatsItself(scale, chromaticScale);
    }
    var rendering: seq<string> := [];
    for i := 0 to BitLength(structure)
      invariant RenderedBelow(structure, scale, rendering, i)
    {
      var column := Pow2(i);
      RenderStep(structure, scale, rendering, i);
      if And(structure, column) == column {
        if i >= |scale| {
          return Err(IndexOutOfBounds);
        }
        rendering := rendering + [scale[i]];
      }
    }
    RenderDone(structure, scale, rendering);
    ReadRepeated(IntervalBase.SetBits(structure), scale, chromaticScale, rendering);
    return Ok(rendering);
  }

  /** A scale is its own repetition: index p is index p modulo its length. */
  lemma RepeatsItself(scale: seq<string>, chromaticScale: seq<string>)
    requires scale == chromaticScale
    ensures forall p :: 0 <= p < |scale| ==> |chromaticScale| > 0 && scale[p] == chromaticScale[p % |chromaticScale|]
  {
    forall p | 0 <= p < |scale| ensures scale[p] == chromaticScale[p % |chromaticScale|] {
      JavaCollections.ModUnique(p, |scale|, 0, p);
    }
  }

  /** After the last column the rendering holds one name per set bit. */
  lemma RenderDone(structure: nat, scale: seq<string>, rendering: seq<string>)
    requires RenderedBelow(structure, scale, rendering, BitLength(structure))
    ensures BitLength(structure) <= |scale|
    ensures |rendering| == Popcount(structure)
    ensures structure == 0 ==> rendering == []
  {
    BitLengthBound(structure, BitLength(structure));
    CountBitsAll(structure, BitLength(structure));
    if structure > 0 {
      BitLengthTop(structure, 0);
    }
  }

  /** 145 is 0b10010001: eight bits, as many as fit in the binomial
      chromatic scale, so renderPlain reads the scale itself; bits 0, 4 and
      7 (SetBitsExample) are C, E and G there, so the rendering is
      [C, E, G]. */
  lemma RenderExample()
    ensures BitLength(145) == 8 <= ScaleLength(145, Nomenclature.CHROMATIC_BINOMIALS)
    ensures var scale := Nomenclature.CHROMATIC_BINOMIALS;
      && scale[0 % |scale|] == "C" && scale[4 % |scale|] == "E" && scale[7 % |scale|] == "G"
  {
    var scale := Nomenclature.CHROMATIC_BINOMIALS;
    ScaleNames(scale);
    assert 0 % 12 == 0 && 4 % 12 == 4 && 7 % 12 == 7;
  }

  lemma ScaleNames(scale: seq<string>)
    requires scale == ["C", "C#|Db", "D", "D#|Eb", "E", "F", "F#|Gb", "G", "G#|Ab", "A", "A#|Bb", "B"]
    ensures |scale| == 12 && scale[0] == "C" && scale[4] == "E" && scale[7] == "G"
  {
  }

  /** The set bits of 145, lowest first. */
  lemma SetBitsExample()
    ensures IntervalBase.SetBits(145) == [0, 4, 7]
  {
    SetBitsOf72();
  }

  lemma SetBitsOf72()
    ensures IntervalBase.SetBits(72) == [3, 6]
  {
    SetBitsOf9();
    assert IntervalBase.SetBits(18) == [1, 4];
    assert IntervalBase.SetBits(36) == [2, 5];
  }

  lemma SetBitsOf9()
    ensures IntervalBase.SetBits(9) == [0, 3]
  {
    assert IntervalBase.SetBits(1) == [0];
    assert IntervalBase.SetBits(2) == [1];
    assert IntervalBase.SetBits(4) == [2];
  }
}
