/** The static helpers of Bitwise: interval validity, structure width,
    containment and transposition, each checked against IntervalBase. */
module Bitwise {
  import opened BigBits
  import IntervalBase
  import Constants

  /** validate_interval: exactly two set bits and odd, i.e. 2^k + 1 for some
      k >= 1. */
  function ValidateInterval(interval: nat): (r: bool)
    ensures r <==> exists k: nat :: k >= 1 && interval == Pow2(k) + 1
  {
    IntervalBase.ValidIntervalExactly(interval);
    Popcount(interval) == 2 && interval % 2 == 1
  }

  /** Both validity predicates of the library agree. */
  lemma ValidateIntervalAgrees(interval: nat)
    ensures ValidateInterval(interval) == IntervalBase.IsValidInterval(interval)
  {
  }

  /** 0b1000 has one set bit; 0b1001 is 2^3 + 1. */
  lemma ValidateIntervalExamples()
    ensures !ValidateInterval(8)
    ensures ValidateInterval(9)
  {
    assert Pow2(3) == 8;
  }

  /** Every interval constant except the unison passes validate_interval. */
  lemma IntervalValuesValid()
    ensures !ValidateInterval(Constants.INTERVAL_VALUES[0])
    ensures forall k :: 1 <= k < |Constants.INTERVAL_VALUES| ==> ValidateInterval(Constants.INTERVAL_VALUES[k])
  {
    Constants.IntervalValuesArePow2Plus1();
    assert Popcount(1) == 1;
    forall k | 1 <= k < |Constants.INTERVAL_VALUES|
      ensures ValidateInterval(Constants.INTERVAL_VALUES[k])
    {
      assert Constants.INTERVAL_VALUES[k] == Pow2(k) + 1;
    }
  }

  /** validate_interval_structure: the bit length is within max_bits and the
      number of set bits is flipped_bits, unless flipped_bits is 0. */
  function ValidateIntervalStructure(structure: nat, maxBits: int, flippedBits: int): (r: bool)
    ensures r ==> BitLength(structure) <= maxBits
    ensures flippedBits == 0 ==> (r <==> BitLength(structure) <= maxBits)
  {
    var max := BitLength(structure) <= maxBits;
    var flip := if flippedBits == 0 then true else Popcount(structure) == flippedBits;
    max && flip
  }

  /** The structure fits in maxBits bits and has the expected set bits. */
  lemma ValidateStructureMeaning(structure: nat, maxBits: int, flippedBits: int)
    ensures ValidateIntervalStructure(structure, maxBits, flippedBits)
        <==> maxBits >= 0 && structure < Pow2(maxBits) && (flippedBits == 0 || Popcount(structure) == flippedBits)
    ensures ValidateIntervalStructure(structure, maxBits, flippedBits)
        == IntervalBase.IsValidIntervalStructure(structure, maxBits, flippedBits)
  {
    IntervalBase.ValidStructureMeaning(structure, maxBits, flippedBits);
  }

  /** The two-argument overload: width only. */
  function ValidateIntervalStructureWidth(structure: nat, maxBits: int): (r: bool)
    ensures r <==> maxBits >= 0 && structure < Pow2(maxBits)
  {
    ValidateStructureMeaning(structure, maxBits, 0);
    ValidateIntervalStructure(structure, maxBits, 0)
  }

  /** has_interval: interval & structure == interval, i.e. every bit of the
      interval is a bit of the structure. */
  function HasInterval(structure: nat, interval: nat): (r: bool)
    ensures r <==> BitSubset(interval, structure)
  {
    AndSubset(interval, structure);
    And(interval, structure) == interval
  }

  /** A structure contains itself and the empty interval. */
  lemma HasIntervalTrivial(structure: nat)
    ensures HasInterval(structure, structure)
    ensures HasInterval(structure, 0)
  {
    forall i: nat ensures Bit(0, i) ==> Bit(structure, i) {
      BitOfZero(i);
    }
  }

  /** Containment is transitive. */
  lemma HasIntervalTransitive(a: nat, b: nat, c: nat)
    requires HasInterval(a, b) && HasInterval(b, c)
    ensures HasInterval(a, c)
  {
  }

  /** Containment in both directions is equality. */
  lemma HasIntervalAntisymmetric(a: nat, b: nat)
    requires HasInterval(a, b) && HasInterval(b, a)
    ensures a == b
  {
    forall i: nat ensures Bit(a, i) == Bit(b, i) {
    }
    BitsDetermine(a, b);
  }

  /** reduce contains each of its intervals. */
  lemma HasIntervalReduce(intervals: seq<nat>, j: int)
    requires 0 <= j < |intervals|
    ensures HasInterval(IntervalBase.Reduce(intervals), intervals[j])
  {
    IntervalBase.ReduceLeastUpperBound(intervals, 0);
  }

  /** transpose_interval: add -1 (or 0 with echo), shift left by
      TONES * octave, add 1. */
  function TransposeInterval(interval: nat, octave: int, echo: bool): (r: int)
    ensures interval >= 1 && octave >= 0 ==> r >= 1
  {
    var modifier := if echo == false then -1 else 0;
    IntervalBase.ShiftLeftInt(interval + modifier, Constants.TONES * octave) + 1
  }

  /** The static transpose computes the same function as the instance one. */
  lemma TransposeAgrees(interval: nat, octave: int, echo: bool)
    ensures TransposeInterval(interval, octave, echo) == IntervalBase.TransposeInterval(interval, octave, echo)
  {
  }

  /** Without echo an odd interval keeps its root and its number of notes,
      and every other note moves up by 12 * octave. */
  lemma TransposeMovesNotes(interval: nat, octave: int, i: nat)
    requires interval % 2 == 1 && octave >= 1
    ensures TransposeInterval(interval, octave, false) >= 1
    ensures TransposeInterval(interval, octave, false) % 2 == 1
    ensures Popcount(TransposeInterval(interval, octave, false) as nat) == Popcount(interval)
    ensures i >= 1 ==> Bit(TransposeInterval(interval, octave, false) as nat, i + 12 * octave) == Bit(interval, i)
    ensures 1 <= i <= 12 * octave ==> !Bit(TransposeInterval(interval, octave, false) as nat, i)
  {
    IntervalBase.TransposePopcount(interval, octave, false);
    IntervalBase.TransposeBits(interval, octave, false, 0);
    IntervalBase.TransposeBits(interval, octave, false, i);
    IntervalBase.TransposeBits(interval, octave, false, i + 12 * octave);
  }

  /** With echo the root is kept and also copied up to 12 * octave. */
  lemma TransposeEchoes(interval: nat, octave: int)
    requires interval % 2 == 1 && octave >= 1
    ensures TransposeInterval(interval, octave, true) >= 1
    ensures TransposeInterval(interval, octave, true) % 2 == 1
    ensures Bit(TransposeInterval(interval, octave, true) as nat, 12 * octave)
    ensures Popcount(TransposeInterval(interval, octave, true) as nat) == Popcount(interval) + 1
  {
    IntervalBase.TransposePopcount(interval, octave, true);
    IntervalBase.TransposeBits(interval, octave, true, 0);
    IntervalBase.TransposeBits(interval, octave, true, 12 * octave);
  }
}
