/** Nomenclature: chromatic scales, the enharmonic decoder and the lookups
    built on it, and scientific (octave-numbered) note names. */
module Nomenclature {
  import opened Wrappers
  import opened JavaText
  import opened JavaCollections
  import opened Constants

  // ---------------------------------------------------------------------
  // chromatic

  /** The seven naturals with the five accidentals after every natural that
      does not start a half step (so none after E and none after B). */
  function ChromaticSpec(accidentals: seq<string>): (r: seq<string>)
    requires |accidentals| >= 5
    ensures |r| == TONES
  {
    NaturalsDistinct();
    [NATURALS[0], accidentals[0], NATURALS[1], accidentals[1], NATURALS[2],
     NATURALS[3], accidentals[2], NATURALS[4], accidentals[3], NATURALS[5],
     accidentals[4], NATURALS[6]]
  }

  /** Where the scale stands after the first i naturals: its length and how
      many accidentals have been used. */
  function ScaleOffset(i: nat): (r: nat)
    requires i <= 7
    ensures r <= 12
  {
    [0, 2, 4, 5, 7, 9, 11, 12][i]
  }

  function AccidentalsUsed(i: nat): (r: nat)
    requires i <= 7
    ensures r <= 5
  {
    [0, 1, 2, 2, 3, 4, 5, 5][i]
  }

  /** The naturals that start a half step are exactly E and B, at indices 2
      and 6. */
  lemma HalfStepNaturals(i: nat)
    requires i < 7
    ensures |NATURALS| == 7
    ensures (NATURALS[i] in HALFSTEPS) <==> (i == 2 || i == 6)
  {
    NaturalsValue();
    HalfstepsValue();
  }

  /** chromatic(accidental_notes): walk the naturals, appending each and,
      unless it is a HALFSTEPS key, the next accidental. */
  method Chromatic(accidentalNotes: seq<string>) returns (newScale: seq<string>)
    requires |accidentalNotes| >= 5
    ensures newScale == ChromaticSpec(accidentalNotes)
  {
    newScale := [];
    var accidentalsInScale := 0;
    NaturalsDistinct();
    ghost var spec := ChromaticSpec(accidentalNotes);
    for i := 0 to |NATURALS|
      invariant newScale == spec[..ScaleOffset(i)]
      invariant accidentalsInScale == AccidentalsUsed(i)
    {
      var note := NATURALS[i];
      HalfStepNaturals(i);
      newScale := newScale + [note];
      if note !in HALFSTEPS {
        newScale := newScale + [accidentalNotes[accidentalsInScale]];
        accidentalsInScale := accidentalsInScale + 1;
      }
    }
  }

  /** The interleaving: naturals at 0, 2, 4, 5, 7, 9, 11 and the accidentals,
      in order, at 1, 3, 6, 8, 10; E (index 4) and B (index 11) are followed
      by naturals. */
  lemma ChromaticShape(accidentals: seq<string>)
    requires |accidentals| >= 5
    ensures var r := ChromaticSpec(accidentals);
      && (forall i :: 0 <= i < 7 ==> r[ScaleOffset(i)] == NATURALS[i])
      && r[1] == accidentals[0] && r[3] == accidentals[1] && r[6] == accidentals[2]
      && r[8] == accidentals[3] && r[10] == accidentals[4]
      && r[4] == "E" && r[5] == "F" && r[11] == "B"
  {
    NaturalsValue();
  }

  // ---------------------------------------------------------------------
  // The binomial chromatic scale

  /** chromatic(BINOMIALS), written out. */
  const CHROMATIC_BINOMIALS: seq<string> :=
    ["C", "C#|Db", "D", "D#|Eb", "E", "F", "F#|Gb", "G", "G#|Ab", "A", "A#|Bb", "B"]

  /** The written-out scale is chromatic(BINOMIALS): the naturals with the
      binomials after C, D, F, G and A. */
  lemma ChromaticBinomialsValue()
    ensures |BINOMIALS| == 5 && CHROMATIC_BINOMIALS == ChromaticSpec(BINOMIALS)
  {
    NaturalsValue();
    BinomialsValue();
  }

  lemma ScaleLetters(cb: seq<string>)
    requires cb == ["C", "C#|Db", "D", "D#|Eb", "E", "F", "F#|Gb", "G", "G#|Ab", "A", "A#|Bb", "B"]
    ensures forall k :: 0 <= k < 12 ==> |cb[k]| >= 1 && 'A' <= cb[k][0] <= 'G'
    ensures forall k :: 0 <= k < 12 && |cb[k]| != 1 ==> |cb[k]| == 5 && cb[k][2] == '|'
  {
  }

  lemma ScaleLetterIndex(cb: seq<string>)
    requires cb == CHROMATIC_BINOMIALS
    ensures forall k :: 0 <= k < 12 && |cb[k]| == 1 ==> LetterIndex(cb[k][0]) == k
  {
  }

  lemma ScaleKinds(cb: seq<string>, binomials: seq<string>, naturals: seq<string>)
    requires cb == ["C", "C#|Db", "D", "D#|Eb", "E", "F", "F#|Gb", "G", "G#|Ab", "A", "A#|Bb", "B"]
    requires binomials == ["C#|Db", "D#|Eb", "F#|Gb", "G#|Ab", "A#|Bb"]
    requires naturals == ["C", "D", "E", "F", "G", "A", "B"]
    ensures forall k :: 0 <= k < 12 ==> (cb[k] in binomials <==> |cb[k]| != 1)
    ensures forall k :: 0 <= k < 12 ==> (cb[k] in naturals <==> |cb[k]| == 1)
  {
  }

  lemma ScaleDistinct(cb: seq<string>)
    requires cb == ["C", "C#|Db", "D", "D#|Eb", "E", "F", "F#|Gb", "G", "G#|Ab", "A", "A#|Bb", "B"]
    ensures forall a, b :: 0 <= a < b < 12 ==> cb[a] != cb[b]
  {
  }

  lemma ScaleHasNaturals(cb: seq<string>, naturals: seq<string>)
    requires cb == ["C", "C#|Db", "D", "D#|Eb", "E", "F", "F#|Gb", "G", "G#|Ab", "A", "A#|Bb", "B"]
    requires naturals == ["C", "D", "E", "F", "G", "A", "B"]
    ensures forall n :: n in naturals ==> n in cb
  {
  }

  lemma BinomialShape(binomials: seq<string>)
    requires binomials == ["C#|Db", "D#|Eb", "F#|Gb", "G#|Ab", "A#|Bb"]
    ensures forall b :: b in binomials ==> |b| == 5 && b[2] == '|'
  {
  }

  // ---------------------------------------------------------------------
  // Spellings: the keys of the enharmonic decoder

  /** A natural (by its index in the binomial chromatic scale) followed by
      count sharps or count flats. */
  datatype Spelling = Spelling(letter: nat, flat: bool, count: nat)

  /** The spellings the decoder accepts: a natural with 0 to 11 accidentals
      (with no accidentals the spelling counts as a sharp one). */
  predicate ValidSpelling(sp: Spelling)
  {
    && sp.letter < 12 && |CHROMATIC_BINOMIALS[sp.letter]| == 1
    && sp.count < 12 && (sp.count == 0 ==> !sp.flat)
  }

  function AccidentalSymbol(flat: bool): (r: string)
    ensures |r| == 1
  {
    if flat then FLAT_SYMBOL else SHARP_SYMBOL
  }

  function SpellingName(sp: Spelling): (r: string)
    requires ValidSpelling(sp)
    ensures |r| == sp.count + 1 && r[..1] == CHROMATIC_BINOMIALS[sp.letter]
  {
    CHROMATIC_BINOMIALS[sp.letter] + Repeat(AccidentalSymbol(sp.flat), sp.count)
  }

  /** The index of a natural letter in the binomial chromatic scale, or -1. */
  function LetterIndex(c: char): (r: int)
    ensures -1 <= r < 12
    ensures r >= 0 ==> CHROMATIC_BINOMIALS[r] == [c]
  {
    match c
    case 'C' => 0
    case 'D' => 2
    case 'E' => 4
    case 'F' => 5
    case 'G' => 7
    case 'A' => 9
    case 'B' => 11
    case _ => -1
  }

  /** Reads a name as a spelling: a natural, then only sharps or only flats,
      twelve characters at most. */
  function ParseName(name: string): (r: Option<Spelling>)
    ensures r.Some? ==> ValidSpelling(r.value) && SpellingName(r.value) == name
  {
    if |name| == 0 || |name| > 12 then None
    else
      var k := LetterIndex(name[0]);
      if k < 0 then None
      else if name[1..] == Repeat(SHARP_SYMBOL, |name| - 1) then
        assert name == [name[0]] + name[1..];
        Some(Spelling(k, false, |name| - 1))
      else if name[1..] == Repeat(FLAT_SYMBOL, |name| - 1) then
        assert name == [name[0]] + name[1..];
        Some(Spelling(k, true, |name| - 1))
      else None
  }

  /** Every valid spelling is read back from its name. */
  lemma ParseSpelling(sp: Spelling)
    requires ValidSpelling(sp)
    ensures ParseName(SpellingName(sp)) == Some(sp)
  {
    ScaleLetterIndex(CHROMATIC_BINOMIALS);
    var name := SpellingName(sp);
    var tail := Repeat(AccidentalSymbol(sp.flat), sp.count);
    assert name == CHROMATIC_BINOMIALS[sp.letter] + tail;
    assert name[0] == CHROMATIC_BINOMIALS[sp.letter][0];
    assert LetterIndex(name[0]) == sp.letter;
    assert name[1..] == tail;
    if sp.flat {
      assert tail[0] == 'b';
      assert Repeat(SHARP_SYMBOL, sp.count)[0] == '#';
      assert name[1..] != Repeat(SHARP_SYMBOL, |name| - 1);
    }
  }

  /** Two different valid spellings have different names. */
  lemma SpellingNameInjective(a: Spelling, b: Spelling)
    requires ValidSpelling(a) && ValidSpelling(b) && SpellingName(a) == SpellingName(b)
    ensures a == b
  {
    ParseSpelling(a);
    ParseSpelling(b);
  }

  // ---------------------------------------------------------------------
  // enharmonic_decoder

  /** The binomial name a spelling stands for: count steps up the binomial
      chromatic scale for sharps, down for flats. */
  function DecodedName(sp: Spelling): (r: string)
    requires ValidSpelling(sp)
    ensures r in CHROMATIC_BINOMIALS
  {
    CHROMATIC_BINOMIALS[DecodedIndex(sp)]
  }

  function DecodedIndex(sp: Spelling): (r: nat)
    ensures r < 12
  {
    if sp.flat then (sp.letter - sp.count) % 12 else (sp.letter + sp.count) % 12
  }

  /** What the decoder maps a name to, if it is a key. */
  function DecoderLookup(name: string): (r: Option<string>)
    ensures r.Some? <==> ParseName(name).Some?
    ensures r.Some? ==> r.value == DecodedName(ParseName(name).value)
  {
    match ParseName(name)
    case None => None
    case Some(sp) => Some(DecodedName(sp))
  }

  /** The order in which the decoder's loops reach the spellings: every sharp
      one before every flat one, by letter, then by count. */
  function Rank(sp: Spelling): (r: nat)
    requires ValidSpelling(sp)
    ensures r < 288
  {
    (if sp.flat then 144 else 0) + 12 * sp.letter + sp.count
  }

  /** No two valid spellings share a rank. */
  lemma RankInjective(a: Spelling, b: Spelling)
    requires ValidSpelling(a) && ValidSpelling(b) && Rank(a) == Rank(b)
    ensures a == b
  {
  }

  /** The decoder holds exactly the spellings before step, each decoded. */
  ghost predicate DecoderHolds(decoder: map<string, string>, step: nat)
  {
    && (forall name :: name in decoder <==> ParseName(name).Some? && Rank(ParseName(name).value) < step)
    && (forall name :: name in decoder ==> decoder[name] == DecodedName(ParseName(name).value))
  }

  /** The repeated accidental: "#" in the first pass, "b" in the second. */
  function PassSymbol(pass: nat): (r: string)
    requires pass < 2
    ensures r == ACCIDENTAL_SYMBOLS[pass]
  {
    if pass == 0 then SHARP_SYMBOL else FLAT_SYMBOL
  }

  /** Index into the binomial chromatic scale of dummy_binomials[j] when the
      loop reaches letter k: k + j for sharps, k - j for flats. */
  function DummyIndex(pass: nat, k: int, j: int): (r: nat)
    requires pass < 2
    ensures r < 12
  {
    if pass == 0 then (k + j) % 12 else (k - j) % 12
  }

  function Shifted(pass: nat, k: int): (r: seq<string>)
    requires pass < 2
    ensures |r| == 12
  {
    seq(12, j requires 0 <= j < 12 => CHROMATIC_BINOMIALS[DummyIndex(pass, k, j)])
  }

  /** The spelling put at a step of the decoder's loops; with no
      accidentals the flat pass puts the natural's sharp spelling again. */
  lemma PutSpelling(pass: nat, k: nat, i: nat) returns (sp: Spelling)
    requires pass < 2 && k < 12 && i < 12 && |CHROMATIC_BINOMIALS[k]| == 1
    ensures ValidSpelling(sp)
    ensures ParseName(CHROMATIC_BINOMIALS[k] + Repeat(PassSymbol(pass), i)) == Some(sp)
    ensures DecodedIndex(sp) == DummyIndex(pass, k, i)
    ensures pass == 1 && i == 0 ==> Rank(sp) < 144 * pass + 12 * k + i
    ensures !(pass == 1 && i == 0) ==> Rank(sp) == 144 * pass + 12 * k + i
  {
    sp := Spelling(k, pass == 1 && i > 0, i);
    assert SpellingName(sp) == CHROMATIC_BINOMIALS[k] + Repeat(PassSymbol(pass), i);
    ParseSpelling(sp);
  }

  /** A step of the loops that puts no new spelling: the flat pass at a
      natural with no accidentals. */
  lemma NoSpellingAt(k: nat)
    requires k < 12
    ensures forall n :: ParseName(n).Some? ==> Rank(ParseName(n).value) != 144 + 12 * k
  {
    forall n | ParseName(n).Some? ensures Rank(ParseName(n).value) != 144 + 12 * k {
      var sp := ParseName(n).value;
      assert sp.flat ==> sp.count > 0;
    }
  }

  /** Putting the name of the spelling of rank step (or, again, of an
      earlier one when step is no spelling's rank) extends the decoder by
      that step. */
  lemma HoldsAfterPut(decoder: map<string, string>, step: nat, name: string, sp: Spelling)
    requires DecoderHolds(decoder, step)
    requires ParseName(name) == Some(sp) && Rank(sp) <= step
    requires Rank(sp) < step ==> forall n :: ParseName(n).Some? ==> Rank(ParseName(n).value) != step
    ensures DecoderHolds(decoder[name := DecodedName(sp)], step + 1)
    ensures |decoder[name := DecodedName(sp)]| == |decoder| + (if Rank(sp) < step then 0 else 1)
  {
    var next := decoder[name := DecodedName(sp)];
    forall n
      ensures n in next <==> ParseName(n).Some? && Rank(ParseName(n).value) < step + 1
    {
      if Rank(sp) == step && ParseName(n).Some? && Rank(ParseName(n).value) == step {
        RankInjective(ParseName(n).value, sp);
      }
    }
    forall n | n in next
      ensures next[n] == DecodedName(ParseName(n).value)
    {
    }
    if Rank(sp) < step {
      assert name in decoder;
    } else {
      assert name !in decoder;
    }
  }

  /** One decoder.put(natural + accidental * i, dummy_binomials[i]). */
  lemma DecoderPut(decoder: map<string, string>, pass: nat, k: nat, i: nat, name: string, value: string)
    requires pass < 2 && k < 12 && i < 12 && |CHROMATIC_BINOMIALS[k]| == 1
    requires name == CHROMATIC_BINOMIALS[k] + Repeat(PassSymbol(pass), i)
    requires value == CHROMATIC_BINOMIALS[DummyIndex(pass, k, i)]
    requires DecoderHolds(decoder, 144 * pass + 12 * k + i)
    ensures DecoderHolds(decoder[name := value], 144 * pass + 12 * k + i + 1)
    ensures |decoder[name := value]| == |decoder| + (if pass == 1 && i == 0 then 0 else 1)
  {
    var step := 144 * pass + 12 * k + i;
    var sp := PutSpelling(pass, k, i);
    if pass == 1 && i == 0 {
      NoSpellingAt(k);
    }
    HoldsAfterPut(decoder, step, name, sp);
  }

  /** A binomial letter contributes no spelling. */
  lemma DecoderSkip(decoder: map<string, string>, pass: nat, k: nat)
    requires pass < 2 && k < 12 && |CHROMATIC_BINOMIALS[k]| != 1
    requires DecoderHolds(decoder, 144 * pass + 12 * k)
    ensures DecoderHolds(decoder, 144 * pass + 12 * k + 12)
  {
    var step := 144 * pass + 12 * k;
    forall n
      ensures n in decoder <==> ParseName(n).Some? && Rank(ParseName(n).value) < step + 12
    {
      var p := ParseName(n);
      if p.Some? {
        RankApart(p.value, pass, k);
      }
    }
  }

  lemma RankApart(sp: Spelling, pass: nat, k: nat)
    requires pass < 2 && k < 12 && |CHROMATIC_BINOMIALS[k]| != 1 && ValidSpelling(sp)
    ensures Rank(sp) < 144 * pass + 12 * k + 12 <==> Rank(sp) < 144 * pass + 12 * k
  {
    assert sp.letter != k;
  }

  /** The sharp pass starts from the scale itself; the flat pass from the
      scale reversed and rotated by -11, which reads it downwards from C. */
  lemma ShiftedStart()
    ensures Shifted(0, 0) == CHROMATIC_BINOMIALS
    ensures Rotated(Reversed(CHROMATIC_BINOMIALS), -(FLAT_VALUE + TONES)) == Shifted(1, 0)
  {
    var cb := CHROMATIC_BINOMIALS;
    forall j | 0 <= j < 12 ensures Shifted(0, 0)[j] == cb[j] {
      ModUnique(j, 12, 0, j);
    }
    var d := -(FLAT_VALUE + TONES);
    assert d == -11;
    forall j | 0 <= j < 12 ensures Rotated(Reversed(cb), d)[j] == Shifted(1, 0)[j] {
      if j == 0 {
        ModUnique(11, 12, 0, 11);
        ModUnique(0, 12, 0, 0);
      } else {
        ModUnique(j + 11, 12, 1, j - 1);
        ModUnique(-j, 12, -1, 12 - j);
      }
    }
  }

  /** Collections.rotate(dummy_binomials, shift_degree) after each letter
      moves the window one letter on: by -1 for sharps, by -11 for flats. */
  lemma ShiftedStep(pass: nat, k: int)
    requires pass < 2
    ensures Rotated(Shifted(pass, k), if pass == 0 then -SHARP_VALUE else -(FLAT_VALUE + TONES)) == Shifted(pass, k + 1)
  {
    var d := if pass == 0 then -1 else -11;
    forall j | 0 <= j < 12 ensures Rotated(Shifted(pass, k), d)[j] == Shifted(pass, k + 1)[j] {
      ShiftedIndexStep(pass, k, j);
    }
  }

  lemma ShiftedIndexStep(pass: nat, k: int, j: int)
    requires pass < 2 && 0 <= j < 12
    ensures DummyIndex(pass, k, (j - (if pass == 0 then -1 else -11)) % 12) == DummyIndex(pass, k + 1, j)
  {
    if pass == 0 {
      if j < 11 {
        ModUnique(j + 1, 12, 0, j + 1);
      } else {
        ModUnique(12, 12, 1, 0);
        ShiftMod(k, 12, 0);
      }
    } else {
      if j == 0 {
        ModUnique(11, 12, 0, 11);
        ShiftMod(k, -11, 1);
      } else {
        ModUnique(j + 11, 12, 1, j - 1);
      }
    }
  }

  /** Adding numbers that differ by a multiple of 12 gives the same
      remainder. */
  lemma ShiftMod(k: int, a: int, b: int)
    requires (a - b) % 12 == 0
    ensures (k + a) % 12 == (k + b) % 12
  {
    var q := (a - b) / 12;
    assert a - b == 12 * q;
    var r := (k + b) % 12;
    var q2 := (k + b) / 12;
    assert k + b == 12 * q2 + r;
    ModUnique(k + a, 12, q2 + q, r);
  }

  /** How many naturals come before index k of the binomial chromatic scale. */
  function NaturalsBefore(k: nat): (r: nat)
    requires k <= 12
    ensures r <= k
  {
    [0, 1, 1, 2, 2, 3, 4, 4, 5, 5, 6, 6, 7][k]
  }

  lemma NaturalsBeforeStep(k: nat)
    requires k < 12
    ensures NaturalsBefore(k + 1) == NaturalsBefore(k) + (if |CHROMATIC_BINOMIALS[k]| == 1 then 1 else 0)
  {
  }

  /** enharmonic_decoder(): for each accidental, walk the letters of the
      binomial chromatic scale with a copy of the scale that is rotated one
      step after every letter, and map every natural with 0 to 11 of that
      accidental to the copy's entry. The result is exactly the table
      DecoderLookup, with 7 * 12 + 7 * 11 = 161 keys. */
  method EnharmonicDecoder() returns (decoder: map<string, string>)
    ensures forall name :: name in decoder <==> DecoderLookup(name).Some?
    ensures forall name :: name in decoder ==> DecoderLookup(name) == Some(decoder[name])
    ensures |decoder| == 161
  {
    decoder := map[];
    ChromaticBinomialsValue();
    var chromaticBinomials := Chromatic(BINOMIALS);
    for pass := 0 to |ACCIDENTAL_SYMBOLS|
      invariant DecoderHolds(decoder, 144 * pass)
      invariant |decoder| == (if pass == 0 then 0 else if pass == 1 then 84 else 161)
    {
      decoder := AccidentalPass(decoder, pass, chromaticBinomials);
    }
    DecoderComplete(decoder);
  }

  /** After both passes the decoder holds every spelling. */
  lemma DecoderComplete(decoder: map<string, string>)
    requires DecoderHolds(decoder, 288)
    ensures forall name :: name in decoder <==> DecoderLookup(name).Some?
    ensures forall name :: name in decoder ==> DecoderLookup(name) == Some(decoder[name])
  {
  }

  /** One pass of enharmonic_decoder's outer loop, for ACCIDENTAL_SYMBOLS[pass]. */
  method AccidentalPass(decoder: map<string, string>, pass: nat, chromaticBinomials: seq<string>)
    returns (next: map<string, string>)
    requires pass < 2 && chromaticBinomials == CHROMATIC_BINOMIALS
    requires DecoderHolds(decoder, 144 * pass)
    ensures DecoderHolds(next, 144 * pass + 144)
    ensures |next| == |decoder| + (if pass == 0 then 84 else 77)
  {
    next := decoder;
    var accidental := ACCIDENTAL_SYMBOLS[pass];
    assert accidental == PassSymbol(pass);
    var dummyBinomials, shiftDegree := StartWindow(pass, chromaticBinomials);
    for k := 0 to |chromaticBinomials|
      invariant dummyBinomials[..] == Shifted(pass, k)
      invariant DecoderHolds(next, 144 * pass + 12 * k)
      invariant |next| == |decoder| + (if pass == 0 then 12 * NaturalsBefore(k) else 11 * NaturalsBefore(k))
    {
      next := LetterStep(next, pass, k, chromaticBinomials[k], accidental, dummyBinomials, shiftDegree);
    }
  }

  /** The body of the letter loop: put the spellings of a natural letter
      (a binomial contributes none), then rotate the copy of the scale. */
  method LetterStep(decoder: map<string, string>, pass: nat, k: nat, binomial: string, accidental: string,
                    dummyBinomials: array<string>, shiftDegree: int) returns (next: map<string, string>)
    requires pass < 2 && k < 12 && binomial == CHROMATIC_BINOMIALS[k] && accidental == PassSymbol(pass)
    requires dummyBinomials[..] == Shifted(pass, k)
    requires shiftDegree == (if pass == 0 then -SHARP_VALUE else -(FLAT_VALUE + TONES))
    requires DecoderHolds(decoder, 144 * pass + 12 * k)
    modifies dummyBinomials
    ensures dummyBinomials[..] == Shifted(pass, k + 1)
    ensures DecoderHolds(next, 144 * pass + 12 * k + 12)
    ensures |next| == |decoder| + (if pass == 0 then 12 else 11) * (NaturalsBefore(k + 1) - NaturalsBefore(k))
  {
    NaturalsBeforeStep(k);
    BinomialLetter(k);
    if binomial !in BINOMIALS {
      next := PutLetter(decoder, pass, k, binomial, accidental, dummyBinomials);
    } else {
      DecoderSkip(decoder, pass, k);
      next := decoder;
    }
    ShiftedStep(pass, k);
    Rotate(dummyBinomials, shiftDegree);
  }

  /** The copy of the scale a pass rotates and the distance it rotates it
      by: for flats the copy is reversed and rotated by -11 first, and the
      distance is 11 rather than 1; both distances are negated. */
  method StartWindow(pass: nat, chromaticBinomials: seq<string>) returns (dummyBinomials: array<string>, shiftDegree: int)
    requires pass < 2 && chromaticBinomials == CHROMATIC_BINOMIALS
    ensures fresh(dummyBinomials)
    ensures dummyBinomials[..] == Shifted(pass, 0)
    ensures shiftDegree == (if pass == 0 then -SHARP_VALUE else -(FLAT_VALUE + TONES))
  {
    var accidental := ACCIDENTAL_SYMBOLS[pass];
    dummyBinomials := new string[|chromaticBinomials|](j requires 0 <= j < |chromaticBinomials| => chromaticBinomials[j]);
    assert dummyBinomials[..] == CHROMATIC_BINOMIALS;
    shiftDegree := SHARP_VALUE;
    if accidental == FLAT_SYMBOL {
      shiftDegree := FLAT_VALUE + TONES;
      Reverse(dummyBinomials);
      Rotate(dummyBinomials, -shiftDegree);
    }
    shiftDegree := shiftDegree * -1;
    ShiftedStart();
  }

  /** The innermost loop of enharmonic_decoder: put the natural binomial
      with 0 to 11 accidentals, mapped to the first twelve entries of the
      rotated copy. */
  method PutLetter(decoder: map<string, string>, pass: nat, k: nat, binomial: string, accidental: string,
                   dummyBinomials: array<string>) returns (next: map<string, string>)
    requires pass < 2 && k < 12 && binomial == CHROMATIC_BINOMIALS[k] && |binomial| == 1
    requires accidental == PassSymbol(pass) && dummyBinomials[..] == Shifted(pass, k)
    requires DecoderHolds(decoder, 144 * pass + 12 * k)
    ensures DecoderHolds(next, 144 * pass + 12 * k + 12)
    ensures |next| == |decoder| + (if pass == 0 then 12 else 11)
  {
    next := decoder;
    for i := 0 to TONES
      invariant DecoderHolds(next, 144 * pass + 12 * k + i)
      invariant |next| == |decoder| + (if pass == 0 then i else if i > 0 then i - 1 else 0)
    {
      DecoderPut(next, pass, k, i, binomial + Repeat(accidental, i), dummyBinomials[i]);
      next := next[binomial + Repeat(accidental, i) := dummyBinomials[i]];
    }
  }

  /** The scale's entries are the binomials exactly where they are not
      single letters. */
  lemma BinomialLetter(k: nat)
    requires k < 12
    ensures CHROMATIC_BINOMIALS[k] in BINOMIALS <==> |CHROMATIC_BINOMIALS[k]| != 1
  {
    BinomialsValue();
    NaturalsValue();
    ScaleKinds(CHROMATIC_BINOMIALS, BINOMIALS, NATURALS);
  }

  // ---------------------------------------------------------------------
  // The decoder's table in closed form

  /** A natural with i sharps decodes to the name i steps up from it. */
  lemma DecodeSharps(k: nat, i: nat)
    requires k < 12 && |CHROMATIC_BINOMIALS[k]| == 1 && i < 12
    ensures DecoderLookup(CHROMATIC_BINOMIALS[k] + Repeat(SHARP_SYMBOL, i)) == Some(CHROMATIC_BINOMIALS[(k + i) % 12])
  {
    var sp := Spelling(k, false, i);
    var name := CHROMATIC_BINOMIALS[k] + Repeat(SHARP_SYMBOL, i);
    assert ValidSpelling(sp) && SpellingName(sp) == name;
    ParseSpelling(sp);
    assert DecoderLookup(name) == Some(DecodedName(sp));
    assert DecodedIndex(sp) == (k + i) % 12;
  }

  /** A natural with i flats decodes to the name i steps down from it. */
  lemma DecodeFlats(k: nat, i: nat)
    requires k < 12 && |CHROMATIC_BINOMIALS[k]| == 1 && i < 12
    ensures DecoderLookup(CHROMATIC_BINOMIALS[k] + Repeat(FLAT_SYMBOL, i)) == Some(CHROMATIC_BINOMIALS[(k - i) % 12])
  {
    var sp := Spelling(k, i > 0, i);
    var name := CHROMATIC_BINOMIALS[k] + Repeat(FLAT_SYMBOL, i);
    assert ValidSpelling(sp) && SpellingName(sp) == name;
    ParseSpelling(sp);
    assert DecoderLookup(name) == Some(DecodedName(sp));
    assert DecodedIndex(sp) == (k - i) % 12;
  }

  /** "E#" is "F" and "Cb" is "B". */
  lemma DecodeExamples()
    ensures DecoderLookup("E#") == Some("F")
    ensures DecoderLookup("Cb") == Some("B")
  {
    var eSharp := Spelling(4, false, 1);
    assert ParseName("E#") == Some(eSharp) by {
      ParseSpelling(eSharp);
      assert SpellingName(eSharp) == "E#";
    }
    assert DecodedIndex(eSharp) == 5;
    var cFlat := Spelling(0, true, 1);
    assert ParseName("Cb") == Some(cFlat) by {
      ParseSpelling(cFlat);
      assert SpellingName(cFlat) == "Cb";
    }
    assert DecodedIndex(cFlat) == 11;
  }

  /** The only keys shorter than two characters are the naturals, and each
      natural maps to itself. */
  lemma ShortKeys(name: string)
    ensures (DecoderLookup(name).Some? && |name| < 2) <==> name in NATURALS
    ensures name in NATURALS ==> DecoderLookup(name) == Some(name)
  {
    NaturalsValue();
    if name in NATURALS {
      var k := LetterIndex(name[0]);
      assert name == [name[0]];
      DecodeSharps(k, 0);
      assert CHROMATIC_BINOMIALS[k] + Repeat(SHARP_SYMBOL, 0) == name;
      ModUnique(k, 12, 0, k);
    }
    if DecoderLookup(name).Some? && |name| < 2 {
      var sp := ParseName(name).value;
      assert name == CHROMATIC_BINOMIALS[sp.letter];
      NaturalLetters(sp.letter);
    }
  }

  lemma NaturalLetters(k: nat)
    requires k < 12 && |CHROMATIC_BINOMIALS[k]| == 1
    ensures CHROMATIC_BINOMIALS[k] in NATURALS
  {
    NaturalsValue();
    BinomialsValue();
    ScaleKinds(CHROMATIC_BINOMIALS, BINOMIALS, NATURALS);
  }

  /** No binomial is a key of the decoder. */
  lemma BinomialsNotKeys(name: string)
    requires name in BINOMIALS
    ensures DecoderLookup(name) == None
  {
    BinomialsValue();
    BinomialShape(BINOMIALS);
  }

  // ---------------------------------------------------------------------
  // Lookups on the decoder

  /** The entries of a map whose value is the given one, each key once, in
      an unspecified order (a HashMap's entry set). */
  method KeysWithValue(m: map<string, string>, value: string) returns (keys: seq<string>)
    ensures forall e :: e in keys <==> e in m && m[e] == value
    ensures forall a, b :: 0 <= a < b < |keys| ==> keys[a] != keys[b]
  {
    keys := [];
    var remaining := m.Keys;
    while remaining != {}
      invariant remaining <= m.Keys
      invariant forall e :: e in keys <==> e in m && e !in remaining && m[e] == value
      invariant forall a, b :: 0 <= a < b < |keys| ==> keys[a] != keys[b]
      decreases |remaining|
    {
      var key :| key in remaining;
      if m[key] == value {
        keys := keys + [key];
      }
      remaining := remaining - {key};
    }
  }

  /** The keys of a map shorter than two characters, each once. */
  method ShortKeysOf(m: map<string, string>) returns (keys: seq<string>)
    ensures forall e :: e in keys <==> e in m && |e| < 2
    ensures forall a, b :: 0 <= a < b < |keys| ==> keys[a] != keys[b]
  {
    keys := [];
    var remaining := m.Keys;
    while remaining != {}
      invariant remaining <= m.Keys
      invariant forall e :: e in keys <==> e in m && e !in remaining && |e| < 2
      invariant forall a, b :: 0 <= a < b < |keys| ==> keys[a] != keys[b]
      decreases |remaining|
    {
      var key :| key in remaining;
      if |key| < 2 {
        keys := keys + [key];
      }
      remaining := remaining - {key};
    }
  }

  /** get_enharmonic_equivalents(note_name): every name the decoder maps to
      note_name, each once. */
  method GetEnharmonicEquivalents(noteName: string) returns (equivalents: seq<string>)
    ensures forall e :: e in equivalents <==> DecoderLookup(e) == Some(noteName)
    ensures forall a, b :: 0 <= a < b < |equivalents| ==> equivalents[a] != equivalents[b]
  {
    var decoder := EnharmonicDecoder();
    equivalents := KeysWithValue(decoder, noteName);
  }

  /** legal_chord_names(): the decoder's keys shorter than two characters,
      which are the seven naturals, each once. */
  method LegalChordNames() returns (names: seq<string>)
    ensures forall n :: n in names <==> n in NATURALS
    ensures forall a, b :: 0 <= a < b < |names| ==> names[a] != names[b]
  {
    var decoder := EnharmonicDecoder();
    names := ShortKeysOf(decoder);
    forall n ensures n in names <==> n in NATURALS {
      ShortKeys(n);
    }
  }

  /** identity(note_name): the letter of a name; a binomial is refused, and
      an empty name has no first character. */
  function Identity(noteName: string): (r: Result<string>)
    ensures r.Ok? <==> noteName !in BINOMIALS && |noteName| > 0
    ensures r.Ok? ==> r.value == [noteName[0]]
    ensures noteName in BINOMIALS ==> r == Err(BinomialName)
  {
    if noteName in BINOMIALS then Err(BinomialName)
    else if |noteName| == 0 then Err(IndexOutOfBounds)
    else Ok(noteName[..1])
  }

  /** Every decoder key has the letter of its natural. */
  lemma IdentityOfKey(name: string)
    requires DecoderLookup(name).Some?
    ensures Identity(name) == Ok(CHROMATIC_BINOMIALS[ParseName(name).value.letter])
  {
    if name in BINOMIALS {
      BinomialsNotKeys(name);
    }
  }

  /** is_homonomous(a, b): both have a letter and it is the same one. */
  function IsHomonomous(noteOne: string, noteTwo: string): (r: bool)
    ensures r <==> noteOne !in BINOMIALS && noteTwo !in BINOMIALS && |noteOne| > 0 && |noteTwo| > 0
                   && noteOne[0] == noteTwo[0]
  {
    var one := Identity(noteOne);
    var two := Identity(noteTwo);
    if one.Err? || two.Err? then false else one.value == two.value
  }

  /** Being homonymous is an equivalence on the names that have a letter. */
  lemma HomonomousEquivalence(a: string, b: string, c: string)
    ensures IsHomonomous(a, a) <==> a !in BINOMIALS && |a| > 0
    ensures IsHomonomous(a, b) == IsHomonomous(b, a)
    ensures IsHomonomous(a, b) && IsHomonomous(b, c) ==> IsHomonomous(a, c)
  {
  }

  // ---------------------------------------------------------------------
  // decode_enharmonic and encode_enharmonic

  /** What a decoder key looks like: a letter first, never a digit last,
      and a key that is a scale name decodes to itself. */
  lemma KeyShape(name: string)
    requires ParseName(name).Some?
    ensures |name| > 0 && LetterIndex(name[0]) == ParseName(name).value.letter
    ensures !IsDigit(name[|name| - 1])
    ensures name in CHROMATIC_BINOMIALS ==> DecodedName(ParseName(name).value) == name
  {
    var sp := ParseName(name).value;
    var tail := Repeat(AccidentalSymbol(sp.flat), sp.count);
    assert name == CHROMATIC_BINOMIALS[sp.letter] + tail;
    if sp.count > 0 {
      assert name[|name| - 1] == tail[sp.count - 1];
    }
    if name in CHROMATIC_BINOMIALS {
      ScaleLetters(CHROMATIC_BINOMIALS);
      if |name| != 1 {
        assert false;
      }
      assert sp.count == 0 && DecodedIndex(sp) == sp.letter;
      assert name == CHROMATIC_BINOMIALS[sp.letter];
    }
  }

  /** No scale name ends in a digit. */
  lemma ScaleEnds(cb: seq<string>)
    requires cb == ["C", "C#|Db", "D", "D#|Eb", "E", "F", "F#|Gb", "G", "G#|Ab", "A", "A#|Bb", "B"]
    ensures forall k :: 0 <= k < |cb| ==> |cb[k]| > 0 && !IsDigit(cb[k][|cb[k]| - 1])
  {
  }

  /** A single digit is neither a scale name nor a key. */
  lemma DigitIsNoName(c: char)
    requires IsDigit(c)
    ensures [c] !in CHROMATIC_BINOMIALS && ParseName([c]).None?
  {
    ScaleLetters(CHROMATIC_BINOMIALS);
  }

  /** chromatic(BINOMIALS). */
  method BinomialScale() returns (chromaticBinomials: seq<string>)
    ensures chromaticBinomials == CHROMATIC_BINOMIALS
  {
    ChromaticBinomialsValue();
    chromaticBinomials := Chromatic(BINOMIALS);
  }

  /** decode_enharmonic(note_name): the binomial scale name of a note name.
      A name that ends in a digit is cut down to that digit, which is then
      never recognised; a scale name is returned as it is; any other name is
      looked up in the decoder. An empty name has no last character. */
  method DecodeEnharmonic(noteName: string) returns (r: Result<string>)
    ensures |noteName| == 0 ==> r == Err(IndexOutOfBounds)
    ensures |noteName| > 0 && IsDigit(noteName[|noteName| - 1]) ==>
      r == Err(NotRecognized([noteName[|noteName| - 1]]))
    ensures r.Ok? ==> r.value in CHROMATIC_BINOMIALS
    ensures noteName in CHROMATIC_BINOMIALS ==> r == Ok(noteName)
    ensures ParseName(noteName).Some? ==> r == Ok(DecodedName(ParseName(noteName).value))
    ensures && |noteName| > 0 && !IsDigit(noteName[|noteName| - 1])
            && noteName !in CHROMATIC_BINOMIALS && ParseName(noteName).None?
            ==> r == Err(NotRecognized(noteName))
  {
    if |noteName| == 0 {
      return Err(IndexOutOfBounds);
    }
    var name := noteName;
    ScaleEnds(CHROMATIC_BINOMIALS);
    if IsDigit(name[|name| - 1]) {
      name := name[|name| - 1..];
      DigitIsNoName(name[0]);
      assert name == [noteName[|noteName| - 1]];
    }
    if ParseName(noteName).Some? {
      KeyShape(noteName);
    }
    var decoder := EnharmonicDecoder();
    var chromaticBinomials := BinomialScale();
    if name in chromaticBinomials {
      return Ok(name);
    }
    if name !in decoder {
      return Err(NotRecognized(name));
    }
    return Ok(decoder[name]);
  }

  /** The index of the first entry of least length: the head of the list
      after a stable sort by length. */
  function FirstShortest(s: seq<string>): (p: nat)
    requires |s| > 0
    ensures p < |s|
    ensures forall j :: 0 <= j < |s| ==> |s[p]| <= |s[j]|
    ensures forall j :: 0 <= j < p ==> |s[p]| < |s[j]|
  {
    if |s| == 1 then 0
    else
      var q := FirstShortest(s[..|s| - 1]);
      if |s[|s| - 1]| < |s[q]| then |s| - 1 else q
  }

  /** encode_enharmonic(note_value, note_name), as written: the filter asks
      whether note_name is homonymous with itself, so every equivalent of
      the natural is kept whenever note_name has a letter, and the shortest
      of them is the natural itself. */
  method EncodeEnharmonic(noteValue: string, noteName: string) returns (r: Result<string>)
    ensures noteValue !in NATURALS ==> r == Err(TargetNotNatural)
    ensures noteValue in NATURALS && IsHomonomous(noteName, noteName) ==> r == Ok(noteValue)
    ensures noteValue in NATURALS && !IsHomonomous(noteName, noteName) ==> r == Err(IndexOutOfBounds)
  {
    if noteValue !in NATURALS {
      return Err(TargetNotNatural);
    }
    NaturalInScale(noteValue);
    var decoded := DecodeEnharmonic(noteValue);
    var value := decoded.value;
    var options := GetEnharmonicEquivalents(value);
    var homonymousOptions := SelfHomonymousFilter(options, noteName);
    ShortKeys(value);
    if |homonymousOptions| == 0 {
      return Err(IndexOutOfBounds);
    }
    var p := FirstShortest(homonymousOptions);
    NaturalIsShortest(value, options, p);
    return Ok(homonymousOptions[p]);
  }

  /** The filter loop of encode_enharmonic as written: its test does not
      depend on the option, so it keeps all of them or none. */
  method SelfHomonymousFilter(options: seq<string>, noteName: string) returns (homonymousOptions: seq<string>)
    ensures homonymousOptions == if IsHomonomous(noteName, noteName) then options else []
  {
    homonymousOptions := [];
    for j := 0 to |options|
      invariant homonymousOptions == if IsHomonomous(noteName, noteName) then options[..j] else []
    {
      if IsHomonomous(noteName, noteName) {
        homonymousOptions := homonymousOptions + [options[j]];
      }
    }
    assert options[..|options|] == options;
  }

  /** encode_enharmonic("C", "D") as written answers "C", which is not a
      spelling on the letter D; the spelling of C on D it evidently means
      is "Dbb". */
  lemma EncodeEnharmonicOffLetter()
    ensures "C" in NATURALS && IsHomonomous("D", "D")
    ensures !IsHomonomous("C", "D")
    ensures DecoderLookup("Dbb") == Some("C") && IsHomonomous("Dbb", "D")
  {
    NaturalsValue();
    BinomialsValue();
    var sp := Spelling(2, true, 2);
    assert Repeat(FLAT_SYMBOL, 2) == "bb";
    assert SpellingName(sp) == "Dbb";
    ParseSpelling(sp);
    assert DecodedIndex(sp) == 0;
  }

  /** Every natural is a scale name. */
  lemma NaturalInScale(name: string)
    requires name in NATURALS
    ensures name in CHROMATIC_BINOMIALS
  {
    NaturalsValue();
  }

  /** Among the names that decode to a natural, the shortest is the natural:
      it is the only one of length one, and no key is shorter. */
  lemma NaturalIsShortest(value: string, options: seq<string>, p: nat)
    requires value in NATURALS
    requires forall e :: e in options <==> DecoderLookup(e) == Some(value)
    requires p < |options| && forall j :: 0 <= j < |options| ==> |options[p]| <= |options[j]|
    ensures options[p] == value
  {
    ShortKeys(value);
    NaturalsValue();
    var i :| 0 <= i < |options| && options[i] == value;
    ShortKeys(options[p]);
  }

  /** encode_enharmonic(note_value, note_name) with the filter evidently
      intended: keep the equivalents homonymous with note_name, then take the
      shortest. The result is a spelling of the natural on note_name's
      letter, and no such spelling is shorter. */
  method EncodeEnharmonicCorrected(noteValue: string, noteName: string) returns (r: Result<string>)
    ensures noteValue !in NATURALS ==> r == Err(TargetNotNatural)
    ensures noteValue in NATURALS ==>
      (r.Ok? <==> IsHomonomous(noteName, noteName) && LetterIndex(noteName[0]) >= 0)
    ensures noteValue in NATURALS && r.Err? ==> r.error == IndexOutOfBounds
    ensures r.Ok? ==> DecoderLookup(r.value) == Some(noteValue) && IsHomonomous(r.value, noteName)
    ensures r.Ok? ==> forall e :: DecoderLookup(e) == Some(noteValue) && IsHomonomous(e, noteName) ==> |r.value| <= |e|
    ensures r.Ok? ==> |r.value| <= 7
  {
    if noteValue !in NATURALS {
      return Err(TargetNotNatural);
    }
    NaturalInScale(noteValue);
    var decoded := DecodeEnharmonic(noteValue);
    var value := decoded.value;
    var options := GetEnharmonicEquivalents(value);
    var homonymousOptions := HomonymousWith(options, noteName);
    if |homonymousOptions| == 0 {
      if IsHomonomous(noteName, noteName) && LetterIndex(noteName[0]) >= 0 {
        var e := HomonymOf(value, noteName);
        assert false;
      }
      return Err(IndexOutOfBounds);
    }
    var first := homonymousOptions[0];
    assert first in options;
    KeyShape(first);
    var p := FirstShortest(homonymousOptions);
    var short := HomonymOf(value, noteName);
    assert short in homonymousOptions;
    return Ok(homonymousOptions[p]);
  }

  /** The options homonymous with noteName, in their order. */
  method HomonymousWith(options: seq<string>, noteName: string) returns (homonymousOptions: seq<string>)
    ensures homonymousOptions == Homonyms(options, noteName)
    ensures forall e :: e in homonymousOptions <==> e in options && IsHomonomous(e, noteName)
  {
    homonymousOptions := [];
    for j := 0 to |options|
      invariant homonymousOptions == Homonyms(options[..j], noteName)
    {
      assert options[..j + 1][..j] == options[..j];
      if IsHomonomous(options[j], noteName) {
        homonymousOptions := homonymousOptions + [options[j]];
      }
    }
    assert options[..|options|] == options;
  }

  /** The options homonymous with noteName, in their order. */
  function Homonyms(options: seq<string>, noteName: string): (r: seq<string>)
    ensures forall e :: e in r <==> e in options && IsHomonomous(e, noteName)
  {
    if |options| == 0 then []
    else
      var init := options[..|options| - 1];
      var last := options[|options| - 1];
      assert options == init + [last];
      Homonyms(init, noteName) + (if IsHomonomous(last, noteName) then [last] else [])
  }

  /** The spelling on natural letter k of the note at index j with the
      fewer accidentals: j - k sharps or k - j flats, counted mod 12, and one
      of the two counts is at most six. */
  lemma ShortSpellingTo(j: int, k: int) returns (sp: Spelling)
    requires 0 <= j < 12 && 0 <= k < 12 && |CHROMATIC_BINOMIALS[k]| == 1
    ensures ValidSpelling(sp) && sp.letter == k && DecodedIndex(sp) == j && sp.count <= 6
  {
    var d := if k <= j then j - k else j - k + 12;
    if d <= 6 {
      sp := Spelling(k, false, d);
      ModUnique(k + d, 12, if k <= j then 0 else 1, j);
    } else {
      sp := Spelling(k, true, 12 - d);
      ModUnique(k - (12 - d), 12, if k <= j then -1 else 0, j);
    }
  }

  /** Every natural has a spelling on every letter with at most six
      accidentals: the natural of that letter followed by sharps or by
      flats, whichever takes fewer. */
  lemma HomonymOf(value: string, noteName: string) returns (e: string)
    requires value in NATURALS
    requires IsHomonomous(noteName, noteName) && LetterIndex(noteName[0]) >= 0
    ensures DecoderLookup(e) == Some(value) && IsHomonomous(e, noteName)
    ensures |e| <= 7
  {
    NaturalInScale(value);
    var j :| 0 <= j < 12 && CHROMATIC_BINOMIALS[j] == value;
    var k := LetterIndex(noteName[0]);
    var sp := ShortSpellingTo(j, k);
    e := SpellingName(sp);
    ParseSpelling(sp);
    assert e[..1] == [noteName[0]];
    if e in BINOMIALS {
      BinomialsNotKeys(e);
    }
  }

  // ---------------------------------------------------------------------
  // Scientific notation

  /** chromatic(SHARPS) and chromatic(FLATS). */
  const CHROMATIC_SHARPS: seq<string> :=
    ["C", "C#", "D", "D#", "E", "F", "F#", "G", "G#", "A", "A#", "B"]
  const CHROMATIC_FLATS: seq<string> :=
    ["C", "Db", "D", "Eb", "E", "F", "Gb", "G", "Ab", "A", "Bb", "B"]

  lemma ChromaticAccidentalsValue()
    ensures |SHARPS| == 5 && CHROMATIC_SHARPS == ChromaticSpec(SHARPS)
    ensures |FLATS| == 5 && CHROMATIC_FLATS == ChromaticSpec(FLATS)
  {
    NaturalsValue();
    SharpsAndFlats();
  }

  /** Position by position, the sharp and the flat scale agree with the
      binomial one: a natural is the same name in all three, and a binomial
      joins the sharp of the natural below with the flat of the one above. */
  lemma ScaleStyles(cb: seq<string>, sharps: seq<string>, flats: seq<string>)
    requires cb == ["C", "C#|Db", "D", "D#|Eb", "E", "F", "F#|Gb", "G", "G#|Ab", "A", "A#|Bb", "B"]
    requires sharps == ["C", "C#", "D", "D#", "E", "F", "F#", "G", "G#", "A", "A#", "B"]
    requires flats == ["C", "Db", "D", "Eb", "E", "F", "Gb", "G", "Ab", "A", "Bb", "B"]
    ensures forall j :: 0 <= j < 12 && |cb[j]| == 1 ==> sharps[j] == cb[j] && flats[j] == cb[j]
    ensures forall j :: 0 <= j < 12 && |cb[j]| != 1 ==>
      && 1 <= j < 11 && |cb[j - 1]| == 1 && |cb[j + 1]| == 1
      && sharps[j] == cb[j - 1] + "#" && flats[j] == cb[j + 1] + "b" && cb[j] == sharps[j] + "|" + flats[j]
  {
    forall j | 0 <= j < 12 && |cb[j]| != 1
      ensures && 1 <= j < 11 && |cb[j - 1]| == 1 && |cb[j + 1]| == 1
              && sharps[j] == cb[j - 1] + "#" && flats[j] == cb[j + 1] + "b" && cb[j] == sharps[j] + "|" + flats[j]
    {
      BinomialStyle(cb[j], sharps[j], flats[j], cb[j - 1], cb[j + 1]);
    }
  }

  /** A binomial name is the sharp name of the natural below joined to the
      flat name of the natural above. */
  lemma BinomialStyle(binomial: string, sharp: string, flat: string, below: string, above: string)
    requires |binomial| == 5 && |sharp| == 2 && |flat| == 2 && |below| == 1 && |above| == 1
    requires binomial[0] == sharp[0] == below[0] && binomial[1] == sharp[1] == '#' && binomial[2] == '|'
    requires binomial[3] == flat[0] == above[0] && binomial[4] == flat[1] == 'b'
    ensures sharp == below + "#" && flat == above + "b" && binomial == sharp + "|" + flat
  {
  }

  /** In all three styles position j of the chromatic scale names the same
      pitch: the decoder reads the sharp and the flat name as the binomial. */
  lemma StylesAgree(j: nat)
    requires j < TONES
    ensures CHROMATIC_BINOMIALS[j] == CHROMATIC_SHARPS[j] || CHROMATIC_BINOMIALS[j] == CHROMATIC_SHARPS[j] + "|" + CHROMATIC_FLATS[j]
    ensures DecoderLookup(CHROMATIC_SHARPS[j]) == Some(CHROMATIC_BINOMIALS[j])
    ensures DecoderLookup(CHROMATIC_FLATS[j]) == Some(CHROMATIC_BINOMIALS[j])
  {
    ScaleStyles(CHROMATIC_BINOMIALS, CHROMATIC_SHARPS, CHROMATIC_FLATS);
    if |CHROMATIC_BINOMIALS[j]| == 1 {
      NaturalAgrees(j, CHROMATIC_SHARPS[j]);
      NaturalAgrees(j, CHROMATIC_FLATS[j]);
    } else {
      SharpAgrees(j - 1, CHROMATIC_SHARPS[j]);
      FlatAgrees(j + 1, CHROMATIC_FLATS[j]);
    }
  }

  lemma NaturalAgrees(j: nat, name: string)
    requires j < TONES && |CHROMATIC_BINOMIALS[j]| == 1 && name == CHROMATIC_BINOMIALS[j]
    ensures DecoderLookup(name) == Some(CHROMATIC_BINOMIALS[j])
  {
    var sp := Spelling(j, false, 0);
    assert ValidSpelling(sp) && SpellingName(sp) == name;
    ParseSpelling(sp);
    ModUnique(j, 12, 0, j);
    assert DecodedIndex(sp) == j;
  }

  lemma SharpAgrees(j: nat, name: string)
    requires j + 1 < TONES && |CHROMATIC_BINOMIALS[j]| == 1 && name == CHROMATIC_BINOMIALS[j] + "#"
    ensures DecoderLookup(name) == Some(CHROMATIC_BINOMIALS[j + 1])
  {
    var sp := Spelling(j, false, 1);
    assert Repeat(SHARP_SYMBOL, 1) == SHARP_SYMBOL + Repeat(SHARP_SYMBOL, 0) == "#";
    assert ValidSpelling(sp) && SpellingName(sp) == name;
    ParseSpelling(sp);
    ModUnique(j + 1, 12, 0, j + 1);
    assert DecodedIndex(sp) == j + 1;
  }

  lemma FlatAgrees(j: nat, name: string)
    requires 1 <= j < TONES && |CHROMATIC_BINOMIALS[j]| == 1 && name == CHROMATIC_BINOMIALS[j] + "b"
    ensures DecoderLookup(name) == Some(CHROMATIC_BINOMIALS[j - 1])
  {
    var sp := Spelling(j, true, 1);
    assert Repeat(FLAT_SYMBOL, 1) == FLAT_SYMBOL + Repeat(FLAT_SYMBOL, 0) == "b";
    assert ValidSpelling(sp) && SpellingName(sp) == name;
    ParseSpelling(sp);
    ModUnique(j - 1, 12, 0, j - 1);
    assert DecodedIndex(sp) == j - 1;
  }

  /** scientific_octave(accidental_notes, octave): the chromatic scale in
      that style with the octave's numeral appended to every name. */
  function ScientificOctave(accidentals: seq<string>, octave: int): (r: seq<string>)
    requires |accidentals| >= 5
    ensures |r| == TONES
    ensures 0 <= octave < 10 ==> forall j :: 0 <= j < TONES ==> r[j] == ChromaticSpec(accidentals)[j] + [DigitChar(octave)]
  {
    assert 0 <= octave < 10 ==> IntToString(octave) == [DigitChar(octave)];
    seq(TONES, j requires 0 <= j < TONES => ChromaticSpec(accidentals)[j] + IntToString(octave))
  }

  /** A scientific name of a single-digit octave is a chromatic name and
      then the digit: cutting the last character off gives the name back. */
  lemma ScientificNameParts(accidentals: seq<string>, octave: int, j: nat)
    requires |accidentals| >= 5 && 0 <= octave < 10 && j < TONES
    ensures var note := ScientificOctave(accidentals, octave)[j];
      && |note| >= 1 && note[..|note| - 1] == ChromaticSpec(accidentals)[j]
      && note[|note| - 1] == DigitChar(octave) && IsDigit(note[|note| - 1])
  {
  }

  /** Eight octaves of a twelve-name scale: position p is the name at p mod
      12 followed by the digit p div 12. */
  function ScaleRange(scale: seq<string>): (r: seq<string>)
    requires |scale| == TONES
    ensures |r| == NUMBER_OF_OCTAVES * TONES
  {
    seq(NUMBER_OF_OCTAVES * TONES, p requires 0 <= p < NUMBER_OF_OCTAVES * TONES => scale[p % TONES] + [DigitChar(p / TONES)])
  }

  /** Position 12 * octave + j of a range is name j with the digit octave. */
  lemma ScaleRangeAt(scale: seq<string>, octave: nat, j: nat)
    requires |scale| == TONES && octave < NUMBER_OF_OCTAVES && j < TONES
    ensures ScaleRange(scale)[TONES * octave + j] == scale[j] + [DigitChar(octave)]
  {
    ModUnique(TONES * octave + j, TONES, octave, j);
  }

  /** scientific_range(accidental_notes): the scientific octaves 0 to 7 one
      after another. */
  method ScientificRange(accidentalNotes: seq<string>) returns (fullRange: seq<string>)
    requires |accidentalNotes| >= 5
    ensures fullRange == ScaleRange(ChromaticSpec(accidentalNotes))
  {
    ghost var spec := ScaleRange(ChromaticSpec(accidentalNotes));
    fullRange := [];
    for octave := 0 to NUMBER_OF_OCTAVES
      invariant fullRange == spec[..TONES * octave]
    {
      var newOctave := ScientificOctave(accidentalNotes, octave);
      OctaveSlice(accidentalNotes, octave);
      fullRange := fullRange + newOctave;
    }
  }

  /** Octave o of the range is scientific_octave(accidentals, o). */
  lemma OctaveSlice(accidentals: seq<string>, octave: nat)
    requires |accidentals| >= 5 && octave < NUMBER_OF_OCTAVES
    ensures ScaleRange(ChromaticSpec(accidentals))[..TONES * (octave + 1)]
         == ScaleRange(ChromaticSpec(accidentals))[..TONES * octave] + ScientificOctave(accidentals, octave)
  {
    RangeSlice(ChromaticSpec(accidentals), octave, ScientificOctave(accidentals, octave));
  }

  /** Octave o of the range of any scale is that scale with the digit o. */
  lemma RangeSlice(scale: seq<string>, octave: nat, names: seq<string>)
    requires |scale| == TONES && octave < NUMBER_OF_OCTAVES && |names| == TONES
    requires forall j :: 0 <= j < TONES ==> names[j] == scale[j] + [DigitChar(octave)]
    ensures ScaleRange(scale)[..TONES * (octave + 1)] == ScaleRange(scale)[..TONES * octave] + names
  {
    var range := ScaleRange(scale);
    forall j | 0 <= j < TONES ensures range[TONES * octave + j] == names[j] {
      ScaleRangeAt(scale, octave, j);
    }
  }

  /** scientific_range(): the range in the binomial style. */
  method ScientificRangeBinomials() returns (fullRange: seq<string>)
    ensures fullRange == ScaleRange(CHROMATIC_BINOMIALS)
  {
    ChromaticBinomialsValue();
    fullRange := ScientificRange(BINOMIALS);
  }

  // ---------------------------------------------------------------------
  // encode_scientific_enharmonic

  /** The index of a scientific name in the sharp range, or else in the flat
      range, or -1 when it is in neither. */
  function TargetIndex(noteValue: string): (r: int)
    ensures -1 <= r < NUMBER_OF_OCTAVES * TONES
    ensures r == -1 <==> noteValue !in ScaleRange(CHROMATIC_SHARPS) && noteValue !in ScaleRange(CHROMATIC_FLATS)
    ensures r >= 0 ==> noteValue == ScaleRange(CHROMATIC_SHARPS)[r] || noteValue == ScaleRange(CHROMATIC_FLATS)[r]
  {
    var sharps := ScaleRange(CHROMATIC_SHARPS);
    if noteValue in sharps then IndexOf(sharps, noteValue) else IndexOf(ScaleRange(CHROMATIC_FLATS), noteValue)
  }

  /** The target is a name of pitch class index mod 12 (read by the
      decoder as the binomial there) followed by the octave digit. */
  lemma TargetSounds(noteValue: string)
    requires TargetIndex(noteValue) >= 0
    ensures var index := TargetIndex(noteValue);
      && |noteValue| >= 2 && noteValue[|noteValue| - 1] == DigitChar(index / TONES)
      && DecoderLookup(noteValue[..|noteValue| - 1]) == Some(CHROMATIC_BINOMIALS[index % TONES])
  {
    var index := TargetIndex(noteValue);
    StylesAgree(index % TONES);
    var name := if noteValue == ScaleRange(CHROMATIC_SHARPS)[index] then CHROMATIC_SHARPS[index % TONES]
                else CHROMATIC_FLATS[index % TONES];
    assert noteValue == name + [DigitChar(index / TONES)];
    assert noteValue[..|noteValue| - 1] == name;
  }

  /** The answer for "below" when note_name is scale name k: note_name with
      as many sharps as it lies below the target in the binomial scale, and
      the digit of its own octave. */
  function RespelledBelow(index: int, k: nat): (r: string)
    requires TONES - 1 <= index < NUMBER_OF_OCTAVES * TONES && k < TONES
  {
    var i := (index - k) % TONES;
    CHROMATIC_BINOMIALS[k] + Repeat(SHARP_SYMBOL, i) + [DigitChar((index - i) / TONES)]
  }

  /** The answer for "above": note_name with as many flats as it lies above
      the target, and the digit of its own octave. */
  function RespelledAbove(index: int, k: nat): (r: string)
    requires 0 <= index <= (NUMBER_OF_OCTAVES - 1) * TONES && k < TONES
  {
    var i := (k - index) % TONES;
    CHROMATIC_BINOMIALS[k] + Repeat(FLAT_SYMBOL, i) + [DigitChar((index + i) / TONES)]
  }

  /** The sharps raise scale name k in its octave to the target's pitch:
      octave * 12 + k + sharps is the target index, and a natural with those
      sharps decodes to the target's pitch class. */
  lemma RespelledBelowSounds(index: int, k: nat)
    requires TONES - 1 <= index < NUMBER_OF_OCTAVES * TONES && k < TONES
    ensures var i := (index - k) % TONES; var r := RespelledBelow(index, k);
      && TONES * ((index - i) / TONES) + k + i == index
      && |r| >= 1 && r[|r| - 1] == DigitChar((index - i) / TONES)
      && Stem(r) == CHROMATIC_BINOMIALS[k] + Repeat(SHARP_SYMBOL, i)
    ensures |CHROMATIC_BINOMIALS[k]| == 1 ==>
      DecoderLookup(Stem(RespelledBelow(index, k))) == Some(CHROMATIC_BINOMIALS[index % TONES])
  {
    var i := (index - k) % TONES;
    var r := RespelledBelow(index, k);
    var stem := CHROMATIC_BINOMIALS[k] + Repeat(SHARP_SYMBOL, i);
    assert r == stem + [DigitChar((index - i) / TONES)];
    assert Stem(r) == stem;
    SharpsReach(index, k, i);
    if |CHROMATIC_BINOMIALS[k]| == 1 {
      DecodeSharps(k, i);
    }
  }

  /** Counting i = (index - k) mod 12 up from k lands on index's octave
      boundary plus k, and on index's pitch class. */
  lemma SharpsReach(index: int, k: nat, i: int)
    requires 0 <= index && k < TONES && i == (index - k) % TONES
    ensures TONES * ((index - i) / TONES) + k + i == index
    ensures (k + i) % TONES == index % TONES
  {
    var o := (index - k) / TONES;
    ModUnique(index - i, TONES, o, k);
    assert k + i == TONES * (index / TONES - o) + index % TONES;
    ModUnique(k + i, TONES, index / TONES - o, index % TONES);
  }

  /** The flats lower scale name k in its octave to the target's pitch. */
  lemma RespelledAboveSounds(index: int, k: nat)
    requires 0 <= index <= (NUMBER_OF_OCTAVES - 1) * TONES && k < TONES
    ensures var i := (k - index) % TONES; var r := RespelledAbove(index, k);
      && TONES * ((index + i) / TONES) + k - i == index
      && |r| >= 1 && r[|r| - 1] == DigitChar((index + i) / TONES)
      && Stem(r) == CHROMATIC_BINOMIALS[k] + Repeat(FLAT_SYMBOL, i)
    ensures |CHROMATIC_BINOMIALS[k]| == 1 ==>
      DecoderLookup(Stem(RespelledAbove(index, k))) == Some(CHROMATIC_BINOMIALS[index % TONES])
  {
    var i := (k - index) % TONES;
    var r := RespelledAbove(index, k);
    var stem := CHROMATIC_BINOMIALS[k] + Repeat(FLAT_SYMBOL, i);
    assert r == stem + [DigitChar((index + i) / TONES)];
    assert Stem(r) == stem;
    FlatsReach(index, k, i);
    if |CHROMATIC_BINOMIALS[k]| == 1 {
      DecodeFlats(k, i);
    }
  }

  /** Counting i = (k - index) mod 12 down from k lands on index's pitch
      class. */
  lemma FlatsReach(index: int, k: nat, i: int)
    requires 0 <= index && k < TONES && i == (k - index) % TONES
    ensures TONES * ((index + i) / TONES) + k - i == index
    ensures (k - i) % TONES == index % TONES
  {
    var o := -((k - index) / TONES);
    ModUnique(index + i, TONES, o, k);
    assert k - i == TONES * (index / TONES - o) + index % TONES;
    ModUnique(k - i, TONES, index / TONES - o, index % TONES);
  }


  /** Which range the target is read from, and where it is in it. */
  method TargetPosition(noteValue: string) returns (index: int)
    ensures index == TargetIndex(noteValue)
  {
    ChromaticAccidentalsValue();
    var accidentals: seq<string>;
    var sharpRange := ScientificRange(SHARPS);
    if noteValue in sharpRange {
      accidentals := SHARPS;
    } else {
      var flatRange := ScientificRange(FLATS);
      if noteValue in flatRange {
        accidentals := FLATS;
      } else {
        return -1;
      }
    }
    var range := ScientificRange(accidentals);
    index := IndexOf(range, noteValue);
  }

  /** The text of a scientific name without its octave digit. */
  function Stem(note: string): (r: string)
    requires |note| >= 1
    ensures |r| == |note| - 1
  {
    note[..|note| - 1]
  }

  /** The binomial name i steps below, or above, index in the range. */
  function StepBelow(index: int, i: int): (r: string)
  {
    CHROMATIC_BINOMIALS[(index - i) % TONES]
  }

  function StepAbove(index: int, i: int): (r: string)
  {
    CHROMATIC_BINOMIALS[(index + i) % TONES]
  }

  /** The window searched for "below": from the target down, twelve steps. */
  lemma WindowBelow(binomialRange: seq<string>, index: int, window: seq<string>)
    requires binomialRange == ScaleRange(CHROMATIC_BINOMIALS)
    requires TONES - 1 <= index < NUMBER_OF_OCTAVES * TONES
    requires window == Reversed(binomialRange[index + 1 - TONES..index + 1])
    ensures |window| == TONES
    ensures forall i :: 0 <= i < TONES ==> |window[i]| >= 1 && Stem(window[i]) == StepBelow(index, i)
    ensures forall i :: 0 <= i < TONES ==> window[i][|window[i]| - 1..] == [DigitChar((index - i) / TONES)]
  {
    forall i | 0 <= i < TONES
      ensures window[i] == StepBelow(index, i) + [DigitChar((index - i) / TONES)]
    {
      assert window[i] == binomialRange[index - i];
    }
  }

  /** The window searched for "above": from the target up, twelve steps. */
  lemma WindowAbove(binomialRange: seq<string>, index: int, window: seq<string>)
    requires binomialRange == ScaleRange(CHROMATIC_BINOMIALS)
    requires 0 <= index <= (NUMBER_OF_OCTAVES - 1) * TONES
    requires window == binomialRange[index..index + TONES]
    ensures |window| == TONES
    ensures forall i :: 0 <= i < TONES ==> |window[i]| >= 1 && Stem(window[i]) == StepAbove(index, i)
    ensures forall i :: 0 <= i < TONES ==> window[i][|window[i]| - 1..] == [DigitChar((index + i) / TONES)]
  {
    forall i | 0 <= i < TONES
      ensures window[i] == StepAbove(index, i) + [DigitChar((index + i) / TONES)]
    {
      assert window[i] == binomialRange[index + i];
    }
  }

  /** A match at step i of the "below" window is the scale name k that lies
      i steps below the target. */
  lemma MatchBelow(index: int, i: nat, k: nat)
    requires 0 <= index && i < TONES && k < TONES
    requires CHROMATIC_BINOMIALS[k] == StepBelow(index, i)
    ensures i == (index - k) % TONES
  {
    ScaleDistinct(CHROMATIC_BINOMIALS);
    ModUnique(index - k, TONES, (index - i) / TONES, i);
  }

  lemma MatchAbove(index: int, i: nat, k: nat)
    requires 0 <= index && i < TONES && k < TONES
    requires CHROMATIC_BINOMIALS[k] == StepAbove(index, i)
    ensures i == (k - index) % TONES
  {
    ScaleDistinct(CHROMATIC_BINOMIALS);
    ModUnique(k - index, TONES, -((index + i) / TONES), i);
  }

  /** With no match in twelve steps down, or up, the name is no scale name. */
  lemma NoMatchBelow(index: int, noteName: string)
    requires forall i :: 0 <= i < TONES ==> StepBelow(index, i) != noteName
    ensures noteName !in CHROMATIC_BINOMIALS
  {
    forall k | 0 <= k < TONES ensures CHROMATIC_BINOMIALS[k] != noteName {
      var i := (index - k) % TONES;
      ModUnique(index - i, TONES, (index - k) / TONES, k);
      assert StepBelow(index, i) == CHROMATIC_BINOMIALS[k];
    }
  }

  lemma NoMatchAbove(index: int, noteName: string)
    requires forall i :: 0 <= i < TONES ==> StepAbove(index, i) != noteName
    ensures noteName !in CHROMATIC_BINOMIALS
  {
    forall k | 0 <= k < TONES ensures CHROMATIC_BINOMIALS[k] != noteName {
      var i := (k - index) % TONES;
      ModUnique(index + i, TONES, -((k - index) / TONES), k);
      assert StepAbove(index, i) == CHROMATIC_BINOMIALS[k];
    }
  }

  /** The search loop of encode_scientific_enharmonic: the first note of the
      window whose text without its digit is note_name, given symbol once
      per step before the digit. */
  method SearchWindow(octave: seq<string>, noteName: string, symbol: string) returns (r: Result<string>)
    requires forall i :: 0 <= i < |octave| ==> |octave[i]| >= 1
    ensures r.Err? <==> forall i :: 0 <= i < |octave| ==> Stem(octave[i]) != noteName
    ensures r.Err? ==> r.error == UnableToResolve(noteName)
    ensures forall i :: (0 <= i < |octave| && Stem(octave[i]) == noteName
                         && (forall j :: 0 <= j < i ==> Stem(octave[j]) != noteName))
                         ==> r == Ok(noteName + Repeat(symbol, i) + octave[i][|octave[i]| - 1..])
  {
    for i := 0 to |octave|
      invariant forall j :: 0 <= j < i ==> Stem(octave[j]) != noteName
    {
      var note := octave[i];
      if note[..|note| - 1] == noteName {
        return Ok(note[..|note| - 1] + Repeat(symbol, i) + note[|note| - 1..]);
      }
    }
    return Err(UnableToResolve(noteName));
  }

  /** In the "below" window scale name k first appears at step (index - k) % TONES. */
  lemma FirstMatchBelow(index: int, window: seq<string>, k: nat) returns (i: nat)
    requires 0 <= index && |window| == TONES && k < TONES
    requires forall i :: 0 <= i < TONES ==> |window[i]| >= 1 && Stem(window[i]) == StepBelow(index, i)
    ensures i == (index - k) % TONES && Stem(window[i]) == CHROMATIC_BINOMIALS[k]
    ensures forall j :: 0 <= j < i ==> Stem(window[j]) != CHROMATIC_BINOMIALS[k]
  {
    i := (index - k) % TONES;
    ModUnique(index - i, TONES, (index - k) / TONES, k);
    forall j | 0 <= j < i ensures Stem(window[j]) != CHROMATIC_BINOMIALS[k] {
      if Stem(window[j]) == CHROMATIC_BINOMIALS[k] {
        MatchBelow(index, j, k);
      }
    }
  }

  /** What the search finds in the "below" window. */
  lemma FoundBelow(index: int, window: seq<string>, noteName: string, r: Result<string>)
    requires TONES - 1 <= index < NUMBER_OF_OCTAVES * TONES && |window| == TONES
    requires forall i :: 0 <= i < TONES ==> |window[i]| >= 1 && Stem(window[i]) == StepBelow(index, i)
    requires forall i :: 0 <= i < TONES ==> window[i][|window[i]| - 1..] == [DigitChar((index - i) / TONES)]
    requires r.Err? <==> forall i :: 0 <= i < |window| ==> Stem(window[i]) != noteName
    requires r.Err? ==> r.error == UnableToResolve(noteName)
    requires forall i :: (0 <= i < |window| && Stem(window[i]) == noteName
                         && (forall j :: 0 <= j < i ==> Stem(window[j]) != noteName))
                         ==> r == Ok(noteName + Repeat(SHARP_SYMBOL, i) + window[i][|window[i]| - 1..])
    ensures noteName !in CHROMATIC_BINOMIALS ==> r == Err(UnableToResolve(noteName))
    ensures forall k :: 0 <= k < TONES && CHROMATIC_BINOMIALS[k] == noteName ==> r == Ok(RespelledBelow(index, k))
  {
    if noteName in CHROMATIC_BINOMIALS {
      forall k | 0 <= k < TONES && CHROMATIC_BINOMIALS[k] == noteName
        ensures r == Ok(RespelledBelow(index, k))
      {
        var i := FirstMatchBelow(index, window, k);
        assert window[i][|window[i]| - 1..] == [DigitChar((index - i) / TONES)];
      }
    } else {
      assert forall i :: 0 <= i < TONES ==> Stem(window[i]) != noteName;
    }
  }

  /** In the "above" window scale name k first appears at step (k - index) % TONES. */
  lemma FirstMatchAbove(index: int, window: seq<string>, k: nat) returns (i: nat)
    requires 0 <= index && |window| == TONES && k < TONES
    requires forall i :: 0 <= i < TONES ==> |window[i]| >= 1 && Stem(window[i]) == StepAbove(index, i)
    ensures i == (k - index) % TONES && Stem(window[i]) == CHROMATIC_BINOMIALS[k]
    ensures forall j :: 0 <= j < i ==> Stem(window[j]) != CHROMATIC_BINOMIALS[k]
  {
    i := (k - index) % TONES;
    ModUnique(index + i, TONES, -((k - index) / TONES), k);
    forall j | 0 <= j < i ensures Stem(window[j]) != CHROMATIC_BINOMIALS[k] {
      if Stem(window[j]) == CHROMATIC_BINOMIALS[k] {
        MatchAbove(index, j, k);
      }
    }
  }

  /** What the search finds in the "above" window. */
  lemma FoundAbove(index: int, window: seq<string>, noteName: string, r: Result<string>)
    requires 0 <= index <= (NUMBER_OF_OCTAVES - 1) * TONES && |window| == TONES
    requires forall i :: 0 <= i < TONES ==> |window[i]| >= 1 && Stem(window[i]) == StepAbove(index, i)
    requires forall i :: 0 <= i < TONES ==> window[i][|window[i]| - 1..] == [DigitChar((index + i) / TONES)]
    requires r.Err? <==> forall i :: 0 <= i < |window| ==> Stem(window[i]) != noteName
    requires r.Err? ==> r.error == UnableToResolve(noteName)
    requires forall i :: (0 <= i < |window| && Stem(window[i]) == noteName
                         && (forall j :: 0 <= j < i ==> Stem(window[j]) != noteName))
                         ==> r == Ok(noteName + Repeat(FLAT_SYMBOL, i) + window[i][|window[i]| - 1..])
    ensures noteName !in CHROMATIC_BINOMIALS ==> r == Err(UnableToResolve(noteName))
    ensures forall k :: 0 <= k < TONES && CHROMATIC_BINOMIALS[k] == noteName ==> r == Ok(RespelledAbove(index, k))
  {
    if noteName in CHROMATIC_BINOMIALS {
      forall k | 0 <= k < TONES && CHROMATIC_BINOMIALS[k] == noteName
        ensures r == Ok(RespelledAbove(index, k))
      {
        var i := FirstMatchAbove(index, window, k);
        assert window[i][|window[i]| - 1..] == [DigitChar((index + i) / TONES)];
      }
    } else {
      assert forall i :: 0 <= i < TONES ==> Stem(window[i]) != noteName;
    }
  }

  /** encode_scientific_enharmonic(note_value, note_name, position): respell
      the target with note_name, looking for note_name in the twelve
      binomial scientific names from the target down ("below", with sharps)
      or up ("above", with flats). A target in neither the sharp nor the flat
      range, an unknown position, a window past either end of the range,
      and a note_name in none of the twelve names are errors. */
  method EncodeScientificEnharmonic(noteValue: string, noteName: string, position: string) returns (r: Result<string>)
    ensures TargetIndex(noteValue) < 0 ==> r == Err(CannotResolveBinomial)
    ensures TargetIndex(noteValue) >= 0 && ParsePosition(position).None? ==> r == Err(UnknownPosition(position))
    ensures TargetIndex(noteValue) >= 0 && ParsePosition(position) == Some(Below) ==>
      if TargetIndex(noteValue) < TONES - 1 then r == Err(IndexOutOfBounds)
      else if noteName !in CHROMATIC_BINOMIALS then r == Err(UnableToResolve(noteName))
      else forall k :: 0 <= k < TONES && CHROMATIC_BINOMIALS[k] == noteName ==>
        r == Ok(RespelledBelow(TargetIndex(noteValue), k))
    ensures TargetIndex(noteValue) >= 0 && ParsePosition(position) == Some(Above) ==>
      if TargetIndex(noteValue) > (NUMBER_OF_OCTAVES - 1) * TONES then r == Err(IndexOutOfBounds)
      else if noteName !in CHROMATIC_BINOMIALS then r == Err(UnableToResolve(noteName))
      else forall k :: 0 <= k < TONES && CHROMATIC_BINOMIALS[k] == noteName ==>
        r == Ok(RespelledAbove(TargetIndex(noteValue), k))
  {
    var index := TargetPosition(noteValue);
    if index < 0 {
      return Err(CannotResolveBinomial);
    }
    ghost var target := index;
    match ParsePosition(position) {
      case Some(Below) =>
        index := index + 1;
        var binomialRange := ScientificRangeBinomials();
        if index - TONES < 0 {
          return Err(IndexOutOfBounds);
        }
        var octave := Reversed(binomialRange[index - TONES..index]);
        WindowBelow(binomialRange, target, octave);
        r := SearchWindow(octave, noteName, SHARP_SYMBOL);
        FoundBelow(target, octave, noteName, r);
      case Some(Above) =>
        var binomialRange := ScientificRangeBinomials();
        if index + TONES > |binomialRange| {
          return Err(IndexOutOfBounds);
        }
        var octave := binomialRange[index..index + TONES];
        WindowAbove(binomialRange, target, octave);
        r := SearchWindow(octave, noteName, FLAT_SYMBOL);
        FoundAbove(target, octave, noteName, r);
      case None =>
        return Err(UnknownPosition(position));
    }
  }
}
