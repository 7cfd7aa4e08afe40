/** The library's constants: the precursor values, the interval values and
    the note-name tables derived from the alphabet "ABCDEFG". */
module Constants {
  import opened Wrappers
  import opened JavaText
  import opened BigBits

  // ---------------------------------------------------------------------
  // Precursor values

  const ALPHABETIC_PRECURSOR: string := "ABCDEFG"
  const TONES: nat := 12
  const NOTES: nat := 7
  const SHARP_VALUE: int := 1
  const FLAT_VALUE: int := -1
  const NUMBER_OF_OCTAVES: nat := 8

  const SHARP_SYMBOL: string := "#"
  const FLAT_SYMBOL: string := "b"
  const BINOMIAL_DIVIDER_SYMBOL: string := "|"
  const ACCIDENTAL_SYMBOLS: seq<string> := [SHARP_SYMBOL, FLAT_SYMBOL]

  // ---------------------------------------------------------------------
  // IntervalValues: bit 0 is the root, bit k the note k semitones above it

  const UNISON: nat := 1
  const HEMITONE: nat := 3
  const TONE: nat := 5
  const HEMIOLION: nat := 9
  const DITONE: nat := 17
  const DIATESSARON: nat := 33
  const TRITONE: nat := 65
  const DIAPENTE: nat := 129
  const COMPOUND_HEMITONE: nat := 257
  const COMPOUND_TONE: nat := 513
  const COMPOUND_HEMIOLION: nat := 1025
  const COMPOUND_DITONE: nat := 2049
  const DIAPASON: nat := 4097

  /** The interval values in order of size, UNISON first. */
  const INTERVAL_VALUES: seq<nat> :=
    [UNISON, HEMITONE, TONE, HEMIOLION, DITONE, DIATESSARON, TRITONE, DIAPENTE,
     COMPOUND_HEMITONE, COMPOUND_TONE, COMPOUND_HEMIOLION, COMPOUND_DITONE, DIAPASON]

  /** Every interval value but UNISON spans k semitones: 2^k + 1. */
  lemma IntervalValuesArePow2Plus1()
    ensures |INTERVAL_VALUES| == 13 && INTERVAL_VALUES[0] == 1
    ensures forall k :: 1 <= k < 13 ==> INTERVAL_VALUES[k] == Pow2(k) + 1
  {
    assert Pow2(1) == 2;
    assert Pow2(2) == 4;
    assert Pow2(3) == 8;
    assert Pow2(4) == 16;
    assert Pow2(5) == 32;
    assert Pow2(6) == 64;
    assert Pow2(7) == 128;
    assert Pow2(8) == 256;
    assert Pow2(9) == 512;
    assert Pow2(10) == 1024;
    assert Pow2(11) == 2048;
    assert Pow2(12) == 4096;
  }

  // ---------------------------------------------------------------------
  // Derived nomenclature

  /** String.split(""): one single-character string per character. */
  function SplitChars(s: string): (r: seq<string>)
    ensures |r| == |s|
    ensures forall i :: 0 <= i < |r| ==> r[i] == [s[i]]
  {
    if |s| == 0 then [] else [[s[0]]] + SplitChars(s[1..])
  }

  /** "ABCDEFG" rotated to start at C, split into letters. */
  const NATURALS: seq<string> :=
    SplitChars(ALPHABETIC_PRECURSOR[2..] + ALPHABETIC_PRECURSOR[..2])

  /** The two natural steps that are a semitone: E to F and B to C. */
  const HALFSTEPS: map<string, string> :=
    map[NATURALS[2] := NATURALS[3], NATURALS[6] := NATURALS[0]]

  /** The stream filter-then-map: the members of l not in excluded, in
      order, each with suffix appended. */
  function FilterAppend(l: seq<string>, excluded: set<string>, suffix: string): (r: seq<string>)
    ensures |r| <= |l|
  {
    if |l| == 0 then []
    else
      var rest := FilterAppend(l[1..], excluded, suffix);
      if l[0] in excluded then rest else [l[0] + suffix] + rest
  }

  const SHARPS: seq<string> := FilterAppend(NATURALS, HALFSTEPS.Keys, SHARP_SYMBOL)
  const FLATS: seq<string> := FilterAppend(NATURALS, HALFSTEPS.Values, FLAT_SYMBOL)
  const ACCIDENTAL_NOTES: seq<string> := SHARPS + FLATS

  /** SHARPS mapped to "sharp|flat", the flat found at the sharp's index. */
  function JoinBinomials(l: seq<string>): (r: seq<string>)
    requires forall x :: x in l ==> x in SHARPS
    requires |SHARPS| <= |FLATS|
    ensures |r| == |l|
    ensures forall j :: 0 <= j < |l| ==> r[j] == l[j] + BINOMIAL_DIVIDER_SYMBOL + FLATS[IndexOf(SHARPS, l[j])]
  {
    if |l| == 0 then []
    else [l[0] + BINOMIAL_DIVIDER_SYMBOL + FLATS[IndexOf(SHARPS, l[0])]] + JoinBinomials(l[1..])
  }

  const BINOMIALS: seq<string> := (SharpsAndFlats(); JoinBinomials(SHARPS))

  // ---------------------------------------------------------------------
  // The values the derivations produce

  lemma NaturalsValue()
    ensures NATURALS == ["C", "D", "E", "F", "G", "A", "B"]
  {
    assert ALPHABETIC_PRECURSOR[2..] + ALPHABETIC_PRECURSOR[..2] == "CDEFGAB";
  }

  lemma HalfstepsValue()
    ensures HALFSTEPS == map["E" := "F", "B" := "C"]
    ensures HALFSTEPS.Keys == {"E", "B"} && HALFSTEPS.Values == {"F", "C"}
  {
    NaturalsValue();
  }

  lemma FilterSharps()
    ensures FilterAppend(["C", "D", "E", "F", "G", "A", "B"], {"E", "B"}, "#") == ["C#", "D#", "F#", "G#", "A#"]
  {
    var n: seq<string> := ["C", "D", "E", "F", "G", "A", "B"];
    var ex := {"E", "B"};
    assert "C" + "#" == "C#";
    assert "D" + "#" == "D#";
    assert "F" + "#" == "F#";
    assert "G" + "#" == "G#";
    assert "A" + "#" == "A#";
    assert n[0..] == n;
    assert FilterAppend(n[6..], ex, "#") == [];
    assert n[5..][1..] == n[6..];
    assert FilterAppend(n[5..], ex, "#") == ["A#"];
    assert n[4..][1..] == n[5..];
    assert FilterAppend(n[4..], ex, "#") == ["G#", "A#"];
    assert n[3..][1..] == n[4..];
    assert FilterAppend(n[3..], ex, "#") == ["F#", "G#", "A#"];
    assert n[2..][1..] == n[3..];
    assert FilterAppend(n[2..], ex, "#") == ["F#", "G#", "A#"];
    assert n[1..][1..] == n[2..];
    assert FilterAppend(n[1..], ex, "#") == ["D#", "F#", "G#", "A#"];
    assert n[0..][1..] == n[1..];
    assert FilterAppend(n[0..], ex, "#") == ["C#", "D#", "F#", "G#", "A#"];
  }

  lemma FilterFlats()
    ensures FilterAppend(["C", "D", "E", "F", "G", "A", "B"], {"F", "C"}, "b") == ["Db", "Eb", "Gb", "Ab", "Bb"]
  {
    var n: seq<string> := ["C", "D", "E", "F", "G", "A", "B"];
    var ex := {"F", "C"};
    assert "D" + "b" == "Db";
    assert "E" + "b" == "Eb";
    assert "G" + "b" == "Gb";
    assert "A" + "b" == "Ab";
    assert "B" + "b" == "Bb";
    assert n[0..] == n;
    assert FilterAppend(n[6..], ex, "b") == ["Bb"];
    assert n[5..][1..] == n[6..];
    assert FilterAppend(n[5..], ex, "b") == ["Ab", "Bb"];
    assert n[4..][1..] == n[5..];
    assert FilterAppend(n[4..], ex, "b") == ["Gb", "Ab", "Bb"];
    assert n[3..][1..] == n[4..];
    assert FilterAppend(n[3..], ex, "b") == ["Gb", "Ab", "Bb"];
    assert n[2..][1..] == n[3..];
    assert FilterAppend(n[2..], ex, "b") == ["Eb", "Gb", "Ab", "Bb"];
    assert n[1..][1..] == n[2..];
    assert FilterAppend(n[1..], ex, "b") == ["Db", "Eb", "Gb", "Ab", "Bb"];
    assert n[0..][1..] == n[1..];
    assert FilterAppend(n[0..], ex, "b") == ["Db", "Eb", "Gb", "Ab", "Bb"];
  }

  lemma SharpsAndFlats()
    ensures SHARPS == ["C#", "D#", "F#", "G#", "A#"]
    ensures FLATS == ["Db", "Eb", "Gb", "Ab", "Bb"]
  {
    HalfstepsValue();
    NaturalsValue();
    FilterSharps();
    FilterFlats();
  }

  /** BINOMIALS pairs each sharp with the flat of the same pitch. */
  lemma BinomialsPairs()
    ensures |BINOMIALS| == 5 && |SHARPS| == 5 && |FLATS| == 5
    ensures forall i :: 0 <= i < 5 ==> BINOMIALS[i] == SHARPS[i] + "|" + FLATS[i]
  {
    SharpsAndFlats();
    assert forall a, b :: 0 <= a < b < 5 ==> SHARPS[a] != SHARPS[b];
    forall i | 0 <= i < 5 ensures IndexOf(SHARPS, SHARPS[i]) == i {
      IndexOfDistinct(SHARPS, i);
    }
  }

  lemma BinomialsValue()
    ensures BINOMIALS == ["C#|Db", "D#|Eb", "F#|Gb", "G#|Ab", "A#|Bb"]
  {
    BinomialsPairs();
    SharpsAndFlats();
    PairsLiteral(SHARPS, FLATS, BINOMIALS);
  }

  lemma PairsLiteral(sharps: seq<string>, flats: seq<string>, b: seq<string>)
    requires sharps == ["C#", "D#", "F#", "G#", "A#"] && flats == ["Db", "Eb", "Gb", "Ab", "Bb"]
    requires |b| == 5 && forall i :: 0 <= i < 5 ==> b[i] == sharps[i] + "|" + flats[i]
    ensures b == ["C#|Db", "D#|Eb", "F#|Gb", "G#|Ab", "A#|Bb"]
  {
    assert b[0] == "C#|Db" by { assert sharps[0] + "|" + flats[0] == "C#|Db"; }
    assert b[1] == "D#|Eb" by { assert sharps[1] + "|" + flats[1] == "D#|Eb"; }
    assert b[2] == "F#|Gb" by { assert sharps[2] + "|" + flats[2] == "F#|Gb"; }
    assert b[3] == "G#|Ab" by { assert sharps[3] + "|" + flats[3] == "G#|Ab"; }
    assert b[4] == "A#|Bb" by { assert sharps[4] + "|" + flats[4] == "A#|Bb"; }
  }

  /** ACCIDENTAL_NOTES: the five sharps, then the five flats. */
  lemma AccidentalNotesValue()
    ensures |ACCIDENTAL_NOTES| == 10
    ensures ACCIDENTAL_NOTES[..5] == SHARPS && ACCIDENTAL_NOTES[5..] == FLATS
  {
    SharpsAndFlats();
  }

  /** The naturals are seven distinct single letters. */
  lemma NaturalsDistinct()
    ensures |NATURALS| == NOTES
    ensures forall i :: 0 <= i < |NATURALS| ==> |NATURALS[i]| == 1
    ensures forall i, j :: 0 <= i < j < |NATURALS| ==> NATURALS[i] != NATURALS[j]
  {
    NaturalsValue();
  }

  /** In a list without repeats, indexOf finds an element's own index. */
  lemma IndexOfDistinct<T>(s: seq<T>, i: int)
    requires 0 <= i < |s|
    requires forall a, b :: 0 <= a < b < |s| ==> s[a] != s[b]
    ensures IndexOf(s, s[i]) == i
  {
  }

  // ---------------------------------------------------------------------
  // Keywords

  /** Keywords.BELOW and Keywords.ABOVE. */
  datatype Keyword = Below | Above

  /** The keyword a position string names, if any. */
  function ParsePosition(s: string): (r: Option<Keyword>)
    ensures r == Some(Below) <==> s == "below"
    ensures r == Some(Above) <==> s == "above"
    ensures r == None <==> s != "below" && s != "above"
  {
    if s == "below" then Some(Below)
    else if s == "above" then Some(Above)
    else None
  }
}
