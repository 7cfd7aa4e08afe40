# aristoxenus: a Dafny model of the interval and nomenclature core

aristoxenus is a Java library for music theory. It encodes pitch structures as
non-negative integers. Bit 0 is the root. Bit k set means the note k semitones
above the root is present. An interval is a value with exactly two set bits,
one of them the root: a major third (DITONE) is 2^4 + 1 = 17. An interval
structure (a chord, a scale) is any odd value. Two kinds of operation sit on
that encoding:

- **Bit-level operations**, in `IntervalBase` and `Bitwise`:
  - rotations inside a window of `max_bits` bits;
  - the previous and next inversion (mode) of a structure, and the list of all
    its inversions;
  - validity tests;
  - an iterator over the intervals a structure is made of;
  - `reduce` by bitwise OR;
  - transposition by octaves.
- **Nomenclature**, in `Constants` and `Nomenclature`:
  - the natural, sharp, flat and binomial ("C#|Db") note names;
  - the 12-note chromatic scale built from a list of accidentals;
  - the enharmonic decoder, a map from every spelling such as "Dbb" or "E#" to
    the name it sounds as;
  - lookups over that decoder;
  - `decode_enharmonic` and `encode_enharmonic`;
  - the scientific-pitch range C0 .. B7 and `encode_scientific_enharmonic`.

`Rendering.renderPlain` maps a structure to note names. `Functions` holds the
list and string helpers that the other classes use.

## How the model is organised

The model has one Dafny module per Java class, plus three more:

- `BigBits` gives the `java.math.BigInteger` operations the library uses on
  non-negative values: bit test, `and`, `or`, `xor`, the shifts, `bitCount`,
  `bitLength` and the lowest set bit. Each is defined by recursion on the
  binary digits, with per-bit lemmas.
- `JavaText` gives `String.repeat`, `List.indexOf`, `String.indexOf` and
  `Character.isDigit`.
- `JavaCollections` gives `Collections.rotate` and `Collections.reverse`,
  which work in place on an array.

An `IntervalBase` is modelled as a plain `nat`, because none of its methods
updates the wrapped value in place: each returns a new instance.

The iterator is the exception. It keeps a mutable cursor, `integer`, so it
becomes the class `IntervalBase.BitIterator`, whose `Next` updates that field.

Exceptions become the `Wrappers.Result` datatype, with one `Error` constructor
per cause the source throws.

The loops of the source are methods with loop invariants:

- `previous_inversion` and `next_inversion`;
- `inversions`;
- `enharmonic_decoder`;
- `repeatList` and `countSubstring`;
- `renderPlain`;
- `scientific_range`;
- the search loop of `encode_scientific_enharmonic`.

Each of these methods except `CountSubstring` is proved against a
specification function, and the properties are then proved about that
function. `CountSubstring` is stated by bounds only (see "## Left out").

`enharmonic_decoder` has three nested loops: the accidental pass, the letter
and the accidental count. These become the methods `AccidentalPass`,
`LetterStep` and `PutLetter`. The rotated copy of the chromatic scale is an
array that `Collections.reverse` and `Collections.rotate` update in place.

Some behaviour of the code is easy to misread. The model follows the code
throughout:

- **`decode_enharmonic`.** When the name ends in an octave digit, the code
  keeps only that digit (Nomenclature.java:170), so a name with a digit is
  never recognised.
- **The decoder's size.** The decoder only puts the natural letters (line
  77), and the sharp and flat passes share the seven zero-accidental keys. The
  map has 161 keys: 7 × 12 sharp spellings plus 7 × 11 flat spellings beyond
  the shared naturals.
- **`rotateLeft` and `next_inversion`.** The Javadoc of `rotateLeft`
  (IntervalBase.java:55) calls it a rotation, and that of `next_inversion`
  (IntervalBase.java:115 and 128) says it rotates left. The code's
  `rotateLeft` loses the top bit, and `next_inversion` rotates right like
  `previous_inversion`, and so does `inversions`, which calls it. See
  "## Findings".
- **`encode_enharmonic`.** Its Javadoc (Nomenclature.java:185-186) promises a
  note under the requested letter. The code compares the note name with itself
  (line 205), so it never looks at the letter. See "## Findings".

## Model

| member | source | states |
|---|---|---|
| BigBits.BitAnd | src/aristoxenus/IntervalBase.java:267-268 | bit i of `and` is set iff it is set in both operands |
| BigBits.BitOr | src/aristoxenus/IntervalBase.java:287-288 | bit i of `or` is set iff it is set in either operand |
| BigBits.BitXor | src/aristoxenus/IntervalBase.java:180 | bit i of `xor` is set iff exactly one operand has it |
| BigBits.BitShl | src/aristoxenus/IntervalBase.java:49 | bit i of x << k is bit i-k of x, and clear below k |
| BigBits.BitShr | src/aristoxenus/IntervalBase.java:51 | bit i of x >> k is bit i+k of x |
| BigBits.BitsDetermine | src/aristoxenus/IntervalBase.java:225-226 | two values with the same bits are equal, so the bit lemmas characterise each operation completely |
| BigBits.BitLengthBound | src/aristoxenus/IntervalBase.java:40 | bitLength(x) <= m exactly when x < 2^m |
| BigBits.BitLengthTop | src/aristoxenus/IntervalBase.java:40 | a positive value has bit bitLength-1 set, and no bit at or above bitLength |
| BigBits.BitOfPow2 | src/aristoxenus/IntervalBase.java:61 | 2^m has bit m and no other |
| BigBits.BitOfMask | src/aristoxenus/IntervalBase.java:61 | 2^m - 1 has exactly the bits below m |
| BigBits.AndPow2 | src/aristoxenus/Rendering.java:29 | x & 2^m is 2^m when bit m is set and 0 otherwise, so the column test is a bit test |
| BigBits.OrDisjoint | src/aristoxenus/IntervalBase.java:84 | `or` of two values with no common bit is their sum |
| BigBits.AndSubset | src/aristoxenus/Bitwise.java:57 | a & b == a exactly when every bit of a is a bit of b |
| BigBits.PopcountShl | src/aristoxenus/IntervalBase.java:364 | shifting left keeps the bit count |
| BigBits.PopcountBound | src/aristoxenus/IntervalBase.java:42 | a value below 2^m has at most m set bits |
| BigBits.CountBitsAll | src/aristoxenus/IntervalBase.java:42 | counting the bits below m, for x < 2^m, gives bitCount(x) |
| BigBits.LowBitIsPow2 | src/aristoxenus/IntervalBase.java:179 | x & (-x) is 2^j where j is the lowest set bit of x; no bit below j is set |
| BigBits.ClearBit | src/aristoxenus/IntervalBase.java:180 | subtracting 2^k from x, where bit k is set, clears exactly bit k and lowers the bit count by one |
| BigBits.XorSetBit | src/aristoxenus/IntervalBase.java:180 | xor with a set bit's power of two is subtraction of it |
| JavaText.Repeat | src/aristoxenus/Nomenclature.java:80 | `s.repeat(n)` has n·\|s\| characters, each equal to s's character when s has one |
| JavaText.IndexOf | src/aristoxenus/Functions.java:26 | `indexOf` is -1 iff the element is absent; otherwise it holds the element and no earlier index does |
| JavaText.FindFrom | src/aristoxenus/Functions.java:59 | the first occurrence at or after p, or -1 iff there is none from p on |
| JavaText.Find | src/aristoxenus/Functions.java:59 | `String.indexOf`: -1 iff sub occurs nowhere; otherwise an occurrence with none earlier |
| JavaText.DigitChar | src/aristoxenus/Nomenclature.java:231 | the character written for a decimal digit is a digit |
| JavaText.NatToString | src/aristoxenus/Nomenclature.java:231 | `Integer.toString` of a non-negative number is a non-empty string of digits |
| JavaCollections.RotatedMoves | src/aristoxenus/Functions.java:26 | `Collections.rotate` moves the element at i to (i + distance) mod size |
| JavaCollections.RotatedCompose | src/aristoxenus/Nomenclature.java:84 | rotating by a and then by b is rotating by a + b |
| JavaCollections.RotatedZero | src/aristoxenus/Functions.java:26 | rotating by 0 changes nothing |
| JavaCollections.RotatedInverse | src/aristoxenus/Nomenclature.java:68 | rotating back by the same distance restores the list |
| JavaCollections.ReversedInvolution | src/aristoxenus/Nomenclature.java:67 | reversing twice restores the list |
| JavaCollections.Rotate | src/aristoxenus/Nomenclature.java:68 | the array afterwards is the rotated old contents |
| JavaCollections.Reverse | src/aristoxenus/Nomenclature.java:67 | the array afterwards is the reversed old contents, swapped from the ends inwards |
| Constants.IntervalValuesArePow2Plus1 | src/aristoxenus/Constants.java:26-40 | UNISON is 1, and the k-th interval value (HEMITONE .. DIAPASON) is 2^k + 1 |
| Constants.SplitChars | src/aristoxenus/Constants.java:185-187 | `split("")` yields one single-character string per character, in order |
| Constants.NaturalsValue | src/aristoxenus/Constants.java:184-188 | rotating "ABCDEFG" by two and splitting gives C D E F G A B |
| Constants.NaturalsDistinct | src/aristoxenus/Constants.java:184-188 | the seven naturals are distinct single letters |
| Constants.HalfstepsValue | src/aristoxenus/Constants.java:190-193 | the half steps are E→F and B→C: the keys are {E, B}, the values {F, C} |
| Constants.FilterSharps | src/aristoxenus/Constants.java:195-199 | dropping the half-step keys from the naturals and appending "#" gives C# D# F# G# A# |
| Constants.FilterFlats | src/aristoxenus/Constants.java:201-205 | dropping the half-step values from the naturals and appending "b" gives Db Eb Gb Ab Bb |
| Constants.SharpsAndFlats | src/aristoxenus/Constants.java:195-205 | SHARPS and FLATS have those five values each |
| Constants.AccidentalNotesValue | src/aristoxenus/Constants.java:207-210 | ACCIDENTAL_NOTES is the five sharps followed by the five flats |
| Constants.JoinBinomials | src/aristoxenus/Constants.java:212-215 | each binomial pairs a sharp with the flat at that sharp's index, joined by "\|" |
| Constants.BinomialsPairs | src/aristoxenus/Constants.java:212-215 | the i-th binomial is SHARPS[i] + "\|" + FLATS[i] for each of the five |
| Constants.BinomialsValue | src/aristoxenus/Constants.java:212-215 | BINOMIALS is C#\|Db D#\|Eb F#\|Gb G#\|Ab A#\|Bb |
| Constants.IndexOfDistinct | src/aristoxenus/Constants.java:213 | in a list without duplicates, `indexOf` of the i-th element is i |
| Constants.ParsePosition | src/aristoxenus/Constants.java:163-167 | a position string is BELOW iff it is "below", ABOVE iff "above", and unknown otherwise |
| Bitwise.ValidateInterval | src/aristoxenus/Bitwise.java:17-22 | true exactly when the value is 2^k + 1 for some k >= 1 |
| Bitwise.ValidateIntervalAgrees | src/aristoxenus/IntervalBase.java:144-147 | `validate_interval` and `isValidInterval` agree on every value |
| Bitwise.ValidateIntervalExamples | tests/BasicTests.java:110-113 | 0b1000 is not an interval and 0b1001 is |
| Bitwise.IntervalValuesValid | src/aristoxenus/Constants.java:26-40 | every interval constant except UNISON is a valid interval; UNISON is not |
| Bitwise.ValidateIntervalStructure | src/aristoxenus/Bitwise.java:36-43 | a structure that passes fits in maxBits bits; with flippedBits 0 only the width is checked |
| Bitwise.ValidateStructureMeaning | src/aristoxenus/Bitwise.java:36-43 | passes iff value < 2^maxBits and (flippedBits is 0 or the bit count equals it); agrees with `isValidIntervalStructure` |
| Bitwise.ValidateIntervalStructureWidth | src/aristoxenus/Bitwise.java:44-46 | the two-argument overload passes exactly when maxBits is non-negative and the value is below 2^maxBits, whatever its bit count |
| Bitwise.HasInterval | src/aristoxenus/Bitwise.java:56-58 | true exactly when every bit of the interval is a bit of the structure |
| Bitwise.HasIntervalTrivial | src/aristoxenus/Bitwise.java:56-58 | every structure contains itself and the empty interval |
| Bitwise.HasIntervalTransitive | src/aristoxenus/Bitwise.java:56-58 | containment is transitive |
| Bitwise.HasIntervalAntisymmetric | src/aristoxenus/Bitwise.java:56-58 | containment both ways is equality |
| Bitwise.HasIntervalReduce | src/aristoxenus/IntervalBase.java:320-322 | the OR-reduction of a list of intervals contains each of them |
| Bitwise.TransposeInterval | src/aristoxenus/Bitwise.java:65-71 | transposing a positive interval up by a non-negative number of octaves gives a positive value |
| Bitwise.TransposeAgrees | src/aristoxenus/Bitwise.java:65-71 | the static `Bitwise` transpose equals the `IntervalBase` one |
| Bitwise.TransposeMovesNotes | src/aristoxenus/Bitwise.java:65-71 | without echo: the root stays, each other note moves up 12·octave, nothing else appears, and the bit count is kept |
| Bitwise.TransposeEchoes | src/aristoxenus/Bitwise.java:65-71 | with echo: the root is also copied to 12·octave, adding exactly one note |
| IntervalBase.Window | src/aristoxenus/IntervalBase.java:61 | masking by 2^n - 1 gives a value below 2^n with the same root bit |
| IntervalBase.WindowBit | src/aristoxenus/IntervalBase.java:77 | bit i of the masked value is bit i of x below n, and clear from n up |
| IntervalBase.WindowOfSmall | src/aristoxenus/IntervalBase.java:77 | masking a value already below 2^n leaves it unchanged |
| IntervalBase.RotateRight | src/aristoxenus/IntervalBase.java:74-85 | the right rotation stays inside the n-bit window |
| IntervalBase.RotateRightBit | src/aristoxenus/IntervalBase.java:74-85 | bit i of the result is bit i+1 of x, and the top bit is the old root: a circular shift |
| IntervalBase.RotateRightPopcount | src/aristoxenus/IntervalBase.java:74-85 | a right rotation keeps the number of notes in the window |
| IntervalBase.RotateRightValue | src/aristoxenus/IntervalBase.java:74-85 | for x < 2^n the result is x/2 plus 2^(n-1) when x is odd |
| IntervalBase.RotateLeft | src/aristoxenus/IntervalBase.java:57-68 | `rotateLeft` as written stays inside the window (for n = 1, inside two bits) |
| IntervalBase.RotateLeftBit | src/aristoxenus/IntervalBase.java:57-68 | bit i of the result is bit i-1 of x below n, and bit 1 also takes bit n of x; the top bit never wraps to the root |
| IntervalBase.RotateLeftShifts | src/aristoxenus/IntervalBase.java:57-68 | inside the window, `rotateLeft` as written is a plain left shift masked to n bits |
| IntervalBase.RotateLeftLosesTopBit | src/aristoxenus/IntervalBase.java:63-65 | when the top window bit is set, `rotateLeft` drops it and the bit count falls by one |
| IntervalBase.RotateLeftNotInverse | src/aristoxenus/IntervalBase.java:57-85 | for every odd x < 2^n, `rotateLeft(rotateRight(x))` is x - 1: the root is lost |
| IntervalBase.RotateLeftRoundTripExample | src/aristoxenus/IntervalBase.java:57-85 | rotateLeft(rotateRight(1, 12), 12) == 0 |
| IntervalBase.RotateLeftWrapped | src/aristoxenus/IntervalBase.java:57-68 | the corrected left rotation, reading bit n-1, stays inside the window |
| IntervalBase.RotateLeftWrappedBit | src/aristoxenus/IntervalBase.java:57-68 | the corrected left rotation is circular: bit i is bit i-1, and bit 0 is the old top bit |
| IntervalBase.RotateLeftWrappedPopcount | src/aristoxenus/IntervalBase.java:57-68 | the corrected left rotation keeps the number of notes in the window |
| IntervalBase.RotationsInverse | src/aristoxenus/IntervalBase.java:57-85 | the corrected left rotation and the right rotation undo each other on the window |
| IntervalBase.RotateRightTimes | src/aristoxenus/IntervalBase.java:93-96 | k >= 1 repeated right rotations stay inside the window |
| IntervalBase.RotateRightTimesBits | src/aristoxenus/IntervalBase.java:93-96 | after k <= n right rotations, bit i is bit (i + k) mod n of x |
| IntervalBase.RotateRightTimesFull | src/aristoxenus/IntervalBase.java:93-96 | n right rotations give back the window of x |
| IntervalBase.RotateRightTimesAdd | src/aristoxenus/IntervalBase.java:93-96 | a right rotations followed by b are a + b right rotations |
| IntervalBase.RotateRightTimesPopcount | src/aristoxenus/IntervalBase.java:93-96 | any number of right rotations keeps the number of notes |
| IntervalBase.RotateLeftTimesBits | src/aristoxenus/IntervalBase.java:119-122 | after k <= n corrected left rotations, bit i is bit (i - k) mod n of x |
| IntervalBase.RotateLeftTimesPopcount | src/aristoxenus/IntervalBase.java:119-122 | any number of corrected left rotations keeps the number of notes |
| IntervalBase.RotateTimesInverse | src/aristoxenus/IntervalBase.java:92-124 | k left rotations undo k right rotations, and the other way round |
| IntervalBase.RightRoot | src/aristoxenus/IntervalBase.java:94 | after k right rotations the root is set iff bit k of x was (bit 0 when k = n) |
| IntervalBase.LeftRoot | src/aristoxenus/IntervalBase.java:120 | after k left rotations the root is set iff bit n-k of x was |
| IntervalBase.RightDistance | src/aristoxenus/IntervalBase.java:92-98 | the number of right rotations until the root is set: between 1 and n, and no smaller count works |
| IntervalBase.LeftDistance | src/aristoxenus/IntervalBase.java:118-124 | the number of left rotations until the root is set: between 1 and n, and no smaller count works |
| IntervalBase.RightInversion | src/aristoxenus/IntervalBase.java:92-98 | the previous inversion is odd, inside the window, and has the same number of notes |
| IntervalBase.LeftInversion | src/aristoxenus/IntervalBase.java:118-124 | the next inversion, by left rotation, is odd, inside the window, and has the same number of notes |
| IntervalBase.InversionsUndo | src/aristoxenus/IntervalBase.java:92-124 | for an odd structure inside the window, the next inversion of the previous one is the structure, and the other way round |
| IntervalBase.PreviousInversion | src/aristoxenus/IntervalBase.java:92-111 | the rotate-right loop returns the previous inversion |
| IntervalBase.NextInversion | src/aristoxenus/IntervalBase.java:118-137 | `next_inversion` as written returns the previous inversion, not the next |
| IntervalBase.NextAfterPreviousExample | src/aristoxenus/IntervalBase.java:92-137 | from 1011 in 4 bits, `previous_inversion` gives 1101, and `next_inversion` as written then gives 0111, not 1011 |
| IntervalBase.NextInversionLeft | src/aristoxenus/IntervalBase.java:118-137 | the corrected loop, with circular left rotations, returns the next inversion |
| IntervalBase.RightIter | src/aristoxenus/IntervalBase.java:92-98 | every repeated previous inversion is odd, inside the window, and keeps the number of notes |
| IntervalBase.LeftIter | src/aristoxenus/IntervalBase.java:118-137 | every repeated corrected next inversion is odd, inside the window, and keeps the number of notes |
| IntervalBase.SetBitPositions | src/aristoxenus/IntervalBase.java:331 | the j-th set bit of x has exactly j set bits below it, and the count past the last set bit is n |
| IntervalBase.RightStep | src/aristoxenus/IntervalBase.java:92-98 | from the rotation that puts set bit p at the root, the previous inversion puts the next set bit there |
| IntervalBase.RightIterPositions | src/aristoxenus/IntervalBase.java:92-98 | j previous inversions rotate x right to its j-th set bit |
| IntervalBase.RightIterCycle | src/aristoxenus/IntervalBase.java:92-98 | bitCount(x) previous inversions bring an odd structure back to itself |
| IntervalBase.LeftIterUndoes | src/aristoxenus/IntervalBase.java:118-124 | j next inversions undo j of m previous inversions |
| IntervalBase.LeftIterCycle | src/aristoxenus/IntervalBase.java:118-137 | bitCount(x) corrected next inversions bring an odd structure back to itself |
| IntervalBase.Inversions | src/aristoxenus/IntervalBase.java:329-336 | the static `inversions` as written lists the successive previous inversions, one per note of the window (the loop bound is re-read from the changing structure); for an odd structure inside the window there are bitCount(x) of them and the last one is the structure itself |
| IntervalBase.InversionsCorrected | src/aristoxenus/IntervalBase.java:329-336 | the static `inversions` with the corrected `next_inversion` lists the successive next inversions, one per note of the window, and for an odd structure inside the window the last one is the structure itself |
| IntervalBase.InstanceInversions | src/aristoxenus/IntervalBase.java:341-349 | the instance `inversions` as written lists bitCount(x) successive previous inversions of a copy of the instance; for an odd structure inside the window the last one is the structure itself |
| IntervalBase.PopcountPositive | src/aristoxenus/IntervalBase.java:42 | a non-zero value has at least one set bit |
| IntervalBase.PopcountPow2 | src/aristoxenus/IntervalBase.java:42 | a power of two has exactly one set bit |
| IntervalBase.PopcountOne | src/aristoxenus/IntervalBase.java:42 | a value with exactly one set bit is a power of two |
| IntervalBase.ValidIntervalExactly | src/aristoxenus/IntervalBase.java:144-147 | `isValidInterval` holds exactly for 2^k + 1 with k >= 1 |
| IntervalBase.ValidStructureMeaning | src/aristoxenus/IntervalBase.java:154-161 | `isValidIntervalStructure` holds iff value < 2^maxBits and (flippedBits is 0 or the bit count equals it) |
| IntervalBase.SetBits | src/aristoxenus/IntervalBase.java:169-196 | the positions of the set bits, lowest first: one per set bit |
| IntervalBase.SetBitsIndex | src/aristoxenus/Rendering.java:27-32 | a set bit p is found at index "number of set bits below p" in the position list |
| IntervalBase.SetBitsSpec | src/aristoxenus/IntervalBase.java:169-196 | the position list holds set bits only, holds every set bit, and is strictly ascending |
| IntervalBase.SetBitsLow | src/aristoxenus/IntervalBase.java:179-180 | the position list starts with the lowest set bit; the rest is the list of x without that bit |
| IntervalBase.BitItem | src/aristoxenus/IntervalBase.java:182-188 | the item for bit 0 is 1 (the root); for bit k >= 1 it is a valid interval with bit k set |
| IntervalBase.BitItemBit | src/aristoxenus/IntervalBase.java:182-188 | the item for bit k has exactly bits 0 and k |
| IntervalBase.Items | src/aristoxenus/IntervalBase.java:169-196 | the iterator yields one item per set bit |
| IntervalBase.ItemsOf | src/aristoxenus/IntervalBase.java:182-188 | the j-th item is the item of the j-th bit position |
| IntervalBase.ItemsSpec | src/aristoxenus/IntervalBase.java:169-196 | every item is the root or a valid interval, and the items are strictly increasing |
| IntervalBase.BitIterator.constructor | src/aristoxenus/IntervalBase.java:171 | the cursor starts at the structure's value |
| IntervalBase.BitIterator.HasNext | src/aristoxenus/IntervalBase.java:174-176 | hasNext holds exactly when items are still to come, i.e. the cursor is not exhausted |
| IntervalBase.BitIterator.Next | src/aristoxenus/IntervalBase.java:178-189 | one step yields the first remaining item and leaves the rest in the cursor, which decreases; an exhausted iterator yields 1 and stays at 0 |
| IntervalBase.NextStep | src/aristoxenus/IntervalBase.java:179-188 | for the lowest set bit, xor removes it from the value, and the item it gives heads the item list |
| IntervalBase.Decompose | src/aristoxenus/IntervalBase.java:169-196 | iterating with `hasNext` and `next` until exhausted yields exactly the items of the structure |
| IntervalBase.Reduce | src/aristoxenus/IntervalBase.java:320-322 | reducing the empty list gives 0 |
| IntervalBase.ReduceBit | src/aristoxenus/IntervalBase.java:320-322 | a bit is set in the reduction iff some interval of the list has it |
| IntervalBase.ReduceLeastUpperBound | src/aristoxenus/IntervalBase.java:320-322 | the reduction contains each interval, and is contained in every value that contains them all |
| IntervalBase.ReduceItems | src/aristoxenus/IntervalBase.java:169-196 | reducing the items of a non-zero structure gives back the structure with its root set |
| IntervalBase.TransposeInterval | src/aristoxenus/IntervalBase.java:359-381 | a positive value transposed by a non-negative number of octaves stays positive |
| IntervalBase.AddRoot | src/aristoxenus/IntervalBase.java:365 | adding 1 to an even value only sets the root, adding one note |
| IntervalBase.TransposeBits | src/aristoxenus/IntervalBase.java:359-381 | the transposed set is the root, plus bit i + 12·octave for every set bit i of x except the root, plus 12·octave itself with echo |
| IntervalBase.TransposePopcount | src/aristoxenus/IntervalBase.java:359-381 | transposition keeps the number of notes; echo adds one |
| IntervalBase.TransposeZeroOctaves | src/aristoxenus/IntervalBase.java:359-381 | zero octaves give x back, or x + 1 with echo |
| Functions.RotateList | src/aristoxenus/Functions.java:23-28 | the copy has the same length; a present member comes first, with the rest in cyclic order; an absent member (index -1) makes the last element come first |
| Functions.RotateListFront | src/aristoxenus/Functions.java:23-28 | the rotated copy starts with the member and is a permutation of the list |
| Functions.RotatedToFront | src/aristoxenus/Functions.java:26 | rotating by minus a member's index gives list[p..] + list[..p] |
| Functions.RotatedByOne | src/aristoxenus/Functions.java:26 | rotating by one brings the last element to the front |
| Functions.RepeatList | src/aristoxenus/Functions.java:41-47 | n·\|list\| elements (none for n <= 0), and element j is list[j mod \|list\|] |
| Functions.ReplaceAt | src/aristoxenus/Functions.java:60 | `replaceFirst` keeps everything before and after the replaced occurrence |
| Functions.RemoveOne | src/aristoxenus/Functions.java:60 | removing one occurrence of a character removes one copy of it and nothing else |
| Functions.NoOccurrence | src/aristoxenus/Functions.java:59 | when `indexOf` of a character is -1, the character does not occur |
| Functions.RemovalStep | src/aristoxenus/Functions.java:59-62 | each round shortens the string by \|sub\|, and removes one copy of a single-character sub |
| Functions.CountSubstring | src/aristoxenus/Functions.java:57-64 | the count is 0 iff sub does not occur; count·\|sub\| <= \|main\|; for a single character it is the number of its occurrences |
| Rendering.ScaleLength | src/aristoxenus/Rendering.java:21-24 | the scale read has at least the given scale's length |
| Rendering.ReadRepeated | src/aristoxenus/Rendering.java:21-24 | a name read from the repeated scale is the given scale's name at the index modulo its length |
| Rendering.RenderStep | src/aristoxenus/Rendering.java:27-32 | the column test `and(1 << i) == 1 << i` is the test of bit i, and each column keeps the rendering equal to the names of the set bits seen so far |
| Rendering.RenderTake | src/aristoxenus/Rendering.java:29-30 | adding the name at a set bit inside the scale extends the rendering by that bit's name |
| Rendering.RenderDone | src/aristoxenus/Rendering.java:27-33 | after the last column the rendering has one name per set bit; the empty structure renders as [] |
| Rendering.RenderPlain | src/aristoxenus/Rendering.java:20-34 | succeeds iff bitLength fits the (repeated) scale, and fails otherwise with IndexOutOfBounds; the j-th name is the scale name at the j-th set bit modulo the scale's length |
| Rendering.RepeatsItself | src/aristoxenus/Rendering.java:21 | a scale that is not repeated reads each index modulo its own length |
| Rendering.RenderExample | src/aristoxenus/Rendering.java:20-34 | 145 (C, E, G) fits the binomial scale, and its bits name C, E and G there |
| Rendering.SetBitsExample | src/aristoxenus/Rendering.java:27-32 | the set bits of 0b10010001 are 0, 4 and 7 |
| Nomenclature.ChromaticSpec | src/aristoxenus/Nomenclature.java:32-45 | the chromatic scale has 12 names |
| Nomenclature.HalfStepNaturals | src/aristoxenus/Nomenclature.java:39 | only E and B (indices 2 and 6) are half-step keys, so an accidental follows every other natural |
| Nomenclature.Chromatic | src/aristoxenus/Nomenclature.java:32-45 | the loop over the naturals builds exactly the chromatic-scale specification |
| Nomenclature.ChromaticShape | src/aristoxenus/Nomenclature.java:32-45 | the naturals sit at 0,2,4,5,7,9,11; the five accidentals at 1,3,6,8,10 in order; E, F and B are adjacent naturals |
| Nomenclature.ChromaticBinomialsValue | src/aristoxenus/Nomenclature.java:58 | `chromatic(BINOMIALS)` is C, C#\|Db, D, …, B |
| Nomenclature.SpellingName | src/aristoxenus/Nomenclature.java:80 | a spelling is its letter followed by count accidentals |
| Nomenclature.LetterIndex | src/aristoxenus/Nomenclature.java:76-77 | a letter's index is where that natural sits in the chromatic scale; -1 for any other character |
| Nomenclature.ParseName | src/aristoxenus/Nomenclature.java:76-85 | a parsed name is a valid spelling that spells the name back |
| Nomenclature.ParseSpelling | src/aristoxenus/Nomenclature.java:80 | parsing the name of a spelling gives the spelling back |
| Nomenclature.SpellingNameInjective | src/aristoxenus/Nomenclature.java:80 | different spellings have different names, so no key is written twice with different values, except where the sharp and flat passes share a natural |
| Nomenclature.DecodedName | src/aristoxenus/Nomenclature.java:81 | a spelling decodes to a name of the chromatic scale |
| Nomenclature.DecoderLookup | src/aristoxenus/Nomenclature.java:55-88 | a name is a key iff it parses as a natural letter with 0-11 sharps or flats, and its value is the decoded name |
| Nomenclature.RankInjective | src/aristoxenus/Nomenclature.java:76-85 | the loop order visits each spelling at one step only |
| Nomenclature.PutSpelling | src/aristoxenus/Nomenclature.java:79-81 | the key put at pass, letter k and count i parses as that spelling, and its value is the i-th entry of the rotated copy |
| Nomenclature.HoldsAfterPut | src/aristoxenus/Nomenclature.java:79-81 | one `put` keeps the decoder invariant for the next step; the map grows by one unless the key was already there |
| Nomenclature.DecoderPut | src/aristoxenus/Nomenclature.java:79-81 | one `put` keeps the invariant; it grows the map except for the flat pass's zero-accidental key |
| Nomenclature.DecoderSkip | src/aristoxenus/Nomenclature.java:77 | skipping a binomial keeps the invariant across its twelve steps |
| Nomenclature.ShiftedStart | src/aristoxenus/Nomenclature.java:61-69 | the sharp pass starts from the scale itself; the flat pass from the scale reversed and rotated by -(FLAT_VALUE + TONES) |
| Nomenclature.ShiftedStep | src/aristoxenus/Nomenclature.java:74-84 | each letter's rotation by the negated shift degree moves the copy to the next letter's window |
| Nomenclature.NaturalsBeforeStep | src/aristoxenus/Nomenclature.java:76-77 | the count of naturals grows by one at each natural of the scale |
| Nomenclature.EnharmonicDecoder | src/aristoxenus/Nomenclature.java:55-88 | the keys are exactly the names DecoderLookup accepts, each mapped to its decoded name, and there are 161 of them |
| Nomenclature.DecoderComplete | src/aristoxenus/Nomenclature.java:86 | after both passes, the map holds exactly the DecoderLookup entries |
| Nomenclature.AccidentalPass | src/aristoxenus/Nomenclature.java:60-85 | one accidental pass adds 84 keys for sharps and 77 for flats, keeping the invariant |
| Nomenclature.LetterStep | src/aristoxenus/Nomenclature.java:76-84 | one letter puts its keys, or none for a binomial, and rotates the copy to the next letter |
| Nomenclature.StartWindow | src/aristoxenus/Nomenclature.java:61-74 | the fresh copy is rotated for the pass, and the shift degree is the negated step |
| Nomenclature.PutLetter | src/aristoxenus/Nomenclature.java:78-82 | the inner loop puts 12 sharp keys, or 11 new flat keys, for one natural |
| Nomenclature.BinomialLetter | src/aristoxenus/Nomenclature.java:77 | a scale entry is a binomial exactly when it is not a single letter |
| Nomenclature.DecodeSharps | src/aristoxenus/Nomenclature.java:55-88 | a natural with i sharps decodes to the scale name i semitones higher, cyclically |
| Nomenclature.DecodeFlats | src/aristoxenus/Nomenclature.java:55-88 | a natural with i flats decodes to the scale name i semitones lower, cyclically |
| Nomenclature.DecodeExamples | src/aristoxenus/Nomenclature.java:55-88 | E# decodes to F, and Cb decodes to B |
| Nomenclature.ShortKeys | src/aristoxenus/Nomenclature.java:114-122 | the keys shorter than 2 characters are exactly the seven naturals, each decoding to itself |
| Nomenclature.NaturalLetters | src/aristoxenus/Nomenclature.java:37 | every single-letter entry of the scale is a natural |
| Nomenclature.BinomialsNotKeys | src/aristoxenus/Nomenclature.java:77 | no binomial is a decoder key |
| Nomenclature.KeysWithValue | src/aristoxenus/Nomenclature.java:100-104 | the collected keys are exactly those with the value, without repeats |
| Nomenclature.ShortKeysOf | src/aristoxenus/Nomenclature.java:116-120 | the collected keys are exactly those shorter than 2, without repeats |
| Nomenclature.GetEnharmonicEquivalents | src/aristoxenus/Nomenclature.java:98-106 | the list holds exactly the spellings that decode to the name, each once |
| Nomenclature.LegalChordNames | src/aristoxenus/Nomenclature.java:114-122 | the list holds exactly the seven naturals, each once |
| Nomenclature.Identity | src/aristoxenus/Nomenclature.java:132-139 | a binomial fails with BinomialName, and the empty name has no first letter; otherwise the result is the first character |
| Nomenclature.IdentityOfKey | src/aristoxenus/Nomenclature.java:132-139 | the identity of a decoder key is its natural letter |
| Nomenclature.IsHomonomous | src/aristoxenus/Nomenclature.java:150-157 | two names are homonymous iff neither is a binomial, both are non-empty, and they start with the same character |
| Nomenclature.HomonomousEquivalence | src/aristoxenus/Nomenclature.java:150-157 | homonymy is symmetric and transitive, and reflexive on the non-empty non-binomial names |
| Nomenclature.KeyShape | src/aristoxenus/Nomenclature.java:169-180 | a key starts with its letter, never ends in a digit, and a scale name that is a key decodes to itself |
| Nomenclature.DigitIsNoName | src/aristoxenus/Nomenclature.java:169-176 | a lone digit is neither a scale name nor a key |
| Nomenclature.BinomialScale | src/aristoxenus/Nomenclature.java:173 | `chromatic(BINOMIALS)` computed by the loop is the known scale |
| Nomenclature.DecodeEnharmonic | src/aristoxenus/Nomenclature.java:168-182 | the empty name fails with IndexOutOfBounds; a trailing digit fails as NotRecognized of that digit; a scale name is returned unchanged; a key returns its decoded name; anything else fails as NotRecognized |
| Nomenclature.FirstShortest | src/aristoxenus/Nomenclature.java:209-212 | the sort by length followed by `get(0)` picks a shortest element, the first of the shortest ones |
| Nomenclature.EncodeEnharmonic | src/aristoxenus/Nomenclature.java:197-213 | as written: a non-natural target fails with TargetNotNatural; otherwise the result is the target itself when the name is homonymous with itself, and IndexOutOfBounds when it is not |
| Nomenclature.SelfHomonymousFilter | src/aristoxenus/Nomenclature.java:204-208 | the filter as written keeps all options or none, whatever the options are |
| Nomenclature.EncodeEnharmonicOffLetter | src/aristoxenus/Nomenclature.java:205 | for ("C", "D") the code returns "C", which is not on D, although "Dbb" decodes to C on D |
| Nomenclature.NaturalIsShortest | src/aristoxenus/Nomenclature.java:209-212 | among the spellings of a natural, the only shortest one is the natural itself |
| Nomenclature.NaturalInScale | src/aristoxenus/Nomenclature.java:198-201 | a natural is a name of the chromatic scale |
| Nomenclature.Homonyms | src/aristoxenus/Nomenclature.java:204-208 | the kept options are exactly those homonymous with the requested name |
| Nomenclature.HomonymousWith | src/aristoxenus/Nomenclature.java:204-208 | the corrected filter loop keeps exactly the options on the requested letter |
| Nomenclature.HomonymOf | src/aristoxenus/Nomenclature.java:185-213 | on every natural letter there is a spelling of each natural target with at most six accidentals, sharps or flats whichever take fewer |
| Nomenclature.EncodeEnharmonicCorrected | src/aristoxenus/Nomenclature.java:185-213 | corrected: succeeds iff the name starts with a natural letter and is not a binomial; the result decodes to the target on that letter, no such spelling is shorter, and it has at most six accidentals |
| Nomenclature.ChromaticAccidentalsValue | src/aristoxenus/Nomenclature.java:229 | `chromatic(SHARPS)` and `chromatic(FLATS)` are the sharp and the flat scales |
| Nomenclature.ScaleStyles | src/aristoxenus/Nomenclature.java:274-278 | the three scales share their naturals; each binomial is the sharp spelling of the natural below, joined by "\|" to the flat spelling of the natural above |
| Nomenclature.StylesAgree | src/aristoxenus/Nomenclature.java:274-278 | the sharp and the flat name at each index decode to the binomial scale's name there |
| Nomenclature.NaturalAgrees | src/aristoxenus/Nomenclature.java:274-278 | a natural decodes to itself |
| Nomenclature.SharpAgrees | src/aristoxenus/Nomenclature.java:274-278 | a natural with one sharp decodes to the next scale name |
| Nomenclature.FlatAgrees | src/aristoxenus/Nomenclature.java:274-278 | a natural with one flat decodes to the previous scale name |
| Nomenclature.ScientificOctave | src/aristoxenus/Nomenclature.java:226-233 | 12 names; for octaves 0-9, each is the chromatic name followed by the octave digit |
| Nomenclature.ScientificNameParts | src/aristoxenus/Nomenclature.java:226-233 | a scientific name splits into its scale name and a final digit, the octave |
| Nomenclature.ScaleRange | src/aristoxenus/Nomenclature.java:243-250 | the range has 8 × 12 names |
| Nomenclature.ScaleRangeAt | src/aristoxenus/Nomenclature.java:243-250 | position 12·octave + j is scale name j followed by the octave digit |
| Nomenclature.OctaveSlice | src/aristoxenus/Nomenclature.java:245-248 | each loop round appends one `scientific_octave` to the range built so far |
| Nomenclature.RangeSlice | src/aristoxenus/Nomenclature.java:245-248 | for any twelve-name scale, octave o of its range is the scale with the digit o appended to each name |
| Nomenclature.ScientificRange | src/aristoxenus/Nomenclature.java:243-250 | the loop over octaves 0-7 builds the range of the given accidentals' scale |
| Nomenclature.ScientificRangeBinomials | src/aristoxenus/Nomenclature.java:254-261 | the no-argument form builds the range of the binomial scale |
| Nomenclature.TargetIndex | src/aristoxenus/Nomenclature.java:274-284 | -1 iff the target is in neither the sharp nor the flat range; otherwise an index of the target in one of them |
| Nomenclature.TargetSounds | src/aristoxenus/Nomenclature.java:274-284 | a found target ends in its octave digit, and its stem decodes to the binomial scale's name at that index |
| Nomenclature.TargetPosition | src/aristoxenus/Nomenclature.java:273-284 | the sharp range is tried first, then the flat range, and the index is taken in the chosen one |
| Nomenclature.Stem | src/aristoxenus/Nomenclature.java:306 | the stem drops the final character |
| Nomenclature.RespelledBelowSounds | src/aristoxenus/Nomenclature.java:289-308 | the answer below is the name plus as many sharps as the steps down from the target, in the octave reached; a natural's answer decodes to the target's pitch class |
| Nomenclature.SharpsReach | src/aristoxenus/Nomenclature.java:289-294 | i sharps from letter k reach the target index in the octave found |
| Nomenclature.RespelledAboveSounds | src/aristoxenus/Nomenclature.java:295-308 | the answer above is the name plus as many flats as the steps up from the target, in the octave reached; a natural's answer decodes to the target's pitch class |
| Nomenclature.FlatsReach | src/aristoxenus/Nomenclature.java:295-298 | i flats from letter k reach the target index in the octave found |
| Nomenclature.WindowBelow | src/aristoxenus/Nomenclature.java:289-294 | the reversed twelve names ending at the target step down one semitone each, keeping their octave digits |
| Nomenclature.WindowAbove | src/aristoxenus/Nomenclature.java:295-298 | the twelve names starting at the target step up one semitone each, keeping their octave digits |
| Nomenclature.MatchBelow | src/aristoxenus/Nomenclature.java:306 | a name matched i steps below the target sits i semitones below it |
| Nomenclature.MatchAbove | src/aristoxenus/Nomenclature.java:306 | a name matched i steps above the target sits i semitones above it |
| Nomenclature.NoMatchBelow | src/aristoxenus/Nomenclature.java:310 | a name matching nothing below is not a scale name |
| Nomenclature.NoMatchAbove | src/aristoxenus/Nomenclature.java:310 | a name matching nothing above is not a scale name |
| Nomenclature.SearchWindow | src/aristoxenus/Nomenclature.java:304-310 | fails with UnableToResolve iff no stem matches; otherwise the first match, respelled with i symbols and its octave digit |
| Nomenclature.FirstMatchBelow | src/aristoxenus/Nomenclature.java:304-308 | a scale name first matches below at the distance from the target |
| Nomenclature.FirstMatchAbove | src/aristoxenus/Nomenclature.java:304-308 | a scale name first matches above at the distance to the target |
| Nomenclature.FoundBelow | src/aristoxenus/Nomenclature.java:289-310 | the search below gives the respelled name for a scale name, and UnableToResolve for anything else |
| Nomenclature.FoundAbove | src/aristoxenus/Nomenclature.java:295-310 | the search above gives the respelled name for a scale name, and UnableToResolve for anything else |
| Nomenclature.EncodeScientificEnharmonic | src/aristoxenus/Nomenclature.java:270-311 | a target in neither range fails as a binomial; an unknown position fails as such; below or above, `subList` past either end of the range fails with IndexOutOfBounds, a non-scale name fails with UnableToResolve, and a scale name returns its respelling |

## Left out

- Temperament.java is not part of this model. It computes frequencies with
  floating-point `Math.pow` and `Math.round`, and it calls a
  `Nomenclature.scientificRange()` that does not exist (line 29).
- NomenclatureFunctions.java is not part of this model. It is an earlier draft
  of Nomenclature.java that does not compile.
- HelloWorld.java, pyscripts/main.py and the test classes are not part of this
  model. They are a tutorial, a text script and printing harnesses. The test
  examples that state a result are proved as lemmas
  (ValidateIntervalExamples).
- The iterator example in tests/BasicTests.java:91-101 is not modelled as a
  concrete value. It iterates over 17 | 129 | 4097, plus 1, and should yield
  3, 17, 129 and 4097. Only the general Items lemmas cover it, because
  unfolding the recursion on that literal is too costly for the verifier.
- The descriptive string classes of Constants.java (modes, intervals, qualities,
  ordinals) and ACCIDENTAL_TYPES are plain string tables that nothing in the
  core reads. Of `Keywords`, which Constants.java declares twice (lines 163-167 and
  176-180), only BELOW and ABOVE are kept, as the `Keyword` datatype.
  `ChordVoicingNames` is left out.
- The numeric-width constructors and overloads of IntervalBase (`byte`,
  `short`, `int`, `long`), `valueOf`, `equals`, `toString` and
  `toBinaryString` are not modelled. All collapse to the same `nat`, and
  printing is out of scope.
- BigInteger values are non-negative `nat`s here. `not` (a negative number)
  appears only inside the iterator's `x & (~x + 1)`, which is modelled as
  LowBit. Transposition returns an `int`, since a zero interval minus one is
  -1.
- IntervalBase.RotateRight, IntervalBase.RotateLeft and the inversions require
  1 <= max_bits <= 30. `(int) Math.pow(2, max_bits)` is exact there, and it
  saturates at 2^31 - 1 beyond.
- IntervalBase.PreviousInversion, IntervalBase.NextInversion,
  IntervalBase.Inversions, IntervalBase.InversionsCorrected and
  IntervalBase.InstanceInversions require a structure with a set bit inside
  the window (or, for `inversions`, the value 0). On any other input the Java
  loop never ends.
- The iterator's `remove` only throws UnsupportedOperationException and is not
  modelled.
- Rendering.RenderPlain requires bitLength <= 31. The column `1 << i` is a Java
  `int`, which wraps from bit 31 on.
- The one-argument `renderPlain(IntervalBase)` calls a `Nomenclature.chromatic()`
  with no arguments, which does not exist, so it is not modelled.
- Functions.CountSubstring requires a non-empty substring. With "" the Java loop
  never ends.
- Functions.CountSubstring treats the substring as a literal. `replaceFirst`
  reads it as a regular expression, which is not modelled.
- Functions.CountSubstring is weaker than an exact count for substrings longer
  than one character. It bounds the count by |main| / |sub| and states when it
  is zero; it does not give the number of removals.
- Nomenclature.Chromatic requires at least five accidental names. With fewer,
  `List.get` throws, and that error path is not modelled.
- Strings compared with `==` in the source are compared by value:
  Nomenclature.java:65, 101 and 152. Java compares references there, and the
  model does not capture where the two differ:
  - Line 65 compares an element of ACCIDENTAL_SYMBOLS with FLAT_SYMBOL. The
    flat pass's element is that same object, so the two agree.
  - Line 101 compares each decoder value with the name passed in. The values
    are objects of NATURALS, made by `split("")` (Constants.java:184-188), or
    of BINOMIALS, made by concatenation (Constants.java:212-215). A caller's
    literal such as "C" is none of them, so Java's
    `get_enharmonic_equivalents("C")` is empty. `encode_enharmonic("C", …)`
    then throws IndexOutOfBoundsException at `get(0)` (line 212). With a name
    taken from Constants.NATURALS, `decode_enharmonic` hands back that very
    object (line 174), and the comparison agrees with value equality.
  - Line 152 compares two `substring(0, 1)` results. For a one-letter name,
    `substring` returns the string itself, so `is_homonomous(n, n)` holds. For
    a longer name the two results are distinct objects, and Java answers
    false where the model answers true.
- GetEnharmonicEquivalents and LegalChordNames follow HashMap iteration order,
  which is unspecified. The model picks the keys in an arbitrary order and
  states only which keys appear, each once.
- JavaText.IsDigit accepts the ASCII digits only. `Character.isDigit` also
  accepts other Unicode digits.
- JavaCollections.Rotate is proved against its result only. It copies from a
  snapshot, not Java's cycle-leader algorithm.
- `List.reversed()` (Nomenclature.java:292) is modelled as the value
  `Reversed`, not as a view of the list.

## Findings

| source | as written | input that shows it | evidently intended | confidence | as-written member | corrected member |
|---|---|---|---|---|---|---|
| src/aristoxenus/IntervalBase.java:63-65 | `rotateLeft` reads bit max_bits (`and 2^max_bits`) as the bit to wrap round, a bit outside the window, so the top bit of the window is dropped | x = 1, max_bits = 12: rotateRight gives 2048, and rotateLeft of that gives 0, not 1 | read bit max_bits - 1 (`and 2^(max_bits-1)`), so the rotation is circular and undoes rotateRight | not executed | IntervalBase.RotateLeft with IntervalBase.RotateLeftNotInverse and IntervalBase.RotateLeftRoundTripExample | IntervalBase.RotateLeftWrapped with IntervalBase.RotationsInverse |
| src/aristoxenus/IntervalBase.java:118-137 | `next_inversion` rotates right, exactly like `previous_inversion` | 0b1011 in 4 bits: previous_inversion gives 0b1101, and next_inversion of that gives 0b0111, not 0b1011 | rotate left (circularly) until the root is set, so the next inversion undoes the previous one | not executed | IntervalBase.NextInversion with IntervalBase.NextAfterPreviousExample | IntervalBase.NextInversionLeft with IntervalBase.InversionsUndo, used by IntervalBase.InversionsCorrected |
| src/aristoxenus/Nomenclature.java:205 | the filter tests `is_homonomous(note_name, note_name)`, which ignores the option, so every spelling of the target is kept and the shortest, the natural itself, is returned | encode_enharmonic(Constants.NATURALS.get(0), "D") gives "C", whose letter is not D, although "Dbb" spells C on D (a literal "C" fails earlier, on reference `==` at line 101; see "## Left out") | test `is_homonomous(option, note_name)`, keeping the spellings on the requested letter | not executed | Nomenclature.EncodeEnharmonic with Nomenclature.EncodeEnharmonicOffLetter | Nomenclature.EncodeEnharmonicCorrected with Nomenclature.HomonymOf |
