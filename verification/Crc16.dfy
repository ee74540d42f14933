/** CRC-16-CCITT: the nibble-table form of the C library, the bit-at-a-time form of the Rust tools,
    and what both promise. */
module Crc16 {

  const INIT: bv16 := 0xFFFF

  // ---- Exclusive or, kept as a named operation so that proofs can treat it abstractly ----

  function Xor(a: bv16, b: bv16): bv16 { a ^ b }

  lemma XorCommutes(a: bv16, b: bv16)
    ensures Xor(a, b) == Xor(b, a)
  {
  }

  lemma XorAssociates(a: bv16, b: bv16, c: bv16)
    ensures Xor(Xor(a, b), c) == Xor(a, Xor(b, c))
  {
    assert (a ^ b) ^ c == a ^ (b ^ c);
  }

  lemma XorCancels(a: bv16, b: bv16)
    ensures Xor(Xor(a, b), b) == a
  {
    assert (a ^ b) ^ b == a;
  }

  lemma XorSwaps(a: bv16, b: bv16, c: bv16, d: bv16)
    ensures Xor(Xor(a, b), Xor(c, d)) == Xor(Xor(a, c), Xor(b, d))
  {
    hide Xor;
    XorAssociates(a, b, Xor(c, d));
    XorAssociates(b, c, d);
    XorCommutes(b, c);
    XorAssociates(c, b, d);
    XorAssociates(a, c, Xor(b, d));
  }

  // ---- The bit-at-a-time reference ----

  /** What the top bit feeds back: the polynomial x^12 + x^5 + 1. */
  function Feedback(crc: bv16): bv16 {
    if crc & 0x8000 != 0 then 0x1021 else 0
  }

  /** One division step by x^16 + x^12 + x^5 + 1. */
  function BitStep(crc: bv16): bv16 {
    Xor(crc << 1, Feedback(crc))
  }

  function FourSteps(crc: bv16): bv16 {
    BitStep(BitStep(BitStep(BitStep(crc))))
  }

  /** A byte enters at the top of the register. */
  function Top(byte: bv8): bv16 { (byte as bv16) << 8 }

  function ByteStep(crc: bv16, byte: bv8): bv16 {
    FourSteps(FourSteps(Xor(crc, Top(byte))))
  }

  /** CRC continued from `crc` over the data. */
  function Crc(crc: bv16, data: seq<bv8>): bv16 {
    if data == [] then crc else ByteStep(Crc(crc, data[..|data| - 1]), data[|data| - 1])
  }

  function BitSteps(crc: bv16, n: nat): bv16 {
    if n == 0 then crc else BitStep(BitSteps(crc, n - 1))
  }

  lemma EightSteps(crc: bv16)
    ensures BitSteps(crc, 8) == FourSteps(FourSteps(crc))
  {
    hide BitStep;
    assert BitSteps(crc, 1) == BitStep(crc);
    assert BitSteps(crc, 2) == BitStep(BitSteps(crc, 1));
    assert BitSteps(crc, 3) == BitStep(BitSteps(crc, 2));
    assert BitSteps(crc, 4) == FourSteps(crc);
    assert BitSteps(crc, 5) == BitStep(BitSteps(crc, 4));
    assert BitSteps(crc, 6) == BitStep(BitSteps(crc, 5));
    assert BitSteps(crc, 7) == BitStep(BitSteps(crc, 6));
  }

  /** The reference loop of the Rust command line tool. */
  method UpdateBitwise(init: bv16, data: seq<bv8>) returns (crc: bv16)
    ensures crc == Crc(init, data)
  {
    hide BitStep, FourSteps;
    crc := init;
    for i := 0 to |data|
      invariant crc == Crc(init, data[..i])
    {
      assert data[..i + 1][..i] == data[..i];
      crc := crc ^ ((data[i] as bv16) << 8);
      ghost var start := crc;
      for k := 0 to 8
        invariant crc == BitSteps(start, k)
      {
        StepIsInline(crc);
        crc := if crc & 0x8000 != 0 then (crc << 1) ^ 0x1021 else crc << 1;
      }
      EightSteps(start);
    }
    assert data[..|data|] == data;
  }

  lemma StepIsInline(crc: bv16)
    ensures BitStep(crc) == if crc & 0x8000 != 0 then (crc << 1) ^ 0x1021 else crc << 1
  {
    if crc & 0x8000 == 0 { assert (crc << 1) ^ 0 == crc << 1; }
  }

  // ---- Division is linear ----

  lemma FeedbackIsLinear(a: bv16, b: bv16)
    ensures Feedback(Xor(a, b)) == Xor(Feedback(a), Feedback(b))
  {
    var x, y := a & 0x8000, b & 0x8000;
    assert (a ^ b) & 0x8000 == x ^ y;
    assert x == 0 || x == 0x8000;
    assert y == 0 || y == 0x8000;
  }

  lemma ShiftIsLinear(a: bv16, b: bv16)
    ensures Xor(a, b) << 1 == Xor(a << 1, b << 1)
  {
    var r, t := a ^ b, (a << 1) ^ (b << 1);
    assert Xor(a, b) == r && Xor(a << 1, b << 1) == t;
    hide Xor;
    RawShift(a, b);
  }

  lemma RawShift(a: bv16, b: bv16)
    ensures (a ^ b) << 1 == (a << 1) ^ (b << 1)
  {
  }

  lemma StepIsLinear(a: bv16, b: bv16)
    ensures BitStep(Xor(a, b)) == Xor(BitStep(a), BitStep(b))
  {
    hide Xor, Feedback;
    ShiftIsLinear(a, b);
    FeedbackIsLinear(a, b);
    XorSwaps(a << 1, Feedback(a), b << 1, Feedback(b));
  }

  lemma FourStepsAreLinear(a: bv16, b: bv16)
    ensures FourSteps(Xor(a, b)) == Xor(FourSteps(a), FourSteps(b))
  {
    hide BitStep, Xor;
    StepIsLinear(a, b);
    StepIsLinear(BitStep(a), BitStep(b));
    StepIsLinear(BitStep(BitStep(a)), BitStep(BitStep(b)));
    StepIsLinear(BitStep(BitStep(BitStep(a))), BitStep(BitStep(BitStep(b))));
  }

  predicate TopClear(w: bv16) { w & 0x8000 == 0 }

  function Twice(w: bv16): bv16 { w << 1 }

  lemma StepShifts(w: bv16)
    requires TopClear(w)
    ensures BitStep(w) == Twice(w)
  {
    assert (w << 1) ^ 0 == w << 1;
  }

  lemma TopNibbleEmpty(w: bv16)
    requires w & 0xF000 == 0
    ensures TopClear(w) && TopClear(Twice(w)) && TopClear(Twice(Twice(w))) && TopClear(Twice(Twice(Twice(w))))
    ensures Twice(Twice(Twice(Twice(w)))) == w << 4
  {
  }

  /** A word with an empty top nibble is only shifted. */
  lemma FourStepsShift(w: bv16)
    requires w & 0xF000 == 0
    ensures FourSteps(w) == w << 4
  {
    hide BitStep, TopClear, Twice;
    TopNibbleEmpty(w);
    StepShifts(w);
    StepShifts(Twice(w));
    StepShifts(Twice(Twice(w)));
    StepShifts(Twice(Twice(Twice(w))));
  }

  // ---- The nibble table ----

  /** CRC of each 4-bit value shifted into an all-zero register. */
  function Table(index: bv16): bv16 {
    match index
    case 0 => 0x0000
    case 1 => 0x1021
    case 2 => 0x2042
    case 3 => 0x3063
    case 4 => 0x4084
    case 5 => 0x50A5
    case 6 => 0x60C6
    case 7 => 0x70E7
    case 8 => 0x8108
    case 9 => 0x9129
    case 10 => 0xA14A
    case 11 => 0xB16B
    case 12 => 0xC18C
    case 13 => 0xD1AD
    case 14 => 0xE1CE
    case _ => 0xF1EF
  }

  function ProcessNibble(crc: bv16, nibble: bv16): bv16 {
    var index := ((crc >> 12) ^ nibble) & 0x0F;
    (crc << 4) ^ Table(index)
  }

  /** The table holds the remainder of every nibble. */
  lemma TableIsFourSteps(index: bv16)
    requires index <= 0x0F
    ensures Table(index) == FourSteps(index << 12)
  {
  }

  lemma NibbleSplits(crc: bv16, nibble: bv16)
    requires nibble <= 0x0F
    ensures Xor(crc, nibble << 12) == Xor(crc & 0x0FFF, (((crc >> 12) ^ nibble) & 0x0F) << 12)
  {
    assert crc ^ (nibble << 12) == (crc & 0x0FFF) ^ ((((crc >> 12) ^ nibble) & 0x0F) << 12);
  }

  lemma LowPart(crc: bv16, nibble: bv16)
    ensures ((crc >> 12) ^ nibble) & 0x0F <= 0x0F
    ensures (crc & 0x0FFF) & 0xF000 == 0 && (crc & 0x0FFF) << 4 == crc << 4
  {
  }

  lemma ProcessNibbleParts(crc: bv16, nibble: bv16)
    ensures ProcessNibble(crc, nibble) == Xor(crc << 4, Table(((crc >> 12) ^ nibble) & 0x0F))
  {
  }

  /** One table look-up is four division steps. */
  lemma NibbleIsFourSteps(crc: bv16, nibble: bv16)
    requires nibble <= 0x0F
    ensures ProcessNibble(crc, nibble) == FourSteps(Xor(crc, nibble << 12))
  {
    hide Table, FourSteps, Xor, ProcessNibble;
    ProcessNibbleParts(crc, nibble);
    var index := ((crc >> 12) ^ nibble) & 0x0F;
    var low := crc & 0x0FFF;
    LowPart(crc, nibble);
    TableIsFourSteps(index);
    NibbleSplits(crc, nibble);
    FourStepsShift(low);
    FourStepsAreLinear(low, index << 12);
  }

  lemma ByteSplits(byte: bv8)
    ensures var high, low := (byte as bv16) >> 4, (byte as bv16) & 0x0F;
            && high <= 0x0F && low <= 0x0F
            && Top(byte) == Xor(high << 12, low << 8)
            && (low << 8) & 0xF000 == 0 && (low << 8) << 4 == low << 12
  {
  }

  /** Two table look-ups advance the register exactly as eight division steps do. */
  lemma {:induction false} NibblesAreByteStep(crc: bv16, byte: bv8)
    ensures ProcessNibble(ProcessNibble(crc, (byte as bv16) >> 4), (byte as bv16) & 0x0F) == ByteStep(crc, byte)
  {
    hide ProcessNibble, FourSteps, Xor, Top;
    var high, low := (byte as bv16) >> 4, (byte as bv16) & 0x0F;
    ByteSplits(byte);
    NibbleIsFourSteps(crc, high);
    NibbleIsFourSteps(FourSteps(Xor(crc, high << 12)), low);
    XorAssociates(crc, high << 12, low << 8);
    FourStepsAreLinear(Xor(crc, high << 12), low << 8);
    FourStepsShift(low << 8);
  }

  /** The C library's update: the fast form computes the reference CRC of every message. */
  method Update(crc: bv16, data: seq<bv8>) returns (result: bv16)
    ensures result == Crc(crc, data)
  {
    hide ProcessNibble, ByteStep;
    result := crc;
    for i := 0 to |data|
      invariant result == Crc(crc, data[..i])
    {
      assert data[..i + 1][..i] == data[..i];
      NibblesAreByteStep(result, data[i]);
      result := ProcessNibble(result, (data[i] as bv16) >> 4);
      result := ProcessNibble(result, (data[i] as bv16) & 0x0F);
    }
    assert data[..|data|] == data;
  }

  // ---- Theory ----

  /** Updates compose over concatenation. */
  lemma {:induction false} Compose(crc: bv16, a: seq<bv8>, b: seq<bv8>)
    ensures Crc(crc, a + b) == Crc(Crc(crc, a), b)
  {
    hide ByteStep;
    if b == [] {
      assert a + b == a;
    } else {
      assert (a + b)[..|a + b| - 1] == a + b[..|b| - 1];
      Compose(crc, a, b[..|b| - 1]);
    }
  }

  /** The CRC sent most significant byte first. */
  function BigEndian(crc: bv16): seq<bv8> {
    [(crc >> 8) as bv8, (crc & 0xFF) as bv8]
  }

  /** Sixteen division steps. */
  function WordSteps(crc: bv16): bv16 {
    FourSteps(FourSteps(FourSteps(FourSteps(crc))))
  }

  function Word(a: bv8, b: bv8): bv16 { Xor(Top(a), b as bv16) }

  lemma BottomIsShifted(b: bv8)
    ensures (b as bv16) & 0xF000 == 0 && ((b as bv16) << 4) & 0xF000 == 0
    ensures ((b as bv16) << 4) << 4 == Top(b)
  {
  }

  /** Eight steps move a byte from the bottom of the register to the top. */
  lemma BottomMovesUp(b: bv8)
    ensures FourSteps(FourSteps(b as bv16)) == Top(b)
  {
    hide FourSteps, Top;
    BottomIsShifted(b);
    FourStepsShift(b as bv16);
    FourStepsShift((b as bv16) << 4);
  }

  lemma CrcOfTwo(crc: bv16, a: bv8, b: bv8)
    ensures Crc(crc, [a, b]) == ByteStep(ByteStep(crc, a), b)
  {
    hide ByteStep;
    assert [a, b][..1] == [a] && [a][..0] == [];
    assert Crc(crc, [a]) == ByteStep(crc, a);
  }

  /** Two bytes are absorbed as one 16-bit word followed by sixteen division steps. */
  lemma TwoBytesAreAWord(crc: bv16, a: bv8, b: bv8)
    ensures Crc(crc, [a, b]) == WordSteps(Xor(crc, Word(a, b)))
  {
    hide FourSteps, Xor, Top, Crc;
    CrcOfTwo(crc, a, b);
    var x, w := Xor(crc, Top(a)), b as bv16;
    BottomMovesUp(b);
    FourStepsAreLinear(x, w);
    FourStepsAreLinear(FourSteps(x), FourSteps(w));
    XorAssociates(crc, Top(a), w);
  }

  lemma WordIsItsBytes(c: bv16)
    ensures Xor(c, Word((c >> 8) as bv8, (c & 0xFF) as bv8)) == 0
  {
  }

  lemma ZeroStays()
    ensures WordSteps(0) == 0
  {
    hide FourSteps;
    FourStepsShift(0);
  }

  /** Appending the CRC big-endian leaves residue 0. */
  lemma Residue(crc: bv16, data: seq<bv8>)
    ensures Crc(crc, data + BigEndian(Crc(crc, data))) == 0
  {
    hide Crc, WordSteps, Xor, Word;
    var c := Crc(crc, data);
    Compose(crc, data, BigEndian(c));
    TwoBytesAreAWord(c, (c >> 8) as bv8, (c & 0xFF) as bv8);
    WordIsItsBytes(c);
    ZeroStays();
  }

  /** A division step loses nothing: bit 0 of the result shows whether there was feedback. */
  lemma StepKeepsNonzero(z: bv16)
    ensures BitStep(z) == 0 ==> z == 0
  {
    if z & 0x8000 != 0 {
      assert ((z << 1) ^ 0x1021) & 1 == 1;
    } else {
      assert (z << 1) ^ 0 == z << 1;
    }
  }

  lemma XorSelf(b: bv16)
    ensures Xor(b, b) == 0 && Xor(0, b) == b
  {
  }

  lemma XorZero(a: bv16, b: bv16)
    ensures Xor(a, b) == 0 <==> a == b
  {
    hide Xor;
    XorSelf(b);
    XorCancels(a, b);
  }

  lemma FourStepsInjective(a: bv16, b: bv16)
    requires FourSteps(a) == FourSteps(b)
    ensures a == b
  {
    hide BitStep, Xor;
    var z := Xor(a, b);
    FourStepsAreLinear(a, b);
    XorZero(FourSteps(a), FourSteps(b));
    StepKeepsNonzero(BitStep(BitStep(BitStep(z))));
    StepKeepsNonzero(BitStep(BitStep(z)));
    StepKeepsNonzero(BitStep(z));
    StepKeepsNonzero(z);
    XorZero(a, b);
  }

  lemma ByteStepInjective(x: bv16, y: bv16, byte: bv8)
    requires ByteStep(x, byte) == ByteStep(y, byte)
    ensures x == y
  {
    hide FourSteps, Xor, Top;
    var w := Top(byte);
    FourStepsInjective(FourSteps(Xor(x, w)), FourSteps(Xor(y, w)));
    FourStepsInjective(Xor(x, w), Xor(y, w));
    XorCancels(x, w);
    XorCancels(y, w);
  }

  /** For a fixed message the final CRC is a bijection of the register it starts from. */
  lemma {:induction false} CrcInjective(x: bv16, y: bv16, data: seq<bv8>)
    requires Crc(x, data) == Crc(y, data)
    ensures x == y
  {
    hide ByteStep;
    if data != [] {
      var front := data[..|data| - 1];
      ByteStepInjective(Crc(x, front), Crc(y, front), data[|data| - 1]);
      CrcInjective(x, y, front);
    }
  }

  lemma WordStepsInjective(a: bv16, b: bv16)
    requires WordSteps(a) == WordSteps(b)
    ensures a == b
  {
    hide FourSteps;
    FourStepsInjective(FourSteps(FourSteps(FourSteps(a))), FourSteps(FourSteps(FourSteps(b))));
    FourStepsInjective(FourSteps(FourSteps(a)), FourSteps(FourSteps(b)));
    FourStepsInjective(FourSteps(a), FourSteps(b));
    FourStepsInjective(a, b);
  }

  lemma WordTellsBytes(s: bv16, a: bv8, b: bv8, c: bv8, d: bv8)
    requires Xor(s, Word(a, b)) == Xor(s, Word(c, d))
    ensures a == c && b == d
  {
    hide Xor, Word;
    XorCommutes(s, Word(a, b));
    XorCommutes(s, Word(c, d));
    XorCancels(Word(a, b), s);
    XorCancels(Word(c, d), s);
    WordParts(a, b);
    WordParts(c, d);
  }

  lemma WordParts(a: bv8, b: bv8)
    ensures (Word(a, b) >> 8) as bv8 == a && (Word(a, b) & 0xFF) as bv8 == b
  {
  }

  /** Any error confined to two adjacent bytes changes the CRC. */
  lemma AdjacentErrorDetected(crc: bv16, before: seq<bv8>, a: bv8, b: bv8, c: bv8, d: bv8, after: seq<bv8>)
    requires (a, b) != (c, d)
    ensures Crc(crc, before + [a, b] + after) != Crc(crc, before + [c, d] + after)
  {
    hide Crc, WordSteps, Xor, Word;
    var s := Crc(crc, before);
    Compose(crc, before + [a, b], after);
    Compose(crc, before + [c, d], after);
    Compose(crc, before, [a, b]);
    Compose(crc, before, [c, d]);
    if Crc(crc, before + [a, b] + after) == Crc(crc, before + [c, d] + after) {
      CrcInjective(Crc(s, [a, b]), Crc(s, [c, d]), after);
      TwoBytesAreAWord(s, a, b);
      TwoBytesAreAWord(s, c, d);
      WordStepsInjective(Xor(s, Word(a, b)), Xor(s, Word(c, d)));
      WordTellsBytes(s, a, b, c, d);
    }
  }

  /** Only the CRC leaves residue 0. */
  lemma {:induction false} OnlyCrcLeavesZero(crc: bv16, data: seq<bv8>, a: bv8, b: bv8)
    requires Crc(crc, data + [a, b]) == 0
    ensures [a, b] == BigEndian(Crc(crc, data))
  {
    hide Crc, BigEndian;
    Residue(crc, data);
    var e := BigEndian(Crc(crc, data));
    BigEndianIsTwo(Crc(crc, data));
    var c, d := e[0], e[1];
    assert e == [c, d] && data + [a, b] + [] == data + [a, b] && data + e + [] == data + e;
    if (a, b) != (c, d) { AdjacentErrorDetected(crc, data, a, b, c, d, []); }
  }

  lemma BigEndianIsTwo(crc: bv16)
    ensures |BigEndian(crc)| == 2
  {
  }

  // ---- The check value ----

  const DIGITS: seq<bv8> := [0x31, 0x32, 0x33, 0x34, 0x35, 0x36, 0x37, 0x38, 0x39]

  lemma DigitsOneToThree()
    ensures ByteStep(0xFFFF, 0x31) == 0xC782
    ensures ByteStep(0xC782, 0x32) == 0x3DBA
    ensures ByteStep(0x3DBA, 0x33) == 0x5BCE
  {
  }

  lemma DigitsFourToSix()
    ensures ByteStep(0x5BCE, 0x34) == 0x5349
    ensures ByteStep(0x5349, 0x35) == 0x4560
    ensures ByteStep(0x4560, 0x36) == 0x2EF4
  {
  }

  lemma DigitsSevenToNine()
    ensures ByteStep(0x2EF4, 0x37) == 0x7718
    ensures ByteStep(0x7718, 0x38) == 0xA12B
    ensures ByteStep(0xA12B, 0x39) == 0x29B1
  {
  }

  lemma OneMoreByte(crc: bv16, data: seq<bv8>, n: nat)
    requires n < |data|
    ensures Crc(crc, data[..n + 1]) == ByteStep(Crc(crc, data[..n]), data[n])
  {
    assert data[..n + 1][..n] == data[..n];
  }

  /** The CRC of the digits 1 to 9. */
  lemma CheckValue()
    ensures Crc(INIT, DIGITS) == 0x29B1
  {
    hide ByteStep;
    DigitsOneToThree();
    DigitsFourToSix();
    DigitsSevenToNine();
    OneMoreByte(INIT, DIGITS, 0);
    OneMoreByte(INIT, DIGITS, 1);
    OneMoreByte(INIT, DIGITS, 2);
    OneMoreByte(INIT, DIGITS, 3);
    OneMoreByte(INIT, DIGITS, 4);
    OneMoreByte(INIT, DIGITS, 5);
    OneMoreByte(INIT, DIGITS, 6);
    OneMoreByte(INIT, DIGITS, 7);
    OneMoreByte(INIT, DIGITS, 8);
    assert DIGITS[..0] == [] && DIGITS[..9] == DIGITS;
  }
}
