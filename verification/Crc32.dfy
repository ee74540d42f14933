/** CRC-32 (reflected polynomial 0xEDB88320): the nibble-table form against the bitwise one. */
module Crc32 {

  const INIT: bv32 := 0

  // ---- Exclusive or, kept as a named operation so that proofs can treat it abstractly ----

  function Xor(a: bv32, b: bv32): bv32 { a ^ b }

  lemma XorCommutes(a: bv32, b: bv32)
    ensures Xor(a, b) == Xor(b, a)
  {
  }

  lemma XorAssociates(a: bv32, b: bv32, c: bv32)
    ensures Xor(Xor(a, b), c) == Xor(a, Xor(b, c))
  {
    assert (a ^ b) ^ c == a ^ (b ^ c);
  }

  lemma XorSwaps(a: bv32, b: bv32, c: bv32, d: bv32)
    ensures Xor(Xor(a, b), Xor(c, d)) == Xor(Xor(a, c), Xor(b, d))
  {
    hide Xor;
    XorAssociates(a, b, Xor(c, d));
    XorAssociates(b, c, d);
    XorCommutes(b, c);
    XorAssociates(c, b, d);
    XorAssociates(a, c, Xor(b, d));
  }

  // ---- The bit-at-a-time reference ----

  function Feedback(reg: bv32): bv32 {
    if reg & 1 != 0 then 0xEDB88320 else 0
  }

  /** One division step by the reflected polynomial. */
  function BitStep(reg: bv32): bv32 {
    Xor(reg >> 1, Feedback(reg))
  }

  function FourSteps(reg: bv32): bv32 {
    BitStep(BitStep(BitStep(BitStep(reg))))
  }

  /** Eight division steps per byte on the complemented register. */
  function ByteStep(reg: bv32, byte: bv8): bv32 {
    FourSteps(FourSteps(reg ^ (byte as bv32)))
  }

  function Register(reg: bv32, data: seq<bv8>): bv32 {
    if data == [] then reg else ByteStep(Register(reg, data[..|data| - 1]), data[|data| - 1])
  }

  function Not(x: bv32): bv32 { !x }

  lemma NotTwice(x: bv32)
    ensures Not(Not(x)) == x
  {
  }

  function Crc(crc: bv32, data: seq<bv8>): bv32 {
    Not(Register(Not(crc), data))
  }

  function Table(index: bv32): bv32 {
    match index
    case 0 => 0x00000000
    case 1 => 0x1DB71064
    case 2 => 0x3B6E20C8
    case 3 => 0x26D930AC
    case 4 => 0x76DC4190
    case 5 => 0x6B6B51F4
    case 6 => 0x4DB26158
    case 7 => 0x5005713C
    case 8 => 0xEDB88320
    case 9 => 0xF00F9344
    case 10 => 0xD6D6A3E8
    case 11 => 0xCB61B38C
    case 12 => 0x9B64C2B0
    case 13 => 0x86D3D2D4
    case 14 => 0xA00AE278
    case _ => 0xBDBDF21C
  }

  function ProcessNibble(reg: bv32): bv32 {
    (reg >> 4) ^ Table(reg & 0x0F)
  }

  lemma RawShift(a: bv32, b: bv32)
    ensures (a ^ b) >> 1 == (a >> 1) ^ (b >> 1)
  {
  }

  lemma ShiftIsLinear(a: bv32, b: bv32)
    ensures Xor(a, b) >> 1 == Xor(a >> 1, b >> 1)
  {
    var r, t := a ^ b, (a >> 1) ^ (b >> 1);
    assert Xor(a, b) == r && Xor(a >> 1, b >> 1) == t;
    hide Xor;
    RawShift(a, b);
  }

  lemma FeedbackIsLinear(a: bv32, b: bv32)
    ensures Feedback(Xor(a, b)) == Xor(Feedback(a), Feedback(b))
  {
    var x, y := a & 1, b & 1;
    assert (a ^ b) & 1 == x ^ y;
    assert x == 0 || x == 1;
    assert y == 0 || y == 1;
  }

  lemma StepIsLinear(a: bv32, b: bv32)
    ensures BitStep(Xor(a, b)) == Xor(BitStep(a), BitStep(b))
  {
    hide Xor, Feedback;
    ShiftIsLinear(a, b);
    FeedbackIsLinear(a, b);
    XorSwaps(a >> 1, Feedback(a), b >> 1, Feedback(b));
  }

  lemma FourStepsAreLinear(a: bv32, b: bv32)
    ensures FourSteps(Xor(a, b)) == Xor(FourSteps(a), FourSteps(b))
  {
    hide BitStep, Xor;
    StepIsLinear(a, b);
    StepIsLinear(BitStep(a), BitStep(b));
    StepIsLinear(BitStep(BitStep(a)), BitStep(BitStep(b)));
    StepIsLinear(BitStep(BitStep(BitStep(a))), BitStep(BitStep(BitStep(b))));
  }

  predicate Even(w: bv32) { w & 1 == 0 }

  function Half(w: bv32): bv32 { w >> 1 }

  lemma StepShifts(w: bv32)
    requires Even(w)
    ensures BitStep(w) == Half(w)
  {
    assert (w >> 1) ^ 0 == w >> 1;
  }

  lemma LowNibbleEmpty(w: bv32)
    requires w & 0x0F == 0
    ensures Even(w) && Even(Half(w)) && Even(Half(Half(w))) && Even(Half(Half(Half(w))))
    ensures Half(Half(Half(Half(w)))) == w >> 4
  {
  }

  /** A word with an empty low nibble is only shifted. */
  lemma FourStepsShift(w: bv32)
    requires w & 0x0F == 0
    ensures FourSteps(w) == w >> 4
  {
    hide BitStep, Even, Half;
    LowNibbleEmpty(w);
    StepShifts(w);
    StepShifts(Half(w));
    StepShifts(Half(Half(w)));
    StepShifts(Half(Half(Half(w))));
  }

  /** The table holds the remainder of every nibble. */
  lemma TableIsFourSteps(index: bv32)
    requires index <= 0x0F
    ensures Table(index) == FourSteps(index)
  {
  }

  lemma RegisterSplits(reg: bv32)
    ensures Xor(reg & 0xFFFFFFF0, reg & 0x0F) == reg
    ensures (reg & 0xFFFFFFF0) & 0x0F == 0 && (reg & 0xFFFFFFF0) >> 4 == reg >> 4
    ensures reg & 0x0F <= 0x0F
  {
  }

  lemma ProcessNibbleParts(reg: bv32)
    ensures ProcessNibble(reg) == Xor(reg >> 4, Table(reg & 0x0F))
  {
  }

  /** One table look-up is four division steps. */
  lemma NibbleIsFourSteps(reg: bv32)
    ensures ProcessNibble(reg) == FourSteps(reg)
  {
    hide Table, FourSteps, Xor, ProcessNibble;
    ProcessNibbleParts(reg);
    RegisterSplits(reg);
    FourStepsAreLinear(reg & 0xFFFFFFF0, reg & 0x0F);
    FourStepsShift(reg & 0xFFFFFFF0);
    TableIsFourSteps(reg & 0x0F);
  }

  method Update(crc: bv32, data: seq<bv8>) returns (result: bv32)
    ensures result == Crc(crc, data)
  {
    hide FourSteps, ProcessNibble, Not;
    var reg := Not(crc);
    for i := 0 to |data|
      invariant reg == Register(Not(crc), data[..i])
    {
      assert data[..i + 1][..i] == data[..i];
      reg := reg ^ (data[i] as bv32);
      NibbleIsFourSteps(reg);
      reg := ProcessNibble(reg);
      NibbleIsFourSteps(reg);
      reg := ProcessNibble(reg);
    }
    assert data[..|data|] == data;
    result := Not(reg);
  }

  lemma {:induction false} RegisterComposes(reg: bv32, a: seq<bv8>, b: seq<bv8>)
    ensures Register(reg, a + b) == Register(Register(reg, a), b)
  {
    hide ByteStep;
    if b == [] {
      assert a + b == a;
    } else {
      assert (a + b)[..|a + b| - 1] == a + b[..|b| - 1];
      RegisterComposes(reg, a, b[..|b| - 1]);
    }
  }

  /** Updates compose over concatenation. */
  lemma Compose(crc: bv32, a: seq<bv8>, b: seq<bv8>)
    ensures Crc(crc, a + b) == Crc(Crc(crc, a), b)
  {
    hide Register, Not;
    NotTwice(Register(Not(crc), a));
    RegisterComposes(Not(crc), a, b);
  }

  // ---- The check value ----

  const DIGITS: seq<bv8> := [0x31, 0x32, 0x33, 0x34, 0x35, 0x36, 0x37, 0x38, 0x39]

  lemma DigitsOneToThree()
    ensures ByteStep(0xFFFFFFFF, 0x31) == 0x7C231048
    ensures ByteStep(0x7C231048, 0x32) == 0xB0ACBB32
    ensures ByteStep(0xB0ACBB32, 0x33) == 0x77B79C2D
  {
  }

  lemma DigitsFourToSix()
    ensures ByteStep(0x77B79C2D, 0x34) == 0x641C1F5C
    ensures ByteStep(0x641C1F5C, 0x35) == 0x340AC5E3
    ensures ByteStep(0x340AC5E3, 0x36) == 0xF68D2C9E
  {
  }

  lemma DigitsSevenToNine()
    ensures ByteStep(0xF68D2C9E, 0x37) == 0xAFFC9660
    ensures ByteStep(0xAFFC9660, 0x38) == 0x651F2550
    ensures ByteStep(0x651F2550, 0x39) == 0x340BC6D9
  {
  }

  lemma OneMoreByte(crc: bv32, data: seq<bv8>, n: nat)
    requires n < |data|
    ensures Register(crc, data[..n + 1]) == ByteStep(Register(crc, data[..n]), data[n])
  {
    assert data[..n + 1][..n] == data[..n];
  }

  /** The CRC of the digits 1 to 9. */
  lemma CheckValue()
    ensures Crc(INIT, DIGITS) == 0xCBF43926
  {
    hide ByteStep;
    DigitsOneToThree();
    DigitsFourToSix();
    DigitsSevenToNine();
    OneMoreByte(0xFFFFFFFF, DIGITS, 0);
    OneMoreByte(0xFFFFFFFF, DIGITS, 1);
    OneMoreByte(0xFFFFFFFF, DIGITS, 2);
    OneMoreByte(0xFFFFFFFF, DIGITS, 3);
    OneMoreByte(0xFFFFFFFF, DIGITS, 4);
    OneMoreByte(0xFFFFFFFF, DIGITS, 5);
    OneMoreByte(0xFFFFFFFF, DIGITS, 6);
    OneMoreByte(0xFFFFFFFF, DIGITS, 7);
    OneMoreByte(0xFFFFFFFF, DIGITS, 8);
    assert DIGITS[..0] == [] && DIGITS[..9] == DIGITS;
    ComplementIs();
  }

  lemma ComplementIs()
    ensures Not(INIT) == 0xFFFFFFFF && Not(0x340BC6D9) == 0xCBF43926
  {
  }
}
