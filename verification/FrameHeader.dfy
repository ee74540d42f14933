/** The sixteen header bits of a physical-layer frame, as bits with the most significant first. */
module FrameHeader {

  import opened Bytes
  import opened ConvCode

  const DATA_BITS: nat := 12
  const HEADER_BITS: nat := 16
  const MODCODS: nat := 5

  datatype Header = Header(modcod: nat, kind: nat, seqNo: nat)

  /** Modulation (bits per symbol) and code rate of a MODCOD. */
  datatype Modcod = Modcod(bitsPerSymbol: nat, rate: nat)

  /** BPSK 1/2, QPSK 1/2, QPSK 3/4, 8PSK 2/3, 8PSK 5/6. */
  function ModcodOf(id: nat): (m: Modcod)
    requires id < MODCODS
    ensures 1 <= m.bitsPerSymbol <= 3 && m.rate < RATE_COUNT
  {
    match id
    case 0 => Modcod(1, 0)
    case 1 => Modcod(2, 0)
    case 2 => Modcod(2, 2)
    case 3 => Modcod(3, 1)
    case _ => Modcod(3, 3)
  }

  // ---- Fields as bits ----

  function Field(v: nat, n: nat): (bits: seq<bool>)
    ensures |bits| == n
  {
    if n == 0 then [] else Field(v / 2, n - 1) + [v % 2 == 1]
  }

  function Value(bits: seq<bool>): nat {
    if bits == [] then 0 else 2 * Value(bits[..|bits| - 1]) + if bits[|bits| - 1] then 1 else 0
  }

  function Power2(n: nat): nat {
    if n == 0 then 1 else 2 * Power2(n - 1)
  }

  lemma {:induction false} ValueOfField(v: nat, n: nat)
    requires v < Power2(n)
    ensures Value(Field(v, n)) == v
  {
    if n > 0 {
      ValueOfField(v / 2, n - 1);
      assert Field(v, n)[..n - 1] == Field(v / 2, n - 1);
    }
  }

  lemma {:induction false} FieldOfValue(bits: seq<bool>)
    ensures Value(bits) < Power2(|bits|) && Field(Value(bits), |bits|) == bits
  {
    if bits != [] {
      FieldOfValue(bits[..|bits| - 1]);
      assert bits == bits[..|bits| - 1] + [bits[|bits| - 1]];
    }
  }

  // ---- CRC-4, x^4 + x + 1 ----

  /** The register, most significant bit first. */
  datatype Register = Register(r3: bool, r2: bool, r1: bool, r0: bool)

  const ZERO: Register := Register(false, false, false, false)

  function ShiftIn(reg: Register, bit: bool): Register {
    var feedback := reg.r3 != bit;
    Register(reg.r2, reg.r1, reg.r0 != feedback, feedback)
  }

  function Divide(bits: seq<bool>): Register {
    if bits == [] then ZERO else ShiftIn(Divide(bits[..|bits| - 1]), bits[|bits| - 1])
  }

  function RegisterBits(reg: Register): (bits: seq<bool>)
    ensures |bits| == 4
  {
    [reg.r3, reg.r2, reg.r1, reg.r0]
  }

  method Crc4(data: seq<bool>) returns (reg: Register)
    ensures reg == Divide(data)
  {
    hide ShiftIn;
    reg := ZERO;
    for i := 0 to |data|
      invariant reg == Divide(data[..i])
    {
      assert data[..i + 1][..i] == data[..i];
      reg := ShiftIn(reg, data[i]);
    }
    assert data[..|data|] == data;
  }

  function DataBits(h: Header): (bits: seq<bool>)
    ensures |bits| == DATA_BITS
  {
    Field(h.modcod, 3) + Field(h.kind, 2) + Field(h.seqNo, 7)
  }

  /** Fields wider than their place are cut. */
  function EncodeHeader(h: Header): (bits: seq<bool>)
    ensures |bits| == HEADER_BITS
  {
    DataBits(h) + RegisterBits(Divide(DataBits(h)))
  }

  predicate CrcMatches(bits: seq<bool>)
    requires |bits| == HEADER_BITS
  {
    RegisterBits(Divide(bits[..12])) == bits[12..]
  }

  /** None when the CRC fails or the MODCOD is unknown. */
  function DecodeHeader(bits: seq<bool>): (h: Option<Header>)
    requires |bits| == HEADER_BITS
    ensures h.Some? ==> h.value.modcod < MODCODS
  {
    if !CrcMatches(bits) then None
    else
      var h := Header(Value(bits[..3]), Value(bits[3..5]), Value(bits[5..12]));
      if h.modcod < MODCODS then Some(h) else None
  }

  method WriteHeader(h: Header) returns (bits: seq<bool>)
    ensures bits == EncodeHeader(h)
  {
    hide Divide;
    var crc := Crc4(DataBits(h));
    bits := DataBits(h) + RegisterBits(crc);
  }

  method ReadHeader(bits: seq<bool>) returns (h: Option<Header>)
    requires |bits| == HEADER_BITS
    ensures h == DecodeHeader(bits)
  {
    hide Divide;
    var crc := Crc4(bits[..12]);
    if RegisterBits(crc) != bits[12..] { return None; }
    var header := Header(Value(bits[..3]), Value(bits[3..5]), Value(bits[5..12]));
    h := if header.modcod < MODCODS then Some(header) else None;
  }

  /** Every header with a known MODCOD survives, and nothing else decodes to it. */
  lemma DecodesIffEncoded(bits: seq<bool>, h: Header)
    requires |bits| == HEADER_BITS
    ensures DecodeHeader(bits) == Some(h) <==>
            h.modcod < MODCODS && h.kind < 4 && h.seqNo < 128 && bits == EncodeHeader(h)
  {
    hide Field, Value, Divide, RegisterBits;
    Powers();
    FieldOfValue(bits[..3]);
    FieldOfValue(bits[3..5]);
    FieldOfValue(bits[5..12]);
    assert bits == bits[..3] + bits[3..5] + bits[5..12] + bits[12..];
    assert bits[..12] == bits[..3] + bits[3..5] + bits[5..12];
    if h.modcod < MODCODS && h.kind < 4 && h.seqNo < 128 && bits == EncodeHeader(h) {
      ValueOfField(h.modcod, 3);
      ValueOfField(h.kind, 2);
      ValueOfField(h.seqNo, 7);
      var d := DataBits(h);
      assert bits[..12] == d && bits[..3] == d[..3] && bits[3..5] == d[3..5] && bits[5..12] == d[5..12];
      assert d[..3] == Field(h.modcod, 3) && d[3..5] == Field(h.kind, 2) && d[5..12] == Field(h.seqNo, 7);
    }
  }

  lemma Powers()
    ensures Power2(2) == 4 && Power2(3) == 8 && Power2(7) == 128
  {
  }

  // ---- Errors the CRC finds ----

  lemma {:induction false} DivideComposes(a: seq<bool>, b: bool)
    ensures Divide(a + [b]) == ShiftIn(Divide(a), b)
  {
    assert (a + [b])[..|a|] == a;
  }

  /** The register is its own CRC: shifting the check bits in leaves zero, and only they do. */
  lemma CheckBitsCancel(reg: Register, c: seq<bool>)
    requires |c| == 4
    ensures ShiftIn(ShiftIn(ShiftIn(ShiftIn(reg, c[0]), c[1]), c[2]), c[3]) == ZERO <==> RegisterBits(reg) == c
  {
  }

  lemma ResidueIsZero(bits: seq<bool>)
    requires |bits| == HEADER_BITS
    ensures CrcMatches(bits) <==> Divide(bits) == ZERO
  {
    hide ShiftIn, RegisterBits, Divide;
    FourMore(bits, 12);
    assert bits[..16] == bits;
    CheckBitsCancel(Divide(bits[..12]), bits[12..]);
  }

  /** Different registers stay different under the same input. */
  lemma {:induction false} DifferenceStays(a: seq<bool>, b: seq<bool>, from: nat, n: nat)
    requires from <= n <= |a| && |a| == |b| && a[from..n] == b[from..n] && Divide(a[..from]) != Divide(b[..from])
    ensures Divide(a[..n]) != Divide(b[..n])
  {
    if from < n {
      assert a[from..n][..n - 1 - from] == a[from..n - 1] && b[from..n][..n - 1 - from] == b[from..n - 1];
      DifferenceStays(a, b, from, n - 1);
      assert a[..n][..n - 1] == a[..n - 1] && b[..n][..n - 1] == b[..n - 1];
      assert a[n - 1] == a[from..n][n - 1 - from] && b[n - 1] == b[from..n][n - 1 - from];
    }
  }

  lemma FourInputsInjective(reg: Register, p: bool, q: bool, r: bool, s: bool, p': bool, q': bool, r': bool, s': bool)
    requires ShiftIn(ShiftIn(ShiftIn(ShiftIn(reg, p), q), r), s) ==
             ShiftIn(ShiftIn(ShiftIn(ShiftIn(reg, p'), q'), r'), s')
    ensures p == p' && q == q' && r == r' && s == s'
  {
  }

  lemma FourMore(bits: seq<bool>, i: nat)
    requires i + 4 <= |bits|
    ensures Divide(bits[..i + 4]) ==
            ShiftIn(ShiftIn(ShiftIn(ShiftIn(Divide(bits[..i]), bits[i]), bits[i + 1]), bits[i + 2]), bits[i + 3])
  {
    hide Divide, ShiftIn;
    DivideComposes(bits[..i], bits[i]);
    DivideComposes(bits[..i + 1], bits[i + 1]);
    DivideComposes(bits[..i + 2], bits[i + 2]);
    DivideComposes(bits[..i + 3], bits[i + 3]);
    assert bits[..i + 1] == bits[..i] + [bits[i]] && bits[..i + 2] == bits[..i + 1] + [bits[i + 1]];
    assert bits[..i + 3] == bits[..i + 2] + [bits[i + 2]] && bits[..i + 4] == bits[..i + 3] + [bits[i + 3]];
  }

  /** No error confined to four neighbouring bits is accepted. */
  lemma BurstDetected(a: seq<bool>, b: seq<bool>, i: nat)
    requires |a| == HEADER_BITS && |b| == HEADER_BITS && i + 4 <= HEADER_BITS
    requires a[..i] == b[..i] && a[i + 4..] == b[i + 4..]
    requires CrcMatches(a) && CrcMatches(b)
    ensures a == b
  {
    hide Divide, ShiftIn, CrcMatches;
    ResidueIsZero(a);
    ResidueIsZero(b);
    assert a[..16] == a && b[..16] == b && a[i + 4..16] == a[i + 4..] && b[i + 4..16] == b[i + 4..];
    if Divide(a[..i + 4]) != Divide(b[..i + 4]) {
      DifferenceStays(a, b, i + 4, 16);
    }
    FourMore(a, i);
    FourMore(b, i);
    FourInputsInjective(Divide(a[..i]), a[i], a[i + 1], a[i + 2], a[i + 3], b[i], b[i + 1], b[i + 2], b[i + 3]);
    assert a == a[..i] + [a[i], a[i + 1], a[i + 2], a[i + 3]] + a[i + 4..];
    assert b == b[..i] + [b[i], b[i + 1], b[i + 2], b[i + 3]] + b[i + 4..];
  }

  // ---- The header as a number ----

  /** The generator x^4 + x + 1, and no other polynomial of degree four, leaves no remainder. */
  lemma GeneratorIs(c: seq<bool>)
    requires |c| == 4
    ensures Divide([true] + c) == ZERO <==> c == [false, false, true, true]
  {
    hide RegisterBits, ShiftIn;
    var bits := [true] + c;
    assert bits[..1] == [true] && bits[..0] == [];
    FourMore(bits, 1);
    assert bits[..5] == bits;
    assert Divide([true]) == ShiftIn(ZERO, true);
    OneShiftedIn();
    CheckBitsCancel(Register(false, false, true, true), c);
    CheckBitsAre();
  }

  lemma OneShiftedIn()
    ensures ShiftIn(ZERO, true) == Register(false, false, true, true)
  {
  }

  lemma CheckBitsAre()
    ensures RegisterBits(Register(false, false, true, true)) == [false, false, true, true]
  {
  }

  lemma {:induction false} ValueOfSum(a: seq<bool>, b: seq<bool>)
    ensures Value(a + b) == Value(a) * Power2(|b|) + Value(b)
  {
    if b == [] {
      assert a + b == a;
    } else {
      var n := |b| - 1;
      ValueOfSum(a, b[..n]);
      assert (a + b)[..|a + b| - 1] == a + b[..n];
      assert Value(a) * Power2(|b|) == 2 * (Value(a) * Power2(n));
    }
  }

  /** The sixteen bits as a word: MODCOD from bit 13, type from bit 11, sequence number from bit 4, CRC below. */
  lemma HeaderWord(h: Header)
    requires h.modcod < 8 && h.kind < 4 && h.seqNo < 128
    ensures var crc := RegisterBits(Divide(DataBits(h)));
            Value(EncodeHeader(h)) == 0x2000 * h.modcod + 0x800 * h.kind + 0x10 * h.seqNo + Value(crc)
  {
    hide Field, Value, Power2, Divide, RegisterBits;
    Powers();
    PowerFour();
    ValueOfField(h.modcod, 3);
    ValueOfField(h.kind, 2);
    ValueOfField(h.seqNo, 7);
    ValueOfSum(Field(h.modcod, 3), Field(h.kind, 2));
    ValueOfSum(Field(h.modcod, 3) + Field(h.kind, 2), Field(h.seqNo, 7));
    ValueOfSum(DataBits(h), RegisterBits(Divide(DataBits(h))));
  }

  lemma PowerFour()
    ensures Power2(4) == 16
  {
  }
}
