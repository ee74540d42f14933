/** The punctured K = 7 convolutional code: trellis, encoder and its injectivity.
    The shift register is an integer, so a shift is a division or a multiplication by two and an
    or of disjoint bit fields is a sum. */
module ConvCode {

  import opened Arith
  import opened Bytes

  const TAIL_BITS: nat := 6
  const STATES: nat := 64
  const MAX_INFO_BITS: nat := 2048
  const RATE_COUNT: nat := 5

  /** One puncturing pattern: which C1 and C2 bits are sent in each phase of the period. */
  datatype Puncture = Puncture(period: nat, c1: seq<bool>, c2: seq<bool>)

  function Pattern(rate: nat): (p: Puncture)
    requires rate < RATE_COUNT
    ensures p.period > 0 && |p.c1| == p.period && |p.c2| == p.period
    ensures forall k :: 0 <= k < p.period ==> p.c1[k] || p.c2[k]
  {
    if rate == 0 then Puncture(1, [true], [true])
    else if rate == 1 then Puncture(2, [true, false], [true, true])
    else if rate == 2 then Puncture(3, [true, false, true], [true, true, false])
    else if rate == 3 then Puncture(5, [true, false, true, false, true], [true, true, false, true, false])
    else Puncture(7, [true, false, false, false, true, false, true], [true, true, true, true, false, true, false])
  }

  /** Puncturing phase of a trellis step, counted up and wrapped at the period. */
  function Phase(rate: nat, step: nat): (k: nat)
    requires rate < RATE_COUNT
    ensures k < Pattern(rate).period
  {
    if step == 0 || Phase(rate, step - 1) + 1 == Pattern(rate).period then 0 else Phase(rate, step - 1) + 1
  }

  /** The wrapped count is the remainder the code computes. */
  lemma {:induction false} PhaseIsRemainder(rate: nat, step: nat)
    requires rate < RATE_COUNT
    ensures Phase(rate, step) == step % Pattern(rate).period
  {
    if step > 0 {
      PhaseIsRemainder(rate, step - 1);
      var p := Pattern(rate).period;
      hide Pattern;
      NextRemainder(step - 1, p);
    }
  }

  predicate SendsC1(rate: nat, step: nat)
    requires rate < RATE_COUNT
  {
    Pattern(rate).c1[Phase(rate, step)]
  }

  predicate SendsC2(rate: nat, step: nat)
    requires rate < RATE_COUNT
  {
    Pattern(rate).c2[Phase(rate, step)]
  }

  function Count(b: bool): nat { if b then 1 else 0 }

  /** Number of coded bits sent before trellis step `step`. */
  function Offset(rate: nat, step: nat): (n: nat)
    requires rate < RATE_COUNT
    ensures step <= n <= 2 * step
  {
    if step == 0 then 0
    else Offset(rate, step - 1) + Count(SendsC1(rate, step - 1)) + Count(SendsC2(rate, step - 1))
  }

  lemma OffsetStep(rate: nat, step: nat)
    requires rate < RATE_COUNT
    ensures Offset(rate, step + 1) == Offset(rate, step) + Count(SendsC1(rate, step)) + Count(SendsC2(rate, step))
  {
  }

  lemma {:induction false} OffsetMonotone(rate: nat, a: nat, b: nat)
    requires rate < RATE_COUNT && a <= b
    ensures Offset(rate, a) <= Offset(rate, b)
    decreases b
  {
    hide SendsC1, SendsC2;
    if a < b { OffsetMonotone(rate, a, b - 1); }
  }

  /** Coded bits of a whole block, zero for an unknown rate. */
  function CodedBitsSpec(infoBits: nat, rate: nat): nat {
    if rate >= RATE_COUNT then 0 else Offset(rate, infoBits + TAIL_BITS)
  }

  method CodedBits(infoBits: nat, rate: nat) returns (count: nat)
    ensures count == CodedBitsSpec(infoBits, rate)
  {
    hide Pattern, Phase, Offset, SendsC1, SendsC2;
    if rate >= RATE_COUNT { return 0; }
    var p := Pattern(rate);
    var steps := infoBits + TAIL_BITS;
    count := 0;
    NothingSent(rate);
    for i := 0 to steps
      invariant count == Offset(rate, i)
    {
      var phase := i % p.period;
      CountedStep(rate, i);
      count := count + Count(p.c1[phase]) + Count(p.c2[phase]);
    }
  }

  lemma NothingSent(rate: nat)
    requires rate < RATE_COUNT
    ensures Offset(rate, 0) == 0
  {
  }

  lemma CountedStep(rate: nat, i: nat)
    requires rate < RATE_COUNT
    ensures var p := Pattern(rate); var phase := i % p.period;
            phase < p.period && Offset(rate, i + 1) == Offset(rate, i) + Count(p.c1[phase]) + Count(p.c2[phase])
  {
    hide Pattern, Phase;
    PhaseIsRemainder(rate, i);
  }

  // ---- The trellis ----

  /** Bit k of a register, w = 2^k. */
  function Tap(reg: nat, w: nat): nat
    requires w > 0
  {
    reg / w % 2
  }

  /** Number of register bits tapped by G1 = 171 octal (bits 6, 5, 4, 3 and 0) that are set. */
  function G1Weight(reg: nat): nat {
    Tap(reg, 64) + Tap(reg, 32) + Tap(reg, 16) + Tap(reg, 8) + Tap(reg, 1)
  }

  /** The same for G2 = 133 octal (bits 6, 4, 3, 1 and 0). */
  function G2Weight(reg: nat): nat {
    Tap(reg, 64) + Tap(reg, 16) + Tap(reg, 8) + Tap(reg, 2) + Tap(reg, 1)
  }

  /** Outputs of the branch taken from `state` by input `bit`; C2 is inverted. */
  function BranchOutputs(state: nat, bit: bool): (bool, bool) {
    var reg := 64 * Count(bit) + state;
    (G1Weight(reg) % 2 == 1, G2Weight(reg) % 2 == 0)
  }

  /** The folding parity of a masked word. */
  function Parity7(v: bv32): bv32 {
    var x0 := v & 0x7F;
    var x1 := x0 ^ (x0 >> 4);
    var x2 := x1 ^ (x1 >> 2);
    var x3 := x2 ^ (x2 >> 1);
    x3 & 1
  }

  /** The parity under the generator masks G1 = 171 octal and G2 = 133 octal. */
  function ParityG1(w: bv32): bv32 { Parity7(w & 0x79) }

  function ParityG2(w: bv32): bv32 { Parity7(w & 0x5B) }

  // ---- The register as the word the code shifts and masks ----

  function Bit7(b: bool, mask: bv32): bv32 { if b then mask else 0 }

  function Word7(b6: bool, b5: bool, b4: bool, b3: bool, b2: bool, b1: bool, b0: bool): bv32 {
    Bit7(b6, 0x40) | Bit7(b5, 0x20) | Bit7(b4, 0x10) | Bit7(b3, 0x08) | Bit7(b2, 0x04) | Bit7(b1, 0x02) | Bit7(b0, 0x01)
  }

  /** The 32-bit word with the seven binary digits of the register. */
  function WordOf(reg: nat): bv32 {
    Word7(Tap(reg, 64) == 1, Tap(reg, 32) == 1, Tap(reg, 16) == 1, Tap(reg, 8) == 1, Tap(reg, 4) == 1, Tap(reg, 2) == 1,
          Tap(reg, 1) == 1)
  }

  lemma Parity7Reads(b6: bool, b5: bool, b4: bool, b3: bool, b2: bool, b1: bool, b0: bool)
    ensures var w := Word7(b6, b5, b4, b3, b2, b1, b0);
            (ParityG1(w) == if (((b6 != b5) != b4) != b3) != b0 then 1 else 0) &&
            (ParityG2(w) == if (((b6 != b4) != b3) != b1) != b0 then 1 else 0)
  {
  }

  lemma OddSum(a: nat, b: nat, c: nat, d: nat, e: nat)
    requires a < 2 && b < 2 && c < 2 && d < 2 && e < 2
    ensures (a + b + c + d + e) % 2 == 1 <==> ((((a == 1) != (b == 1)) != (c == 1)) != (d == 1)) != (e == 1)
  {
  }

  /** The folding parity of the register masked with G1 or G2 is the number of its tapped bits modulo 2. */
  lemma ParityIsTapSum(reg: nat)
    ensures ParityG1(WordOf(reg)) == if G1Weight(reg) % 2 == 1 then 1 else 0
    ensures ParityG2(WordOf(reg)) == if G2Weight(reg) % 2 == 1 then 1 else 0
  {
    hide Word7, ParityG1, ParityG2, Tap;
    TapsAreBits(reg);
    Parity7Reads(Tap(reg, 64) == 1, Tap(reg, 32) == 1, Tap(reg, 16) == 1, Tap(reg, 8) == 1, Tap(reg, 4) == 1,
                 Tap(reg, 2) == 1, Tap(reg, 1) == 1);
    OddSum(Tap(reg, 64), Tap(reg, 32), Tap(reg, 16), Tap(reg, 8), Tap(reg, 1));
    OddSum(Tap(reg, 64), Tap(reg, 16), Tap(reg, 8), Tap(reg, 2), Tap(reg, 1));
  }

  lemma TapsAreBits(reg: nat)
    ensures Tap(reg, 64) < 2 && Tap(reg, 32) < 2 && Tap(reg, 16) < 2 && Tap(reg, 8) < 2
    ensures Tap(reg, 4) < 2 && Tap(reg, 2) < 2 && Tap(reg, 1) < 2
  {
  }

  /** The input bit above the state. */
  function ShiftedIn(bit: bool, state: bv32): bv32 {
    ((if bit then 1 else 0) << 6) | state
  }

  lemma NewestBitShifted(b6: bool, b5: bool, b4: bool, b3: bool, b2: bool, b1: bool, b0: bool)
    ensures Word7(b6, b5, b4, b3, b2, b1, b0) == ShiftedIn(b6, Word7(false, b5, b4, b3, b2, b1, b0))
  {
  }

  /** The branch outputs are the folding parities of the word with the input bit shifted in above the state,
      the second one inverted. */
  lemma BranchIsParity(state: nat, bit: bool)
    requires state < STATES
    ensures var reg := ShiftedIn(bit, WordOf(state));
            (BranchOutputs(state, bit).0 <==> ParityG1(reg) == 1) &&
            (BranchOutputs(state, bit).1 <==> ParityG2(reg) == 0)
  {
    hide Word7, ParityG1, ParityG2, Tap, G1Weight, G2Weight, ShiftedIn;
    ParityIsTapSum(64 * Count(bit) + state);
    TapsBelowTheNewest(state);
    NewestBitShifted(bit, Tap(state, 32) == 1, Tap(state, 16) == 1, Tap(state, 8) == 1, Tap(state, 4) == 1,
                     Tap(state, 2) == 1, Tap(state, 1) == 1);
  }

  function NextState(state: nat, bit: bool): (r: nat)
    requires state < STATES
    ensures r < STATES
  {
    state / 2 + 32 * Count(bit)
  }

  /** Only bit 6 of the register is the newest input. */
  lemma TapsBelowTheNewest(state: nat)
    requires state < STATES
    ensures Tap(64 + state, 64) == 1 && Tap(state, 64) == 0
    ensures Tap(64 + state, 32) == Tap(state, 32) && Tap(64 + state, 16) == Tap(state, 16)
    ensures Tap(64 + state, 8) == Tap(state, 8) && Tap(64 + state, 4) == Tap(state, 4)
    ensures Tap(64 + state, 2) == Tap(state, 2) && Tap(64 + state, 1) == Tap(state, 1)
  {
    QuotientsAbove(state);
    EvenMore(1, state / 32);
    EvenMore(2, state / 16);
    EvenMore(4, state / 8);
    EvenMore(8, state / 4);
    EvenMore(16, state / 2);
    EvenMore(32, state);
  }

  lemma QuotientsAbove(state: nat)
    requires state < STATES
    ensures (64 + state) / 64 == 1 && state / 64 == 0
    ensures (64 + state) / 32 == 2 * 1 + state / 32 && (64 + state) / 16 == 2 * 2 + state / 16
    ensures (64 + state) / 8 == 2 * 4 + state / 8 && (64 + state) / 4 == 2 * 8 + state / 4
    ensures (64 + state) / 2 == 2 * 16 + state / 2
  {
  }

  lemma EvenMore(n: nat, x: nat)
    ensures (2 * n + x) % 2 == x % 2
  {
  }

  /** Setting the newest bit adds one to both weights. */
  lemma NewestBitCounts(state: nat)
    requires state < STATES
    ensures G1Weight(64 + state) == 1 + G1Weight(state)
    ensures G2Weight(64 + state) == 1 + G2Weight(state)
  {
    hide Tap;
    TapsBelowTheNewest(state);
  }

  /** Both generators tap the newest bit, so the two branches leaving a state differ in C1 and C2. */
  lemma {:induction false} BranchesDiffer(state: nat)
    requires state < STATES
    ensures BranchOutputs(state, false).0 != BranchOutputs(state, true).0
    ensures BranchOutputs(state, false).1 != BranchOutputs(state, true).1
  {
    hide G1Weight, G2Weight;
    NewestBitCounts(state);
    Flip(G1Weight(state));
    Flip(G2Weight(state));
  }

  lemma Flip(x: nat)
    ensures (1 + x) % 2 != x % 2
  {
  }

  function Last(u: seq<bool>): bool
    requires u != []
  {
    u[|u| - 1]
  }

  function Front(u: seq<bool>): seq<bool>
    requires u != []
  {
    u[..|u| - 1]
  }

  /** State reached from `start` on the inputs u. */
  function StateFrom(start: nat, u: seq<bool>): (r: nat)
    requires start < STATES
    ensures r < STATES
  {
    if u == [] then start else NextState(StateFrom(start, Front(u)), Last(u))
  }

  /** What one trellis step sends. */
  function Sent(rate: nat, step: nat, state: nat, bit: bool): (out: seq<bool>)
    requires rate < RATE_COUNT
    ensures |out| == Count(SendsC1(rate, step)) + Count(SendsC2(rate, step))
  {
    var (c1, c2) := BranchOutputs(state, bit);
    (if SendsC1(rate, step) then [c1] else []) + (if SendsC2(rate, step) then [c2] else [])
  }

  /** The punctured codeword of the inputs u. */
  function Codeword(rate: nat, u: seq<bool>): (out: seq<bool>)
    requires rate < RATE_COUNT
    ensures |out| == Offset(rate, |u|)
  {
    if u == [] then []
    else Codeword(rate, Front(u)) + Sent(rate, |u| - 1, StateFrom(0, Front(u)), Last(u))
  }

  lemma PathStart(rate: nat, u: seq<bool>)
    requires rate < RATE_COUNT
    ensures StateFrom(0, u[..0]) == 0 && Codeword(rate, u[..0]) == []
  {
  }

  /** One more input: the state moves on and the step's bits are appended. */
  lemma PathStep(rate: nat, u: seq<bool>, i: nat)
    requires rate < RATE_COUNT && i < |u|
    ensures forall s :: 0 <= s < STATES ==> StateFrom(s, u[..i + 1]) == NextState(StateFrom(s, u[..i]), u[i])
    ensures Codeword(rate, u[..i + 1])
         == Codeword(rate, u[..i]) + Sent(rate, i, StateFrom(0, u[..i]), u[i])
  {
    assert Front(u[..i + 1]) == u[..i] && Last(u[..i + 1]) == u[i];
  }

  function Zeros(n: nat): (z: seq<bool>)
    ensures |z| == n
  {
    seq(n, _ => false)
  }

  /** The information word followed by the six zero tail bits. */
  function Terminated(info: seq<bool>): (u: seq<bool>)
    ensures |u| == |info| + TAIL_BITS
  {
    info + Zeros(TAIL_BITS)
  }

  /** Encoding is injective at all five rates: at every step at least one of C1 and C2 is sent, and
      either of them tells the input bit apart once the state is known. */
  lemma {:induction false} EncodingIsInjective(rate: nat, u: seq<bool>, v: seq<bool>)
    requires rate < RATE_COUNT && |u| == |v|
    requires Codeword(rate, u) == Codeword(rate, v)
    ensures u == v
  {
    hide BranchOutputs, SendsC1, SendsC2, StateFrom;
    if u != [] {
      var n := Offset(rate, |u| - 1);
      assert Codeword(rate, u)[..n] == Codeword(rate, Front(u));
      assert Codeword(rate, v)[..n] == Codeword(rate, Front(v));
      EncodingIsInjective(rate, Front(u), Front(v));
      var s := StateFrom(0, Front(u));
      assert Codeword(rate, u)[n..] == Sent(rate, |u| - 1, s, Last(u));
      assert Codeword(rate, v)[n..] == Sent(rate, |u| - 1, s, Last(v));
      SentTellsTheBit(rate, |u| - 1, s, Last(u), Last(v));
      assert u == Front(u) + [Last(u)] && v == Front(v) + [Last(v)];
    }
  }

  lemma {:induction false} SentTellsTheBit(rate: nat, step: nat, state: nat, a: bool, b: bool)
    requires rate < RATE_COUNT && state < STATES
    requires Sent(rate, step, state, a) == Sent(rate, step, state, b)
    ensures a == b
  {
    hide BranchOutputs, SendsC1, SendsC2;
    BranchesDiffer(state);
    EveryPhaseSends(rate, step);
    var x, y := Sent(rate, step, state, a), Sent(rate, step, state, b);
    assert x[0] == y[0];
    if SendsC1(rate, step) {
      assert x[0] == BranchOutputs(state, a).0 && y[0] == BranchOutputs(state, b).0;
    } else {
      assert x[0] == BranchOutputs(state, a).1 && y[0] == BranchOutputs(state, b).1;
    }
  }

  lemma EveryPhaseSends(rate: nat, step: nat)
    requires rate < RATE_COUNT
    ensures SendsC1(rate, step) || SendsC2(rate, step)
  {
  }

  // ---- What is sent, in closed form ----

  /** Input i of the word u, with zeros before the start. */
  predicate Input(u: seq<bool>, i: int) {
    0 <= i < |u| && u[i]
  }

  predicate OddOf(a: bool, b: bool, c: bool, d: bool, e: bool) {
    (((a != b) != c) != d) != e
  }

  /** Bit j at rate 1/2: two bits for each input, each from that input and the six before it. */
  predicate MotherBit(u: seq<bool>, j: nat) {
    var i := j / 2;
    if j % 2 == 0 then OddOf(Input(u, i), Input(u, i - 1), Input(u, i - 2), Input(u, i - 3), Input(u, i - 6))
    else !OddOf(Input(u, i), Input(u, i - 2), Input(u, i - 3), Input(u, i - 5), Input(u, i - 6))
  }

  /** All bits of the unpunctured code. */
  function Mother(u: seq<bool>): (bits: seq<bool>)
    ensures |bits| == 2 * |u|
  {
    seq(2 * |u|, j requires 0 <= j < 2 * |u| => MotherBit(u, j))
  }

  /** The bits of the rate 1/2 code that a rate keeps: all of them, 3 of 4, 4 of 6, 6 of 10 or 8 of 14. */
  predicate Kept(rate: nat, j: nat) {
    match rate
    case 0 => true
    case 1 => j % 4 in {0, 1, 3}
    case 2 => j % 6 in {0, 1, 3, 4}
    case 3 => j % 10 in {0, 1, 3, 4, 7, 8}
    case _ => j % 14 in {0, 1, 3, 5, 7, 8, 11, 12}
  }

  /** The kept bits in order. */
  function Punctured(rate: nat, bits: seq<bool>): (out: seq<bool>) {
    if bits == [] then []
    else Punctured(rate, Front(bits)) + if Kept(rate, |bits| - 1) then [Last(bits)] else []
  }

  /** The register holding the last six inputs, oldest first. */
  function Register(a: bool, b: bool, c: bool, d: bool, e: bool, f: bool): (r: nat)
    ensures r < STATES
  {
    Count(a) + 2 * Count(b) + 4 * Count(c) + 8 * Count(d) + 16 * Count(e) + 32 * Count(f)
  }

  lemma NextRegister(a: bool, b: bool, c: bool, d: bool, e: bool, f: bool, bit: bool)
    ensures NextState(Register(a, b, c, d, e, f), bit) == Register(b, c, d, e, f, bit)
    ensures Register(false, false, false, false, false, false) == 0
  {
  }

  /** The state holds the last six inputs, the newest on top. */
  lemma {:induction false} StateIsLastInputs(u: seq<bool>)
    ensures var n := |u|;
            StateFrom(0, u) == Register(Input(u, n - 6), Input(u, n - 5), Input(u, n - 4), Input(u, n - 3),
                                        Input(u, n - 2), Input(u, n - 1))
  {
    hide Register, NextState;
    var n := |u|;
    NextRegister(Input(u, n - 7), Input(u, n - 6), Input(u, n - 5), Input(u, n - 4), Input(u, n - 3), Input(u, n - 2),
                 Input(u, n - 1));
    if u != [] {
      StateIsLastInputs(Front(u));
      assert forall i: int :: i < n - 1 ==> Input(Front(u), i) == Input(u, i);
    }
  }

  /** A binary digit, with the digits above and below it. */
  lemma DigitOf(reg: nat, w: nat, above: nat, digit: nat, below: nat)
    requires reg == w * (2 * above + digit) + below && below < w && digit < 2
    ensures Tap(reg, w) == digit
  {
    var q := 2 * above + digit;
    RemainderIsUnique(reg, w, q, below);
    assert w * (reg / w - q) == 0;
    Product(w, reg / w - q);
    EvenMore(above, digit);
  }

  lemma DigitsOf(d6: nat, d5: nat, d4: nat, d3: nat, d2: nat, d1: nat, d0: nat)
    requires d6 < 2 && d5 < 2 && d4 < 2 && d3 < 2 && d2 < 2 && d1 < 2 && d0 < 2
    ensures var reg := 64 * d6 + 32 * d5 + 16 * d4 + 8 * d3 + 4 * d2 + 2 * d1 + d0;
            && Tap(reg, 64) == d6 && Tap(reg, 32) == d5 && Tap(reg, 16) == d4 && Tap(reg, 8) == d3
            && Tap(reg, 4) == d2 && Tap(reg, 2) == d1 && Tap(reg, 1) == d0
  {
    hide Tap;
    var reg := 64 * d6 + 32 * d5 + 16 * d4 + 8 * d3 + 4 * d2 + 2 * d1 + d0;
    DigitOf(reg, 64, 0, d6, 32 * d5 + 16 * d4 + 8 * d3 + 4 * d2 + 2 * d1 + d0);
    DigitOf(reg, 32, d6, d5, 16 * d4 + 8 * d3 + 4 * d2 + 2 * d1 + d0);
    DigitOf(reg, 16, 2 * d6 + d5, d4, 8 * d3 + 4 * d2 + 2 * d1 + d0);
    DigitOf(reg, 8, 4 * d6 + 2 * d5 + d4, d3, 4 * d2 + 2 * d1 + d0);
    DigitOf(reg, 4, 8 * d6 + 4 * d5 + 2 * d4 + d3, d2, 2 * d1 + d0);
    DigitOf(reg, 2, 16 * d6 + 8 * d5 + 4 * d4 + 2 * d3 + d2, d1, d0);
    DigitOf(reg, 1, 32 * d6 + 16 * d5 + 8 * d4 + 4 * d3 + 2 * d2 + d1, d0, 0);
  }

  lemma WeightsOf(d6: nat, d5: nat, d4: nat, d3: nat, d2: nat, d1: nat, d0: nat)
    requires d6 < 2 && d5 < 2 && d4 < 2 && d3 < 2 && d2 < 2 && d1 < 2 && d0 < 2
    ensures var reg := 64 * d6 + (32 * d5 + 16 * d4 + 8 * d3 + 4 * d2 + 2 * d1 + d0);
            G1Weight(reg) == d6 + d5 + d4 + d3 + d0 && G2Weight(reg) == d6 + d4 + d3 + d1 + d0
  {
    hide Tap;
    DigitsOf(d6, d5, d4, d3, d2, d1, d0);
  }

  /** The branch outputs as sums modulo 2 of the input and the digits of the state. */
  lemma OutputsOfDigits(b6: bool, b5: bool, b4: bool, b3: bool, b2: bool, b1: bool, b0: bool)
    ensures BranchOutputs(Register(b0, b1, b2, b3, b4, b5), b6) ==
            (OddOf(b6, b5, b4, b3, b0), !OddOf(b6, b4, b3, b1, b0))
  {
    hide G1Weight, G2Weight;
    WeightsOf(Count(b6), Count(b5), Count(b4), Count(b3), Count(b2), Count(b1), Count(b0));
    OddSum(Count(b6), Count(b5), Count(b4), Count(b3), Count(b0));
    OddSum(Count(b6), Count(b4), Count(b3), Count(b1), Count(b0));
  }

  /** The branch outputs are the two bits of the unpunctured code that belong to the input. */
  lemma BranchIsMother(u: seq<bool>, i: nat)
    requires i < |u|
    ensures BranchOutputs(StateFrom(0, u[..i]), u[i]) == (MotherBit(u, 2 * i), MotherBit(u, 2 * i + 1))
  {
    hide BranchOutputs, StateFrom, OddOf, Register;
    StateIsLastInputs(u[..i]);
    assert forall k: int :: k < i ==> Input(u[..i], k) == Input(u, k);
    OutputsOfDigits(u[i], Input(u, i - 1), Input(u, i - 2), Input(u, i - 3), Input(u, i - 4), Input(u, i - 5),
                    Input(u, i - 6));
  }

  /** The patterns of C1 and C2 keep what the closed form keeps. */
  lemma PatternKeeps(rate: nat, step: nat)
    requires rate < RATE_COUNT
    ensures SendsC1(rate, step) <==> Kept(rate, 2 * step)
    ensures SendsC2(rate, step) <==> Kept(rate, 2 * step + 1)
  {
    hide Phase;
    PhaseIsRemainder(rate, step);
    EvenRemainders(step);
  }

  lemma EvenRemainders(i: nat)
    ensures 2 * i % 4 == 2 * (i % 2) && (2 * i + 1) % 4 == 2 * (i % 2) + 1
    ensures 2 * i % 6 == 2 * (i % 3) && (2 * i + 1) % 6 == 2 * (i % 3) + 1
    ensures 2 * i % 10 == 2 * (i % 5) && (2 * i + 1) % 10 == 2 * (i % 5) + 1
    ensures 2 * i % 14 == 2 * (i % 7) && (2 * i + 1) % 14 == 2 * (i % 7) + 1
  {
    EvenRemainder(i, 2);
    EvenRemainder(i, 3);
    EvenRemainder(i, 5);
    EvenRemainder(i, 7);
  }

  lemma EvenRemainder(i: nat, p: nat)
    requires p > 0
    ensures 2 * i % (2 * p) == 2 * (i % p) && (2 * i + 1) % (2 * p) == 2 * (i % p) + 1
  {
    Reassociate(2, p, i / p);
    RemainderIsUnique(2 * i, 2 * p, i / p, 2 * (i % p));
    RemainderIsUnique(2 * i + 1, 2 * p, i / p, 2 * (i % p) + 1);
  }

  /** The unpunctured bits of the first n inputs. */
  lemma MotherOfPrefix(u: seq<bool>, i: nat)
    requires i < |u|
    ensures Mother(u[..i + 1]) == Mother(u[..i]) + [MotherBit(u, 2 * i), MotherBit(u, 2 * i + 1)]
  {
    assert forall m: nat, k: int | m <= |u| && k < m :: Input(u[..m], k) == Input(u, k);
    assert forall j: nat | j < 2 * i :: MotherBit(u[..i], j) == MotherBit(u, j);
    assert forall j: nat | j < 2 * i + 2 :: MotherBit(u[..i + 1], j) == MotherBit(u, j);
  }

  lemma PuncturedTwo(rate: nat, bits: seq<bool>, a: bool, b: bool)
    ensures Punctured(rate, bits + [a, b])
         == Punctured(rate, bits) + (if Kept(rate, |bits|) then [a] else [])
            + (if Kept(rate, |bits| + 1) then [b] else [])
  {
    hide Kept;
    assert Front(bits + [a, b]) == bits + [a] && Front(bits + [a]) == bits;
  }

  /** The codeword at every rate, without the trellis: the unpunctured bits at the places that rate keeps. */
  lemma {:induction false} CodewordIsPunctured(rate: nat, u: seq<bool>)
    requires rate < RATE_COUNT
    ensures Codeword(rate, u) == Punctured(rate, Mother(u))
  {
    hide MotherBit, BranchOutputs, StateFrom, SendsC1, SendsC2, Kept, Mother;
    if u == [] {
      assert Mother(u) == [];
    } else {
      var i := |u| - 1;
      CodewordIsPunctured(rate, Front(u));
      assert u[..i] == Front(u) && u[..i + 1] == u;
      BranchIsMother(u, i);
      PatternKeeps(rate, i);
      MotherOfPrefix(u, i);
      PuncturedTwo(rate, Mother(Front(u)), MotherBit(u, 2 * i), MotherBit(u, 2 * i + 1));
    }
  }

  /** The five rates k/n. */
  function RateSteps(rate: nat): nat
    requires rate < RATE_COUNT
  {
    [1, 2, 3, 5, 7][rate]
  }

  function RateBits(rate: nat): nat
    requires rate < RATE_COUNT
  {
    [2, 3, 4, 6, 8][rate]
  }

  /** A rate k/n sends n bits in every k steps. */
  lemma {:induction false} RateIsExact(rate: nat, periods: nat)
    requires rate < RATE_COUNT
    ensures Phase(rate, periods * RateSteps(rate)) == 0
    ensures Offset(rate, periods * RateSteps(rate)) == periods * RateBits(rate)
  {
    hide Phase, Pattern, Offset, RateSteps, RateBits;
    if periods == 0 {
      NothingSent(rate);
      PhaseIsRemainder(rate, 0);
    } else {
      RateIsExact(rate, periods - 1);
      PeriodSends(rate, (periods - 1) * RateSteps(rate));
      OneMore(periods - 1, RateSteps(rate));
      OneMore(periods - 1, RateBits(rate));
    }
  }

  lemma OneMore(a: nat, b: nat)
    ensures a * b + b == (a + 1) * b
  {
  }

  lemma PeriodSends(rate: nat, step: nat)
    requires rate < RATE_COUNT && Phase(rate, step) == 0
    ensures Phase(rate, step + RateSteps(rate)) == 0
    ensures Offset(rate, step + RateSteps(rate)) == Offset(rate, step) + RateBits(rate)
  {
    hide Phase, Offset;
    if rate >= 3 {
      LongPeriodSends(rate, step);
    } else {
      PhaseSends(rate, step);
      if rate >= 1 { PhaseSends(rate, step + 1); }
      if rate >= 2 { PhaseSends(rate, step + 2); }
    }
  }

  lemma LongPeriodSends(rate: nat, step: nat)
    requires 3 <= rate < RATE_COUNT && Phase(rate, step) == 0
    ensures Phase(rate, step + RateSteps(rate)) == 0
    ensures Offset(rate, step + RateSteps(rate)) == Offset(rate, step) + RateBits(rate)
  {
    hide Phase, Offset, Pattern, SentIn;
    LongPatterns();
    PhaseSends(rate, step);
    PhaseSends(rate, step + 1);
    PhaseSends(rate, step + 2);
    PhaseSends(rate, step + 3);
    PhaseSends(rate, step + 4);
    if rate >= 4 {
      PhaseSends(rate, step + 5);
      PhaseSends(rate, step + 6);
    }
  }

  /** Bits sent in one phase. */
  function SentIn(rate: nat, k: nat): nat
    requires rate < RATE_COUNT && k < Pattern(rate).period
  {
    Count(Pattern(rate).c1[k]) + Count(Pattern(rate).c2[k])
  }

  lemma LongPatterns()
    ensures Pattern(3).period == 5 && Pattern(4).period == 7
    ensures SentIn(3, 0) == 2 && SentIn(3, 1) == SentIn(3, 2) == SentIn(3, 3) == SentIn(3, 4) == 1
    ensures SentIn(4, 0) == 2
    ensures SentIn(4, 1) == SentIn(4, 2) == SentIn(4, 3) == SentIn(4, 4) == SentIn(4, 5) == SentIn(4, 6) == 1
  {
  }

  lemma PhaseSends(rate: nat, step: nat)
    requires rate < RATE_COUNT
    ensures Phase(rate, step + 1) == if Phase(rate, step) + 1 == Pattern(rate).period then 0 else Phase(rate, step) + 1
    ensures Offset(rate, step + 1) == Offset(rate, step) + SentIn(rate, Phase(rate, step))
  {
    hide Pattern;
  }

  // ---- The encoder ----

  /** The first n bits of a packed buffer, most significant bit of each byte first. */
  function Unpack(bytes: seq<bv8>, n: nat): (bits: seq<bool>)
    requires n <= 8 * |bytes|
    ensures |bits| == n
  {
    seq(n, i requires 0 <= i < n => BitOf(bytes[i / 8], i % 8))
  }

  lemma UnpackAt(bytes: seq<bv8>, n: nat, i: nat)
    requires i < n <= 8 * |bytes|
    ensures Unpack(bytes, n)[i] == BitOf(bytes[i / 8], i % 8)
  {
  }

  datatype Status = Ok | ErrRange

  /** Stores what one trellis step sends behind the first n coded bits. */
  method SendBranch(rate: nat, step: nat, state: nat, bit: bool, out: array<bool>, n: nat) returns (m: nat)
    requires rate < RATE_COUNT
    requires n + |Sent(rate, step, state, bit)| <= out.Length
    modifies out
    ensures m == n + |Sent(rate, step, state, bit)|
    ensures out[..m] == old(out[..n]) + Sent(rate, step, state, bit)
    ensures out[m..] == old(out[..])[m..]
  {
    hide BranchOutputs, Pattern;
    var (c1, c2) := BranchOutputs(state, bit);
    var p := Pattern(rate);
    var phase := step % p.period;
    PhaseIsRemainder(rate, step);
    m := n;
    if p.c1[phase] {
      out[m] := c1;
      m := m + 1;
    }
    assert out[..m] == old(out[..n]) + if SendsC1(rate, step) then [c1] else [];
    if p.c2[phase] {
      out[m] := c2;
      m := m + 1;
    }
  }

  /** Encodes infoBits bits of `input` and the tail; on an error nothing is written. */
  method Encode(input: seq<bv8>, infoBits: nat, rate: nat, out: array<bool>, outLen: nat) returns (status: Status)
    requires infoBits <= 8 * |input| && outLen <= out.Length
    modifies out
    ensures status.Ok? <==> rate < RATE_COUNT && CodedBitsSpec(infoBits, rate) <= outLen
    ensures !status.Ok? ==> out[..] == old(out[..])
    ensures status.Ok? ==> out[..] == Codeword(rate, Terminated(Unpack(input, infoBits)))
                                      + old(out[..])[CodedBitsSpec(infoBits, rate)..]
    ensures status.Ok? ==>
              out[..CodedBitsSpec(infoBits, rate)] == Punctured(rate, Mother(Terminated(Unpack(input, infoBits))))
  {
    hide BranchOutputs, Codeword, StateFrom, Unpack, Pattern, SendsC1, SendsC2, Offset, BitOf, Punctured, Mother;
    var needed := CodedBits(infoBits, rate);
    if needed == 0 || needed > outLen { return ErrRange; }
    var state := 0;
    var n := 0;
    var steps := infoBits + TAIL_BITS;
    ghost var u := Terminated(Unpack(input, infoBits));
    PathStart(rate, u);
    for i := 0 to steps
      invariant state < STATES && state == StateFrom(0, u[..i])
      invariant n == Offset(rate, i) && n <= needed
      invariant out[..n] == Codeword(rate, u[..i])
      invariant out[needed..] == old(out[..])[needed..]
    {
      var bit := false;
      if i < infoBits {
        bit := BitOf(input[i / 8], i % 8);
        UnpackAt(input, infoBits, i);
      }
      assert u[i] == bit;
      PathStep(rate, u, i);
      OffsetMonotone(rate, i + 1, steps);
      n := SendBranch(rate, i, state, bit, out, n);
      state := NextState(state, bit);
    }
    assert u[..steps] == u;
    assert out[..] == out[..needed] + out[needed..];
    CodewordIsPunctured(rate, u);
    status := Ok;
  }
}
