/** The information block of a physical-layer frame: checksum, randomizer and code on the way out, and
    the way back from soft bits. */
module FrameBlock {

  import opened Bytes
  import opened ConvCode
  import opened Viterbi
  import ViterbiDecoder
  import Crc16
  import Pn9
  import FrameHeader
  import FrameLayout

  const INFO_BYTES: nat := 128
  const BLOCK_BYTES: nat := 130
  const SEED: bv8 := 0xFF
  const MAX_CODED_BITS: nat := 2094

  // ---- The randomizer, h(x) = x^8 + x^7 + x^5 + x^3 + 1 ----

  function Shift(state: bv8): bv8 {
    (state << 1) | (((state >> 7) ^ (state >> 4) ^ (state >> 2) ^ state) & 1)
  }

  function Shifted(state: bv8, n: nat): bv8 {
    if n == 0 then state else Shift(Shifted(state, n - 1))
  }

  /** The n bits the register puts out, the first one most significant. */
  function OutBits(state: bv8, n: nat): bv8 {
    if n == 0 then 0 else NextOut(OutBits(state, n - 1), Shifted(state, n - 1))
  }

  function NextOut(out: bv8, state: bv8): bv8 {
    (out << 1) | ((state >> 7) & 1)
  }

  lemma StepInline(state: bv8, out: bv8)
    ensures Shift(state) == (state << 1) | (((state >> 7) ^ (state >> 4) ^ (state >> 2) ^ state) & 1)
    ensures NextOut(out, state) == (out << 1) | ((state >> 7) & 1)
  {
  }

  /** State of the register before byte n of the sequence. */
  function StateAt(seed: bv8, n: nat): bv8 {
    if n == 0 then seed else Shifted(StateAt(seed, n - 1), 8)
  }

  function XorByte(a: bv8, b: bv8): bv8 { a ^ b }

  lemma XorByteTwice(a: bv8, b: bv8)
    ensures XorByte(XorByte(a, b), b) == a
  {
    assert (a ^ b) ^ b == a;
  }

  /** The data with the pseudo-random sequence of the seed added. */
  function Randomized(seed: bv8, data: seq<bv8>): (r: seq<bv8>)
    ensures |r| == |data|
  {
    if data == [] then []
    else Randomized(seed, data[..|data| - 1]) + [XorByte(data[|data| - 1], OutBits(StateAt(seed, |data| - 1), 8))]
  }

  /** The randomizer undoes itself. */
  lemma {:induction false} RandomizeTwice(seed: bv8, data: seq<bv8>)
    ensures Randomized(seed, Randomized(seed, data)) == data
  {
    hide XorByte, OutBits, StateAt;
    if data != [] {
      var n := |data| - 1;
      RandomizeTwice(seed, data[..n]);
      assert Randomized(seed, data)[..n] == Randomized(seed, data[..n]);
      XorByteTwice(data[n], OutBits(StateAt(seed, n), 8));
      assert data == data[..n] + [data[n]];
    }
  }

  lemma EightShifts(s: bv8)
    ensures Shifted(s, 8) == Shift(Shift(Shift(Shift(Shift(Shift(Shift(Shift(s))))))))
  {
    hide Shift;
    assert Shifted(s, 1) == Shift(s);
    assert Shifted(s, 2) == Shift(Shifted(s, 1));
    assert Shifted(s, 3) == Shift(Shifted(s, 2));
    assert Shifted(s, 4) == Shift(Shifted(s, 3));
    assert Shifted(s, 5) == Shift(Shifted(s, 4));
    assert Shifted(s, 6) == Shift(Shifted(s, 5));
    assert Shifted(s, 7) == Shift(Shifted(s, 6));
  }

  lemma EightOut(s: bv8)
    ensures OutBits(s, 8) ==
            NextOut(NextOut(NextOut(NextOut(NextOut(NextOut(NextOut(NextOut(0, s), Shift(s)), Shift(Shift(s))),
              Shift(Shift(Shift(s)))), Shift(Shift(Shift(Shift(s))))), Shift(Shift(Shift(Shift(Shift(s)))))),
              Shift(Shift(Shift(Shift(Shift(Shift(s))))))), Shift(Shift(Shift(Shift(Shift(Shift(Shift(s))))))))
  {
    hide Shift, NextOut;
    assert Shifted(s, 1) == Shift(s);
    assert Shifted(s, 2) == Shift(Shifted(s, 1));
    assert Shifted(s, 3) == Shift(Shifted(s, 2));
    assert Shifted(s, 4) == Shift(Shifted(s, 3));
    assert Shifted(s, 5) == Shift(Shifted(s, 4));
    assert Shifted(s, 6) == Shift(Shifted(s, 5));
    assert Shifted(s, 7) == Shift(Shifted(s, 6));
    assert OutBits(s, 1) == NextOut(0, s);
    assert OutBits(s, 2) == NextOut(OutBits(s, 1), Shifted(s, 1));
    assert OutBits(s, 3) == NextOut(OutBits(s, 2), Shifted(s, 2));
    assert OutBits(s, 4) == NextOut(OutBits(s, 3), Shifted(s, 3));
    assert OutBits(s, 5) == NextOut(OutBits(s, 4), Shifted(s, 4));
    assert OutBits(s, 6) == NextOut(OutBits(s, 5), Shifted(s, 5));
    assert OutBits(s, 7) == NextOut(OutBits(s, 6), Shifted(s, 6));
  }

  /** Eight outputs spell the state they started from. */
  lemma OutputIsState(s: bv8)
    ensures OutBits(s, 8) == s
  {
    hide OutBits;
    EightOut(s);
  }

  function Zero(n: nat): seq<bv8> {
    if n == 0 then [] else Zero(n - 1) + [0]
  }

  lemma XorByteZero(b: bv8)
    ensures XorByte(0, b) == b
  {
  }

  /** The sequence itself, byte by byte: the states of the register. */
  lemma {:induction false} SequenceIsStates(n: nat)
    ensures |Zero(n)| == n
    ensures Randomized(SEED, Zero(n)) == seq(n, i requires 0 <= i < n => StateAt(SEED, i))
  {
    hide XorByte, OutBits, StateAt, Randomized;
    if n > 0 {
      SequenceIsStates(n - 1);
      OneMoreZero(n);
      OutputIsState(StateAt(SEED, n - 1));
      XorByteZero(StateAt(SEED, n - 1));
    } else {
      assert Zero(0) == [] && Randomized(SEED, []) == [];
    }
  }

  lemma OneMoreZero(n: nat)
    requires n > 0 && |Zero(n - 1)| == n - 1
    ensures Randomized(SEED, Zero(n)) ==
            Randomized(SEED, Zero(n - 1)) + [XorByte(0, OutBits(StateAt(SEED, n - 1), 8))]
  {
    hide XorByte, OutBits, StateAt;
    assert Zero(n)[..n - 1] == Zero(n - 1);
  }

  /** The sequence starts FF 48 0E C0 9A 0D 70 BC, as CCSDS 131.0-B lists it. */
  lemma FirstStates()
    ensures StateAt(SEED, 0) == 0xFF && StateAt(SEED, 1) == 0x48 && StateAt(SEED, 2) == 0x0E && StateAt(SEED, 3) == 0xC0
    ensures StateAt(SEED, 4) == 0x9A && StateAt(SEED, 5) == 0x0D && StateAt(SEED, 6) == 0x70 && StateAt(SEED, 7) == 0xBC
  {
    hide Shifted;
    EightShifts(0xFF);
    EightShifts(0x48);
    EightShifts(0x0E);
    EightShifts(0xC0);
    EightShifts(0x9A);
    EightShifts(0x0D);
    EightShifts(0x70);
    assert StateAt(SEED, 0) == 0xFF;
    assert StateAt(SEED, 1) == 0x48;
    assert StateAt(SEED, 2) == 0x0E;
    assert StateAt(SEED, 3) == 0xC0;
    assert StateAt(SEED, 4) == 0x9A;
    assert StateAt(SEED, 5) == 0x0D;
    assert StateAt(SEED, 6) == 0x70;
  }

  class Randomizer {
    var lfsr: bv8

    constructor ()
      ensures lfsr == SEED
    {
      lfsr := SEED;
    }

    method Next() returns (out: bv8)
      modifies this
      ensures out == OutBits(old(lfsr), 8) && lfsr == Shifted(old(lfsr), 8)
    {
      hide Shift, NextOut;
      out := 0;
      var state := lfsr;
      for bit := 0 to 8
        invariant out == OutBits(lfsr, bit) && state == Shifted(lfsr, bit)
        invariant lfsr == old(lfsr)
      {
        StepInline(state, out);
        var feedback := ((state >> 7) ^ (state >> 4) ^ (state >> 2) ^ state) & 1;
        out := (out << 1) | ((state >> 7) & 1);
        state := (state << 1) | feedback;
      }
      lfsr := state;
    }

    /** In place, from wherever the register stands. */
    method Apply(data: array<bv8>)
      modifies this, data
      ensures data[..] == Randomized(old(lfsr), old(data[..])) && lfsr == StateAt(old(lfsr), data.Length)
    {
      hide OutBits, Shifted, XorByte;
      ghost var seed, before := lfsr, data[..];
      for i := 0 to data.Length
        invariant lfsr == StateAt(seed, i)
        invariant data[..i] == Randomized(seed, before[..i]) && data[i..] == before[i..]
      {
        ghost var done := data[..i];
        var key := Next();
        XorByteIsXor(data[i], key);
        assert data[i] == data[i..][0] == before[i];
        data[i] := data[i] ^ key;
        assert before[..i + 1][..i] == before[..i];
        assert data[..i + 1] == done + [data[i]];
        assert data[i + 1..] == before[i..][1..];
      }
      assert before[..data.Length] == before && data[..data.Length] == data[..];
    }
  }

  /** Applying in two pieces is applying to the whole: the register carries on. */
  lemma {:induction false} RandomizedCarriesOn(seed: bv8, a: seq<bv8>, b: seq<bv8>)
    ensures Randomized(seed, a + b) == Randomized(seed, a) + Randomized(StateAt(seed, |a|), b)
  {
    hide XorByte, OutBits, Shifted;
    if b == [] {
      assert a + b == a;
    } else {
      var n := |b| - 1;
      assert (a + b)[..|a + b| - 1] == a + b[..n];
      RandomizedCarriesOn(seed, a, b[..n]);
      StatesCompose(seed, |a|, n);
    }
  }

  lemma {:induction false} StatesCompose(seed: bv8, m: nat, n: nat)
    ensures StateAt(StateAt(seed, m), n) == StateAt(seed, m + n)
  {
    hide Shifted;
    if n > 0 { StatesCompose(seed, m, n - 1); }
  }

  lemma XorByteIsXor(a: bv8, b: bv8)
    ensures XorByte(a, b) == a ^ b
  {
  }

  // ---- The block ----

  /** Information bytes and their checksum, most significant byte first. */
  function BlockOf(info: seq<bv8>): (block: seq<bv8>)
    requires |info| == INFO_BYTES
    ensures |block| == BLOCK_BYTES
  {
    info + Crc16.BigEndian(Crc16.Crc(Crc16.INIT, info))
  }

  /** The coded bits of a frame's payload before padding. */
  function CodedBlock(rate: nat, info: seq<bv8>): (coded: seq<bool>)
    requires |info| == INFO_BYTES && rate < RATE_COUNT
    ensures |coded| == Offset(rate, 1046)
  {
    Codeword(rate, Terminated(Unpack(Randomized(SEED, BlockOf(info)), 1040)))
  }

  /** Byte n that is encoded: information, then the checksum, with the sequence added. */
  function SentByte(info: seq<bv8>, n: nat): bv8
    requires |info| == INFO_BYTES && n < 130
  {
    var crc := Crc16.Crc(Crc16.INIT, info);
    (if n < 128 then info[n] else if n == 128 then (crc >> 8) as bv8 else (crc & 0xFF) as bv8) ^ StateAt(0xFF, n)
  }

  lemma SentByteIs(info: seq<bv8>, n: nat)
    requires |info| == INFO_BYTES && n < 130
    ensures Randomized(SEED, BlockOf(info))[n] == SentByte(info, n)
  {
    hide Crc16.Crc, StateAt, Randomized, Crc16.BigEndian;
    RandomizedAt(SEED, BlockOf(info), n);
    TopAndBottom(Crc16.Crc(Crc16.INIT, info));
  }

  /** Bit i of the word that is encoded: those bytes, most significant bit first, then zeros. */
  predicate EncodedBit(info: seq<bv8>, i: nat)
    requires |info| == INFO_BYTES
  {
    i / 8 < 130 && BitOf(SentByte(info, i / 8), i % 8)
  }

  /** What is sent for a block, without the encoder's state machine: the convolutional code of those bits and six
      zeros, punctured as the rate says. */
  lemma {:induction false} SentBits(rate: nat, info: seq<bv8>)
    requires |info| == INFO_BYTES && rate < RATE_COUNT
    ensures var u := seq(1046, i requires 0 <= i < 1046 => EncodedBit(info, i));
            CodedBlock(rate, info) == Punctured(rate, Mother(u))
  {
    hide Codeword, Punctured, Mother, BitOf, SentByte, Randomized, Unpack, BlockOf;
    var u := seq(1046, i requires 0 <= i < 1046 => EncodedBit(info, i));
    var sent := Randomized(SEED, BlockOf(info));
    var v := Terminated(Unpack(sent, 1040));
    forall i | 0 <= i < 1046
      ensures v[i] == u[i]
    {
      if i < 1040 {
        UnpackAt(sent, 1040, i);
        SentByteIs(info, i / 8);
      }
    }
    assert u == v;
    CodewordIsPunctured(rate, v);
  }

  lemma {:induction false} RandomizedAt(seed: bv8, data: seq<bv8>, n: nat)
    requires n < |data|
    ensures Randomized(seed, data)[n] == data[n] ^ StateAt(seed, n)
  {
    hide XorByte, OutBits, StateAt;
    if n < |data| - 1 {
      RandomizedAt(seed, data[..|data| - 1], n);
    } else {
      OutputIsState(StateAt(seed, n));
      XorByteIsXor(data[n], StateAt(seed, n));
    }
  }

  lemma BitsDetermine(a: bv8, b: bv8)
    requires forall k :: 0 <= k < 8 ==> BitOf(a, k) == BitOf(b, k)
    ensures a == b
  {
    assert BitOf(a, 0) == BitOf(b, 0) && BitOf(a, 1) == BitOf(b, 1) && BitOf(a, 2) == BitOf(b, 2) &&
        BitOf(a, 3) == BitOf(b, 3);
    assert BitOf(a, 4) == BitOf(b, 4) && BitOf(a, 5) == BitOf(b, 5) && BitOf(a, 6) == BitOf(b, 6) &&
        BitOf(a, 7) == BitOf(b, 7);
  }

  lemma UnpackIsInjective(a: seq<bv8>, b: seq<bv8>)
    requires |a| == |b| && Unpack(a, 8 * |a|) == Unpack(b, 8 * |b|)
    ensures a == b
  {
    hide BitOf, Unpack;
    forall i | 0 <= i < |a|
      ensures a[i] == b[i]
    {
      forall k | 0 <= k < 8
        ensures BitOf(a[i], k) == BitOf(b[i], k)
      {
        UnpackAt(a, 8 * |a|, 8 * i + k);
        UnpackAt(b, 8 * |b|, 8 * i + k);
        assert (8 * i + k) / 8 == i && (8 * i + k) % 8 == k;
      }
      BitsDetermine(a[i], b[i]);
    }
  }

  /** A block whose randomized bits the decoder returns. */
  ghost predicate DecodesTo(rate: nat, soft: seq<Int8>, block: seq<bv8>)
    requires rate < RATE_COUNT && Offset(rate, 1046) <= |soft|
  {
    |block| == BLOCK_BYTES && Unpack(Randomized(SEED, block), 1040) == Decoded(rate, soft, 1040)
  }

  /** With every soft bit on the right side, the only block the decoder can return is the one sent, and
      its checksum leaves no residue. */
  lemma {:induction false} BlockRoundTrip(rate: nat, info: seq<bv8>, soft: seq<Int8>, block: seq<bv8>)
    requires |info| == INFO_BYTES && rate < RATE_COUNT && SignCorrect(CodedBlock(rate, info), soft)
    requires DecodesTo(rate, soft, block)
    ensures block == BlockOf(info) && block[..INFO_BYTES] == info && Crc16.Crc(Crc16.INIT, block) == 0
  {
    hide Codeword, Decoded, Unpack, Randomized, Crc16.Crc;
    var sent := Randomized(SEED, BlockOf(info));
    DecodeEncodeRoundTrip(rate, soft, Unpack(sent, 1040));
    UnpackIsInjective(Randomized(SEED, block), sent);
    RandomizeTwice(SEED, block);
    RandomizeTwice(SEED, BlockOf(info));
    Crc16.Residue(Crc16.INIT, info);
  }

  /** The information an outgoing frame carries: idle frames the PN9 sequence, others what they are given. */
  function InfoOf(idle: bool, info: seq<bv8>): (carried: seq<bv8>)
    requires |info| == INFO_BYTES
    ensures |carried| == INFO_BYTES
  {
    if idle then Pn9.Sequence(Pn9.ONES, INFO_BYTES) else info
  }

  lemma PaddedLength(modcod: nat, info: seq<bv8>)
    requires |info| == INFO_BYTES && modcod < FrameHeader.MODCODS
    ensures var m := FrameHeader.ModcodOf(modcod);
            |CodedBlock(m.rate, info)| <= FrameLayout.PayloadSymbols(modcod) * m.bitsPerSymbol <= MAX_CODED_BITS
  {
    hide CodedBlock, Offset, FrameHeader.ModcodOf;
    var m := FrameHeader.ModcodOf(modcod);
    WholeSymbols(|CodedBlock(m.rate, info)|, m.bitsPerSymbol);
  }

  /** The coded bits of a frame's payload, padded with zeros to whole symbols. */
  function PaddedBlock(modcod: nat, info: seq<bv8>): (bits: seq<bool>)
    requires |info| == INFO_BYTES && modcod < FrameHeader.MODCODS
    ensures |bits| == FrameLayout.PayloadSymbols(modcod) * FrameHeader.ModcodOf(modcod).bitsPerSymbol
    ensures |CodedBlock(FrameHeader.ModcodOf(modcod).rate, info)| <= |bits| <= MAX_CODED_BITS
  {
    hide CodedBlock, Offset, FrameHeader.ModcodOf, FrameLayout.PayloadSymbols;
    var m := FrameHeader.ModcodOf(modcod);
    var coded := CodedBlock(m.rate, info);
    PaddedLength(modcod, info);
    coded + seq(FrameLayout.PayloadSymbols(modcod) * m.bitsPerSymbol - |coded|, _ => false)
  }

  /** Information, checksum and randomizer. */
  method MakeBlock(idle: bool, info: seq<bv8>) returns (block: array<bv8>)
    requires |info| == INFO_BYTES
    ensures fresh(block) && block[..] == Randomized(SEED, BlockOf(InfoOf(idle, info)))
  {
    hide Randomized, Crc16.Crc, Crc16.BigEndian, Pn9.Sequence;
    block := new bv8[BLOCK_BYTES];
    if idle {
      Pn9.Fill(block, INFO_BYTES);
    } else {
      for i := 0 to INFO_BYTES
        invariant block[..i] == info[..i]
      {
        block[i] := info[i];
      }
    }
    ghost var carried := InfoOf(idle, info);
    assert block[..INFO_BYTES] == carried;
    var crc := Crc16.Update(Crc16.INIT, block[..INFO_BYTES]);
    TopAndBottom(crc);
    block[INFO_BYTES], block[INFO_BYTES + 1] := (crc >> 8) as bv8, (crc & 0xFF) as bv8;
    assert block[..INFO_BYTES] == carried;
    assert block[..] == block[..INFO_BYTES] + [block[INFO_BYTES], block[INFO_BYTES + 1]];
    var randomizer := new Randomizer();
    randomizer.Apply(block);
  }

  /** The first half of the frame builder: block, checksum, randomizer, code and padding to whole
      symbols. */
  method BuildBlock(idle: bool, info: seq<bv8>, modcod: nat) returns (coded: array<bool>, n: nat)
    requires |info| == INFO_BYTES && modcod < FrameHeader.MODCODS
    ensures fresh(coded) && n <= coded.Length == MAX_CODED_BITS
    ensures coded[..n] == PaddedBlock(modcod, InfoOf(idle, info))
  {
    hide Offset, Codeword, Unpack, Randomized, Crc16.Crc, FrameHeader.ModcodOf, InfoOf, BlockOf;
    var m := FrameHeader.ModcodOf(modcod);
    ghost var carried := InfoOf(idle, info);
    var block := MakeBlock(idle, info);
    coded := new bool[MAX_CODED_BITS];
    var nbits := CodedBits(FrameLayout.CODED_INFO_BITS, m.rate);
    WholeSymbols(nbits, m.bitsPerSymbol);
    var status := Encode(block[..], FrameLayout.CODED_INFO_BITS, m.rate, coded, MAX_CODED_BITS);
    n := (nbits + m.bitsPerSymbol - 1) / m.bitsPerSymbol * m.bitsPerSymbol;
    ghost var code := CodedBlock(m.rate, carried);
    assert coded[..nbits] == code;
    hide CodedBlock;
    for i := nbits to n
      invariant coded[..i] == code + seq(i - nbits, _ => false)
    {
      coded[i] := false;
    }
  }

  lemma TopAndBottom(crc: bv16)
    ensures Crc16.BigEndian(crc) == [(crc >> 8) as bv8, (crc & 0xFF) as bv8]
  {
  }

  lemma WholeSymbols(bits: nat, bps: nat)
    requires 1 <= bps <= 3 && bits <= 2092
    ensures var n := (bits + bps - 1) / bps * bps; bits <= n <= 2094
  {
    if bps == 1 {
    } else if bps == 2 {
    } else {
    }
  }

  /** The decoding half of the receiver's frame end. */
  method FinishBlock(soft: seq<Int8>, rate: nat) returns (info: seq<bv8>, crcOk: bool, ghost block: seq<bv8>)
    requires rate < RATE_COUNT && Offset(rate, 1046) <= |soft|
    ensures DecodesTo(rate, soft, block) && info == block[..INFO_BYTES]
    ensures crcOk <==> Crc16.Crc(Crc16.INIT, block) == 0
    ensures forall sent: seq<bv8> :: |sent| == INFO_BYTES && SignCorrect(CodedBlock(rate, sent), soft) ==>
                info == sent && crcOk
  {
    hide Offset, Codeword, Unpack, Randomized, Crc16.Crc, Decoded, CodedBlock, SignCorrect;
    hide ViterbiDecoder.IsMargin, ViterbiDecoder.MostLikely;
    var out := new bv8[BLOCK_BYTES];
    ghost var margin;
    var status, metric;
    status, metric, margin := ViterbiDecoder.Decode(soft, FrameLayout.CODED_INFO_BITS, rate, out);
    ghost var decoded := out[..];
    assert out[..BLOCK_BYTES] == decoded;
    var randomizer := new Randomizer();
    randomizer.Apply(out);
    block := out[..];
    RandomizeTwice(SEED, decoded);
    var crc := Crc16.Update(Crc16.INIT, out[..]);
    crcOk := crc == 0;
    info := out[..INFO_BYTES];
    forall sent: seq<bv8> | |sent| == INFO_BYTES && SignCorrect(CodedBlock(rate, sent), soft)
      ensures info == sent && crcOk
    {
      BlockRoundTrip(rate, sent, soft, block);
    }
  }
}
