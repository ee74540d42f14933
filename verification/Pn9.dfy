/** The PN9 sequence that idle frames carry. */
module Pn9 {

  import opened Bytes

  const ONES: bv16 := 0x1FF

  /** One step of the nine-bit register; bit 8 leaves, taps 9 and 5 are fed back. */
  function Shift(lfsr: bv16): bv16 {
    ((lfsr << 1) | (((lfsr >> 8) ^ (lfsr >> 4)) & 1)) & 0x1FF
  }

  function State(lfsr: bv16, n: nat): bv16 {
    if n == 0 then lfsr else Shift(State(lfsr, n - 1))
  }

  predicate Out(lfsr: bv16) { lfsr & 0x100 != 0 }

  /** The byte so far with the bit that leaves the register appended. */
  function Append(byte: bv16, lfsr: bv16): bv16 {
    (byte << 1) | (lfsr >> 8)
  }

  function ByteBits(lfsr: bv16, n: nat): bv16 {
    if n == 0 then 0 else Append(ByteBits(lfsr, n - 1), State(lfsr, n - 1))
  }

  function Low(w: bv16): bv8 { (w & 0xFF) as bv8 }

  /** The first n bytes from a register. */
  function Sequence(lfsr: bv16, n: nat): (s: seq<bv8>)
    ensures |s| == n
  {
    if n == 0 then [] else Sequence(lfsr, n - 1) + [Low(ByteBits(State(lfsr, 8 * (n - 1)), 8))]
  }

  lemma {:induction false} StatesCompose(lfsr: bv16, m: nat, n: nat)
    ensures State(lfsr, m + n) == State(State(lfsr, m), n)
  {
    hide Shift;
    if n > 0 { StatesCompose(lfsr, m, n - 1); }
  }

  /** Fills a buffer from the all-ones register. */
  method Fill(out: array<bv8>, len: nat)
    requires len <= out.Length
    modifies out
    ensures out[..len] == Sequence(ONES, len) && out[len..] == old(out[..])[len..]
  {
    hide Shift, Append, Low;
    var lfsr := ONES;
    for i := 0 to len
      invariant lfsr == State(ONES, 8 * i)
      invariant out[..i] == Sequence(ONES, i) && out[len..] == old(out[..])[len..]
    {
      ghost var done := out[..i];
      var byte, next;
      byte, next := NextByte(lfsr);
      StatesCompose(ONES, 8 * i, 8);
      lfsr := next;
      out[i] := Low(byte);
      assert out[..i + 1] == done + [Low(byte)];
    }
  }

  method NextByte(lfsr: bv16) returns (byte: bv16, next: bv16)
    ensures byte == ByteBits(lfsr, 8) && next == State(lfsr, 8)
  {
    hide Shift, Append;
    byte, next := 0, lfsr;
    for b := 0 to 8
      invariant byte == ByteBits(lfsr, b) && next == State(lfsr, b)
    {
      StepInline(byte, next);
      var bit := ((next >> 8) ^ (next >> 4)) & 1;
      byte := (byte << 1) | (next >> 8);
      next := ((next << 1) | bit) & 0x1FF;
    }
  }

  lemma StepInline(byte: bv16, lfsr: bv16)
    ensures Append(byte, lfsr) == (byte << 1) | (lfsr >> 8)
    ensures Shift(lfsr) == ((lfsr << 1) | (((lfsr >> 8) ^ (lfsr >> 4)) & 1)) & 0x1FF
  {
  }

  lemma NineShifts(s: bv16)
    ensures State(s, 4) == Shift(Shift(Shift(Shift(s))))
    ensures State(s, 9) == Shift(Shift(Shift(Shift(Shift(State(s, 4))))))
  {
    hide Shift;
    assert State(s, 1) == Shift(s);
    assert State(s, 2) == Shift(State(s, 1));
    assert State(s, 3) == Shift(State(s, 2));
    assert State(s, 5) == Shift(State(s, 4));
    assert State(s, 6) == Shift(State(s, 5));
    assert State(s, 7) == Shift(State(s, 6));
    assert State(s, 8) == Shift(State(s, 7));
  }

  lemma ReadsAhead(s: bv16)
    ensures Out(Shift(Shift(Shift(Shift(s))))) <==> s & 0x10 != 0
    ensures var t := Shift(Shift(Shift(Shift(s))));
            Out(Shift(Shift(Shift(Shift(Shift(t)))))) <==> Out(s) != (s & 0x10 != 0)
  {
  }

  /** The recurrence of the generator: every bit is the exclusive or of those nine and five places before. */
  lemma Recurrence(lfsr: bv16, n: nat)
    ensures Out(State(lfsr, n + 9)) <==> Out(State(lfsr, n)) != Out(State(lfsr, n + 4))
  {
    hide Shift, Out;
    var s := State(lfsr, n);
    StatesCompose(lfsr, n, 9);
    StatesCompose(lfsr, n, 4);
    NineShifts(s);
    ReadsAhead(s);
  }

  // ---- The bits of the bytes ----

  lemma EightStates(s: bv16)
    ensures State(s, 1) == Shift(s) && State(s, 2) == Shift(Shift(s)) && State(s, 3) == Shift(Shift(Shift(s)))
    ensures State(s, 4) == Shift(Shift(Shift(Shift(s)))) && State(s, 5) == Shift(Shift(Shift(Shift(Shift(s)))))
    ensures State(s, 6) == Shift(Shift(Shift(Shift(Shift(Shift(s))))))
    ensures State(s, 7) == Shift(Shift(Shift(Shift(Shift(Shift(Shift(s)))))))
  {
    hide Shift;
    assert State(s, 1) == Shift(s);
    assert State(s, 2) == Shift(State(s, 1));
    assert State(s, 3) == Shift(State(s, 2));
    assert State(s, 4) == Shift(State(s, 3));
    assert State(s, 5) == Shift(State(s, 4));
    assert State(s, 6) == Shift(State(s, 5));
  }

  /** Before anything fed back comes out, the outputs are the bits of the register, the top one first. */
  lemma OutputsAreUpperBits(s: bv16)
    ensures Out(s) <==> s & 0x100 != 0
    ensures Out(Shift(s)) <==> s & 0x80 != 0
    ensures Out(Shift(Shift(s))) <==> s & 0x40 != 0
    ensures Out(Shift(Shift(Shift(s)))) <==> s & 0x20 != 0
    ensures Out(Shift(Shift(Shift(Shift(s))))) <==> s & 0x10 != 0
    ensures Out(Shift(Shift(Shift(Shift(Shift(s)))))) <==> s & 0x08 != 0
    ensures Out(Shift(Shift(Shift(Shift(Shift(Shift(s))))))) <==> s & 0x04 != 0
    ensures Out(Shift(Shift(Shift(Shift(Shift(Shift(Shift(s)))))))) <==> s & 0x02 != 0
  {
  }

  lemma EightAppends(s: bv16)
    ensures ByteBits(s, 8) ==
            Append(Append(Append(Append(Append(Append(Append(Append(0, s), Shift(s)), Shift(Shift(s))),
              Shift(Shift(Shift(s)))), Shift(Shift(Shift(Shift(s))))), Shift(Shift(Shift(Shift(Shift(s)))))),
              Shift(Shift(Shift(Shift(Shift(Shift(s))))))), Shift(Shift(Shift(Shift(Shift(Shift(Shift(s))))))))
  {
    hide Shift, Append;
    EightStates(s);
    assert State(s, 0) == s;
    assert ByteBits(s, 0) == 0;
    assert ByteBits(s, 1) == Append(0, s);
    assert ByteBits(s, 2) == Append(ByteBits(s, 1), State(s, 1));
    assert ByteBits(s, 3) == Append(ByteBits(s, 2), State(s, 2));
    assert ByteBits(s, 4) == Append(ByteBits(s, 3), State(s, 3));
    assert ByteBits(s, 5) == Append(ByteBits(s, 4), State(s, 4));
    assert ByteBits(s, 6) == Append(ByteBits(s, 5), State(s, 5));
    assert ByteBits(s, 7) == Append(ByteBits(s, 6), State(s, 6));
  }

  lemma {:induction false} StateIsNine(s: bv16, n: nat)
    requires s & 0x1FF == s
    ensures State(s, n) & 0x1FF == State(s, n)
  {
    if n > 0 { StateIsNine(s, n - 1); }
  }

  /** A byte holds the upper eight bits of the register it started from. */
  lemma ByteIsUpperBits(s: bv16)
    requires s & 0x1FF == s
    ensures Low(ByteBits(s, 8)) == Low(s >> 1)
  {
    hide ByteBits;
    EightAppends(s);
  }

  lemma BitsOfUpper(s: bv16)
    ensures var b := Low(s >> 1);
            && (BitOf(b, 0) <==> s & 0x100 != 0) && (BitOf(b, 1) <==> s & 0x80 != 0)
            && (BitOf(b, 2) <==> s & 0x40 != 0) && (BitOf(b, 3) <==> s & 0x20 != 0)
            && (BitOf(b, 4) <==> s & 0x10 != 0) && (BitOf(b, 5) <==> s & 0x08 != 0)
            && (BitOf(b, 6) <==> s & 0x04 != 0) && (BitOf(b, 7) <==> s & 0x02 != 0)
  {
  }

  lemma BitOfByte(s: bv16, j: nat)
    requires j < 8 && s & 0x1FF == s
    ensures BitOf(Low(ByteBits(s, 8)), j) <==> Out(State(s, j))
  {
    hide Out, Shift, BitOf, Low, ByteBits, Mask;
    assert State(s, 0) == s;
    EightStates(s);
    OutputsAreUpperBits(s);
    ByteIsUpperBits(s);
    BitsOfUpper(s);
  }

  lemma {:induction false} ByteOfSequence(lfsr: bv16, n: nat, i: nat)
    requires i < n
    ensures Sequence(lfsr, n)[i] == Low(ByteBits(State(lfsr, 8 * i), 8))
  {
    hide Low, ByteBits, State;
    if i < n - 1 { ByteOfSequence(lfsr, n - 1, i); }
  }

  /** Bit j of byte i is output 8i + j of the register, most significant bit first. */
  lemma {:induction false} BitsInOrder(n: nat, i: nat, j: nat)
    requires i < n && j < 8
    ensures BitOf(Sequence(ONES, n)[i], j) <==> Out(State(ONES, 8 * i + j))
  {
    hide Out, Shift, BitOf, Low, ByteBits, Mask, State;
    StateIsNine(ONES, 8 * i);
    ByteOfSequence(ONES, n, i);
    BitOfByte(State(ONES, 8 * i), j);
    StatesCompose(ONES, 8 * i, j);
  }

  /** The sequence starts with nine ones. */
  lemma StartsWithOnes(n: nat)
    requires n < 9
    ensures Out(State(ONES, n))
  {
    hide Out, Shift, State;
    NineOnes();
    EightStates(ONES);
    OutputsAreUpperBits(ONES);
  }

  lemma NineOnes()
    ensures State(ONES, 0) == ONES && Out(State(ONES, 8))
  {
    EightStates(ONES);
    assert State(ONES, 8) == Shift(State(ONES, 7));
  }
}
