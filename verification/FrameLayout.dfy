/** Where the symbols of a physical-layer frame go, and the builder that puts them there. */
module FrameLayout {

  import opened ConvCode
  import opened FrameHeader

  const ASM_SYMBOLS: nat := 32
  const HDR_SYMBOLS: nat := 64
  const PILOT_PERIOD: nat := 512
  const PILOT_LEN: nat := 16
  const CODED_INFO_BITS: nat := 1040
  const MAX_PAYLOAD_SYMBOLS: nat := 2092
  const MAX_SYMBOLS: nat := 2304

  datatype Symbol = Symbol(re: real, im: real)

  const PILOT: Symbol := Symbol(1.0, 0.0)

  function Bpsk(bit: bool): Symbol {
    Symbol(if bit then -1.0 else 1.0, 0.0)
  }

  /** The bits of the attached sync marker 0x1ACFFC1D. */
  function AsmBits(): (bits: seq<bool>)
    ensures |bits| == ASM_SYMBOLS
  {
    Field(0x1ACF, 16) + Field(0xFC1D, 16)
  }

  /** The marker as a word. */
  lemma MarkerIs()
    ensures Value(AsmBits()) == 0x1ACF_FC1D
  {
    hide Field, Value, Power2;
    Powers16();
    ValueOfField(0x1ACF, 16);
    ValueOfField(0xFC1D, 16);
    ValueOfSum(Field(0x1ACF, 16), Field(0xFC1D, 16));
  }

  lemma Powers16()
    ensures Power2(16) == 0x1_0000
  {
    assert Power2(4) == 16;
    assert Power2(8) == 256;
    assert Power2(12) == 4096;
  }

  // ---- Lengths ----

  function PayloadSymbols(modcod: nat): nat {
    if modcod >= MODCODS then 0
    else
      var m := ModcodOf(modcod);
      (CodedBitsSpec(CODED_INFO_BITS, m.rate) + m.bitsPerSymbol - 1) / m.bitsPerSymbol
  }

  /** Symbols of n payload symbols with a pilot block after every 512 but the last. */
  function Spread(n: nat): nat {
    if n == 0 then 0 else n + (n - 1) / PILOT_PERIOD * PILOT_LEN
  }

  function FrameSymbols(modcod: nat): nat {
    var n := PayloadSymbols(modcod);
    if n == 0 then 0 else ASM_SYMBOLS + HDR_SYMBOLS + Spread(n)
  }

  /** Every known MODCOD has payload, and the frame fits the buffers. */
  lemma FrameFits(modcod: nat)
    requires modcod < MODCODS
    ensures 0 < PayloadSymbols(modcod) <= MAX_PAYLOAD_SYMBOLS && FrameSymbols(modcod) <= MAX_SYMBOLS
  {
    hide ModcodOf, Offset;
    var m := ModcodOf(modcod);
    var bits := Offset(m.rate, CODED_INFO_BITS + TAIL_BITS);
    assert 1046 <= bits <= 2092;
    if m.bitsPerSymbol == 1 {
    } else if m.bitsPerSymbol == 2 {
    } else {
    }
  }

  /** The payload and frame lengths of the five MODCODs. */
  lemma FrameLengths()
    ensures PayloadSymbols(0) == 2092 && FrameSymbols(0) == 2252
    ensures PayloadSymbols(1) == 1046 && FrameSymbols(1) == 1174
    ensures PayloadSymbols(2) == 698 && FrameSymbols(2) == 810
    ensures PayloadSymbols(3) == 523 && FrameSymbols(3) == 635
    ensures PayloadSymbols(4) == 419 && FrameSymbols(4) == 515
  {
    hide Offset;
    CodedBitsAre();
  }

  /** Coded bits of a block at the rates in use. */
  lemma CodedBitsAre()
    ensures Offset(0, 1046) == 2092 && Offset(1, 1046) == 1569 && Offset(2, 1046) == 1395 && Offset(3, 1046) == 1256
  {
    hide Offset, Phase, SendsC1, SendsC2;
    RateIsExact(0, 1046);
    RateIsExact(1, 523);
    RateIsExact(2, 348);
    PhaseSends(2, 1044);
    PhaseSends(2, 1045);
    RateIsExact(3, 209);
    PhaseSends(3, 1045);
  }

  /** A higher MODCOD carries more: information bits per symbol, as a quotient, grow with its number. */
  lemma EfficiencyGrows(m: nat)
    requires m + 1 < MODCODS
    ensures var a, b := ModcodOf(m), ModcodOf(m + 1);
            a.bitsPerSymbol * RateSteps(a.rate) * RateBits(b.rate)
            < b.bitsPerSymbol * RateSteps(b.rate) * RateBits(a.rate)
  {
  }

  // ---- What the builder lays out ----

  predicate PilotsBefore(i: nat) {
    i > 0 && i % PILOT_PERIOD == 0
  }

  function Interleaved(payload: seq<Symbol>): seq<Symbol> {
    if payload == [] then []
    else
      var n := |payload| - 1;
      Interleaved(payload[..n]) + (if PilotsBefore(n) then seq(PILOT_LEN, _ => PILOT) else []) + [payload[n]]
  }

  function HeaderSymbols(bits: seq<bool>): (s: seq<Symbol>)
    requires |bits| == HEADER_BITS
    ensures |s| == HDR_SYMBOLS
  {
    seq(HDR_SYMBOLS, i requires 0 <= i < HDR_SYMBOLS => Bpsk(bits[i % HEADER_BITS]))
  }

  function Asm(): (s: seq<Symbol>)
    ensures |s| == ASM_SYMBOLS
  {
    seq(ASM_SYMBOLS, i requires 0 <= i < ASM_SYMBOLS => Bpsk(AsmBits()[i]))
  }

  function Frame(header: Header, payload: seq<Symbol>): seq<Symbol> {
    Asm() + HeaderSymbols(EncodeHeader(header)) + Interleaved(payload)
  }

  /** Place of payload symbol i behind the header. */
  function Place(i: nat): nat {
    i + i / PILOT_PERIOD * PILOT_LEN
  }

  lemma SpreadStep(n: nat)
    ensures Spread(n + 1) == Place(n) + 1
    ensures Place(n) == Spread(n) + if PilotsBefore(n) then PILOT_LEN else 0
  {
    if n > 0 && n % 512 != 0 {
      assert (n - 1) / 512 == n / 512;
    } else if n > 0 {
      assert (n - 1) / 512 == n / 512 - 1;
    }
  }

  lemma PlacesGrow(i: nat, n: nat)
    requires i < n
    ensures Place(i) < Spread(n)
  {
    assert i / 512 <= (n - 1) / 512;
  }

  lemma {:induction false} InterleavedLength(payload: seq<Symbol>)
    ensures |Interleaved(payload)| == Spread(|payload|)
  {
    hide Place, Spread, PilotsBefore;
    EmptySpread();
    if payload != [] {
      InterleavedLength(payload[..|payload| - 1]);
      SpreadStep(|payload| - 1);
    }
  }

  lemma {:induction false} InterleavedAt(payload: seq<Symbol>, i: nat)
    requires i < |payload|
    ensures Place(i) < Spread(|payload|) == |Interleaved(payload)| && Interleaved(payload)[Place(i)] == payload[i]
  {
    hide Place, Spread, PilotsBefore;
    var n := |payload| - 1;
    var front := payload[..n];
    InterleavedLength(payload);
    InterleavedLength(front);
    SpreadStep(n);
    PlacesGrow(i, |payload|);
    if i < n { InterleavedAt(front, i); }
  }

  /** The closed form of the length, and where each payload symbol is. */
  lemma {:induction false} InterleavedPlaces(payload: seq<Symbol>)
    ensures |Interleaved(payload)| == Spread(|payload|)
    ensures forall i :: 0 <= i < |payload| ==>
              Place(i) < Spread(|payload|) && Interleaved(payload)[Place(i)] == payload[i]
  {
    hide Place, Spread, Interleaved;
    InterleavedLength(payload);
    forall i | 0 <= i < |payload|
      ensures Place(i) < Spread(|payload|) && Interleaved(payload)[Place(i)] == payload[i]
    {
      InterleavedAt(payload, i);
    }
  }

  /** The layout in closed form: 512 payload symbols and 16 pilots in turn, without pilots at the end. */
  lemma {:induction false} LayoutClosedForm(payload: seq<Symbol>, q: nat)
    requires q < |Interleaved(payload)|
    ensures q % 528 < 512 ==> q / 528 * 512 + q % 528 < |payload|
    ensures Interleaved(payload)[q]
         == if q % 528 < 512 then payload[q / 528 * 512 + q % 528] else Symbol(1.0, 0.0)
    decreases |payload|
  {
    hide Place, Spread, PilotsBefore;
    if payload != [] {
      var n := |payload| - 1;
      var front := payload[..n];
      InterleavedLength(payload);
      InterleavedLength(front);
      if q < |Interleaved(front)| {
        LayoutClosedForm(front, q);
      } else {
        SpreadStep(n);
        BehindFront(n, q);
      }
    }
  }

  /** What the last payload symbol adds: pilots first when its index is a multiple of 512. */
  lemma BehindFront(n: nat, q: nat)
    requires Spread(n) <= q < Spread(n + 1)
    ensures q == Place(n) ==> q % 528 < 512 && q / 528 * 512 + q % 528 == n
    ensures q != Place(n) ==> q < Place(n) && q % 528 >= 512 && PilotsBefore(n)
  {
    var k, r := n / 512, n % 512;
    assert n == 512 * k + r;
    assert Place(n) == 528 * k + r;
    SpreadStep(n);
    Blocks(k, r);
    if q != Place(n) {
      assert r == 0 && k > 0 && q == 528 * (k - 1) + (q - 528 * (k - 1)) && 512 <= q - 528 * (k - 1) < 528;
      Blocks(k - 1, q - 528 * (k - 1));
    }
  }

  lemma Blocks(k: nat, r: nat)
    requires r < 528
    ensures (528 * k + r) / 528 == k && (528 * k + r) % 528 == r
  {
  }

  lemma NothingInterleaved()
    ensures Interleaved([]) == []
  {
  }

  lemma EmptySpread()
    ensures Spread(0) == 0
  {
  }

  // ---- The builder ----

  /** Lays out a frame for mapped payload symbols. The count written is the one announced for the
      MODCOD. */
  method Build(header: Header, payload: seq<Symbol>, symbols: array<Symbol>) returns (ok: bool, count: nat)
    requires header.modcod < MODCODS ==> |payload| == PayloadSymbols(header.modcod)
    modifies symbols
    ensures ok <==>
            header.modcod < MODCODS && FrameSymbols(header.modcod) <= symbols.Length && header.seqNo <= 0x7F &&
            header.kind <= 1
    ensures !ok ==> symbols[..] == old(symbols[..])
    ensures ok ==> count == FrameSymbols(header.modcod) == |Frame(header, payload)|
    ensures ok ==> symbols[..count] == Frame(header, payload)
    ensures ok ==> forall k :: count <= k < symbols.Length ==> symbols[k] == old(symbols[k])
  {
    hide PayloadSymbols, EncodeHeader, AsmBits, Place, Spread, PilotsBefore;
    if header.modcod >= MODCODS || FrameSymbols(header.modcod) > symbols.Length { return false, 0; }
    if header.seqNo > 0x7F || header.kind > 1 {
      return false, 0;
    }
    InterleavedPlaces(payload);
    FrameFits(header.modcod);
    var bits := WriteHeader(header);
    var n := BuildHead(bits, symbols);
    ghost var mid := symbols[..];
    n := BuildPayload(payload, symbols, n, symbols[..n]);
    forall k | n <= k < symbols.Length ensures symbols[k] == mid[k] { assert symbols[n..][k - n] == mid[n..][k - n]; }
    ok, count := true, n;
  }

  method BuildHead(bits: seq<bool>, symbols: array<Symbol>) returns (n: nat)
    requires |bits| == HEADER_BITS && ASM_SYMBOLS + HDR_SYMBOLS <= symbols.Length
    modifies symbols
    ensures n == ASM_SYMBOLS + HDR_SYMBOLS && symbols[..n] == Asm() + HeaderSymbols(bits)
    ensures forall k :: n <= k < symbols.Length ==> symbols[k] == old(symbols[k])
  {
    hide AsmBits;
    n := 0;
    for i := 0 to ASM_SYMBOLS
      invariant n == i && symbols[..n] == Asm()[..i]
      invariant forall k :: n <= k < symbols.Length ==> symbols[k] == old(symbols[k])
    {
      symbols[n] := Bpsk(AsmBits()[i]);
      n := n + 1;
    }
    for i := 0 to HDR_SYMBOLS
      invariant n == ASM_SYMBOLS + i && symbols[..n] == Asm() + HeaderSymbols(bits)[..i]
      invariant forall k :: n <= k < symbols.Length ==> symbols[k] == old(symbols[k])
    {
      symbols[n] := Bpsk(bits[i % HEADER_BITS]);
      n := n + 1;
    }
  }

  /** The payload with its pilots, behind what is already there. */
  method BuildPayload(payload: seq<Symbol>, symbols: array<Symbol>, start: nat, ghost head: seq<Symbol>)
    returns (n: nat)
    requires start + Spread(|payload|) <= symbols.Length && symbols[..start] == head
    modifies symbols
    ensures n == start + Spread(|payload|) && symbols[..n] == head + Interleaved(payload)
    ensures symbols[n..] == old(symbols[..])[n..]
  {
    hide Place, Spread, PilotsBefore, Interleaved;
    n := start;
    EmptySpread();
    NothingInterleaved();
    for i := 0 to |payload|
      invariant n == start + Spread(i) <= symbols.Length
      invariant symbols[..n] == head + Interleaved(payload[..i])
      invariant symbols[n..] == old(symbols[..])[n..]
    {
      SpreadStep(i);
      PlacesGrow(i, |payload|);
      InterleavedStep(payload, i);
      ghost var before, mid := n, symbols[..];
      n := BuildOne(payload[i], PilotsBefore(i), symbols, n);
      Regroup(head, Interleaved(payload[..i]), if PilotsBefore(i) then seq(PILOT_LEN, _ => PILOT) else [],
              [payload[i]]);
      TailStays(mid, old(symbols[..]), before, n);
    }
    assert payload[..|payload|] == payload;
  }

  lemma Regroup(a: seq<Symbol>, b: seq<Symbol>, c: seq<Symbol>, d: seq<Symbol>)
    ensures a + b + c + d == a + (b + c + d)
  {
  }

  lemma TailStays(s: seq<Symbol>, t: seq<Symbol>, n: nat, m: nat)
    requires n <= m <= |s| && |s| == |t| && s[n..] == t[n..]
    ensures s[m..] == t[m..]
  {
    assert s[m..] == s[n..][m - n..] && t[m..] == t[n..][m - n..];
  }

  lemma InterleavedStep(payload: seq<Symbol>, i: nat)
    requires i < |payload|
    ensures Interleaved(payload[..i + 1]) ==
            Interleaved(payload[..i]) + (if PilotsBefore(i) then seq(PILOT_LEN, _ => PILOT) else []) + [payload[i]]
  {
    assert payload[..i + 1][..i] == payload[..i];
  }

  /** One payload symbol, behind a pilot block when one is due. */
  method BuildOne(x: Symbol, pilots: bool, symbols: array<Symbol>, start: nat) returns (n: nat)
    requires start + (if pilots then PILOT_LEN else 0) < symbols.Length
    modifies symbols
    ensures n == start + (if pilots then PILOT_LEN else 0) + 1
    ensures symbols[..n] == old(symbols[..start]) + (if pilots then seq(PILOT_LEN, _ => PILOT) else []) + [x]
    ensures symbols[n..] == old(symbols[..])[n..]
  {
    n := start;
    if pilots { n := BuildPilots(symbols, n); }
    symbols[n] := x;
    n := n + 1;
  }

  method BuildPilots(symbols: array<Symbol>, start: nat) returns (n: nat)
    requires start + PILOT_LEN <= symbols.Length
    modifies symbols
    ensures n == start + PILOT_LEN && symbols[..n] == old(symbols[..start]) + seq(PILOT_LEN, _ => PILOT)
    ensures symbols[n..] == old(symbols[..])[n..]
  {
    n := start;
    for p := 0 to PILOT_LEN
      invariant n == start + p && symbols[..n] == old(symbols[..start]) + seq(p, _ => PILOT)
      invariant symbols[n..] == old(symbols[..])[n..]
    {
      symbols[n] := PILOT;
      n := n + 1;
    }
  }
}
