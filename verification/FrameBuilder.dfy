/** The whole frame builder: block, mapping and layout. */
module FrameBuilder {

  import opened Arith
  import opened ConvCode
  import opened FrameBlock
  import opened FrameHeader
  import opened FrameLayout
  import opened FrameReceiver
  import opened Mapper
  import opened Viterbi

  const DATA: nat := 0
  const IDLE: nat := 1

  /** The payload symbols of a frame that carries info, or the idle sequence. */
  function Payload(header: Header, info: seq<bv8>): (s: seq<Symbol>)
    requires |info| == INFO_BYTES && header.modcod < MODCODS
    ensures |s| == PayloadSymbols(header.modcod)
  {
    hide ModcodOf, PaddedBlock;
    Mapped(ModcodOf(header.modcod).bitsPerSymbol, PaddedBlock(header.modcod, InfoOf(header.kind == IDLE, info)),
           PayloadSymbols(header.modcod))
  }

  /** Builds a frame, or refuses and writes nothing. */
  method BuildFrame(header: Header, info: seq<bv8>, symbols: array<Symbol>) returns (ok: bool, count: nat)
    requires |info| == INFO_BYTES
    modifies symbols
    ensures ok <==>
            header.modcod < MODCODS && FrameSymbols(header.modcod) <= symbols.Length && header.seqNo <= 0x7F &&
            header.kind <= 1
    ensures !ok ==> symbols[..] == old(symbols[..])
    ensures ok ==> count == FrameSymbols(header.modcod) && symbols[..count] == Frame(header, Payload(header, info))
    ensures ok ==> forall k :: count <= k < symbols.Length ==> symbols[k] == old(symbols[k])
  {
    hide ModcodOf, PaddedBlock, Mapped, PayloadSymbols, Frame, InfoOf, Fits;
    if header.modcod >= MODCODS || FrameSymbols(header.modcod) > symbols.Length { return false, 0; }
    if header.seqNo > 0x7F || header.kind > 1 {
      return false, 0;
    }
    FrameFits(header.modcod);
    var m := ModcodOf(header.modcod);
    var coded, n := BuildBlock(header.kind == IDLE, info, header.modcod);
    var payload := new Symbol[MAX_PAYLOAD_SYMBOLS](_ => PILOT);
    GroupsFit(PayloadSymbols(header.modcod), m.bitsPerSymbol, MAX_PAYLOAD_SYMBOLS);
    var mapped, npayload := Map(m.bitsPerSymbol, coded[..n], payload);
    SameCount(npayload, PayloadSymbols(header.modcod), m.bitsPerSymbol);
    ok, count := Build(header, payload[..npayload], symbols);
  }

  lemma SameCount(a: nat, b: nat, bps: nat)
    requires bps > 0
    ensures a * bps == b * bps ==> a == b
  {
    var d := a - b;
    assert bps * d == a * bps - b * bps;
    Product(bps, d);
  }

  lemma GroupsFit(n: nat, bps: nat, maxSymbols: nat)
    requires 1 <= bps <= 3 && n <= maxSymbols
    ensures Fits(bps, n * bps, maxSymbols)
  {
    var d := n * bps / bps - n;
    assert bps * d == -(n * bps % bps);
    Product(bps, d);
  }

  /** Without noise the receiver hands back header and payload of a built frame, and soft bits that have the
      signs of the mapped bits lead back to the information with a good checksum. */
  lemma FrameRoundTrip(header: Header, info: seq<bv8>, soft: seq<Int8>, block: seq<bv8>)
    requires |info| == INFO_BYTES && header.modcod < MODCODS && header.kind <= 1 && header.seqNo < 128
    requires SignCorrect(PaddedBlock(header.modcod, InfoOf(header.kind == IDLE, info)), soft)
    requires DecodesTo(ModcodOf(header.modcod).rate, soft, block)
    ensures Outcome(Frame(header, Payload(header, info))[ASM_SYMBOLS..]) == Finished(header, Payload(header, info))
    ensures block[..INFO_BYTES] == InfoOf(header.kind == IDLE, info) && Crc16.Crc(Crc16.INIT, block) == 0
  {
    hide ModcodOf, Frame, Payload, Outcome, InfoOf, CodedBlock, Crc16.Crc, DecodesTo, Offset, PayloadSymbols;
    BuiltFrameIsReceived(header, Payload(header, info));
    var rate, carried := ModcodOf(header.modcod).rate, InfoOf(header.kind == IDLE, info);
    PaddingBehind(header.modcod, carried);
    SignsOfPrefix(CodedBlock(rate, carried), PaddedBlock(header.modcod, carried), soft);
    BlockRoundTrip(rate, carried, soft, block);
  }

  lemma PaddingBehind(modcod: nat, info: seq<bv8>)
    requires |info| == INFO_BYTES && modcod < MODCODS
    ensures CodedBlock(ModcodOf(modcod).rate, info) <= PaddedBlock(modcod, info)
  {
    hide CodedBlock, ModcodOf, PayloadSymbols;
  }

  lemma SignsOfPrefix(a: seq<bool>, b: seq<bool>, soft: seq<Int8>)
    requires a <= b && SignCorrect(b, soft)
    ensures SignCorrect(a, soft)
  {
  }
}
