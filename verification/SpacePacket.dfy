/** CCSDS space packets: the primary header, the announced size and the idle packet. */
module SpacePacket {

  import opened Bytes

  const HEADER_SIZE: nat := 6
  const IDLE_APID: nat := 0x7FF

  datatype PacketType = Telemetry | Telecommand

  datatype PrimaryHeader = PrimaryHeader(
    packetType: PacketType, secondaryHeader: bool, apid: nat, sequenceFlags: nat, sequenceCount: nat, dataLength: nat)

  /** Version 0, type, secondary header flag and APID; fields wider than their place are cut. */
  function Word0(h: PrimaryHeader): (w: nat)
    ensures w < 0x2000
  {
    BitWeight(h.packetType == Telecommand, 0x1000) + BitWeight(h.secondaryHeader, 0x800) + h.apid % 0x800
  }

  function Word1(h: PrimaryHeader): (w: nat)
    ensures w < 0x1_0000
  {
    h.sequenceFlags % 4 * 0x4000 + h.sequenceCount % 0x4000
  }

  function EncodeHeader(h: PrimaryHeader): (p: seq<Byte>)
    requires h.dataLength < 0x1_0000
    ensures |p| == HEADER_SIZE
  {
    [Word0(h) / 256, Word0(h) % 256, Word1(h) / 256, Word1(h) % 256, h.dataLength / 256, h.dataLength % 256]
  }

  function BigEndian16(p: seq<Byte>, at: nat): (v: nat)
    requires at + 2 <= |p|
    ensures v < 0x1_0000
  {
    var high: int, low: int := p[at], p[at + 1];
    256 * high + low
  }

  function DecodeHeader(p: seq<Byte>): PrimaryHeader
    requires |p| >= HEADER_SIZE
  {
    var word0, word1 := BigEndian16(p, 0), BigEndian16(p, 2);
    PrimaryHeader(if word0 / 0x1000 % 2 == 1 then Telecommand else Telemetry, word0 / 0x800 % 2 == 1, word0 % 0x800,
                  word1 / 0x4000, word1 % 0x4000, BigEndian16(p, 4))
  }

  function Version(p: seq<Byte>): nat
    requires |p| > 0
  {
    p[0] / 32
  }

  /** The header round trip, and the version field the encoder leaves zero. */
  lemma HeaderRoundTrip(h: PrimaryHeader, rest: seq<Byte>)
    requires h.apid < 0x800 && h.sequenceFlags < 4 && h.sequenceCount < 0x4000 && h.dataLength < 0x1_0000
    ensures DecodeHeader(EncodeHeader(h) + rest) == h && Version(EncodeHeader(h) + rest) == 0
  {
    hide Word0, Word1, BigEndian16;
    var p := EncodeHeader(h) + rest;
    WordReads(p, 0, Word0(h));
    WordReads(p, 2, Word1(h));
    WordReads(p, 4, h.dataLength);
    FieldsOfWord0(h);
    FieldsOfWord1(h);
  }

  /** Where the fields of a primary header are. */
  lemma HeaderPlaces(p: seq<Byte>)
    requires |p| >= HEADER_SIZE
    ensures var h := DecodeHeader(p);
            && (h.packetType == Telecommand <==> p[0] / 16 % 2 == 1) && (h.secondaryHeader <==> p[0] / 8 % 2 == 1)
            && h.apid == p[0] as int % 8 * 256 + p[1] as int
            && h.sequenceFlags == p[2] / 64 && h.sequenceCount == p[2] as int % 64 * 256 + p[3] as int
            && h.dataLength == p[4] as int * 256 + p[5] as int
  {
    WordPlaces(p[0], p[1]);
    WordPlaces(p[2], p[3]);
  }

  lemma WordPlaces(a: nat, b: nat)
    requires a < 256 && b < 256
    ensures (256 * a + b) / 0x1000 == a / 16 && (256 * a + b) / 0x800 == a / 8
    ensures (256 * a + b) % 0x800 == a % 8 * 256 + b
    ensures (256 * a + b) / 0x4000 == a / 64 && (256 * a + b) % 0x4000 == a % 64 * 256 + b
  {
  }

  lemma WordReads(p: seq<Byte>, at: nat, w: nat)
    requires at + 2 <= |p| && w < 0x1_0000 && p[at] == w / 256 && p[at + 1] == w % 256
    ensures BigEndian16(p, at) == w
  {
  }

  lemma FieldsOfWord0(h: PrimaryHeader)
    requires h.apid < 0x800
    ensures var w := Word0(h);
            (w / 0x1000 % 2 == 1 <==> h.packetType == Telecommand) && (w / 0x800 % 2 == 1 <==> h.secondaryHeader) &&
            w % 0x800 == h.apid && w / 256 / 32 == 0
  {
  }

  lemma FieldsOfWord1(h: PrimaryHeader)
    requires h.sequenceFlags < 4 && h.sequenceCount < 0x4000
    ensures Word1(h) / 0x4000 == h.sequenceFlags && Word1(h) % 0x4000 == h.sequenceCount
  {
  }

  function PacketSize(h: PrimaryHeader): nat {
    HEADER_SIZE + h.dataLength + 1
  }

  /** A packet without secondary header or error control. */
  function EncodeRaw(packetType: PacketType, apid: nat, sequenceCount: nat, data: seq<Byte>): (p: seq<Byte>)
    requires 1 <= |data| <= 0x1_0000
    ensures |p| == HEADER_SIZE + |data|
  {
    EncodeHeader(PrimaryHeader(packetType, false, apid, 3, sequenceCount, |data| - 1)) + data
  }

  function EncodeIdle(totalSize: nat): (p: seq<Byte>)
    requires totalSize <= 0x1_0000
    ensures |p| == if totalSize < 7 then 7 else totalSize
  {
    var n := if totalSize < 7 then 7 else totalSize;
    EncodeRaw(Telemetry, IDLE_APID, 0, seq(n - HEADER_SIZE, _ => 0x55))
  }

  /** What the telemetry channel assumes of a packet: version 0, a length field that tells its size,
      and at most 4096 bytes. */
  predicate WellFormed(p: seq<Byte>) {
    7 <= |p| <= 4096 && Version(p) == 0 && PacketSize(DecodeHeader(p)) == |p|
  }

  predicate IsIdle(p: seq<Byte>)
    requires |p| >= HEADER_SIZE
  {
    DecodeHeader(p).apid == IDLE_APID
  }

  /** Fill packets are well formed and recognised. */
  lemma {:induction false} IdleIsWellFormed(n: nat)
    requires n <= 4096
    ensures WellFormed(EncodeIdle(n)) && IsIdle(EncodeIdle(n))
  {
    var size := if n < 7 then 7 else n;
    HeaderRoundTrip(PrimaryHeader(Telemetry, false, IDLE_APID, 3, 0, size - 7), seq(size - HEADER_SIZE, _ => 0x55));
  }

  /** Size, version and APID depend on the first six bytes only. */
  lemma HeaderOfPrefix(p: seq<Byte>, q: seq<Byte>)
    requires |p| >= HEADER_SIZE && |q| >= HEADER_SIZE && p[..HEADER_SIZE] == q[..HEADER_SIZE]
    ensures DecodeHeader(p) == DecodeHeader(q) && Version(p) == Version(q)
  {
    assert forall i :: 0 <= i < HEADER_SIZE ==> p[i] == p[..HEADER_SIZE][i] == q[i];
  }

  /** A fill packet byte by byte. */
  lemma IdleBytes(n: nat)
    requires 7 <= n <= 0x1_0000
    ensures var p := EncodeIdle(n);
            && p[..4] == [0x07, 0xFF, 0xC0, 0x00] && 256 * p[4] as int + p[5] as int == n - 7
            && forall i :: 6 <= i < n ==> p[i] == 0x55
  {
  }
}
