/** PUS telecommand and telemetry packets over the space packet header, and CUC time. */
module PusPacket {

  import opened Bytes
  import opened SpacePacket
  import Crc16

  const TC_HEADER: nat := 5
  const TM_HEADER: nat := 13
  const CRC_SIZE: nat := 2
  const PUS_VERSION: nat := 2
  const MISSION_EPOCH: nat := 946684800

  // ---- CUC time: 32-bit seconds since the mission epoch and a 16-bit binary fraction ----

  datatype CucTime = CucTime(seconds: nat, fraction: nat)

  function FromUnixMs(unixMs: nat): CucTime {
    var epochMs := MISSION_EPOCH * 1000;
    var ms := if unixMs > epochMs then unixMs - epochMs else 0;
    CucTime(ms / 1000 % 0x1_0000_0000, ms % 1000 * 65536 / 1000 % 0x1_0000)
  }

  function ToUnixMs(t: CucTime): nat {
    (MISSION_EPOCH + t.seconds) * 1000 + (t.fraction * 1000 + 32768) / 65536
  }

  lemma FractionRoundTrip(m: nat)
    requires m < 1000
    ensures var f := m * 65536 / 1000; f < 0x1_0000 && (f * 1000 + 32768) / 65536 == m
  {
    var f := m * 65536 / 1000;
    assert m * 65536 - 1000 < f * 1000 <= m * 65536;
  }

  /** The fraction is the largest number of 65536ths that does not exceed the milliseconds, and whole seconds are
      counted from the epoch. */
  lemma FractionIsFloor(s: nat, m: nat)
    requires s < 0x1_0000_0000 && m < 1000
    ensures var t := FromUnixMs((946684800 + s) * 1000 + m);
            t.seconds == s && t.fraction < 65536 && t.fraction * 1000 <= m * 65536 < (t.fraction + 1) * 1000
  {
    hide FromUnixMs;
    FromUnixIs(s, m);
    FractionRoundTrip(m);
  }

  lemma FromUnixIs(s: nat, m: nat)
    requires s < 0x1_0000_0000 && m < 1000
    ensures FromUnixMs((946684800 + s) * 1000 + m) == CucTime(s, m * 65536 / 1000 % 0x1_0000)
  {
    assert (s * 1000 + m) / 1000 == s && (s * 1000 + m) % 1000 == m;
  }

  /** Milliseconds since the epoch, none before it. */
  function SinceEpoch(unixMs: nat): nat {
    if unixMs > MISSION_EPOCH * 1000 then unixMs - MISSION_EPOCH * 1000 else 0
  }

  lemma ThereAndBack(unixMs: nat)
    ensures var ms := SinceEpoch(unixMs);
            ToUnixMs(FromUnixMs(unixMs)) == MISSION_EPOCH * 1000 + 1000 * (ms / 1000 % 0x1_0000_0000) + ms % 1000
  {
    FractionRoundTrip(SinceEpoch(unixMs) % 1000);
  }

  lemma SecondsKept(s: nat)
    ensures s % 0x1_0000_0000 <= s && (s % 0x1_0000_0000 == s <==> s < 0x1_0000_0000)
  {
  }

  /** The conversion is lossless to the millisecond exactly from the epoch on and for 2^32 seconds. */
  lemma TimeRoundTripIff(unixMs: nat)
    ensures ToUnixMs(FromUnixMs(unixMs)) == unixMs <==>
            MISSION_EPOCH * 1000 <= unixMs < (MISSION_EPOCH + 0x1_0000_0000) * 1000
  {
    hide FromUnixMs, ToUnixMs;
    ThereAndBack(unixMs);
    var ms := SinceEpoch(unixMs);
    SecondsKept(ms / 1000);
    assert ms == 1000 * (ms / 1000) + ms % 1000;
  }

  // ---- Fields ----

  function BigEndian32(p: seq<Byte>, at: nat): (v: nat)
    requires at + 4 <= |p|
    ensures v < 0x1_0000_0000
  {
    0x1_0000 * BigEndian16(p, at) + BigEndian16(p, at + 2)
  }

  function PutBe16(v: nat): (p: seq<Byte>)
    requires v < 0x1_0000
    ensures |p| == 2
  {
    [v / 256, v % 256]
  }

  function PutBe32(v: nat): (p: seq<Byte>)
    requires v < 0x1_0000_0000
    ensures |p| == 4
  {
    PutBe16(v / 0x1_0000) + PutBe16(v % 0x1_0000)
  }

  lemma GetPutBe16(v: nat, p: seq<Byte>, at: nat)
    requires v < 0x1_0000 && at + 2 <= |p| && p[at..at + 2] == PutBe16(v)
    ensures BigEndian16(p, at) == v
  {
    assert p[at] == p[at..at + 2][0] && p[at + 1] == p[at..at + 2][1];
  }

  lemma GetPutBe32(v: nat, p: seq<Byte>, at: nat)
    requires v < 0x1_0000_0000 && at + 4 <= |p| && p[at..at + 4] == PutBe32(v)
    ensures BigEndian32(p, at) == v
  {
    hide PutBe16, BigEndian16;
    assert p[at..at + 2] == p[at..at + 4][..2] == PutBe16(v / 0x1_0000);
    assert p[at + 2..at + 4] == p[at..at + 4][2..] == PutBe16(v % 0x1_0000);
    GetPutBe16(v / 0x1_0000, p, at);
    GetPutBe16(v % 0x1_0000, p, at + 2);
  }

  lemma PutGetBe16(p: seq<Byte>, at: nat)
    requires at + 2 <= |p|
    ensures PutBe16(BigEndian16(p, at)) == p[at..at + 2]
  {
  }

  lemma PutGetBe32(p: seq<Byte>, at: nat)
    requires at + 4 <= |p|
    ensures PutBe32(BigEndian32(p, at)) == p[at..at + 4]
  {
    hide PutBe16, BigEndian16;
    PutGetBe16(p, at);
    PutGetBe16(p, at + 2);
    var high, low := BigEndian16(p, at), BigEndian16(p, at + 2);
    assert (0x1_0000 * high + low) / 0x1_0000 == high && (0x1_0000 * high + low) % 0x1_0000 == low;
    assert p[at..at + 4] == p[at..at + 2] + p[at + 2..at + 4];
  }

  // ---- Error control ----

  /** The CRC of the packet so far, most significant byte first. */
  function Crc(p: seq<Byte>): (c: seq<Byte>)
    ensures |c| == CRC_SIZE
  {
    var e := Crc16.BigEndian(Crc16.Crc(Crc16.INIT, Octets(p)));
    [FromOctet(e[0]), FromOctet(e[1])]
  }

  predicate CrcOk(p: seq<Byte>) {
    Crc16.Crc(Crc16.INIT, Octets(p)) == 0
  }

  lemma OctetsConcat(p: seq<Byte>, q: seq<Byte>)
    ensures Octets(p + q) == Octets(p) + Octets(q)
  {
  }

  /** The error control accepts exactly the two bytes the encoder appends. */
  lemma CrcOkIff(p: seq<Byte>, c: seq<Byte>)
    requires |c| == CRC_SIZE
    ensures CrcOk(p + c) <==> c == Crc(p)
  {
    hide Crc16.Crc, Crc16.BigEndian, FromOctet, ToOctet;
    var data := Octets(p);
    var r := Crc16.Crc(Crc16.INIT, data);
    var e := Crc16.BigEndian(r);
    Crc16.BigEndianIsTwo(r);
    OctetsConcat(p, c);
    var a, b := ToOctet(c[0]), ToOctet(c[1]);
    assert Octets(c) == [a, b];
    if c == Crc(p) {
      OctetBack(e[0]);
      OctetBack(e[1]);
      assert [a, b] == e;
      Crc16.Residue(Crc16.INIT, data);
    }
    if CrcOk(p + c) {
      Crc16.OnlyCrcLeavesZero(Crc16.INIT, data, a, b);
      ByteBack(c[0]);
      ByteBack(c[1]);
    }
  }

  // ---- Packets ----

  datatype Telecommand = Tc(
    apid: nat, sequenceCount: nat, ackFlags: nat, service: Byte, subtype: Byte, sourceId: nat, data: seq<Byte>)

  datatype Telemetry = Tm(
    apid: nat, sequenceCount: nat, service: Byte, subtype: Byte, messageCounter: nat, destinationId: nat, time: CucTime,
    data: seq<Byte>)

  datatype DecodeError =
    | TooShort
    | BadVersion
    | LengthMismatch
    | WrongType
    | NoSecondaryHeader
    | BadPusVersion
    | CrcError

  datatype Result<T> = Ok(value: T) | Err(error: DecodeError)

  /** Header, body and error control of a PUS packet. The length field is cut to 16 bits. */
  function Finish(packetType: PacketType, apid: nat, sequenceCount: nat, body: seq<Byte>): (p: seq<Byte>)
    ensures |p| == HEADER_SIZE + |body| + CRC_SIZE
  {
    var p := EncodeHeader(PrimaryHeader(packetType, true, apid, 3, sequenceCount,
                                        (|body| + CRC_SIZE - 1) % 0x1_0000)) + body;
    p + Crc(p)
  }

  /** The checks common to both packet types, in their order; None when all pass. */
  function CheckCommon(p: seq<Byte>, packetType: PacketType, secHeader: nat): (e: Result<PrimaryHeader>)
    requires secHeader > 0
    ensures e.Ok? ==> |p| >= HEADER_SIZE + secHeader + CRC_SIZE && e.value == DecodeHeader(p)
  {
    if |p| < HEADER_SIZE then Err(TooShort)
    else
      var h := DecodeHeader(p);
      if Version(p) != 0 then Err(BadVersion)
      else if PacketSize(h) != |p| then Err(LengthMismatch)
      else if h.packetType != packetType then Err(WrongType)
      else if !h.secondaryHeader then Err(NoSecondaryHeader)
      else if |p| < HEADER_SIZE + secHeader + CRC_SIZE then Err(TooShort)
      else if p[6] / 16 != PUS_VERSION then Err(BadPusVersion)
      else if !CrcOk(p) then Err(CrcError)
      else Ok(h)
  }

  /** What passes the checks is a finished packet, apart from the sequence flags. */
  lemma {:induction false} CheckedIsFinished(p: seq<Byte>, packetType: PacketType, secHeader: nat)
    requires secHeader > 0 && CheckCommon(p, packetType, secHeader).Ok? && DecodeHeader(p).sequenceFlags == 3
    ensures var h := DecodeHeader(p);
            p == Finish(packetType, h.apid, h.sequenceCount, p[HEADER_SIZE..|p| - CRC_SIZE])
  {
    hide Crc, CrcOk, DecodeHeader, EncodeHeader;
    var h := DecodeHeader(p);
    var body := p[HEADER_SIZE..|p| - CRC_SIZE];
    var front := p[..|p| - CRC_SIZE];
    assert p == front + p[|p| - CRC_SIZE..];
    CrcOkIff(front, p[|p| - CRC_SIZE..]);
    EncodeOfDecode(p);
    assert front == p[..HEADER_SIZE] + body;
    LengthFits(p);
  }

  lemma LengthFits(p: seq<Byte>)
    requires |p| >= HEADER_SIZE
    ensures DecodeHeader(p).dataLength < 0x1_0000
  {
  }

  /** Decoding the header of a version 0 packet loses nothing. */
  lemma EncodeOfDecode(p: seq<Byte>)
    requires |p| >= HEADER_SIZE && Version(p) == 0
    ensures DecodeHeader(p).dataLength < 0x1_0000 && EncodeHeader(DecodeHeader(p)) == p[..HEADER_SIZE]
  {
    hide BigEndian16, Word0, Word1;
    WordParts(p, 0);
    WordParts(p, 2);
    WordParts(p, 4);
    WordsOfDecode(p);
  }

  lemma WordsOfDecode(p: seq<Byte>)
    requires |p| >= HEADER_SIZE && Version(p) == 0
    ensures Word0(DecodeHeader(p)) == BigEndian16(p, 0) && Word1(DecodeHeader(p)) == BigEndian16(p, 2)
  {
    hide BigEndian16;
    FirstWordIsSmall(p);
    var w0 := BigEndian16(p, 0);
    assert BitWeight(w0 / 0x1000 % 2 == 1, 0x1000) + BitWeight(w0 / 0x800 % 2 == 1, 0x800) + w0 % 0x800 == w0;
  }

  lemma FirstWordIsSmall(p: seq<Byte>)
    requires |p| >= HEADER_SIZE && Version(p) == 0
    ensures BigEndian16(p, 0) < 0x2000
  {
  }

  lemma WordParts(p: seq<Byte>, at: nat)
    requires at + 2 <= |p|
    ensures BigEndian16(p, at) / 256 == p[at] && BigEndian16(p, at) % 256 == p[at + 1]
  {
  }

  /** A finished packet passes the checks exactly when its length fits the 16-bit field. */
  lemma {:induction false} FinishedPassesIff(packetType: PacketType, secHeader: nat, apid: nat, sequenceCount: nat,
                                             body: seq<Byte>)
    requires 0 < secHeader <= |body| && body[0] / 16 == PUS_VERSION
    ensures var p := Finish(packetType, apid, sequenceCount, body);
            (CheckCommon(p, packetType, secHeader).Ok? <==> |body| + CRC_SIZE <= 0x1_0000) &&
            DecodeHeader(p).apid == apid % 0x800 && DecodeHeader(p).sequenceCount == sequenceCount % 0x4000 &&
            p[HEADER_SIZE..|p| - CRC_SIZE] == body
  {
    hide Crc, CrcOk, EncodeHeader, DecodeHeader;
    var n := |body| + CRC_SIZE - 1;
    var h := PrimaryHeader(packetType, true, apid % 0x800, 3, sequenceCount % 0x4000, n % 0x1_0000);
    CutFields(PrimaryHeader(packetType, true, apid, 3, sequenceCount, n % 0x1_0000), h);
    var front := EncodeHeader(h) + body;
    var p := Finish(packetType, apid, sequenceCount, body);
    assert p == front + Crc(front) == EncodeHeader(h) + (body + Crc(front));
    HeaderRoundTrip(h, body + Crc(front));
    CrcOkIff(front, Crc(front));
    assert p[6] == body[0];
  }

  lemma CutFields(a: PrimaryHeader, b: PrimaryHeader)
    requires b == a.(apid := a.apid % 0x800, sequenceCount := a.sequenceCount % 0x4000) && a.dataLength < 0x1_0000
    ensures EncodeHeader(a) == EncodeHeader(b)
  {
    hide Word0, Word1;
    CutWords(a, b);
  }

  lemma CutWords(a: PrimaryHeader, b: PrimaryHeader)
    requires b == a.(apid := a.apid % 0x800, sequenceCount := a.sequenceCount % 0x4000)
    ensures Word0(a) == Word0(b) && Word1(a) == Word1(b)
  {
  }

  // ---- Telecommands ----

  function TcBody(tc: Telecommand): (b: seq<Byte>)
    ensures |b| == TC_HEADER + |tc.data|
  {
    [PUS_VERSION * 16 + tc.ackFlags % 16, tc.service, tc.subtype] + PutBe16(tc.sourceId % 0x1_0000) + tc.data
  }

  function EncodeTc(tc: Telecommand): seq<Byte> {
    Finish(PacketType.Telecommand, tc.apid, tc.sequenceCount, TcBody(tc))
  }

  function DecodeTc(p: seq<Byte>): Result<Telecommand> {
    match CheckCommon(p, PacketType.Telecommand, TC_HEADER)
    case Err(e) => Err(e)
    case Ok(h) =>
      Ok(Tc(h.apid, h.sequenceCount, p[6] % 16, p[7], p[8], BigEndian16(p, 9), p[11..|p| - CRC_SIZE]))
  }

  /** Every field has the width of its place, and the length fits its field. */
  predicate TcFits(tc: Telecommand) {
    tc.apid < 0x800 && tc.sequenceCount < 0x4000 && tc.ackFlags < 16 && tc.sourceId < 0x1_0000 &&
    TC_HEADER + |tc.data| + CRC_SIZE <= 0x1_0000
  }

  lemma TcBodyReads(tc: Telecommand, p: seq<Byte>)
    requires |p| == HEADER_SIZE + |TcBody(tc)| + CRC_SIZE && p[HEADER_SIZE..|p| - CRC_SIZE] == TcBody(tc)
    ensures p[6] % 16 == tc.ackFlags % 16 && p[7] == tc.service && p[8] == tc.subtype
    ensures BigEndian16(p, 9) == tc.sourceId % 0x1_0000 && p[11..|p| - CRC_SIZE] == tc.data
  {
    hide BigEndian16, PutBe16;
    var b := TcBody(tc);
    var q := p[HEADER_SIZE..|p| - CRC_SIZE];
    assert p[6] == q[0] && p[7] == q[1] && p[8] == q[2];
    SliceOfSlice(p, 6, |p| - 2, 3, 5);
    assert q[3..5] == PutBe16(tc.sourceId % 0x1_0000);
    GetPutBe16(tc.sourceId % 0x1_0000, p, 9);
    SliceOfSlice(p, 6, |p| - 2, 5, |q|);
    assert q[5..] == q[5..|q|] == tc.data;
  }

  /** A telecommand comes back unchanged exactly when it fits. */
  lemma {:induction false} TcRoundTripIff(tc: Telecommand)
    ensures DecodeTc(EncodeTc(tc)) == Ok(tc) <==> TcFits(tc)
  {
    hide Finish, CheckCommon, BigEndian16, TcBody;
    TcBodyStart(tc);
    FinishedPassesIff(PacketType.Telecommand, TC_HEADER, tc.apid, tc.sequenceCount, TcBody(tc));
    TcBodyReads(tc, EncodeTc(tc));
    Reduced(tc.apid, 0x800);
    Reduced(tc.sequenceCount, 0x4000);
    Reduced(tc.ackFlags, 16);
    Reduced(tc.sourceId, 0x1_0000);
  }

  lemma TcBodyStart(tc: Telecommand)
    ensures TcBody(tc)[0] / 16 == PUS_VERSION
  {
  }

  lemma Reduced(x: nat, n: nat)
    requires n > 0
    ensures x % n == x <==> x < n
  {
  }

  /** Nothing else decodes to a telecommand: a packet with unsegmented flags is the encoding of what it
      decodes to. */
  lemma {:induction false} TcDecodeIsInjective(p: seq<Byte>, tc: Telecommand)
    requires DecodeTc(p) == Ok(tc) && DecodeHeader(p).sequenceFlags == 3
    ensures TcFits(tc) && p == EncodeTc(tc)
  {
    hide Finish, BigEndian16, DecodeHeader, PutBe16, CheckCommon;
    CheckedIsFinished(p, PacketType.Telecommand, TC_HEADER);
    CheckedFields(p, PacketType.Telecommand, TC_HEADER);
    PutGetBe16(p, 9);
    var q := p[HEADER_SIZE..|p| - CRC_SIZE];
    assert q == [p[6], p[7], p[8]] + p[9..11] + p[11..|p| - CRC_SIZE];
    assert q == TcBody(tc);
  }

  lemma CheckedFields(p: seq<Byte>, packetType: PacketType, secHeader: nat)
    requires secHeader > 0 && CheckCommon(p, packetType, secHeader).Ok?
    ensures var h := DecodeHeader(p);
            h.apid < 0x800 && h.sequenceCount < 0x4000 && |p| - HEADER_SIZE <= 0x1_0000 &&
            p[6] == PUS_VERSION * 16 + p[6] % 16
  {
    hide CrcOk, BigEndian16;
  }

  // ---- Telemetry ----

  function TmBody(tm: Telemetry): (b: seq<Byte>)
    ensures |b| == TM_HEADER + |tm.data|
  {
    [PUS_VERSION * 16, tm.service, tm.subtype] + PutBe16(tm.messageCounter % 0x1_0000) +
    PutBe16(tm.destinationId % 0x1_0000) + PutBe32(tm.time.seconds % 0x1_0000_0000) +
    PutBe16(tm.time.fraction % 0x1_0000) + tm.data
  }

  function EncodeTm(tm: Telemetry): seq<Byte> {
    Finish(PacketType.Telemetry, tm.apid, tm.sequenceCount, TmBody(tm))
  }

  function DecodeTm(p: seq<Byte>): Result<Telemetry> {
    match CheckCommon(p, PacketType.Telemetry, TM_HEADER)
    case Err(e) => Err(e)
    case Ok(h) =>
      Ok(Tm(h.apid, h.sequenceCount, p[7], p[8], BigEndian16(p, 9), BigEndian16(p, 11),
            CucTime(BigEndian32(p, 13), BigEndian16(p, 17)), p[19..|p| - CRC_SIZE]))
  }

  predicate TmFits(tm: Telemetry) {
    tm.apid < 0x800 && tm.sequenceCount < 0x4000 && tm.messageCounter < 0x1_0000 && tm.destinationId < 0x1_0000 &&
    tm.time.seconds < 0x1_0000_0000 && tm.time.fraction < 0x1_0000 && TM_HEADER + |tm.data| + CRC_SIZE <= 0x1_0000
  }

  lemma TmBodyReads(tm: Telemetry, p: seq<Byte>)
    requires |p| == HEADER_SIZE + |TmBody(tm)| + CRC_SIZE && p[HEADER_SIZE..|p| - CRC_SIZE] == TmBody(tm)
    ensures p[7] == tm.service && p[8] == tm.subtype
    ensures BigEndian16(p, 9) == tm.messageCounter % 0x1_0000 && BigEndian16(p, 11) == tm.destinationId % 0x1_0000
    ensures BigEndian32(p, 13) == tm.time.seconds % 0x1_0000_0000 && BigEndian16(p, 17) == tm.time.fraction % 0x1_0000
    ensures p[19..|p| - CRC_SIZE] == tm.data
  {
    hide BigEndian16, BigEndian32, PutBe16, PutBe32;
    var q := p[HEADER_SIZE..|p| - CRC_SIZE];
    assert p[7] == q[1] && p[8] == q[2];
    SliceOfSlice(p, 6, |p| - 2, 3, 5);
    SliceOfSlice(p, 6, |p| - 2, 5, 7);
    SliceOfSlice(p, 6, |p| - 2, 7, 11);
    SliceOfSlice(p, 6, |p| - 2, 11, 13);
    SliceOfSlice(p, 6, |p| - 2, 13, |q|);
    assert q[3..5] == PutBe16(tm.messageCounter % 0x1_0000);
    assert q[5..7] == PutBe16(tm.destinationId % 0x1_0000);
    assert q[7..11] == PutBe32(tm.time.seconds % 0x1_0000_0000);
    assert q[11..13] == PutBe16(tm.time.fraction % 0x1_0000);
    GetPutBe16(tm.messageCounter % 0x1_0000, p, 9);
    GetPutBe16(tm.destinationId % 0x1_0000, p, 11);
    GetPutBe32(tm.time.seconds % 0x1_0000_0000, p, 13);
    GetPutBe16(tm.time.fraction % 0x1_0000, p, 17);
    assert q[13..] == q[13..|q|] == tm.data;
  }

  lemma TmBodyStart(tm: Telemetry)
    ensures TmBody(tm)[0] == PUS_VERSION * 16
  {
  }

  /** A telemetry packet comes back unchanged exactly when it fits. */
  lemma {:induction false} TmRoundTripIff(tm: Telemetry)
    ensures DecodeTm(EncodeTm(tm)) == Ok(tm) <==> TmFits(tm)
  {
    hide Finish, CheckCommon, BigEndian16, BigEndian32, TmBody;
    TmBodyStart(tm);
    FinishedPassesIff(PacketType.Telemetry, TM_HEADER, tm.apid, tm.sequenceCount, TmBody(tm));
    TmBodyReads(tm, EncodeTm(tm));
    Reduced(tm.apid, 0x800);
    Reduced(tm.sequenceCount, 0x4000);
    Reduced(tm.messageCounter, 0x1_0000);
    Reduced(tm.destinationId, 0x1_0000);
    Reduced(tm.time.seconds, 0x1_0000_0000);
    Reduced(tm.time.fraction, 0x1_0000);
  }

  /** The decoder does not look at the time reference status; where that is zero too, a packet with
      unsegmented flags is the encoding of what it decodes to. */
  lemma {:induction false} TmDecodeIsInjective(p: seq<Byte>, tm: Telemetry)
    requires DecodeTm(p) == Ok(tm) && DecodeHeader(p).sequenceFlags == 3 && p[6] % 16 == 0
    ensures TmFits(tm) && p == EncodeTm(tm)
  {
    hide Finish, BigEndian16, BigEndian32, DecodeHeader, PutBe16, PutBe32, CheckCommon;
    CheckedIsFinished(p, PacketType.Telemetry, TM_HEADER);
    CheckedFields(p, PacketType.Telemetry, TM_HEADER);
    PutGetBe16(p, 9);
    PutGetBe16(p, 11);
    PutGetBe32(p, 13);
    PutGetBe16(p, 17);
    var q := p[HEADER_SIZE..|p| - CRC_SIZE];
    assert q == [p[6], p[7], p[8]] + p[9..11] + p[11..13] + p[13..17] + p[17..19] + p[19..|p| - CRC_SIZE];
    assert q == TmBody(tm);
  }

  // ---- The bytes of a packet ----

  /** The primary header of a finished packet. */
  lemma FinishedHeader(packetType: PacketType, apid: nat, sequenceCount: nat, body: seq<Byte>)
    requires apid < 0x800 && sequenceCount < 0x4000 && |body| + CRC_SIZE - 1 < 0x1_0000
    requires |body| > 0
    ensures var p := Finish(packetType, apid, sequenceCount, body);
            && p[0] == (if packetType == PacketType.Telecommand then 0x18 else 0x08) + apid / 256 && p[1] == apid % 256
            && p[2] == 0xC0 + sequenceCount / 256 && p[3] == sequenceCount % 256
            && p[4] as int * 256 + p[5] as int == |body| + 1
            && p[6..|p| - 2] == body && p[|p| - 2..] == Crc(p[..|p| - 2])
  {
    hide Crc, EncodeHeader, DecodeHeader;
    var h := PrimaryHeader(packetType, true, apid, 3, sequenceCount, |body| + 1);
    var front := EncodeHeader(h) + body;
    var p := Finish(packetType, apid, sequenceCount, body);
    assert p == EncodeHeader(h) + (body + Crc(front)) == front + Crc(front);
    SpacePacket.HeaderRoundTrip(h, body + Crc(front));
    SpacePacket.HeaderPlaces(p);
    HeaderParts(p[0], p[2], packetType == PacketType.Telecommand, apid / 256, sequenceCount / 256);
    assert p[..|p| - 2] == front;
  }

  lemma HeaderParts(a: Byte, c: Byte, command: bool, high: nat, count: nat)
    requires a / 32 == 0 && (a / 16 % 2 == 1 <==> command) && a / 8 % 2 == 1 && a % 8 == high
    requires c / 64 == 3 && c % 64 == count
    ensures a == (if command then 0x18 else 0x08) + high && c == 0xC0 + count
  {
  }

  lemma TcBodyBytes(tc: Telecommand)
    requires tc.ackFlags < 16 && tc.sourceId < 0x1_0000
    ensures var b := TcBody(tc);
            && b[0] == 0x20 + tc.ackFlags && b[1] == tc.service && b[2] == tc.subtype
            && b[3] == tc.sourceId / 256 && b[4] == tc.sourceId % 256 && b[5..] == tc.data
  {
  }

  /** A telecommand byte by byte. */
  lemma TcBytes(tc: Telecommand)
    requires TcFits(tc)
    ensures var p := EncodeTc(tc);
            && |p| == 13 + |tc.data| && p[0] == 0x18 + tc.apid / 256 && p[1] == tc.apid % 256
            && p[2] == 0xC0 + tc.sequenceCount / 256 && p[3] == tc.sequenceCount % 256
            && p[4] as int * 256 + p[5] as int == |p| - 7
            && p[6] == 0x20 + tc.ackFlags && p[7] == tc.service && p[8] == tc.subtype
            && p[9] == tc.sourceId / 256 && p[10] == tc.sourceId % 256 && p[11..|p| - 2] == tc.data
            && p[|p| - 2..] == Crc(p[..|p| - 2])
  {
    hide Finish, Crc, TcBody;
    var p, b := EncodeTc(tc), TcBody(tc);
    FinishedHeader(PacketType.Telecommand, tc.apid, tc.sequenceCount, b);
    TcBodyBytes(tc);
    var q := p[6..|p| - 2];
    assert p[6] == q[0] && p[7] == q[1] && p[8] == q[2] && p[9] == q[3] && p[10] == q[4];
    assert p[11..|p| - 2] == q[5..];
  }

  /** A telemetry packet byte by byte. */
  lemma TmBytes(tm: Telemetry)
    requires TmFits(tm)
    ensures var p := EncodeTm(tm);
            && |p| == 21 + |tm.data| && p[0] == 0x08 + tm.apid / 256 && p[1] == tm.apid % 256
            && p[2] == 0xC0 + tm.sequenceCount / 256 && p[3] == tm.sequenceCount % 256
            && p[4] as int * 256 + p[5] as int == |p| - 7
            && p[6] == 0x20 && p[7] == tm.service && p[8] == tm.subtype
            && p[9..11] == PutBe16(tm.messageCounter) && p[11..13] == PutBe16(tm.destinationId)
            && p[13..17] == PutBe32(tm.time.seconds) && p[17..19] == PutBe16(tm.time.fraction)
            && p[19..|p| - 2] == tm.data && p[|p| - 2..] == Crc(p[..|p| - 2])
  {
    hide Finish, Crc, PutBe16, PutBe32;
    FinishedHeader(PacketType.Telemetry, tm.apid, tm.sequenceCount, TmBody(tm));
    var p, b := EncodeTm(tm), TmBody(tm);
    var q := p[6..|p| - 2];
    assert p[6] == q[0] && p[7] == q[1] && p[8] == q[2];
    SliceOfSlice(p, 6, |p| - 2, 3, 5);
    SliceOfSlice(p, 6, |p| - 2, 5, 7);
    SliceOfSlice(p, 6, |p| - 2, 7, 11);
    SliceOfSlice(p, 6, |p| - 2, 11, 13);
    SliceOfSlice(p, 6, |p| - 2, 13, |b|);
    assert b[3..5] == PutBe16(tm.messageCounter) && b[5..7] == PutBe16(tm.destinationId);
    assert b[7..11] == PutBe32(tm.time.seconds) && b[11..13] == PutBe16(tm.time.fraction);
    assert b[13..|b|] == tm.data;
  }

  // ---- Rejections ----

  /** Version 0, and the length field tells the size. */
  predicate Framed(p: seq<Byte>) {
    |p| >= 6 && p[0] / 32 == 0 && p[4] as int * 256 + p[5] as int + 7 == |p|
  }

  /** A framed packet of this type with a secondary header. */
  predicate OfType(p: seq<Byte>, packetType: PacketType) {
    Framed(p) && (p[0] / 16 % 2 == 1 <==> packetType == PacketType.Telecommand)
  }

  /** What each rejection says of the packet. */
  lemma RejectionMeans(p: seq<Byte>, packetType: PacketType, secHeader: nat)
    requires secHeader > 0
    ensures var r := CheckCommon(p, packetType, secHeader);
            var complete := OfType(p, packetType) && p[0] / 8 % 2 == 1 && |p| >= 8 + secHeader;
            && (r == Err(BadVersion) <==> |p| >= 6 && p[0] / 32 != 0)
            && (r == Err(LengthMismatch) <==> |p| >= 6 && p[0] / 32 == 0 && !Framed(p))
            && (r == Err(WrongType) <==> Framed(p) && !OfType(p, packetType))
            && (r == Err(NoSecondaryHeader) <==> OfType(p, packetType) && p[0] / 8 % 2 == 0)
            && (r == Err(TooShort) <==>
                  |p| < 6 || (OfType(p, packetType) && p[0] / 8 % 2 == 1 && |p| < 8 + secHeader))
            && (r == Err(BadPusVersion) <==> complete && p[6] / 16 != 2)
            && (r == Err(CrcError) <==> complete && p[6] / 16 == 2 && p[|p| - 2..] != Crc(p[..|p| - 2]))
  {
    hide CrcOk, Crc, DecodeHeader;
    if |p| >= 6 {
      SpacePacket.HeaderPlaces(p);
      CrcOkIff(p[..|p| - 2], p[|p| - 2..]);
      assert p == p[..|p| - 2] + p[|p| - 2..];
    }
  }
}
