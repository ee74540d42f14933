/** The firmware image of the housekeeping controller: a 32-byte header and its payload. */
module Image {

  import opened Bytes
  import Crc32

  const HEADER_SIZE: nat := 32
  const MAGIC: nat := 0x4B484C53
  const HEADER_VERSION: nat := 1
  const HEADER_CRC_SPAN: nat := 28

  datatype Header = Header(
    magic: Word32, headerVersion: Word16, headerSize: Word16, loadAddr: Word32, entry: Word32, payloadSize: Word32,
    payloadCrc: Word32, major: Byte, minor: Byte, patch: Byte, flags: Byte, headerCrc: Word32)

  datatype Check = Passed | TooShort | BadMagic | BadHeader | HeaderCrc | BadLocation | PayloadCrc

  // ---- Checksums of bytes ----

  /** CRC-32 of a complete buffer. */
  function Checksum(p: seq<Byte>): Word32 {
    Crc32.Crc(Crc32.INIT, Octets(p)) as int
  }

  // ---- Header codec ----

  /** The header without its own checksum. */
  function Fields(h: Header): (p: seq<Byte>)
    ensures |p| == HEADER_CRC_SPAN
  {
    Put32(h.magic) + Put16(h.headerVersion) + Put16(h.headerSize) + Put32(h.loadAddr) + Put32(h.entry) +
    Put32(h.payloadSize) + Put32(h.payloadCrc) + [h.major, h.minor, h.patch, h.flags]
  }

  /** The checksum field of the argument is not used: the computed one is written. */
  function WriteHeader(h: Header): (p: seq<Byte>)
    ensures |p| == HEADER_SIZE
  {
    Fields(h) + Put32(Checksum(Fields(h)))
  }

  function ReadHeader(p: seq<Byte>): Header
    requires |p| >= HEADER_SIZE
  {
    Header(Get32(p, 0), Get16(p, 4), Get16(p, 6), Get32(p, 8), Get32(p, 12), Get32(p, 16), Get32(p, 20),
           p[24], p[25], p[26], p[27], Get32(p, 28))
  }

  lemma FieldsRead(h: Header, p: seq<Byte>)
    requires |p| >= HEADER_SIZE && p[..HEADER_CRC_SPAN] == Fields(h)
    ensures ReadHeader(p) == h.(headerCrc := Get32(p, 28))
  {
    hide Get16, Get32, Put16, Put32;
    var f := Fields(h);
    forall i, j | 0 <= i <= j <= 28
      ensures p[i..j] == f[i..j]
    {
      assert p[..28][i..j] == p[i..j];
    }
    assert f[0..4] == Put32(h.magic);
    GetPut32(h.magic, p, 0);
    assert f[4..6] == Put16(h.headerVersion) && f[6..8] == Put16(h.headerSize);
    GetPut16(h.headerVersion, p, 4);
    GetPut16(h.headerSize, p, 6);
    assert f[8..12] == Put32(h.loadAddr) && f[12..16] == Put32(h.entry);
    GetPut32(h.loadAddr, p, 8);
    GetPut32(h.entry, p, 12);
    assert f[16..20] == Put32(h.payloadSize) && f[20..24] == Put32(h.payloadCrc);
    GetPut32(h.payloadSize, p, 16);
    GetPut32(h.payloadCrc, p, 20);
    assert p[24] == f[24] && p[25] == f[25] && p[26] == f[26] && p[27] == f[27];
  }

  /** Reading back a written header, in front of anything. */
  lemma {:induction false} HeaderRoundTrip(h: Header, rest: seq<Byte>)
    ensures ReadHeader(WriteHeader(h) + rest) == h.(headerCrc := Checksum(Fields(h)))
  {
    hide Get16, Get32, Put16, Put32, Checksum, Fields, ReadHeader;
    var p := WriteHeader(h) + rest;
    assert p[..HEADER_CRC_SPAN] == Fields(h);
    assert p[28..32] == Put32(Checksum(Fields(h)));
    GetPut32(Checksum(Fields(h)), p, 28);
    FieldsRead(h, p);
  }

  /** Where the fields of a written header are. */
  lemma HeaderBytes(h: Header)
    ensures var p := WriteHeader(h);
            && p[..4] == Put32(h.magic) && p[4..6] == Put16(h.headerVersion) && p[6..8] == Put16(h.headerSize)
            && p[8..12] == Put32(h.loadAddr) && p[12..16] == Put32(h.entry)
            && p[16..20] == Put32(h.payloadSize) && p[20..24] == Put32(h.payloadCrc)
            && p[24..28] == [h.major, h.minor, h.patch, h.flags] && p[28..] == Put32(Checksum(p[..28]))
  {
    hide Put16, Put32, Checksum;
  }

  lemma PutGet16(p: seq<Byte>, at: nat)
    requires at + 2 <= |p|
    ensures Put16(Get16(p, at)) == p[at..at + 2]
  {
  }

  lemma LowByte(a: Byte, rest: nat)
    ensures (a as int + 256 * rest) % 256 == a && (a as int + 256 * rest) / 256 == rest
  {
  }

  lemma ByteByByte(v: nat)
    ensures v / 0x1_0000 == v / 256 / 256 && v / 0x100_0000 == v / 256 / 256 / 256
  {
  }

  lemma PutGet32(p: seq<Byte>, at: nat)
    requires at + 4 <= |p|
    ensures Put32(Get32(p, at)) == p[at..at + 4]
  {
    var a: int, b: int, c: int, d: int := p[at], p[at + 1], p[at + 2], p[at + 3];
    var x := c + 256 * d;
    var w := b + 256 * x;
    assert Get32(p, at) == a + 256 * w;
    LowByte(p[at], w);
    LowByte(p[at + 1], x);
    LowByte(p[at + 2], d);
    ByteByByte(a + 256 * w);
  }

  /** The first 28 bytes are exactly the fields read from them. */
  lemma FieldsOfRead(p: seq<Byte>)
    requires |p| >= HEADER_SIZE
    ensures Fields(ReadHeader(p)) == p[..HEADER_CRC_SPAN]
  {
    hide Get16, Get32, Put16, Put32;
    PutGet32(p, 0);
    PutGet16(p, 4);
    PutGet16(p, 6);
    PutGet32(p, 8);
    PutGet32(p, 12);
    PutGet32(p, 16);
    PutGet32(p, 20);
  }

  // ---- The full check ----

  /** Checks an image placed at address base in a region of size bytes, in the order of the source. */
  function Verify(image: seq<Byte>, base: Word32, size: Word32): Check {
    if |image| < HEADER_SIZE then TooShort
    else
      var h := ReadHeader(image);
      if h.magic != MAGIC then BadMagic
      else if h.headerVersion != HEADER_VERSION || h.headerSize != HEADER_SIZE then BadHeader
      else if Checksum(image[..HEADER_CRC_SPAN]) != h.headerCrc then HeaderCrc
      else
        var total := HEADER_SIZE + h.payloadSize;
        var start := base + HEADER_SIZE;
        if h.loadAddr != base || total > size || h.payloadSize == 0 ||
           h.entry < start || h.entry >= start + h.payloadSize
        then BadLocation
        else if total > |image| then TooShort
        else if Checksum(image[HEADER_SIZE..total]) != h.payloadCrc then PayloadCrc
        else Passed
  }

  /** A header that may stand in front of this payload in a region of size bytes at base. */
  predicate Describes(h: Header, payload: seq<Byte>, base: Word32, size: Word32) {
    h.magic == MAGIC && h.headerVersion == HEADER_VERSION && h.headerSize == HEADER_SIZE &&
    h.loadAddr == base && 0 < h.payloadSize == |payload| && HEADER_SIZE + |payload| <= size &&
    base + HEADER_SIZE <= h.entry < base + HEADER_SIZE + |payload| && h.payloadCrc == Checksum(payload)
  }

  /** Completeness: what the header writer produces for a fitting payload passes, whatever follows it. */
  lemma WrittenImageVerifies(h: Header, payload: seq<Byte>, rest: seq<Byte>, base: Word32, size: Word32)
    requires Describes(h, payload, base, size)
    ensures Verify(WriteHeader(h) + payload + rest, base, size) == Passed
  {
    hide Fields, Checksum, ReadHeader, Put32;
    var image := WriteHeader(h) + payload + rest;
    HeaderRoundTrip(h, payload + rest);
    assert image == WriteHeader(h) + (payload + rest);
    assert image[..HEADER_CRC_SPAN] == Fields(h);
    assert image[HEADER_SIZE..HEADER_SIZE + |payload|] == payload;
  }

  /** Soundness: an image that passes is a written header, its payload and trailing bytes. */
  lemma VerifiedImageIsWritten(image: seq<Byte>, base: Word32, size: Word32)
    requires Verify(image, base, size) == Passed
    ensures |image| >= HEADER_SIZE
    ensures var h := ReadHeader(image);
            HEADER_SIZE + h.payloadSize <= |image| &&
            var payload := image[HEADER_SIZE..HEADER_SIZE + h.payloadSize];
            Describes(h, payload, base, size) &&
            image == WriteHeader(h) + payload + image[HEADER_SIZE + h.payloadSize..]
  {
    hide Fields, Checksum, Get16, Get32, Put32, Octets;
    var h := ReadHeader(image);
    FieldsOfRead(image);
    PutGet32(image, 28);
    assert image[..HEADER_SIZE] == image[..28] + image[28..32];
    assert WriteHeader(h) == image[..HEADER_SIZE];
    var total := HEADER_SIZE + h.payloadSize;
    assert image == image[..HEADER_SIZE] + image[HEADER_SIZE..total] + image[total..];
  }

  lemma SamePrefixSameHeader(a: seq<Byte>, b: seq<Byte>)
    requires HEADER_SIZE <= |a| && HEADER_SIZE <= |b| && a[..HEADER_SIZE] == b[..HEADER_SIZE]
    ensures ReadHeader(a) == ReadHeader(b)
  {
    assert forall i :: 0 <= i < 32 ==> a[i] == a[..32][i] && b[i] == b[..32][i];
    assert forall i :: 0 <= i < 32 ==> a[i] == b[i];
  }

  /** Bytes behind an image do not change the verdict on it. */
  lemma {:induction false} VerifiedInFront(image: seq<Byte>, rest: seq<Byte>, base: Word32, size: Word32)
    requires Verify(image, base, size) == Passed
    ensures Verify(image + rest, base, size) == Passed
    ensures ReadHeader(image + rest) == ReadHeader(image)
  {
    hide Fields, Checksum, ReadHeader;
    SamePrefixSameHeader(image, image + rest);
    var h := ReadHeader(image);
    assert (image + rest)[..HEADER_CRC_SPAN] == image[..HEADER_CRC_SPAN];
    assert (image + rest)[HEADER_SIZE..HEADER_SIZE + h.payloadSize] == image[HEADER_SIZE..HEADER_SIZE + h.payloadSize];
  }

  /** The verdict is Passed exactly for a written header over its payload with anything behind. */
  lemma {:induction false} VerifiesIffWritten(image: seq<Byte>, base: Word32, size: Word32)
    ensures Verify(image, base, size) == Passed <==>
            exists h: Header, payload: seq<Byte>, rest: seq<Byte> ::
              Describes(h, payload, base, size) && image == WriteHeader(h) + payload + rest
  {
    hide Fields, Checksum, ReadHeader, Verify, WriteHeader, Describes;
    if Verify(image, base, size) == Passed {
      VerifiedImageIsWritten(image, base, size);
    }
    forall h: Header, payload: seq<Byte>, rest: seq<Byte>
      | Describes(h, payload, base, size) && image == WriteHeader(h) + payload + rest
      ensures Verify(image, base, size) == Passed
    {
      WrittenImageVerifies(h, payload, rest, base, size);
    }
  }

  // ---- Verdicts ----

  /** The header says what it must, apart from its place and the payload. */
  predicate HeaderIntact(image: seq<Byte>)
    requires |image| >= HEADER_SIZE
  {
    && image[..4] == [0x53, 0x4C, 0x48, 0x4B] && image[4..8] == [1, 0, 32, 0]
    && Get32(image, 28) == Checksum(image[..28])
  }

  /** The image is for this region, has a payload that ends inside it, and starts in that payload. */
  predicate PlacedFor(h: Header, base: Word32, size: Word32) {
    && h.loadAddr == base && 0 < h.payloadSize <= size - 32
    && base + 32 <= h.entry < base + 32 + h.payloadSize
  }

  /** What each verdict says of the image; the checks are made in this order. */
  lemma VerdictMeans(image: seq<Byte>, base: Word32, size: Word32)
    ensures var v := Verify(image, base, size);
            if |image| < 32 then v == TooShort
            else
              var h := ReadHeader(image);
              && (v == BadMagic <==> image[..4] != [0x53, 0x4C, 0x48, 0x4B])
              && (v == BadHeader <==> image[..4] == [0x53, 0x4C, 0x48, 0x4B] && image[4..8] != [1, 0, 32, 0])
              && (v in {BadMagic, BadHeader, HeaderCrc} <==> !HeaderIntact(image))
              && (v == BadLocation <==> HeaderIntact(image) && !PlacedFor(h, base, size))
              && (v == TooShort <==> HeaderIntact(image) && PlacedFor(h, base, size) && 32 + h.payloadSize > |image|)
              && (v == PayloadCrc ==>
                    32 + h.payloadSize <= |image| && Checksum(image[32..32 + h.payloadSize]) != h.payloadCrc)
  {
    hide Checksum, Get16, Get32;
    if |image| >= 32 {
      MagicReads(image);
      VersionReads(image);
    }
  }

  lemma MagicReads(image: seq<Byte>)
    requires |image| >= HEADER_SIZE
    ensures Get32(image, 0) == MAGIC <==> image[..4] == [0x53, 0x4C, 0x48, 0x4B]
  {
    hide Get32, Put32;
    PutGet32(image, 0);
    assert image[0..0 + 4] == image[..4];
    if image[..4] == [0x53, 0x4C, 0x48, 0x4B] {
      MagicBytes();
      GetPut32(MAGIC, image, 0);
    } else {
      MagicBytes();
    }
  }

  lemma MagicBytes()
    ensures Put32(MAGIC) == [0x53, 0x4C, 0x48, 0x4B]
  {
  }

  lemma VersionReads(image: seq<Byte>)
    requires |image| >= HEADER_SIZE
    ensures Get16(image, 4) == HEADER_VERSION && Get16(image, 6) == HEADER_SIZE <==> image[4..8] == [1, 0, 32, 0]
  {
    var v := image[4..8];
    assert v[0] == image[4] && v[1] == image[5] && v[2] == image[6] && v[3] == image[7];
  }
}
