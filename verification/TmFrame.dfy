/** CCSDS TM transfer frames: 128 bytes, of which 6 are the primary header. */
module TmFrame {

  import opened Bytes

  const FRAME_SIZE: nat := 128
  const FRAME_HEADER: nat := 6
  const DATA_SIZE: nat := 122
  const FHP_NONE: nat := 0x7FF
  const FHP_IDLE: nat := 0x7FE
  const CHANNELS: nat := 8
  const IDLE_VC: nat := 7

  datatype FrameHeader = FrameHeader(spacecraftId: nat, vc: nat, mcCount: Byte, vcCount: Byte, firstHeader: nat)

  function EncodeHeader(h: FrameHeader): (p: seq<Byte>)
    ensures |p| == FRAME_HEADER
  {
    var word0 := h.spacecraftId % 0x400 * 16 + h.vc % 8 * 2;
    var status := 0x1800 + h.firstHeader % 0x800;
    [word0 / 256, word0 % 256, h.mcCount, h.vcCount, status / 256, status % 256]
  }

  function DecodeHeader(f: seq<Byte>): (h: FrameHeader)
    requires |f| >= FRAME_HEADER
    ensures h.vc < CHANNELS
  {
    var a: int, b: int, c: int, d: int := f[0], f[1], f[4], f[5];
    var word0 := 256 * a + b;
    var status := 256 * c + d;
    FrameHeader(word0 / 16 % 0x400, word0 / 2 % 8, f[2], f[3], status % 0x800)
  }

  /** The header round trip; the frame version is zero. */
  lemma HeaderRoundTrip(h: FrameHeader, data: seq<Byte>)
    requires h.spacecraftId < 0x400 && h.vc < CHANNELS && h.firstHeader < 0x800
    ensures DecodeHeader(EncodeHeader(h) + data) == h && (EncodeHeader(h) + data)[0] / 64 == 0
  {
    FieldsOfWord(h.spacecraftId, h.vc);
    FieldsOfStatus(h.firstHeader);
  }

  lemma FieldsOfWord(s: nat, v: nat)
    requires s < 0x400 && v < 8
    ensures var w := s % 0x400 * 16 + v % 8 * 2;
            && w / 256 / 64 == 0
            && (256 * (w / 256) + w % 256) / 16 % 0x400 == s && (256 * (w / 256) + w % 256) / 2 % 8 == v
  {
    var w := s * 16 + v * 2;
    assert 256 * (w / 256) + w % 256 == w;
    assert w / 16 == s;
    assert w / 2 == s * 8 + v;
  }

  lemma FieldsOfStatus(fhp: nat)
    requires fhp < 0x800
    ensures var st := 0x1800 + fhp % 0x800; (256 * (st / 256) + st % 256) % 0x800 == fhp
  {
    var st := 0x1800 + fhp;
    assert 256 * (st / 256) + st % 256 == st;
  }

  /** The status word: no secondary header, synchronised by packets in forward order, and no segments; the frame
      counts in the two bytes before it. */
  lemma EncodedStatus(h: FrameHeader)
    ensures var p := EncodeHeader(h);
            p[4] / 8 == 3 && p[2] == h.mcCount && p[3] == h.vcCount && p[1] % 2 == 0
  {
  }
}
