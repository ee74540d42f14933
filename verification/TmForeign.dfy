/** What the demultiplexer makes of frames it did not expect: frames of another spacecraft, idle frames,
    pointers that contradict what is buffered, and data that is no packet at all. */
module TmForeign {

  import opened Arith
  import opened Bytes
  import opened SpacePacket
  import opened TmFrame
  import opened TmStream
  import opened TmDemux
  import opened TmDemultiplexer
  import Mux = TmMux
  import Link = TmLink

  // ---- Frames that are not for a channel ----

  /** The spacecraft identifier in the ten bits behind the frame version. */
  function SpacecraftBits(frame: seq<Byte>): nat
    requires |frame| == FRAME_SIZE
  {
    var a: int, b: int := frame[0], frame[1];
    a % 64 * 16 + b / 16
  }

  /** Another frame version than 0, or another spacecraft. */
  predicate Foreign(scid: nat, frame: seq<Byte>)
    requires |frame| == FRAME_SIZE
  {
    frame[0] / 64 != 0 || SpacecraftBits(frame) != scid
  }

  /** The first-header pointer in the last eleven bits of the header. */
  function PointerBits(frame: seq<Byte>): nat
    requires |frame| == FRAME_SIZE
  {
    var c: int, d: int := frame[4], frame[5];
    c % 8 * 256 + d
  }

  /** The virtual channel in the three bits above the last one of the first two bytes. */
  function ChannelBits(frame: seq<Byte>): nat
    requires |frame| == FRAME_SIZE
  {
    frame[1] / 2 % 8
  }

  /** Where the fields of a frame header are. */
  lemma HeaderPlaces(frame: seq<Byte>)
    requires |frame| == FRAME_SIZE
    ensures var h := TmFrame.DecodeHeader(frame);
            && h.spacecraftId == SpacecraftBits(frame) && h.vc == ChannelBits(frame)
            && h.mcCount == frame[2] && h.vcCount == frame[3] && h.firstHeader == PointerBits(frame)
  {
    WordPlaces(frame[0], frame[1]);
    StatusPlaces(frame[4], frame[5]);
  }

  lemma WordPlaces(a: int, b: int)
    requires 0 <= a < 256 && 0 <= b < 256
    ensures (256 * a + b) / 16 % 0x400 == a % 64 * 16 + b / 16 && (256 * a + b) / 2 % 8 == b / 2 % 8
  {
    QuotientsOfWord(a, b);
    RemainderIsUnique(16 * a + b / 16, 0x400, a / 64, a % 64 * 16 + b / 16);
    RemainderIsUnique(128 * a + b / 2, 8, 16 * a + b / 2 / 8, b / 2 % 8);
  }

  lemma QuotientsOfWord(a: nat, b: nat)
    ensures (256 * a + b) / 16 == 16 * a + b / 16 && (256 * a + b) / 2 == 128 * a + b / 2
  {
  }

  lemma StatusPlaces(c: int, d: int)
    requires 0 <= c < 256 && 0 <= d < 256
    ensures (256 * c + d) % 0x800 == c % 8 * 256 + d
  {
    RemainderIsUnique(256 * c + d, 0x800, c / 8, c % 8 * 256 + d);
  }

  /** A frame of another spacecraft or version is counted as such and changes nothing else. */
  lemma ForeignOnlyCounts(s: State, frame: seq<Byte>)
    requires |frame| == FRAME_SIZE && Ok(s) && Foreign(s.scid, frame)
    ensures Pushed(s, frame)
         == s.(stats := s.stats.(frames := s.stats.frames + 1, wrongSpacecraft := s.stats.wrongSpacecraft + 1))
  {
    hide TmFrame.DecodeHeader;
    HeaderPlaces(frame);
  }

  /** So is an idle frame. */
  lemma IdleOnlyCounts(s: State, frame: seq<Byte>)
    requires |frame| == FRAME_SIZE && Ok(s) && !Foreign(s.scid, frame) && PointerBits(frame) == 0x7FE
    ensures Pushed(s, frame)
         == s.(stats := s.stats.(frames := s.stats.frames + 1, idleFrames := s.stats.idleFrames + 1))
  {
    hide TmFrame.DecodeHeader;
    HeaderPlaces(frame);
  }

  /** Every other frame acts on its own channel only, delivers on that channel, and adds what it delivered to the
      counter of packets. */
  lemma OwnActsOnItsChannel(s: State, frame: seq<Byte>)
    requires |frame| == FRAME_SIZE && Ok(s) && !Foreign(s.scid, frame) && PointerBits(frame) != 0x7FE
    ensures var r, vc := Pushed(s, frame), ChannelBits(frame);
            && vc < CHANNELS && s.channels[vc].expected < 256
            && var f := DataField(PointerBits(frame), frame[FRAME_HEADER..]);
               var o := PushField(s.channels[vc], frame[3] as int, f);
               && r.channels == s.channels[vc := o.channel] && r.delivered == s.delivered + Deliveries(vc, o.packets)
               && r.stats == s.stats.(frames := s.stats.frames + 1, lostFrames := s.stats.lostFrames + o.lost,
                                      resyncs := s.stats.resyncs + o.resyncs, packets := s.stats.packets + |o.packets|,
                                      idlePackets := s.stats.idlePackets + o.idle)
  {
    hide TmFrame.DecodeHeader, PushField;
    HeaderPlaces(frame);
    OkChannel(s, ChannelBits(frame));
  }

  // ---- Streams with foreign frames mixed in ----

  /** The frames of a stream that are the receiver's. */
  function Own(scid: nat, frames: seq<Link.Frame>): (r: seq<Link.Frame>) {
    if frames == [] then []
    else
      var last := frames[|frames| - 1];
      Own(scid, frames[..|frames| - 1]) + (if Foreign(scid, last) then [] else [last])
  }

  /** Which of those arrived. */
  function OwnMask(scid: nat, frames: seq<Link.Frame>, mask: seq<bool>): (r: seq<bool>)
    requires |mask| == |frames|
    ensures |r| == |Own(scid, frames)|
  {
    if frames == [] then []
    else
      var n := |frames| - 1;
      OwnMask(scid, frames[..n], mask[..n]) + (if Foreign(scid, frames[n]) then [] else [mask[n]])
  }

  /** How many foreign frames arrived. */
  function ForeignArrived(scid: nat, frames: seq<Link.Frame>, mask: seq<bool>): nat
    requires |mask| == |frames|
  {
    if frames == [] then 0
    else
      var n := |frames| - 1;
      ForeignArrived(scid, frames[..n], mask[..n]) + (if mask[n] && Foreign(scid, frames[n]) then 1 else 0)
  }

  /** The same but for n more frames, all of them foreign. */
  ghost predicate SameButForeign(a: State, b: State, n: nat) {
    a == b.(stats := b.stats.(frames := b.stats.frames + n, wrongSpacecraft := b.stats.wrongSpacecraft + n))
  }

  /** Frames of other spacecraft, wherever they are mixed into a stream, change nothing but the two counters: channels,
      deliveries and all other counters are those of the stream without them. */
  lemma {:induction false} ForeignFramesAreInvisible(scid: nat, frames: seq<Link.Frame>, mask: seq<bool>)
    requires |mask| == |frames|
    ensures SameButForeign(Link.Receive(scid, frames, mask),
                           Link.Receive(scid, Own(scid, frames), OwnMask(scid, frames, mask)),
                           ForeignArrived(scid, frames, mask))
  {
    hide Pushed, Ok, Foreign;
    if frames != [] {
      var n := |frames| - 1;
      var f := frames[n];
      ForeignFramesAreInvisible(scid, frames[..n], mask[..n]);
      var own, ownMask := Own(scid, frames[..n]), OwnMask(scid, frames[..n], mask[..n]);
      var a, b := Link.Receive(scid, frames[..n], mask[..n]), Link.Receive(scid, own, ownMask);
      if Foreign(scid, f) {
        assert own + [] == own && ownMask + [] == ownMask;
        if mask[n] { ForeignOnlyCounts(a, f); }
      } else {
        ReceiveOneMore(scid, own, ownMask, f, mask[n]);
        if mask[n] { PushedAlike(a, b, f, ForeignArrived(scid, frames[..n], mask[..n])); }
      }
    }
  }

  lemma ReceiveOneMore(scid: nat, frames: seq<Link.Frame>, mask: seq<bool>, f: Link.Frame, arrived: bool)
    requires |mask| == |frames|
    ensures Link.Receive(scid, frames + [f], mask + [arrived])
         == if arrived then Pushed(Link.Receive(scid, frames, mask), f) else Link.Receive(scid, frames, mask)
  {
    hide Pushed, Ok;
    assert (frames + [f])[..|frames|] == frames && (mask + [arrived])[..|mask|] == mask;
  }

  lemma PushedAlike(a: State, b: State, f: Link.Frame, n: nat)
    requires Ok(a) && Ok(b) && SameButForeign(a, b, n)
    ensures SameButForeign(Pushed(a, f), Pushed(b, f), n)
  {
    hide PushField, Ok, TmFrame.DecodeHeader;
    OkChannel(a, TmFrame.DecodeHeader(f).vc);
  }

  /** The counter of packets is the number of packets delivered, and every frame is counted. */
  lemma {:induction false} CountersAgree(scid: nat, frames: seq<Link.Frame>, mask: seq<bool>)
    requires |mask| == |frames|
    ensures var d := Link.Receive(scid, frames, mask);
            d.stats.packets == |d.delivered| && d.stats.wrongSpacecraft == ForeignArrived(scid, frames, mask)
  {
    hide Pushed, Ok, Foreign;
    if frames != [] {
      var n := |frames| - 1;
      CountersAgree(scid, frames[..n], mask[..n]);
      if mask[n] { CountsOne(Link.Receive(scid, frames[..n], mask[..n]), frames[n]); }
    }
  }

  lemma CountsOne(s: State, frame: Link.Frame)
    requires Ok(s)
    ensures var r := Pushed(s, frame);
            && r.stats.packets - |r.delivered| == s.stats.packets - |s.delivered|
            && r.stats.wrongSpacecraft == s.stats.wrongSpacecraft + if Foreign(s.scid, frame) then 1 else 0
  {
    hide PushField, Ok, Foreign, TmFrame.DecodeHeader, Pushed;
    if Foreign(s.scid, frame) {
      ForeignOnlyCounts(s, frame);
    } else if PointerBits(frame) == 0x7FE {
      IdleOnlyCounts(s, frame);
    } else {
      OwnActsOnItsChannel(s, frame);
    }
  }

  // ---- Arbitrary data ----

  /** Extraction cuts any buffer into packets: the complete ones at its front, and behind them either the
      beginning of another or, when synchronisation is lost, bytes that begin no acceptable packet. */
  ghost predicate Cut(buffer: seq<Byte>, ps: seq<Packet>, tail: seq<Byte>, x: Extracted) {
    && AllWellFormed(ps) && buffer == Concat(ps) + tail
    && x.packets == Mux.NonIdle(ps) && x.idle == |ps| - |x.packets|
    && if x.synced then x.rest == tail && BufferOk(tail) else x.rest == [] && Malformed(tail)
  }

  /** A header with another packet version than 0 or a size above 4096. */
  predicate Malformed(b: seq<Byte>) {
    |b| >= HEADER_SIZE && (b[0] / 32 != 0 || 7 + BigEndian16(b, 4) > 4096)
  }

  lemma {:induction false} ExtractCuts(buffer: seq<Byte>) returns (ps: seq<Packet>, tail: seq<Byte>)
    ensures Cut(buffer, ps, tail, Extract(buffer))
    decreases |buffer|
  {
    hide SpacePacket.DecodeHeader, BigEndian16, AllWellFormed, Concat, Mux.NonIdle;
    NoPackets();
    if |buffer| < HEADER_SIZE {
      ps, tail := [], buffer;
    } else {
      SizeOfHeader(buffer);
      var size := PacketSize(SpacePacket.DecodeHeader(buffer));
      if size > MAX_PACKET || Version(buffer) != 0 || |buffer| < size {
        ps, tail := [], buffer;
      } else {
        ps, tail := ExtractCuts(buffer[size..]);
        FirstPacket(buffer, size, ps, tail);
        ps := [buffer[..size]] + ps;
      }
    }
  }

  lemma NoPackets()
    ensures AllWellFormed([]) && Concat([]) == [] && Mux.NonIdle([]) == []
  {
  }

  lemma SizeOfHeader(b: seq<Byte>)
    requires |b| >= HEADER_SIZE
    ensures PacketSize(SpacePacket.DecodeHeader(b)) == 7 + BigEndian16(b, 4)
  {
  }

  lemma FirstPacket(buffer: seq<Byte>, size: nat, ps: seq<Packet>, tail: seq<Byte>)
    requires |buffer| >= HEADER_SIZE && size == PacketSize(SpacePacket.DecodeHeader(buffer)) <= |buffer|
    requires size <= MAX_PACKET && Version(buffer) == 0
    requires Cut(buffer[size..], ps, tail, Extract(buffer[size..]))
    ensures Cut(buffer, [buffer[..size]] + ps, tail, Extract(buffer))
  {
    hide SpacePacket.DecodeHeader, Cut, IsIdle;
    FirstExtracted(buffer, size);
    var p := buffer[..size];
    assert buffer == p + buffer[size..];
    var y := Extract(buffer[size..]);
    CutOneMore(p, buffer[size..], ps, tail, y);
  }

  lemma FirstExtracted(buffer: seq<Byte>, size: nat)
    requires |buffer| >= HEADER_SIZE && size == PacketSize(SpacePacket.DecodeHeader(buffer)) <= |buffer|
    requires size <= MAX_PACKET && Version(buffer) == 0
    ensures WellFormed(buffer[..size])
    ensures var y := Extract(buffer[size..]);
            Extract(buffer) == if IsIdle(buffer[..size]) then y.(idle := y.idle + 1)
                               else y.(packets := [buffer[..size]] + y.packets)
  {
    hide SpacePacket.DecodeHeader;
    HeaderOfPrefix(buffer, buffer[..size]);
  }

  lemma CutOneMore(p: Packet, buffer: seq<Byte>, ps: seq<Packet>, tail: seq<Byte>, y: Extracted)
    requires WellFormed(p) && Cut(buffer, ps, tail, y)
    ensures Cut(p + buffer, [p] + ps, tail,
                if IsIdle(p) then y.(idle := y.idle + 1) else y.(packets := [p] + y.packets))
  {
    hide WellFormed, IsIdle, BufferOk, Malformed, Concat, Mux.NonIdle;
    ConcatAppend([p], ps);
    SingleConcat(p);
    NonIdleOne(p);
    NonIdleAppend([p], ps);
    assert p + (Concat(ps) + tail) == p + Concat(ps) + tail;
  }

  lemma NonIdleOne(p: Packet)
    requires WellFormed(p)
    ensures AllWellFormed([p])
    ensures Mux.NonIdle([p]) == if IsIdle(p) then [] else [p]
  {
    hide IsIdle;
    assert [p][..0] == [];
    assert Mux.NonIdle([]) == [];
  }

  lemma {:induction false} NonIdleAppend(ps: seq<Packet>, qs: seq<Packet>)
    requires AllWellFormed(ps) && AllWellFormed(qs)
    ensures AllWellFormed(ps + qs) && Mux.NonIdle(ps + qs) == Mux.NonIdle(ps) + Mux.NonIdle(qs)
  {
    hide WellFormed, IsIdle;
    if qs == [] {
      assert ps + qs == ps;
    } else {
      assert (ps + qs)[..|ps + qs| - 1] == ps + qs[..|qs| - 1];
      NonIdleAppend(ps, qs[..|qs| - 1]);
    }
  }

  // ---- Pointers ----

  /** Frames of the channel are missing in front of this one. */
  predicate Gap(ch: Channel, vcCount: nat) {
    ch.haveCount && vcCount != ch.expected
  }

  /** A pointer behind the data field costs the synchronisation. */
  lemma ImpossiblePointer(ch: Channel, vcCount: nat, f: DataField)
    requires ChannelOk(ch) && vcCount < 256 && |f.data| == DATA_SIZE && DATA_SIZE <= f.fhp != FHP_NONE
    ensures var o := PushField(ch, vcCount, f);
            o.channel == Channel([], false, true, (vcCount + 1) % 256) && o.packets == [] && o.idle == 0
  {
  }

  /** Behind a gap or out of synchronisation nothing is delivered until a packet starts. */
  lemma WaitsForStart(ch: Channel, vcCount: nat, f: DataField)
    requires ChannelOk(ch) && vcCount < 256 && |f.data| == DATA_SIZE && f.fhp == FHP_NONE
    requires Gap(ch, vcCount) || !ch.synced
    ensures var o := PushField(ch, vcCount, f);
            o.channel == Channel([], false, true, (vcCount + 1) % 256) && o.packets == [] && o.idle == 0
  {
  }

  /** The packet in progress ends at the first-header offset of the field. */
  predicate EndsAtPointer(ch: Channel, vcCount: nat, f: DataField) {
    && !Gap(ch, vcCount) && ch.synced && |ch.buffer| >= HEADER_SIZE
    && |ch.buffer| + f.fhp == 7 + BigEndian16(ch.buffer, 4)
  }

  /** A first-header pointer resynchronises: unless less than a header is buffered, the channel afterwards does not
      depend on what was buffered. It is what the data from that offset on leave behind; what they deliver is
      delivered, behind the packet in progress if and only if that ends there. */
  lemma PointerResynchronises(ch: Channel, vcCount: nat, f: DataField)
    requires ChannelOk(ch) && vcCount < 256 && |f.data| == DATA_SIZE && f.fhp < DATA_SIZE
    requires Gap(ch, vcCount) || !ch.synced || |ch.buffer| >= HEADER_SIZE
    ensures var o, x := PushField(ch, vcCount, f), Extract(f.data[f.fhp..]);
            && o.channel == Channel(x.rest, x.synced, true, (vcCount + 1) % 256)
            && var ended := ch.buffer + f.data[..f.fhp];
               if EndsAtPointer(ch, vcCount, f) then
                 && WellFormed(ended)
                 && o.packets == (if IsIdle(ended) then [] else [ended]) + x.packets
               else o.packets == x.packets
  {
    hide Extract, SpacePacket.DecodeHeader, BigEndian16;
    if EndsAtPointer(ch, vcCount, f) {
      SizeOfHeader(ch.buffer);
      FinishAtPointer(ch.buffer, f.data, f.fhp);
    } else if |ch.buffer| >= HEADER_SIZE {
      SizeOfHeader(ch.buffer);
    }
  }

  lemma FinishAtPointer(buffer: seq<Byte>, data: seq<Byte>, at: nat)
    requires HEADER_SIZE <= |buffer| && at <= |data| && BufferOk(buffer) && Lacking(buffer) == at
    ensures var ended, x, y := buffer + data[..at], Extract(data[at..]), Extract(buffer + data);
            && WellFormed(ended) && y.rest == x.rest && y.synced == x.synced
            && y.packets == (if IsIdle(ended) then [] else [ended]) + x.packets
  {
    hide SpacePacket.DecodeHeader;
    var ended := buffer + data[..at];
    assert (buffer + data)[..|ended|] == ended && (buffer + data)[|ended|..] == data[at..];
    assert ended[..HEADER_SIZE] == buffer[..HEADER_SIZE] == (buffer + data)[..HEADER_SIZE];
    HeaderOfPrefix(buffer, ended);
    HeaderOfPrefix(buffer, buffer + data);
  }

  /** With less than a header buffered the first-header pointer is not looked at. */
  lemma PointerIsIgnored(ch: Channel, vcCount: nat, f: DataField, fhp: nat)
    requires ChannelOk(ch) && vcCount < 256 && |f.data| == DATA_SIZE && f.fhp < DATA_SIZE && fhp < DATA_SIZE
    requires !Gap(ch, vcCount) && ch.synced && |ch.buffer| < HEADER_SIZE
    ensures PushField(ch, vcCount, f) == PushField(ch, vcCount, f.(fhp := fhp))
  {
    hide Extract;
  }

  /** What counts as a resynchronisation: bytes dropped at a gap, a pointer that contradicts the packet in progress,
      and bytes that begin no packet. */
  lemma ResyncsAre(ch: Channel, vcCount: nat, f: DataField)
    requires ChannelOk(ch) && vcCount < 256 && |f.data| == DATA_SIZE && f.fhp < DATA_SIZE
    requires Gap(ch, vcCount) || !ch.synced || |ch.buffer| >= HEADER_SIZE
    ensures PushField(ch, vcCount, f).resyncs
         == BitWeight(Gap(ch, vcCount) && ch.buffer != [], 1)
            + BitWeight(!Gap(ch, vcCount) && ch.synced && !EndsAtPointer(ch, vcCount, f), 1)
            + BitWeight(!Extract(f.data[f.fhp..]).synced, 1)
  {
    hide Extract, SpacePacket.DecodeHeader, BigEndian16;
    if |ch.buffer| >= HEADER_SIZE { SizeOfHeader(ch.buffer); }
    if EndsAtPointer(ch, vcCount, f) { FinishAtPointer(ch.buffer, f.data, f.fhp); }
  }
}
