/** The frame demultiplexer: its state as a value, the effect of a frame, and the class whose Push
    computes it. Delivered packets are recorded in the order the handler is called. */
module TmDemultiplexer {

  import opened Bytes
  import opened SpacePacket
  import opened TmFrame
  import opened TmStream
  import opened TmDemux

  datatype Stats = Stats(
    frames: nat, idleFrames: nat, wrongSpacecraft: nat, lostFrames: nat, resyncs: nat, packets: nat, idlePackets: nat)

  datatype Delivery = Delivery(vc: nat, packet: Packet)

  datatype State = State(scid: nat, channels: seq<Channel>, stats: Stats, delivered: seq<Delivery>)

  function Initial(scid: nat): State {
    State(scid, seq(CHANNELS, _ => Channel([], false, false, 0)), Stats(0, 0, 0, 0, 0, 0, 0), [])
  }

  function Deliveries(vc: nat, ps: seq<Packet>): seq<Delivery> {
    seq(|ps|, i requires 0 <= i < |ps| => Delivery(vc, ps[i]))
  }

  /** The data field and pointer of a frame. */
  function FieldOf(frame: seq<Byte>): DataField
    requires |frame| == FRAME_SIZE
  {
    DataField(TmFrame.DecodeHeader(frame).firstHeader, frame[FRAME_HEADER..])
  }

  ghost predicate Ok(s: State) {
    |s.channels| == CHANNELS && forall i :: 0 <= i < CHANNELS ==> ChannelOk(s.channels[i])
  }

  /** The effect of one frame. */
  function Pushed(s: State, frame: seq<Byte>): State
    requires |frame| == FRAME_SIZE && Ok(s)
  {
    var h := TmFrame.DecodeHeader(frame);
    var stats := s.stats.(frames := s.stats.frames + 1);
    if h.spacecraftId != s.scid || frame[0] / 64 != 0 then
      s.(stats := stats.(wrongSpacecraft := stats.wrongSpacecraft + 1))
    else if h.firstHeader == FHP_IDLE then
      s.(stats := stats.(idleFrames := stats.idleFrames + 1))
    else
      var o := PushField(s.channels[h.vc], h.vcCount, FieldOf(frame));
      State(s.scid, s.channels[h.vc := o.channel],
            stats.(lostFrames := stats.lostFrames + o.lost, resyncs := stats.resyncs + o.resyncs,
                   packets := stats.packets + |o.packets|, idlePackets := stats.idlePackets + o.idle),
            s.delivered + Deliveries(h.vc, o.packets))
  }

  lemma OkChannel(s: State, vc: nat)
    requires Ok(s) && vc < CHANNELS
    ensures s.channels[vc].expected < 256 && ChannelOk(s.channels[vc])
  {
  }

  /** Robustness: an arbitrary frame leaves every channel consistent, and whatever it makes the
      demultiplexer deliver is a well-formed packet of exactly its announced size. */
  lemma PushKeepsOk(s: State, frame: seq<Byte>)
    requires |frame| == FRAME_SIZE && Ok(s)
    ensures Ok(Pushed(s, frame))
    ensures s.delivered <= Pushed(s, frame).delivered
    ensures forall d :: d in Pushed(s, frame).delivered && d !in s.delivered ==>
              WellFormed(d.packet) && !IsIdle(d.packet)
  {
    hide PushField, ChannelOk, WellFormed, IsIdle, TmFrame.DecodeHeader;
    var h := TmFrame.DecodeHeader(frame);
    OkChannel(s, h.vc);
    ChannelIsRobust(s.channels[h.vc], h.vcCount, FieldOf(frame));
    DeliverAll(h.vc, PushField(s.channels[h.vc], h.vcCount, FieldOf(frame)).packets);
  }

  lemma DeliverAll(vc: nat, ps: seq<Packet>)
    requires forall p :: p in ps ==> WellFormed(p) && !IsIdle(p)
    ensures forall d :: d in Deliveries(vc, ps) ==> WellFormed(d.packet) && !IsIdle(d.packet)
  {
    hide WellFormed, IsIdle;
  }

  class FrameDemultiplexer {
    const scid: nat
    var channels: array<Channel>
    var stats: Stats
    var delivered: seq<Delivery>

    constructor (scid: nat)
      ensures Valid() && fresh(channels) && View() == Initial(scid)
    {
      this.scid := scid;
      channels := new Channel[CHANNELS](_ => Channel([], false, false, 0));
      stats := Stats(0, 0, 0, 0, 0, 0, 0);
      delivered := [];
      new;
      assert channels[..] == Initial(scid).channels;
    }

    ghost function View(): State
      reads this, channels
    {
      State(scid, channels[..], stats, delivered)
    }

    ghost predicate Valid()
      reads this, channels
    {
      Ok(View())
    }

    /** Takes complete packets off a channel's buffer and hands them over. */
    method ExtractPackets(vc: nat, channel: Channel) returns (ch: Channel)
      modifies this`stats, this`delivered
      ensures var x := Extract(channel.buffer);
              && ch == channel.(buffer := x.rest, synced := x.synced && channel.synced)
              && delivered == old(delivered) + Deliveries(vc, x.packets)
              && stats == old(stats).(resyncs := old(stats.resyncs) + (if x.synced then 0 else 1),
                                      packets := old(stats.packets) + |x.packets|,
                                      idlePackets := old(stats.idlePackets) + x.idle)
    {
      hide PacketSize, SpacePacket.DecodeHeader, Version, Extract, Deliveries;
      DeliverNone(vc);
      ch := channel;
      ghost var x := Extract(ch.buffer);
      ghost var out: seq<Packet> := [];
      ghost var idle := 0;
      assert [] + x.packets == x.packets;
      while |ch.buffer| >= HEADER_SIZE
        invariant ch == channel.(buffer := ch.buffer)
        invariant delivered == old(delivered) + Deliveries(vc, out)
        invariant var more := Extract(ch.buffer);
                  x.packets == out + more.packets && x.rest == more.rest && x.synced == more.synced &&
                  x.idle == idle + more.idle
        invariant stats == old(stats).(packets := old(stats.packets) + |out|,
                                       idlePackets := old(stats.idlePackets) + idle)
        decreases |ch.buffer|
      {
        ExtractUnfolds(ch.buffer);
        var h := SpacePacket.DecodeHeader(ch.buffer);
        var size := PacketSize(h);
        if size > MAX_PACKET || Version(ch.buffer) != 0 {
          assert x.packets == out;
          ch := ch.(buffer := [], synced := false);
          stats := stats.(resyncs := stats.resyncs + 1);
          return;
        }
        if |ch.buffer| < size {
          assert x.packets == out;
          return;
        }
        ghost var packet := ch.buffer[..size];
        HandOver(vc, ch.buffer[..size], h.apid == IDLE_APID);
        if h.apid == IDLE_APID {
          idle := idle + 1;
        } else {
          DeliverOne(vc, out, packet);
          out := out + [packet];
        }
        ch := ch.(buffer := ch.buffer[size..]);
      }
      ExtractUnfolds(ch.buffer);
      assert x.packets == out;
    }

    /** Hands over a complete packet, unless it is idle. */
    method HandOver(vc: nat, packet: Packet, idle: bool)
      modifies this`stats, this`delivered
      ensures delivered == old(delivered) + if idle then [] else [Delivery(vc, packet)]
      ensures stats == if idle then old(stats).(idlePackets := old(stats.idlePackets) + 1)
                       else old(stats).(packets := old(stats.packets) + 1)
    {
      if idle {
        stats := stats.(idlePackets := stats.idlePackets + 1);
      } else {
        stats := stats.(packets := stats.packets + 1);
        delivered := delivered + [Delivery(vc, packet)];
      }
    }

    static lemma DeliverNone(vc: nat)
      ensures Deliveries(vc, []) == []
    {
    }

    static lemma DeliverOne(vc: nat, ps: seq<Packet>, p: Packet)
      ensures Deliveries(vc, ps + [p]) == Deliveries(vc, ps) + [Delivery(vc, p)]
    {
    }

    /** One round of the extraction loop. */
    static lemma ExtractUnfolds(buffer: seq<Byte>)
      ensures |buffer| < HEADER_SIZE ==> Extract(buffer) == Extracted(buffer, true, [], 0)
      ensures |buffer| >= HEADER_SIZE ==>
                var h := SpacePacket.DecodeHeader(buffer);
                var size := PacketSize(h);
                && size > 0
                && var x := Extract(buffer);
                   if size > MAX_PACKET || Version(buffer) != 0 then x == Extracted([], false, [], 0)
                   else if |buffer| < size then x == Extracted(buffer, true, [], 0)
                   else
                     var more := Extract(buffer[size..]);
                     if h.apid == IDLE_APID then x == more.(idle := more.idle + 1)
                     else x == more.(packets := [buffer[..size]] + more.packets)
    {
    }

    /** Takes one received frame. */
    method Push(frame: seq<Byte>)
      requires Valid() && |frame| == FRAME_SIZE
      modifies this, channels
      ensures Valid() && channels == old(channels) && View() == Pushed(old(View()), frame)
    {
      hide Extract, ChannelOk, TmFrame.DecodeHeader, Lacking;
      PushKeepsOk(View(), frame);
      stats := stats.(frames := stats.frames + 1);
      var h := TmFrame.DecodeHeader(frame);
      if h.spacecraftId != scid || frame[0] / 64 != 0 {
        stats := stats.(wrongSpacecraft := stats.wrongSpacecraft + 1);
        return;
      }
      if h.firstHeader == FHP_IDLE {
        stats := stats.(idleFrames := stats.idleFrames + 1);
        return;
      }
      OkChannel(View(), h.vc);
      PushToChannel(h.vc, h.vcCount, FieldOf(frame));
    }

    /** What a data field does to its channel. */
    method PushToChannel(vc: nat, vcCount: nat, f: DataField)
      requires vc < channels.Length == CHANNELS && vcCount < 256 && |f.data| == DATA_SIZE
      requires channels[vc].expected < 256
      modifies this`stats, this`delivered, channels
      ensures var o := PushField(old(channels[vc]), vcCount, f);
              && channels[..] == old(channels[..])[vc := o.channel]
              && delivered == old(delivered) + Deliveries(vc, o.packets)
              && stats == old(stats).(lostFrames := old(stats.lostFrames) + o.lost,
                                      resyncs := old(stats.resyncs) + o.resyncs,
                                      packets := old(stats.packets) + |o.packets|,
                                      idlePackets := old(stats.idlePackets) + o.idle)
    {
      hide Extract, Lacking;
      var ch := channels[vc];
      if ch.haveCount && vcCount != ch.expected {
        stats := stats.(lostFrames := stats.lostFrames + (vcCount - ch.expected) % 256);
        if ch.buffer != [] { stats := stats.(resyncs := stats.resyncs + 1); }
        ch := ch.(buffer := [], synced := false);
      }
      ch := ch.(haveCount := true, expected := (vcCount + 1) % 256);
      if f.fhp != FHP_NONE && f.fhp >= DATA_SIZE {
        channels[vc] := ch.(buffer := [], synced := false);
        return;
      }
      if !ch.synced {
        if f.fhp == FHP_NONE {
          channels[vc] := ch;
          return;
        }
        ch := ch.(buffer := f.data[f.fhp..], synced := true);
      } else if f.fhp != FHP_NONE && |ch.buffer| >= HEADER_SIZE && Lacking(ch.buffer) != f.fhp {
        stats := stats.(resyncs := stats.resyncs + 1);
        ch := ch.(buffer := f.data[f.fhp..]);
      } else {
        ch := ch.(buffer := ch.buffer + f.data);
      }
      ch := ExtractPackets(vc, ch);
      channels[vc] := ch;
    }
  }
}
