/** Multiplexer, lossy link and demultiplexer together: any sequence of enqueued packets and frames, any
    pattern of lost frames, and exactly what arrives on each virtual channel. */
module TmLink {

  import opened Bytes
  import opened TmFrame
  import opened TmStream
  import Mux = TmMux
  import Multiplexer = TmMultiplexer
  import Demux = TmDemux
  import Demultiplexer = TmDemultiplexer

  type Frame = f: seq<Byte> | |f| == FRAME_SIZE witness seq(FRAME_SIZE, _ => 0)

  // ---- The sending side over time ----

  datatype Event = Enqueue(vc: nat, packet: Packet) | Emit

  /** The multiplexer, every frame it sent, and per channel its history and the packets accepted. */
  datatype Sender = Sender(mux: Multiplexer.State, frames: seq<Frame>, histories: seq<Mux.History>,
                           accepted: seq<seq<Packet>>)

  function Start(scid: nat, queueLimit: nat): Sender {
    Sender(Multiplexer.Initial(scid, queueLimit), [], seq(CHANNELS, _ => Mux.History([], [], [])),
           seq(CHANNELS, _ => []))
  }

  function Step(s: Sender, e: Event): Sender
    requires Multiplexer.Ok(s.mux) && |s.histories| == |s.accepted| == CHANNELS
  {
    match e
    case Enqueue(vc, packet) =>
      var (mux, ok) := Multiplexer.Enqueued(s.mux, vc, packet);
      s.(mux := mux, accepted := if ok then s.accepted[vc := s.accepted[vc] + [packet]] else s.accepted)
    case Emit =>
      var (mux, frame) := Multiplexer.Next(s.mux);
      var vc := Multiplexer.Chosen(s.mux.channels);
      s.(mux := mux, frames := s.frames + [frame],
         histories := if vc == IDLE_VC then s.histories
                      else s.histories[vc := Mux.After(s.histories[vc], Mux.NextField(s.mux.channels[vc]))])
  }

  function ChannelOf(f: Frame): (vc: nat)
    ensures vc < CHANNELS
  {
    TmFrame.DecodeHeader(f).vc
  }

  /** The data fields of one channel among the frames. */
  function FieldsOn(frames: seq<Frame>, vc: nat): (fields: seq<DataField>)
    ensures Demux.FullFields(fields)
  {
    if frames == [] then []
    else
      var last := frames[|frames| - 1];
      FieldsOn(frames[..|frames| - 1], vc) + (if ChannelOf(last) == vc then [Demultiplexer.FieldOf(last)] else [])
  }

  /** A frame as the receiver must see it: right spacecraft and version, idle exactly on channel 7, and
      on the others the count of the frames sent before on its channel. */
  ghost predicate FrameOk(scid: nat, before: seq<Frame>, f: Frame) {
    var h := TmFrame.DecodeHeader(f);
    && h.spacecraftId == scid && f[0] / 64 == 0
    && (h.vc == IDLE_VC <==> h.firstHeader == FHP_IDLE)
    && (h.vc != IDLE_VC ==> h.vcCount == |FieldsOn(before, h.vc)| % 256)
  }

  ghost predicate FramesOk(scid: nat, frames: seq<Frame>) {
    forall n :: 0 <= n < |frames| ==> FrameOk(scid, frames[..n], frames[n])
  }

  ghost predicate Inv(s: Sender) {
    && Multiplexer.Ok(s.mux) && |s.histories| == |s.accepted| == CHANNELS
    && FramesOk(s.mux.scid, s.frames)
    && forall vc :: 0 <= vc < IDLE_VC ==> ChannelInv(s, vc)
  }

  /** What a channel put on the air is its history, and the history conserves what was accepted. */
  ghost predicate ChannelInv(s: Sender, vc: nat)
    requires vc < CHANNELS && |s.mux.channels| == |s.histories| == |s.accepted| == CHANNELS
  {
    && Mux.Conserves(s.mux.channels[vc], s.histories[vc], s.accepted[vc])
    && FieldsOn(s.frames, vc) == s.histories[vc].fields
  }

  lemma StartIsInv(scid: nat, queueLimit: nat)
    requires scid < 0x400
    ensures Inv(Start(scid, queueLimit))
  {
    Multiplexer.InitialIsOk(scid, queueLimit);
    var s := Start(scid, queueLimit);
    forall vc | 0 <= vc < IDLE_VC
      ensures ChannelInv(s, vc)
    {
      assert Concat([]) == [];
      assert Mux.Genuine([], []) + [] == [];
    }
  }

  lemma EnqueueKeepsInv(s: Sender, vc: nat, packet: Packet)
    requires Inv(s)
    ensures Inv(Step(s, Enqueue(vc, packet)))
  {
    hide FramesOk, Multiplexer.Ok, Mux.Conserves, FieldsOn;
    var t := Step(s, Enqueue(vc, packet));
    OkSize(s.mux);
    Multiplexer.EnqueueKeepsOk(s.mux, vc, packet);
    forall k | 0 <= k < IDLE_VC
      ensures ChannelInv(t, k)
    {
      assert ChannelInv(s, k);
      if k == vc && t.accepted != s.accepted {
        Mux.EnqueueConserves(s.mux.channels[k], s.histories[k], s.accepted[k], packet);
      }
    }
  }

  lemma OkSize(m: Multiplexer.State)
    requires Multiplexer.Ok(m)
    ensures |m.channels| == CHANNELS && m.scid < 0x400
  {
  }

  /** The frame just sent, read back. */
  lemma SentHeader(m: Multiplexer.State)
    requires Multiplexer.Ok(m)
    ensures var (mux, frame) := Multiplexer.Next(m);
            var vc := Multiplexer.Chosen(m.channels);
            && |frame| == FRAME_SIZE && frame[0] / 64 == 0
            && var h := TmFrame.DecodeHeader(frame);
               && h.spacecraftId == m.scid && h.vc == vc && h.vcCount == m.channels[vc].count
               && (vc == IDLE_VC <==> h.firstHeader == FHP_IDLE)
               && (vc != IDLE_VC ==> Demultiplexer.FieldOf(frame) == Mux.NextField(m.channels[vc]).field)
  {
    hide TmFrame.EncodeHeader, TmFrame.DecodeHeader, Mux.Fill;
    var vc := Multiplexer.Chosen(m.channels);
    var ch := m.channels[vc];
    if vc == IDLE_VC {
      TmFrame.HeaderRoundTrip(FrameHeader(m.scid, vc, m.mcCount, ch.count, FHP_IDLE), seq(DATA_SIZE, _ => 0x55));
    } else {
      var e := Mux.NextField(ch);
      PointerRange(ch);
      TmFrame.HeaderRoundTrip(FrameHeader(m.scid, vc, m.mcCount, ch.count, e.field.fhp), e.field.data);
      assert Multiplexer.Next(m).1[FRAME_HEADER..] == e.field.data;
    }
  }

  lemma PointerRange(ch: Mux.Channel)
    requires Mux.QueueOk(ch.queue)
    ensures Mux.NextField(ch).field.fhp != FHP_IDLE && Mux.NextField(ch).field.fhp < 0x800
  {
    hide Mux.Fill;
  }

  lemma EmitKeepsInv(s: Sender)
    requires Inv(s)
    ensures Inv(Step(s, Emit))
  {
    hide Multiplexer.Ok, Mux.Conserves, Mux.NextField, TmFrame.DecodeHeader, Multiplexer.Chosen, Demultiplexer.FieldOf;
    OkSize(s.mux);
    Multiplexer.NextKeepsOk(s.mux);
    SentHeader(s.mux);
    var t := Step(s, Emit);
    var vc := Multiplexer.Chosen(s.mux.channels);
    var frame := Multiplexer.Next(s.mux).1;
    assert t.frames[..|s.frames|] == s.frames;
    if vc != IDLE_VC {
      assert ChannelInv(s, vc);
      CountIs(s.mux.channels[vc], s.histories[vc], s.accepted[vc]);
      Mux.NextFieldConserves(s.mux.channels[vc], s.histories[vc], s.accepted[vc]);
    }
    assert FrameOk(s.mux.scid, s.frames, frame);
    FramesOkAppend(s.mux.scid, s.frames, frame);
    forall k | 0 <= k < IDLE_VC
      ensures ChannelInv(t, k)
    {
      assert ChannelInv(s, k);
    }
  }

  lemma CountIs(ch: Mux.Channel, h: Mux.History, accepted: seq<Packet>)
    requires Mux.Conserves(ch, h, accepted)
    ensures ch.count == |h.fields| % 256 && Mux.QueueOk(ch.queue)
  {
  }

  lemma FramesOkAppend(scid: nat, frames: seq<Frame>, f: Frame)
    requires FramesOk(scid, frames) && FrameOk(scid, frames, f)
    ensures FramesOk(scid, frames + [f])
  {
    hide FrameOk;
    forall n | 0 <= n < |frames + [f]|
      ensures FrameOk(scid, (frames + [f])[..n], (frames + [f])[n])
    {
      if n < |frames| {
        assert (frames + [f])[..n] == frames[..n];
      } else {
        assert (frames + [f])[..n] == frames;
      }
    }
  }

  /** The sender after any sequence of events. */
  ghost function Run(s: Sender, events: seq<Event>): (r: Sender)
    requires Inv(s)
    ensures Inv(r)
  {
    if events == [] then s
    else
      var before := Run(s, events[..|events| - 1]);
      var e := events[|events| - 1];
      StepKeepsInv(before, e);
      Step(before, e)
  }

  /** The sending side after the events, from the start. */
  ghost function After(scid: nat, queueLimit: nat, events: seq<Event>): (s: Sender)
    requires scid < 0x400
    ensures Inv(s) && s.mux.scid == scid
  {
    StartIsInv(scid, queueLimit);
    RunScid(Start(scid, queueLimit), events);
    Run(Start(scid, queueLimit), events)
  }

  lemma {:induction false} StepKeepsInv(s: Sender, e: Event)
    requires Inv(s)
    ensures Inv(Step(s, e))
  {
    match e
    case Enqueue(vc, packet) => EnqueueKeepsInv(s, vc, packet);
    case Emit => EmitKeepsInv(s);
  }

  // ---- The receiving side ----

  /** Which of a channel's fields arrived. */
  function MaskOn(frames: seq<Frame>, mask: seq<bool>, vc: nat): (m: seq<bool>)
    requires |mask| == |frames|
    ensures |m| == |FieldsOn(frames, vc)|
  {
    if frames == [] then []
    else
      var n := |frames| - 1;
      MaskOn(frames[..n], mask[..n], vc) + (if ChannelOf(frames[n]) == vc then [mask[n]] else [])
  }

  /** The demultiplexer after the frames that arrived, in order. */
  ghost function Receive(scid: nat, frames: seq<Frame>, mask: seq<bool>): (d: Demultiplexer.State)
    requires |mask| == |frames|
    ensures Demultiplexer.Ok(d) && d.scid == scid
  {
    if frames == [] then Demultiplexer.Initial(scid)
    else
      var n := |frames| - 1;
      var before := Receive(scid, frames[..n], mask[..n]);
      if mask[n] then
        Demultiplexer.PushKeepsOk(before, frames[n]);
        Demultiplexer.Pushed(before, frames[n])
      else before
  }

  /** The packets delivered on one channel. */
  function DeliveredOn(ds: seq<Demultiplexer.Delivery>, vc: nat): seq<Packet> {
    if ds == [] then []
    else DeliveredOn(ds[..|ds| - 1], vc) + (if ds[|ds| - 1].vc == vc then [ds[|ds| - 1].packet] else [])
  }

  lemma {:induction false} DeliveredAppend(ds: seq<Demultiplexer.Delivery>, ps: seq<Packet>, on: nat, vc: nat)
    ensures DeliveredOn(ds + Demultiplexer.Deliveries(on, ps), vc)
         == DeliveredOn(ds, vc) + (if on == vc then ps else [])
  {
    hide DeliveredOn;
    var added := Demultiplexer.Deliveries(on, ps);
    if ps == [] {
      assert ds + added == ds;
    } else {
      var n := |ps| - 1;
      var front := ps[..n];
      DeliveredAppend(ds, front, on, vc);
      assert added == Demultiplexer.Deliveries(on, front) + [Demultiplexer.Delivery(on, ps[n])];
      DeliveredOne(ds + Demultiplexer.Deliveries(on, front), Demultiplexer.Delivery(on, ps[n]), vc);
      assert ds + added == (ds + Demultiplexer.Deliveries(on, front)) + [Demultiplexer.Delivery(on, ps[n])];
      assert ps == front + [ps[n]];
    }
  }

  lemma DeliveredOne(ds: seq<Demultiplexer.Delivery>, d: Demultiplexer.Delivery, vc: nat)
    ensures DeliveredOn(ds + [d], vc) == DeliveredOn(ds, vc) + (if d.vc == vc then [d.packet] else [])
  {
    assert (ds + [d])[..|ds|] == ds;
  }

  /** What one channel alone makes of its fields. */
  function ChannelLog(frames: seq<Frame>, mask: seq<bool>, vc: nat): Demux.Log
    requires |mask| == |frames|
  {
    Demux.Replay(FieldsOn(frames, vc), MaskOn(frames, mask, vc), |FieldsOn(frames, vc)|)
  }

  /** Fields lost on the first n channels. */
  function LostOn(frames: seq<Frame>, mask: seq<bool>, n: nat): nat
    requires |mask| == |frames|
  {
    if n == 0 then 0 else LostOn(frames, mask, n - 1) + ChannelLog(frames, mask, n - 1).lost
  }

  lemma {:induction false} ReplayPrefix(fields: seq<DataField>, mask: seq<bool>, f: DataField, b: bool, i: nat)
    requires i <= |fields| == |mask| && Demux.FullFields(fields) && |f.data| == DATA_SIZE
    ensures Demux.FullFields(fields + [f])
    ensures Demux.Replay(fields + [f], mask + [b], i) == Demux.Replay(fields, mask, i)
  {
    hide Demux.PushField;
    if i > 0 {
      ReplayPrefix(fields, mask, f, b, i - 1);
      assert (fields + [f])[i - 1] == fields[i - 1] && (mask + [b])[i - 1] == mask[i - 1];
    }
  }

  /** One more frame, seen by a channel. */
  lemma LogStep(frames: seq<Frame>, mask: seq<bool>, vc: nat)
    requires |mask| == |frames| > 0
    ensures var n := |frames| - 1;
            var before := ChannelLog(frames[..n], mask[..n], vc);
            ChannelLog(frames, mask, vc) ==
            if ChannelOf(frames[n]) == vc && mask[n] then
              var o := Demux.PushField(before.channel, |FieldsOn(frames[..n], vc)| % 256,
                                       Demultiplexer.FieldOf(frames[n]));
              Demux.Log(o.channel, before.packets + o.packets, before.lost + o.lost)
            else before
  {
    hide Demux.PushField, TmFrame.DecodeHeader;
    var n := |frames| - 1;
    var fields, m := FieldsOn(frames[..n], vc), MaskOn(frames[..n], mask[..n], vc);
    if ChannelOf(frames[n]) == vc {
      ReplayPrefix(fields, m, Demultiplexer.FieldOf(frames[n]), mask[n], |fields|);
      assert FieldsOn(frames, vc) == fields + [Demultiplexer.FieldOf(frames[n])];
      assert MaskOn(frames, mask, vc) == m + [mask[n]];
    } else {
      assert FieldsOn(frames, vc) == fields && MaskOn(frames, mask, vc) == m;
    }
  }

  /** The demultiplexer keeps each channel apart: channel by channel it is the replay of that channel's
      fields, and its counter of lost frames is the sum over the channels. */
  ghost predicate Separates(d: Demultiplexer.State, frames: seq<Frame>, mask: seq<bool>)
    requires |mask| == |frames|
  {
    && |d.channels| == CHANNELS
    && (forall vc :: 0 <= vc < IDLE_VC ==> OneChannel(d, frames, mask, vc))
    && d.stats.lostFrames == LostOn(frames, mask, IDLE_VC)
  }

  ghost predicate OneChannel(d: Demultiplexer.State, frames: seq<Frame>, mask: seq<bool>, vc: nat)
    requires |mask| == |frames| && vc < |d.channels|
  {
    var log := ChannelLog(frames, mask, vc);
    d.channels[vc] == log.channel && DeliveredOn(d.delivered, vc) == log.packets
  }

  /** Only the frame's own channel changes the sum. */
  lemma {:induction false} LostStep(frames: seq<Frame>, mask: seq<bool>, n: nat, added: nat)
    requires |mask| == |frames| > 0
    requires var k := |frames| - 1;
             forall vc :: 0 <= vc < n ==>
                            ChannelLog(frames, mask, vc).lost ==
                            ChannelLog(frames[..k], mask[..k], vc).lost +
                            (if vc == ChannelOf(frames[k]) then added else 0)
    ensures var k := |frames| - 1;
            LostOn(frames, mask, n) ==
            LostOn(frames[..k], mask[..k], n) + (if ChannelOf(frames[k]) < n then added else 0)
  {
    hide ChannelLog, ChannelOf;
    if n > 0 { LostStep(frames, mask, n - 1, added); }
  }

  lemma {:induction false} ReceiveSeparates(scid: nat, frames: seq<Frame>, mask: seq<bool>)
    requires |mask| == |frames| && FramesOk(scid, frames)
    ensures Separates(Receive(scid, frames, mask), frames, mask)
  {
    hide ChannelLog, Demultiplexer.Pushed, ChannelOf, FrameOk;
    if frames == [] {
      SeparatesAtStart(scid, frames, mask);
    } else {
      var n := |frames| - 1;
      FramesOkPrefix(scid, frames);
      ReceiveSeparates(scid, frames[..n], mask[..n]);
      var before := Receive(scid, frames[..n], mask[..n]);
      assert FrameOk(scid, frames[..n], frames[n]);
      if mask[n] {
        FrameSeparates(before, frames, mask);
      } else {
        LossSeparates(before, frames, mask);
      }
    }
  }

  lemma FramesOkPrefix(scid: nat, frames: seq<Frame>)
    requires FramesOk(scid, frames) && frames != []
    ensures FramesOk(scid, frames[..|frames| - 1])
  {
    hide FrameOk;
    var front := frames[..|frames| - 1];
    forall n | 0 <= n < |front|
      ensures FrameOk(scid, front[..n], front[n])
    {
      assert front[..n] == frames[..n];
    }
  }

  lemma SeparatesAtStart(scid: nat, frames: seq<Frame>, mask: seq<bool>)
    requires |mask| == |frames| == 0
    ensures Separates(Demultiplexer.Initial(scid), frames, mask)
  {
    forall vc | 0 <= vc < IDLE_VC
      ensures OneChannel(Demultiplexer.Initial(scid), frames, mask, vc)
    {
    }
    NothingLostAtStart(frames, mask, IDLE_VC);
  }

  lemma {:induction false} NothingLostAtStart(frames: seq<Frame>, mask: seq<bool>, n: nat)
    requires |mask| == |frames| == 0
    ensures LostOn(frames, mask, n) == 0
  {
    if n > 0 { NothingLostAtStart(frames, mask, n - 1); }
  }

  lemma LossSeparates(d: Demultiplexer.State, frames: seq<Frame>, mask: seq<bool>)
    requires |mask| == |frames| > 0 && !mask[|frames| - 1]
    requires Separates(d, frames[..|frames| - 1], mask[..|frames| - 1])
    ensures Separates(d, frames, mask)
  {
    hide ChannelLog, ChannelOf;
    var n := |frames| - 1;
    forall vc | 0 <= vc < IDLE_VC
      ensures ChannelLog(frames, mask, vc) == ChannelLog(frames[..n], mask[..n], vc)
      ensures OneChannel(d, frames, mask, vc)
    {
      LogStep(frames, mask, vc);
      assert OneChannel(d, frames[..n], mask[..n], vc);
    }
    LostStep(frames, mask, IDLE_VC, 0);
  }

  lemma FrameSeparates(d: Demultiplexer.State, frames: seq<Frame>, mask: seq<bool>)
    requires |mask| == |frames| > 0 && mask[|frames| - 1] && Demultiplexer.Ok(d)
    requires FrameOk(d.scid, frames[..|frames| - 1], frames[|frames| - 1])
    requires Separates(d, frames[..|frames| - 1], mask[..|frames| - 1])
    ensures Separates(Demultiplexer.Pushed(d, frames[|frames| - 1]), frames, mask)
  {
    hide ChannelLog, Demux.PushField, TmFrame.DecodeHeader, Demultiplexer.Ok;
    var n := |frames| - 1;
    var on := ChannelOf(frames[n]);
    var f := Demultiplexer.FieldOf(frames[n]);
    var r := Demultiplexer.Pushed(d, frames[n]);
    Demultiplexer.OkChannel(d, on);
    assert OneChannel(d, frames[..n], mask[..n], if on < IDLE_VC then on else 0);
    var added :=
      if on == IDLE_VC then 0
      else Demux.PushField(d.channels[on], |FieldsOn(frames[..n], on)| % 256, f).lost;
    forall vc | 0 <= vc < IDLE_VC
      ensures ChannelLog(frames, mask, vc).lost
           == ChannelLog(frames[..n], mask[..n], vc).lost + (if vc == on then added else 0)
      ensures OneChannel(r, frames, mask, vc)
    {
      LogStep(frames, mask, vc);
      assert OneChannel(d, frames[..n], mask[..n], vc);
      if on != IDLE_VC {
        DeliveredAppend(d.delivered, Demux.PushField(d.channels[on], |FieldsOn(frames[..n], on)| % 256, f).packets,
                        on, vc);
      }
    }
    LostStep(frames, mask, IDLE_VC, added);
  }

  // ---- Main results ----

  ghost predicate AllAccepted(s: Sender) {
    forall vc :: 0 <= vc < |s.accepted| ==> AllWellFormed(s.accepted[vc])
  }

  /** Loss behaviour of the link: for every sequence of enqueued packets and frames, and every pattern of
      lost frames in which no gap on a channel is a whole number of turns of its 8-bit count, the
      demultiplexer delivers on each channel exactly the non-idle packets all of whose frames arrived,
      unchanged and in order. Its counter is the sum over the channels of the gaps modulo 256, which on a
      channel is the number of frames missing between the first and last arrival exactly when every gap is
      below 256. */
  lemma {:induction false} LinkLossBehaviour(scid: nat, queueLimit: nat, events: seq<Event>, mask: seq<bool>)
    requires scid < 0x400
    requires var s := After(scid, queueLimit, events);
             && AllAccepted(s) && |mask| == |s.frames|
             && forall vc :: 0 <= vc < IDLE_VC ==> Demux.GapsVisible(MaskOn(s.frames, mask, vc))
    ensures var s := After(scid, queueLimit, events);
            var d := Receive(scid, s.frames, mask);
            && d.stats.lostFrames == LostOn(s.frames, mask, IDLE_VC)
            && forall vc :: 0 <= vc < IDLE_VC ==> ChannelDelivers(s, mask, d, vc)
  {
    hide Inv, Demultiplexer.Ok, FieldsOn, MaskOn;
    var s := After(scid, queueLimit, events);
    InvParts(s);
    ReceiveSeparates(scid, s.frames, mask);
    var d := Receive(scid, s.frames, mask);
    forall vc | 0 <= vc < IDLE_VC
      ensures ChannelDelivers(s, mask, d, vc)
    {
      assert OneChannel(d, s.frames, mask, vc);
      ChannelLossBehaviour(s, mask, vc);
    }
  }

  /** What one channel delivers and counts, against its history. */
  ghost predicate ChannelDelivers(s: Sender, mask: seq<bool>, d: Demultiplexer.State, vc: nat)
    requires |mask| == |s.frames| && vc < IDLE_VC
  {
    && Inv(s)
    && var h := s.histories[vc];
       var m := MaskOn(s.frames, mask, vc);
       && AllWellFormed(h.ps)
       && DeliveredOn(d.delivered, vc) == Survivors(h.ps, m, |h.ps|)
       && ChannelLog(s.frames, mask, vc).lost == Demux.MissingModulo(m, |m|)
       && (ChannelLog(s.frames, mask, vc).lost == Demux.Missing(m, |m|) <==> Demux.GapsBounded(m))
  }

  lemma InvParts(s: Sender)
    requires Inv(s)
    ensures |s.histories| == |s.accepted| == |s.mux.channels| == CHANNELS && FramesOk(s.mux.scid, s.frames)
    ensures forall vc :: 0 <= vc < IDLE_VC ==> ChannelInv(s, vc)
  {
  }

  lemma {:induction false} RunScid(s: Sender, events: seq<Event>)
    requires Inv(s)
    ensures Run(s, events).mux.scid == s.mux.scid
  {
    hide Inv, Multiplexer.Ok, Mux.NextField;
    if events != [] {
      var before := events[..|events| - 1];
      RunScid(s, before);
      InvOk(Run(s, before));
    }
  }

  lemma InvOk(s: Sender)
    requires Inv(s)
    ensures Multiplexer.Ok(s.mux) && |s.histories| == |s.accepted| == CHANNELS
  {
  }

  lemma ChannelLossBehaviour(s: Sender, mask: seq<bool>, vc: nat)
    requires Inv(s) && AllAccepted(s) && |mask| == |s.frames| && vc < IDLE_VC
    requires Demux.GapsVisible(MaskOn(s.frames, mask, vc))
    ensures |s.histories| == CHANNELS && AllWellFormed(s.histories[vc].ps)
    ensures var h, m := s.histories[vc], MaskOn(s.frames, mask, vc);
            var log := ChannelLog(s.frames, mask, vc);
            && log.packets == Survivors(h.ps, m, |h.ps|)
            && log.lost == Demux.MissingModulo(m, |m|)
            && (log.lost == Demux.Missing(m, |m|) <==> Demux.GapsBounded(m))
  {
    hide Inv, FieldsOn, MaskOn, AllWellFormed, Demux.GapsBounded, Demux.GapsVisible, Demux.Missing, Demux.MissingModulo;
    InvParts(s);
    assert ChannelInv(s, vc);
    ConservesParts(s.mux.channels[vc], s.histories[vc], s.accepted[vc]);
    Mux.PacketsAreWellFormed(s.mux.channels[vc], s.histories[vc], s.accepted[vc]);
    var fields, m := s.histories[vc].fields, MaskOn(s.frames, mask, vc);
    Demux.DeliveryBehaviour(fields, s.histories[vc].ps, m);
    Demux.CounterIsModulo(fields, m, |fields|);
    Demux.CounterIsRightIff(fields, m);
  }

  lemma ConservesParts(ch: Mux.Channel, h: Mux.History, accepted: seq<Packet>)
    requires Mux.Conserves(ch, h, accepted)
    ensures Packed(h.fields, h.ps)
  {
    hide Packed;
  }

  lemma {:induction false} NoFieldMissing(frames: seq<Frame>, mask: seq<bool>, vc: nat)
    requires |mask| == |frames| && forall n :: 0 <= n < |mask| ==> mask[n]
    ensures forall k :: 0 <= k < |MaskOn(frames, mask, vc)| ==> MaskOn(frames, mask, vc)[k]
  {
    hide ChannelOf;
    if frames != [] { NoFieldMissing(frames[..|frames| - 1], mask[..|frames| - 1], vc); }
  }

  lemma NoGaps(mask: seq<bool>)
    requires forall k :: 0 <= k < |mask| ==> mask[k]
    ensures Demux.GapsVisible(mask)
  {
    forall i | 0 <= i < |mask|
      ensures Demux.GapBefore(mask, i) == 0
    {
      assert Demux.LastBefore(mask, i) == i;
    }
  }

  /** Without loss nothing is lost: once a channel is drained, its accepted packets that are not idle are
      all delivered, in order and unchanged. */
  lemma {:induction false} LinkWithoutLoss(scid: nat, queueLimit: nat, events: seq<Event>, mask: seq<bool>, vc: nat)
    requires scid < 0x400 && vc < IDLE_VC
    requires var s := After(scid, queueLimit, events);
             && AllAccepted(s) && |mask| == |s.frames| && (forall n :: 0 <= n < |mask| ==> mask[n])
             && vc < |s.mux.channels| && s.mux.channels[vc].queue == [] && s.mux.channels[vc].partial == []
    ensures var s := After(scid, queueLimit, events);
            && |s.accepted| == CHANNELS
            && DeliveredOn(Receive(scid, s.frames, mask).delivered, vc) == Mux.NonIdle(s.accepted[vc])
  {
    hide Inv, Demultiplexer.Ok, FieldsOn, MaskOn;
    var s := After(scid, queueLimit, events);
    forall k | 0 <= k < IDLE_VC
      ensures Demux.GapsVisible(MaskOn(s.frames, mask, k))
    {
      NoFieldMissing(s.frames, mask, k);
      NoGaps(MaskOn(s.frames, mask, k));
    }
    LinkLossBehaviour(scid, queueLimit, events, mask);
    assert ChannelDelivers(s, mask, Receive(scid, s.frames, mask), vc);
    InvParts(s);
    assert ChannelInv(s, vc);
    NoFieldMissing(s.frames, mask, vc);
    DrainedChannel(s.mux.channels[vc], s.histories[vc], s.accepted[vc], MaskOn(s.frames, mask, vc));
  }

  lemma DrainedChannel(ch: Mux.Channel, h: Mux.History, accepted: seq<Packet>, mask: seq<bool>)
    requires Mux.Conserves(ch, h, accepted) && AllWellFormed(accepted) && AllWellFormed(h.ps)
    requires ch.queue == [] && ch.partial == [] && |mask| == |h.fields|
    requires forall k :: 0 <= k < |mask| ==> mask[k]
    ensures Survivors(h.ps, mask, |h.ps|) == Mux.NonIdle(accepted)
  {
    hide AllWellFormed, Survivors, Mux.NonIdle, Mux.Genuine, Packed, Concat, Mux.FillPacket;
    assert Mux.Genuine(h.ps, h.fill) == accepted;
    Mux.NonIdleIsGenuine(h.ps, h.fill);
    Mux.NothingLost(h.ps, mask, |h.ps|);
    assert h.ps[..|h.ps|] == h.ps;
  }
}
