/** The counts a multiplexer puts into its frames and keeps of its callers, over every sequence of events. */
module TmCounts {

  import opened Bytes
  import opened TmFrame
  import opened TmStream
  import opened TmLink
  import Multiplexer = TmMultiplexer
  import Mux = TmMux

  /** Frame n of all carries n in the third byte of its header, and the number of frames before it on its channel
      in the fourth, both modulo 256. */
  ghost predicate Numbered(frames: seq<Frame>, n: nat)
    requires n < |frames|
  {
    frames[n][2] == n % 256 && frames[n][3] == |FieldsOn(frames[..n], ChannelOf(frames[n]))| % 256
  }

  ghost predicate CountInv(s: Sender) {
    && Inv(s) && |s.mux.channels| == CHANNELS
    && s.mux.mcCount == |s.frames| % 256
    && (forall vc :: 0 <= vc < CHANNELS ==> s.mux.channels[vc].count == |FieldsOn(s.frames, vc)| % 256)
    && forall n :: 0 <= n < |s.frames| ==> Numbered(s.frames, n)
  }

  lemma CountBytes(h: FrameHeader, data: seq<Byte>)
    ensures (EncodeHeader(h) + data)[2] == h.mcCount && (EncodeHeader(h) + data)[3] == h.vcCount
  {
  }

  lemma EmitNumbers(m: Multiplexer.State)
    requires Multiplexer.Ok(m)
    ensures var (mux, frame) := Multiplexer.Next(m);
            var vc := Multiplexer.Chosen(m.channels);
            && |frame| == FRAME_SIZE && frame[2] == m.mcCount && frame[3] == m.channels[vc].count
            && mux.mcCount == (m.mcCount + 1) % 256
            && |mux.channels| == CHANNELS && mux.channels[vc].count == (m.channels[vc].count + 1) % 256
            && forall k :: 0 <= k < CHANNELS && k != vc ==> mux.channels[k] == m.channels[k]
  {
    hide EncodeHeader, Mux.Fill;
    var vc := Multiplexer.Chosen(m.channels);
    var ch := m.channels[vc];
    if vc == IDLE_VC {
      CountBytes(FrameHeader(m.scid, vc, m.mcCount, ch.count, FHP_IDLE), seq(DATA_SIZE, _ => 0x55));
    } else {
      var e := Mux.NextField(ch);
      CountBytes(FrameHeader(m.scid, vc, m.mcCount, ch.count, e.field.fhp), e.field.data);
    }
  }

  lemma FieldsOnOne(frames: seq<Frame>, f: Frame, vc: nat)
    ensures |FieldsOn(frames + [f], vc)| == |FieldsOn(frames, vc)| + BitWeight(ChannelOf(f) == vc, 1)
  {
    hide ChannelOf;
    assert (frames + [f])[..|frames|] == frames;
  }

  lemma NumberedOneMore(frames: seq<Frame>, f: Frame)
    requires forall n :: 0 <= n < |frames| ==> Numbered(frames, n)
    requires f[2] == |frames| % 256 && f[3] == |FieldsOn(frames, ChannelOf(f))| % 256
    ensures forall n :: 0 <= n < |frames + [f]| ==> Numbered(frames + [f], n)
  {
    hide FieldsOn, ChannelOf;
    forall n | 0 <= n < |frames + [f]|
      ensures Numbered(frames + [f], n)
    {
      assert (frames + [f])[..n] == frames[..n];
      assert frames[..|frames|] == frames;
      if n < |frames| { assert Numbered(frames, n); }
    }
  }

  lemma CountsOneMore(s: Sender, f: Frame, t: Sender)
    requires CountInv(s) && |t.mux.channels| == CHANNELS && t.frames == s.frames + [f]
    requires var vc := ChannelOf(f);
             && t.mux.channels[vc].count == (s.mux.channels[vc].count + 1) % 256
             && forall k :: 0 <= k < CHANNELS && k != vc ==> t.mux.channels[k] == s.mux.channels[k]
    ensures forall vc :: 0 <= vc < CHANNELS ==> t.mux.channels[vc].count == |FieldsOn(t.frames, vc)| % 256
  {
    hide Inv, FieldsOn, ChannelOf, Numbered;
    forall vc | 0 <= vc < CHANNELS
      ensures t.mux.channels[vc].count == |FieldsOn(t.frames, vc)| % 256
    {
      FieldsOnOne(s.frames, f, vc);
    }
  }

  lemma EmitKeepsCounts(s: Sender)
    requires CountInv(s)
    ensures CountInv(Step(s, Emit))
  {
    hide Inv, FieldsOn, Multiplexer.Next, Multiplexer.Chosen, DecodeHeader, Numbered, Multiplexer.Ok;
    InvOk(s);
    StepKeepsInv(s, Emit);
    EmitNumbers(s.mux);
    SentHeader(s.mux);
    var f: Frame := Multiplexer.Next(s.mux).1;
    NumberedOneMore(s.frames, f);
    CountsOneMore(s, f, Step(s, Emit));
  }

  lemma EnqueueKeepsCounts(s: Sender, vc: nat, packet: Packet)
    requires CountInv(s)
    ensures CountInv(Step(s, Enqueue(vc, packet)))
  {
    hide Inv, FieldsOn, DecodeHeader, Numbered;
    InvOk(s);
    StepKeepsInv(s, Enqueue(vc, packet));
  }

  /** Every frame a multiplexer sends is numbered on its master channel and on its virtual channel. */
  lemma {:induction false} FramesAreNumbered(scid: nat, queueLimit: nat, events: seq<Event>, n: nat)
    requires scid < 0x400 && n < |After(scid, queueLimit, events).frames|
    ensures Numbered(After(scid, queueLimit, events).frames, n)
  {
    hide Inv, Numbered;
    StartCounts(scid, queueLimit);
    RunCounts(TmLink.Start(scid, queueLimit), events);
  }

  lemma StartCounts(scid: nat, queueLimit: nat)
    requires scid < 0x400
    ensures CountInv(TmLink.Start(scid, queueLimit))
  {
    hide Inv;
    StartIsInv(scid, queueLimit);
  }

  lemma {:induction false} RunCounts(s: Sender, events: seq<Event>)
    requires CountInv(s)
    ensures CountInv(Run(s, events))
  {
    hide CountInv, Step;
    CountInvIsInv(s);
    if events != [] {
      var e := events[|events| - 1];
      RunCounts(s, events[..|events| - 1]);
      var before := Run(s, events[..|events| - 1]);
      match e
      case Emit => EmitKeepsCounts(before);
      case Enqueue(vc, packet) => EnqueueKeepsCounts(before, vc, packet);
    }
  }

  lemma CountInvIsInv(s: Sender)
    requires CountInv(s)
    ensures Inv(s)
  {
  }

  // ---- What became of the packets offered ----

  function Total(accepted: seq<seq<Packet>>): nat {
    if accepted == [] then 0 else Total(accepted[..|accepted| - 1]) + |accepted[|accepted| - 1]|
  }

  lemma {:induction false} TotalUpdate(accepted: seq<seq<Packet>>, vc: nat, packet: Packet)
    requires vc < |accepted|
    ensures Total(accepted[vc := accepted[vc] + [packet]]) == Total(accepted) + 1
  {
    var n := |accepted| - 1;
    var more := accepted[vc := accepted[vc] + [packet]];
    if vc < n {
      TotalUpdate(accepted[..n], vc, packet);
      assert more[..n] == accepted[..n][vc := accepted[..n][vc] + [packet]];
    } else {
      assert more[..n] == accepted[..n];
    }
  }

  function Offered(events: seq<Event>): nat {
    if events == [] then 0 else Offered(events[..|events| - 1]) + BitWeight(events[|events| - 1].Enqueue?, 1)
  }

  /** The queues respect their limit. */
  ghost predicate WithinLimit(m: Multiplexer.State) {
    forall vc :: 0 <= vc < |m.channels| ==> |m.channels[vc].queue| <= m.queueLimit
  }

  /** Every packet offered is either accepted or counted as dropped, and no queue ever exceeds its limit. */
  lemma {:induction false} OfferedIsAcceptedOrDropped(scid: nat, queueLimit: nat, events: seq<Event>)
    requires scid < 0x400
    ensures var s := After(scid, queueLimit, events);
            Total(s.accepted) + s.mux.dropped == Offered(events) && WithinLimit(s.mux)
  {
    hide Inv;
    StartIsInv(scid, queueLimit);
    var start := TmLink.Start(scid, queueLimit);
    NothingAccepted(start.accepted);
    RunAccounts(start, events);
  }

  lemma {:induction false} NothingAccepted(accepted: seq<seq<Packet>>)
    requires forall vc :: 0 <= vc < |accepted| ==> accepted[vc] == []
    ensures Total(accepted) == 0
  {
    if accepted != [] { NothingAccepted(accepted[..|accepted| - 1]); }
  }

  lemma {:induction false} RunAccounts(s: Sender, events: seq<Event>)
    requires Inv(s) && WithinLimit(s.mux)
    ensures var r := Run(s, events);
            && Total(r.accepted) + r.mux.dropped == Total(s.accepted) + s.mux.dropped + Offered(events)
            && WithinLimit(r.mux)
  {
    hide Inv, Step, WithinLimit;
    if events != [] {
      RunAccounts(s, events[..|events| - 1]);
      StepAccounts(Run(s, events[..|events| - 1]), events[|events| - 1]);
    }
  }

  lemma StepAccounts(s: Sender, e: Event)
    requires Inv(s) && WithinLimit(s.mux)
    ensures |s.histories| == |s.accepted| == CHANNELS && Multiplexer.Ok(s.mux)
    ensures var r := Step(s, e);
            && Total(r.accepted) + r.mux.dropped == Total(s.accepted) + s.mux.dropped + BitWeight(e.Enqueue?, 1)
            && WithinLimit(r.mux)
  {
    hide Inv, EncodeHeader, Multiplexer.Chosen, Mux.NextField;
    InvOk(s);
    match e
    case Enqueue(vc, packet) =>
      if Multiplexer.Enqueued(s.mux, vc, packet).1 { TotalUpdate(s.accepted, vc, packet); }
    case Emit =>
      var vc := Multiplexer.Chosen(s.mux.channels);
      QueueShrinks(s.mux, vc);
  }

  lemma QueueShrinks(m: Multiplexer.State, vc: nat)
    requires Multiplexer.Ok(m) && vc < CHANNELS
    ensures |Mux.NextField(m.channels[vc]).channel.queue| <= |m.channels[vc].queue|
  {
    hide Mux.Fill;
    var ch := m.channels[vc];
    if |ch.partial| < DATA_SIZE { FillShrinks(ch.queue, DATA_SIZE - |ch.partial|); }
  }

  lemma {:induction false} FillShrinks(queue: seq<Packet>, space: nat)
    requires space <= DATA_SIZE && Mux.QueueOk(queue)
    ensures |Mux.Fill(queue, space).queue| <= |queue|
    decreases space
  {
    if space > 0 {
      var next := Mux.NextPacket(queue, space);
      if |next| < space { FillShrinks(Mux.Left(queue), space - |next|); }
    }
  }
}
