/** The frame multiplexer: its state as a value with the effect of each operation, what every operation
    keeps, and the class whose methods compute exactly those effects. */
module TmMultiplexer {

  import opened Arith
  import opened Bytes
  import opened SpacePacket
  import opened TmFrame
  import opened TmStream
  import opened TmMux

  /** The multiplexer's state; virtual channel 7 carries idle frames only. */
  datatype State = State(scid: nat, queueLimit: nat, channels: seq<Channel>, mcCount: nat, dropped: nat)

  function Initial(scid: nat, queueLimit: nat): State {
    State(scid, queueLimit, seq(CHANNELS, _ => Channel([], [], 0)), 0, 0)
  }

  /** Eight channels with proper queues, at most one of them in the middle of a packet. */
  ghost predicate Ok(s: State) {
    && s.scid < 0x400 && s.mcCount < 256 && |s.channels| == CHANNELS
    && (forall i :: 0 <= i < CHANNELS ==> QueueOk(s.channels[i].queue) && s.channels[i].count < 256)
    && s.channels[IDLE_VC].queue == [] && s.channels[IDLE_VC].partial == []
    && (forall i, j :: 0 <= i < j < CHANNELS ==> s.channels[i].partial == [] || s.channels[j].partial == [])
  }

  function PartialFrom(chs: seq<Channel>, i: nat): (r: nat)
    requires i <= IDLE_VC <= |chs|
    ensures i <= r <= IDLE_VC && forall k :: i <= k < r ==> chs[k].partial == []
    ensures r < IDLE_VC ==> chs[r].partial != []
    decreases IDLE_VC - i
  {
    if i == IDLE_VC || chs[i].partial != [] then i else PartialFrom(chs, i + 1)
  }

  function QueuedFrom(chs: seq<Channel>, i: nat): (r: nat)
    requires i <= IDLE_VC <= |chs|
    ensures i <= r <= IDLE_VC && forall k :: i <= k < r ==> chs[k].queue == []
    ensures r < IDLE_VC ==> chs[r].queue != []
    decreases IDLE_VC - i
  {
    if i == IDLE_VC || chs[i].queue != [] then i else QueuedFrom(chs, i + 1)
  }

  /** The channel served next: one in the middle of a packet, else the first with a queued packet, else
      the idle channel. */
  function Chosen(chs: seq<Channel>): (vc: nat)
    requires |chs| == CHANNELS
    ensures vc <= IDLE_VC
    ensures vc == IDLE_VC <==> forall k :: 0 <= k < IDLE_VC ==> chs[k].queue == [] && chs[k].partial == []
    ensures vc < IDLE_VC && chs[vc].partial == [] ==>
              (forall k :: 0 <= k < IDLE_VC ==> chs[k].partial == []) &&
              (forall k :: 0 <= k < vc ==> chs[k].queue == [])
  {
    var p := PartialFrom(chs, 0);
    if p < IDLE_VC then p else QueuedFrom(chs, 0)
  }

  function Enqueued(s: State, vc: nat, packet: Packet): (r: (State, bool))
    requires |s.channels| == CHANNELS
  {
    if vc >= IDLE_VC || |packet| < HEADER_SIZE || |s.channels[vc].queue| >= s.queueLimit then
      (s.(dropped := s.dropped + 1), false)
    else
      (s.(channels := s.channels[vc := s.channels[vc].(queue := s.channels[vc].queue + [packet])]), true)
  }

  /** The state after the next frame, and the frame. */
  function Next(s: State): (State, seq<Byte>)
    requires Ok(s)
  {
    var vc := Chosen(s.channels);
    var ch := s.channels[vc];
    var mc := (s.mcCount + 1) % 256;
    if vc == IDLE_VC then
      (s.(mcCount := mc, channels := s.channels[vc := ch.(count := (ch.count + 1) % 256)]),
       TmFrame.EncodeHeader(FrameHeader(s.scid, vc, s.mcCount, ch.count, FHP_IDLE)) + seq(DATA_SIZE, _ => 0x55))
    else
      var e := NextField(ch);
      (s.(mcCount := mc, channels := s.channels[vc := e.channel]),
       TmFrame.EncodeHeader(FrameHeader(s.scid, vc, s.mcCount, ch.count, e.field.fhp)) + e.field.data)
  }

  predicate HasDataIn(chs: seq<Channel>) {
    exists i :: 0 <= i < |chs| && (chs[i].queue != [] || chs[i].partial != [])
  }

  lemma InitialIsOk(scid: nat, queueLimit: nat)
    requires scid < 0x400
    ensures Ok(Initial(scid, queueLimit))
  {
  }

  lemma EnqueueKeepsOk(s: State, vc: nat, packet: Packet)
    requires Ok(s)
    ensures Ok(Enqueued(s, vc, packet).0)
  {
  }

  /** Only the chosen channel can end in the middle of a packet. */
  lemma NextKeepsOk(s: State)
    requires Ok(s)
    ensures Ok(Next(s).0)
  {
    hide NextField, QueueOk;
  }

  // ---- Draining ----

  /** Frames all channels still need. */
  function FramesLeft(chs: seq<Channel>): nat {
    if chs == [] then 0 else FramesLeft(chs[..|chs| - 1]) + FramesFor(Pending(chs[|chs| - 1]))
  }

  lemma {:induction false} FramesLeftUpdate(chs: seq<Channel>, i: nat, ch: Channel)
    requires i < |chs|
    ensures FramesLeft(chs[i := ch]) == FramesLeft(chs) - FramesFor(Pending(chs[i])) + FramesFor(Pending(ch))
  {
    hide FramesFor, Pending;
    var n := |chs| - 1;
    if i < n {
      FramesLeftUpdate(chs[..n], i, ch);
      assert chs[i := ch][..n] == chs[..n][i := ch];
    } else {
      assert chs[i := ch][..n] == chs[..n];
    }
  }

  lemma {:induction false} NothingLeft(chs: seq<Channel>)
    requires forall k :: 0 <= k < |chs| ==> QueueOk(chs[k].queue)
    ensures FramesLeft(chs) == 0 <==> !HasDataIn(chs)
  {
    hide FramesFor, Pending, QueueOk;
    if chs != [] {
      var n := |chs| - 1;
      NothingLeft(chs[..n]);
      PendingMeansData(chs[n]);
      assert FramesFor(Pending(chs[n])) == 0 <==> Pending(chs[n]) == 0 by { ZeroFrames(Pending(chs[n])); }
      if HasDataIn(chs[..n]) {
        var i :| 0 <= i < n && (chs[..n][i].queue != [] || chs[..n][i].partial != []);
        assert chs[i].queue != [] || chs[i].partial != [];
      }
      if HasDataIn(chs) {
        var i :| 0 <= i < |chs| && (chs[i].queue != [] || chs[i].partial != []);
        if i < n { assert chs[..n][i].queue != [] || chs[..n][i].partial != []; }
      }
    }
  }

  lemma ZeroFrames(p: nat)
    ensures FramesFor(p) == 0 <==> p == 0
  {
  }

  lemma PendingMeansData(ch: Channel)
    requires QueueOk(ch.queue)
    ensures Pending(ch) == 0 <==> ch.queue == [] && ch.partial == []
  {
    hide Concat;
    SplitHead(ch.queue);
  }

  function AfterFrames(s: State, n: nat): (r: State)
    requires Ok(s)
    ensures Ok(r)
  {
    if n == 0 then s
    else
      var before := AfterFrames(s, n - 1);
      NextKeepsOk(before);
      Next(before).0
  }

  lemma NextDrains(s: State)
    requires Ok(s)
    ensures HasDataIn(s.channels) ==> FramesLeft(Next(s).0.channels) < FramesLeft(s.channels)
    ensures !HasDataIn(s.channels) ==> FramesLeft(Next(s).0.channels) == 0
  {
    hide FramesLeft, FramesFor, Pending, NextField, QueueOk;
    var vc := Chosen(s.channels);
    var ch := s.channels[vc];
    NothingLeft(s.channels);
    if vc == IDLE_VC {
      FramesLeftUpdate(s.channels, vc, ch.(count := (ch.count + 1) % 256));
      SamePending(ch, (ch.count + 1) % 256);
      assert !HasDataIn(s.channels);
    } else {
      FramesLeftUpdate(s.channels, vc, NextField(ch).channel);
      PendingMeansData(ch);
      NextFieldDrains(ch);
      assert HasDataIn(s.channels);
    }
  }

  lemma SamePending(ch: Channel, count: nat)
    ensures Pending(ch.(count := count)) == Pending(ch)
  {
  }

  /** Draining: without new packets there is nothing left to send after FramesLeft frames, and for one
      channel that is at most a 122nd of its pending bytes and two. */
  lemma {:induction false} Drains(s: State, n: nat)
    requires Ok(s) && n >= FramesLeft(s.channels)
    ensures !HasDataIn(AfterFrames(s, n).channels)
  {
    DrainsBy(s, n);
    NothingLeft(AfterFrames(s, n).channels);
  }

  lemma {:induction false} DrainsBy(s: State, n: nat)
    requires Ok(s)
    ensures FramesLeft(AfterFrames(s, n).channels) + n <= FramesLeft(s.channels)
         || FramesLeft(AfterFrames(s, n).channels) == 0
  {
    hide Ok, FramesLeft, Next;
    if n > 0 {
      DrainsBy(s, n - 1);
      NextDrains(AfterFrames(s, n - 1));
      NothingLeftOk(AfterFrames(s, n - 1));
    }
  }

  lemma NothingLeftOk(s: State)
    requires Ok(s)
    ensures FramesLeft(s.channels) == 0 <==> !HasDataIn(s.channels)
  {
    NothingLeft(s.channels);
  }

  // ---- The class ----

  class FrameMultiplexer {
    const scid: nat
    const queueLimit: nat
    var channels: array<Channel>
    var mcCount: nat
    var dropped: nat

    constructor (scid: nat, queueLimit: nat)
      requires scid < 0x400
      ensures Valid() && fresh(channels) && View() == Initial(scid, queueLimit)
    {
      this.scid := scid;
      this.queueLimit := queueLimit;
      channels := new Channel[CHANNELS](_ => Channel([], [], 0));
      mcCount := 0;
      dropped := 0;
      new;
      assert channels[..] == Initial(scid, queueLimit).channels;
    }

    ghost function View(): State
      reads this, channels
    {
      State(scid, queueLimit, channels[..], mcCount, dropped)
    }

    ghost predicate Valid()
      reads this, channels
    {
      Ok(View())
    }

    /** Queues a complete packet, or counts it as dropped. */
    method Enqueue(vc: nat, packet: Packet) returns (ok: bool)
      requires Valid()
      modifies this, channels
      ensures Valid() && channels == old(channels)
      ensures (View(), ok) == Enqueued(old(View()), vc, packet)
    {
      EnqueueKeepsOk(View(), vc, packet);
      if vc >= IDLE_VC || |packet| < HEADER_SIZE || |channels[vc].queue| >= queueLimit {
        dropped := dropped + 1;
        return false;
      }
      channels[vc] := channels[vc].(queue := channels[vc].queue + [packet]);
      ok := true;
    }

    /** Whether any channel has something to send. */
    method HasData() returns (r: bool)
      requires Valid()
      ensures r == HasDataIn(channels[..])
    {
      r := false;
      for i := 0 to channels.Length
        invariant r == exists k :: 0 <= k < i && (channels[..][k].queue != [] || channels[..][k].partial != [])
      {
        assert channels[..][i] == channels[i];
        if channels[i].queue != [] || channels[i].partial != [] { r := true; }
      }
    }

    /** Copies what fits of `bytes` to the frame. */
    method Put(frame: array<Byte>, pos: nat, bytes: seq<Byte>) returns (next: nat, rest: seq<Byte>)
      requires frame.Length == FRAME_SIZE && pos <= FRAME_SIZE
      modifies frame
      ensures var n := Min(|bytes|, FRAME_SIZE - pos);
              && next == pos + n && rest == bytes[n..]
              && frame[..next] == old(frame[..pos]) + bytes[..n] && frame[next..] == old(frame[..])[next..]
    {
      var n := Min(|bytes|, FRAME_SIZE - pos);
      for i := 0 to n
        invariant frame[..pos + i] == old(frame[..pos]) + bytes[..i]
        invariant frame[pos + i..] == old(frame[..])[pos + i..]
      {
        frame[pos + i] := bytes[i];
      }
      next := pos + n;
      rest := bytes[n..];
    }

    /** One round of filling, in terms of what was copied and what was not. */
    static lemma FillUnfolds(queue: seq<Packet>, space: nat)
      requires 0 < space <= DATA_SIZE && QueueOk(queue)
      ensures var next := NextPacket(queue, space);
              var n := Min(|next|, space);
              && QueueOk(Left(queue))
              && var more := Fill(Left(queue), space - n);
                 var f := Fill(queue, space);
                 && f.data == next[..n] + more.data && f.queue == more.queue
                 && f.partial == if n < space then more.partial else next[n..]
    {
      var next := NextPacket(queue, space);
      if |next| < space { assert next[..|next|] == next; } else { assert next[..space] + [] == next[..space]; }
    }

    /** Fills the rest of the frame with packets from the queue, then idle packets. */
    method FillFrame(frame: array<Byte>, start: nat, ch: Channel) returns (done: Channel)
      requires frame.Length == FRAME_SIZE && FRAME_HEADER <= start < FRAME_SIZE
      requires QueueOk(ch.queue) && ch.partial == []
      modifies frame
      ensures var f := Fill(ch.queue, FRAME_SIZE - start);
              && done == ch.(queue := f.queue, partial := f.partial)
              && frame[..] == old(frame[..start]) + f.data
    {
      hide NextPacket, QueueOk, Fill;
      done := ch;
      var pos := start;
      ghost var f := Fill(ch.queue, FRAME_SIZE - start);
      ghost var head := frame[..start];
      assert head + f.data == frame[..pos] + f.data;
      while pos < FRAME_SIZE
        invariant start <= pos <= FRAME_SIZE && QueueOk(done.queue) && done.count == ch.count
        invariant pos < FRAME_SIZE ==> done.partial == []
        invariant head + f.data == frame[..pos] + Fill(done.queue, FRAME_SIZE - pos).data
        invariant f.queue == Fill(done.queue, FRAME_SIZE - pos).queue
        invariant f.partial == if pos < FRAME_SIZE then Fill(done.queue, FRAME_SIZE - pos).partial else done.partial
      {
        FillUnfolds(done.queue, FRAME_SIZE - pos);
        var next := NextPacket(done.queue, FRAME_SIZE - pos);
        done := done.(queue := if done.queue != [] then done.queue[1..] else []);
        ghost var before := frame[..pos];
        var rest;
        ghost var n := Min(|next|, FRAME_SIZE - pos);
        pos, rest := Put(frame, pos, next);
        assert before + (next[..n] + Fill(done.queue, FRAME_SIZE - pos).data)
            == frame[..pos] + Fill(done.queue, FRAME_SIZE - pos).data;
        done := done.(partial := rest);
      }
      assert frame[..] == frame[..pos] + [];
      EmptyFill(done.queue);
    }

    static lemma EmptyFill(queue: seq<Packet>)
      requires QueueOk(queue)
      ensures Fill(queue, 0) == Filled([], queue, [], [], 0)
    {
    }

    /** Fills the data field of a channel's next frame. */
    method FillField(frame: array<Byte>, ch: Channel) returns (done: Channel, fhp: nat)
      requires frame.Length == FRAME_SIZE && QueueOk(ch.queue)
      modifies frame
      ensures var e := NextField(ch);
              && done == e.channel.(count := ch.count) && fhp == e.field.fhp
              && frame[..] == old(frame[..FRAME_HEADER]) + e.field.data
    {
      hide Fill, QueueOk;
      done := ch;
      fhp := FHP_NONE;
      var pos := FRAME_HEADER;
      ghost var head := frame[..FRAME_HEADER];
      if done.partial != [] {
        var rest;
        pos, rest := Put(frame, pos, done.partial);
        done := done.(partial := rest);
      }
      ghost var n := Min(|ch.partial|, DATA_SIZE);
      assert frame[..pos] == head + ch.partial[..n];
      if pos < FRAME_SIZE {
        fhp := pos - FRAME_HEADER;
        assert ch.partial[..n] == ch.partial;
        done := FillFrame(frame, pos, done);
      } else {
        assert frame[..] == frame[..pos];
      }
    }

    /** The channel to serve: one in progress first, then the highest priority with data. */
    method Choose() returns (vc: nat)
      requires channels.Length == CHANNELS
      ensures vc == Chosen(channels[..])
    {
      hide QueueOk;
      vc := IDLE_VC;
      var i := 0;
      while i < IDLE_VC && vc == IDLE_VC
        invariant i <= IDLE_VC
        invariant vc == IDLE_VC ==> PartialFrom(channels[..], 0) == PartialFrom(channels[..], i)
        invariant vc != IDLE_VC ==> vc == PartialFrom(channels[..], 0) < IDLE_VC
        decreases IDLE_VC - i
      {
        if channels[i].partial != [] { vc := i; }
        i := i + 1;
      }
      i := 0;
      ghost var inProgress := vc;
      while i < IDLE_VC && vc == IDLE_VC
        invariant i <= IDLE_VC
        invariant inProgress == IDLE_VC && vc == IDLE_VC ==> QueuedFrom(channels[..], 0) == QueuedFrom(channels[..], i)
        invariant inProgress == IDLE_VC && vc != IDLE_VC ==> vc == QueuedFrom(channels[..], 0) < IDLE_VC
        invariant inProgress != IDLE_VC ==> vc == inProgress
        decreases IDLE_VC - i
      {
        if channels[i].queue != [] { vc := i; }
        i := i + 1;
      }
    }

    /** Header and data field of the frame a channel sends, and the channel afterwards. */
    method BuildFrame(vc: nat, ch: Channel, mc: nat) returns (frame: array<Byte>, done: Channel)
      requires vc <= IDLE_VC && QueueOk(ch.queue) && mc < 256 && ch.count < 256
      ensures fresh(frame) && done.count == (ch.count + 1) % 256
      ensures vc == IDLE_VC ==>
                && done == ch.(count := (ch.count + 1) % 256)
                && frame[..] == TmFrame.EncodeHeader(FrameHeader(scid, vc, mc, ch.count, FHP_IDLE)) +
                                seq(DATA_SIZE, _ => 0x55)
      ensures vc != IDLE_VC ==>
                && done == NextField(ch).channel
                && frame[..] == TmFrame.EncodeHeader(FrameHeader(scid, vc, mc, ch.count, NextField(ch).field.fhp))
                                + NextField(ch).field.data
    {
      hide Fill, QueueOk, TmFrame.EncodeHeader;
      frame := new Byte[FRAME_SIZE](_ => 0);
      done := ch;
      var fhp := FHP_NONE;
      if vc == IDLE_VC {
        fhp := FHP_IDLE;
        for k := FRAME_HEADER to FRAME_SIZE
          invariant forall j :: FRAME_HEADER <= j < k ==> frame[j] == 0x55
        {
          frame[k] := 0x55;
        }
      } else {
        done, fhp := FillField(frame, ch);
      }
      done := done.(count := (ch.count + 1) % 256);
      ghost var data := frame[FRAME_HEADER..];
      var header := TmFrame.EncodeHeader(FrameHeader(scid, vc, mc, ch.count, fhp));
      var end, rest := Put(frame, 0, header);
      assert frame[..] == header + data;
    }

    /** The next frame: header and data field exactly as the specification says. */
    method NextFrame() returns (frame: array<Byte>)
      requires Valid()
      modifies this, channels
      ensures Valid() && channels == old(channels) && fresh(frame)
      ensures (View(), frame[..]) == Next(old(View()))
    {
      hide Ok, NextField, Chosen, QueueOk, TmFrame.EncodeHeader;
      NextKeepsOk(View());
      OkParts(View());
      var mc := mcCount;
      mcCount := (mcCount + 1) % 256;
      var vc := Choose();
      var done;
      frame, done := BuildFrame(vc, channels[vc], mc);
      channels[vc] := done;
    }
  }

  lemma OkParts(s: State)
    requires Ok(s)
    ensures s.mcCount < 256 && |s.channels| == CHANNELS
    ensures forall i :: 0 <= i < CHANNELS ==> QueueOk(s.channels[i].queue) && s.channels[i].count < 256
  {
  }
}
