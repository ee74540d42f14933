/** The frame multiplexer as functions: how one channel fills a data field, how a channel is chosen,
    and what is conserved. */
module TmMux {

  import opened Arith
  import opened Bytes
  import opened SpacePacket
  import opened TmFrame
  import opened TmStream

  datatype Channel = Channel(queue: seq<Packet>, partial: seq<Byte>, count: nat)

  /** What filling `space` bytes produced: the bytes, the queue left, the rest of a packet that did not
      fit, the packets started, and how many of them came from the queue (the others are fill). */
  datatype Filled = Filled(data: seq<Byte>, queue: seq<Packet>, partial: seq<Byte>, packed: seq<Packet>, taken: nat)

  /** Packets the multiplexer queues are at least a primary header long. */
  predicate QueueOk(queue: seq<Packet>) {
    forall k :: 0 <= k < |queue| ==> |queue[k]| >= HEADER_SIZE
  }

  /** The next packet for `space` free bytes: the head of the queue, or an idle packet. */
  function NextPacket(queue: seq<Packet>, space: nat): (p: Packet)
    requires space <= DATA_SIZE && QueueOk(queue)
    ensures |p| >= HEADER_SIZE
  {
    if queue != [] then queue[0] else EncodeIdle(Max(space, HEADER_SIZE + 1))
  }

  /** The queue without its head. */
  function Left(queue: seq<Packet>): seq<Packet> { if queue != [] then queue[1..] else [] }

  function One(queue: seq<Packet>): nat { if queue != [] then 1 else 0 }

  function Fill(queue: seq<Packet>, space: nat): (f: Filled)
    requires space <= DATA_SIZE && QueueOk(queue)
    ensures f.taken <= |f.packed| && QueueOk(f.queue) && |f.data| == space
    decreases space
  {
    if space == 0 then Filled([], queue, [], [], 0)
    else
      var next := NextPacket(queue, space);
      if |next| >= space then Filled(next[..space], Left(queue), next[space..], [next], One(queue))
      else
        var more := Fill(Left(queue), space - |next|);
        Filled(next + more.data, more.queue, more.partial, [next] + more.packed, more.taken + One(queue))
  }

  /** What a channel sends in its next frame. */
  datatype Emitted = Emitted(field: DataField, channel: Channel, packed: seq<Packet>, taken: nat)

  function NextField(ch: Channel): (e: Emitted)
    requires QueueOk(ch.queue)
    ensures e.taken <= |e.packed| && QueueOk(e.channel.queue) && |e.field.data| == DATA_SIZE
    ensures e.channel.count < 256 && e.field.fhp <= FHP_NONE
  {
    var count := (ch.count + 1) % 256;
    if |ch.partial| >= DATA_SIZE then
      Emitted(DataField(FHP_NONE, ch.partial[..DATA_SIZE]), Channel(ch.queue, ch.partial[DATA_SIZE..], count), [], 0)
    else
      var f := Fill(ch.queue, DATA_SIZE - |ch.partial|);
      Emitted(DataField(|ch.partial|, ch.partial + f.data), Channel(f.queue, f.partial, count), f.packed, f.taken)
  }

  // ---- Conservation ----

  /** A well-formed idle packet. */
  predicate FillPacket(p: Packet) { WellFormed(p) && IsIdle(p) }

  ghost predicate AllIdle(ps: seq<Packet>) {
    forall k :: 0 <= k < |ps| ==> FillPacket(ps[k])
  }

  /** Filling loses nothing: the bytes and the rest are the packets back to back, those from the queue
      first and in order, then whole idle packets; every packet starts inside the space. */
  ghost predicate FillOk(queue: seq<Packet>, space: nat, f: Filled) {
    && |f.data| == space && f.data + f.partial == Concat(f.packed) && f.packed != []
    && Start(f.packed, |f.packed| - 1) < space
    && TakenOk(queue, f)
  }

  ghost predicate TakenOk(queue: seq<Packet>, f: Filled) {
    && f.taken <= |queue| && f.taken <= |f.packed|
    && f.packed[..f.taken] == queue[..f.taken] && f.queue == queue[f.taken..]
    && AllIdle(f.packed[f.taken..]) && (f.taken < |f.packed| ==> f.queue == [])
  }

  lemma {:induction false} FillConserves(queue: seq<Packet>, space: nat)
    requires 0 < space <= DATA_SIZE && QueueOk(queue)
    ensures FillOk(queue, space, Fill(queue, space))
    decreases space
  {
    hide Concat, Start, TakenOk, NextPacket, EncodeIdle;
    var next := NextPacket(queue, space);
    SingleConcat(next);
    if |next| < space {
      FillConserves(Left(queue), space - |next|);
      var more := Fill(Left(queue), space - |next|);
      ConcatAppend([next], more.packed);
      PrependStart(next, more.packed, |more.packed| - 1);
      assert (next + more.data) + more.partial == next + (more.data + more.partial);
      TakenStep(queue, space, more);
    } else {
      FirstStartIsZero([next]);
      assert next[..space] + next[space..] == next;
      TakenLast(queue, space);
    }
  }

  /** At most one fill packet goes into a data field, behind everything that was queued, and it is no longer than
      what it has to fill. */
  lemma {:induction false} OneFillPacket(queue: seq<Packet>, space: nat)
    requires 0 < space <= DATA_SIZE && QueueOk(queue)
    ensures var f := Fill(queue, space);
            && f.taken <= |f.packed| <= f.taken + 1
            && (|f.packed| == f.taken + 1 ==>
                  f.queue == [] && |f.packed[f.taken]| <= Max(space, 7) && |f.partial| < 7)
    decreases space
  {
    hide EncodeIdle;
    var next := NextPacket(queue, space);
    if |next| < space { OneFillPacket(Left(queue), space - |next|); }
  }

  lemma FirstStartIsZero(ps: seq<Packet>)
    ensures Start(ps, 0) == 0
  {
  }

  lemma {:induction false} PrependStart(p: Packet, ps: seq<Packet>, k: nat)
    requires k <= |ps|
    ensures Start([p] + ps, k + 1) == |p| + Start(ps, k)
  {
    if k > 0 {
      PrependStart(p, ps, k - 1);
      assert ([p] + ps)[k] == ps[k - 1];
    } else {
      assert ([p] + ps)[0] == p;
      assert Start([p] + ps, 0) == 0;
    }
  }

  /** The next packet is the head of the queue, or idle. */
  lemma NextPacketIs(queue: seq<Packet>, space: nat)
    requires space <= DATA_SIZE && QueueOk(queue)
    ensures queue != [] ==> NextPacket(queue, space) == queue[0]
    ensures queue == [] ==> FillPacket(NextPacket(queue, space))
    ensures queue == [] ==> |NextPacket(queue, space)| == Max(space, HEADER_SIZE + 1)
  {
    IdleIsWellFormed(Max(space, HEADER_SIZE + 1));
  }

  lemma TakenStep(queue: seq<Packet>, space: nat, more: Filled)
    requires 0 < space <= DATA_SIZE && QueueOk(queue) && TakenOk(Left(queue), more)
    ensures var next := NextPacket(queue, space);
            TakenOk(queue, Filled(next + more.data, more.queue, more.partial, [next] + more.packed,
                                  more.taken + One(queue)))
  {
    hide AllIdle, NextPacket;
    NextPacketIs(queue, space);
    if queue != [] {
      PrependTaken(queue, more);
    } else {
      PrependFill(NextPacket(queue, space), more);
    }
  }

  lemma PrependTaken(queue: seq<Packet>, more: Filled)
    requires queue != [] && TakenOk(queue[1..], more)
    ensures TakenOk(queue, Filled([], more.queue, [], [queue[0]] + more.packed, more.taken + 1))
  {
    hide AllIdle;
    var n := more.taken;
    var packed := [queue[0]] + more.packed;
    assert packed[n + 1..] == more.packed[n..];
    assert packed[..n + 1] == [queue[0]] + more.packed[..n];
    assert queue[..n + 1] == [queue[0]] + queue[1..][..n];
    assert queue[n + 1..] == queue[1..][n..];
  }

  lemma PrependFill(p: Packet, more: Filled)
    requires FillPacket(p) && TakenOk([], more)
    ensures TakenOk([], Filled([], more.queue, [], [p] + more.packed, more.taken))
  {
    hide FillPacket;
    var packed := [p] + more.packed;
    assert more.packed[0..] == more.packed && packed[0..] == packed;
  }

  lemma TakenLast(queue: seq<Packet>, space: nat)
    requires 0 < space <= DATA_SIZE && QueueOk(queue) && space <= |NextPacket(queue, space)|
    ensures var next := NextPacket(queue, space);
            TakenOk(queue, Filled(next[..space], Left(queue), next[space..], [next], One(queue)))
  {
    hide FillPacket, NextPacket;
    NextPacketIs(queue, space);
    var next := NextPacket(queue, space);
    if queue == [] {
      assert [next][0..] == [next];
    } else {
      var none: seq<Packet> := [next][1..];
      assert none == [];
    }
  }

  // ---- One channel over time ----

  /** The packets a channel was given, in order: those already packed that are not fill, then the queue. */
  ghost function Genuine(ps: seq<Packet>, fill: seq<bool>): seq<Packet>
    requires |ps| == |fill|
  {
    if ps == [] then []
    else
      var n := |ps| - 1;
      Genuine(ps[..n], fill[..n]) + (if fill[n] then [] else [ps[n]])
  }

  /** A channel's history: the fields it sent, the packets that started in them, and which are fill. */
  datatype History = History(fields: seq<DataField>, ps: seq<Packet>, fill: seq<bool>)

  /** The fields carry the packets ps, all of which start in them, and `partial` is what does not fit. */
  ghost predicate Streams(partial: seq<Byte>, fields: seq<DataField>, ps: seq<Packet>) {
    && Packed(fields, ps)
    && |Concat(ps)| == DATA_SIZE * |fields| + |partial|
    && partial == Concat(ps)[DATA_SIZE * |fields|..]
    && (ps != [] ==> Start(ps, |ps| - 1) < DATA_SIZE * |fields|)
  }

  /** Conservation: the fields sent and the pending rest are the packets back to back, with pointers to
      the first start in each field; the packets that are not fill, then the queue, are what was accepted. */
  ghost predicate Conserves(ch: Channel, h: History, accepted: seq<Packet>) {
    && QueueOk(ch.queue) && ch.count == |h.fields| % 256
    && |h.fill| == |h.ps| && Streams(ch.partial, h.fields, h.ps)
    && Genuine(h.ps, h.fill) + ch.queue == accepted
    && forall k :: 0 <= k < |h.ps| && h.fill[k] ==> FillPacket(h.ps[k])
  }

  function After(h: History, e: Emitted): History
    requires e.taken <= |e.packed|
  {
    History(h.fields + [e.field], h.ps + e.packed,
            h.fill + seq(|e.packed|, i => i >= e.taken))
  }

  /** New packets do not change the pointers of fields already filled. */
  lemma PointerStable(ps: seq<Packet>, qs: seq<Packet>, at: nat)
    requires at + DATA_SIZE <= |Concat(ps)|
    ensures Pointer(ps + qs, at) == Pointer(ps, at)
  {
    hide Start, Concat;
    var k := StartsBefore(ps, at);
    ConcatLength(ps);
    StartOfPrefix(ps, qs, k);
    if k > 0 { StartOfPrefix(ps, qs, k - 1); }
    StartsBeforeIs(ps + qs, at, k);
  }

  /** The pointer of a new field names the first packet started in it. */
  lemma PointerOfNewField(ps: seq<Packet>, qs: seq<Packet>, at: nat)
    requires at <= |Concat(ps)| && (ps != [] ==> Start(ps, |ps| - 1) < at)
    requires qs == [] ==> |Concat(ps)| >= at + DATA_SIZE
    requires qs != [] ==> |Concat(ps)| < at + DATA_SIZE
    ensures Pointer(ps + qs, at) == if qs != [] then |Concat(ps)| - at else FHP_NONE
  {
    hide Start, Concat;
    ConcatLength(ps);
    StartOfPrefix(ps, qs, |ps|);
    if ps != [] { StartOfPrefix(ps, qs, |ps| - 1); }
    StartsBeforeIs(ps + qs, at, |ps|);
  }

  lemma FieldsStayPacked(h: History, qs: seq<Packet>)
    requires Packed(h.fields, h.ps)
    ensures Packed(h.fields, h.ps + qs)
  {
    hide Pointer, Concat;
    ConcatAppend(h.ps, qs);
    forall i | 0 <= i < |h.fields|
      ensures FieldAt(h.fields[i], h.ps + qs, i)
    {
      assert FieldAt(h.fields[i], h.ps, i);
      PointerStable(h.ps, qs, DATA_SIZE * i);
    }
  }

  lemma {:induction false} GenuineAppend(ps: seq<Packet>, fill: seq<bool>, qs: seq<Packet>, taken: nat)
    requires |ps| == |fill| && taken <= |qs|
    ensures Genuine(ps + qs, fill + seq(|qs|, i => i >= taken)) == Genuine(ps, fill) + qs[..taken]
    decreases |qs|
  {
    var flags := seq(|qs|, i => i >= taken);
    if qs == [] {
      assert ps + qs == ps && fill + flags == fill;
    } else {
      var n := |qs| - 1;
      var t := if taken <= n then taken else n;
      GenuineAppend(ps, fill, qs[..n], t);
      assert (ps + qs)[..|ps + qs| - 1] == ps + qs[..n];
      assert (fill + flags)[..|fill + flags| - 1] == fill + seq(n, i => i >= t);
      if taken == |qs| { assert qs[..taken] == qs[..n] + [qs[n]]; } else { assert qs[..n][..t] == qs[..taken]; }
    }
  }

  /** A packet already in progress fills the whole field. */
  lemma ContinuedFieldConserves(ch: Channel, h: History, accepted: seq<Packet>)
    requires Conserves(ch, h, accepted) && |ch.partial| >= DATA_SIZE
    ensures Conserves(NextField(ch).channel, After(h, NextField(ch)), accepted)
  {
    hide Start, Concat, Pointer, Genuine, FillPacket;
    var e := NextField(ch);
    assert h.ps + e.packed == h.ps && h.fill + seq(|e.packed|, i => i >= e.taken) == h.fill;
    var at := DATA_SIZE * |h.fields|;
    PointerOfNewField(h.ps, [], at);
    assert h.ps + [] == h.ps;
    assert FieldAt(e.field, h.ps, |h.fields|);
    NewFieldPacked(h, [], e.field);
  }

  /** The new field carries the stream, and the new rest is what follows. */
  lemma NewBytes(ch: Channel, h: History, f: Filled)
    requires |ch.partial| < DATA_SIZE && FillOk(ch.queue, DATA_SIZE - |ch.partial|, f)
    requires |Concat(h.ps)| == DATA_SIZE * |h.fields| + |ch.partial|
    requires ch.partial == Concat(h.ps)[DATA_SIZE * |h.fields|..]
    ensures var stream := Concat(h.ps + f.packed);
            var at := DATA_SIZE * |h.fields|;
            && |stream| == at + DATA_SIZE + |f.partial|
            && ch.partial + f.data == stream[at..at + DATA_SIZE] && f.partial == stream[at + DATA_SIZE..]
  {
    hide Start, TakenOk;
    var at := DATA_SIZE * |h.fields|;
    ConcatAppend(h.ps, f.packed);
    hide Concat;
    var s := Concat(h.ps);
    assert s == s[..at] + ch.partial;
    assert Concat(h.ps + f.packed) == s[..at] + (ch.partial + f.data) + f.partial;
  }

  /** The rest of a packet, then new ones. */
  lemma FilledFieldConserves(ch: Channel, h: History, accepted: seq<Packet>)
    requires Conserves(ch, h, accepted) && |ch.partial| < DATA_SIZE
    ensures Conserves(NextField(ch).channel, After(h, NextField(ch)), accepted)
  {
    hide Streams, Genuine, FillPacket, Fill, AllIdle, FillOk;
    var f := Fill(ch.queue, DATA_SIZE - |ch.partial|);
    FillConserves(ch.queue, DATA_SIZE - |ch.partial|);
    FillTakes(ch.queue, DATA_SIZE - |ch.partial|, f);
    GenuineAfter(ch.queue, h, f, accepted);
    StreamsOn(ch, h, f);
    IdleTail(f, h, After(h, NextField(ch)));
  }

  lemma FillTakes(queue: seq<Packet>, space: nat, f: Filled)
    requires FillOk(queue, space, f)
    ensures TakenOk(queue, f)
  {
  }

  lemma StreamsOn(ch: Channel, h: History, f: Filled)
    requires Streams(ch.partial, h.fields, h.ps)
    requires |ch.partial| < DATA_SIZE && FillOk(ch.queue, DATA_SIZE - |ch.partial|, f)
    ensures Streams(f.partial, h.fields + [DataField(|ch.partial|, ch.partial + f.data)], h.ps + f.packed)
  {
    hide Start, Concat, Pointer, Packed, FieldAt, TakenOk;
    var field := DataField(|ch.partial|, ch.partial + f.data);
    NewBytes(ch, h, f);
    FieldsStayPacked(h, f.packed);
    NewFieldAt(ch, h, f, field);
    NewFieldPacked(h, f.packed, field);
    LastStart(h.ps, f.packed);
  }

  lemma GenuineAfter(queue: seq<Packet>, h: History, f: Filled, accepted: seq<Packet>)
    requires |h.ps| == |h.fill| && TakenOk(queue, f) && Genuine(h.ps, h.fill) + queue == accepted
    ensures Genuine(h.ps + f.packed, h.fill + seq(|f.packed|, i => i >= f.taken)) + f.queue == accepted
  {
    hide Genuine, AllIdle;
    GenuineAppend(h.ps, h.fill, f.packed, f.taken);
    var g, head := Genuine(h.ps, h.fill), queue[..f.taken];
    assert queue == head + f.queue;
    assert (g + head) + f.queue == g + (head + f.queue);
  }

  lemma NewFieldAt(ch: Channel, h: History, f: Filled, field: DataField)
    requires |ch.partial| < DATA_SIZE && FillOk(ch.queue, DATA_SIZE - |ch.partial|, f)
    requires |Concat(h.ps)| == DATA_SIZE * |h.fields| + |ch.partial|
    requires ch.partial == Concat(h.ps)[DATA_SIZE * |h.fields|..]
    requires h.ps != [] ==> Start(h.ps, |h.ps| - 1) < DATA_SIZE * |h.fields|
    requires field == DataField(|ch.partial|, ch.partial + f.data)
    ensures FieldAt(field, h.ps + f.packed, |h.fields|)
  {
    hide Start, Concat, Pointer, TakenOk;
    NewBytes(ch, h, f);
    PointerOfNewField(h.ps, f.packed, DATA_SIZE * |h.fields|);
  }

  lemma NewFieldPacked(h: History, qs: seq<Packet>, field: DataField)
    requires Packed(h.fields, h.ps + qs) && FieldAt(field, h.ps + qs, |h.fields|)
    ensures Packed(h.fields + [field], h.ps + qs)
  {
    hide FieldAt;
    assert DATA_SIZE * (|h.fields| + 1) <= |Concat(h.ps + qs)| by { Reach(field, h.ps + qs, |h.fields|); }
  }

  lemma Reach(field: DataField, ps: seq<Packet>, i: nat)
    requires FieldAt(field, ps, i)
    ensures DATA_SIZE * (i + 1) <= |Concat(ps)|
  {
  }

  lemma LastStart(ps: seq<Packet>, qs: seq<Packet>)
    requires qs != []
    ensures Start(ps + qs, |ps + qs| - 1) == |Concat(ps)| + Start(qs, |qs| - 1)
  {
    ConcatLength(ps);
    StartOfConcat(ps, qs, |qs| - 1);
  }

  lemma {:induction false} StartOfConcat(ps: seq<Packet>, qs: seq<Packet>, k: nat)
    requires k <= |qs|
    ensures Start(ps + qs, |ps| + k) == Start(ps, |ps|) + Start(qs, k)
  {
    if k == 0 {
      StartOfPrefix(ps, qs, |ps|);
    } else {
      StartOfConcat(ps, qs, k - 1);
      assert (ps + qs)[|ps| + k - 1] == qs[k - 1];
    }
  }

  lemma IdleTail(f: Filled, h: History, after: History)
    requires |h.ps| == |h.fill| && f.taken <= |f.packed| && AllIdle(f.packed[f.taken..])
    requires after.ps == h.ps + f.packed && after.fill == h.fill + seq(|f.packed|, i => i >= f.taken)
    requires forall k :: 0 <= k < |h.ps| && h.fill[k] ==> FillPacket(h.ps[k])
    ensures forall k :: 0 <= k < |after.ps| && after.fill[k] ==> FillPacket(after.ps[k])
  {
    hide FillPacket;
    forall k | 0 <= k < |after.ps| && after.fill[k]
      ensures FillPacket(after.ps[k])
    {
      if k >= |h.ps| {
        assert after.ps[k] == f.packed[f.taken..][k - |h.ps| - f.taken];
      }
    }
  }

  /** Every field a channel sends conserves its bytes, for every state it can be in. */
  lemma NextFieldConserves(ch: Channel, h: History, accepted: seq<Packet>)
    requires Conserves(ch, h, accepted)
    ensures Conserves(NextField(ch).channel, After(h, NextField(ch)), accepted)
  {
    if |ch.partial| >= DATA_SIZE { ContinuedFieldConserves(ch, h, accepted); }
    else { FilledFieldConserves(ch, h, accepted); }
  }

  lemma EnqueueConserves(ch: Channel, h: History, accepted: seq<Packet>, p: Packet)
    requires Conserves(ch, h, accepted) && |p| >= HEADER_SIZE
    ensures Conserves(ch.(queue := ch.queue + [p]), h, accepted + [p])
  {
    hide Start, Concat, Pointer, Genuine, FillPacket, Packed;
    assert Genuine(h.ps, h.fill) + (ch.queue + [p]) == (Genuine(h.ps, h.fill) + ch.queue) + [p];
  }

  // ---- Draining ----

  /** Bytes a channel still has to send. */
  function Pending(ch: Channel): nat { |Concat(ch.queue)| + |ch.partial| }

  /** Frames a channel needs to send p bytes: fill may spill up to six bytes into one more frame. */
  function FramesFor(p: nat): (n: nat)
    ensures n <= p / DATA_SIZE + 2
    ensures n == 0 <==> p == 0
  {
    if p == 0 then 0 else if p <= DATA_SIZE - 7 then 1 else if p < DATA_SIZE then 2 else 1 + FramesFor(p - DATA_SIZE)
  }

  /** Filling takes `space` bytes off the queue, or empties it and leaves at most six bytes of fill. */
  lemma {:induction false} FillDrains(queue: seq<Packet>, space: nat)
    requires space <= DATA_SIZE && QueueOk(queue)
    ensures var f := Fill(queue, space);
            var before, after := |Concat(queue)|, |Concat(f.queue)| + |f.partial|;
            if before >= space then after == before - space
            else after <= 6 && (before + 7 <= space ==> after == 0)
    decreases space
  {
    hide Concat, NextPacket, EncodeIdle;
    if space == 0 {
    } else {
      var next := NextPacket(queue, space);
      NextPacketIs(queue, space);
      SplitHead(queue);
      if |next| < space { FillDrains(Left(queue), space - |next|); }
    }
  }

  lemma SplitHead(queue: seq<Packet>)
    ensures queue == [] ==> |Concat(queue)| == 0 && Left(queue) == []
    ensures queue != [] ==> |Concat(queue)| == |queue[0]| + |Concat(Left(queue))|
  {
    if queue != [] {
      ConcatAppend([queue[0]], queue[1..]);
      SingleConcat(queue[0]);
      assert queue == [queue[0]] + queue[1..];
    }
  }

  /** Each frame of a channel with something to send brings it a frame closer to empty. */
  lemma NextFieldDrains(ch: Channel)
    requires QueueOk(ch.queue) && Pending(ch) > 0
    ensures FramesFor(Pending(NextField(ch).channel)) < FramesFor(Pending(ch))
  {
    hide Concat, Fill;
    if |ch.partial| < DATA_SIZE {
      FillDrains(ch.queue, DATA_SIZE - |ch.partial|);
    }
  }

  // ---- What survives of what was accepted ----

  /** If every accepted packet is well formed, so is every packet sent. */
  lemma PacketsAreWellFormed(ch: Channel, h: History, accepted: seq<Packet>)
    requires Conserves(ch, h, accepted) && AllWellFormed(accepted)
    ensures AllWellFormed(h.ps)
  {
    hide Start, Concat, Packed, WellFormed, IsIdle;
    assert Genuine(h.ps, h.fill) == accepted[..|Genuine(h.ps, h.fill)|];
    GenuineWellFormed(h.ps, h.fill);
  }

  lemma {:induction false} GenuineWellFormed(ps: seq<Packet>, fill: seq<bool>)
    requires |ps| == |fill| && AllWellFormed(Genuine(ps, fill))
    requires forall k :: 0 <= k < |ps| && fill[k] ==> FillPacket(ps[k])
    ensures AllWellFormed(ps)
  {
    hide WellFormed, IsIdle;
    if ps != [] {
      var n := |ps| - 1;
      var g := Genuine(ps[..n], fill[..n]);
      assert g == Genuine(ps, fill)[..|g|];
      GenuineWellFormed(ps[..n], fill[..n]);
      if !fill[n] { assert Genuine(ps, fill)[|g|] == ps[n]; }
    }
  }

  /** The packets that are not idle, in order. */
  ghost function NonIdle(ps: seq<Packet>): seq<Packet>
    requires AllWellFormed(ps)
  {
    if ps == [] then []
    else NonIdle(ps[..|ps| - 1]) + (if IsIdle(ps[|ps| - 1]) then [] else [ps[|ps| - 1]])
  }

  /** Fill is idle, so the packets sent and the packets accepted have the same non-idle ones. */
  lemma {:induction false} NonIdleIsGenuine(ps: seq<Packet>, fill: seq<bool>)
    requires |ps| == |fill| && AllWellFormed(ps) && AllWellFormed(Genuine(ps, fill))
    requires forall k :: 0 <= k < |ps| && fill[k] ==> FillPacket(ps[k])
    ensures NonIdle(ps) == NonIdle(Genuine(ps, fill))
  {
    hide WellFormed, IsIdle;
    if ps != [] {
      var n := |ps| - 1;
      var g := Genuine(ps[..n], fill[..n]);
      assert g == Genuine(ps, fill)[..|g|];
      NonIdleIsGenuine(ps[..n], fill[..n]);
      if fill[n] {
        assert FillPacket(ps[n]);
        assert Genuine(ps, fill) == g;
      } else {
        assert Genuine(ps, fill)[..|Genuine(ps, fill)| - 1] == g;
      }
    }
  }

  /** When every field arrived, every packet did. */
  lemma {:induction false} NothingLost(ps: seq<Packet>, mask: seq<bool>, n: nat)
    requires AllWellFormed(ps) && n <= |ps| && |Concat(ps)| <= DATA_SIZE * |mask|
    requires forall f :: 0 <= f < |mask| ==> mask[f]
    ensures Survivors(ps, mask, n) == NonIdle(ps[..n])
  {
    hide Start, Concat, WellFormed, IsIdle;
    if n > 0 {
      NothingLost(ps, mask, n - 1);
      assert ps[..n][..n - 1] == ps[..n - 1];
      ConcatLength(ps);
      StartMonotone(ps, n, |ps|);
      forall f: nat | DATA_SIZE * f < Start(ps, n) && Start(ps, n - 1) < DATA_SIZE * (f + 1)
        ensures ArrivedAt(mask, f)
      {
        assert 122 * f < 122 * |mask|;
      }
      assert Arrived(ps, n - 1, mask);
    }
  }
}
