/** One virtual channel of the frame demultiplexer as a function: what a data field does to the
    channel and which packets it delivers. Two promises: it is robust against arbitrary frames, and on
    frames of a multiplexer it delivers exactly the packets all of whose frames arrived. */
module TmDemux {

  import opened Bytes
  import opened SpacePacket
  import opened TmFrame
  import opened TmStream

  const MAX_PACKET: nat := 4096

  datatype Channel = Channel(buffer: seq<Byte>, synced: bool, haveCount: bool, expected: nat)

  /** What extraction leaves in the buffer, whether synchronisation holds, and what came out. */
  datatype Extracted = Extracted(rest: seq<Byte>, synced: bool, packets: seq<Packet>, idle: nat)

  /** Takes complete packets off the front of the buffer. */
  function Extract(buffer: seq<Byte>): Extracted
  {
    if |buffer| < HEADER_SIZE then Extracted(buffer, true, [], 0)
    else
      var h := SpacePacket.DecodeHeader(buffer);
      var size := PacketSize(h);
      if size > MAX_PACKET || Version(buffer) != 0 then Extracted([], false, [], 0)
      else if |buffer| < size then Extracted(buffer, true, [], 0)
      else
        var more := Extract(buffer[size..]);
        if h.apid == IDLE_APID then more.(idle := more.idle + 1)
        else more.(packets := [buffer[..size]] + more.packets)
  }

  /** A channel after a field, the packets it delivered, and what to add to the counters. */
  datatype Outcome = Outcome(channel: Channel, packets: seq<Packet>, lost: nat, resyncs: nat, idle: nat)

  function AfterExtract(buffer: seq<Byte>, expected: nat, lost: nat, resyncs: nat): Outcome
  {
    var x := Extract(buffer);
    Outcome(Channel(x.rest, x.synced, true, expected), x.packets, lost, resyncs + (if x.synced then 0 else 1), x.idle)
  }

  /** Bytes the packet in progress still lacks. */
  function Lacking(buffer: seq<Byte>): int
    requires |buffer| >= HEADER_SIZE
  {
    PacketSize(SpacePacket.DecodeHeader(buffer)) - |buffer|
  }

  /** One data field with its frame count and first-header pointer. */
  function PushField(ch: Channel, vcCount: nat, f: DataField): Outcome
    requires vcCount < 256 && ch.expected < 256 && |f.data| == DATA_SIZE
  {
    var gap := ch.haveCount && vcCount != ch.expected;
    var lost := if gap then (vcCount - ch.expected) % 256 else 0;
    var resyncs := if gap && ch.buffer != [] then 1 else 0;
    var buffer := if gap then [] else ch.buffer;
    var synced := ch.synced && !gap;
    var next := (vcCount + 1) % 256;
    if f.fhp != FHP_NONE && f.fhp >= DATA_SIZE then Outcome(Channel([], false, true, next), [], lost, resyncs, 0)
    else if !synced then
      if f.fhp == FHP_NONE then Outcome(Channel(buffer, false, true, next), [], lost, resyncs, 0)
      else AfterExtract(f.data[f.fhp..], next, lost, resyncs)
    else if f.fhp != FHP_NONE && |buffer| >= HEADER_SIZE && Lacking(buffer) != f.fhp then
      AfterExtract(f.data[f.fhp..], next, lost, resyncs + 1)
    else AfterExtract(buffer + f.data, next, lost, resyncs)
  }

  // ---- Robustness ----

  /** The buffer is too short to show a header, or a strict prefix of an acceptable packet; without
      synchronisation it is empty. */
  ghost predicate ChannelOk(ch: Channel) {
    ch.expected < 256 && (!ch.synced ==> ch.buffer == []) && BufferOk(ch.buffer)
  }

  ghost predicate BufferOk(buffer: seq<Byte>) {
    |buffer| < HEADER_SIZE ||
    (Version(buffer) == 0 && |buffer| < PacketSize(SpacePacket.DecodeHeader(buffer)) <= MAX_PACKET)
  }

  lemma {:induction false} ExtractIsSound(buffer: seq<Byte>)
    ensures var x := Extract(buffer);
            && BufferOk(x.rest) && (!x.synced ==> x.rest == [])
            && forall p :: p in x.packets ==> WellFormed(p) && !IsIdle(p)
    decreases |buffer|
  {
    if |buffer| >= HEADER_SIZE {
      var size := PacketSize(SpacePacket.DecodeHeader(buffer));
      if size <= MAX_PACKET && Version(buffer) == 0 && size <= |buffer| {
        ExtractIsSound(buffer[size..]);
        HeaderOfPrefix(buffer, buffer[..size]);
      }
    }
  }

  /** Whatever the frames contain, a channel stays consistent, every delivered span has exactly its
      announced size, and the bytes lacking are never negative when they are computed. */
  lemma ChannelIsRobust(ch: Channel, vcCount: nat, f: DataField)
    requires ChannelOk(ch) && vcCount < 256 && |f.data| == DATA_SIZE
    ensures ChannelOk(PushField(ch, vcCount, f).channel)
    ensures forall p :: p in PushField(ch, vcCount, f).packets ==> WellFormed(p) && !IsIdle(p)
    ensures |ch.buffer| >= HEADER_SIZE ==> Lacking(ch.buffer) > 0
  {
    hide Extract;
    if f.fhp < DATA_SIZE { ExtractIsSound(f.data[f.fhp..]); }
    ExtractIsSound(ch.buffer + f.data);
    ExtractIsSound([] + f.data);
  }

  // ---- Extraction from a genuine stream ----

  /** From m bytes of the stream at packet d: how many packets are complete. */
  ghost predicate Complete(ps: seq<Packet>, d: nat, e: nat, k: nat) {
    && d <= k <= |ps| && Start(ps, k) <= e
    && (k < |ps| ==> e < Start(ps, k + 1))
  }

  /** The slice of the stream from packet d on begins with packet d's header. */
  lemma HeaderInStream(ps: seq<Packet>, d: nat, e: nat)
    requires AllWellFormed(ps) && d < |ps| && Start(ps, d) + HEADER_SIZE <= e <= |Concat(ps)|
    ensures var b := Concat(ps)[Start(ps, d)..e];
            && SpacePacket.DecodeHeader(b) == SpacePacket.DecodeHeader(ps[d]) && Version(b) == 0
            && (e >= Start(ps, d + 1) ==> b[..|ps[d]|] == ps[d] && b[|ps[d]|..] == Concat(ps)[Start(ps, d + 1)..e])
  {
    hide Start, Concat, SpacePacket.DecodeHeader;
    PacketInStream(ps, d);
    StartStep(ps, d);
    var s := Start(ps, d);
    var b := Concat(ps)[s..e];
    var w := Concat(ps)[s..s + |ps[d]|];
    assert w == ps[d];
    assert WellFormed(ps[d]);
    assert b[..HEADER_SIZE] == w[..HEADER_SIZE];
    HeaderOfPrefix(b, ps[d]);
  }

  /** One extraction step on the stream. */
  lemma ExtractStep(ps: seq<Packet>, d: nat, e: nat)
    requires AllWellFormed(ps) && d < |ps| && Start(ps, d) <= e <= |Concat(ps)|
    ensures Start(ps, d) < Start(ps, d + 1)
    ensures var x := Extract(Concat(ps)[Start(ps, d)..e]);
            if e < Start(ps, d + 1) then x == Extracted(Concat(ps)[Start(ps, d)..e], true, [], 0)
            else
              var y := Extract(Concat(ps)[Start(ps, d + 1)..e]);
              && x.rest == y.rest && x.synced == y.synced
              && x.packets == (if IsIdle(ps[d]) then [] else [ps[d]]) + y.packets
  {
    hide Start, Concat, SpacePacket.DecodeHeader, Version;
    StartStep(ps, d);
    assert WellFormed(ps[d]);
    var b := Concat(ps)[Start(ps, d)..e];
    if |b| >= HEADER_SIZE {
      HeaderInStream(ps, d, e);
      if e >= Start(ps, d + 1) { assert Extract(b).rest == Extract(b[|ps[d]|..]).rest; }
    }
  }

  /** Fields from..to (exclusive) have all arrived. */
  ghost predicate RunArrived(mask: seq<bool>, from: nat, to: nat) {
    forall f :: from <= f < to ==> ArrivedAt(mask, f)
  }

  lemma ArrivedInRun(ps: seq<Packet>, k: nat, mask: seq<bool>, from: nat, to: nat)
    requires k < |ps| && RunArrived(mask, from, to)
    requires DATA_SIZE * from <= Start(ps, k) && Start(ps, k + 1) <= DATA_SIZE * to
    ensures Arrived(ps, k, mask)
  {
    forall f: nat | DATA_SIZE * f < Start(ps, k + 1) && Start(ps, k) < DATA_SIZE * (f + 1)
      ensures ArrivedAt(mask, f)
    {
      assert 122 * from < 122 * (f + 1) && 122 * f < 122 * to;
      assert from <= f < to;
    }
  }

  /** Extraction takes exactly the complete packets of a run of fields that arrived. */
  lemma {:induction false} ExtractFromStream(ps: seq<Packet>, mask: seq<bool>, from: nat, to: nat, d: nat, e: nat)
    returns (k: nat)
    requires AllWellFormed(ps) && d <= |ps| && Start(ps, d) <= e <= |Concat(ps)|
    requires RunArrived(mask, from, to) && DATA_SIZE * from <= Start(ps, d) && e <= DATA_SIZE * to
    ensures Complete(ps, d, e, k)
    ensures var x := Extract(Concat(ps)[Start(ps, d)..e]);
            && x.synced && x.rest == Concat(ps)[Start(ps, k)..e]
            && Survivors(ps, mask, k) == Survivors(ps, mask, d) + x.packets
    decreases |ps| - d
  {
    hide Start, Concat, Extract, Arrived, RunArrived, AllWellFormed;
    if d == |ps| {
      ConcatLength(ps);
      EmptyExtract();
      assert Concat(ps)[Start(ps, d)..e] == [];
      k := d;
    } else {
      ExtractStep(ps, d, e);
      if e < Start(ps, d + 1) {
        k := d;
      } else {
        k := ExtractFromStream(ps, mask, from, to, d + 1, e);
        ArrivedInRun(ps, d, mask, from, to);
        SurvivorsStep(ps, mask, d);
      }
    }
  }

  lemma EmptyExtract()
    ensures Extract([]) == Extracted([], true, [], 0)
  {
  }

  lemma SurvivorsStep(ps: seq<Packet>, mask: seq<bool>, d: nat)
    requires AllWellFormed(ps) && d < |ps|
    ensures Survivors(ps, mask, d + 1)
         == Survivors(ps, mask, d) + (if Arrived(ps, d, mask) && !IsIdle(ps[d]) then [ps[d]] else [])
  {
    hide Arrived;
  }

  // ---- Loss behaviour ----

  /** One past the last field before i that arrived, 0 if none did. */
  function LastBefore(mask: seq<bool>, i: nat): (l: nat)
    requires i <= |mask|
    ensures l <= i && (l > 0 ==> mask[l - 1]) && forall f :: l <= f < i ==> !mask[f]
  {
    if i == 0 then 0 else if mask[i - 1] then i else LastBefore(mask, i - 1)
  }

  /** Number of fields before i that arrived. */
  function Received(mask: seq<bool>, i: nat): (n: nat)
    requires i <= |mask|
    ensures n <= i && (n == 0 <==> LastBefore(mask, i) == 0)
  {
    if i == 0 then 0 else Received(mask, i - 1) + (if mask[i - 1] then 1 else 0)
  }

  /** Index of the first field that arrived. */
  function First(mask: seq<bool>, i: nat): (f: nat)
    requires i <= |mask| && LastBefore(mask, i) > 0
    ensures f < LastBefore(mask, i)
  {
    if LastBefore(mask, i - 1) == 0 then i - 1 else First(mask, i - 1)
  }

  /** Fields missing just before i, between two that arrived. */
  function GapBefore(mask: seq<bool>, i: nat): nat
    requires i < |mask|
  {
    if mask[i] && LastBefore(mask, i) > 0 then i - LastBefore(mask, i) else 0
  }

  /** Between two fields that arrived fewer than 256 are missing, so the 8-bit count tells how many. */
  ghost predicate GapsBounded(mask: seq<bool>) {
    forall i :: 0 <= i < |mask| ==> GapBefore(mask, i) < 256
  }

  /** No gap is a whole number of turns of the 8-bit count, so every gap shows. */
  ghost predicate GapsVisible(mask: seq<bool>) {
    forall i :: 0 <= i < |mask| && GapBefore(mask, i) > 0 ==> GapBefore(mask, i) % 256 != 0
  }

  lemma BoundedGapsAreVisible(mask: seq<bool>)
    requires GapsBounded(mask)
    ensures GapsVisible(mask)
  {
    hide GapBefore;
  }

  /** Everything a channel delivered and counted. */
  datatype Log = Log(channel: Channel, packets: seq<Packet>, lost: nat)

  predicate FullFields(fields: seq<DataField>) {
    forall k :: 0 <= k < |fields| ==> |fields[k].data| == DATA_SIZE
  }

  /** The channel after the fields before i that arrived; field k carries count k modulo 256. */
  function Replay(fields: seq<DataField>, mask: seq<bool>, i: nat): (log: Log)
    requires i <= |fields| == |mask| && FullFields(fields)
    ensures log.channel.expected < 256
  {
    if i == 0 then Log(Channel([], false, false, 0), [], 0)
    else
      var before := Replay(fields, mask, i - 1);
      if !mask[i - 1] then before
      else
        var o := PushField(before.channel, (i - 1) % 256, fields[i - 1]);
        Log(o.channel, before.packets + o.packets, before.lost + o.lost)
  }

  /** Where the channel stands after the fields before i: the first d packets are decided, and with
      synchronisation the buffer holds the part of packet d that has arrived. */
  ghost predicate Tracks(log: Log, ps: seq<Packet>, mask: seq<bool>, last: nat, d: nat) {
    var e := DATA_SIZE * last;
    var ch := log.channel;
    && AllWellFormed(ps) && d <= |ps| && e <= |Concat(ps)|
    && log.packets == Survivors(ps, mask, d)
    && (last == 0 ==> ch == Channel([], false, false, 0) && d == 0)
    && (last > 0 ==> ch.haveCount && ch.expected == last % 256)
    && (ch.synced ==>
          && Start(ps, d) <= e && ch.buffer == Concat(ps)[Start(ps, d)..e]
          && (d < |ps| ==> e < Start(ps, d + 1))
          && RunArrived(mask, Start(ps, d) / DATA_SIZE, last))
    && (!ch.synced ==> ch.buffer == [] && (last > 0 ==> Start(ps, d) >= e && d > 0 && Start(ps, d - 1) < e))
  }

  lemma StartsAtLeast(ps: seq<Packet>, at: nat, d: nat)
    requires d <= |ps| && (d > 0 ==> Start(ps, d - 1) < at)
    ensures d <= StartsBefore(ps, at)
  {
  }

  /** Every undecided packet ends after the last field that arrived. */
  lemma EndsAfter(log: Log, ps: seq<Packet>, mask: seq<bool>, last: nat, d: nat, k: nat)
    requires Tracks(log, ps, mask, last, d) && d <= k < |ps|
    ensures Start(ps, k) < Start(ps, k + 1) && DATA_SIZE * last < Start(ps, k + 1)
  {
    hide Start, Concat, RunArrived, Survivors;
    StartMonotone(ps, d + 1, k + 1);
    StartStep(ps, d);
    StartStep(ps, k);
    assert WellFormed(ps[k]) && WellFormed(ps[d]);
  }

  /** A packet that ends after the last arrival and starts before the next has lost a field. */
  lemma TouchesGap(ps: seq<Packet>, mask: seq<bool>, k: nat, last: nat, i: nat)
    requires k < |ps| && Start(ps, k) < Start(ps, k + 1)
    requires DATA_SIZE * last < Start(ps, k + 1) && Start(ps, k) < DATA_SIZE * i
    requires forall f :: last <= f < i ==> !ArrivedAt(mask, f)
    requires last < i
    ensures !Arrived(ps, k, mask)
  {
    hide Start, Arrived;
    if Start(ps, k) < DATA_SIZE * last {
      MissingFieldLosesPacket(ps, mask, k, last);
    } else {
      var f := Start(ps, k) / DATA_SIZE;
      FieldRange(Start(ps, k), last, i);
      MissingFieldLosesPacket(ps, mask, k, f);
    }
  }

  lemma FieldRange(s: nat, from: nat, to: nat)
    requires DATA_SIZE * from <= s < DATA_SIZE * to
    ensures from <= s / DATA_SIZE < to && DATA_SIZE * (s / DATA_SIZE) <= s < DATA_SIZE * (s / DATA_SIZE + 1)
  {
  }

  /** Undecided packets that start before a gap or in it did not arrive. */
  lemma GapLosesPackets(log: Log, ps: seq<Packet>, mask: seq<bool>, last: nat, d: nat, i: nat)
    requires Tracks(log, ps, mask, last, d)
    requires last <= i <= |mask| && forall f :: last <= f < i ==> !mask[f]
    requires log.channel.synced ==> last < i
    ensures forall k :: d <= k < StartsBefore(ps, DATA_SIZE * i) ==> !Arrived(ps, k, mask)
    ensures d <= StartsBefore(ps, DATA_SIZE * i)
    ensures Survivors(ps, mask, StartsBefore(ps, DATA_SIZE * i)) == log.packets
  {
    hide Start, Concat, RunArrived, Survivors, Arrived;
    var d1 := StartsBefore(ps, DATA_SIZE * i);
    StartBelow(ps, d);
    StartsAtLeast(ps, DATA_SIZE * i, d);
    if last == i { StartsBeforeIs(ps, DATA_SIZE * i, d); }
    forall k | d <= k < d1
      ensures !Arrived(ps, k, mask)
    {
      StartMonotone(ps, k, d1 - 1);
      EndsAfter(log, ps, mask, last, d, k);
      TouchesGap(ps, mask, k, last, i);
    }
    LostPacketsAddNothing(ps, mask, d, d1);
  }

  /** The packet before an undecided one starts earlier. */
  lemma StartBelow(ps: seq<Packet>, d: nat)
    requires AllWellFormed(ps) && d <= |ps|
    ensures d > 0 ==> Start(ps, d - 1) < Start(ps, d)
  {
    if d > 0 {
      StartStep(ps, d - 1);
      assert WellFormed(ps[d - 1]);
    }
  }

  /** A field arrives while the channel is not synchronised, or after a gap. */
  lemma FieldResyncs(log: Log, ps: seq<Packet>, mask: seq<bool>, last: nat, d: nat, i: nat, f: DataField)
    returns (k: nat)
    requires Tracks(log, ps, mask, last, d) && FieldAt(f, ps, i)
    requires last <= i < |mask| && mask[i] && forall j :: last <= j < i ==> !mask[j]
    requires log.channel.synced ==> last < i
    requires last > 0 && last < i ==> (i - last) % 256 != 0
    requires last == 0 ==> !log.channel.haveCount
    ensures log.channel.expected < 256
    ensures var o := PushField(log.channel, i % 256, f);
            Tracks(Log(o.channel, log.packets + o.packets, log.lost + o.lost), ps, mask, i + 1, k)
  {
    hide Start, Concat, Survivors, Arrived, Extract;
    GapLosesPackets(log, ps, mask, last, d, i);
    var at := DATA_SIZE * i;
    var d1 := StartsBefore(ps, at);
    var e := at + DATA_SIZE;
    var o := PushField(log.channel, i % 256, f);
    GapCount(last, i);
    if d1 < |ps| && Start(ps, d1) < e {
      assert f.fhp == Start(ps, d1) - at;
      assert f.data[f.fhp..] == Concat(ps)[Start(ps, d1)..e];
      assert RunArrived(mask, i, i + 1);
      k := ExtractFromStream(ps, mask, i, i + 1, d1, e);
      StartMonotone(ps, d1, k);
      assert Start(ps, k) / DATA_SIZE >= i;
    } else {
      assert f.fhp == FHP_NONE;
      k := d1;
      ConcatLength(ps);
      assert o.packets == [];
      assert log.packets + [] == log.packets;
      FirstStart(ps, at);
    }
  }

  lemma GapCount(last: nat, i: nat)
    requires last <= i
    ensures (i % 256 + 1) % 256 == (i + 1) % 256
    ensures i % 256 == last % 256 <==> (i - last) % 256 == 0
  {
    NextCount(i);
    DifferenceOfCounts(last, i);
    SmallDifference(i % 256, last % 256);
  }

  lemma NextCount(i: nat)
    ensures (i % 256 + 1) % 256 == (i + 1) % 256
  {
  }

  lemma SmallDifference(a: nat, b: nat)
    requires a < 256 && b < 256
    ensures a == b <==> (a - b) % 256 == 0
  {
  }

  /** After a gap the counter grows by the missing fields modulo 256: it is right exactly for gaps of
      fewer than 256, and a gap of 256 is not noticed at all. */
  lemma LossCountIsExactIff(ch: Channel, f: DataField, last: nat, i: nat)
    requires ch.haveCount && ch.expected == last % 256 && last <= i && |f.data| == DATA_SIZE
    ensures var o := PushField(ch, i % 256, f);
            o.lost == (i - last) % 256 && (o.lost == i - last <==> i - last < 256)
  {
    hide Extract, Lacking;
    DifferenceOfCounts(last, i);
  }

  lemma DifferenceOfCounts(last: nat, i: nat)
    requires last <= i
    ensures (i % 256 - last % 256) % 256 == (i - last) % 256
  {
  }

  /** The first packet starts at 0, so a field with nothing starting before it is the first. */
  lemma FirstStart(ps: seq<Packet>, at: nat)
    requires Concat(ps) != []
    ensures ps != [] && Start(ps, 0) == 0 && (StartsBefore(ps, at) == 0 ==> at == 0)
  {
    var k := StartsBefore(ps, at);
    if k == 0 { assert Start(ps, 0) >= at; }
  }

  /** A field continues a synchronised channel: the pointer confirms the packet in progress. */
  lemma FieldContinues(log: Log, ps: seq<Packet>, mask: seq<bool>, i: nat, d: nat, f: DataField) returns (k: nat)
    requires Tracks(log, ps, mask, i, d) && FieldAt(f, ps, i)
    requires i < |mask| && mask[i] && log.channel.synced
    ensures log.channel.expected < 256
    ensures var o := PushField(log.channel, i % 256, f);
            Tracks(Log(o.channel, log.packets + o.packets, log.lost + o.lost), ps, mask, i + 1, k)
  {
    hide Start, Concat, Survivors, Arrived, Extract, SpacePacket.DecodeHeader;
    var at := DATA_SIZE * i;
    var e := at + DATA_SIZE;
    var ch := log.channel;
    GapCount(i, i);
    ConcatLength(ps);
    assert d < |ps|;
    PointerConfirms(ps, d, at, f.fhp, ch.buffer);
    var o := PushField(ch, i % 256, f);
    assert ch.buffer + f.data == Concat(ps)[Start(ps, d)..e];
    var from := Start(ps, d) / DATA_SIZE;
    assert RunArrived(mask, from, i + 1);
    k := ExtractFromStream(ps, mask, from, i + 1, d, e);
    StartMonotone(ps, d, k);
    assert Start(ps, k) / DATA_SIZE >= from;
  }

  /** If a header is in the buffer and a packet starts in the next field, it starts where the packet in
      progress ends. */
  lemma PointerConfirms(ps: seq<Packet>, d: nat, at: nat, fhp: nat, buffer: seq<Byte>)
    requires AllWellFormed(ps) && d < |ps| && Start(ps, d) <= at < Start(ps, d + 1) && at <= |Concat(ps)|
    requires buffer == Concat(ps)[Start(ps, d)..at] && fhp == Pointer(ps, at)
    ensures fhp != FHP_NONE && |buffer| >= HEADER_SIZE ==> Lacking(buffer) == fhp
  {
    hide Start, Concat, SpacePacket.DecodeHeader;
    StartStep(ps, d);
    if |buffer| >= HEADER_SIZE {
      HeaderInStream(ps, d, at);
      assert WellFormed(ps[d]);
      StartsBeforeIs(ps, at, d + 1);
    }
  }

  /** One more field, lost or not. */
  lemma ReplayTracksStep(fields: seq<DataField>, ps: seq<Packet>, mask: seq<bool>, i: nat, c: nat) returns (d: nat)
    requires AllWellFormed(ps) && Packed(fields, ps) && |mask| == |fields| && 0 < i <= |fields|
    requires FullFields(fields) && GapsVisible(mask)
    requires Tracks(Replay(fields, mask, i - 1), ps, mask, LastBefore(mask, i - 1), c)
    ensures Tracks(Replay(fields, mask, i), ps, mask, LastBefore(mask, i), d)
  {
    hide Tracks, PushField, FieldAt, Replay, LastBefore, FullFields, AllWellFormed;
    LastBeforeStep(mask, i);
    ReplayStep(fields, mask, i);
    d := c;
    if mask[i - 1] {
      var last := LastBefore(mask, i - 1);
      assert FieldAt(fields[i - 1], ps, i - 1);
      assert last > 0 ==> GapBefore(mask, i - 1) == i - 1 - last;
      d := FieldArrives(Replay(fields, mask, i - 1), ps, mask, last, c, i - 1, fields[i - 1]);
    }
  }

  /** The channel is tracked at every point of every loss pattern. */
  lemma {:induction false} ReplayTracks(fields: seq<DataField>, ps: seq<Packet>, mask: seq<bool>, i: nat)
    returns (d: nat)
    requires AllWellFormed(ps) && Packed(fields, ps) && |mask| == |fields| && i <= |fields|
    requires FullFields(fields) && GapsVisible(mask)
    ensures Tracks(Replay(fields, mask, i), ps, mask, LastBefore(mask, i), d)
  {
    hide Tracks, Replay, LastBefore, FullFields, Packed, GapsVisible, AllWellFormed;
    if i == 0 {
      d := 0;
      TracksAtStart(fields, ps, mask);
    } else {
      d := ReplayTracks(fields, ps, mask, i - 1);
      d := ReplayTracksStep(fields, ps, mask, i, d);
    }
  }

  /** A field arrives, in sequence or after a gap. */
  lemma FieldArrives(log: Log, ps: seq<Packet>, mask: seq<bool>, last: nat, d: nat, i: nat, f: DataField)
    returns (k: nat)
    requires Tracks(log, ps, mask, last, d) && FieldAt(f, ps, i)
    requires last <= i < |mask| && mask[i] && forall j :: last <= j < i ==> !mask[j]
    requires last > 0 && last < i ==> (i - last) % 256 != 0
    ensures log.channel.expected < 256
    ensures var o := PushField(log.channel, i % 256, f);
            Tracks(Log(o.channel, log.packets + o.packets, log.lost + o.lost), ps, mask, i + 1, k)
  {
    hide Tracks, FieldAt, PushField;
    NoCountYet(log, ps, mask, last, d);
    if log.channel.synced && last == i {
      k := FieldContinues(log, ps, mask, i, d, f);
    } else {
      k := FieldResyncs(log, ps, mask, last, d, i, f);
    }
  }

  lemma LastBeforeStep(mask: seq<bool>, i: nat)
    requires i <= |mask|
    ensures i == 0 ==> LastBefore(mask, i) == 0
    ensures i > 0 ==> LastBefore(mask, i) == if mask[i - 1] then i else LastBefore(mask, i - 1)
  {
  }

  lemma ReplayStep(fields: seq<DataField>, mask: seq<bool>, i: nat)
    requires 0 < i <= |fields| == |mask| && FullFields(fields)
    ensures var before := Replay(fields, mask, i - 1);
            Replay(fields, mask, i) ==
            if mask[i - 1] then
              var o := PushField(before.channel, (i - 1) % 256, fields[i - 1]);
              Log(o.channel, before.packets + o.packets, before.lost + o.lost)
            else before
  {
    hide PushField;
  }

  lemma NoCountYet(log: Log, ps: seq<Packet>, mask: seq<bool>, last: nat, d: nat)
    requires Tracks(log, ps, mask, last, d)
    ensures last == 0 ==> !log.channel.haveCount && !log.channel.synced
  {
  }

  lemma TracksAtStart(fields: seq<DataField>, ps: seq<Packet>, mask: seq<bool>)
    requires AllWellFormed(ps) && |mask| == |fields|
    requires FullFields(fields)
    ensures Tracks(Replay(fields, mask, 0), ps, mask, LastBefore(mask, 0), 0)
  {
  }

  /** Delivery on a virtual channel: for every pattern of lost fields in which each gap shows, the channel
      delivers exactly the non-idle packets all of whose fields arrived, in order and unchanged. */
  lemma {:induction false} DeliveryBehaviour(fields: seq<DataField>, ps: seq<Packet>, mask: seq<bool>)
    requires AllWellFormed(ps) && Packed(fields, ps) && |mask| == |fields|
    requires FullFields(fields)
    requires GapsVisible(mask)
    ensures Replay(fields, mask, |fields|).packets == Survivors(ps, mask, |ps|)
  {
    hide Packed, PushField, Replay, Survivors, Start, Concat;
    var d := ReplayTracks(fields, ps, mask, |fields|);
    UndecidedAreLost(Replay(fields, mask, |fields|), ps, mask, LastBefore(mask, |mask|), d);
  }

  // ---- The loss counter ----

  /** Fields missing between the first and the last that arrived. */
  function Missing(mask: seq<bool>, i: nat): nat
    requires i <= |mask|
  {
    if i == 0 then 0 else Missing(mask, i - 1) + GapBefore(mask, i - 1)
  }

  /** The same with every gap taken modulo 256. */
  function MissingModulo(mask: seq<bool>, i: nat): nat
    requires i <= |mask|
  {
    if i == 0 then 0 else MissingModulo(mask, i - 1) + GapBefore(mask, i - 1) % 256
  }

  /** Missing is what lies between the first and the last arrival and did not arrive. */
  lemma {:induction false} MissingIsBetween(mask: seq<bool>, i: nat)
    requires i <= |mask|
    ensures Missing(mask, i) == if Received(mask, i) == 0 then 0
            else LastBefore(mask, i) - First(mask, i) - Received(mask, i)
  {
    if i > 0 { MissingIsBetween(mask, i - 1); }
  }

  lemma PushCounts(ch: Channel, vcCount: nat, f: DataField)
    requires vcCount < 256 && ch.expected < 256 && |f.data| == DATA_SIZE
    ensures var o := PushField(ch, vcCount, f);
            o.channel.haveCount && o.channel.expected == (vcCount + 1) % 256 &&
            o.lost == if ch.haveCount then (vcCount - ch.expected) % 256 else 0
  {
    hide Extract, Lacking;
  }

  /** Whatever the fields hold and whatever was lost, the counter adds every gap modulo 256. */
  lemma {:induction false} CounterIsModulo(fields: seq<DataField>, mask: seq<bool>, i: nat)
    requires i <= |fields| == |mask| && FullFields(fields)
    ensures var log := Replay(fields, mask, i); var last := LastBefore(mask, i);
            log.lost == MissingModulo(mask, i) && (log.channel.haveCount <==> last > 0) &&
            (last > 0 ==> log.channel.expected == last % 256)
  {
    hide PushField, Replay, LastBefore, GapBefore, FullFields;
    if i == 0 {
      NothingReplayed(fields, mask);
    } else {
      CounterIsModulo(fields, mask, i - 1);
      LastBeforeStep(mask, i);
      ReplayStep(fields, mask, i);
      GapIs(mask, i - 1);
      if mask[i - 1] {
        var last := LastBefore(mask, i - 1);
        FieldIsFull(fields, i - 1);
        PushCounts(Replay(fields, mask, i - 1).channel, (i - 1) % 256, fields[i - 1]);
        DifferenceOfCounts(last, i - 1);
        GapCount(last, i - 1);
      }
    }
  }

  lemma NothingReplayed(fields: seq<DataField>, mask: seq<bool>)
    requires |fields| == |mask| && FullFields(fields)
    ensures Replay(fields, mask, 0) == Log(Channel([], false, false, 0), [], 0) && LastBefore(mask, 0) == 0
  {
  }

  lemma GapIs(mask: seq<bool>, i: nat)
    requires i < |mask|
    ensures GapBefore(mask, i) == if mask[i] && LastBefore(mask, i) > 0 then i - LastBefore(mask, i) else 0
  {
  }

  lemma FieldIsFull(fields: seq<DataField>, i: nat)
    requires i < |fields| && FullFields(fields)
    ensures |fields[i].data| == DATA_SIZE
  {
  }

  lemma {:induction false} ModuloIsLess(mask: seq<bool>, i: nat)
    requires i <= |mask|
    ensures MissingModulo(mask, i) <= Missing(mask, i)
    ensures MissingModulo(mask, i) == Missing(mask, i) <==> forall k :: 0 <= k < i ==> GapBefore(mask, k) < 256
  {
    hide GapBefore;
    if i > 0 {
      ModuloIsLess(mask, i - 1);
      Reduced256(GapBefore(mask, i - 1));
    }
  }

  lemma Reduced256(x: nat)
    ensures x % 256 <= x && (x % 256 == x <==> x < 256)
  {
  }

  /** The counter is right exactly when no gap has 256 fields or more. */
  lemma {:induction false} CounterIsRightIff(fields: seq<DataField>, mask: seq<bool>)
    requires |fields| == |mask| && FullFields(fields)
    ensures Replay(fields, mask, |fields|).lost == Missing(mask, |mask|) <==> GapsBounded(mask)
  {
    hide Replay, GapBefore, LastBefore;
    CounterIsModulo(fields, mask, |fields|);
    ModuloIsLess(mask, |mask|);
  }

  /** Loss behaviour of a virtual channel: with fewer than 256 fields missing in a row, the channel delivers
      exactly the non-idle packets all of whose fields arrived, in order and unchanged, and counts exactly the
      fields missing between the first and the last that arrived. */
  lemma {:induction false} LossBehaviour(fields: seq<DataField>, ps: seq<Packet>, mask: seq<bool>)
    requires AllWellFormed(ps) && Packed(fields, ps) && |mask| == |fields|
    requires FullFields(fields)
    requires GapsBounded(mask)
    ensures var log := Replay(fields, mask, |fields|);
            && log.packets == Survivors(ps, mask, |ps|)
            && log.lost == if Received(mask, |mask|) == 0 then 0
                           else LastBefore(mask, |mask|) - First(mask, |mask|) - Received(mask, |mask|)
  {
    hide Packed, Replay, Survivors, GapsBounded, GapsVisible, AllWellFormed, FullFields, Missing;
    BoundedGapsAreVisible(mask);
    DeliveryBehaviour(fields, ps, mask);
    CounterIsRightIff(fields, mask);
    MissingIsBetween(mask, |mask|);
  }

  /** Packets still undecided when no more fields come have not arrived. */
  lemma UndecidedAreLost(log: Log, ps: seq<Packet>, mask: seq<bool>, last: nat, d: nat)
    requires Tracks(log, ps, mask, last, d) && last == LastBefore(mask, |mask|)
    ensures Survivors(ps, mask, |ps|) == log.packets
  {
    hide Start, Concat, RunArrived, Survivors, Arrived;
    forall k | d <= k < |ps|
      ensures !Arrived(ps, k, mask)
    {
      EndsAfter(log, ps, mask, last, d, k);
      var i := last + Start(ps, k) + 1;
      assert Start(ps, k) < 122 * i;
      TouchesGap(ps, mask, k, last, i);
    }
    LostPacketsAddNothing(ps, mask, d, |ps|);
  }
}
