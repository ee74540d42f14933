/** The ring with its two cores running at the same time. Every access to shared memory is a step of
    its own: the producer reads the tail, stores one byte at a time and publishes the head; the
    consumer reads the head, loads one byte at a time and publishes the tail. A schedule is any
    sequence of such steps, so a claim about every schedule is a claim about every interleaving. */
module RingConcurrent {

  import opened Arith
  import opened Bytes
  import opened RingLayout

  /** One byte to be stored at an offset of the area. */
  datatype Store = Store(at: nat, value: Byte)

  /** Where the producer is in a write. `base` is the area when its stores began. */
  datatype Producer =
    | Idle
    | Checked(kind: nat, payload: seq<Byte>)
    | Storing(msg: Msg, pad: nat, base: seq<Byte>, stores: seq<Store>, done: nat)

  /** Where the consumer is in a read. `upTo` and `count` are the bytes and messages that were
      published when it read the head. */
  datatype Consumer =
    | Waiting
    | Seen(head: nat, upTo: nat, count: nat)
    | Loading(head: nat, upTo: nat, count: nat, loaded: seq<Byte>)
    | Skipping(head: nat, upTo: nat, count: nat)
    | Failed

  /** Shared memory, both cores, and the history: bytes produced and consumed, the messages queued, the
      arguments of the write in progress, what all successful writes asked for, and what was delivered. */
  datatype State = State(
    data: seq<Byte>, head: nat, tail: nat, seqNo: nat, producer: Producer, consumer: Consumer,
    produced: nat, consumed: nat, queue: seq<Msg>, call: Call, sent: seq<Msg>, delivered: seq<Msg>)

  datatype Call = Call(kind: nat, payload: seq<Byte>)

  /** One step of one core; the arguments are those of the call it may begin or answer. */
  datatype Step = Produce(kind: nat, payload: seq<Byte>) | Consume(cap: nat)

  function Start(size: nat): State
  {
    State(seq(size, _ => 0), 0, 0, 0, Idle, Waiting, 0, 0, [], Call(0, []), [], [])
  }

  // ---- The producer's steps ----

  /** One store per byte, in address order. */
  function StoresAt(at: nat, bytes: seq<Byte>): (s: seq<Store>)
    ensures |s| == |bytes| && forall i :: 0 <= i < |s| ==> s[i] == Store(at + i, bytes[i])
  {
    seq(|bytes|, i requires 0 <= i < |bytes| => Store(at + i, bytes[i]))
  }

  /** All stores of a write: the padding marker if needed, then the record. */
  function Stores(head: nat, pad: nat, m: Msg, size: nat): seq<Store>
    requires size > 0 && ValidMsg(m)
  {
    StoresAt(head % size, if pad != 0 then Marker() else []) + StoresAt((head + pad) % WRAP % size, Encoded(m))
  }

  function ProducerStep(s: State, kind: nat, payload: seq<Byte>): State
    requires |s.data| > 0 && s.head < WRAP && s.tail < WRAP && s.seqNo < WRAP
    requires s.producer.Checked? ==> s.producer.kind < PAD_TYPE && |s.producer.payload| <= MAX_PAYLOAD
    requires s.producer.Storing? && s.producer.done < |s.producer.stores| ==>
               s.producer.stores[s.producer.done].at < |s.data|
  {
    var size := |s.data|;
    match s.producer
    case Idle =>
      if kind >= PAD_TYPE || |payload| > MAX_PAYLOAD then s
      else s.(producer := Checked(kind, payload), call := Call(kind, payload))
    case Checked(k, p) =>
      var record := RecordSize(|p|);
      var pad := Pad(s.head, record, size);
      var m := Msg(k, s.seqNo, p);
      if pad + record > size - Sub32(s.head, s.tail) then s.(producer := Idle)
      else s.(producer := Storing(m, pad, s.data, Stores(s.head, pad, m, size), 0))
    case Storing(m, pad, base, stores, done) =>
      if done < |stores| then
        s.(data := s.data[stores[done].at := stores[done].value], producer := Storing(m, pad, base, stores, done + 1))
      else
        s.(head := ((s.head + pad) % WRAP + RecordSize(|m.payload|)) % WRAP, seqNo := (s.seqNo + 1) % WRAP,
           producer := Idle, produced := s.produced + pad + RecordSize(|m.payload|),
           queue := s.queue + [m],
           sent := s.sent + [Msg(s.call.kind, |s.sent| % WRAP, s.call.payload)])
  }

  // ---- The consumer's steps ----

  /** Offset in the record of the k-th byte loaded: the type first, for the padding test, then the
      record from its beginning. */
  function LoadOffset(k: nat): nat { if k < 2 then k + 2 else k - 2 }

  function Load(s: State, c: Consumer): State
    requires c.Loading? && |s.data| > 0 && s.tail % |s.data| + LoadOffset(|c.loaded|) < |s.data|
  {
    s.(consumer := c.(loaded := c.loaded + [s.data[s.tail % |s.data| + LoadOffset(|c.loaded|)]]))
  }

  /** The checks on the length field. */
  predicate LengthFits(s: State, c: Consumer)
    requires c.Loading? && |c.loaded| >= 4 && |s.data| > 0 && c.head < WRAP && s.tail < WRAP
  {
    var n := Get16(c.loaded, 2);
    n <= MAX_PAYLOAD && RecordSize(n) <= |s.data| - s.tail % |s.data| && RecordSize(n) <= Sub32(c.head, s.tail)
  }

  function ConsumerStep(s: State, cap: nat): State
    requires |s.data| > 0 && s.head < WRAP && s.tail < WRAP
    requires !s.consumer.Waiting? && !s.consumer.Failed? ==> s.consumer.head < WRAP
    requires s.consumer.Loading? ==>
               var off := s.tail % |s.data|;
               && off + REC_HDR <= |s.data|
               && (|s.consumer.loaded| > 4 ==> LengthFits(s, s.consumer))
    requires s.consumer.Loading? && |s.consumer.loaded| >= 10 + Get16Or0(s.consumer.loaded, 2) ==> s.queue != []
  {
    var size := |s.data|;
    var toEnd := size - s.tail % size;
    match s.consumer
    case Waiting => s.(consumer := Seen(s.head, s.produced, |s.queue|))
    case Failed => s
    case Seen(head, upTo, count) =>
      if head == s.tail then s.(consumer := Waiting)
      else if Sub32(head, s.tail) > size then s.(consumer := Failed)
      else if toEnd < REC_HDR then s.(consumer := Skipping(head, upTo, count))
      else s.(consumer := Loading(head, upTo, count, []))
    case Skipping(head, upTo, count) =>
      s.(tail := (s.tail + toEnd) % WRAP, consumed := s.consumed + toEnd, consumer := Waiting)
    case Loading(head, upTo, count, loaded) =>
      if |loaded| < 2 || |loaded| == 3 then Load(s, s.consumer)
      else if |loaded| == 2 then
        if Get16(loaded, 0) == PAD_TYPE then s.(consumer := Skipping(head, upTo, count)) else Load(s, s.consumer)
      else if |loaded| == 4 && !LengthFits(s, s.consumer) then s.(consumer := Failed)
      else if |loaded| == 4 && Get16(loaded, 2) > cap then s.(consumer := Waiting)
      else if |loaded| < 10 + Get16(loaded, 2) then Load(s, s.consumer)
      else
        var record := RecordSize(Get16(loaded, 2));
        s.(tail := (s.tail + record) % WRAP, consumed := s.consumed + record, consumer := Waiting,
           queue := s.queue[1..], delivered := s.delivered + [Msg(Get16(loaded, 4), Get32(loaded, 6), loaded[10..])])
  }

  function Get16Or0(p: seq<Byte>, at: nat): nat {
    if at + 2 <= |p| then Get16(p, at) else 0
  }

  // ---- The invariant ----

  /** Ring, sequence numbers and history agree. */
  ghost predicate RingInv(s: State) {
    && |s.data| > 0 && s.head < WRAP && s.tail < WRAP
    && Consistent(s.data, |s.data|, s.head, s.tail, s.produced, s.consumed, s.queue)
    && s.sent == s.delivered + s.queue
    && s.seqNo == |s.sent| % WRAP
    && forall k :: 0 <= k < |s.sent| ==> s.sent[k].seqNo == k % WRAP
  }

  /** A store that no published address shares. */
  ghost predicate Spares(offset: nat, t: nat, h: nat, size: nat)
    requires size > 0
  {
    forall k :: t <= k < h ==> k % size != offset
  }

  ghost predicate AllSpare(stores: seq<Store>, t: nat, h: nat, size: nat)
    requires size > 0
  {
    forall i :: 0 <= i < |stores| ==> stores[i].at < size && Spares(stores[i].at, t, h, size)
  }

  ghost predicate InArea(stores: seq<Store>, size: nat) {
    forall i :: 0 <= i < |stores| ==> stores[i].at < size
  }

  /** The area after some stores. */
  ghost function Apply(d: seq<Byte>, stores: seq<Store>): (r: seq<Byte>)
    requires InArea(stores, |d|)
    ensures |r| == |d|
  {
    if stores == [] then d
    else
      var last := stores[|stores| - 1];
      Apply(d, stores[..|stores| - 1])[last.at := last.value]
  }

  ghost predicate ProducerInv(s: State)
    requires |s.data| > 0 && s.head < WRAP && s.tail < WRAP
  {
    match s.producer
    case Idle => true
    case Checked(k, p) => k < PAD_TYPE && |p| <= MAX_PAYLOAD && s.call == Call(k, p)
    case Storing(m, pad, base, stores, done) =>
      var size := |s.data|;
      var record := RecordSize(|m.payload|);
      && ValidMsg(m) && m == Msg(s.call.kind, s.seqNo, s.call.payload) && pad == Pad(s.produced, record, size)
      && s.produced + pad + record <= s.consumed + size
      && AreaSize(size) && s.produced % 4 == 0 && record <= size && |base| == size
      && done <= |stores| && stores == Stores(s.produced % WRAP, pad, m, size)
      && AllSpare(stores, s.consumed, s.produced, size) && InArea(stores, size)
      && s.data == Apply(base, stores[..done])
      && Apply(base, stores) == Written(base, s.produced, m, size)
  }

  /** What was published when the consumer read the head is still there. */
  ghost predicate Snapshot(s: State, head: nat, upTo: nat, count: nat) {
    && head < WRAP && count <= |s.queue| && upTo <= s.produced
    && Consistent(s.data, |s.data|, head, s.tail, upTo, s.consumed, s.queue[..count])
  }

  ghost predicate ConsumerInv(s: State)
    requires |s.data| > 0 && s.head < WRAP && s.tail < WRAP
  {
    match s.consumer
    case Waiting => true
    case Failed => false
    case Seen(head, upTo, count) => Snapshot(s, head, upTo, count)
    case Skipping(head, upTo, count) => Snapshot(s, head, upTo, count) && count > 0 && PaddedAt(s.data, s.consumed)
    case Loading(head, upTo, count, loaded) =>
      var off := s.consumed % |s.data|;
      && Snapshot(s, head, upTo, count) && count > 0 && off + REC_HDR <= |s.data|
      && s.tail % |s.data| == off
      && (|loaded| > 2 ==> !PaddedAt(s.data, s.consumed))
      && (|loaded| > 4 ==> |loaded| <= 10 + |s.queue[0].payload|)
      && (|loaded| > 4 ==> off + REC_HDR + |s.queue[0].payload| <= |s.data|)
      && forall k :: 0 <= k < |loaded| ==> off + LoadOffset(k) < |s.data| && loaded[k] == s.data[off + LoadOffset(k)]
  }

  ghost predicate Inv(s: State) {
    RingInv(s) && ProducerInv(s) && ConsumerInv(s)
  }

  // ---- Every byte the consumer can read is stable ----

  /** One store to a spared offset leaves the published addresses alone. */
  lemma StoreSpares(d: seq<Byte>, offset: nat, b: Byte, t: nat, h: nat)
    requires offset < |d| && Spares(offset, t, h, |d|)
    ensures SameOn(d, d[offset := b], t, h)
  {
  }

  lemma ConsistentStable(a: seq<Byte>, b: seq<Byte>, size: nat, head: nat, tail: nat, produced: nat, consumed: nat,
                         queue: seq<Msg>)
    requires Consistent(a, size, head, tail, produced, consumed, queue)
    requires size == |a| && SameOn(a, b, consumed, produced)
    ensures Consistent(b, size, head, tail, produced, consumed, queue)
  {
    hide Holds, SameOn, AreaSize;
    SameSizes(a, b, consumed, produced);
    assert a[..size] == a && b[..size] == b;
    HoldsIsStable(a, b, consumed, produced, queue);
  }

  lemma SnapshotStable(s: State, d: seq<Byte>, head: nat, upTo: nat, count: nat)
    requires RingInv(s) && Snapshot(s, head, upTo, count) && SameOn(s.data, d, s.consumed, s.produced)
    ensures Snapshot(s.(data := d), head, upTo, count)
  {
    hide Consistent, SameOn;
    SameSizes(s.data, d, s.consumed, s.produced);
    SameOnShorter(s.data, d, s.consumed, upTo, s.produced);
    ConsistentStable(s.data, d, |s.data|, head, s.tail, upTo, s.consumed, s.queue[..count]);
  }

  lemma SameOnShorter(a: seq<Byte>, b: seq<Byte>, t: nat, m: nat, h: nat)
    requires SameOn(a, b, t, h) && m <= h
    ensures SameOn(a, b, t, m)
  {
  }

  /** How many bytes from the tail on a nonempty snapshot covers. */
  lemma SnapshotCovers(s: State, head: nat, upTo: nat, count: nat)
    requires |s.data| > 0 && Snapshot(s, head, upTo, count) && count > 0
    ensures s.queue != [] && s.consumed + REC_HDR <= upTo <= s.produced
    ensures !PaddedAt(s.data, s.consumed) ==>
              var off, n := s.consumed % |s.data|, |s.queue[0].payload|;
              && off + REC_HDR + n <= |s.data| && s.consumed + REC_HDR + n <= upTo
  {
    hide Holds, PaddedAt, AreaSize;
    var q := s.queue[..count];
    assert s.data[..|s.data|] == s.data && q[0] == s.queue[0];
    HoldsIsOrdered(s.data, s.consumed, upTo, q);
    if !PaddedAt(s.data, s.consumed) {
      FirstMessage(s.data, |s.data|, head, s.tail, upTo, s.consumed, q);
    }
  }

  /** A byte the consumer has loaded stays what it was. */
  lemma ByteStable(a: seq<Byte>, b: seq<Byte>, t: nat, h: nat, i: nat)
    requires SameOn(a, b, t, h) && t + i < h && t % |a| + i < |a|
    ensures a[t % |a| + i] == b[t % |a| + i]
  {
    SameLap(t, i, |a|);
    assert a[(t + i) % |a|] == b[(t + i) % |a|];
  }

  /** Writing outside the published addresses is invisible to the consumer. */
  lemma ConsumerUndisturbed(s: State, d: seq<Byte>)
    requires RingInv(s) && ConsumerInv(s) && SameOn(s.data, d, s.consumed, s.produced)
    ensures |d| == |s.data| > 0 && ConsumerInv(s.(data := d))
  {
    hide Snapshot, SameOn, PaddedAt, Consistent;
    SameSizes(s.data, d, s.consumed, s.produced);
    match s.consumer
    case Waiting =>
    case Seen(head, upTo, count) => SnapshotStable(s, d, head, upTo, count);
    case Skipping(head, upTo, count) =>
      SnapshotStable(s, d, head, upTo, count);
      SnapshotCovers(s, head, upTo, count);
      SamePadding(s.data, d, s.consumed, s.produced);
    case Loading(head, upTo, count, loaded) =>
      SnapshotStable(s, d, head, upTo, count);
      SnapshotCovers(s, head, upTo, count);
      SamePadding(s.data, d, s.consumed, s.produced);
      LoadedStable(s, d);
  }

  lemma LoadedStable(s: State, d: seq<Byte>)
    requires RingInv(s) && ConsumerInv(s) && SameOn(s.data, d, s.consumed, s.produced) && s.consumer.Loading?
    ensures forall k :: 0 <= k < |s.consumer.loaded| ==>
                          s.consumer.loaded[k] == s.data[s.consumed % |s.data| + LoadOffset(k)]
                                               == d[s.consumed % |s.data| + LoadOffset(k)]
  {
    hide Snapshot, SameOn, PaddedAt, Consistent;
    SameSizes(s.data, d, s.consumed, s.produced);
    var c := s.consumer;
    SnapshotCovers(s, c.head, c.upTo, c.count);
    forall k | 0 <= k < |c.loaded|
      ensures c.loaded[k] == s.data[s.consumed % |s.data| + LoadOffset(k)]
           == d[s.consumed % |s.data| + LoadOffset(k)]
    {
      assert |c.loaded| > 4 ==> LoadOffset(k) < REC_HDR + |s.queue[0].payload|;
      ByteStable(s.data, d, s.consumed, s.produced, LoadOffset(k));
    }
  }

  // ---- The producer keeps the invariant ----

  lemma {:induction false} ApplyPatch(d: seq<Byte>, at: nat, bytes: seq<Byte>)
    requires at + |bytes| <= |d|
    ensures Apply(d, StoresAt(at, bytes)) == Patch(d, at, bytes)
  {
    if bytes != [] {
      var front := bytes[..|bytes| - 1];
      var stores := StoresAt(at, bytes);
      assert stores[..|stores| - 1] == StoresAt(at, front);
      ApplyPatch(d, at, front);
      assert Patch(d, at, bytes) == Patch(d, at, front)[at + |front| := bytes[|front|]];
    }
  }

  lemma {:induction false} ApplyAppend(d: seq<Byte>, a: seq<Store>, b: seq<Store>)
    requires InArea(a, |d|) && InArea(b, |d|) && InArea(a + b, |d|)
    ensures Apply(d, a + b) == Apply(Apply(d, a), b)
  {
    if b == [] {
      assert a + b == a;
    } else {
      assert (a + b)[..|a + b| - 1] == a + b[..|b| - 1];
      ApplyAppend(d, a, b[..|b| - 1]);
    }
  }

  /** Stores at consecutive offsets behind the published addresses spare them. */
  lemma StoresSpare(at: nat, bytes: seq<Byte>, t: nat, h: nat, a: nat, size: nat)
    requires size > 0 && h <= a && a + |bytes| <= t + size && at == a % size && at + |bytes| <= size
    ensures AllSpare(StoresAt(at, bytes), t, h, size)
  {
    WriteMissesPublished(t, h, a, |bytes|, size);
  }

  lemma AllSpareAppend(a: seq<Store>, b: seq<Store>, t: nat, h: nat, size: nat)
    requires size > 0 && AllSpare(a, t, h, size) && AllSpare(b, t, h, size)
    ensures AllSpare(a + b, t, h, size)
    ensures InArea(a, size) && InArea(b, size) && InArea(a + b, size)
  {
    hide Spares;
  }

  lemma StoresInArea(at: nat, bytes: seq<Byte>, size: nat)
    requires at + |bytes| <= size
    ensures InArea(StoresAt(at, bytes), size)
  {
  }

  lemma InAreaAppend(a: seq<Store>, b: seq<Store>, size: nat)
    requires InArea(a, size) && InArea(b, size)
    ensures InArea(a + b, size)
  {
  }

  /** Two runs of stores are two patches. */
  lemma ApplyTwo(d: seq<Byte>, off: nat, x: seq<Byte>, at: nat, y: seq<Byte>)
    requires off + |x| <= |d| && at + |y| <= |d|
    ensures var stores := StoresAt(off, x) + StoresAt(at, y);
            InArea(stores, |d|) && Apply(d, stores) == Patch(Patch(d, off, x), at, y)
  {
    hide Apply, Patch, InArea, StoresAt;
    StoresInArea(off, x, |d|);
    StoresInArea(at, y, |d|);
    InAreaAppend(StoresAt(off, x), StoresAt(at, y), |d|);
    ApplyAppend(d, StoresAt(off, x), StoresAt(at, y));
    ApplyPatch(d, off, x);
    ApplyPatch(Patch(d, off, x), at, y);
  }

  lemma WrittenIsTwoPatches(d: seq<Byte>, h: nat, m: Msg)
    requires AreaSize(|d|) && h % 4 == 0 && ValidMsg(m) && RecordSize(|m.payload|) <= |d|
    ensures var pad := Pad(h, RecordSize(|m.payload|), |d|);
            var marker := if pad != 0 then Marker() else [];
            && h % |d| + |marker| <= |d| && (h + pad) % |d| + RecordSize(|m.payload|) <= |d|
            && Written(d, h, m, |d|) == Patch(Patch(d, h % |d|, marker), (h + pad) % |d|, Encoded(m))
  {
    hide AreaSize, Encoded, Marker, Pad, RecordSize;
    AreaIsWords(|d|);
    OffsetsAreWords(h, |d|);
    MarkerIsAWord();
    RecordFits(h, RecordSize(|m.payload|), |d|);
    assert Patch(d, h % |d|, []) == d;
  }

  /** Where a write's stores go, and what they leave when all are done. */
  lemma StoresAreWritten(d: seq<Byte>, h: nat, t: nat, m: Msg)
    requires AreaSize(|d|) && h % 4 == 0 && t <= h && ValidMsg(m)
    requires var record := RecordSize(|m.payload|); h + Pad(h, record, |d|) + record <= t + |d|
    ensures RecordSize(|m.payload|) <= |d|
    ensures var stores := Stores(h % WRAP, Pad(h, RecordSize(|m.payload|), |d|), m, |d|);
            AllSpare(stores, t, h, |d|) && InArea(stores, |d|) && Apply(d, stores) == Written(d, h, m, |d|)
  {
    hide AreaSize, Encoded, Marker, Apply, Pad, RecordSize, AllSpare, Written, StoresAt, Patch;
    var size := |d|;
    var record := RecordSize(|m.payload|);
    var pad := Pad(h, record, size);
    var marker := if pad != 0 then Marker() else [];
    AreaIsWords(size);
    MarkerIsAWord();
    WrittenIsTwoPatches(d, h, m);
    IndexOffset(h, size);
    ReduceSum(h, pad, WRAP);
    IndexOffset(h + pad, size);
    PadWhenUsed(h, record, size);
    StoresSpare(h % size, marker, t, h, h, size);
    StoresSpare((h + pad) % size, Encoded(m), t, h, h + pad, size);
    AllSpareAppend(StoresAt(h % size, marker), StoresAt((h + pad) % size, Encoded(m)), t, h, size);
    ApplyTwo(d, h % size, marker, (h + pad) % size, Encoded(m));
  }

  lemma ApplyNone(d: seq<Byte>, stores: seq<Store>)
    requires InArea(stores, |d|)
    ensures Apply(d, stores[..0]) == d
  {
  }

  lemma ApplyOne(d: seq<Byte>, stores: seq<Store>, k: nat)
    requires InArea(stores, |d|) && k < |stores|
    ensures Apply(d, stores[..k + 1]) == Apply(d, stores[..k])[stores[k].at := stores[k].value]
  {
    assert stores[..k + 1][..k] == stores[..k];
  }

  lemma PadWhenUsed(h: nat, record: nat, size: nat)
    requires size > 0
    ensures Pad(h, record, size) != 0 ==> Pad(h, record, size) == size - h % size
  {
  }

  lemma PadOfWrapped(h: nat, record: nat, size: nat)
    requires AreaSize(size)
    ensures size > 0 && Pad(h % WRAP, record, size) == Pad(h, record, size)
  {
    IndexOffset(h, size);
  }

  lemma ProducerBegins(s: State)
    requires Inv(s) && s.producer.Checked?
    ensures Inv(ProducerStep(s, 0, []))
  {
    hide Consistent, ConsumerInv, Stores, Apply, Written, Spares, RecordSize, Pad, AreaSize;
    var size := |s.data|;
    var p := s.producer.payload;
    var record := RecordSize(|p|);
    var m := Msg(s.producer.kind, s.seqNo, p);
    ProducerView(s.data, size, s.head, s.tail, s.produced, s.consumed, s.queue);
    ConsistentArea(s.data, size, s.head, s.tail, s.produced, s.consumed, s.queue);
    PadOfWrapped(s.produced, record, size);
    var pad := Pad(s.head, record, size);
    var r := ProducerStep(s, 0, []);
    if pad + record <= size - Sub32(s.head, s.tail) {
      StoresAreWritten(s.data, s.produced, s.consumed, m);
      ApplyNone(s.data, Stores(s.head, pad, m, size));
      SameConsumer(s, r);
    } else {
      SameConsumer(s, r);
    }
  }

  lemma ConsistentArea(d: seq<Byte>, size: nat, head: nat, tail: nat, produced: nat, consumed: nat, queue: seq<Msg>)
    requires Consistent(d, size, head, tail, produced, consumed, queue)
    ensures AreaSize(size) && size > 0
  {
  }

  /** The consumer's invariant does not look at the producer. */
  lemma SameConsumer(s: State, r: State)
    requires RingInv(s) && ConsumerInv(s)
    requires r.data == s.data && r.tail == s.tail && r.consumer == s.consumer && r.produced == s.produced
    requires r.consumed == s.consumed && r.queue == s.queue && r.head == s.head
    ensures ConsumerInv(r)
  {
    hide Consistent;
  }

  lemma ProducerStores(s: State)
    requires Inv(s) && s.producer.Storing? && s.producer.done < |s.producer.stores|
    ensures Inv(ProducerStep(s, 0, []))
    ensures SameOn(s.data, ProducerStep(s, 0, []).data, s.consumed, s.produced)
  {
    hide Consistent, ConsumerInv, Stores, Written, Spares, RecordSize, Pad, AreaSize, SameOn, Apply;
    ApplyOne(s.producer.base, s.producer.stores, s.producer.done);
    var store := s.producer.stores[s.producer.done];
    var d := s.data[store.at := store.value];
    StoreSpares(s.data, store.at, store.value, s.consumed, s.produced);
    ConsistentStable(s.data, d, |s.data|, s.head, s.tail, s.produced, s.consumed, s.queue);
    ConsumerUndisturbed(s, d);
    SameConsumer(s.(data := d), ProducerStep(s, 0, []));
  }

  lemma ProducerPublishes(s: State)
    requires Inv(s) && s.producer.Storing? && s.producer.done == |s.producer.stores|
    ensures Inv(ProducerStep(s, 0, []))
  {
    hide ConsumerInv, Stores, Written, Spares, RecordSize, Pad, AreaSize, Apply, Holds, Stored;
    var size, m := |s.data|, s.producer.msg;
    var pad, record := s.producer.pad, RecordSize(|m.payload|);
    AreaIsWords(size);
    assert s.producer.stores[..s.producer.done] == s.producer.stores;
    assert s.data == Written(s.producer.base, s.produced, m, size);
    WrittenIsStored(s.producer.base, s.produced, m, size);
    assert s.data[..size] == s.data;
    SameOnReflexive(s.data, s.consumed, s.produced);
    Publish(s.data, s.data, s.consumed, s.produced, s.queue, m);
    ReduceSum(s.produced, pad, WRAP);
    ReduceSum(s.produced + pad, record, WRAP);
    PadIsWords(s.produced, record, size);
    var r := ProducerStep(s, 0, []);
    ReduceSum(|s.sent|, 1, WRAP);
    assert r.sent == r.delivered + r.queue;
    MoreQueued(s, r, m);
  }

  /** Publishing does not disturb what the consumer has seen. */
  lemma MoreQueued(s: State, r: State, m: Msg)
    requires RingInv(s) && ConsumerInv(s)
    requires r.data == s.data && r.tail == s.tail && r.consumer == s.consumer && r.produced >= s.produced
    requires r.consumed == s.consumed && r.queue == s.queue + [m] && r.head < WRAP
    ensures ConsumerInv(r)
  {
    hide Consistent, PaddedAt;
    if !s.consumer.Waiting? && !s.consumer.Failed? {
      assert r.queue[..s.consumer.count] == s.queue[..s.consumer.count];
    }
  }

  /** Every step of the producer keeps the invariant and no byte between tail and head changes. */
  lemma {:induction false} ProducerKeeps(s: State, kind: nat, payload: seq<Byte>)
    requires Inv(s)
    ensures Inv(ProducerStep(s, kind, payload))
    ensures SameOn(s.data, ProducerStep(s, kind, payload).data, s.consumed, s.produced)
  {
    hide RingInv, ConsumerInv, Stores, Written, Spares, RecordSize, Pad, AreaSize, Apply, SameOn;
    Positive(s);
    SameOnReflexive(s.data, s.consumed, s.produced);
    match s.producer
    case Idle =>
      StillRing(s, kind, payload);
    case Checked(_, _) =>
      ProducerBegins(s);
      assert ProducerStep(s, kind, payload) == ProducerStep(s, 0, []);
    case Storing(_, _, _, stores, done) =>
      if done < |stores| { ProducerStores(s); } else { ProducerPublishes(s); }
      assert ProducerStep(s, kind, payload) == ProducerStep(s, 0, []);
  }

  lemma Positive(s: State)
    requires RingInv(s)
    ensures |s.data| > 0 && s.head < WRAP && s.tail < WRAP && s.seqNo < WRAP
  {
  }

  lemma StillRing(s: State, kind: nat, payload: seq<Byte>)
    requires Inv(s) && s.producer.Idle?
    ensures Inv(ProducerStep(s, kind, payload))
  {
    hide Consistent, ConsumerInv;
    SameConsumer(s, ProducerStep(s, kind, payload));
  }

  // ---- The consumer keeps the invariant ----

  /** The precondition of ConsumerStep, which the invariant provides. */
  ghost predicate ConsumerReady(s: State) {
    && |s.data| > 0 && s.head < WRAP && s.tail < WRAP
    && (!s.consumer.Waiting? && !s.consumer.Failed? ==> s.consumer.head < WRAP)
    && (s.consumer.Loading? ==>
          && s.tail % |s.data| + REC_HDR <= |s.data|
          && (|s.consumer.loaded| > 4 ==> LengthFits(s, s.consumer)))
    && (s.consumer.Loading? && |s.consumer.loaded| >= 10 + Get16Or0(s.consumer.loaded, 2) ==> s.queue != [])
  }

  /** What the loaded bytes decode to. */
  lemma LoadedFields(s: State)
    requires Inv(s) && s.consumer.Loading?
    ensures var l, off := s.consumer.loaded, s.consumed % |s.data|;
            && off + REC_HDR <= |s.data|
            && (|l| >= 2 ==> Get16(l, 0) == Get16(s.data, off + 2))
            && (|l| >= 4 ==> Get16(l, 2) == Get16(s.data, off))
            && (|l| >= 6 ==> Get16(l, 4) == Get16(s.data, off + 2))
            && (|l| >= 10 ==> Get32(l, 6) == Get32(s.data, off + 4))
  {
    hide RingInv, ProducerInv, Snapshot, PaddedAt;
    Positive(s);
  }

  /** Once the type is known not to be padding, the length loaded is the first message's. */
  lemma LengthIsFirst(s: State)
    requires Inv(s) && s.consumer.Loading? && |s.consumer.loaded| >= 4
    ensures s.queue != [] && Get16(s.consumer.loaded, 2) == |s.queue[0].payload|
    ensures LengthFits(s, s.consumer)
    ensures s.consumed % |s.data| + REC_HDR + |s.queue[0].payload| <= |s.data|
  {
    hide ProducerInv, PaddedAt, Consistent, RecordSize, Get16;
    var c := s.consumer;
    var q := s.queue[..c.count];
    assert s.data[..|s.data|] == s.data && q[0] == s.queue[0];
    LoadedFields(s);
    FirstMessage(s.data, |s.data|, c.head, s.tail, c.upTo, s.consumed, q);
    ConsumerView(s.data, |s.data|, c.head, s.tail, c.upTo, s.consumed, q);
  }

  lemma ConsumerIsReady(s: State)
    requires Inv(s)
    ensures ConsumerReady(s)
  {
    hide ProducerInv, Consistent, PaddedAt, LengthFits;
    Positive(s);
    if s.consumer.Loading? && |s.consumer.loaded| >= 4 { LengthIsFirst(s); }
  }

  /** Loading the next byte. */
  lemma ConsumerLoads(s: State)
    requires Inv(s) && s.consumer.Loading?
    requires var l := s.consumer.loaded;
             && (|l| == 2 ==> Get16(l, 0) != PAD_TYPE)
             && (|l| >= 4 ==> |l| < 10 + Get16(l, 2))
    ensures s.tail % |s.data| + LoadOffset(|s.consumer.loaded|) < |s.data|
    ensures Inv(Load(s, s.consumer))
  {
    hide RingInv, Snapshot, Spares, Apply, Written, Stores, AreaSize, RecordSize, Pad;
    Positive(s);
    LoadedFields(s);
    if |s.consumer.loaded| >= 4 { LengthIsFirst(s); }
    var r := Load(s, s.consumer);
    SameRing(s, r);
    assert ProducerInv(r);
    var l := s.consumer.loaded;
    forall k | 0 <= k < |l| + 1
      ensures r.consumer.loaded[k] == s.data[s.consumed % |s.data| + LoadOffset(k)]
    {
    }
  }

  /** Nothing but the consumer's own place has changed. */
  lemma SameRing(s: State, r: State)
    requires RingInv(s) && r == s.(consumer := r.consumer)
    ensures RingInv(r)
    ensures forall head, upTo, count: nat :: Snapshot(s, head, upTo, count) ==> Snapshot(r, head, upTo, count)
  {
    hide Consistent;
  }

  lemma ConsumerLooks(s: State)
    requires Inv(s) && s.consumer.Waiting?
    ensures Inv(s.(consumer := Seen(s.head, s.produced, |s.queue|)))
  {
    hide Consistent;
    assert s.queue[..|s.queue|] == s.queue;
  }

  /** A tail behind the head is a nonempty snapshot, and never too far behind. */
  lemma ConsumerCompares(s: State, cap: nat)
    requires Inv(s) && s.consumer.Seen?
    ensures ConsumerReady(s) && Inv(ConsumerStep(s, cap))
    ensures ConsumerStep(s, cap).delivered == s.delivered
  {
    hide ProducerInv, Consistent, PaddedAt;
    ConsumerIsReady(s);
    var c := s.consumer;
    var q := s.queue[..c.count];
    ConsumerView(s.data, |s.data|, c.head, s.tail, c.upTo, s.consumed, q);
    var r := ConsumerStep(s, cap);
    assert c.head != s.tail ==> c.count > 0;
    if c.head != s.tail && |s.data| - s.tail % |s.data| < REC_HDR { EndIsPadding(s.data, s.consumed); }
    SameProducer(s, r);
  }

  lemma EndIsPadding(data: seq<Byte>, t: nat)
    requires |data| > 0 && |data| - t % |data| < REC_HDR
    ensures PaddedAt(data, t)
  {
  }

  /** The producer's invariant survives any advance of the tail. */
  lemma SameProducer(s: State, r: State)
    requires |s.data| > 0 && s.head < WRAP && s.tail < WRAP && r.tail < WRAP && ProducerInv(s)
    requires r.data == s.data && r.producer == s.producer && r.produced == s.produced && r.seqNo == s.seqNo
    requires r.consumed >= s.consumed && r.head == s.head && r.call == s.call
    ensures ProducerInv(r)
  {
    hide AreaSize, Written, Apply, Stores, Pad, RecordSize;
  }

  /** Skipping the padding, with the snapshot or with everything. */
  lemma ConsumerSkips(s: State, cap: nat)
    requires Inv(s) && s.consumer.Skipping?
    ensures ConsumerReady(s) && Inv(ConsumerStep(s, cap))
    ensures ConsumerStep(s, cap).delivered == s.delivered
  {
    hide ProducerInv, Consistent, PaddedAt;
    ConsumerIsReady(s);
    assert s.data[..|s.data|] == s.data;
    ConsumerView(s.data, |s.data|, s.head, s.tail, s.produced, s.consumed, s.queue);
    ConsistentSkip(s.data, |s.data|, s.head, s.tail, s.produced, s.consumed, s.queue);
    SameProducer(s, ConsumerStep(s, cap));
  }

  /** The bytes loaded decode to the first queued message. */
  lemma LoadedMessage(s: State)
    requires Inv(s) && s.consumer.Loading? && |s.consumer.loaded| > 4
    requires |s.consumer.loaded| >= 10 + Get16(s.consumer.loaded, 2)
    ensures var l := s.consumer.loaded;
            s.queue != [] && Get16(l, 2) == |s.queue[0].payload| &&
            Msg(Get16(l, 4), Get32(l, 6), l[10..]) == s.queue[0]
  {
    hide ProducerInv, PaddedAt, Consistent, RecordSize, Get16, Get32, LengthFits;
    LengthIsFirst(s);
    LoadedFields(s);
    LoadedPayload(s);
    assert s.data[..|s.data|] == s.data;
    FirstMessage(s.data, |s.data|, s.head, s.tail, s.produced, s.consumed, s.queue);
  }

  /** The ring behind the first record. */
  lemma RingAfterTake(s: State)
    requires Inv(s) && s.consumer.Loading? && |s.consumer.loaded| > 4 && s.queue != []
    ensures var record := RecordSize(|s.queue[0].payload|);
            Consistent(s.data, |s.data|, s.head, (s.tail + record) % WRAP, s.produced, s.consumed + record,
                       s.queue[1..])
  {
    hide ProducerInv, PaddedAt, Consistent, RecordSize;
    assert s.data[..|s.data|] == s.data;
    ConsistentTake(s.data, |s.data|, s.head, s.tail, s.produced, s.consumed, s.queue);
  }

  /** Taking the record: what is delivered is the first queued message. */
  lemma ConsumerTakes(s: State, cap: nat)
    requires Inv(s) && s.consumer.Loading? && |s.consumer.loaded| > 4
    requires |s.consumer.loaded| >= 10 + Get16(s.consumer.loaded, 2)
    ensures ConsumerReady(s) && Inv(ConsumerStep(s, cap))
    ensures s.queue != [] && ConsumerStep(s, cap).delivered == s.delivered + [s.queue[0]]
  {
    hide ProducerInv, PaddedAt, Consistent, RecordSize, Get16, Get32, LengthFits;
    ConsumerIsReady(s);
    LoadedMessage(s);
    RingAfterTake(s);
    var r := ConsumerStep(s, cap);
    assert r.delivered + r.queue == s.delivered + s.queue;
    SameProducer(s, r);
  }

  lemma LoadedPayload(s: State)
    requires Inv(s) && s.consumer.Loading? && |s.consumer.loaded| > 4
    requires |s.consumer.loaded| >= 10 + Get16(s.consumer.loaded, 2)
    ensures s.queue != [] && var off, n := s.consumed % |s.data|, |s.queue[0].payload|;
            && off + REC_HDR + n <= |s.data|
            && s.consumer.loaded[10..] == s.data[off + REC_HDR..off + REC_HDR + n]
  {
    hide RingInv, ProducerInv, Snapshot, PaddedAt, LengthFits, Get16;
    Positive(s);
    LengthIsFirst(s);
    var l, off, n := s.consumer.loaded, s.consumed % |s.data|, |s.queue[0].payload|;
    assert |l| == 10 + n;
    forall i | 0 <= i < n
      ensures l[10..][i] == s.data[off + REC_HDR..off + REC_HDR + n][i]
    {
      assert l[10 + i] == s.data[off + LoadOffset(10 + i)];
    }
  }

  /** Every step of the consumer keeps the invariant, writes no byte of the area, and delivers
      nothing or the first queued message. */
  lemma {:induction false} ConsumerKeeps(s: State, cap: nat)
    requires Inv(s)
    ensures ConsumerReady(s) && Inv(ConsumerStep(s, cap))
    ensures ConsumerStep(s, cap).data == s.data && ConsumerStep(s, cap).produced == s.produced
    ensures ConsumerStep(s, cap).delivered == s.delivered
         || (s.queue != [] && ConsumerStep(s, cap).delivered == s.delivered + [s.queue[0]])
  {
    hide RingInv, ProducerInv, ConsumerInv;
    ConsumerIsReady(s);
    match s.consumer
    case Waiting => ConsumerLooks(s);
    case Failed => assert false by { NeverFailed(s); }
    case Seen(_, _, _) => ConsumerCompares(s, cap);
    case Skipping(_, _, _) => ConsumerSkips(s, cap);
    case Loading(head, upTo, count, loaded) =>
      if |loaded| == 2 && Get16(loaded, 0) == PAD_TYPE {
        FoundPadding(s);
      } else if |loaded| >= 4 {
        LengthIsFirst(s);
        if |loaded| == 4 && Get16(loaded, 2) > cap {
          GivesUp(s);
        } else if |loaded| < 10 + Get16(loaded, 2) {
          ConsumerLoads(s);
        } else {
          ConsumerTakes(s, cap);
        }
      } else {
        ConsumerLoads(s);
      }
  }

  lemma NeverFailed(s: State)
    requires Inv(s)
    ensures !s.consumer.Failed?
  {
  }

  lemma FoundPadding(s: State)
    requires Inv(s) && s.consumer.Loading? && |s.consumer.loaded| == 2 && Get16(s.consumer.loaded, 0) == PAD_TYPE
    ensures Inv(s.(consumer := Skipping(s.consumer.head, s.consumer.upTo, s.consumer.count)))
  {
    hide Consistent, ProducerInv, Get16;
    LoadedFields(s);
    var r := s.(consumer := Skipping(s.consumer.head, s.consumer.upTo, s.consumer.count));
    SameProducer(s, r);
  }

  lemma GivesUp(s: State)
    requires Inv(s)
    ensures Inv(s.(consumer := Waiting))
  {
    hide Consistent, ProducerInv;
    SameProducer(s, s.(consumer := Waiting));
  }

  // ---- Every interleaving ----

  ghost function Apply1(s: State, step: Step): (r: State)
    requires Inv(s)
    ensures Inv(r)
  {
    match step
    case Produce(kind, payload) =>
      ProducerKeeps(s, kind, payload);
      ProducerStep(s, kind, payload)
    case Consume(cap) =>
      ConsumerKeeps(s, cap);
      ConsumerStep(s, cap)
  }

  /** The state after a schedule. */
  ghost function Run(s: State, schedule: seq<Step>): (r: State)
    requires Inv(s)
    ensures Inv(r)
  {
    if schedule == [] then s else Apply1(Run(s, schedule[..|schedule| - 1]), schedule[|schedule| - 1])
  }

  lemma StartIsInvariant(size: nat)
    requires AreaSize(size)
    ensures Inv(Start(size))
  {
  }

  /** Lock-free safety: after any interleaving of the two cores' memory accesses the messages
      delivered are a prefix of the messages written, intact and numbered consecutively, and the
      consumer has never found the ring corrupt. */
  lemma {:induction false} DeliveredIsPrefix(size: nat, schedule: seq<Step>)
    requires AreaSize(size)
    ensures Inv(Start(size))
    ensures var s := Run(Start(size), schedule);
            && s.delivered <= s.sent
            && (forall k :: 0 <= k < |s.delivered| ==> s.delivered[k].seqNo == k % WRAP)
            && !s.consumer.Failed?
  {
    StartIsInvariant(size);
    var s := Run(Start(size), schedule);
    NeverFailed(s);
    assert s.delivered <= s.delivered + s.queue;
  }

  /** No step of any interleaving changes a byte between the tail and the head. */
  lemma {:induction false} PublishedBytesAreNeverOverwritten(s: State, step: Step)
    requires Inv(s)
    ensures SameOn(s.data, Apply1(s, step).data, s.consumed, s.produced)
  {
    hide RingInv, ProducerInv, ConsumerInv, SameOn;
    Positive(s);
    match step
    case Produce(kind, payload) => ProducerKeeps(s, kind, payload);
    case Consume(cap) =>
      ConsumerKeeps(s, cap);
      SameOnReflexive(s.data, s.consumed, s.produced);
  }
}
