/** The single-producer single-consumer ring as it runs on one core at a time: the shared header and
    data area, a handle, and the write and read operations proved to be append and take-first on the
    queue of messages. */
module IpcRing {

  import opened Arith
  import opened Bytes
  import opened RingLayout

  const MAGIC: nat := 0x534C5247
  const HDR_BYTES: nat := 128

  datatype Result = Ok | Empty | Full | TooBig | Corrupt

  // ---- Size of the data area ----

  /** Largest power of two that fits behind the header, 0 if there is no room for 64 bytes and more. */
  ghost predicate IsDataSize(bytes: nat, size: nat) {
    if bytes <= HDR_BYTES + 64 then size == 0
    else PowerOfTwo(size) && 64 <= size <= bytes - HDR_BYTES < 2 * size
  }

  /** The doubling loop; its guard is computed in 32 bits, see DoublingEnds. */
  method DataSizeFor(bytes: nat) returns (size: nat)
    requires bytes < 0x8000_0000 + HDR_BYTES
    ensures IsDataSize(bytes, size)
    ensures size > 0 ==> AreaSize(size)
  {
    hide PowerOfTwo, AreaSize;
    if bytes <= HDR_BYTES + 64 { return 0; }
    var avail := bytes - HDR_BYTES;
    SixtyFour();
    size := 64;
    while size * 2 % WRAP <= avail
      invariant PowerOfTwo(size) && 64 <= size <= avail
      decreases avail - size
    {
      PowerDoubles(size);
      size := size * 2 % WRAP;
    }
    PowerIsArea(size);
  }

  lemma PowerIsArea(size: nat)
    requires PowerOfTwo(size) && 64 <= size < WRAP
    ensures AreaSize(size)
  {
    WrapIsPower();
    PowersDivide(size, WRAP);
    PowersDivide(4, size);
  }

  /** Value of the loop variable after k doublings in 32 bits. */
  function Doubled(k: nat): nat
  {
    if k == 0 then 64 else Doubled(k - 1) * 2 % WRAP
  }

  predicate PowerOrZero(x: nat) {
    x == 0 || (PowerOfTwo(x) && x <= 0x8000_0000)
  }

  lemma {:induction false} DoubledIsPowerOrZero(k: nat)
    ensures PowerOrZero(Doubled(k))
  {
    hide PowerOfTwo;
    if k > 0 {
      DoubledIsPowerOrZero(k - 1);
      DoubleOnce(Doubled(k - 1));
    } else {
      SixtyFour();
    }
  }

  lemma SixtyFour()
    ensures PowerOfTwo(64)
  {
  }

  lemma DoubleOnce(x: nat)
    requires PowerOrZero(x)
    ensures PowerOrZero(x * 2 % WRAP)
  {
    hide PowerOfTwo;
    if 0 < x < 0x8000_0000 {
      WrapIsPower();
      PowersDivide(x, 0x8000_0000);
      AtLeastTwice(0x8000_0000, x);
      PowerDoubles(x);
    }
  }

  lemma PowerDoubles(x: nat)
    requires PowerOfTwo(x)
    ensures PowerOfTwo(2 * x)
  {
    assert 2 * x / 2 == x;
  }

  lemma AtLeastTwice(n: nat, x: nat)
    requires 0 < x < n && n % x == 0
    ensures 2 * x <= n
  {
    var q := n / x;
    assert n == x * q;
    if q <= 1 { Product(x, 1); }
  }

  /** The loop guard is false after some number of doublings. */
  ghost predicate DoublingEnds(avail: nat) {
    exists k: nat :: Doubled(k) * 2 % WRAP > avail
  }

  /** The loop that sizes the data area ends exactly for regions below 2 GiB + 128 bytes: beyond, the
      32-bit product wraps to 0 before it passes the available space. */
  lemma DoublingEndsCondition(avail: nat)
    ensures DoublingEnds(avail) <==> avail < 0x8000_0000
  {
    if avail < 64 {
      assert Doubled(0) * 2 % WRAP > avail;
    } else if avail < 0x8000_0000 {
      var k := LastDoubling(avail, 0);
      assert Doubled(k) * 2 % WRAP > avail;
    } else {
      forall k: nat
        ensures Doubled(k) * 2 % WRAP <= avail
      {
        DoubledIsPowerOrZero(k + 1);
        assert Doubled(k + 1) == Doubled(k) * 2 % WRAP;
      }
    }
  }

  lemma {:induction false} LastDoubling(avail: nat, k: nat) returns (j: nat)
    requires 64 <= Doubled(k) <= avail < 0x8000_0000
    ensures Doubled(j) * 2 % WRAP > avail
    decreases avail - Doubled(k)
  {
    assert Doubled(k + 1) == 2 * Doubled(k);
    if 2 * Doubled(k) > avail { j := k; } else { j := LastDoubling(avail, k + 1); }
  }

  // ---- The shared memory and its two ends ----

  /** Header and data area, shared by both cores. The ghost fields give its meaning: how many bytes
      were ever produced and consumed, and the queued messages. */
  class SharedMemory {
    var head: nat
    var tail: nat
    var magic: nat
    var size: nat
    const data: array<Byte>
    ghost var produced: nat
    ghost var consumed: nat
    ghost var queue: seq<Msg>

    constructor (data: array<Byte>)
      ensures this.data == data
    {
      this.data := data;
    }

    ghost predicate Valid()
      reads this, data
    {
      magic == MAGIC && Consistent(data[..], size, head, tail, produced, consumed, queue)
    }

    /** Stores `bytes` at offset `at`. */
    method Store(at: nat, bytes: seq<Byte>)
      requires at + |bytes| <= data.Length
      modifies data
      ensures data[..] == Patch(old(data[..]), at, bytes)
    {
      for i := 0 to |bytes|
        invariant data[..] == Patch(old(data[..]), at, bytes[..i])
      {
        data[at + i] := bytes[i];
      }
    }
  }

  /** A core's handle on the ring. */
  class Ring {
    var hdr: SharedMemory
    var size: nat
    var seqNo: nat

    constructor (hdr: SharedMemory)
      ensures this.hdr == hdr
    {
      this.hdr := hdr;
      size := 0;
      seqNo := 0;
    }

    ghost predicate Valid()
      reads this, hdr, hdr.data
    {
      hdr.Valid() && size == hdr.size && seqNo < WRAP
    }

    /** Attaches to a ring another side initialised. */
    method Attach(mem: SharedMemory, bytes: nat) returns (r: Result)
      requires bytes < 0x8000_0000 + HDR_BYTES
      modifies this
      ensures r == Ok || r == Corrupt
      ensures r == Ok <==> mem.magic == MAGIC && mem.size > 0 && IsDataSize(bytes, mem.size)
      ensures r == Ok ==> hdr == mem && size == mem.size && seqNo == 0
      ensures r == Corrupt ==> hdr == old(hdr) && size == old(size) && seqNo == old(seqNo)
    {
      var dataSize := DataSizeFor(bytes);
      DataSizeIsUnique(bytes, dataSize, mem.size);
      if mem.magic != MAGIC || mem.size != dataSize || dataSize == 0 { return Corrupt; }
      hdr, size, seqNo := mem, dataSize, 0;
      r := Ok;
    }

    /** Initialises an empty ring in `mem` and attaches to it. */
    method Init(mem: SharedMemory, bytes: nat) returns (r: Result)
      requires HDR_BYTES + mem.data.Length == bytes < 0x8000_0000 + HDR_BYTES
      modifies this, mem
      ensures r == Ok <==> bytes > HDR_BYTES + 64
      ensures r == Ok ==> hdr == mem && Valid() && mem.queue == [] && seqNo == 0
    {
      var dataSize := DataSizeFor(bytes);
      if dataSize == 0 { return Corrupt; }
      mem.head, mem.tail, mem.size, mem.magic := 0, 0, dataSize, MAGIC;
      mem.produced, mem.consumed, mem.queue := 0, 0, [];
      r := Attach(mem, bytes);
    }

    /** Bytes in use. */
    function Used(): (n: nat)
      requires Valid()
      reads this, hdr, hdr.data
      ensures n == hdr.produced - hdr.consumed
    {
      ProducerView(hdr.data[..], size, hdr.head, hdr.tail, hdr.produced, hdr.consumed, hdr.queue);
      Sub32(hdr.head, hdr.tail)
    }

    function Free(): (n: nat)
      requires Valid()
      reads this, hdr, hdr.data
      ensures n == size - (hdr.produced - hdr.consumed)
    {
      size - Used()
    }

    /** Result of a write, decided before anything is stored. */
    ghost function WriteResult(kind: nat, len: nat): Result
      requires Valid()
      reads this, hdr, hdr.data
    {
      if kind == PAD_TYPE then Corrupt
      else if len > MAX_PAYLOAD then TooBig
      else if Pad(hdr.produced, RecordSize(len), size) + RecordSize(len) > Free() then Full
      else Ok
    }

    /** On an empty ring every legal message is taken exactly where the progress condition says so; an area
        of 2048 bytes takes them all. */
    lemma EmptyRingTakes(kind: nat, len: nat)
      requires Valid() && hdr.queue == [] && kind != PAD_TYPE && len <= MAX_PAYLOAD
      ensures WriteResult(kind, len) == Ok <==> EmptyRingAccepts(hdr.produced, RecordSize(len), size)
      ensures size >= 2048 ==> WriteResult(kind, len) == Ok
    {
      hide AreaSize, RecordSize;
      EmptyHolds(hdr.data[..size], hdr.consumed, hdr.produced);
      if size >= 2048 { LargeAreaAccepts(hdr.produced, len, size); }
    }

    /** Queues one message: on success it is appended with the next sequence number, otherwise
        nothing changes. */
    method Write(kind: nat, payload: seq<Byte>) returns (r: Result)
      requires Valid() && kind <= 0xFFFF && |payload| <= 0xFFFF
      modifies this`seqNo, hdr, hdr.data
      ensures Valid() && r == old(WriteResult(kind, |payload|))
      ensures r == Ok ==> hdr.queue == old(hdr.queue) + [Msg(kind, old(seqNo), payload)]
      ensures r == Ok ==> seqNo == (old(seqNo) + 1) % WRAP
      ensures r != Ok ==> hdr.queue == old(hdr.queue) && seqNo == old(seqNo)
      ensures r != Ok ==> hdr.head == old(hdr.head) && hdr.data[..] == old(hdr.data[..])
      ensures hdr.tail == old(hdr.tail) && hdr.consumed == old(hdr.consumed)
    {
      hide Consistent, AreaSize, Written, Patch, RecordSize;
      if kind == PAD_TYPE { return Corrupt; }
      var len := |payload|;
      if len > MAX_PAYLOAD { return TooBig; }
      ghost var h, d := hdr.produced, hdr.data[..];
      ProducerView(d, size, hdr.head, hdr.tail, h, hdr.consumed, hdr.queue);
      var record := RecordSize(len);
      var head := hdr.head;
      var offset := head % size;
      var toEnd := size - offset;
      var pad := if record > toEnd then toEnd else 0;
      if pad + record > Free() { return Full; }
      Append(head, pad, record, kind, payload);
      r := Ok;
    }

    /** Stores a record that fits and publishes the head behind it. */
    method Append(head: nat, pad: nat, record: nat, kind: nat, payload: seq<Byte>)
      requires Valid() && kind < PAD_TYPE && |payload| <= MAX_PAYLOAD && head == hdr.head
      requires size > 0 && record == RecordSize(|payload|) && pad == Pad(hdr.produced, record, size)
      requires hdr.produced + pad + record <= hdr.consumed + size
      modifies this`seqNo, hdr, hdr.data
      ensures Valid() && seqNo == (old(seqNo) + 1) % WRAP
      ensures hdr.queue == old(hdr.queue) + [Msg(kind, old(seqNo), payload)]
      ensures hdr.tail == old(hdr.tail) && hdr.consumed == old(hdr.consumed)
    {
      hide Consistent, AreaSize, Written, Patch, RecordSize, Pad;
      ghost var h, d, m := hdr.produced, hdr.data[..], Msg(kind, seqNo, payload);
      HeadIs(d, size, head, hdr.tail, h, hdr.consumed, hdr.queue);
      ConsistentAppend(d, size, head, hdr.tail, h, hdr.consumed, hdr.queue, m);
      StoreRecord(head, pad, kind, payload, h);
      seqNo := (seqNo + 1) % WRAP;
      hdr.head := ((head + pad) % WRAP + record) % WRAP;
      hdr.produced := h + pad + record;
      hdr.queue := hdr.queue + [m];
    }

    /** The queue's answer to a read into a buffer of `cap` bytes. */
    ghost function ReadResult(cap: nat): Result
      requires Valid()
      reads this, hdr, hdr.data
    {
      if hdr.queue == [] then Empty else if |hdr.queue[0].payload| > cap then TooBig else Ok
    }

    /** Takes one message: on success the first of the queue, intact; a buffer too small leaves it
        queued and reports the size needed. The skip loop makes at most two rounds, and a consistent
        ring is never reported corrupt. */
    method Read(buf: array<Byte>, cap: nat) returns (r: Result, kind: nat, msgSeq: nat, len: nat, ghost rounds: nat)
      requires Valid() && cap <= buf.Length && buf != hdr.data
      modifies hdr, buf
      ensures Valid() && r == old(ReadResult(cap)) && rounds <= 2
      ensures r == Ok ==> old(hdr.queue) != [] && hdr.queue == old(hdr.queue)[1..] && len <= buf.Length
      ensures r == Ok ==> Msg(kind, msgSeq, buf[..len]) == old(hdr.queue)[0] && buf[len..] == old(buf[..])[len..]
      ensures r != Ok ==> hdr.queue == old(hdr.queue) && buf[..] == old(buf[..])
      ensures r == TooBig ==> old(hdr.queue) != [] && len == |old(hdr.queue)[0].payload|
      ensures hdr.head == old(hdr.head) && hdr.produced == old(hdr.produced) && hdr.data[..] == old(hdr.data[..])
    {
      hide Consistent, RecordSize, PaddedAt;
      kind, msgSeq, len, rounds := 0, 0, cap, 0;
      while true
        invariant Valid() && cap <= buf.Length && buf != hdr.data
        invariant hdr.queue == old(hdr.queue) && size == old(size)
        invariant buf[..] == old(buf[..])
        invariant hdr.head == old(hdr.head) && hdr.produced == old(hdr.produced) && hdr.data[..] == old(hdr.data[..])
        invariant rounds <= 1
        invariant rounds == 1 ==> 0 < size <= hdr.data.Length && !PaddedAt(hdr.data[..size], hdr.consumed)
        decreases 1 - rounds
      {
        rounds := rounds + 1;
        var head, tail := hdr.head, hdr.tail;
        ghost var d, t, h := hdr.data[..], hdr.consumed, hdr.produced;
        ConsumerView(d, size, head, tail, h, t, hdr.queue);
        if head == tail { return Empty, kind, msgSeq, len, rounds; }
        if Sub32(head, tail) > size { return Corrupt, kind, msgSeq, len, rounds; }
        var offset := tail % size;
        var toEnd := size - offset;
        var padded := AtPadding(offset, toEnd);
        if padded {
          Skip(tail, toEnd);
          continue;
        }
        r, kind, msgSeq, len := TakeRecord(buf, cap, head, tail);
        return;
      }
    }

    /** The reader's test for padding at the tail. */
    method AtPadding(offset: nat, toEnd: nat) returns (padded: bool)
      requires 0 < size <= hdr.data.Length && offset == hdr.consumed % size && toEnd == size - offset
      ensures padded == PaddedAt(hdr.data[..size], hdr.consumed)
    {
      padded := toEnd < REC_HDR || Get16(hdr.data[..size], offset + 2) == PAD_TYPE;
    }

    /** Publishes the tail behind the padding. */
    method Skip(tail: nat, toEnd: nat)
      requires Valid() && hdr.queue != [] && tail == hdr.tail
      requires 0 < size <= hdr.data.Length && toEnd == size - hdr.consumed % size
      requires PaddedAt(hdr.data[..size], hdr.consumed)
      modifies hdr`tail, hdr`consumed
      ensures Valid() && !PaddedAt(hdr.data[..size], hdr.consumed)
    {
      hide Consistent, PaddedAt;
      ghost var d := hdr.data[..];
      assert d[..size] == hdr.data[..size];
      ConsistentSkip(d, size, hdr.head, tail, hdr.produced, hdr.consumed, hdr.queue);
      hdr.tail := (tail + toEnd) % WRAP;
      hdr.consumed := hdr.consumed + toEnd;
    }

    /** The record at the tail: checks, copy, publication of the new tail. */
    method TakeRecord(buf: array<Byte>, cap: nat, head: nat, tail: nat)
      returns (r: Result, kind: nat, msgSeq: nat, len: nat)
      requires Valid() && cap <= buf.Length && buf != hdr.data && hdr.queue != []
      requires head == hdr.head && tail == hdr.tail
      requires 0 < size <= hdr.data.Length && !PaddedAt(hdr.data[..size], hdr.consumed)
      modifies hdr`tail, hdr`consumed, hdr`queue, buf
      ensures Valid() && r == if |old(hdr.queue)[0].payload| > cap then TooBig else Ok
      ensures r == Ok ==> hdr.queue == old(hdr.queue)[1..] && len <= buf.Length
      ensures r == Ok ==> Msg(kind, msgSeq, buf[..len]) == old(hdr.queue)[0] && buf[len..] == old(buf[..])[len..]
      ensures r == TooBig ==>
                hdr.queue == old(hdr.queue) && buf[..] == old(buf[..]) && len == |old(hdr.queue)[0].payload|
    {
      hide Consistent, RecordSize, PaddedAt, Get16, Get32;
      r, kind, msgSeq, len := Corrupt, 0, 0, 0;
      ghost var d, t, h := hdr.data[..], hdr.consumed, hdr.produced;
      ConsumerView(d, size, head, tail, h, t, hdr.queue);
      FirstMessage(d, size, head, tail, h, t, hdr.queue);
      var offset := tail % size;
      var toEnd := size - offset;
      var n := Get16(hdr.data[..], offset);
      var record := RecordSize(n);
      if n > MAX_PAYLOAD || record > toEnd || record > Sub32(head, tail) { return; }
      if n > cap { return TooBig, 0, 0, n; }
      kind := Get16(hdr.data[..], offset + 2);
      msgSeq := Get32(hdr.data[..], offset + 4);
      CopyOut(buf, offset + REC_HDR, n);
      len := n;
      Advance(tail, record);
      r := Ok;
    }

    /** Publishes the tail behind the first record. */
    method Advance(tail: nat, record: nat)
      requires Valid() && hdr.queue != [] && tail == hdr.tail && record == RecordSize(|hdr.queue[0].payload|)
      requires 0 < size <= hdr.data.Length && !PaddedAt(hdr.data[..size], hdr.consumed)
      modifies hdr`tail, hdr`consumed, hdr`queue
      ensures Valid() && hdr.queue == old(hdr.queue)[1..]
    {
      hide Consistent, RecordSize, PaddedAt;
      assert hdr.data[..][..size] == hdr.data[..size];
      ConsistentTake(hdr.data[..], size, hdr.head, tail, hdr.produced, hdr.consumed, hdr.queue);
      hdr.tail := (tail + record) % WRAP;
      hdr.consumed := hdr.consumed + record;
      hdr.queue := hdr.queue[1..];
    }

    /** Copies n bytes from the area to the caller's buffer. */
    method CopyOut(buf: array<Byte>, from: nat, n: nat)
      requires from + n <= hdr.data.Length && n <= buf.Length && buf != hdr.data
      modifies buf
      ensures buf[..] == hdr.data[from..from + n] + old(buf[..])[n..]
    {
      for i := 0 to n
        invariant buf[..i] == hdr.data[from..from + i]
        invariant buf[i..] == old(buf[..])[i..]
      {
        buf[i] := hdr.data[from + i];
      }
    }

    /** Stores the padding marker, if the record would pass the end. */
    method StoreMarker(head: nat, pad: nat, ghost h: nat)
      requires AreaSize(size) && size <= hdr.data.Length && h % 4 == 0 && head == h % WRAP && h % size + 4 <= size
      modifies hdr.data
      ensures hdr.data[..] == Marked(old(hdr.data[..]), h, pad, size)
    {
      hide AreaSize, Patch;
      AreaIsWords(size);
      IndexOffset(h, size);
      if pad != 0 {
        var offset := head % size;
        if size - offset >= 4 {
          hdr.Store(offset, Put16(0) + Put16(PAD_TYPE));
        }
      }
    }

    /** Where the record goes. */
    method OffsetBehind(head: nat, pad: nat, ghost h: nat) returns (at: nat)
      requires AreaSize(size) && head == h % WRAP
      ensures size > 0 && at == (h + pad) % size
    {
      hide AreaSize;
      AreaIsWords(size);
      var pos := if pad != 0 then (head + pad) % WRAP else head;
      SkipPadding(head, h, pad, size);
      at := pos % size;
    }

    /** Stores the padding marker and the record. */
    method StoreRecord(head: nat, pad: nat, kind: nat, payload: seq<Byte>, ghost h: nat)
      requires AreaSize(size) && size <= hdr.data.Length && seqNo < WRAP
      requires kind < PAD_TYPE && |payload| <= MAX_PAYLOAD && RecordSize(|payload|) <= size
      requires h % 4 == 0 && head == h % WRAP && pad == Pad(h, RecordSize(|payload|), size)
      modifies hdr.data
      ensures hdr.data[..] == Written(old(hdr.data[..]), h, Msg(kind, seqNo, payload), size)
    {
      hide AreaSize, Patch, Encoded, Put16, Put32, Pad, RecordSize, Marked;
      AreaIsWords(size);
      ghost var m := Msg(kind, seqNo, payload);
      OffsetsAreWords(h, size);
      RecordFits(h, RecordSize(|payload|), size);
      StoreMarker(head, pad, h);
      var at := OffsetBehind(head, pad, h);
      PatchTwice(hdr.data[..], at, m);
      hdr.Store(at, Put16(|payload|) + Put16(kind) + Put32(seqNo));
      hdr.Store(at + REC_HDR, payload);
    }
  }

  lemma HeadIs(d: seq<Byte>, size: nat, head: nat, tail: nat, produced: nat, consumed: nat, queue: seq<Msg>)
    requires Consistent(d, size, head, tail, produced, consumed, queue)
    ensures head == produced % WRAP
  {
    hide Holds, AreaSize;
  }

  /** Where the record goes, from the wrapped index. */
  lemma SkipPadding(head: nat, h: nat, pad: nat, size: nat)
    requires AreaSize(size) && head == h % WRAP
    ensures size > 0 && (if pad != 0 then (head + pad) % WRAP else head) % size == (h + pad) % size
  {
    hide AreaSize;
    AreaIsWords(size);
    IndexOffset(h, size);
    ReduceSum(h, pad, WRAP);
    IndexOffset(h + pad, size);
  }

  lemma DataSizeIsUnique(bytes: nat, a: nat, b: nat)
    requires IsDataSize(bytes, a)
    ensures IsDataSize(bytes, b) <==> a == b
  {
    if bytes > HDR_BYTES + 64 && IsDataSize(bytes, b) {
      if a < b { PowersDivide(a, b); AtLeastTwice(b, a); }
      if b < a { PowersDivide(b, a); AtLeastTwice(a, b); }
    }
  }
}
