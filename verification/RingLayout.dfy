/** How messages lie in the data area of the shared ring, and how that picture changes when bytes
    outside it are written, a record is appended, or one is taken. Addresses are unbounded byte
    counts here; an address lives at its remainder by the area size (a power of two, so the code
    masks instead of dividing). */
module RingLayout {

  import opened Arith
  import opened Bytes

  const WRAP: nat := 0x1_0000_0000
  const REC_HDR: nat := 8
  const MAX_PAYLOAD: nat := 512
  const PAD_TYPE: nat := 0xFFFF

  datatype Msg = Msg(kind: nat, seqNo: nat, payload: seq<Byte>)

  predicate ValidMsg(m: Msg) {
    m.kind < PAD_TYPE && m.seqNo < WRAP && |m.payload| <= MAX_PAYLOAD
  }

  function Align4(n: nat): (r: nat)
    ensures n <= r < n + 4 && r % 4 == 0
  {
    (n + 3) / 4 * 4
  }

  function RecordSize(len: nat): (r: nat)
    ensures r % 4 == 0 && REC_HDR + len <= r < REC_HDR + len + 4
  {
    REC_HDR + Align4(len)
  }

  /** The bytes a record stores: length, type, sequence number, payload. */
  function Encoded(m: Msg): (e: seq<Byte>)
    requires ValidMsg(m)
    ensures |e| == REC_HDR + |m.payload|
  {
    Put16(|m.payload|) + Put16(m.kind) + Put32(m.seqNo) + m.payload
  }

  /** The record byte by byte: little-endian length, type and sequence number, then the payload. */
  lemma RecordBytes(m: Msg)
    requires ValidMsg(m)
    ensures var e := Encoded(m);
            && |m.payload| == e[0] as int + 256 * e[1] as int && m.kind == e[2] as int + 256 * e[3] as int
            && m.seqNo == e[4] as int + 0x100 * e[5] as int + 0x1_0000 * e[6] as int + 0x100_0000 * e[7] as int
            && e[8..] == m.payload
  {
    hide Put32;
    var e := Encoded(m);
    assert e[4..8] == Put32(m.seqNo);
    GetPut32(m.seqNo, e, 4);
  }

  /** Areas the ring is built on: at least 64 bytes, whole words, dividing the index range. */
  predicate AreaSize(size: nat) {
    64 <= size <= WRAP / 2 && size % 4 == 0 && WRAP % size == 0
  }

  /** Padding a record of `record` bytes needs at address h. */
  function Pad(h: nat, record: nat, size: nat): nat
    requires size > 0
  {
    if record > size - h % size then size - h % size else 0
  }

  /** The reader's padding test at address t. */
  predicate PaddedAt(data: seq<Byte>, t: nat)
    requires |data| > 0
  {
    var off := t % |data|;
    |data| - off < REC_HDR || Get16(data, off + 2) == PAD_TYPE
  }

  /** Address of the next record at or after t. */
  function RecordStart(data: seq<Byte>, t: nat): (s: nat)
    requires |data| > 0
    ensures s >= t
  {
    if PaddedAt(data, t) then t + (|data| - t % |data|) else t
  }

  ghost predicate RecordAt(data: seq<Byte>, t: nat, m: Msg)
    requires |data| > 0
  {
    var off := t % |data|;
    && ValidMsg(m)
    && off + RecordSize(|m.payload|) <= |data|
    && data[off..off + REC_HDR + |m.payload|] == Encoded(m)
  }

  /** The addresses [t, h) hold exactly the messages q, oldest first, padding skipped. */
  ghost predicate Holds(data: seq<Byte>, t: nat, h: nat, q: seq<Msg>)
    decreases |q|
  {
    |data| > 0 &&
    if q == [] then t == h
    else
      var s := RecordStart(data, t);
      && RecordAt(data, s, q[0])
      && s + RecordSize(|q[0].payload|) <= h
      && Holds(data, s + RecordSize(|q[0].payload|), h, q[1..])
  }

  lemma {:induction false} HoldsIsOrdered(data: seq<Byte>, t: nat, h: nat, q: seq<Msg>)
    requires Holds(data, t, h, q)
    ensures t <= h && (q != [] ==> t + REC_HDR <= h)
    decreases |q|
  {
    hide RecordStart, RecordAt;
    if q != [] {
      HoldsIsOrdered(data, RecordStart(data, t) + RecordSize(|q[0].payload|), h, q[1..]);
    }
  }

  /** The two areas agree on the addresses [t, h). */
  ghost predicate SameOn(a: seq<Byte>, b: seq<Byte>, t: nat, h: nat) {
    |a| == |b| > 0 && forall k :: t <= k < h ==> a[k % |a|] == b[k % |a|]
  }

  lemma EncodedFields(m: Msg)
    requires ValidMsg(m)
    ensures var e := Encoded(m);
            |e| == REC_HDR + |m.payload| && e[0..2] == Put16(|m.payload|) && e[2..4] == Put16(m.kind) &&
            e[4..8] == Put32(m.seqNo) && e[8..] == m.payload
  {
  }

  /** A record's header as the reader decodes it. */
  lemma DecodeHeader(data: seq<Byte>, t: nat, m: Msg)
    requires |data| > 0 && RecordAt(data, t, m)
    ensures !PaddedAt(data, t)
    ensures var off := t % |data|;
            && off + REC_HDR <= |data| && Get16(data, off) == |m.payload|
            && Get16(data, off + 2) == m.kind && Get32(data, off + 4) == m.seqNo
            && data[off + REC_HDR..off + REC_HDR + |m.payload|] == m.payload
  {
    hide Put16, Put32, Get16, Get32, Encoded;
    var off := t % |data|;
    var e := Encoded(m);
    var r := data[off..off + REC_HDR + |m.payload|];
    assert r == e;
    EncodedFields(m);
    SliceOfSlice(data, off, off + |r|, 0, 2);
    SliceOfSlice(data, off, off + |r|, 2, 4);
    SliceOfSlice(data, off, off + |r|, 4, 8);
    SliceOfSlice(data, off, off + |r|, 8, |r|);
    GetPut16(|m.payload|, data, off);
    GetPut16(m.kind, data, off + 2);
    GetPut32(m.seqNo, data, off + 4);
  }

  /** A stretch that does not pass the end is read at consecutive offsets. */
  lemma SameSlice(a: seq<Byte>, b: seq<Byte>, t: nat, n: nat, h: nat)
    requires SameOn(a, b, t, h) && t + n <= h && t % |a| + n <= |a|
    ensures a[t % |a|..t % |a| + n] == b[t % |a|..t % |a| + n]
  {
    var off := t % |a|;
    var x, y := a[off..off + n], b[off..off + n];
    forall i | 0 <= i < n
      ensures x[i] == y[i]
    {
      SameLap(t, i, |a|);
      assert a[(t + i) % |a|] == b[(t + i) % |a|];
    }
  }

  lemma SamePadding(a: seq<Byte>, b: seq<Byte>, t: nat, h: nat)
    requires SameOn(a, b, t, h) && t + 4 <= h
    ensures PaddedAt(a, t) == PaddedAt(b, t)
  {
    var off := t % |a|;
    if |a| - off >= REC_HDR {
      SameSlice(a, b, t, 4, h);
      assert a[off + 2] == a[off..off + 4][2] && a[off + 3] == a[off..off + 4][3];
      assert b[off + 2] == b[off..off + 4][2] && b[off + 3] == b[off..off + 4][3];
    }
  }

  lemma SameRecord(a: seq<Byte>, b: seq<Byte>, t: nat, h: nat, m: Msg)
    requires SameOn(a, b, t, h) && RecordAt(a, t, m) && t + RecordSize(|m.payload|) <= h
    ensures RecordAt(b, t, m)
  {
    SameSlice(a, b, t, REC_HDR + |m.payload|, h);
  }

  lemma SameOnSuffix(a: seq<Byte>, b: seq<Byte>, t: nat, s: nat, h: nat)
    requires SameOn(a, b, t, h) && t <= s
    ensures SameOn(a, b, s, h)
  {
  }

  /** Bytes outside the published addresses do not matter. */
  lemma {:induction false} HoldsIsStable(a: seq<Byte>, b: seq<Byte>, t: nat, h: nat, q: seq<Msg>)
    requires Holds(a, t, h, q) && SameOn(a, b, t, h)
    ensures Holds(b, t, h, q)
    decreases |q|
  {
    hide RecordAt, SameOn, PaddedAt;
    assert |a| == |b| > 0 by { SameSizes(a, b, t, h); }
    if q != [] {
      HoldsIsOrdered(a, t, h, q);
      SamePadding(a, b, t, h);
      var s := RecordStart(a, t);
      SameOnSuffix(a, b, t, s, h);
      SameRecord(a, b, s, h, q[0]);
      var n := s + RecordSize(|q[0].payload|);
      SameOnSuffix(a, b, t, n, h);
      HoldsIsStable(a, b, n, h, q[1..]);
    }
  }

  lemma SameSizes(a: seq<Byte>, b: seq<Byte>, t: nat, h: nat)
    requires SameOn(a, b, t, h)
    ensures |a| == |b| > 0
  {
  }

  /** A record stored at the end of the published addresses, behind its padding, joins the queue. */
  lemma {:induction false} HoldsAppend(data: seq<Byte>, t: nat, h: nat, q: seq<Msg>, m: Msg)
    requires Holds(data, t, h, q)
    requires RecordAt(data, RecordStart(data, h), m)
    ensures Holds(data, t, RecordStart(data, h) + RecordSize(|m.payload|), q + [m])
    decreases |q|
  {
    hide RecordAt, PaddedAt;
    var e := RecordStart(data, h) + RecordSize(|m.payload|);
    if q == [] {
      assert (q + [m])[1..] == [];
    } else {
      HoldsIsOrdered(data, t, h, q);
      var n := RecordStart(data, t) + RecordSize(|q[0].payload|);
      HoldsIsOrdered(data, n, h, q[1..]);
      HoldsAppend(data, n, h, q[1..], m);
      assert (q + [m])[1..] == q[1..] + [m];
    }
  }

  /** Skipping the padding leaves the queue as it is. */
  lemma HoldsAfterSkip(data: seq<Byte>, t: nat, h: nat, q: seq<Msg>)
    requires Holds(data, t, h, q) && q != []
    ensures Holds(data, RecordStart(data, t), h, q)
    ensures !PaddedAt(data, RecordStart(data, t))
  {
    DecodeHeader(data, RecordStart(data, t), q[0]);
  }

  // ---- Writing ----

  /** The bytes a write leaves behind: a padding marker when the record would straddle the end, and
      the record at the start of the next lap or right at h. */
  ghost predicate Stored(data: seq<Byte>, h: nat, m: Msg)
    requires |data| > 0 && ValidMsg(m)
  {
    var pad := Pad(h, RecordSize(|m.payload|), |data|);
    var at := (h + pad) % |data|;
    && (pad >= REC_HDR ==> Get16(data, h % |data| + 2) == PAD_TYPE)
    && at + REC_HDR + |m.payload| <= |data|
    && data[at..at + REC_HDR + |m.payload|] == Encoded(m)
  }

  /** Where the record of a write goes: never across the end of the area. */
  lemma RecordFits(h: nat, record: nat, size: nat)
    requires 0 < size && record <= size
    ensures (h + Pad(h, record, size)) % size + record <= size
    ensures Pad(h, record, size) > 0 ==> (h + Pad(h, record, size)) % size == 0
  {
    if Pad(h, record, size) > 0 { NextLap(h, size); }
  }

  /** The padding is the least that keeps the record in one piece. */
  lemma PadIsLeast(h: nat, record: nat, size: nat, p: nat)
    requires 0 < size && p < Pad(h, record, size)
    ensures (h + p) % size + record > size
  {
    SameLap(h, p, size);
  }

  /** Writing behind the published addresses within the area does not touch them. */
  lemma WriteMissesPublished(t: nat, h: nat, at: nat, n: nat, size: nat)
    requires size > 0 && h <= at && at + n <= t + size && at % size + n <= size
    ensures forall k :: t <= k < h ==> !(at % size <= k % size < at % size + n)
  {
    forall k | t <= k < h
      ensures !(at % size <= k % size < at % size + n)
    {
      var i := k % size - at % size;
      if 0 <= i < n {
        SameLap(at, i, size);
        DistinctOffsets(k, at + i, size);
      }
    }
  }

  /** Publishing a stored record appends its message. */
  lemma Publish(before: seq<Byte>, after: seq<Byte>, t: nat, h: nat, q: seq<Msg>, m: Msg)
    requires Holds(before, t, h, q) && SameOn(before, after, t, h)
    requires ValidMsg(m) && RecordSize(|m.payload|) <= |after| && Stored(after, h, m)
    requires h % 4 == 0 && |after| % 4 == 0
    ensures Holds(after, t, h + Pad(h, RecordSize(|m.payload|), |after|) + RecordSize(|m.payload|), q + [m])
  {
    hide Holds, SameOn;
    HoldsIsStable(before, after, t, h, q);
    var pad := Pad(h, RecordSize(|m.payload|), |after|);
    RecordFits(h, RecordSize(|m.payload|), |after|);
    assert RecordAt(after, h + pad, m);
    if pad == 0 { DecodeHeader(after, h, m); }
    assert RecordStart(after, h) == h + pad;
    HoldsAppend(after, t, h, q, m);
  }

  /** The area with `bytes` stored at offset `at`. */
  function Patch(d: seq<Byte>, at: nat, bytes: seq<Byte>): (r: seq<Byte>)
    requires at + |bytes| <= |d|
    ensures |r| == |d|
    ensures forall i :: 0 <= i < |d| ==> r[i] == if at <= i < at + |bytes| then bytes[i - at] else d[i]
  {
    d[..at] + bytes + d[at + |bytes|..]
  }

  function Marker(): seq<Byte> { Put16(0) + Put16(PAD_TYPE) }

  /** The area with the padding marker of a write at h, if it needs one. */
  function Marked(d: seq<Byte>, h: nat, pad: nat, size: nat): (r: seq<Byte>)
    requires 0 < size <= |d| && h % size + 4 <= size
    ensures |r| == |d|
  {
    if pad != 0 then Patch(d, h % size, Marker()) else d
  }

  /** The area after all stores of a write at address h. */
  function Written(d: seq<Byte>, h: nat, m: Msg, size: nat): (r: seq<Byte>)
    requires AreaSize(size) && size <= |d| && h % 4 == 0
    requires ValidMsg(m) && RecordSize(|m.payload|) <= size
    ensures |r| == |d|
  {
    var pad := Pad(h, RecordSize(|m.payload|), size);
    RecordFits(h, RecordSize(|m.payload|), size);
    OffsetsAreWords(h, size);
    var marked := Marked(d, h, pad, size);
    Patch(marked, (h + pad) % size, Encoded(m))
  }

  lemma OffsetsAreWords(h: nat, size: nat)
    requires size > 0 && size % 4 == 0 && h % 4 == 0
    ensures h % size % 4 == 0 && h % size + 4 <= size
  {
    ReduceFirst(h, size, 4);
    RoomForWord(h % size, size);
  }

  lemma RoomForWord(off: nat, size: nat)
    requires off < size && off % 4 == 0 && size % 4 == 0
    ensures off + 4 <= size
  {
  }

  lemma PadIsWords(h: nat, record: nat, size: nat)
    requires size > 0 && size % 4 == 0 && h % 4 == 0 && record % 4 == 0
    ensures (h + Pad(h, record, size) + record) % 4 == 0
  {
    OffsetsAreWords(h, size);
    var pad := Pad(h, record, size);
    assert pad % 4 == 0 by { DifferenceIsWords(size, h % size); }
    hide Pad;
    SumIsWords(h, pad, record);
  }

  lemma DifferenceIsWords(a: nat, b: nat)
    requires b <= a && a % 4 == 0 && b % 4 == 0
    ensures (a - b) % 4 == 0
  {
  }

  lemma SumIsWords(a: nat, b: nat, c: nat)
    requires a % 4 == 0 && b % 4 == 0 && c % 4 == 0
    ensures (a + b + c) % 4 == 0
  {
  }

  lemma PatchSpares(d: seq<Byte>, at: nat, bytes: seq<Byte>, t: nat, h: nat, size: nat)
    requires at + |bytes| <= size <= |d| && size > 0
    requires forall k :: t <= k < h ==> !(at <= k % size < at + |bytes|)
    ensures SameOn(d[..size], Patch(d, at, bytes)[..size], t, h)
  {
  }

  lemma SameOnTransitive(a: seq<Byte>, b: seq<Byte>, c: seq<Byte>, t: nat, h: nat)
    requires SameOn(a, b, t, h) && SameOn(b, c, t, h)
    ensures SameOn(a, c, t, h)
  {
  }

  /** A write leaves every published byte alone. */
  lemma WrittenSpares(d: seq<Byte>, t: nat, h: nat, m: Msg, size: nat)
    requires AreaSize(size) && size <= |d| && h % 4 == 0 && t <= h && ValidMsg(m)
    requires RecordSize(|m.payload|) <= size
    requires var record := RecordSize(|m.payload|); h + Pad(h, record, size) + record <= t + size
    ensures SameOn(d[..size], Written(d, h, m, size)[..size], t, h)
  {
    hide Encoded, SameOn, AreaSize, Marker;
    AreaIsWords(size);
    OffsetsAreWords(h, size);
    var record := RecordSize(|m.payload|);
    var pad := Pad(h, record, size);
    RecordFits(h, record, size);
    var marked := Marked(d, h, pad, size);
    var at := (h + pad) % size;
    SameOnReflexive(d[..size], t, h);
    if pad != 0 {
      assert |Marker()| == 4 by { MarkerIsAWord(); }
      WriteMissesPublished(t, h, h, 4, size);
      PatchSpares(d, h % size, Marker(), t, h, size);
    }
    WriteMissesPublished(t, h, h + pad, |Encoded(m)|, size);
    PatchSpares(marked, at, Encoded(m), t, h, size);
    SameOnTransitive(d[..size], marked[..size], Patch(marked, at, Encoded(m))[..size], t, h);
  }

  lemma MarkerIsAWord()
    ensures |Marker()| == 4 && Marker()[2] == 255 && Marker()[3] == 255
  {
  }

  /** The padding marker of a write that starts over survives the record. */
  lemma PaddingIsStored(d: seq<Byte>, h: nat, m: Msg, size: nat)
    requires AreaSize(size) && size <= |d| && h % 4 == 0 && ValidMsg(m)
    requires var record := RecordSize(|m.payload|); Pad(h, record, size) + record <= size
    ensures Pad(h, RecordSize(|m.payload|), size) >= REC_HDR ==>
              h % size + 4 <= size && Get16(Written(d, h, m, size)[..size], h % size + 2) == PAD_TYPE
  {
    hide Encoded, AreaSize, Marker, Patch, Get16;
    AreaIsWords(size);
    OffsetsAreWords(h, size);
    MarkerIsAWord();
    var record := RecordSize(|m.payload|);
    var pad := Pad(h, record, size);
    RecordFits(h, record, size);
    var off, at := h % size, (h + pad) % size;
    var marked := Marked(d, h, pad, size);
    var after := Patch(marked, at, Encoded(m))[..size];
    if pad >= REC_HDR {
      PatchReads(marked, at, Encoded(m), size);
      PatchReads(d, off, Marker(), size);
      assert at == 0 && |Encoded(m)| <= off;
      assert marked[off..off + 4] == Marker();
      assert after[off + 2] == marked[off + 2] == Marker()[2] && after[off + 3] == marked[off + 3] == Marker()[3];
      PaddingReads(after, off);
    }
  }

  /** A write stores its record. */
  lemma WrittenIsStored(d: seq<Byte>, h: nat, m: Msg, size: nat)
    requires AreaSize(size) && size <= |d| && h % 4 == 0 && ValidMsg(m)
    requires var record := RecordSize(|m.payload|); Pad(h, record, size) + record <= size
    ensures Stored(Written(d, h, m, size)[..size], h, m)
  {
    hide Encoded, AreaSize, Marked, Patch, Get16, Pad;
    AreaIsWords(size);
    OffsetsAreWords(h, size);
    var record := RecordSize(|m.payload|);
    var pad := Pad(h, record, size);
    RecordFits(h, record, size);
    PatchReads(Marked(d, h, pad, size), (h + pad) % size, Encoded(m), size);
    PaddingIsStored(d, h, m, size);
  }

  lemma PatchReads(d: seq<Byte>, at: nat, bytes: seq<Byte>, size: nat)
    requires at + |bytes| <= size <= |d|
    ensures var p := Patch(d, at, bytes);
            p[..size][at..at + |bytes|] == bytes && p[at..at + |bytes|] == bytes &&
            forall k :: 0 <= k < size && !(at <= k < at + |bytes|) ==> p[..size][k] == d[k]
  {
  }

  lemma PaddingReads(data: seq<Byte>, off: nat)
    requires off + 4 <= |data| && data[off + 2] == 255 && data[off + 3] == 255
    ensures Get16(data, off + 2) == PAD_TYPE
  {
  }

  lemma AreaIsWords(size: nat)
    requires AreaSize(size)
    ensures size >= 64 && size % 4 == 0
  {
  }

  lemma SameOnReflexive(a: seq<Byte>, t: nat, h: nat)
    requires |a| > 0
    ensures SameOn(a, a, t, h)
  {
  }

  /** A write that fits appends its message to the queue. */
  lemma WriteAppends(d: seq<Byte>, t: nat, h: nat, q: seq<Msg>, m: Msg, size: nat)
    requires AreaSize(size) && size <= |d| && h % 4 == 0 && ValidMsg(m)
    requires Holds(d[..size], t, h, q)
    requires var record := RecordSize(|m.payload|); h + Pad(h, record, size) + record <= t + size
    ensures RecordSize(|m.payload|) <= size
    ensures Holds(Written(d, h, m, size)[..size], t,
                  h + Pad(h, RecordSize(|m.payload|), size) + RecordSize(|m.payload|), q + [m])
  {
    hide Holds, SameOn, Written, Stored, AreaSize;
    HoldsIsOrdered(d[..size], t, h, q);
    AreaIsWords(size);
    WrittenSpares(d, t, h, m, size);
    WrittenIsStored(d, h, m, size);
    Publish(d[..size], Written(d, h, m, size)[..size], t, h, q, m);
  }

  /** Header and payload stored one after the other are the record. */
  lemma PatchTwice(d: seq<Byte>, at: nat, m: Msg)
    requires ValidMsg(m) && at + REC_HDR + |m.payload| <= |d|
    ensures var header := Put16(|m.payload|) + Put16(m.kind) + Put32(m.seqNo);
            Patch(Patch(d, at, header), at + REC_HDR, m.payload) == Patch(d, at, Encoded(m))
  {
    hide Put16, Put32;
  }

  // ---- The header and the area together ----

  /** Wrapped indices, unbounded counters, area and queue agree. */
  ghost predicate Consistent(d: seq<Byte>, size: nat, head: nat, tail: nat, produced: nat, consumed: nat,
                             queue: seq<Msg>) {
    && AreaSize(size) && size <= |d|
    && head == produced % WRAP && tail == consumed % WRAP
    && consumed <= produced <= consumed + size
    && produced % 4 == 0 && consumed % 4 == 0
    && Holds(d[..size], consumed, produced, queue)
  }

  /** Masking the wrapped index gives the offset of the unbounded one. */
  lemma IndexOffset(a: nat, size: nat)
    requires AreaSize(size)
    ensures size > 0 && a % WRAP % size == a % size
  {
    ReduceFirst(a, WRAP, size);
  }

  /** What a producer needs to know about the indices. */
  lemma ProducerView(d: seq<Byte>, size: nat, head: nat, tail: nat, produced: nat, consumed: nat, queue: seq<Msg>)
    requires Consistent(d, size, head, tail, produced, consumed, queue)
    ensures size > 0 && size % 4 == 0 && size <= |d| && head < WRAP && tail < WRAP
    ensures head == produced % WRAP && head % size == produced % size && produced % 4 == 0
    ensures consumed <= produced && Sub32(head, tail) == produced - consumed <= size
  {
    IndexOffset(produced, size);
    WrappedDifference(produced, consumed);
  }

  /** Appending keeps everything in agreement. */
  lemma {:induction false} ConsistentAppend(
    d: seq<Byte>, size: nat, head: nat, tail: nat, produced: nat, consumed: nat, queue: seq<Msg>, m: Msg)
    requires Consistent(d, size, head, tail, produced, consumed, queue) && ValidMsg(m)
    requires size > 0
    requires var record := RecordSize(|m.payload|);
             produced + Pad(produced, record, size) + record <= consumed + size
    ensures AreaSize(size) && size <= |d| && produced % 4 == 0
    ensures RecordSize(|m.payload|) <= size
    ensures var record := RecordSize(|m.payload|);
            var pad := Pad(produced, record, size);
            Consistent(Written(d, produced, m, size), size, ((head + pad) % WRAP + record) % WRAP, tail,
                       produced + pad + record, consumed, queue + [m])
  {
    hide Holds, Written, AreaSize, Pad, RecordSize;
    AreaIsWords(size);
    var record := RecordSize(|m.payload|);
    var pad := Pad(produced, record, size);
    WriteAppends(d, consumed, produced, queue, m, size);
    ReduceSum(produced, pad, WRAP);
    ReduceSum(produced + pad, record, WRAP);
    PadIsWords(produced, record, size);
  }

  /** What a consumer needs to know about the indices. */
  lemma ConsumerView(d: seq<Byte>, size: nat, head: nat, tail: nat, produced: nat, consumed: nat, queue: seq<Msg>)
    requires Consistent(d, size, head, tail, produced, consumed, queue)
    ensures size > 0 && size % 4 == 0 && size <= |d| && head < WRAP && tail < WRAP
    ensures tail == consumed % WRAP && tail % size == consumed % size
    ensures consumed <= produced && Sub32(head, tail) == produced - consumed <= size
    ensures head == tail <==> queue == []
    ensures queue != [] ==> consumed % size + 4 <= size
  {
    hide Holds, RecordAt;
    IndexOffset(consumed, size);
    WrappedDifference(produced, consumed);
    HoldsIsOrdered(d[..size], consumed, produced, queue);
    OffsetsAreWords(consumed, size);
    if queue == [] { EmptyHolds(d[..size], consumed, produced); }
  }

  lemma EmptyHolds(data: seq<Byte>, t: nat, h: nat)
    requires Holds(data, t, h, [])
    ensures t == h
  {
  }

  /** Skipping the padding of a nonempty ring: the indices still agree, and no padding follows. */
  lemma {:induction false} ConsistentSkip(
    d: seq<Byte>, size: nat, head: nat, tail: nat, produced: nat, consumed: nat, queue: seq<Msg>)
    requires Consistent(d, size, head, tail, produced, consumed, queue) && queue != []
    requires 0 < size <= |d| && PaddedAt(d[..size], consumed)
    ensures var toEnd := size - consumed % size;
            && Consistent(d, size, head, (tail + toEnd) % WRAP, produced, consumed + toEnd, queue)
            && !PaddedAt(d[..size], consumed + toEnd)
  {
    hide Holds, AreaSize, PaddedAt;
    AreaIsWords(size);
    var toEnd := size - consumed % size;
    HoldsAfterSkip(d[..size], consumed, produced, queue);
    assert RecordStart(d[..size], consumed) == consumed + toEnd;
    HoldsIsOrdered(d[..size], consumed + toEnd, produced, queue);
    ReduceSum(consumed, toEnd, WRAP);
    OffsetsAreWords(consumed, size);
    DifferenceIsWords(size, consumed % size);
    SumIsWords(consumed, toEnd, 0);
  }

  /** The first message of a ring whose tail is at a record. */
  lemma FirstRecord(d: seq<Byte>, size: nat, head: nat, tail: nat, produced: nat, consumed: nat, queue: seq<Msg>)
    requires Consistent(d, size, head, tail, produced, consumed, queue) && queue != []
    requires 0 < size <= |d| && !PaddedAt(d[..size], consumed)
    ensures RecordAt(d[..size], consumed, queue[0])
    ensures consumed + RecordSize(|queue[0].payload|) <= produced
    ensures Holds(d[..size], consumed + RecordSize(|queue[0].payload|), produced, queue[1..])
  {
    hide PaddedAt, RecordAt;
  }

  /** The first message as a consumer decodes it, and the checks it passes. */
  lemma FirstMessage(d: seq<Byte>, size: nat, head: nat, tail: nat, produced: nat, consumed: nat, queue: seq<Msg>)
    requires Consistent(d, size, head, tail, produced, consumed, queue) && queue != []
    requires 0 < size <= |d| && !PaddedAt(d[..size], consumed)
    ensures var off, n := consumed % size, |queue[0].payload|;
            && off + REC_HDR <= size && off + REC_HDR + n <= |d|
            && Get16(d, off) == n && Get16(d, off + 2) == queue[0].kind && Get32(d, off + 4) == queue[0].seqNo
            && d[off + REC_HDR..off + REC_HDR + n] == queue[0].payload
            && n <= MAX_PAYLOAD && RecordSize(n) <= size - off && RecordSize(n) <= produced - consumed
  {
    hide PaddedAt, Holds, AreaSize;
    FirstRecord(d, size, head, tail, produced, consumed, queue);
    DecodeHeader(d[..size], consumed, queue[0]);
    var off, n := consumed % size, |queue[0].payload|;
    assert d[..size][off + REC_HDR..off + REC_HDR + n] == d[off + REC_HDR..off + REC_HDR + n];
  }

  /** Taking the first record. */
  lemma {:induction false} ConsistentTake(
    d: seq<Byte>, size: nat, head: nat, tail: nat, produced: nat, consumed: nat, queue: seq<Msg>)
    requires Consistent(d, size, head, tail, produced, consumed, queue) && queue != []
    requires 0 < size <= |d| && !PaddedAt(d[..size], consumed)
    ensures var record := RecordSize(|queue[0].payload|);
            Consistent(d, size, head, (tail + record) % WRAP, produced, consumed + record, queue[1..])
  {
    hide Holds, PaddedAt, RecordAt, AreaSize, RecordSize;
    var record := RecordSize(|queue[0].payload|);
    FirstRecord(d, size, head, tail, produced, consumed, queue);
    ReduceSum(consumed, record, WRAP);
    SumIsWords(consumed, record, 0);
  }

  // ---- Progress ----

  /** Whether an empty ring takes a record of `record` bytes at address h. */
  predicate EmptyRingAccepts(h: nat, record: nat, size: nat)
    requires size > 0
  {
    Pad(h, record, size) + record <= size
  }

  predicate PowerOfTwo(n: nat)
  {
    n == 1 || (n > 0 && n % 2 == 0 && PowerOfTwo(n / 2))
  }

  lemma {:induction false} PowersDivide(n: nat, m: nat)
    requires PowerOfTwo(n) && PowerOfTwo(m) && n <= m
    ensures m % n == 0
    decreases m
  {
    if n > 1 {
      PowersDivide(n / 2, m / 2);
      var k := m / 2 / (n / 2);
      assert m / 2 == n / 2 * k;
      assert m == n * k;
      RemainderIsUnique(m, n, k, 0);
    }
  }

  lemma PowersBelow(n: nat)
    requires PowerOfTwo(n) && n < 2048
    ensures n <= 1024
  {
    if n > 1024 { PowersDivide(1024, n); }
  }

  lemma {:induction false} PowersMultiply(a: nat, b: nat)
    requires PowerOfTwo(a) && PowerOfTwo(b)
    ensures PowerOfTwo(a * b)
    decreases a
  {
    if a > 1 {
      PowersMultiply(a / 2, b);
      Reassociate(2, a / 2, b);
      assert a * b / 2 == a / 2 * b;
    }
  }

  /** The index range is a power of two, so every smaller power of two divides it. */
  lemma WrapIsPower()
    ensures PowerOfTwo(0x8000_0000) && PowerOfTwo(WRAP)
  {
    assert PowerOfTwo(256) && PowerOfTwo(128);
    PowersMultiply(256, 256);
    PowersMultiply(128, 256);
    PowersMultiply(256 * 256, 256 * 256);
    PowersMultiply(256 * 256, 128 * 256);
  }

  lemma LargeAreaAccepts(h: nat, len: nat, size: nat)
    requires len <= MAX_PAYLOAD && size >= 2048
    ensures EmptyRingAccepts(h, RecordSize(len), size)
  {
  }

  /** A longest record 516 bytes before the end of a small area. */
  lemma SmallAreaRefuses(size: nat) returns (h: nat)
    requires 0 < size <= 1024 && size % 4 == 0
    ensures h % 4 == 0 && !EmptyRingAccepts(h, RecordSize(MAX_PAYLOAD), size)
  {
    if size > 516 {
      h := size - 516;
      RemainderIsUnique(h, size, 0, h);
      assert RecordSize(MAX_PAYLOAD) == 520;
    } else {
      h := 0;
    }
  }

  /** An empty ring takes every payload at every position exactly when its area has 2048 bytes or more. */
  lemma ProgressCondition(size: nat)
    requires PowerOfTwo(size) && size % 4 == 0
    ensures (forall h: nat, len: nat :: h % 4 == 0 && len <= MAX_PAYLOAD ==> EmptyRingAccepts(h, RecordSize(len), size))
       <==> size >= 2048
  {
    hide EmptyRingAccepts, RecordSize;
    if size >= 2048 {
      forall h: nat, len: nat | h % 4 == 0 && len <= MAX_PAYLOAD
        ensures EmptyRingAccepts(h, RecordSize(len), size)
      {
        LargeAreaAccepts(h, len, size);
      }
    } else {
      PowersBelow(size);
      var h := SmallAreaRefuses(size);
    }
  }
}
