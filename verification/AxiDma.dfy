/** The descriptor ring of the AXI DMA driver beside an engine that completes descriptors in order, up
    to and including the one TAILDESC names. */
module AxiDma {

  import opened Arith

  const BD_BYTES: nat := 64
  const LEN_MASK: nat := 0x0400_0000

  /** Control word: the length, with start and end of frame for the transmit direction. */
  datatype Control = Control(length: nat, startOfFrame: bool, endOfFrame: bool)

  datatype Status = Status(complete: bool, error: bool, length: nat)

  const CLEARED: Status := Status(false, false, 0)

  datatype Descriptor = Descriptor(next: nat, buffer: nat, control: Control, status: Status)

  /** What the engine leaves in a buffer: opaque contents and their length. */
  datatype Transfer = Transfer(contents: nat, length: nat, error: bool)

  datatype Peeked = Nothing | Buffer(index: nat, contents: nat, length: nat)

  /** Two counts less than a lap apart meet in the ring only when they are equal. */
  lemma SameSlot(a: nat, b: nat, n: nat)
    requires n > 0 && a <= b < a + n
    ensures a % n == b % n <==> a == b
  {
    if a < b { DistinctOffsets(a, b, n); }
  }

  lemma NextSlot(k: nat, n: nat)
    requires n > 0
    ensures (k % n + 1) % n == (k + 1) % n
  {
    NextRemainder(k, n);
    NextRemainder(k % n, n);
    Inside(k % n, n);
  }

  lemma Inside(k: nat, n: nat)
    requires k < n
    ensures k % n == k
  {
  }

  lemma OneLapOn(k: nat, n: nat)
    requires n > 0
    ensures (k + n) % n == k % n
  {
    RemainderIsUnique(k + n, n, k / n + 1, k % n);
  }

  function BufferPhys(base: nat, i: nat, bytes: nat): nat {
    base + i * bytes
  }

  // ---- What the descriptors and buffers say about the transfers ----

  /** Transfer k is complete and its buffer still holds it. */
  ghost predicate Held(bds: seq<Descriptor>, buffers: seq<nat>, completed: seq<Transfer>, k: nat)
    requires 0 < |bds| == |buffers| && k < |completed|
  {
    bds[k % |bds|].status == Status(true, completed[k].error, completed[k].length) &&
    buffers[k % |bds|] == completed[k].contents
  }

  ghost predicate Cleared(bds: seq<Descriptor>, k: nat)
    requires 0 < |bds|
  {
    bds[k % |bds|].status == CLEARED
  }

  /** Transfers r and later are in the ring, the others have been taken; the rest of the ring is free. */
  ghost predicate Contents(bds: seq<Descriptor>, buffers: seq<nat>, completed: seq<Transfer>, r: nat) {
    0 < |bds| == |buffers| && r <= |completed| <= r + |bds| &&
    (forall k :: r <= k < |completed| ==> Held(bds, buffers, completed, k)) &&
    (forall k :: |completed| <= k < r + |bds| ==> Cleared(bds, k))
  }

  lemma CompleteKeepsContents(bds: seq<Descriptor>, buffers: seq<nat>, completed: seq<Transfer>, r: nat, t: Transfer)
    requires Contents(bds, buffers, completed, r) && |completed| < r + |bds|
    ensures var i := |completed| % |bds|;
            Contents(bds[i := bds[i].(status := Status(true, t.error, t.length))], buffers[i := t.contents],
                     completed + [t], r)
  {
    var n, c := |bds|, |completed|;
    var i := c % n;
    var bds', buffers' := bds[i := bds[i].(status := Status(true, t.error, t.length))], buffers[i := t.contents];
    forall k | r <= k < c + 1
      ensures Held(bds', buffers', completed + [t], k)
    {
      if k < c {
        assert Held(bds, buffers, completed, k);
        SameSlot(k, c, n);
      }
    }
    forall k | c + 1 <= k < r + n
      ensures Cleared(bds', k)
    {
      assert Cleared(bds, k);
      SameSlot(c, k, n);
    }
  }

  lemma RequeueKeepsContents(bds: seq<Descriptor>, buffers: seq<nat>, completed: seq<Transfer>, r: nat, d: Descriptor)
    requires Contents(bds, buffers, completed, r) && r < |completed| && d.status == CLEARED
    ensures Contents(bds[r % |bds| := d], buffers, completed, r + 1)
  {
    var n := |bds|;
    var bds' := bds[r % n := d];
    forall k | r + 1 <= k < |completed|
      ensures Held(bds', buffers, completed, k)
    {
      assert Held(bds, buffers, completed, k);
      SameSlot(r, k, n);
    }
    forall k | |completed| <= k < r + 1 + n
      ensures Cleared(bds', k)
    {
      OneLapOn(r, n);
      if k < r + n {
        assert Cleared(bds, k);
        SameSlot(r, k, n);
      }
    }
  }

  lemma EmptyRing(bds: seq<Descriptor>, buffers: seq<nat>)
    requires 0 < |bds| == |buffers| && forall i :: 0 <= i < |bds| ==> bds[i].status == CLEARED
    ensures Contents(bds, buffers, [], 0)
  {
  }

  class Ring {
    const bds: array<Descriptor>
    const bdsPhys: nat
    const count: nat
    const buffers: array<nat>
    const buffersPhys: nat
    const bufBytes: nat
    const s2mm: bool
    var next: nat
    var errors: nat
    // The engine: the descriptor it works on, the tail register, and whether it has passed the tail.
    var current: nat
    var tail: nat
    var idle: bool
    // Every transfer completed so far, and those the application has handed back.
    ghost var completed: seq<Transfer>
    ghost var returned: seq<Transfer>

    /** Links the descriptors in a circle over the buffers, and starts the channel with all of them. */
    constructor (bdsPhys: nat, count: nat, buffersPhys: nat, bufBytes: nat, s2mm: bool)
      requires count > 0
      ensures Valid() && completed == [] && returned == [] && this.count == count && this.s2mm == s2mm &&
              this.bufBytes == bufBytes && errors == 0
      ensures fresh(bds) && fresh(buffers)
    {
      this.bdsPhys, this.count, this.buffersPhys := bdsPhys, count, buffersPhys;
      this.bufBytes, this.s2mm := bufBytes, s2mm;
      bds := new Descriptor[count](i requires 0 <= i < count =>
        Descriptor(bdsPhys + (i + 1) % count * BD_BYTES, BufferPhys(buffersPhys, i, bufBytes),
                   Control(bufBytes % LEN_MASK, !s2mm, !s2mm), CLEARED));
      buffers := new nat[count](_ => 0);
      next, errors := 0, 0;
      current, tail, idle := bdsPhys, bdsPhys + (count - 1) * BD_BYTES, false;
      completed, returned := [], [];
      new;
      Inside(0, count);
      Inside(count - 1, count);
      EmptyRing(bds[..], buffers[..]);
    }

    function BdPhys(i: nat): nat {
      bdsPhys + i * BD_BYTES
    }

    ghost predicate Linked()
      reads bds
    {
      count > 0 && bds.Length == count && buffers.Length == count &&
      forall i :: 0 <= i < count ==>
        bds[i].next == BdPhys((i + 1) % count) && bds[i].buffer == BufferPhys(buffersPhys, i, bufBytes) &&
        WholeBuffer(bds[i].control)
    }

    /** A control word for the length of a buffer, which is a whole frame in the transmit direction. */
    predicate WholeBuffer(c: Control) {
      c.length == bufBytes % LEN_MASK && (c.startOfFrame <==> !s2mm) && (c.endOfFrame <==> !s2mm)
    }

    ghost predicate Valid()
      reads this, bds, buffers
    {
      Linked() && |returned| <= |completed| && returned == completed[..|returned|] &&
      next == |returned| % count && current == BdPhys(|completed| % count) &&
      tail == BdPhys((|returned| + count - 1) % count) &&
      (idle <==> |completed| == |returned| + count) && Contents(bds[..], buffers[..], completed, |returned|)
    }

    /** The engine finishes the descriptor it works on and follows its link; behind the tail it stops.
        The buffer it touches is not one the application could be holding. */
    method EngineCompletes(t: Transfer)
      requires Valid() && !idle
      modifies this`current, this`idle, this`completed, bds, buffers
      ensures Valid() && completed == old(completed) + [t] && returned == old(returned)
      ensures |returned| < |old(completed)| ==> |old(completed)| % count != |returned| % count
      ensures forall i :: 0 <= i < count && i != |old(completed)| % count ==> buffers[i] == old(buffers[i])
    {
      hide Contents;
      ContentsBound();
      var i := (current - bdsPhys) / BD_BYTES;
      ghost var c, r, b, d := |completed|, |returned|, buffers[..], bds[..];
      AddressBack(c % count);
      SameSlot(r, c, count);
      SameSlot(c, r + count - 1, count);
      NextSlot(c, count);
      CompleteKeepsContents(d, b, completed, r, t);
      buffers[i] := t.contents;
      bds[i] := bds[i].(status := Status(true, t.error, t.length));
      assert buffers[..] == b[i := t.contents] && bds[..] == d[i := d[i].(status := Status(true, t.error, t.length))];
      idle := current == tail;
      current := bds[i].next;
      completed := completed + [t];
    }

    lemma ContentsBound()
      requires Valid()
      ensures |completed| <= |returned| + count
    {
    }

    lemma AddressBack(i: nat)
      ensures (BdPhys(i) - bdsPhys) / BD_BYTES == i
    {
    }

    /** The oldest completed buffer, or nothing. */
    method PeekDone() returns (p: Peeked)
      requires Valid()
      ensures p == Nothing <==> |completed| == |returned|
      ensures p != Nothing ==>
                var t := completed[|returned|];
                p == Buffer(|returned| % count, t.contents, if s2mm then t.length % LEN_MASK else bufBytes)
    {
      var status := bds[next].status;
      OneOrTheOther(bds[..], buffers[..], completed, |returned|);
      if !status.complete { return Nothing; }
      p := Buffer(next, buffers[next], if s2mm then status.length % LEN_MASK else bufBytes);
    }

    /** Gives the buffer PeekDone returned back to the engine. */
    method Requeue()
      requires Valid() && |returned| < |completed|
      modifies this`next, this`errors, this`tail, this`idle, this`returned, bds
      ensures Valid() && completed == old(completed) && returned == old(returned) + [completed[|old(returned)|]]
      ensures errors == old(errors) + if completed[|old(returned)|].error then 1 else 0
      ensures !idle
      ensures var i := |old(returned)| % count;
              && bds[i].status == CLEARED && WholeBuffer(bds[i].control)
              && forall k :: 0 <= k < count && k != i ==> bds[k] == old(bds[k])
    {
      hide Contents;
      ContentsBound();
      ghost var r, d := |returned|, bds[..];
      OneOrTheOther(d, buffers[..], completed, r);
      OneLapOn(r, count);
      NextSlot(r, count);
      if bds[next].status.error { errors := errors + 1; }
      RequeueKeepsContents(d, buffers[..], completed, r, Requeued(bds[next]));
      bds[next] := Requeued(bds[next]);
      assert bds[..] == d[next := Requeued(d[next])];
      tail := BdPhys(next);
      idle := false;
      next := (next + 1) % count;
      returned := returned + [completed[r]];
    }

    function Requeued(d: Descriptor): Descriptor {
      d.(status := CLEARED, control := Control(bufBytes % LEN_MASK, !s2mm, !s2mm))
    }
  }

  /** The oldest place in the ring is a completed transfer, or free. */
  lemma OneOrTheOther(bds: seq<Descriptor>, buffers: seq<nat>, completed: seq<Transfer>, r: nat)
    requires Contents(bds, buffers, completed, r)
    ensures if r < |completed| then Held(bds, buffers, completed, r) else Cleared(bds, r)
  {
  }

  /** What the engine and the application do, one after the other in any order. The application looks for a
      buffer, works on it while the engine goes on, and hands it back. */
  datatype Step = Complete(t: Transfer) | Peek | Release

  /** A buffer the application had, and what it found there when it handed it back. */
  datatype Taken = Taken(buffer: Peeked, atRelease: nat)

  predicate IsTransfer(p: Peeked, k: nat, count: nat, s2mm: bool, bufBytes: nat, t: Transfer)
    requires count > 0
  {
    p == Buffer(k % count, t.contents, if s2mm then t.length % LEN_MASK else bufBytes)
  }

  /** Any interleaving: the application takes the completed transfers in order, each once, and finds every
      buffer as it was when it got it, whatever the engine did in between. */
  method RunSchedule(ring: Ring, steps: seq<Step>) returns (taken: seq<Taken>, held: Peeked)
    requires ring.Valid() && ring.returned == []
    modifies ring, ring.bds, ring.buffers
    ensures ring.Valid() && |taken| == |ring.returned| && ring.returned <= ring.completed
    ensures forall k :: 0 <= k < |taken| ==>
              var t := ring.completed[k];
              IsTransfer(taken[k].buffer, k, ring.count, ring.s2mm, ring.bufBytes, t) &&
              taken[k].atRelease == t.contents
    ensures held != Nothing ==>
              |taken| < |ring.completed| &&
              var t := ring.completed[|taken|];
              IsTransfer(held, |taken|, ring.count, ring.s2mm, ring.bufBytes, t) &&
              ring.buffers[|taken| % ring.count] == t.contents
  {
    taken, held := [], Nothing;
    for i := 0 to |steps|
      invariant ring.Valid() && |taken| == |ring.returned|
      invariant forall k :: 0 <= k < |taken| ==>
                  var t := ring.completed[k];
                  IsTransfer(taken[k].buffer, k, ring.count, ring.s2mm, ring.bufBytes, t) &&
                  taken[k].atRelease == t.contents
      invariant held != Nothing ==>
                  |taken| < |ring.completed| &&
                  IsTransfer(held, |taken|, ring.count, ring.s2mm, ring.bufBytes, ring.completed[|taken|])
    {
      match steps[i] {
        case Complete(t) =>
          if !ring.idle { ring.EngineCompletes(t); }
        case Peek =>
          if held == Nothing { held := ring.PeekDone(); }
        case Release =>
          if held != Nothing {
            OneOrTheOther(ring.bds[..], ring.buffers[..], ring.completed, |ring.returned|);
            var found := ring.buffers[held.index];
            ring.Requeue();
            taken, held := taken + [Taken(held, found)], Nothing;
          }
      }
    }
    if held != Nothing { OneOrTheOther(ring.bds[..], ring.buffers[..], ring.completed, |ring.returned|); }
  }
}
