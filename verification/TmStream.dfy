/** The byte stream of one virtual channel: packets back to back, cut into data fields, with a pointer
    to the first packet that starts in each; and which packets survive when some frames are lost. */
module TmStream {

  import opened Bytes
  import opened SpacePacket
  import opened TmFrame

  type Packet = seq<Byte>

  function Concat(ps: seq<Packet>): seq<Byte> {
    if ps == [] then [] else Concat(ps[..|ps| - 1]) + ps[|ps| - 1]
  }

  /** Offset in the stream at which packet k starts. */
  function Start(ps: seq<Packet>, k: nat): (s: nat)
    requires k <= |ps|
  {
    if k == 0 then 0 else Start(ps, k - 1) + |ps[k - 1]|
  }

  lemma {:induction false} StartOfPrefix(ps: seq<Packet>, qs: seq<Packet>, k: nat)
    requires k <= |ps|
    ensures Start(ps + qs, k) == Start(ps, k)
  {
    if k > 0 { StartOfPrefix(ps, qs, k - 1); }
  }

  lemma {:induction false} ConcatLength(ps: seq<Packet>)
    ensures |Concat(ps)| == Start(ps, |ps|)
  {
    if ps != [] {
      var front := ps[..|ps| - 1];
      ConcatLength(front);
      assert ps == front + [ps[|ps| - 1]];
      StartOfPrefix(front, [ps[|ps| - 1]], |front|);
    }
  }

  lemma {:induction false} StartMonotone(ps: seq<Packet>, a: nat, b: nat)
    requires a <= b <= |ps|
    ensures Start(ps, a) <= Start(ps, b)
  {
    if a < b { StartMonotone(ps, a, b - 1); }
  }

  lemma {:induction false} ConcatAppend(ps: seq<Packet>, qs: seq<Packet>)
    ensures Concat(ps + qs) == Concat(ps) + Concat(qs)
  {
    if qs == [] {
      assert ps + qs == ps;
    } else {
      assert (ps + qs)[..|ps + qs| - 1] == ps + qs[..|qs| - 1];
      ConcatAppend(ps, qs[..|qs| - 1]);
    }
  }

  /** Packet k lies at its start. */
  lemma PacketInStream(ps: seq<Packet>, k: nat)
    requires k < |ps|
    ensures Start(ps, k + 1) <= |Concat(ps)|
    ensures Concat(ps)[Start(ps, k)..Start(ps, k + 1)] == ps[k]
  {
    hide Start;
    assert ps == ps[..k] + ([ps[k]] + ps[k + 1..]);
    ConcatAppend(ps[..k], [ps[k]] + ps[k + 1..]);
    ConcatAppend([ps[k]], ps[k + 1..]);
    SingleConcat(ps[k]);
    ConcatLength(ps[..k]);
    StartOfPrefix(ps[..k], [ps[k]] + ps[k + 1..], k);
    StartStep(ps, k);
  }

  lemma SingleConcat(p: Packet)
    ensures Concat([p]) == p
  {
    assert [p][..0] == [];
    assert Concat([p]) == Concat([]) + p;
  }

  lemma StartStep(ps: seq<Packet>, k: nat)
    requires k < |ps|
    ensures Start(ps, k + 1) == Start(ps, k) + |ps[k]|
  {
  }

  ghost predicate AllWellFormed(ps: seq<Packet>) {
    forall k :: 0 <= k < |ps| ==> WellFormed(ps[k])
  }

  // ---- First-header pointers ----

  /** Number of packets that start before stream offset `at`. */
  function StartsBefore(ps: seq<Packet>, at: nat): (k: nat)
    ensures k <= |ps|
  {
    StartsBeforeFrom(ps, at, |ps|)
  }

  function StartsBeforeFrom(ps: seq<Packet>, at: nat, n: nat): (k: nat)
    requires n <= |ps|
    ensures k <= n
    ensures k > 0 ==> Start(ps, k - 1) < at
    ensures forall j :: k <= j < n ==> Start(ps, j) >= at
  {
    if n > 0 && Start(ps, n - 1) >= at then StartsBeforeFrom(ps, at, n - 1) else n
  }

  lemma StartsBeforeIs(ps: seq<Packet>, at: nat, d: nat)
    requires d <= |ps| && (d > 0 ==> Start(ps, d - 1) < at) && (d < |ps| ==> Start(ps, d) >= at)
    ensures StartsBefore(ps, at) == d
  {
    hide Start;
    var k := StartsBefore(ps, at);
    if k > d { StartMonotone(ps, d, k - 1); }
    if k < d { StartMonotone(ps, k, d - 1); }
  }

  /** The first-header pointer of the data field at stream offset `at`. */
  function Pointer(ps: seq<Packet>, at: nat): (fhp: nat)
    ensures fhp < DATA_SIZE || fhp == FHP_NONE
  {
    var k := StartsBefore(ps, at);
    if k < |ps| && Start(ps, k) < at + DATA_SIZE then Start(ps, k) - at else FHP_NONE
  }

  /** One data field and its pointer. */
  datatype DataField = DataField(fhp: nat, data: seq<Byte>)

  /** The data fields carry the stream of the packets ps and point at the first start in each; what
      does not fill a field is still pending. */
  ghost predicate Packed(fields: seq<DataField>, ps: seq<Packet>) {
    && DATA_SIZE * |fields| <= |Concat(ps)|
    && forall i :: 0 <= i < |fields| ==> FieldAt(fields[i], ps, i)
  }

  ghost predicate FieldAt(f: DataField, ps: seq<Packet>, i: nat) {
    && DATA_SIZE * (i + 1) <= |Concat(ps)|
    && f.data == Concat(ps)[DATA_SIZE * i..DATA_SIZE * (i + 1)]
    && f.fhp == Pointer(ps, DATA_SIZE * i)
  }

  // ---- Survivors ----

  predicate ArrivedAt(mask: seq<bool>, f: nat) {
    f < |mask| && mask[f]
  }

  /** All data fields packet k touches have arrived. */
  ghost predicate Arrived(ps: seq<Packet>, k: nat, mask: seq<bool>)
    requires k < |ps|
  {
    forall f: nat :: DATA_SIZE * f < Start(ps, k + 1) && Start(ps, k) < DATA_SIZE * (f + 1) ==> ArrivedAt(mask, f)
  }

  /** Of the first n packets, those that arrived whole and are not idle, in order. */
  ghost function Survivors(ps: seq<Packet>, mask: seq<bool>, n: nat): seq<Packet>
    requires n <= |ps| && AllWellFormed(ps)
  {
    if n == 0 then []
    else Survivors(ps, mask, n - 1)
         + (if Arrived(ps, n - 1, mask) && !IsIdle(ps[n - 1]) then [ps[n - 1]] else [])
  }

  /** Packets that lost a field add nothing. */
  lemma {:induction false} LostPacketsAddNothing(ps: seq<Packet>, mask: seq<bool>, a: nat, b: nat)
    requires a <= b <= |ps| && AllWellFormed(ps)
    requires forall k :: a <= k < b ==> !Arrived(ps, k, mask)
    ensures Survivors(ps, mask, b) == Survivors(ps, mask, a)
  {
    hide Arrived;
    if a < b { LostPacketsAddNothing(ps, mask, a, b - 1); }
  }

  /** A packet that contains a byte of a missing field did not arrive. */
  lemma MissingFieldLosesPacket(ps: seq<Packet>, mask: seq<bool>, k: nat, f: nat)
    requires k < |ps| && !ArrivedAt(mask, f)
    requires DATA_SIZE * f < Start(ps, k + 1) && Start(ps, k) < DATA_SIZE * (f + 1)
    ensures !Arrived(ps, k, mask)
  {
  }
}
