/** The download of an image over a lossy first-in first-out bus: what the requests in flight and the
    target's progress have to do with the step the client is on. */
module FlashProtocol {

  import opened Bytes
  import opened Image
  import opened CanBoot

  const CHUNK: nat := 6
  const APP_BASE: Word32 := 0x4000
  const APP_SIZE: Word32 := 0x1C000

  // ---- The requests of one download: START is step 0, then the chunks, then END ----

  function Chunks(image: seq<Byte>): nat {
    (|image| + 5) / CHUNK
  }

  function Length32(image: seq<Byte>): Word32 {
    |image| % 0x1_0000_0000
  }

  /** Bytes announced and sent before step a. */
  function SentBefore(image: seq<Byte>, a: nat): nat
    requires a >= 1
  {
    if CHUNK * (a - 1) < |image| then CHUNK * (a - 1) else |image|
  }

  function ChunkAt(image: seq<Byte>, q: nat): (c: seq<Byte>)
    requires 1 <= q <= Chunks(image)
    ensures 1 <= |c| <= CHUNK
  {
    image[SentBefore(image, q)..SentBefore(image, q + 1)]
  }

  function SeqAt(q: nat): Byte
    requires q >= 1
  {
    (q - 1) % 256
  }

  function Opcode(image: seq<Byte>, q: nat): Byte {
    if q == 0 then START else if q <= Chunks(image) then DATA else END
  }

  function Body(image: seq<Byte>, q: nat): (b: seq<Byte>)
    ensures |b| < MAX_DLC
    ensures Opcode(image, q) == DATA ==> |b| > 0
  {
    if q == 0 then Put32(Length32(image))
    else if q <= Chunks(image) then [SeqAt(q)] + ChunkAt(image, q)
    else Put32(Checksum(image))
  }

  function Request(image: seq<Byte>, q: nat): Frame {
    EncodeRequest(Opcode(image, q), Body(image, q))
  }

  /** The client's test of a response to opcode; only DATA compares the sequence number. */
  predicate Match(opcode: Byte, seqNo: Byte, r: Frame) {
    r.id == ID_RESPONSE && r.dlc >= 2 && r.data[0] == Flagged(opcode) &&
    (opcode == DATA ==> r.dlc >= 3 && r.data[2] == seqNo)
  }

  predicate Answers(image: seq<Byte>, q: nat, r: Frame) {
    Match(Opcode(image, q), if Opcode(image, q) == DATA then Body(image, q)[0] else 0, r)
  }

  predicate Positive(r: Frame) {
    r.data[1] == Code(Ok)
  }

  /** Neighbouring steps have different answers, although sequence numbers repeat after 256 steps. */
  lemma AnswersDiffer(image: seq<Byte>, q: nat, d: nat, r: Frame)
    requires 1 <= d <= 2 && q + d <= Chunks(image) + 1 && Chunks(image) >= 2
    ensures !(Answers(image, q, r) && Answers(image, q + d, r))
  {
    hide SeqAt, Body, EncodeRequest;
    SeqOfBody(image, q);
    SeqOfBody(image, q + d);
    if q >= 1 { SeqsDiffer(q, d); }
  }

  lemma SeqOfBody(image: seq<Byte>, q: nat)
    ensures Opcode(image, q) == DATA ==> q >= 1 && Body(image, q)[0] == SeqAt(q)
  {
  }

  lemma SeqsDiffer(q: nat, d: nat)
    requires q >= 1 && 1 <= d <= 2
    ensures SeqAt(q) != SeqAt(q + d)
  {
  }

  // ---- Progress of the target ----

  /** The target after accepting the first a requests of a download that found it as t0. */
  predicate TargetAt(image: seq<Byte>, t0: Target, t: Target, a: nat) {
    |t.region| == |t0.region| && t.base == t0.base &&
    if a == 0 then t == t0
    else if a <= Chunks(image) + 1 then
      t.state == Receiving && t.imageSize == Length32(image) && t.received == SentBefore(image, a) &&
      t.received <= |t.region| && t.region[..t.received] == image[..t.received] &&
      t.nextSeq == SeqAt(a) && (t.haveLastSeq <==> a >= 2)
    else
      t.state == Complete && t.imageValid && |image| <= |t.region| && t.region[..|image|] == image
  }

  /** The image passes the check for the region the target serves. */
  predicate Flashable(image: seq<Byte>, t0: Target) {
    Verify(image, t0.base, |t0.region|) == Passed
  }

  lemma FlashableIsLong(image: seq<Byte>, t0: Target)
    requires Flashable(image, t0)
    ensures |image| > HEADER_SIZE && Chunks(image) >= 6
  {
    hide ReadHeader, Checksum;
  }

  /** The target can take the image: it fits, and no other download is under way. */
  predicate Willing(image: seq<Byte>, t0: Target) {
    |image| <= |t0.region| && t0.state != Receiving
  }

  /** START and END are not repeatable: the target answers the second one with BAD_STATE. */
  predicate RepeatRefused(image: seq<Byte>, q: nat, r: Frame) {
    (q == 0 || q == Chunks(image) + 1) && r.data[1] == Code(BadState)
  }

  /** From progress a, request q takes the target from t to u with answer r. */
  predicate Step(image: seq<Byte>, t0: Target, t: Target, u: Target, r: Frame, q: nat, a: nat) {
    Answers(image, q, r) &&
    (u == t || (q == a && TargetAt(image, t0, u, a + 1))) &&
    (q == a && Positive(r) ==> TargetAt(image, t0, u, a + 1)) &&
    (q == a && Willing(image, t0) ==> Positive(r)) &&
    (q < a ==> Positive(r) || RepeatRefused(image, q, r))
  }

  lemma Number32(v: Word32, opcode: Byte)
    ensures var f := EncodeRequest(opcode, Put32(v));
            f.id == ID_REQUEST && f.dlc == 5 && f.data[0] == opcode && Get32(f.data, 1) == v
  {
    hide Get32, Put32;
    var f := EncodeRequest(opcode, Put32(v));
    assert f.data[1..5] == Put32(v);
    GetPut32(v, f.data, 1);
  }

  lemma StartStep(image: seq<Byte>, t0: Target, t: Target, a: nat)
    requires Safe(t) && a <= 1 && TargetAt(image, t0, t, a) && Flashable(image, t0)
    ensures var h := Handle(t, Request(image, 0));
            Step(image, t0, t, h.target, h.response, 0, a)
  {
    hide Get32, Put32, Verify, Bootable;
    FlashableIsLong(image, t0);
    Number32(Length32(image), START);
    assert t.region[..0] == image[..0];
  }

  lemma ChunkFrame(image: seq<Byte>, q: nat)
    requires 1 <= q <= Chunks(image)
    ensures var f := Request(image, q);
            f.id == ID_REQUEST && f.dlc == |ChunkAt(image, q)| + 2 && f.data[0] == DATA && f.data[1] == SeqAt(q) &&
            f.data[2..f.dlc] == ChunkAt(image, q) &&
            |ChunkAt(image, q)| == SentBefore(image, q + 1) - SentBefore(image, q)
  {
  }

  /** The chunk placed behind the bytes already there. */
  lemma PrefixGrows(image: seq<Byte>, region: seq<Byte>, q: nat)
    requires 1 <= q <= Chunks(image)
    requires SentBefore(image, q + 1) <= |region|
    requires region[..SentBefore(image, q)] == image[..SentBefore(image, q)]
    ensures var n := SentBefore(image, q + 1);
            Written(region, SentBefore(image, q), ChunkAt(image, q))[..n] == image[..n]
  {
  }

  lemma NextSeqAt(q: nat)
    requires q >= 1
    ensures NextSeq(SeqAt(q)) == SeqAt(q + 1)
    ensures SeqAt(q + 1) != SeqAt(q)
  {
  }

  lemma DataStep(image: seq<Byte>, t0: Target, t: Target, q: nat, a: nat)
    requires Safe(t) && 1 <= q <= Chunks(image) && q <= a <= q + 1 && TargetAt(image, t0, t, a)
    requires Flashable(image, t0)
    ensures var h := Handle(t, Request(image, q));
            Step(image, t0, t, h.target, h.response, q, a)
  {
    hide Verify, Bootable, ChunkAt, Written, SeqAt, NextSeq, EncodeRequest;
    ChunkFrame(image, q);
    NextSeqAt(q);
    if a == q {
      if SentBefore(image, q + 1) <= |t.region| { PrefixGrows(image, t.region, q); }
    }
  }

  /** Once every chunk is in place, END finds the checksum of the image and an image that verifies. */
  lemma EndStep(image: seq<Byte>, t0: Target, t: Target, a: nat)
    requires var q := Chunks(image) + 1; Safe(t) && q <= a <= q + 1 && TargetAt(image, t0, t, a)
    requires Flashable(image, t0)
    ensures var h := Handle(t, Request(image, Chunks(image) + 1));
            Step(image, t0, t, h.target, h.response, Chunks(image) + 1, a)
  {
    hide Get32, Put32, Verify, Bootable, Checksum, ReadHeader;
    FlashableIsLong(image, t0);
    Number32(Checksum(image), END);
    if a == Chunks(image) + 1 {
      assert SentBefore(image, a) == |image|;
      assert image[..|image|] == image;
    }
  }

  /** The target on a request of its own step or the one before. */
  lemma {:induction false} TargetStep(image: seq<Byte>, t0: Target, t: Target, q: nat, a: nat)
    requires Safe(t) && q <= Chunks(image) + 1 && q <= a <= q + 1 && TargetAt(image, t0, t, a) && Flashable(image, t0)
    ensures Addressed(Request(image, q))
    ensures var h := Handle(t, Request(image, q));
            Safe(h.target) && Step(image, t0, t, h.target, h.response, q, a)
  {
    hide Handle, Step, TargetAt, Safe, Flashable, Body;
    HandleKeepsSafe(t, Request(image, q));
    if q == 0 {
      StartStep(image, t0, t, a);
    } else if q <= Chunks(image) {
      DataStep(image, t0, t, q, a);
    } else {
      EndStep(image, t0, t, a);
    }
  }

  /** A repeat of a request already accepted changes nothing, and is answered with OK exactly when the
      request was a chunk: a lost answer to START or END makes the download fail. */
  lemma {:induction false} RepeatIsOkOnlyForChunks(image: seq<Byte>, t0: Target, t: Target, q: nat)
    requires Safe(t) && q <= Chunks(image) + 1 && TargetAt(image, t0, t, q + 1) && Flashable(image, t0)
    ensures Addressed(Request(image, q))
    ensures var h := Handle(t, Request(image, q));
            h.target == t && (Positive(h.response) <==> 1 <= q <= Chunks(image)) &&
            (!Positive(h.response) ==> h.response.data[1] == Code(BadState))
  {
    hide Flashable, Bootable, ChunkAt, SeqAt, NextSeq, EncodeRequest, Get32, Put32, Checksum;
    FlashableIsLong(image, t0);
    Number32(Length32(image), START);
    Number32(Checksum(image), END);
    if 1 <= q <= Chunks(image) {
      ChunkFrame(image, q);
      NextSeqAt(q);
    }
  }

  // ---- The bus ----

  datatype Link = Link(target: Target, toTarget: seq<Frame>, toClient: seq<Frame>)

  /** The target handles the oldest request, or a frame is lost. */
  datatype Event = Deliver | LoseRequest(i: nat) | LoseResponse(i: nat)

  function Without<T>(s: seq<T>, i: nat): seq<T> {
    if i < |s| then s[..i] + s[i + 1..] else s
  }

  function Happen(l: Link, e: Event): Link
    requires Safe(l.target)
  {
    match e
    case Deliver =>
      if l.toTarget == [] then l
      else if !Addressed(l.toTarget[0]) then l.(toTarget := l.toTarget[1..])
      else
        var h := Handle(l.target, l.toTarget[0]);
        Link(h.target, l.toTarget[1..], l.toClient + [h.response])
    case LoseRequest(i) => l.(toTarget := Without(l.toTarget, i))
    case LoseResponse(i) => l.(toClient := Without(l.toClient, i))
  }

  lemma HappenKeepsSafe(l: Link, e: Event)
    requires Safe(l.target)
    ensures Safe(Happen(l, e).target)
  {
    hide Safe, Handle;
    if e.Deliver? && l.toTarget != [] && Addressed(l.toTarget[0]) { HandleKeepsSafe(l.target, l.toTarget[0]); }
  }

  function Evolve(l: Link, events: seq<Event>): (r: Link)
    requires Safe(l.target)
    ensures Safe(r.target)
  {
    hide Safe, Handle;
    if events == [] then l
    else
      var before := Evolve(l, events[..|events| - 1]);
      HappenKeepsSafe(before, events[|events| - 1]);
      Happen(before, events[|events| - 1])
  }

  // ---- The invariant of the download, for a client on step p ----

  /** A download of image to a target found as t0. */
  datatype Transfer = Transfer(image: seq<Byte>, t0: Target)

  /** Requests in flight: repeats of the step before, then those of this step. */
  predicate InOrder(g: Transfer, s: seq<Frame>, p: nat) {
    (forall f :: f in s ==> f == Request(g.image, p) || (p > 0 && f == Request(g.image, p - 1))) &&
    (forall i, j :: 0 <= i < j < |s| && s[i] == Request(g.image, p) ==> s[j] == Request(g.image, p))
  }

  predicate LateFirst(g: Transfer, s: seq<Frame>, p: nat) {
    forall i, j :: 0 <= i < j < |s| && Answers(g.image, p, s[i]) ==> Answers(g.image, p, s[j])
  }

  predicate Pending(g: Transfer, l: Link, p: nat) {
    TargetAt(g.image, g.t0, l.target, p) && InOrder(g, l.toTarget, p)
  }

  predicate Accepted(g: Transfer, l: Link, p: nat) {
    TargetAt(g.image, g.t0, l.target, p + 1) && OnlyThisStep(g, l.toTarget, p)
  }

  predicate OnlyThisStep(g: Transfer, s: seq<Frame>, p: nat) {
    forall f :: f in s ==> f == Request(g.image, p)
  }

  /** An answer to this step, or a late one to the step before. */
  predicate AnswerAt(g: Transfer, l: Link, p: nat, r: Frame) {
    (Answers(g.image, p, r) || (p > 0 && Answers(g.image, p - 1, r))) &&
    (Answers(g.image, p, r) ==> OnlyThisStep(g, l.toTarget, p)) &&
    (Answers(g.image, p, r) && Positive(r) ==> Accepted(g, l, p)) &&
    (Answers(g.image, p, r) && Willing(g.image, g.t0) ==> Positive(r) || RepeatRefused(g.image, p, r))
  }

  predicate Inv(g: Transfer, l: Link, p: nat) {
    Safe(l.target) && p <= Chunks(g.image) + 1 && Flashable(g.image, g.t0) &&
    (Pending(g, l, p) || Accepted(g, l, p)) &&
    (forall r :: r in l.toClient ==> AnswerAt(g, l, p, r)) &&
    LateFirst(g, l.toClient, p)
  }

  lemma RequestOpcode(image: seq<Byte>, q: nat)
    ensures Request(image, q).data[0] == Opcode(image, q)
  {
    hide Body;
  }

  lemma RequestsDiffer(image: seq<Byte>, t0: Target, p: nat)
    requires 1 <= p <= Chunks(image) + 1 && Flashable(image, t0)
    ensures Request(image, p) != Request(image, p - 1)
  {
    hide Flashable, Body, EncodeRequest, SeqAt;
    FlashableIsLong(image, t0);
    RequestOpcode(image, p);
    RequestOpcode(image, p - 1);
    if 2 <= p <= Chunks(image) {
      ChunkFrame(image, p);
      ChunkFrame(image, p - 1);
      SeqsDiffer(p - 1, 1);
    }
  }

  lemma OneAnswer(image: seq<Byte>, t0: Target, p: nat, r: Frame)
    requires 1 <= p <= Chunks(image) + 1 && Flashable(image, t0)
    ensures !(Answers(image, p, r) && Answers(image, p - 1, r))
  {
    hide Answers, Flashable;
    FlashableIsLong(image, t0);
    AnswersDiffer(image, p - 1, 1, r);
  }

  lemma LosingKeepsOrder<T>(s: seq<T>, i: nat)
    ensures var t := Without(s, i);
            (forall f :: f in t ==> f in s) && |t| == (if i < |s| then |s| - 1 else |s|) &&
            forall k :: 0 <= k < |t| ==> t[k] == s[if k < i then k else k + 1]
  {
  }

  lemma LosingKeepsSorted(g: Transfer, s: seq<Frame>, i: nat, p: nat)
    ensures InOrder(g, s, p) ==> InOrder(g, Without(s, i), p)
    ensures LateFirst(g, s, p) ==> LateFirst(g, Without(s, i), p)
  {
    hide Request, Answers, Without;
    var t := Without(s, i);
    LosingKeepsOrder(s, i);
    forall j, k | 0 <= j < k < |t|
      ensures InOrder(g, s, p) && t[j] == Request(g.image, p) ==> t[k] == Request(g.image, p)
      ensures LateFirst(g, s, p) && Answers(g.image, p, t[j]) ==> Answers(g.image, p, t[k])
    {
      var a, b := if j < i then j else j + 1, if k < i then k else k + 1;
      assert a < b && t[j] == s[a] && t[k] == s[b];
    }
  }

  lemma AppendKeepsLateFirst(g: Transfer, s: seq<Frame>, r: Frame, p: nat)
    requires LateFirst(g, s, p) && forall x :: x in s && Answers(g.image, p, x) ==> Answers(g.image, p, r)
    ensures LateFirst(g, s + [r], p)
  {
    hide Answers;
    var t := s + [r];
    forall j, k | 0 <= j < k < |t| && Answers(g.image, p, t[j])
      ensures Answers(g.image, p, t[k])
    {
      assert t[j] in s;
    }
  }

  lemma LosingKeepsInv(g: Transfer, l: Link, e: Event, p: nat)
    requires Inv(g, l, p) && !e.Deliver?
    ensures Inv(g, Happen(l, e), p)
  {
    hide Safe, TargetAt, Answers, Request, Flashable, Positive, Willing, RepeatRefused, Without;
    LosingKeepsOrder(if e.LoseRequest? then l.toTarget else l.toClient, e.i);
    LosingKeepsSorted(g, l.toTarget, e.i, p);
    LosingKeepsSorted(g, l.toClient, e.i, p);
  }

  lemma DeliveringKeepsInv(g: Transfer, l: Link, p: nat)
    requires Inv(g, l, p) && l.toTarget != []
    ensures Inv(g, Happen(l, Deliver), p)
  {
    hide Safe, TargetAt, Answers, Request, Flashable, Positive, Willing, RepeatRefused, Handle, Addressed;
    var f := l.toTarget[0];
    assert f in l.toTarget;
    var q := if f == Request(g.image, p) then p else p - 1;
    if p > 0 { RequestsDiffer(g.image, g.t0, p); }
    var a := if Pending(g, l, p) then p else p + 1;
    TargetStep(g.image, g.t0, l.target, q, a);
    var h := Handle(l.target, f);
    if p > 0 { OneAnswer(g.image, g.t0, p, h.response); }
    var m := Happen(l, Deliver);
    assert forall x :: x in m.toTarget ==> x in l.toTarget;
    assert AnswerAt(g, m, p, h.response);
    AppendKeepsLateFirst(g, l.toClient, h.response, p);
  }

  /** Every event on the bus keeps the invariant. */
  lemma {:induction false} HappenKeepsInv(g: Transfer, l: Link, e: Event, p: nat)
    requires Inv(g, l, p)
    ensures Inv(g, Happen(l, e), p)
  {
    hide Inv;
    if !e.Deliver? {
      LosingKeepsInv(g, l, e, p);
    } else if l.toTarget != [] {
      DeliveringKeepsInv(g, l, p);
    }
  }

  lemma {:induction false} EvolveKeepsInv(g: Transfer, l: Link, events: seq<Event>, p: nat)
    requires Inv(g, l, p)
    ensures Inv(g, Evolve(l, events), p)
  {
    hide Safe, Pending, Accepted, AnswerAt, Happen;
    if events != [] {
      EvolveKeepsInv(g, l, events[..|events| - 1], p);
      HappenKeepsInv(g, Evolve(l, events[..|events| - 1]), events[|events| - 1], p);
    }
  }

  /** Sending the request of this step, once more or for the first time. */
  lemma SendKeepsInv(g: Transfer, l: Link, p: nat)
    requires Inv(g, l, p)
    ensures Inv(g, l.(toTarget := l.toTarget + [Request(g.image, p)]), p)
  {
    hide Safe, TargetAt, Answers, Request, Flashable, Positive, Willing, RepeatRefused;
  }

  /** The client takes the oldest answer; behind an answer to this step there are no late ones. */
  lemma TakeKeepsInv(g: Transfer, l: Link, p: nat)
    requires Inv(g, l, p) && l.toClient != []
    ensures var m := l.(toClient := l.toClient[1..]);
            Inv(g, m, p) && AnswerAt(g, m, p, l.toClient[0]) &&
            (Answers(g.image, p, l.toClient[0]) ==> forall x :: x in m.toClient ==> Answers(g.image, p, x))
  {
    hide Safe, TargetAt, Answers, Request, Flashable, Positive, Willing, RepeatRefused;
    assert l.toClient[0] in l.toClient;
    assert forall x :: x in l.toClient[1..] ==> x in l.toClient;
  }

  /** A positive answer to this step moves the client on: everything still in flight is late. */
  lemma {:induction false} AnswerAdvances(g: Transfer, l: Link, p: nat, r: Frame)
    requires Inv(g, l, p) && AnswerAt(g, l, p, r) && Answers(g.image, p, r) && Positive(r) && p <= Chunks(g.image)
    requires forall x :: x in l.toClient ==> Answers(g.image, p, x)
    ensures Inv(g, l, p + 1)
  {
    hide Safe, TargetAt, Answers, Request, Flashable, Positive, Willing, RepeatRefused;
    RequestsDiffer(g.image, g.t0, p + 1);
    forall x | x in l.toClient
      ensures AnswerAt(g, l, p + 1, x) && !Answers(g.image, p + 1, x)
    {
      OneAnswer(g.image, g.t0, p + 1, x);
    }
    assert OnlyThisStep(g, l.toTarget, p);
    assert forall i :: 0 <= i < |l.toTarget| ==>
                         l.toTarget[i] in l.toTarget && l.toTarget[i] != Request(g.image, p + 1);
    assert (p + 1) - 1 == p;
  }

  /** An empty bus and a safe target are the start of a download. */
  lemma StartsInv(g: Transfer, l: Link)
    requires Safe(l.target) && l.target == g.t0 && l.toTarget == [] && l.toClient == [] && Flashable(g.image, g.t0)
    ensures Inv(g, l, 0)
  {
  }

  /** At every moment the target has accepted the step the client is on or exactly the ones before it,
      and what it has received is a prefix of the image. */
  lemma {:induction false} RegionHoldsPrefix(g: Transfer, l: Link, p: nat)
    requires Inv(g, l, p) && (p > 0 || !TargetAt(g.image, g.t0, l.target, 0))
    ensures exists a :: p <= a <= p + 1 && 1 <= a && TargetAt(g.image, g.t0, l.target, a)
    ensures l.target.state == Receiving || l.target.state == Complete
    ensures var n := if l.target.state == Receiving then l.target.received else |g.image|;
            n <= |l.target.region| && n <= |g.image| && l.target.region[..n] == g.image[..n]
  {
    hide Safe, Flashable, Answers, Request;
    var a := if TargetAt(g.image, g.t0, l.target, p) && p > 0 then p else p + 1;
    assert TargetAt(g.image, g.t0, l.target, a);
    assert g.image[..|g.image|] == g.image;
  }

  // ---- The client's test against the target's answers ----

  /** Whatever the target answers to a request of the client passes the client's test. */
  lemma OwnAnswerMatches(t: Target, opcode: Byte, payload: seq<Byte>)
    requires Safe(t) && |payload| < MAX_DLC && (opcode == DATA ==> |payload| > 0)
    ensures Match(opcode, if opcode == DATA then payload[0] else 0, Handle(t, EncodeRequest(opcode, payload)).response)
  {
    hide Safe, HandleStart, HandleData, HandleEnd, Put32;
    var request := EncodeRequest(opcode, payload);
    assert request.data[0] == opcode && (|payload| > 0 ==> request.data[1] == payload[0]);
  }

  /** A frame that passes is a response that names the opcode, and for a chunk its sequence number. */
  lemma MatchMeans(opcode: Byte, seqNo: Byte, r: Frame)
    requires opcode < 0x80
    ensures Match(opcode, seqNo, r) <==>
            r.id == 0x7E8 && r.data[0] == opcode + 0x80 &&
            if opcode == 3 then r.dlc >= 3 && r.data[2] == seqNo else r.dlc >= 2
  {
  }
}
