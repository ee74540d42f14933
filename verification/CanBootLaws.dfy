/** What a session answers and why: every status code with its exact cause, the way out of a download, and
    the two causes of a jump. */
module CanBootLaws {

  import opened Bytes
  import opened Image
  import opened CanBoot

  /** A usable request with this opcode. */
  predicate Asks(request: Frame, opcode: Byte) {
    Addressed(request) && 1 <= request.dlc <= MAX_DLC && request.data[0] == opcode
  }

  /** The status of a response. */
  function StatusOf(r: Frame): Byte {
    r.data[1]
  }

  lemma ResponseReads(opcode: Byte, status: Status, extra: seq<Byte>)
    requires |extra| <= 4
    ensures var r := Respond(opcode, status, extra);
            r.dlc == 2 + |extra| && StatusOf(r) == Code(status) && r.data[2..2 + |extra|] == extra
  {
  }

  // ---- Leaving a download ----

  /** ABORT is always answered positively. It ends a reception, and changes nothing else whatsoever. */
  lemma AbortOnlyEndsReception(t: Target, request: Frame)
    requires Safe(t) && Asks(request, 6)
    ensures var h := Handle(t, request);
            && StatusOf(h.response) == 0
            && h.target == if t.state == Receiving then t.(state := Idle) else t
  {
    hide Safe, Respond;
    ResponseReads(6, Ok, []);
  }

  /** START is refused during a reception, with a length other than 5, and with a size the region cannot hold or
      that leaves no payload, tested in this order; otherwise a reception begins with nothing received and sequence
      number 0, the image is no longer valid, and the region is as it was. */
  lemma StartAnswers(t: Target, request: Frame)
    requires Safe(t) && Asks(request, 2)
    ensures var h, size := Handle(t, request), Get32(request.data, 1);
            && (StatusOf(h.response) == 1 <==> t.state == Receiving)
            && (StatusOf(h.response) == 6 <==> t.state != Receiving && request.dlc != 5)
            && (StatusOf(h.response) == 3 <==>
                  t.state != Receiving && request.dlc == 5 && !(32 < size <= |t.region|))
            && (StatusOf(h.response) == 0 <==> t.state != Receiving && request.dlc == 5 && 32 < size <= |t.region|)
            && (StatusOf(h.response) == 0 ==>
                  h.target == t.(state := Receiving, imageValid := false, imageSize := size, received := 0,
                                 nextSeq := 0, haveLastSeq := false))
            && (StatusOf(h.response) != 0 ==> h.target == t)
  {
    hide Bootable, Respond, Get32;
    ResponseReads(2, HandleStart(t, request).1, []);
  }

  /** After ABORT a download can start again, whatever the session was doing. */
  lemma {:induction false} StartAfterAbort(t: Target, abort: Frame, start: Frame)
    requires Safe(t) && Asks(abort, 6) && Asks(start, 2) && start.dlc == 5
    requires 32 < Get32(start.data, 1) <= |t.region|
    ensures var u := Handle(t, abort).target;
            && Safe(u) && u.state != Receiving && u.region == t.region && u.imageValid == t.imageValid
            && var h := Handle(u, start);
               && StatusOf(h.response) == 0 && h.target.state == Receiving && h.target.received == 0
               && h.target.nextSeq == 0 && h.target.imageSize == Get32(start.data, 1) && h.target.region == t.region
  {
    hide Safe, Handle, Get32;
    AbortOnlyEndsReception(t, abort);
    HandleKeepsSafe(t, abort);
    StartAnswers(Handle(t, abort).target, start);
  }

  // ---- Chunks and the end ----

  /** The chunk before is being repeated. */
  predicate IsRepeat(t: Target, request: Frame) {
    t.haveLastSeq && t.nextSeq == (request.data[1] + 1 as int) % 256
  }

  /** The chunk that is expected, and it fits the announced size. */
  predicate IsNext(t: Target, request: Frame) {
    !IsRepeat(t, request) && request.data[1] == t.nextSeq && t.received + request.dlc - 2 <= t.imageSize
  }

  /** DATA is answered with its sequence number. It is positive exactly during a reception for at least one byte of
      either the chunk just stored, which then changes nothing, or the expected one, which is stored whole. */
  lemma DataAnswers(t: Target, request: Frame)
    requires Safe(t) && Asks(request, 3)
    ensures var h, n := Handle(t, request), request.dlc - 2;
            && h.response.dlc == 3 && h.response.data[2] == request.data[1]
            && (StatusOf(h.response) == 0 <==>
                  t.state == Receiving && n >= 1 && (IsRepeat(t, request) || IsNext(t, request)))
            && (StatusOf(h.response) == 1 <==> t.state != Receiving)
            && (StatusOf(h.response) == 2 <==>
                  t.state == Receiving && n >= 1 && !IsRepeat(t, request) && request.data[1] != t.nextSeq)
            && (h.target != t ==> t.state == Receiving && n >= 1 && IsNext(t, request))
            && (t.state == Receiving && n >= 1 && IsNext(t, request) ==>
                  && h.target.received == t.received + n <= |t.region| && h.target.state == Receiving
                  && h.target.nextSeq == (t.nextSeq + 1 as int) % 256 && h.target.haveLastSeq
                  && h.target.region[t.received..h.target.received] == request.data[2..request.dlc]
                  && h.target.region[..t.received] == t.region[..t.received]
                  && h.target.region[h.target.received..] == t.region[h.target.received..])
  {
    hide Bootable, Respond, Written;
    var (u, status) := HandleData(t, request);
    ResponseReads(3, status, [request.data[1]]);
    assert Respond(3, status, [request.data[1]]).data[2] == Respond(3, status, [request.data[1]]).data[2..3][0];
    if t.state == Receiving && request.dlc >= 3 && IsNext(t, request) {
      WrittenReads(t.region, t.received, request.data[2..request.dlc]);
    }
  }

  lemma WrittenReads(region: seq<Byte>, at: nat, bytes: seq<Byte>)
    requires at + |bytes| <= |region|
    ensures var w := Written(region, at, bytes);
            && w[..at] == region[..at] && w[at..at + |bytes|] == bytes && w[at + |bytes|..] == region[at + |bytes|..]
  {
  }

  /** Everything END asks for: a complete reception, whose checksum is the one sent, of an image for this region. */
  predicate Finishes(t: Target, request: Frame)
    requires Safe(t)
  {
    && t.state == Receiving && request.dlc == 5 && t.received == t.imageSize
    && Checksum(t.region[..t.imageSize]) == Get32(request.data, 1)
    && Verify(t.region[..t.imageSize], t.base, |t.region|) == Passed
  }

  /** END is positive exactly when everything is right, and then the image is valid with the entry of its header. A
      wrong checksum or image ends the reception, any other refusal changes nothing. The response carries the
      checksum computed, or 0. */
  lemma EndAnswers(t: Target, request: Frame)
    requires Safe(t) && Asks(request, 4)
    ensures var h := Handle(t, request);
            var whole := t.state == Receiving && request.dlc == 5 && t.received == t.imageSize;
            && h.response.dlc == 6 && h.target.region == t.region
            && (StatusOf(h.response) == 0 <==> Finishes(t, request))
            && (StatusOf(h.response) == 1 <==> t.state != Receiving)
            && (StatusOf(h.response) == 6 <==> t.state == Receiving && !whole)
            && (StatusOf(h.response) == 4 <==> whole && Checksum(t.region[..t.imageSize]) != Get32(request.data, 1))
            && (Finishes(t, request) ==> h.target.state == Complete && h.target.imageValid && Bootable(h.target))
            && (whole && !Finishes(t, request) ==> h.target.state == Idle && !h.target.imageValid)
            && (!whole ==> h.target == t)
            && Get32(h.response.data, 2) == if whole then Checksum(t.region[..t.imageSize]) else 0
  {
    hide Verify, ReadHeader, Bootable, Checksum, Respond, Get32, Put32, HandleEnd;
    EndHandled(t, request);
    var (u, status, crc) := HandleEnd(t, request);
    ResponseReads(4, status, Put32(crc));
    GetPut32(crc, Respond(4, status, Put32(crc)).data, 2);
  }

  lemma EndHandled(t: Target, request: Frame)
    requires Safe(t)
    ensures var (u, status, crc) := HandleEnd(t, request);
            var whole := t.state == Receiving && request.dlc == 5 && t.received == t.imageSize;
            && u.region == t.region
            && (status == Ok <==> Finishes(t, request))
            && (status == BadState <==> t.state != Receiving)
            && (status == BadLength <==> t.state == Receiving && !whole)
            && (status == Crc <==> whole && Checksum(t.region[..t.imageSize]) != Get32(request.data, 1))
            && status in {Ok, BadState, BadLength, Crc, BadImage}
            && (Finishes(t, request) ==> u.state == Complete && u.imageValid && Bootable(u))
            && (whole && !Finishes(t, request) ==> u.state == Idle && !u.imageValid)
            && (!whole ==> u == t)
            && crc == if whole then Checksum(t.region[..t.imageSize]) else 0
  {
    hide Verify, ReadHeader, Bootable, Checksum, Get32;
    if t.state == Receiving && t.received == t.imageSize {
      CheckRegionIsBootable(t, t.received);
      ChangingStateKeepsBootable(CheckRegion(t, t.received), Complete);
    }
  }

  // ---- The remaining requests ----

  /** BOOT is positive exactly with a valid image; it sets the request and changes nothing else. */
  lemma BootAnswers(t: Target, request: Frame)
    requires Safe(t) && Asks(request, 5)
    ensures var h := Handle(t, request);
            && StatusOf(h.response) == (if t.imageValid then 0 else 5)
            && h.target == if t.imageValid then t.(bootRequested := true) else t
  {
    hide Bootable, Respond;
    ResponseReads(5, Ok, []);
    ResponseReads(5, BadImage, []);
  }

  /** PING reports version, validity and state, and only reads. */
  lemma PingAnswers(t: Target, request: Frame)
    requires Safe(t) && Asks(request, 1)
    ensures var h := Handle(t, request);
            && h.target == t && h.response.dlc == 6 && StatusOf(h.response) == 0
            && h.response.data[2] == t.major && h.response.data[3] == t.minor
            && h.response.data[4] == (if t.imageValid then 1 else 0)
            && h.response.data[5] == match t.state { case Idle => 0 case Receiving => 1 case Complete => 2 }
  {
    hide Safe, Respond;
    var extra: seq<Byte> := [t.major, t.minor, if t.imageValid then 1 else 0, Number(t.state)];
    ResponseReads(1, Ok, extra);
    var r := Respond(1, Ok, extra);
    assert forall i :: 0 <= i < 4 ==> r.data[2 + i] == r.data[2..6][i];
    assert r.data[2 + 0] == t.major && r.data[2 + 3] == Number(t.state);
  }

  /** Any other opcode is answered as unknown, and changes nothing. */
  lemma UnknownAnswers(t: Target, request: Frame)
    requires Safe(t) && Addressed(request) && 1 <= request.dlc <= MAX_DLC && !(1 <= request.data[0] <= 6)
    ensures Handle(t, request).target == t && StatusOf(Handle(t, request).response) == 7
  {
    hide Safe, Respond;
    ResponseReads(request.data[0], Unknown, []);
  }

  // ---- Why the loop jumps ----

  /** A BOOT request is among the inputs. */
  predicate BootAsked(inputs: seq<Input>) {
    exists i :: 0 <= i < |inputs| && inputs[i].Arrived? && Asks(inputs[i].frame, 5)
  }

  /** Polls that brought nothing. */
  function Quiet(inputs: seq<Input>): nat {
    if inputs == [] then 0 else Quiet(inputs[..|inputs| - 1]) + BitWeight(inputs[|inputs| - 1].Nothing?, 1)
  }

  lemma OnlyBootRequests(t: Target, request: Frame)
    requires Safe(t) && Addressed(request) && !t.bootRequested
    ensures Handle(t, request).target.bootRequested ==> Asks(request, 5)
  {
    hide Safe, Respond, Verify, ReadHeader, Checksum, Written, Get32;
  }

  /** A jump from reset has one of two causes: a BOOT request, or an image that may start by itself and a hundred
      thousand polls without any frame. */
  lemma {:induction false} JumpHasCause(
    region: seq<Byte>, base: Word32, major: Byte, minor: Byte, stay: bool, inputs: seq<Input>)
    requires RegionSize(|region|) && Jumps(After(Reset(region, base, major, minor, stay), inputs))
    ensures BootAsked(inputs)
         || (!stay && Verify(region, base, |region|) == Passed && Quiet(inputs) >= 100000)
  {
    hide Safe, Handle, After, Verify, ReadHeader, Asks, Reset;
    CausesSoFar(region, base, major, minor, stay, inputs);
    InitIsSafe(region, base, major, minor);
  }

  /** What the loop knows follows from its inputs. */
  ghost predicate Explained(t: Target, stay: bool, l: Loop, inputs: seq<Input>) {
    && (l.session.bootRequested ==> BootAsked(inputs)) && l.stay == stay && l.idlePolls <= Quiet(inputs)
    && (!l.talked ==> l.session == t)
  }

  lemma {:induction false} CausesSoFar(
    region: seq<Byte>, base: Word32, major: Byte, minor: Byte, stay: bool, inputs: seq<Input>)
    requires RegionSize(|region|)
    ensures Explained(Init(region, base, major, minor), stay, After(Reset(region, base, major, minor, stay), inputs),
                      inputs)
  {
    hide Safe, Handle, Verify, ReadHeader, Asks;
    if inputs != [] {
      var front := inputs[..|inputs| - 1];
      CausesSoFar(region, base, major, minor, stay, front);
      var l := After(Reset(region, base, major, minor, stay), front);
      AskedBefore(inputs);
      if !Jumps(l) { PollExplained(Init(region, base, major, minor), stay, l, inputs); }
    }
  }

  lemma AskedBefore(inputs: seq<Input>)
    requires inputs != []
    ensures BootAsked(inputs[..|inputs| - 1]) ==> BootAsked(inputs)
  {
    hide Asks;
    var front := inputs[..|inputs| - 1];
    if BootAsked(front) {
      var i :| 0 <= i < |front| && front[i].Arrived? && Asks(front[i].frame, 5);
      assert inputs[i] == front[i];
    }
  }

  lemma PollExplained(t: Target, stay: bool, l: Loop, inputs: seq<Input>)
    requires inputs != [] && LoopSafe(l) && !Jumps(l) && Explained(t, stay, l, inputs[..|inputs| - 1])
    ensures Explained(t, stay, Poll(l, inputs[|inputs| - 1]), inputs)
  {
    hide Safe, Handle, Asks;
    var input := inputs[|inputs| - 1];
    if input.Arrived? && Addressed(input.frame) { OnlyBootRequests(l.session, input.frame); }
  }

  /** Once a request has arrived the loop no longer starts an image by itself. */
  lemma {:induction false} TalkedNeedsBoot(
    region: seq<Byte>, base: Word32, major: Byte, minor: Byte, stay: bool, inputs: seq<Input>, k: nat)
    requires RegionSize(|region|) && k < |inputs| && inputs[k].Arrived? && Addressed(inputs[k].frame)
    requires !Jumps(After(Reset(region, base, major, minor, stay), inputs[..k]))
    requires Jumps(After(Reset(region, base, major, minor, stay), inputs))
    ensures BootAsked(inputs)
  {
    hide Safe, Handle, After, Verify, ReadHeader, Asks, Reset;
    CausesSoFar(region, base, major, minor, stay, inputs);
    TalkedStays(Reset(region, base, major, minor, stay), inputs, k);
  }

  lemma {:induction false} TalkedStays(l: Loop, inputs: seq<Input>, k: nat)
    requires LoopSafe(l) && k < |inputs| && inputs[k].Arrived? && Addressed(inputs[k].frame)
    requires !Jumps(After(l, inputs[..k]))
    ensures After(l, inputs).talked
    decreases |inputs|
  {
    hide Safe, Handle, Jumps;
    var front := inputs[..|inputs| - 1];
    assert front[..k] == inputs[..k];
    if k == |front| {
      assert inputs[..k] == front;
    } else {
      TalkedStays(l, front, k);
    }
  }

  function Silent(n: nat): (inputs: seq<Input>)
    ensures |inputs| == n
  {
    if n == 0 then [] else Silent(n - 1) + [Nothing]
  }

  /** Silence after reset: the loop jumps at the hundred thousandth poll if the image verifies and nobody has asked
      it to stay, and never otherwise. */
  lemma {:induction false} SilenceBootsIff(
    region: seq<Byte>, base: Word32, major: Byte, minor: Byte, stay: bool, n: nat)
    requires RegionSize(|region|)
    ensures Jumps(After(Reset(region, base, major, minor, stay), Silent(n))) <==>
            !stay && Verify(region, base, |region|) == Passed && n >= 100000
  {
    hide Safe, Handle, After, Verify, ReadHeader, Reset, Init;
    InitIsSafe(region, base, major, minor);
    ResetWaits(region, base, major, minor, stay);
    SilentPolls(Reset(region, base, major, minor, stay), n);
  }

  lemma {:induction false} SilentPolls(l: Loop, n: nat)
    requires LoopSafe(l) && !l.session.bootRequested && !l.talked && l.idlePolls == 0
    ensures After(l, Silent(n)) ==
            l.(idlePolls := if !l.stay && l.session.imageValid then (if n < 100000 then n else 100000)
                            else n % 0x1_0000_0000)
  {
    hide Safe, Handle, After, Silent, Poll;
    if n == 0 {
      NoInputs(l);
    } else {
      SilentPolls(l, n - 1);
      OneMorePoll(l, n - 1);
      NextCount(n - 1);
    }
  }

  lemma NoInputs(l: Loop)
    requires LoopSafe(l)
    ensures After(l, Silent(0)) == l
  {
    assert Silent(0) == [];
  }

  lemma OneMorePoll(l: Loop, n: nat)
    requires LoopSafe(l)
    ensures var before := After(l, Silent(n));
            After(l, Silent(n + 1)) ==
            if Jumps(before) then before else before.(idlePolls := (before.idlePolls + 1) % 0x1_0000_0000)
  {
    hide Safe, Handle, Jumps, After, Poll;
    var inputs := Silent(n + 1);
    assert inputs[..n] == Silent(n) && inputs[n] == Nothing;
    OneMoreInput(l, inputs);
    NothingPolled(After(l, Silent(n)));
  }

  lemma NothingPolled(l: Loop)
    requires Safe(l.session)
    ensures Poll(l, Nothing) == l.(idlePolls := (l.idlePolls + 1) % 0x1_0000_0000)
  {
    hide Safe, Handle;
  }

  lemma OneMoreInput(l: Loop, inputs: seq<Input>)
    requires LoopSafe(l) && inputs != []
    ensures var before := After(l, inputs[..|inputs| - 1]);
            After(l, inputs) == if Jumps(before) then before else Poll(before, inputs[|inputs| - 1])
  {
    hide Safe, Jumps, Poll;
  }

  lemma NextCount(n: nat)
    ensures (n % 0x1_0000_0000 + 1) % 0x1_0000_0000 == (n + 1) % 0x1_0000_0000
  {
  }
}
