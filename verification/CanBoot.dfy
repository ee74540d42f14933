/** The target side of the CAN bootloader: the session as a state machine over frames, and the
    safety of the jump it allows. */
module CanBoot {

  import opened Bytes
  import opened Image

  const ID_REQUEST: nat := 0x7E0
  const ID_RESPONSE: nat := 0x7E8
  const MAX_DLC: nat := 8
  const RESPONSE_FLAG: nat := 0x80

  const PING: Byte := 1
  const START: Byte := 2
  const DATA: Byte := 3
  const END: Byte := 4
  const BOOT: Byte := 5
  const ABORT: Byte := 6

  datatype Status = Ok | BadState | BadSeq | TooLarge | Crc | BadImage | BadLength | Unknown

  function Code(s: Status): Byte {
    match s
    case Ok => 0
    case BadState => 1
    case BadSeq => 2
    case TooLarge => 3
    case Crc => 4
    case BadImage => 5
    case BadLength => 6
    case Unknown => 7
  }

  /** The payload buffer of a frame has eight bytes, of which dlc are valid. */
  type Payload = d: seq<Byte> | |d| == MAX_DLC witness seq(MAX_DLC, _ => 0)

  datatype Frame = Frame(id: Word16, dlc: Byte, data: Payload)

  function Zeros(n: nat): (z: seq<Byte>)
    ensures |z| == n
  {
    seq(n, _ => 0)
  }

  function Flagged(opcode: Byte): Byte {
    if opcode < RESPONSE_FLAG then opcode + RESPONSE_FLAG else opcode
  }

  function Respond(opcode: Byte, status: Status, extra: seq<Byte>): Frame
    requires |extra| <= 4
  {
    Frame(ID_RESPONSE, 2 + |extra|, [Flagged(opcode), Code(status)] + extra + Zeros(6 - |extra|))
  }

  function EncodeRequest(opcode: Byte, payload: seq<Byte>): Frame
    requires |payload| < MAX_DLC
  {
    Frame(ID_REQUEST, |payload| + 1, [opcode] + payload + Zeros(7 - |payload|))
  }

  // ---- The session ----

  datatype State = Idle | Receiving | Complete

  function Number(s: State): Byte {
    match s
    case Idle => 0
    case Receiving => 1
    case Complete => 2
  }

  /** The session struct with the bytes of its region. */
  datatype TargetRecord = Target(
    region: seq<Byte>, base: Word32, major: Byte, minor: Byte, state: State, imageSize: Word32, received: Word32,
    nextSeq: Byte, haveLastSeq: bool, imageValid: bool, bootRequested: bool, entry: Word32)

  /** A region that can hold more than a header, and whose offsets plus one frame stay within 32 bits. */
  predicate RegionSize(n: int) {
    HEADER_SIZE < n <= 0xFFFF_FFF9
  }

  type Target = t: TargetRecord | RegionSize(|t.region|) witness
    Target(seq(HEADER_SIZE + 1, _ => 0), 0, 0, 0, Idle, 0, 0, 0, false, false, false, 0)

  function CheckRegion(t: Target, len: nat): Target
    requires len <= |t.region|
  {
    var valid := Verify(t.region[..len], t.base, |t.region|) == Passed;
    assert valid ==> HEADER_SIZE <= len;
    t.(imageValid := valid, entry := if valid then ReadHeader(t.region[..len]).entry else 0)
  }

  function Init(region: seq<Byte>, base: Word32, major: Byte, minor: Byte): Target
    requires RegionSize(|region|)
  {
    CheckRegion(Target(region, base, major, minor, Idle, 0, 0, 0, false, false, false, 0), |region|)
  }

  function HandleStart(t: Target, request: Frame): (Target, Status) {
    if t.state == Receiving then (t, BadState)
    else if request.dlc != 5 then (t, BadLength)
    else
      var size := Get32(request.data, 1);
      if size <= HEADER_SIZE || size > |t.region| then (t, TooLarge)
      else
        (t.(imageValid := false, state := Receiving, imageSize := size, received := 0, nextSeq := 0,
            haveLastSeq := false),
         Ok)
  }

  /** The region with bytes placed at an offset. */
  function Written(region: seq<Byte>, at: nat, bytes: seq<Byte>): (r: seq<Byte>)
    requires at + |bytes| <= |region|
    ensures |r| == |region|
  {
    region[..at] + bytes + region[at + |bytes|..]
  }

  function NextSeq(s: Byte): Byte {
    (s as int + 1) % 256
  }

  predicate Repeated(t: Target, seqNo: Byte) {
    t.haveLastSeq && NextSeq(seqNo) == t.nextSeq
  }

  function HandleData(t: Target, request: Frame): (Target, Status)
    requires Safe(t) && request.dlc <= MAX_DLC
  {
    if t.state != Receiving then (t, BadState)
    else if request.dlc < 3 then (t, BadLength)
    else
      var seqNo := request.data[1];
      if Repeated(t, seqNo) then (t, Ok)
      else if seqNo != t.nextSeq then (t, BadSeq)
      else
        var len := request.dlc - 2;
        if t.received + len > t.imageSize then (t, BadLength)
        else
          (t.(region := Written(t.region, t.received, request.data[2..2 + len]), received := t.received + len,
              nextSeq := NextSeq(seqNo), haveLastSeq := true),
           Ok)
  }

  /** The new session, the status, and the checksum the target computed. */
  function HandleEnd(t: Target, request: Frame): (Target, Status, Word32)
    requires Safe(t)
  {
    if t.state != Receiving then (t, BadState, 0)
    else if request.dlc != 5 then (t, BadLength, 0)
    else if t.received != t.imageSize then (t, BadLength, 0)
    else
      var crc := Checksum(t.region[..t.received]);
      if crc != Get32(request.data, 1) then (t.(state := Idle), Crc, crc)
      else
        var checked := CheckRegion(t, t.received);
        if !checked.imageValid then (checked.(state := Idle), BadImage, crc)
        else (checked.(state := Complete), Ok, crc)
  }

  datatype Handled = Handled(target: Target, response: Frame)

  /** What a request with a legal length does. */
  function HandleOpcode(t: Target, request: Frame): Handled
    requires Safe(t) && 1 <= request.dlc <= MAX_DLC
  {
    var opcode := request.data[0];
    if opcode == PING then
      Handled(t, Respond(opcode, Ok, [t.major, t.minor, if t.imageValid then 1 else 0, Number(t.state)]))
    else if opcode == START then
      var (u, status) := HandleStart(t, request);
      Handled(u, Respond(opcode, status, []))
    else if opcode == DATA then
      var (u, status) := HandleData(t, request);
      Handled(u, Respond(opcode, status, [request.data[1]]))
    else if opcode == END then
      var (u, status, crc) := HandleEnd(t, request);
      Handled(u, Respond(opcode, status, Put32(crc)))
    else if opcode == BOOT then
      if t.imageValid && t.state != Receiving then Handled(t.(bootRequested := true), Respond(opcode, Ok, []))
      else Handled(t, Respond(opcode, BadImage, []))
    else if opcode == ABORT then
      Handled(if t.state == Receiving then t.(state := Idle) else t, Respond(opcode, Ok, []))
    else Handled(t, Respond(opcode, Unknown, []))
  }

  /** Frames with another identifier are ignored. */
  predicate Addressed(request: Frame) {
    request.id == ID_REQUEST
  }

  function Handle(t: Target, request: Frame): Handled
    requires Safe(t) && Addressed(request)
  {
    if request.dlc == 0 || request.dlc > MAX_DLC then Handled(t, Respond(0, BadLength, []))
    else HandleOpcode(t, request)
  }

  /** Every request gets one well-formed response that names its opcode; only an unusable length gets
      opcode 0. */
  lemma EveryRequestIsAnswered(t: Target, request: Frame)
    requires Safe(t) && Addressed(request)
    ensures var r := Handle(t, request).response;
            r.id == ID_RESPONSE && 2 <= r.dlc <= MAX_DLC &&
            (1 <= request.dlc <= MAX_DLC ==> r.data[0] == Flagged(request.data[0])) &&
            (request.dlc == 0 || request.dlc > MAX_DLC ==>
               r.data[0] == RESPONSE_FLAG && r.data[1] == Code(BadLength)) &&
            forall i :: r.dlc <= i < MAX_DLC ==> r.data[i] == 0
  {
    hide HandleStart, HandleData, HandleEnd, Safe, Put32;
  }

  // ---- Safety of the session ----

  /** The image in the region passes the full check now, and entry is the one in its header. */
  predicate Bootable(t: Target) {
    Verify(t.region, t.base, |t.region|) == Passed && t.entry == ReadHeader(t.region).entry
  }

  predicate Safe(t: Target) {
    (t.imageValid ==> t.state != Receiving && Bootable(t)) &&
    (t.state == Receiving ==> !t.imageValid && t.received <= t.imageSize <= |t.region|) &&
    (t.state == Complete ==> t.imageValid)
  }

  /** A check of the first bytes that passes is a check of the whole region that passes. */
  lemma {:induction false} CheckRegionIsBootable(t: Target, len: nat)
    requires len <= |t.region|
    ensures var u := CheckRegion(t, len); u.imageValid ==> Bootable(u)
  {
    hide Verify, ReadHeader;
    var front := t.region[..len];
    assert t.region == front + t.region[len..];
    if Verify(front, t.base, |t.region|) == Passed {
      VerifiedInFront(front, t.region[len..], t.base, |t.region|);
    }
  }

  lemma InitIsSafe(region: seq<Byte>, base: Word32, major: Byte, minor: Byte)
    requires RegionSize(|region|)
    ensures Safe(Init(region, base, major, minor))
    ensures Init(region, base, major, minor).imageValid <==> Verify(region, base, |region|) == Passed
  {
    hide Verify, ReadHeader;
    CheckRegionIsBootable(Target(region, base, major, minor, Idle, 0, 0, 0, false, false, false, 0), |region|);
    assert region[..|region|] == region;
  }

  lemma EndKeepsSafe(t: Target, request: Frame)
    requires Safe(t)
    ensures Safe(HandleEnd(t, request).0)
  {
    hide Verify, ReadHeader, Bootable;
    if t.state == Receiving {
      CheckRegionIsBootable(t, t.received);
      var u := CheckRegion(t, t.received);
      ChangingStateKeepsBootable(u, Complete);
    }
  }

  lemma ChangingStateKeepsBootable(t: Target, s: State)
    ensures Bootable(t) <==> Bootable(t.(state := s))
    ensures Bootable(t) <==> Bootable(t.(bootRequested := true))
  {
    hide Verify, ReadHeader;
  }

  lemma OpcodeKeepsSafe(t: Target, request: Frame)
    requires Safe(t) && 1 <= request.dlc <= MAX_DLC
    ensures Safe(HandleOpcode(t, request).target)
  {
    hide Verify, ReadHeader, Bootable, Respond, CheckRegion, HandleEnd;
    EndKeepsSafe(t, request);
    ChangingStateKeepsBootable(t, Idle);
  }

  /** Every frame whatsoever keeps the session safe. */
  lemma {:induction false} HandleKeepsSafe(t: Target, request: Frame)
    requires Safe(t) && Addressed(request)
    ensures Safe(Handle(t, request).target)
  {
    hide Safe, HandleOpcode, Respond;
    if 1 <= request.dlc <= MAX_DLC { OpcodeKeepsSafe(t, request); }
  }

  /** The region keeps its size and address, and only an accepted chunk changes it, below the
      announced image size. */
  lemma HandleWritesBelowImageSize(t: Target, request: Frame)
    requires Safe(t) && Addressed(request)
    ensures var u := Handle(t, request).target;
            |u.region| == |t.region| && u.base == t.base &&
            (u.region != t.region ==> t.state == Receiving) &&
            forall i :: 0 <= i < |t.region| && u.region[i] != t.region[i] ==>
              t.received <= i < u.received <= t.imageSize
  {
    hide Verify, ReadHeader, Bootable, Respond, Checksum;
  }

  // ---- The main loop of the bootloader ----

  const AUTOBOOT_POLLS: nat := 100000

  /** What one poll of the CAN controller brought. */
  datatype Input = Arrived(frame: Frame) | Nothing

  /** The loop's variables; stay is the mailbox request to wait for a download. */
  datatype Loop = Loop(session: Target, stay: bool, talked: bool, idlePolls: Word32)

  function Poll(l: Loop, input: Input): Loop
    requires Safe(l.session)
  {
    match input
    case Arrived(f) =>
      if Addressed(f) then l.(session := Handle(l.session, f).target, talked := true) else l
    case Nothing => l.(idlePolls := (l.idlePolls + 1) % 0x1_0000_0000)
  }

  /** The condition in front of the jump. */
  predicate Jumps(l: Loop) {
    l.session.bootRequested || (!l.stay && !l.talked && l.session.imageValid && l.idlePolls >= AUTOBOOT_POLLS)
  }

  /** A boot request is pending only while the image is valid. */
  predicate Backed(t: Target) {
    t.bootRequested ==> t.imageValid
  }

  predicate LoopSafe(l: Loop) {
    Safe(l.session) && Backed(l.session)
  }

  /** A request that makes the session start a download. */
  predicate StartsDownload(t: Target, request: Frame) {
    t.state != Receiving && request.dlc == 5 && request.data[0] == START &&
    HEADER_SIZE < Get32(request.data, 1) <= |t.region|
  }

  /** The session keeps a pending boot request backed by a valid image exactly until it accepts the start
      of a download while the request is pending. */
  lemma {:induction false} RequestStaysBackedIff(t: Target, request: Frame)
    requires Safe(t) && Addressed(request) && Backed(t)
    ensures Backed(Handle(t, request).target) <==> !(t.bootRequested && StartsDownload(t, request))
  {
    hide Verify, ReadHeader, Bootable, Respond, Checksum, Written;
  }

  lemma BootRequestNeedsImage(t: Target, request: Frame)
    requires Safe(t) && Addressed(request) && !t.bootRequested
    ensures Backed(Handle(t, request).target)
  {
    hide Handle, Safe;
    RequestStaysBackedIff(t, request);
  }

  /** A poll from a state in which the loop did not jump. */
  lemma PollKeepsLoopSafe(l: Loop, input: Input)
    requires LoopSafe(l) && !Jumps(l)
    ensures LoopSafe(Poll(l, input))
  {
    hide Handle, Safe;
    if input.Arrived? && Addressed(input.frame) {
      HandleKeepsSafe(l.session, input.frame);
      BootRequestNeedsImage(l.session, input.frame);
    }
  }

  /** The loop after the inputs: it stops polling at the first jump. */
  function After(l: Loop, inputs: seq<Input>): (r: Loop)
    requires LoopSafe(l)
    ensures LoopSafe(r)
  {
    hide Safe, Handle;
    if inputs == [] then l
    else
      var before := After(l, inputs[..|inputs| - 1]);
      if Jumps(before) then before
      else
        PollKeepsLoopSafe(before, inputs[|inputs| - 1]);
        Poll(before, inputs[|inputs| - 1])
  }

  /** Reset with any bytes in the region. */
  function Reset(region: seq<Byte>, base: Word32, major: Byte, minor: Byte, stay: bool): (l: Loop)
    requires RegionSize(|region|)
    ensures LoopSafe(l)
  {
    InitIsSafe(region, base, major, minor);
    Loop(Init(region, base, major, minor), stay, false, 0)
  }

  lemma ResetWaits(region: seq<Byte>, base: Word32, major: Byte, minor: Byte, stay: bool)
    requires RegionSize(|region|)
    ensures Reset(region, base, major, minor, stay) ==
            Loop(Init(region, base, major, minor), stay, false, 0)
    ensures !Init(region, base, major, minor).bootRequested
    ensures !Jumps(Reset(region, base, major, minor, stay))
  {
    hide Verify, ReadHeader;
  }

  /** Whatever the region held at reset and whatever frames arrive, a jump goes to the entry point of
      an image that is intact in the region, and that address lies in its payload. */
  lemma JumpStartsVerifiedImage(
    region: seq<Byte>, base: Word32, major: Byte, minor: Byte, stay: bool, inputs: seq<Input>)
    requires RegionSize(|region|)
    ensures var l := After(Reset(region, base, major, minor, stay), inputs);
            var r := l.session.region;
            Jumps(l) ==>
              Verify(r, l.session.base, |r|) == Passed &&
              var h := ReadHeader(r);
              HEADER_SIZE + h.payloadSize <= |r| &&
              l.session.entry == h.entry &&
              l.session.base + HEADER_SIZE <= l.session.entry < l.session.base + HEADER_SIZE + h.payloadSize &&
              h.payloadCrc == Checksum(r[HEADER_SIZE..HEADER_SIZE + h.payloadSize])
  {
    hide Verify, ReadHeader, After, Reset, Checksum, WriteHeader;
    var l := After(Reset(region, base, major, minor, stay), inputs);
    if Jumps(l) {
      VerifiedImageIsWritten(l.session.region, l.session.base, |l.session.region|);
    }
  }

  // ---- The session without the loop ----

  /** The session after a sequence of frames. */
  function AfterFrames(t: Target, requests: seq<Frame>): (u: Target)
    requires Safe(t)
    ensures Safe(u)
  {
    hide Safe, Handle;
    if requests == [] then t
    else
      var before := AfterFrames(t, requests[..|requests| - 1]);
      var request := requests[|requests| - 1];
      if !Addressed(request) then before
      else
        HandleKeepsSafe(before, request);
        Handle(before, request).target
  }

  /** Somewhere in the run a download starts while a boot request is pending. */
  predicate RequestOverwritten(t: Target, requests: seq<Frame>)
    requires Safe(t)
  {
    exists n :: 0 <= n < |requests| && OverwrittenAt(t, requests, n)
  }

  predicate OverwrittenAt(t: Target, requests: seq<Frame>, n: nat)
    requires Safe(t) && n < |requests|
  {
    var before := AfterFrames(t, requests[..n]);
    Addressed(requests[n]) && before.bootRequested && StartsDownload(before, requests[n])
  }

  lemma OneMoreFrame(t: Target, requests: seq<Frame>, n: nat)
    requires Safe(t) && n < |requests|
    ensures var before := AfterFrames(t, requests[..n]);
            AfterFrames(t, requests[..n + 1]) ==
            if Addressed(requests[n]) then Handle(before, requests[n]).target else before
  {
    hide Safe, Handle;
    assert requests[..n + 1][..n] == requests[..n];
  }

  lemma {:induction false} BackedUpTo(t: Target, requests: seq<Frame>, n: nat)
    requires Safe(t) && Backed(t) && n <= |requests| && !RequestOverwritten(t, requests)
    ensures Backed(AfterFrames(t, requests[..n]))
  {
    hide Safe, Handle, StartsDownload;
    if n > 0 {
      BackedUpTo(t, requests, n - 1);
      OneMoreFrame(t, requests, n - 1);
      assert !OverwrittenAt(t, requests, n - 1);
      var before := AfterFrames(t, requests[..n - 1]);
      if Addressed(requests[n - 1]) { RequestStaysBackedIff(before, requests[n - 1]); }
    } else {
      assert requests[..0] == [];
    }
  }

  /** Over any sequence of frames the pending request is backed at every moment exactly when no download
      starts while a request is pending. */
  lemma {:induction false} RunStaysBackedIff(t: Target, requests: seq<Frame>)
    requires Safe(t) && Backed(t)
    ensures (forall n :: 0 <= n <= |requests| ==> Backed(AfterFrames(t, requests[..n]))) <==>
            !RequestOverwritten(t, requests)
  {
    hide Safe, Handle, StartsDownload, AfterFrames;
    if RequestOverwritten(t, requests) {
      var n :| 0 <= n < |requests| && OverwrittenAt(t, requests, n);
      var before := AfterFrames(t, requests[..n]);
      OneMoreFrame(t, requests, n);
      if Backed(before) { RequestStaysBackedIff(before, requests[n]); }
    } else {
      forall n | 0 <= n <= |requests| ensures Backed(AfterFrames(t, requests[..n])) { BackedUpTo(t, requests, n); }
    }
  }

  /** The failing run: a download may start after an accepted boot request. It is the loop, by testing
      after every frame, that never lets the request outlive the image. */
  lemma {:induction false} BootRequestOutlivesImage(t: Target, size: Word32)
    requires Safe(t) && t.imageValid && HEADER_SIZE < size <= |t.region|
    ensures var u := Handle(t, EncodeRequest(BOOT, [])).target;
            Safe(u) && var v := Handle(u, EncodeRequest(START, Put32(size))).target;
            v.bootRequested && !v.imageValid && v.state == Receiving
  {
    hide Verify, ReadHeader, Bootable, Respond, Checksum, Get32, Put32;
    var u := Handle(t, EncodeRequest(BOOT, [])).target;
    HandleKeepsSafe(t, EncodeRequest(BOOT, []));
    var start := EncodeRequest(START, Put32(size));
    assert start.data[1..5] == Put32(size);
    GetPut32(size, start.data, 1);
  }
}
