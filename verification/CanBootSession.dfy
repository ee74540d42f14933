/** The session as the firmware keeps it: a record updated in place over a byte region. */
module CanBootSession {

  import opened Bytes
  import opened Image
  import opened CanBoot

  class Session {
    var region: array<Byte>
    var base: Word32
    var major: Byte
    var minor: Byte
    var state: State
    var imageSize: Word32
    var received: Word32
    var nextSeq: Byte
    var haveLastSeq: bool
    var imageValid: bool
    var bootRequested: bool
    var entry: Word32

    constructor (region: array<Byte>)
      ensures this.region == region
    {
      this.region, base, major, minor, state, imageSize, received := region, 0, 0, 0, Idle, 0, 0;
      nextSeq, haveLastSeq, imageValid, bootRequested, entry := 0, false, false, false, 0;
    }

    ghost function Value(): TargetRecord
      reads this, region
    {
      Target(region[..], base, major, minor, state, imageSize, received, nextSeq, haveLastSeq, imageValid,
             bootRequested, entry)
    }

    ghost predicate Valid()
      reads this, region
    {
      RegionSize(region.Length) && Safe(Value())
    }

    method CheckRegion(len: nat)
      requires RegionSize(region.Length) && len <= region.Length
      modifies this`imageValid, this`entry
      ensures Value() == CanBoot.CheckRegion(old(Value()), len)
    {
      hide Verify, ReadHeader;
      assert region[..][..len] == region[..len];
      imageValid := Verify(region[..len], base, region.Length) == Passed;
      HeaderPresent(region[..len], base, region.Length);
      entry := if imageValid then ReadHeader(region[..len]).entry else 0;
    }

    method Init(region: array<Byte>, base: Word32, major: Byte, minor: Byte) returns (ok: bool)
      requires region.Length <= 0xFFFF_FFF9
      modifies this
      ensures ok <==> HEADER_SIZE < region.Length
      ensures ok ==> Valid() && this.region == region && Value() == CanBoot.Init(region[..], base, major, minor)
      ensures !ok ==> this.region == old(this.region) && Value() == old(Value())
    {
      hide Verify, ReadHeader, Bootable;
      if region.Length <= HEADER_SIZE { return false; }
      this.region, this.base, this.major, this.minor, state := region, base, major, minor, Idle;
      imageSize, received, nextSeq, haveLastSeq, bootRequested := 0, 0, 0, false, false;
      CheckRegion(region.Length);
      assert Value() == CanBoot.Init(region[..], base, major, minor);
      InitIsSafe(region[..], base, major, minor);
      ok := true;
    }

    method HandleStart(request: Frame) returns (status: Status)
      requires Valid()
      modifies this
      ensures region == old(region)
      ensures (Value(), status) == CanBoot.HandleStart(old(Value()), request)
    {
      hide Bootable, Get32;
      if state == Receiving { return BadState; }
      if request.dlc != 5 { return BadLength; }
      var size := Get32(request.data, 1);
      if size <= HEADER_SIZE || size > region.Length { return TooLarge; }
      imageValid := false;
      state, imageSize, received, nextSeq, haveLastSeq := Receiving, size, 0, 0, false;
      status := Ok;
    }

    method HandleData(request: Frame) returns (status: Status)
      requires Valid() && request.dlc <= MAX_DLC
      modifies this, region
      ensures region == old(region)
      ensures (Value(), status) == CanBoot.HandleData(old(Value()), request)
    {
      hide Bootable;
      if state != Receiving { return BadState; }
      if request.dlc < 3 { return BadLength; }
      var seqNo := request.data[1];
      if haveLastSeq && NextSeq(seqNo) == nextSeq { return Ok; }
      if seqNo != nextSeq { return BadSeq; }
      var len := request.dlc - 2;
      if received + len > imageSize { return BadLength; }
      StoreChunk(request, len);
      received := received + len;
      nextSeq := NextSeq(seqNo);
      haveLastSeq := true;
      status := Ok;
    }

    method StoreChunk(request: Frame, len: nat)
      requires received + len <= region.Length && len <= 6
      modifies region
      ensures region[..] == Written(old(region[..]), received, request.data[2..2 + len])
    {
      hide Written;
      NothingWritten(region[..], received);
      assert request.data[2..2 + 0] == [];
      for i := 0 to len
        invariant region[..] == Written(old(region[..]), received, request.data[2..2 + i])
      {
        OneMoreByte(old(region[..]), received, request.data[2..2 + i], request.data[i + 2]);
        assert request.data[2..2 + (i + 1)] == request.data[2..2 + i] + [request.data[i + 2]];
        region[received + i] := request.data[i + 2];
      }
    }

    method HandleEnd(request: Frame) returns (status: Status, crc: Word32)
      requires Valid()
      modifies this
      ensures region == old(region)
      ensures (Value(), status, crc) == CanBoot.HandleEnd(old(Value()), request)
    {
      hide Bootable, Checksum, Verify, ReadHeader, Get32, Get16;
      crc := 0;
      if state != Receiving { return BadState, crc; }
      if request.dlc != 5 { return BadLength, crc; }
      if received != imageSize { return BadLength, crc; }
      crc := Checksum(region[..received]);
      assert region[..][..received] == region[..received];
      if crc != Get32(request.data, 1) {
        state := Idle;
        return Crc, crc;
      }
      CheckRegion(received);
      state := Idle;
      if !imageValid { return BadImage, crc; }
      state := Complete;
      status := Ok;
    }

    /** Nothing to answer when the frame is not addressed to the bootloader. */
    method Handle(request: Frame) returns (response: Option<Frame>)
      requires Valid()
      modifies this, region
      ensures region == old(region) && Valid()
      ensures response.Some? <==> Addressed(request)
      ensures response.Some? ==> Handled(Value(), response.value) == CanBoot.Handle(old(Value()), request)
      ensures response.None? ==> Value() == old(Value())
    {
      hide Safe, Respond, CanBoot.HandleStart, CanBoot.HandleData, CanBoot.HandleEnd, Put32;
      if request.id != ID_REQUEST { return None; }
      HandleKeepsSafe(Value(), request);
      if request.dlc == 0 || request.dlc > MAX_DLC { return Some(Respond(0, BadLength, [])); }
      var opcode := request.data[0];
      if opcode == PING {
        response := Some(Respond(opcode, Ok, [major, minor, if imageValid then 1 else 0, Number(state)]));
      } else if opcode == START {
        var status := HandleStart(request);
        response := Some(Respond(opcode, status, []));
      } else if opcode == DATA {
        var status := HandleData(request);
        response := Some(Respond(opcode, status, [request.data[1]]));
      } else if opcode == END {
        var status, crc := HandleEnd(request);
        response := Some(Respond(opcode, status, Put32(crc)));
      } else if opcode == BOOT {
        if imageValid && state != Receiving {
          bootRequested := true;
          response := Some(Respond(opcode, Ok, []));
        } else {
          response := Some(Respond(opcode, BadImage, []));
        }
      } else if opcode == ABORT {
        if state == Receiving { state := Idle; }
        response := Some(Respond(opcode, Ok, []));
      } else {
        response := Some(Respond(opcode, Unknown, []));
      }
    }
  }

  lemma NothingWritten(region: seq<Byte>, at: nat)
    requires at <= |region|
    ensures Written(region, at, []) == region
  {
  }

  lemma OneMoreByte(region: seq<Byte>, at: nat, bytes: seq<Byte>, b: Byte)
    requires at + |bytes| < |region|
    ensures Written(region, at, bytes + [b]) == Written(region, at, bytes)[at + |bytes| := b]
  {
  }

  lemma HeaderPresent(image: seq<Byte>, base: Word32, size: Word32)
    ensures Verify(image, base, size) == Passed ==> |image| >= HEADER_SIZE
  {
    hide ReadHeader, Checksum;
  }

  lemma PingOnlyReads(t: Target)
    requires Safe(t)
    ensures CanBoot.Handle(t, EncodeRequest(PING, [])).target == t
  {
    hide Safe, Respond;
  }

  /** The polling loop from reset until it jumps or the inputs end. */
  method RunBootloader(session: Session, base: Word32, major: Byte, minor: Byte, stay: bool, inputs: seq<Input>)
    returns (jump: Option<Word32>)
    requires RegionSize(session.region.Length)
    modifies session, session.region
    ensures session.region == old(session.region)
    ensures var l := After(Reset(old(session.region[..]), base, major, minor, stay), inputs);
            session.Value() == l.session && (jump.Some? <==> Jumps(l)) && (jump.Some? ==> jump.value == l.session.entry)
  {
    hide Safe, CanBoot.Handle, CanBoot.Init;
    ghost var start := Reset(session.region[..], base, major, minor, stay);
    var ok := session.Init(session.region, base, major, minor);
    PingOnlyReads(session.Value());
    var answer := session.Handle(EncodeRequest(PING, []));
    ResetWaits(old(session.region[..]), base, major, minor, stay);
    var talked := false;
    var idlePolls: Word32 := 0;
    for i := 0 to |inputs|
      invariant session.region == old(session.region) && session.Valid()
      invariant After(start, inputs[..i]) == Loop(session.Value(), stay, talked, idlePolls)
      invariant !Jumps(After(start, inputs[..i]))
    {
      assert inputs[..i + 1][..i] == inputs[..i];
      match inputs[i] {
        case Arrived(frame) =>
          answer := session.Handle(frame);
          if answer.Some? { talked := true; }
        case Nothing =>
          idlePolls := (idlePolls + 1) % 0x1_0000_0000;
      }
      if session.bootRequested || (!stay && !talked && session.imageValid && idlePolls >= AUTOBOOT_POLLS) {
        Stops(start, inputs, i + 1);
        return Some(session.entry);
      }
    }
    assert inputs[..|inputs|] == inputs;
    jump := None;
  }

  /** After a jump the remaining inputs are not looked at. */
  lemma {:induction false} Stops(l: Loop, inputs: seq<Input>, n: nat)
    requires n <= |inputs| && LoopSafe(l) && Jumps(After(l, inputs[..n]))
    ensures After(l, inputs) == After(l, inputs[..n])
  {
    hide Safe, CanBoot.Handle;
    if n == |inputs| {
      assert inputs[..n] == inputs;
    } else {
      var front := inputs[..|inputs| - 1];
      assert front[..n] == inputs[..n];
      Stops(l, front, n);
    }
  }
}
