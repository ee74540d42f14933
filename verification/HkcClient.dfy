/** The client half of the bootloader protocol, driving a bus on which anything may be lost. */
module HkcClient {

  import opened Bytes
  import opened Image
  import opened CanBoot
  import opened FlashProtocol
  import opened CanBus

  class Bus {
    var link: Link
    var sends: seq<bool>
    var turns: seq<Turn>
    /** Requests handed to the controller so far, successfully or not. */
    ghost var attempts: nat

    constructor (target: Target, sends: seq<bool>, turns: seq<Turn>)
      ensures Value() == World(Link(target, [], []), sends, turns) && attempts == 0
    {
      link, this.sends, this.turns := Link(target, [], []), sends, turns;
      attempts := 0;
    }

    ghost function Value(): World
      reads this
    {
      World(link, sends, turns)
    }

    method Send(request: Frame) returns (ok: bool)
      modifies this
      ensures (Value(), ok) == Sent(old(Value()), request) && attempts == old(attempts) + 1
    {
      attempts := attempts + 1;
      ok := true;
      if sends != [] { ok, sends := sends[0], sends[1..]; }
      if ok { link := link.(toTarget := link.toTarget + [request]); }
    }

    method Receive() returns (r: Reception)
      requires Safe(link.target)
      modifies this`link, this`turns
      ensures (Value(), r) == Heard(old(Value()))
    {
      hide Safe;
      if turns == [] { return TimedOut; }
      var turn := turns[0];
      turns := turns[1..];
      link := Evolve(link, turn.events);
      match turn.outcome
      case Take =>
        if link.toClient == [] { return TimedOut; }
        r := Received(link.toClient[0]);
        link := link.(toClient := link.toClient[1..]);
      case Silence => r := TimedOut;
      case Failure => r := Failed;
      case Foreign(f) => r := Received(f);
    }
  }

  class HkcClient {
    const bus: Bus
    const retries: int

    constructor (bus: Bus, retries: int)
      ensures this.bus == bus && this.retries == retries
    {
      this.bus, this.retries := bus, retries;
    }

    /** Requests one exchange may take. */
    ghost function Allowed(): nat {
      if retries < 0 then 0 else retries + 1
    }

    /** Sends any request until a frame matches, at most 1 + retries times. */
    method Transact(request: Frame, matches: Frame -> bool) returns (reply: Reply)
      requires Safe(bus.link.target)
      modifies bus
      ensures retries >= 0 ==> (bus.Value(), reply) == Exchange(old(bus.Value()), request, matches, retries + 1)
      ensures retries >= 0 ==> old(bus.attempts) < bus.attempts <= old(bus.attempts) + retries + 1
      ensures retries >= 0 && reply == NoResponse ==> bus.attempts == old(bus.attempts) + retries + 1
      ensures retries < 0 ==>
                reply == NoResponse && bus.Value() == old(bus.Value()) && bus.attempts == old(bus.attempts)
    {
      hide Safe, Heard;
      ghost var start := bus.Value();
      var attempt := 0;
      while attempt <= retries
        invariant Safe(bus.link.target)
        invariant bus.attempts == old(bus.attempts) + attempt <= old(bus.attempts) + Allowed()
        invariant Exchange(start, request, matches, Allowed()) ==
                  Exchange(bus.Value(), request, matches, Allowed() - attempt)
        decreases retries - attempt
      {
        var sent := bus.Send(request);
        if !sent { return BusError; }
        ghost var v := bus.Value();
        var waiting := true;
        while waiting
          invariant Safe(bus.link.target) && bus.attempts == old(bus.attempts) + attempt + 1
          invariant Waited(v, matches) == if waiting then Waited(bus.Value(), matches) else (bus.Value(), TimedOut)
          decreases waiting, |bus.turns|
        {
          var rx := bus.Receive();
          match rx {
            case TimedOut => waiting := false;
            case Failed => return BusError;
            case Received(f) =>
              if matches(f) { return Answer(f); }
          }
        }
        attempt := attempt + 1;
      }
      reply := NoResponse;
    }

    /** The request for an opcode and its payload, and the test of its response. */
    method BootRequest(opcode: Byte, payload: seq<Byte>) returns (reply: Reply)
      requires Safe(bus.link.target) && |payload| < MAX_DLC && (opcode == DATA ==> |payload| > 0)
      modifies bus
      ensures retries >= 0 ==>
                var seqNo := if opcode == DATA then payload[0] else 0;
                (bus.Value(), reply) ==
                Exchange(old(bus.Value()), EncodeRequest(opcode, payload), Matcher(opcode, seqNo), retries + 1)
      ensures retries >= 0 ==> old(bus.attempts) < bus.attempts <= old(bus.attempts) + retries + 1
      ensures retries >= 0 && reply == NoResponse ==> bus.attempts == old(bus.attempts) + retries + 1
      ensures retries < 0 ==>
                reply == NoResponse && bus.Value() == old(bus.Value()) && bus.attempts == old(bus.attempts)
      ensures reply.Answer? ==> Match(opcode, if opcode == DATA then payload[0] else 0, reply.frame)
    {
      hide Safe, EncodeRequest;
      var seqNo := if opcode == DATA then payload[0] else 0;
      reply := Transact(EncodeRequest(opcode, payload), Matcher(opcode, seqNo));
    }

    /** Request p of a download, whose answer has to be positive; Done says that the client may go on. fs is
        what becomes of its attempts, for the statement about losses: the step is Done exactly when one of
        them is answered, or, for START and END, the first one that is delivered. */
    method RequestOk(opcode: Byte, payload: seq<Byte>, ghost g: Transfer, ghost p: nat, ghost fs: seq<Fate>)
      returns (result: FlashResult)
      requires Inv(g, bus.link, p) && opcode == Opcode(g.image, p) && payload == Body(g.image, p)
      modifies bus
      ensures !result.Invalid? && Inv(g, bus.link, p)
      ensures result.Done? && p <= Chunks(g.image) ==>
                Inv(g, bus.link, p + 1) && TargetAt(g.image, g.t0, bus.link.target, p + 1)
      ensures result.Done? && p == Chunks(g.image) + 1 ==> Holds(bus.link.target, g.image)
      ensures result.Refused? && Willing(g.image, g.t0) ==>
                result.status == Code(BadState) && (p == 0 || p == Chunks(g.image) + 1)
      ensures retries < 0 ==> result == Lost && bus.attempts == old(bus.attempts)
      ensures result == Lost && retries >= 0 ==> bus.attempts == old(bus.attempts) + retries + 1
      ensures retries >= 0 && Willing(g.image, g.t0) && old(TargetAt(g.image, g.t0, bus.link.target, p)) &&
                old(Scripted(bus.Value(), fs)) && Course(fs, retries + 1) ==>
                result == StepResult(g.image, p, fs) && Scripted(bus.Value(), []) &&
                bus.turns == old(bus.turns)[|fs|..] &&
                (if Delivered(fs) then TargetAt(g.image, g.t0, bus.link.target, p + 1)
                 else bus.link.target == old(bus.link.target))
    {
      hide Inv, AnswerAt, Answers, TargetAt, Willing, Opcode, Body, Holds, Exchange, Matcher;
      hide Scripted, Course, Delivered, Clean, Succeeds, IsChunk, Request, Flashable, Safe;
      InvParts(g, bus.link, p);
      ghost var w, seqNo := bus.Value(), if opcode == DATA then payload[0] else 0;
      ghost var matches := Matcher(opcode, seqNo);
      RequestOf(g, p, opcode, payload, seqNo);
      ExchangeKeepsInv(g, w, p, matches, Allowed());
      if retries >= 0 && Willing(g.image, g.t0) && TargetAt(g.image, g.t0, bus.link.target, p) && Scripted(w, fs) &&
          Course(fs, Allowed()) {
        ScriptedExchange(g, w, p, matches, false, fs, Allowed());
      }
      var reply := BootRequest(opcode, payload);
      if reply == NoResponse { return Lost; }
      if reply == BusError { return SendOrReceiveError; }
      if reply.frame.data[1] != Code(Ok) {
        RefusalMeans(g, bus.link, p, reply.frame);
        return Refused(reply.frame.data[1]);
      }
      if p <= Chunks(g.image) {
        Advances(g, bus.link, p, reply.frame);
      } else {
        EndMeansComplete(g, bus.link, p, reply.frame);
      }
      result := Done;
    }

    /** Downloads an image to a target found behind an empty bus. It returns Done only with the whole image
        verified in the region; p is the step it ended on. A willing target never refuses a chunk, and
        refuses START or END only when it has already handled it. For every plan of losses the download
        succeeds exactly when every step passes, and otherwise ends on the first that does not. */
    method Flash(image: seq<Byte>, ghost plan: seq<seq<Fate>>) returns (result: FlashResult, ghost p: nat)
      requires Safe(bus.link.target) && bus.link.toTarget == [] && bus.link.toClient == []
      requires bus.link.target.base == APP_BASE && |bus.link.target.region| == APP_SIZE
      modifies bus
      ensures result.Invalid? <==> !Flashable(image, old(bus.link.target))
      ensures result.Invalid? ==> bus.link == old(bus.link)
      ensures !result.Invalid? ==> Inv(Transfer(image, old(bus.link.target)), bus.link, p)
      ensures result.Done? ==> Holds(bus.link.target, image)
      ensures result.Refused? && Willing(image, old(bus.link.target)) ==>
                result.status == Code(BadState) && (p == 0 || p == Chunks(image) + 1)
      ensures retries < 0 && !result.Invalid? ==> result == Lost && p == 0 && bus.attempts == old(bus.attempts)
      ensures retries >= 0 && Willing(image, old(bus.link.target)) && Flashable(image, old(bus.link.target)) &&
                old(Planned(bus.Value(), image, plan, retries + 1)) ==>
                (result.Done? <==> forall q :: 0 <= q < |plan| ==> Passes(image, plan, q)) &&
                EndsAsPlanned(image, plan, result, p) &&
                (!result.Done? && Delivered(plan[p]) ==>
                   TargetAt(image, old(bus.link.target), bus.link.target, p + 1))
    {
      hide Inv, TargetAt, Flashable, Safe, Holds, Willing, Put32, Checksum, Verify, ChunkAt, Body, Opcode, SeqAt;
      hide OnPlan, Planned, EndsAsPlanned, Delivered, Passes;
      ghost var g := Transfer(image, bus.link.target);
      p := 0;
      var check := Verify(image, APP_BASE, APP_SIZE);
      FlashableMeans(g, check);
      if check != Passed { return Invalid(check), p; }
      StartsAt(g, bus.link);
      EdgeBodies(image);
      ghost var planned := retries >= 0 && Planned(bus.Value(), image, plan, Allowed()) && Willing(image, g.t0);
      if planned { PlanStarts(g, bus.Value(), plan, Allowed()); }
      result := PlannedRequest(START, Put32(|image| % 0x1_0000_0000), g, p, plan);
      if !result.Done? {
        if planned { DoneIffAllPass(image, plan, result, p); }
        return result, p;
      }
      p := 1;

      var offset: nat, seqNo: Byte := 0, 0;
      while offset < |image|
        invariant p >= 1 && offset == CHUNK * (p - 1) && p <= Chunks(image) + 1
        invariant seqNo == SeqAt(p)
        invariant Inv(g, bus.link, p)
        invariant planned ==> OnPlan(g, bus.Value(), plan, p, Allowed())
      {
        var len := if CHUNK < |image| - offset then CHUNK else |image| - offset;
        ChunkBody(image, p, offset, len);
        result := PlannedRequest(DATA, [seqNo] + image[offset..offset + len], g, p, plan);
        if !result.Done? {
          if planned { DoneIffAllPass(image, plan, result, p); }
          return result, p;
        }
        NextSeqAt(p);
        p := p + 1;
        seqNo := NextSeq(seqNo);
        offset := offset + CHUNK;
      }
      result := PlannedRequest(END, Put32(Checksum(image)), g, p, plan);
      if planned { DoneIffAllPass(image, plan, result, p); }
    }

    /** RequestOk, stated about the plan of a whole download. */
    method PlannedRequest(opcode: Byte, payload: seq<Byte>, ghost g: Transfer, ghost p: nat, ghost plan: seq<seq<Fate>>)
      returns (result: FlashResult)
      requires Inv(g, bus.link, p) && opcode == Opcode(g.image, p) && payload == Body(g.image, p)
      modifies bus
      ensures !result.Invalid? && Inv(g, bus.link, p)
      ensures result.Done? && p <= Chunks(g.image) ==> Inv(g, bus.link, p + 1)
      ensures result.Done? && p == Chunks(g.image) + 1 ==> Holds(bus.link.target, g.image)
      ensures result.Refused? && Willing(g.image, g.t0) ==>
                result.status == Code(BadState) && (p == 0 || p == Chunks(g.image) + 1)
      ensures retries < 0 ==> result == Lost && bus.attempts == old(bus.attempts)
      ensures retries >= 0 && Willing(g.image, g.t0) && old(OnPlan(g, bus.Value(), plan, p, retries + 1)) ==>
                (if result.Done? && p <= Chunks(g.image) then OnPlan(g, bus.Value(), plan, p + 1, retries + 1)
                 else EndsAsPlanned(g.image, plan, result, p)) &&
                (!result.Done? && p < |plan| && Delivered(plan[p]) ==>
                   TargetAt(g.image, g.t0, bus.link.target, p + 1))
    {
      hide Inv, TargetAt, Willing, Opcode, Body, Holds, OnPlan, EndsAsPlanned, Delivered, Scripted, StepResult, Course;
      InvParts(g, bus.link, p);
      ghost var w := bus.Value();
      ghost var planned := retries >= 0 && OnPlan(g, w, plan, p, Allowed()) && Willing(g.image, g.t0);
      ghost var fs := [];
      if planned {
        PlanLength(g, w, plan, p, Allowed());
        fs := plan[p];
        PlanGives(g, w, plan, p, Allowed());
        ScriptIsThere(w, fs);
      }
      result := RequestOk(opcode, payload, g, p, fs);
      if planned { PlanMoves(g, w, bus.Value(), plan, p, Allowed(), result); }
    }
  }

  /** The target has the image in its region, verified as a whole. */
  predicate Holds(t: Target, image: seq<Byte>) {
    t.state == Complete && t.imageValid && Bootable(t) && |image| <= |t.region| && t.region[..|image|] == image
  }

  lemma PlanLength(g: Transfer, w: World, plan: seq<seq<Fate>>, p: nat, allowed: nat)
    requires OnPlan(g, w, plan, p, allowed)
    ensures |plan| == Chunks(g.image) + 2
  {
  }

  lemma StartsAt(g: Transfer, l: Link)
    requires Safe(l.target) && l.target == g.t0 && l.toTarget == [] && l.toClient == [] && Flashable(g.image, g.t0)
    ensures Inv(g, l, 0) && TargetAt(g.image, g.t0, l.target, 0)
  {
    hide Safe, Flashable;
    StartsInv(g, l);
  }

  lemma EdgeBodies(image: seq<Byte>)
    ensures Opcode(image, 0) == START && Body(image, 0) == Put32(|image| % 0x1_0000_0000) && SeqAt(1) == 0
    ensures Opcode(image, Chunks(image) + 1) == END && Body(image, Chunks(image) + 1) == Put32(Checksum(image))
  {
    hide Put32, Checksum, ChunkAt;
  }

  lemma ChunkBody(image: seq<Byte>, p: nat, offset: nat, len: nat)
    requires p >= 1 && offset == CHUNK * (p - 1) < |image|
    requires len == if CHUNK < |image| - offset then CHUNK else |image| - offset
    ensures p <= Chunks(image) && Opcode(image, p) == DATA && Body(image, p) == [SeqAt(p)] + image[offset..offset + len]
  {
    hide SeqAt;
  }

  lemma InvParts(g: Transfer, l: Link, p: nat)
    requires Inv(g, l, p)
    ensures Safe(l.target) && Flashable(g.image, g.t0) && p <= Chunks(g.image) + 1
  {
  }

  lemma RequestOf(g: Transfer, p: nat, opcode: Byte, payload: seq<Byte>, seqNo: Byte)
    requires opcode == Opcode(g.image, p) && payload == Body(g.image, p)
    requires seqNo == if opcode == DATA then payload[0] else 0
    ensures EncodeRequest(opcode, payload) == Request(g.image, p) && TestsFor(g, p, Matcher(opcode, seqNo))
  {
    hide Opcode, Body, EncodeRequest, Match;
  }

  lemma Advances(g: Transfer, l: Link, p: nat, r: Frame)
    requires Inv(g, l, p) && AnswerAt(g, l, p, r) && Answers(g.image, p, r) && p <= Chunks(g.image)
    requires r.data[1] == Code(Ok) && forall x :: x in l.toClient ==> Answers(g.image, p, x)
    ensures Inv(g, l, p + 1) && TargetAt(g.image, g.t0, l.target, p + 1)
  {
    hide Answers, TargetAt, Flashable, Safe, Willing, RepeatRefused;
    AnswerAdvances(g, l, p, r);
  }

  lemma FlashableMeans(g: Transfer, check: Check)
    requires g.t0.base == APP_BASE && |g.t0.region| == APP_SIZE && check == Verify(g.image, APP_BASE, APP_SIZE)
    ensures Flashable(g.image, g.t0) <==> check == Passed
  {
    hide Verify;
  }

  lemma RefusalMeans(g: Transfer, l: Link, p: nat, r: Frame)
    requires AnswerAt(g, l, p, r) && Answers(g.image, p, r) && r.data[1] != Code(Ok)
    ensures Willing(g.image, g.t0) ==>
              !Positive(r) && r.data[1] == Code(BadState) && (p == 0 || p == Chunks(g.image) + 1)
  {
    hide Answers, Accepted, Willing;
  }

  lemma EndMeansComplete(g: Transfer, l: Link, p: nat, r: Frame)
    requires Inv(g, l, p) && AnswerAt(g, l, p, r) && Answers(g.image, p, r) && r.data[1] == Code(Ok)
    requires p == Chunks(g.image) + 1
    ensures Holds(l.target, g.image)
  {
    hide Answers, Bootable, Request;
  }
}
