/** Progress of the lock-free ring. Neither core ever waits for the other: a core needs a number of its
    own steps that can be told beforehand, however the steps of the other are mixed in. */
module RingProgress {

  import opened Arith
  import opened Bytes
  import opened RingLayout
  import opened RingConcurrent

  // ---- The consumer ----

  /** Steps the consumer spends on padding at the tail. */
  function PaddingSteps(s: State): nat
    requires |s.data| > 0
  {
    if !PaddedAt(s.data, s.consumed) then 0 else if |s.data| - s.consumed % |s.data| < REC_HDR then 3 else 6
  }

  /** Steps of the consumer from a state until it has taken the first queued message. A record costs a look
      at the head, a comparison, the type twice, the rest of header and payload once, and the new tail. */
  function StepsToTake(s: State): int
    requires |s.data| > 0 && s.queue != []
  {
    var record := 13 + |s.queue[0].payload|;
    match s.consumer
    case Waiting => PaddingSteps(s) + record
    case Seen(head, _, _) => PaddingSteps(s) + record + if head == s.tail then 1 else -1
    case Skipping(_, _, _) => 1 + record
    case Loading(_, _, _, loaded) => (if PaddedAt(s.data, s.consumed) then 4 else -2) + record - |loaded|
    case Failed => 0
  }

  /** One step less to go. */
  ghost predicate OneLess(s: State, r: State)
    requires |s.data| > 0 && s.queue != []
  {
    r.delivered == s.delivered && r.queue == s.queue && |r.data| > 0 && StepsToTake(r) == StepsToTake(s) - 1 >= 1
  }

  lemma LookIsProgress(s: State, cap: nat)
    requires Inv(s) && s.queue != [] && s.consumer.Waiting?
    ensures ConsumerReady(s) && OneLess(s, ConsumerStep(s, cap))
  {
    hide ProducerInv, Consistent, PaddedAt;
    ConsumerIsReady(s);
    ConsumerView(s.data, |s.data|, s.head, s.tail, s.produced, s.consumed, s.queue);
  }

  lemma CompareIsProgress(s: State, cap: nat)
    requires Inv(s) && s.queue != [] && s.consumer.Seen?
    ensures ConsumerReady(s) && OneLess(s, ConsumerStep(s, cap))
  {
    hide ProducerInv, Consistent, PaddedAt;
    ConsumerIsReady(s);
    var c := s.consumer;
    ConsumerView(s.data, |s.data|, c.head, s.tail, c.upTo, s.consumed, s.queue[..c.count]);
    if |s.data| - s.consumed % |s.data| < REC_HDR { EndIsPadding(s.data, s.consumed); }
  }

  lemma SkipIsProgress(s: State, cap: nat)
    requires Inv(s) && s.queue != [] && s.consumer.Skipping?
    ensures ConsumerReady(s) && OneLess(s, ConsumerStep(s, cap))
  {
    hide ProducerInv, Consistent, PaddedAt;
    ConsumerIsReady(s);
    assert s.data[..|s.data|] == s.data;
    ConsumerView(s.data, |s.data|, s.head, s.tail, s.produced, s.consumed, s.queue);
    ConsistentSkip(s.data, |s.data|, s.head, s.tail, s.produced, s.consumed, s.queue);
  }

  /** The two bytes of the type tell padding from a record. */
  lemma TypeTellsPadding(s: State)
    requires Inv(s) && s.consumer.Loading? && |s.consumer.loaded| == 2
    ensures |s.data| > 0 && (PaddedAt(s.data, s.consumed) <==> Get16(s.consumer.loaded, 0) == PAD_TYPE)
  {
    hide ProducerInv, Consistent, Get16;
    LoadedFields(s);
  }

  lemma NoPaddingBehindTheType(s: State)
    requires Inv(s) && s.consumer.Loading? && |s.consumer.loaded| > 2
    ensures |s.data| > 0 && !PaddedAt(s.data, s.consumed)
  {
    hide ProducerInv, Consistent, PaddedAt;
  }

  lemma LoadedIsBounded(s: State)
    requires Inv(s) && s.queue != [] && s.consumer.Loading? && |s.consumer.loaded| > 4
    ensures |s.consumer.loaded| <= 10 + |s.queue[0].payload|
  {
    hide ProducerInv, Consistent, PaddedAt;
  }

  /** Loading goes on up to the last byte of the record unless the buffer is too small. */
  lemma LoadIsProgress(s: State, cap: nat)
    requires Inv(s) && s.queue != [] && s.consumer.Loading?
    requires |s.queue[0].payload| <= cap && |s.consumer.loaded| < 10 + |s.queue[0].payload|
    ensures ConsumerReady(s) && OneLess(s, ConsumerStep(s, cap))
  {
    hide RingInv, ProducerInv, ConsumerInv, PaddedAt, LengthFits, Get16;
    ConsumerIsReady(s);
    var l := s.consumer.loaded;
    if |l| == 2 { TypeTellsPadding(s); }
    if |l| > 2 { NoPaddingBehindTheType(s); }
    if |l| >= 4 { LengthIsFirst(s); }
  }

  lemma LastLoaded(s: State, cap: nat)
    requires Inv(s) && s.queue != [] && s.consumer.Loading?
    requires |s.consumer.loaded| == 10 + |s.queue[0].payload|
    ensures StepsToTake(s) == 1
    ensures ConsumerReady(s) && ConsumerStep(s, cap).delivered == s.delivered + [s.queue[0]]
  {
    hide RingInv, ProducerInv, ConsumerInv, PaddedAt, LengthFits, Get16;
    NoPaddingBehindTheType(s);
    LengthIsFirst(s);
    ConsumerTakes(s, cap);
  }

  /** Every step of a consumer whose buffer is large enough brings the first message closer. */
  lemma ConsumerAdvances(s: State, cap: nat)
    requires Inv(s) && s.queue != [] && |s.queue[0].payload| <= cap
    ensures ConsumerReady(s) && |s.data| > 0
    ensures var r := ConsumerStep(s, cap);
            if StepsToTake(s) == 1 then r.delivered == s.delivered + [s.queue[0]] else OneLess(s, r)
  {
    hide RingInv, ProducerInv, ConsumerInv, StepsToTake;
    ConsumerIsReady(s);
    match s.consumer
    case Waiting => LookIsProgress(s, cap);
    case Failed => assert false by { NeverFailed(s); }
    case Seen(_, _, _) => CompareIsProgress(s, cap);
    case Skipping(_, _, _) => SkipIsProgress(s, cap);
    case Loading(_, _, _, loaded) =>
      if |loaded| < 10 + |s.queue[0].payload| {
        LoadIsProgress(s, cap);
      } else {
        LoadedIsBounded(s);
        LastLoaded(s, cap);
      }
  }

  /** A step of the producer neither helps nor hinders the consumer. */
  lemma ProducerIsAside(s: State, kind: nat, payload: seq<Byte>)
    requires Inv(s)
    ensures var r := Apply1(s, Produce(kind, payload));
            && r.delivered == s.delivered && r.consumer == s.consumer && s.queue <= r.queue && |r.data| == |s.data| > 0
            && (s.queue != [] ==> StepsToTake(r) == StepsToTake(s))
  {
    hide RingInv, ProducerInv, ConsumerInv, PaddedAt, SameOn;
    Positive(s);
    ProducerKeeps(s, kind, payload);
    var r := Apply1(s, Produce(kind, payload));
    ProducerTouches(s, kind, payload);
    if s.queue != [] {
      QueueIsLong(s);
      SameSizes(s.data, r.data, s.consumed, s.produced);
      SamePadding(s.data, r.data, s.consumed, s.produced);
    }
  }

  lemma ProducerTouches(s: State, kind: nat, payload: seq<Byte>)
    requires Inv(s)
    ensures var r := Apply1(s, Produce(kind, payload));
            && r.delivered == s.delivered && r.consumer == s.consumer && s.queue <= r.queue && |r.data| == |s.data|
            && r.consumed == s.consumed && r.tail == s.tail
  {
    hide RingInv, ConsumerInv, Stores, Apply, Written, AllSpare;
    Positive(s);
  }

  lemma QueueIsLong(s: State)
    requires Inv(s) && s.queue != []
    ensures s.consumed + 4 <= s.produced
  {
    hide ProducerInv, ConsumerInv, Holds;
    HoldsIsOrdered(s.data[..|s.data|], s.consumed, s.produced, s.queue);
  }

  function Consumes(schedule: seq<Step>): (n: nat)
    ensures n <= |schedule|
  {
    if schedule == [] then 0
    else Consumes(schedule[..|schedule| - 1]) + if schedule[|schedule| - 1].Consume? then 1 else 0
  }

  /** Every read of the schedule offers a buffer of at least n bytes. */
  predicate CapsAtLeast(schedule: seq<Step>, n: nat) {
    forall i :: 0 <= i < |schedule| && schedule[i].Consume? ==> schedule[i].cap >= n
  }

  predicate CapsBelow(schedule: seq<Step>, n: nat) {
    forall i :: 0 <= i < |schedule| && schedule[i].Consume? ==> schedule[i].cap < n
  }

  lemma RunFront(s: State, schedule: seq<Step>)
    requires Inv(s) && schedule != []
    ensures Run(s, schedule) == Apply1(Run(s, schedule[..|schedule| - 1]), schedule[|schedule| - 1])
  {
    hide Inv, Apply1;
  }

  /** Wait-free reading: however the producer's steps are mixed in, the first queued message is delivered
      by exactly the foretold step of the consumer, and none before. */
  lemma {:induction false} ConsumerIsWaitFree(s: State, schedule: seq<Step>)
    requires Inv(s) && s.queue != [] && CapsAtLeast(schedule, |s.queue[0].payload|)
    ensures |s.data| > 0 && StepsToTake(s) >= 1
    ensures var r := Run(s, schedule);
            && (Consumes(schedule) < StepsToTake(s) ==> r.delivered == s.delivered && s.queue <= r.queue)
            && (Consumes(schedule) == StepsToTake(s) ==> r.delivered == s.delivered + [s.queue[0]])
  {
    Positive(s);
    AdvancesBy(s, schedule);
    ConsumerAdvances(s, |s.queue[0].payload|);
  }

  lemma {:induction false} AdvancesBy(s: State, schedule: seq<Step>)
    requires Inv(s) && s.queue != [] && CapsAtLeast(schedule, |s.queue[0].payload|)
    ensures |s.data| > 0
    ensures var r := Run(s, schedule);
            && (Consumes(schedule) < StepsToTake(s) ==>
                  r.delivered == s.delivered && s.queue <= r.queue && |r.data| > 0
                  && StepsToTake(r) == StepsToTake(s) - Consumes(schedule))
            && (Consumes(schedule) == StepsToTake(s) >= 1 ==> r.delivered == s.delivered + [s.queue[0]])
  {
    hide Inv, StepsToTake, Apply1;
    AreaIsThere(s);
    if schedule != [] {
      var front, last := schedule[..|schedule| - 1], schedule[|schedule| - 1];
      AdvancesBy(s, front);
      RunFront(s, schedule);
      AdvancesOne(s, Run(s, front), front, last);
    }
  }

  lemma AreaIsThere(s: State)
    requires Inv(s)
    ensures |s.data| > 0
  {
    Positive(s);
  }

  lemma AdvancesOne(s: State, m: State, front: seq<Step>, last: Step)
    requires Inv(m) && s.queue != [] && |s.data| > 0
    requires last.Consume? ==> last.cap >= |s.queue[0].payload|
    requires Consumes(front) < StepsToTake(s) ==>
               m.delivered == s.delivered && s.queue <= m.queue && |m.data| > 0
               && StepsToTake(m) == StepsToTake(s) - Consumes(front)
    requires Consumes(front) == StepsToTake(s) >= 1 ==> m.delivered == s.delivered + [s.queue[0]]
    ensures var n, r := Consumes(front) + (if last.Consume? then 1 else 0), Apply1(m, last);
            && (n < StepsToTake(s) ==>
                  r.delivered == s.delivered && s.queue <= r.queue && |r.data| > 0
                  && StepsToTake(r) == StepsToTake(s) - n)
            && (n == StepsToTake(s) >= 1 ==> r.delivered == s.delivered + [s.queue[0]])
  {
    hide Inv, StepsToTake;
    match last
    case Produce(kind, payload) => ProducerIsAside(m, kind, payload);
    case Consume(cap) =>
      if Consumes(front) < StepsToTake(s) { ConsumerAdvances(m, cap); }
  }

  /** With a buffer that is too small the first message stays where it is, whatever the producer does. */
  lemma {:induction false} SmallBufferDeliversNothing(s: State, schedule: seq<Step>)
    requires Inv(s) && s.queue != [] && CapsBelow(schedule, |s.queue[0].payload|)
    requires s.consumer.Loading? ==> |s.consumer.loaded| <= 4
    ensures var r := Run(s, schedule);
            r.delivered == s.delivered && s.queue <= r.queue && (r.consumer.Loading? ==> |r.consumer.loaded| <= 4)
  {
    hide Inv, Apply1;
    if schedule != [] {
      var front, last := schedule[..|schedule| - 1], schedule[|schedule| - 1];
      SmallBufferDeliversNothing(s, front);
      RunFront(s, schedule);
      var m := Run(s, front);
      match last
      case Produce(kind, payload) => ProducerIsAside(m, kind, payload);
      case Consume(cap) => SmallBufferStep(m, cap);
    }
  }

  lemma SmallBufferStep(s: State, cap: nat)
    requires Inv(s) && s.queue != [] && cap < |s.queue[0].payload|
    requires s.consumer.Loading? ==> |s.consumer.loaded| <= 4
    ensures var r := Apply1(s, Consume(cap));
            r.delivered == s.delivered && r.queue == s.queue && (r.consumer.Loading? ==> |r.consumer.loaded| <= 4)
  {
    hide RingInv, ProducerInv, ConsumerInv, LengthFits, Get16;
    ConsumerIsReady(s);
    if s.consumer.Loading? && |s.consumer.loaded| == 4 { LengthIsFirst(s); }
  }

  // ---- The producer ----

  /** Whether the message being written fits behind what is in use. */
  predicate Fits(s: State, len: nat)
    requires |s.data| > 0
  {
    var record := RecordSize(len);
    Pad(s.produced, record, |s.data|) + record <= |s.data| - (s.produced - s.consumed)
  }

  /** Bytes stored by a write: four for the padding marker if there is padding, and the record. */
  function StoredBytes(s: State, len: nat): nat
    requires |s.data| > 0
  {
    (if Pad(s.produced, RecordSize(len), |s.data|) != 0 then 4 else 0) + REC_HDR + len
  }

  /** Steps of the producer until a write on its way is published. */
  function StepsToPublish(s: State): int
    requires |s.data| > 0
  {
    match s.producer
    case Idle => 0
    case Checked(_, payload) => StoredBytes(s, |payload|) + 2
    case Storing(_, _, _, stores, done) => |stores| - done + 1
  }

  /** A write that will be published. */
  predicate UnderWay(s: State)
    requires |s.data| > 0
  {
    s.producer.Storing? || (s.producer.Checked? && Fits(s, |s.producer.payload|))
  }

  /** The message the write in progress will append. */
  function PendingMessage(s: State): Msg {
    Msg(s.call.kind, |s.sent| % WRAP, s.call.payload)
  }

  lemma SpaceLeft(s: State)
    requires Inv(s)
    ensures |s.data| > 0 && s.head < WRAP && s.tail < WRAP && AreaSize(|s.data|)
    ensures Sub32(s.head, s.tail) == s.produced - s.consumed <= |s.data|
    ensures s.head == s.produced % WRAP
  {
    hide ProducerInv, ConsumerInv, Holds;
    ProducerView(s.data, |s.data|, s.head, s.tail, s.produced, s.consumed, s.queue);
  }

  lemma StoresCount(s: State, m: Msg)
    requires Inv(s) && ValidMsg(m)
    ensures |s.data| > 0 && s.head < WRAP && s.tail < WRAP
    ensures var pad := Pad(s.head, RecordSize(|m.payload|), |s.data|);
            |Stores(s.head, pad, m, |s.data|)| == StoredBytes(s, |m.payload|)
  {
    hide Inv, Encoded, Marker, StoresAt, Pad, RecordSize;
    SpaceLeft(s);
    MarkerIsAWord();
    PadOfWrapped(s.produced, RecordSize(|m.payload|), |s.data|);
  }

  /** The check of a write: it goes on exactly when padding and record fit. */
  lemma CheckDecides(s: State, kind: nat, payload: seq<Byte>)
    requires Inv(s) && s.producer.Checked?
    ensures |s.data| > 0
    ensures var r := Apply1(s, Produce(kind, payload));
            && r.sent == s.sent && r.produced == s.produced && r.consumed == s.consumed && |r.data| == |s.data|
            && r.call == s.call
            && (if Fits(s, |s.producer.payload|) then
                  r.producer.Storing? && StepsToPublish(r) == StepsToPublish(s) - 1 else r.producer.Idle?)
  {
    hide RingInv, ConsumerInv, Stores, Pad, RecordSize;
    Positive(s);
    SpaceLeft(s);
    var p := s.producer.payload;
    PadOfWrapped(s.produced, RecordSize(|p|), |s.data|);
    StoresCount(s, Msg(s.producer.kind, s.seqNo, p));
  }

  lemma StoreIsProgress(s: State, kind: nat, payload: seq<Byte>)
    requires Inv(s) && s.producer.Storing?
    ensures |s.data| > 0 && s.producer.done <= |s.producer.stores|
    ensures var r := Apply1(s, Produce(kind, payload));
            if s.producer.done < |s.producer.stores| then
              r.producer.Storing? && StepsToPublish(r) == StepsToPublish(s) - 1 && r.sent == s.sent && r.call == s.call
              && |r.data| > 0
            else
              r.producer.Idle? && r.sent == s.sent + [PendingMessage(s)]
  {
    hide RingInv, ConsumerInv, Stores, Pad, RecordSize, AreaSize, Apply, Written, AllSpare;
    Positive(s);
  }

  /** A step of the consumer only makes more room. */
  lemma ConsumerIsAside(s: State, cap: nat)
    requires Inv(s)
    ensures var r := Apply1(s, Consume(cap));
            && |r.data| == |s.data| > 0 && r.producer == s.producer && r.sent == s.sent && r.call == s.call
            && r.produced == s.produced && r.consumed >= s.consumed
  {
    hide RingInv, ProducerInv, ConsumerInv, LengthFits, Get16, Get32;
    Positive(s);
    ConsumerIsReady(s);
  }

  function Produces(schedule: seq<Step>): (n: nat)
    ensures n == |schedule| - Consumes(schedule)
  {
    if schedule == [] then 0
    else Produces(schedule[..|schedule| - 1]) + if schedule[|schedule| - 1].Produce? then 1 else 0
  }

  /** What holds while a write is under way and once it is published. */
  ghost predicate OnItsWay(s: State, r: State, steps: nat)
    requires |s.data| > 0
  {
    && (steps < StepsToPublish(s) ==>
          && r.sent == s.sent && r.call == s.call && |r.data| > 0
          && UnderWay(r) && StepsToPublish(r) == StepsToPublish(s) - steps)
    && (steps == StepsToPublish(s) ==> r.producer.Idle? && r.sent == s.sent + [PendingMessage(s)])
  }

  /** Wait-free writing: once the check has found room, however the consumer's steps are mixed in, the message is
      published by exactly the foretold step of the producer, and not before. */
  lemma {:induction false} ProducerIsWaitFree(s: State, schedule: seq<Step>)
    requires Inv(s) && |s.data| > 0 && UnderWay(s)
    ensures OnItsWay(s, Run(s, schedule), Produces(schedule))
  {
    hide Inv, Apply1, StepsToPublish, Fits, UnderWay;
    PublishIsAhead(s);
    if schedule != [] {
      var front, last := schedule[..|schedule| - 1], schedule[|schedule| - 1];
      ProducerIsWaitFree(s, front);
      RunFront(s, schedule);
      OnItsWayStep(s, Run(s, front), Produces(front), last);
    }
  }

  lemma PublishIsAhead(s: State)
    requires Inv(s) && |s.data| > 0 && UnderWay(s)
    ensures StepsToPublish(s) >= 1
  {
    hide RingInv, ConsumerInv, Fits, Stores, Apply, Written, AllSpare;
    Positive(s);
  }

  lemma OnItsWayStep(s: State, m: State, steps: nat, last: Step)
    requires Inv(m) && |s.data| > 0 && OnItsWay(s, m, steps)
    ensures OnItsWay(s, Apply1(m, last), steps + if last.Produce? then 1 else 0)
  {
    hide Inv, Apply1, Pad, RecordSize;
    match last
    case Consume(cap) => ConsumerIsAside(m, cap);
    case Produce(kind, payload) =>
      if steps < StepsToPublish(s) {
        if m.producer.Checked? { CheckDecides(m, kind, payload); } else { StoreIsProgress(m, kind, payload); }
      }
  }

  // ---- One core alone ----

  function Times(n: nat, step: Step): (schedule: seq<Step>)
    ensures |schedule| == n && forall i :: 0 <= i < n ==> schedule[i] == step
  {
    seq(n, _ => step)
  }

  lemma {:induction false} CountTimes(n: nat, step: Step)
    ensures Consumes(Times(n, step)) == if step.Consume? then n else 0
  {
    if n > 0 {
      CountTimes(n - 1, step);
      assert Times(n, step)[..n - 1] == Times(n - 1, step);
    }
  }

  lemma {:induction false} RunJoined(s: State, a: seq<Step>, b: seq<Step>)
    requires Inv(s)
    ensures Run(s, a + b) == Run(Run(s, a), b)
  {
    hide Inv, Apply1;
    if b == [] {
      assert a + b == a;
    } else {
      var front := b[..|b| - 1];
      assert (a + b)[..|a + b| - 1] == a + front;
      RunJoined(s, a, front);
      RunFront(s, a + b);
      RunFront(Run(s, a), b);
    }
  }

  /** A consumer that is about to read, alone: the first message is delivered after 13 steps and one per payload byte,
      and three or six more to pass padding at the tail. */
  lemma {:induction false} ConsumerAlone(s: State, cap: nat)
    requires Inv(s) && s.queue != [] && s.consumer.Waiting? && |s.queue[0].payload| <= cap
    ensures |s.data| > 0
    ensures var n := PaddingSteps(s) + 13 + |s.queue[0].payload|;
            Run(s, Times(n, Consume(cap))).delivered == s.delivered + [s.queue[0]]
  {
    hide Inv;
    AreaIsThere(s);
    var n := PaddingSteps(s) + 13 + |s.queue[0].payload|;
    CountTimes(n, Consume(cap));
    ConsumerIsWaitFree(s, Times(n, Consume(cap)));
  }

  /** Steps of a whole write. */
  function WriteSteps(s: State, len: nat): nat
    requires |s.data| > 0
  {
    StoredBytes(s, len) + 3
  }

  /** A producer that is alone and between calls: a legal message is appended to what was sent after the stated number
      of steps if and only if padding and record fit in the free space. */
  lemma {:induction false} ProducerAlone(s: State, kind: nat, payload: seq<Byte>)
    requires Inv(s) && s.producer.Idle? && kind < PAD_TYPE && |payload| <= MAX_PAYLOAD
    ensures |s.data| > 0
    ensures var r := Run(s, Times(WriteSteps(s, |payload|), Produce(kind, payload)));
            r.sent == (if Fits(s, |payload|) then s.sent + [Msg(kind, |s.sent| % WRAP, payload)] else s.sent)
  {
    hide Inv, Apply1, Pad, RecordSize;
    AreaIsThere(s);
    var step := Produce(kind, payload);
    var n := WriteSteps(s, |payload|);
    if Fits(s, |payload|) {
      WriteBegins(s, kind, payload);
      var m := Apply1(s, step);
      ProducerIsWaitFree(m, Times(n - 1, step));
      CountTimes(n - 1, step);
      assert Times(n, step) == [step] + Times(n - 1, step);
      RunJoined(s, [step], Times(n - 1, step));
      RunFront(s, [step]);
    } else {
      NoRoomNoMessage(s, kind, payload, n);
    }
  }

  lemma WriteBegins(s: State, kind: nat, payload: seq<Byte>)
    requires Inv(s) && s.producer.Idle? && kind < PAD_TYPE && |payload| <= MAX_PAYLOAD
    ensures Apply1(s, Produce(kind, payload)) == s.(producer := Checked(kind, payload), call := Call(kind, payload))
  {
    hide RingInv, ConsumerInv;
    Positive(s);
  }

  /** Without room a producer alone sends nothing however often it tries. */
  lemma {:induction false} NoRoomNoMessage(s: State, kind: nat, payload: seq<Byte>, n: nat)
    requires Inv(s) && s.producer.Idle? && kind < PAD_TYPE && |payload| <= MAX_PAYLOAD
    requires |s.data| > 0 && !Fits(s, |payload|)
    ensures var r := Run(s, Times(n, Produce(kind, payload)));
            && r.sent == s.sent && |r.data| == |s.data| && r.produced == s.produced && r.consumed == s.consumed
            && (r.producer.Idle? || r.producer == Checked(kind, payload))
  {
    hide Inv, Apply1, StoredBytes, Pad, RecordSize;
    if n > 0 {
      var step := Produce(kind, payload);
      NoRoomNoMessage(s, kind, payload, n - 1);
      assert Times(n, step)[..n - 1] == Times(n - 1, step);
      RunFront(s, Times(n, step));
      var m := Run(s, Times(n - 1, step));
      if m.producer.Idle? { WriteBegins(m, kind, payload); } else { CheckDecides(m, kind, payload); }
    }
  }

  /** An illegal type or length changes nothing. */
  lemma IllegalIsRefused(s: State, kind: nat, payload: seq<Byte>)
    requires Inv(s) && s.producer.Idle? && (kind >= PAD_TYPE || |payload| > MAX_PAYLOAD)
    ensures Apply1(s, Produce(kind, payload)) == s
  {
    hide RingInv, ConsumerInv;
    Positive(s);
  }

  // ---- Both cores, one after the other ----

  lemma {:induction false} ConsumerUntouched(s: State, n: nat, kind: nat, payload: seq<Byte>)
    requires Inv(s)
    ensures var r := Run(s, Times(n, Produce(kind, payload)));
            r.delivered == s.delivered && r.consumer == s.consumer
  {
    hide Inv, Apply1;
    if n > 0 {
      var step := Produce(kind, payload);
      ConsumerUntouched(s, n - 1, kind, payload);
      assert Times(n, step)[..n - 1] == Times(n - 1, step);
      RunFront(s, Times(n, step));
      ProducerIsAside(Run(s, Times(n - 1, step)), kind, payload);
    }
  }

  lemma EmptyFits(s: State, len: nat)
    requires Inv(s) && s.queue == [] && |s.data| >= 2048 && len <= MAX_PAYLOAD
    ensures Fits(s, len)
  {
    hide ProducerInv, ConsumerInv, Pad, RecordSize;
    EmptyHolds(s.data[..|s.data|], s.consumed, s.produced);
    LargeAreaAccepts(s.produced, len, |s.data|);
  }

  lemma SentIsDeliveredAndQueued(s: State)
    requires Inv(s)
    ensures s.sent == s.delivered + s.queue
  {
  }

  /** What a lone write leaves in an empty ring. */
  lemma AfterLoneWrite(s: State, kind: nat, payload: seq<Byte>)
    requires Inv(s) && s.producer.Idle? && s.queue == [] && |s.data| >= 2048
    requires kind < PAD_TYPE && |payload| <= MAX_PAYLOAD
    ensures var m := Run(s, Times(WriteSteps(s, |payload|), Produce(kind, payload)));
            && m.delivered == s.delivered && m.consumer == s.consumer
            && m.queue == [Msg(kind, |s.sent| % WRAP, payload)]
  {
    hide Inv, Fits, StoredBytes, Apply1, Run;
    AreaIsThere(s);
    EmptyFits(s, |payload|);
    ProducerAlone(s, kind, payload);
    ConsumerUntouched(s, WriteSteps(s, |payload|), kind, payload);
    var m := Run(s, Times(WriteSteps(s, |payload|), Produce(kind, payload)));
    SentIsDeliveredAndQueued(s);
    SentIsDeliveredAndQueued(m);
    assert m.queue == m.sent[|s.sent|..];
  }

  /** Through an empty ring of 2048 bytes or more every legal message gets through: written by the one core, then
      read by the other, it is delivered with its number. */
  lemma {:induction false} MessageGetsThrough(s: State, kind: nat, payload: seq<Byte>, cap: nat)
    requires Inv(s) && s.producer.Idle? && s.consumer.Waiting? && s.queue == [] && |s.data| >= 2048
    requires kind < PAD_TYPE && |payload| <= MAX_PAYLOAD && |payload| <= cap
    ensures var write := Times(WriteSteps(s, |payload|), Produce(kind, payload));
            exists n: nat :: Run(s, write + Times(n, Consume(cap))).delivered
                             == s.delivered + [Msg(kind, |s.sent| % WRAP, payload)]
  {
    hide Inv, StoredBytes, PaddingSteps, Apply1, Run;
    var write := Times(WriteSteps(s, |payload|), Produce(kind, payload));
    AfterLoneWrite(s, kind, payload);
    var m := Run(s, write);
    ConsumerAlone(m, cap);
    var n := PaddingSteps(m) + 13 + |payload|;
    RunJoined(s, write, Times(n, Consume(cap)));
  }
}
