/** The bus as the client sees it: what happens while it sends and waits, and the exchange of one request
    with its retries, as functions of the bus and its future. */
module CanBus {

  import opened Bytes
  import opened Image
  import opened CanBoot
  import opened FlashProtocol

  /** A frame of another station; the client looks at its identifier first. */
  type ForeignFrame = f: Frame | f.id != ID_RESPONSE witness Frame(0, 0, seq(MAX_DLC, _ => 0))

  datatype Outcome = Take | Silence | Failure | Foreign(frame: ForeignFrame)

  /** What happens on the bus while the client waits once, and how the wait ends. */
  datatype Turn = Turn(events: seq<Event>, outcome: Outcome)

  datatype Reception = Received(frame: Frame) | TimedOut | Failed

  datatype Reply = Answer(frame: Frame) | NoResponse | BusError

  /** The bus with its future: the results of the coming sends and waits. When the future is used up, sends
      succeed and nothing arrives any more. */
  datatype World = World(link: Link, sends: seq<bool>, turns: seq<Turn>)

  function Sent(w: World, request: Frame): (World, bool) {
    var ok := w.sends == [] || w.sends[0];
    (World(if ok then w.link.(toTarget := w.link.toTarget + [request]) else w.link,
           if w.sends == [] then [] else w.sends[1..], w.turns),
     ok)
  }

  /** One wait. */
  function Heard(w: World): (r: (World, Reception))
    requires Safe(w.link.target)
    ensures Safe(r.0.link.target) && r.0.sends == w.sends
    ensures r.0.turns == if w.turns == [] then [] else w.turns[1..]
    ensures w.turns == [] ==> r.1 == TimedOut
  {
    hide Safe;
    if w.turns == [] then (w, TimedOut)
    else
      var before := Evolve(w.link, w.turns[0].events);
      var v := World(before, w.sends, w.turns[1..]);
      match w.turns[0].outcome
      case Take =>
        if before.toClient == [] then (v, TimedOut)
        else (v.(link := before.(toClient := before.toClient[1..])), Received(before.toClient[0]))
      case Silence => (v, TimedOut)
      case Failure => (v, Failed)
      case Foreign(f) => (v, Received(f))
  }

  /** Waiting until a frame matches, the time is over or the bus fails. */
  function Waited(w: World, matches: Frame -> bool): (r: (World, Reception))
    requires Safe(w.link.target)
    ensures Safe(r.0.link.target) && (r.1.Received? ==> matches(r.1.frame))
    decreases |w.turns|
  {
    hide Safe;
    var (v, rx) := Heard(w);
    if rx.Received? && !matches(rx.frame) then Waited(v, matches) else (v, rx)
  }

  /** Up to n attempts at one request. */
  function Exchange(w: World, request: Frame, matches: Frame -> bool, n: nat): (r: (World, Reply))
    requires Safe(w.link.target)
    ensures Safe(r.0.link.target) && (r.1.Answer? ==> matches(r.1.frame))
    decreases n
  {
    hide Safe;
    if n == 0 then (w, NoResponse)
    else
      var (v, ok) := Sent(w, request);
      if !ok then (v, BusError)
      else
        var (u, rx) := Waited(v, matches);
        match rx
        case TimedOut => Exchange(u, request, matches, n - 1)
        case Failed => (u, BusError)
        case Received(f) => (u, Answer(f))
  }

  /** The client's test for the response to a request. */
  function Matcher(opcode: Byte, seqNo: Byte): Frame -> bool {
    r => Match(opcode, seqNo, r)
  }

  // ---- The download's invariant over an exchange ----

  /** The test of step p, for which the exchange is about to run. */
  ghost predicate TestsFor(g: Transfer, p: nat, matches: Frame -> bool) {
    forall r :: matches(r) <==> Answers(g.image, p, r)
  }

  /** What an answer to step p is worth. */
  ghost predicate Worth(g: Transfer, l: Link, p: nat, r: Frame) {
    AnswerAt(g, l, p, r) && Answers(g.image, p, r) && forall x :: x in l.toClient ==> Answers(g.image, p, x)
  }

  lemma {:induction false} WaitedKeepsInv(g: Transfer, w: World, p: nat, matches: Frame -> bool)
    requires Safe(w.link.target) && Inv(g, w.link, p) && TestsFor(g, p, matches)
    ensures var (v, rx) := Waited(w, matches);
            Inv(g, v.link, p) && (rx.Received? ==> Worth(g, v.link, p, rx.frame))
    decreases |w.turns|
  {
    hide Safe, Pending, Accepted, AnswerAt, Answers, Flashable, Happen, Evolve;
    if w.turns != [] {
      EvolveKeepsInv(g, w.link, w.turns[0].events, p);
      var before := Evolve(w.link, w.turns[0].events);
      if before.toClient != [] { TakeKeepsInv(g, before, p); }
      var (v, rx) := Heard(w);
      if rx.Received? {
        ForeignDoesNotAnswer(g.image, p, rx.frame);
        if !matches(rx.frame) { WaitedKeepsInv(g, v, p, matches); }
      }
    }
  }

  lemma ForeignDoesNotAnswer(image: seq<Byte>, p: nat, r: Frame)
    ensures Answers(image, p, r) ==> r.id == ID_RESPONSE
  {
    hide Opcode, Body;
  }

  /** However an exchange ends, the invariant holds, and an answer is one to this step. */
  lemma {:induction false} ExchangeKeepsInv(g: Transfer, w: World, p: nat, matches: Frame -> bool, n: nat)
    requires Safe(w.link.target) && Inv(g, w.link, p) && TestsFor(g, p, matches)
    ensures var (v, reply) := Exchange(w, Request(g.image, p), matches, n);
            Inv(g, v.link, p) && (reply.Answer? ==> Worth(g, v.link, p, reply.frame))
    decreases n
  {
    hide Safe, Inv, Request, Worth, TestsFor, Waited;
    if n > 0 {
      var (v, ok) := Sent(w, Request(g.image, p));
      SendKeepsInv(g, w.link, p);
      if ok {
        WaitedKeepsInv(g, v, p, matches);
        var (u, rx) := Waited(v, matches);
        if rx.TimedOut? { ExchangeKeepsInv(g, u, p, matches, n - 1); }
      }
    }
  }

  // ---- Losses ----

  /** What becomes of one attempt on an otherwise empty bus. */
  datatype Fate = RequestLost | AnswerLost | Answered

  function TurnOf(f: Fate): Turn {
    match f
    case RequestLost => Turn([LoseRequest(0)], Silence)
    case AnswerLost => Turn([Deliver, LoseResponse(0)], Silence)
    case Answered => Turn([Deliver], Take)
  }

  function Turns(fs: seq<Fate>): seq<Turn> {
    seq(|fs|, i requires 0 <= i < |fs| => TurnOf(fs[i]))
  }

  /** The attempts of one exchange: it ends with the first answered one, or with the last allowed. */
  predicate Course(fs: seq<Fate>, allowed: nat) {
    |fs| <= allowed && (forall i :: 0 <= i < |fs| - 1 ==> fs[i] != Answered) && (Succeeds(fs) || |fs| == allowed)
  }

  /** One of the attempts is answered. */
  predicate Succeeds(fs: seq<Fate>) {
    Answered in fs
  }

  /** One of the attempts reaches the target. */
  predicate Delivered(fs: seq<Fate>) {
    exists i :: 0 <= i < |fs| && fs[i] != RequestLost
  }

  /** The first attempt that reaches the target is answered. */
  predicate Clean(fs: seq<Fate>) {
    Succeeds(fs) && AnswerLost !in fs
  }

  /** Nothing in flight, sends succeed, and these are the coming attempts. */
  predicate Scripted(w: World, fs: seq<Fate>) {
    w.link.toTarget == [] && w.link.toClient == [] && w.sends == [] && |fs| <= |w.turns| && w.turns[..|fs|] == Turns(fs)
  }

  predicate IsChunk(image: seq<Byte>, p: nat) {
    1 <= p <= Chunks(image)
  }

  /** How one attempt at step p ends; before says whether the target has accepted the step already. */
  lemma OneAttempt(g: Transfer, l: Link, p: nat, before: bool, f: Fate)
    requires Safe(l.target) && Flashable(g.image, g.t0) && Willing(g.image, g.t0) && p <= Chunks(g.image) + 1
    requires TargetAt(g.image, g.t0, l.target, if before then p + 1 else p) && l.toTarget == [] && l.toClient == []
    ensures var m := Evolve(l.(toTarget := [Request(g.image, p)]), TurnOf(f).events);
            m.toTarget == [] &&
            match f {
              case RequestLost => m == l
              case AnswerLost => TargetAt(g.image, g.t0, m.target, p + 1) && m.toClient == []
              case Answered =>
                TargetAt(g.image, g.t0, m.target, p + 1) && |m.toClient| == 1 &&
                var r := m.toClient[0];
                Answers(g.image, p, r) && (Positive(r) <==> !before || IsChunk(g.image, p)) &&
                (!Positive(r) ==> r.data[1] == Code(BadState))
            }
  {
    hide Safe, TargetAt, Answers, Request, Flashable, Positive, Willing, RepeatRefused, Handle, Addressed;
    var request := Request(g.image, p);
    var sent := l.(toTarget := [request]);
    TargetStep(g.image, g.t0, l.target, p, if before then p + 1 else p);
    if before { RepeatIsOkOnlyForChunks(g.image, g.t0, l.target, p); }
    TwoEvents(sent, f);
  }

  lemma TwoEvents(l: Link, f: Fate)
    requires Safe(l.target)
    ensures Evolve(l, TurnOf(f).events) ==
            match f {
              case RequestLost => Happen(l, LoseRequest(0))
              case AnswerLost => (HappenKeepsSafe(l, Deliver); Happen(Happen(l, Deliver), LoseResponse(0)))
              case Answered => Happen(l, Deliver)
            }
  {
    hide Safe, Happen;
    var e := TurnOf(f).events;
    assert e[..0] == [] && Evolve(l, []) == l;
    assert e[..1] == [e[0]] && e[..1][..0] == [];
    HappenKeepsSafe(l, e[0]);
    assert Evolve(l, e[..1]) == Happen(l, e[0]);
    assert |e| == 1 ==> e == e[..1];
  }

  /** The first attempt of a script, as the exchange sees it. */
  lemma FirstAttempt(g: Transfer, w: World, p: nat, matches: Frame -> bool, before: bool, fs: seq<Fate>)
    requires Safe(w.link.target) && Flashable(g.image, g.t0) && Willing(g.image, g.t0) && p <= Chunks(g.image) + 1
    requires TargetAt(g.image, g.t0, w.link.target, if before then p + 1 else p) && TestsFor(g, p, matches)
    requires fs != [] && Scripted(w, fs)
    ensures var (v, ok) := Sent(w, Request(g.image, p));
            ok && v.link.target == w.link.target &&
            var (u, rx) := Waited(v, matches);
            u.link.toTarget == [] && u.link.toClient == [] && u.sends == [] && u.turns == w.turns[1..] &&
            match fs[0] {
              case RequestLost => rx == TimedOut && u.link.target == w.link.target
              case AnswerLost => rx == TimedOut && TargetAt(g.image, g.t0, u.link.target, p + 1)
              case Answered =>
                rx.Received? && TargetAt(g.image, g.t0, u.link.target, p + 1) &&
                (Positive(rx.frame) <==> !before || IsChunk(g.image, p)) &&
                (!Positive(rx.frame) ==> rx.frame.data[1] == Code(BadState))
            }
  {
    hide Safe, TargetAt, Answers, Request, Flashable, Positive, Willing, Evolve, IsChunk;
    assert w.turns[0] == w.turns[..|fs|][0] == TurnOf(fs[0]);
    OneAttempt(g, w.link, p, before, fs[0]);
    var (v, ok) := Sent(w, Request(g.image, p));
    assert v.link == w.link.(toTarget := [Request(g.image, p)]);
    var (x, rx) := Heard(v);
    assert rx.Received? ==> matches(rx.frame);
  }

  lemma RestOfCourse(fs: seq<Fate>, n: nat)
    requires fs != [] && Course(fs, n)
    ensures n > 0 && (fs[0] == Answered ==> fs == [Answered]) && (fs[0] != Answered ==> Course(fs[1..], n - 1))
    ensures Succeeds(fs) <==> fs[0] == Answered || Succeeds(fs[1..])
    ensures Clean(fs) <==> fs[0] == Answered || (fs[0] == RequestLost && Clean(fs[1..]))
    ensures Delivered(fs) <==> fs[0] != RequestLost || Delivered(fs[1..])
  {
    var rest := fs[1..];
    assert fs == [fs[0]] + rest;
    assert forall i :: 0 <= i < |rest| ==> rest[i] == fs[i + 1];
    if Delivered(fs) && fs[0] == RequestLost {
      var i :| 0 <= i < |fs| && fs[i] != RequestLost;
      assert rest[i - 1] != RequestLost;
    }
  }

  lemma RestOfScript(w: World, u: World, fs: seq<Fate>)
    requires fs != [] && Scripted(w, fs)
    requires u.link.toTarget == [] && u.link.toClient == [] && u.sends == [] && u.turns == w.turns[1..]
    ensures Scripted(u, fs[1..]) && u.turns[|fs[1..]|..] == w.turns[|fs|..]
  {
    hide TurnOf;
    assert u.turns[..|fs| - 1] == w.turns[..|fs|][1..];
    assert Turns(fs)[1..] == Turns(fs[1..]);
  }

  /** What a whole exchange comes to: it succeeds exactly when one of its attempts is answered. For a chunk
      the answer is always positive. For START and END it is positive exactly when no earlier attempt was
      delivered; otherwise it is BAD_STATE although the target has accepted the step. */
  lemma {:induction false} ScriptedExchange(
    g: Transfer, w: World, p: nat, matches: Frame -> bool, before: bool, fs: seq<Fate>, n: nat)
    requires Safe(w.link.target) && Flashable(g.image, g.t0) && Willing(g.image, g.t0) && p <= Chunks(g.image) + 1
    requires TargetAt(g.image, g.t0, w.link.target, if before then p + 1 else p) && TestsFor(g, p, matches)
    requires Scripted(w, fs) && Course(fs, n)
    ensures var (v, reply) := Exchange(w, Request(g.image, p), matches, n);
            Scripted(v, []) && v.turns == w.turns[|fs|..] &&
            reply != BusError && (reply.Answer? <==> Succeeds(fs)) &&
            (reply.Answer? ==>
               (Positive(reply.frame) <==> (!before && Clean(fs)) || IsChunk(g.image, p)) &&
               (!Positive(reply.frame) ==> reply.frame.data[1] == Code(BadState))) &&
            if Delivered(fs) then TargetAt(g.image, g.t0, v.link.target, p + 1) else v.link.target == w.link.target
    decreases n
  {
    hide Safe, TargetAt, Request, Flashable, Positive, Willing, Waited, IsChunk, Sent, TestsFor, Delivered, Clean;
    if fs == [] {
      NoAttempts();
    } else {
      RestOfCourse(fs, n);
      FirstAttempt(g, w, p, matches, before, fs);
      var (v, ok) := Sent(w, Request(g.image, p));
      var (u, rx) := Waited(v, matches);
      RestOfScript(w, u, fs);
      if fs[0] != Answered {
        ScriptedExchange(g, u, p, matches, before || fs[0] == AnswerLost, fs[1..], n - 1);
      }
    }
  }

  lemma NoAttempts()
    ensures !Delivered([]) && !Clean([]) && !Succeeds([])
  {
  }

  // ---- A whole download ----

  datatype FlashResult = Done | Invalid(check: Check) | Refused(status: Byte) | Lost | SendOrReceiveError

  /** How a step ends for the client: a chunk needs one answered attempt, START and END need the first
      delivered attempt to be answered. */
  function StepResult(image: seq<Byte>, p: nat, fs: seq<Fate>): FlashResult {
    if !Succeeds(fs) then Lost else if IsChunk(image, p) || Clean(fs) then Done else Refused(Code(BadState))
  }

  function Flat(plan: seq<seq<Fate>>): seq<Fate> {
    if plan == [] then [] else plan[0] + Flat(plan[1..])
  }

  /** What becomes of the attempts of every step of a download. */
  ghost predicate Planned(w: World, image: seq<Byte>, plan: seq<seq<Fate>>, allowed: nat) {
    |plan| == Chunks(image) + 2 && (forall q :: 0 <= q < |plan| ==> Course(plan[q], allowed)) && Scripted(w, Flat(plan))
  }

  predicate Passes(image: seq<Byte>, plan: seq<seq<Fate>>, q: nat)
    requires q < |plan|
  {
    StepResult(image, q, plan[q]) == Done
  }

  ghost predicate PassedBelow(image: seq<Byte>, plan: seq<seq<Fate>>, p: nat)
    requires p <= |plan|
  {
    forall q :: 0 <= q < p ==> Passes(image, plan, q)
  }

  /** Done when every step passes, else the result of the first step that does not. */
  ghost predicate EndsAsPlanned(image: seq<Byte>, plan: seq<seq<Fate>>, result: FlashResult, p: nat) {
    if result.Done? then PassedBelow(image, plan, |plan|)
    else p < |plan| && PassedBelow(image, plan, p) && !Passes(image, plan, p) && result == StepResult(image, p, plan[p])
  }

  /** The download is about to run step p of the plan. */
  ghost predicate OnPlan(g: Transfer, w: World, plan: seq<seq<Fate>>, p: nat, allowed: nat) {
    |plan| == Chunks(g.image) + 2 && p <= |plan| && (forall q :: 0 <= q < |plan| ==> Course(plan[q], allowed)) &&
    TargetAt(g.image, g.t0, w.link.target, p) && Scripted(w, Flat(plan[p..])) && PassedBelow(g.image, plan, p)
  }

  lemma FirstOfScript(w: World, a: seq<Fate>, b: seq<Fate>)
    requires Scripted(w, a + b)
    ensures Scripted(w, a)
  {
    hide TurnOf;
    assert w.turns[..|a|] == w.turns[..|a + b|][..|a|];
    assert Turns(a + b)[..|a|] == Turns(a);
  }

  lemma SecondOfScript(w: World, v: World, a: seq<Fate>, b: seq<Fate>)
    requires Scripted(w, a + b) && Scripted(v, []) && v.turns == w.turns[|a|..]
    ensures Scripted(v, b)
  {
    hide TurnOf;
    assert v.turns[..|b|] == w.turns[..|a + b|][|a|..];
    assert Turns(a + b)[|a|..] == Turns(b);
  }

  lemma FlatStep(plan: seq<seq<Fate>>, p: nat)
    requires p < |plan|
    ensures Flat(plan[p..]) == plan[p] + Flat(plan[p + 1..])
  {
    assert plan[p..][1..] == plan[p + 1..];
  }

  lemma PlanStarts(g: Transfer, w: World, plan: seq<seq<Fate>>, allowed: nat)
    requires Planned(w, g.image, plan, allowed) && TargetAt(g.image, g.t0, w.link.target, 0)
    ensures OnPlan(g, w, plan, 0, allowed)
  {
    hide TargetAt, Scripted, Course;
    assert plan[0..] == plan;
  }

  lemma PlanGives(g: Transfer, w: World, plan: seq<seq<Fate>>, p: nat, allowed: nat)
    requires OnPlan(g, w, plan, p, allowed) && p < |plan|
    ensures Scripted(w, plan[p]) && Course(plan[p], allowed) && TargetAt(g.image, g.t0, w.link.target, p)
  {
    hide TargetAt, Scripted, Course;
    FlatStep(plan, p);
    FirstOfScript(w, plan[p], Flat(plan[p + 1..]));
  }

  /** A step that came out as its course says leaves the plan at the next step, or ends it. */
  lemma PlanMoves(g: Transfer, w: World, v: World, plan: seq<seq<Fate>>, p: nat, allowed: nat, result: FlashResult)
    requires OnPlan(g, w, plan, p, allowed) && p < |plan| && |plan[p]| <= |w.turns|
    requires result == StepResult(g.image, p, plan[p]) && Scripted(v, []) && v.turns == w.turns[|plan[p]|..]
    requires if Delivered(plan[p]) then TargetAt(g.image, g.t0, v.link.target, p + 1)
             else v.link.target == w.link.target
    ensures result.Done? ==> OnPlan(g, v, plan, p + 1, allowed)
    ensures result.Done? && p + 1 == |plan| ==> EndsAsPlanned(g.image, plan, result, p)
    ensures !result.Done? ==> EndsAsPlanned(g.image, plan, result, p)
  {
    hide TargetAt, Scripted, Course, Clean;
    FlatStep(plan, p);
    SecondOfScript(w, v, plan[p], Flat(plan[p + 1..]));
    if Succeeds(plan[p]) {
      var i :| 0 <= i < |plan[p]| && plan[p][i] == Answered;
      assert Delivered(plan[p]);
    }
    assert Passes(g.image, plan, p) <==> result.Done?;
  }

  lemma ScriptIsThere(w: World, fs: seq<Fate>)
    requires Scripted(w, fs)
    ensures |fs| <= |w.turns|
  {
  }

  /** Success is exactly every step passing. */
  lemma DoneIffAllPass(image: seq<Byte>, plan: seq<seq<Fate>>, result: FlashResult, p: nat)
    requires EndsAsPlanned(image, plan, result, p)
    ensures result.Done? <==> forall q :: 0 <= q < |plan| ==> Passes(image, plan, q)
    ensures !result.Done? ==> p < |plan|
  {
  }

  function AnsweredAtOnce(n: nat): (plan: seq<seq<Fate>>)
    ensures |plan| == n && forall q :: 0 <= q < n ==> plan[q] == [Answered]
  {
    seq(n, _ => [Answered])
  }

  lemma {:induction false} FlatAtOnce(n: nat)
    ensures Flat(AnsweredAtOnce(n)) == seq(n, _ => Answered)
  {
    if n > 0 {
      assert AnsweredAtOnce(n)[1..] == AnsweredAtOnce(n - 1);
      FlatAtOnce(n - 1);
    }
  }

  /** On a bus that loses nothing the plan is that every step is answered at once, and every step passes. */
  lemma LosslessPlanPasses(w: World, image: seq<Byte>, allowed: nat)
    requires allowed > 0 && Scripted(w, seq(Chunks(image) + 2, _ => Answered))
    ensures var plan := AnsweredAtOnce(Chunks(image) + 2);
            Planned(w, image, plan, allowed) && forall q :: 0 <= q < |plan| ==> Passes(image, plan, q)
  {
    hide Scripted;
    FlatAtOnce(Chunks(image) + 2);
  }

  /** A delivered START or END whose answer is lost: a repeat is answered, and the download still fails. */
  lemma LostAnswerFails(image: seq<Byte>, p: nat, fs: seq<Fate>)
    requires !IsChunk(image, p) && Succeeds(fs) && AnswerLost in fs
    ensures StepResult(image, p, fs) == Refused(Code(BadState)) && Delivered(fs)
  {
    var i :| 0 <= i < |fs| && fs[i] == AnswerLost;
  }
}
