/** Meaning of the soft-decision decoder: the path metrics, the survivor the traceback follows, and
    why that survivor is a most likely information word. */
module Viterbi {

  import opened ConvCode

  newtype Int8 = x: int | -0x80 <= x < 0x80
  newtype Int32 = x: int | -0x8000_0000 <= x < 0x8000_0000

  /** Initial metric of every state but 0: a quarter of INT32_MIN. */
  const UNREACHED: int := -0x2000_0000

  // ---- Correlation ----

  /** Contribution of a soft value to a path that sends `bit`: soft > 0 favours 0. */
  function Signed(bit: bool, soft: int): int { if bit then -soft else soft }

  /** Correlation of a coded sequence with the soft values. */
  function Correlation(code: seq<bool>, soft: seq<Int8>): int
    requires |code| <= |soft|
  {
    if code == [] then 0
    else Correlation(Front(code), soft) + Signed(Last(code), soft[|code| - 1] as int)
  }

  /** Soft values of C1 and C2 in one step; a punctured bit counts as 0. */
  function Soft1(rate: nat, soft: seq<Int8>, step: nat): (v: int)
    requires rate < RATE_COUNT && Offset(rate, step + 1) <= |soft|
    ensures -0x80 <= v < 0x80
  {
    if SendsC1(rate, step) then soft[Offset(rate, step)] as int else 0
  }

  function Soft2(rate: nat, soft: seq<Int8>, step: nat): (v: int)
    requires rate < RATE_COUNT && Offset(rate, step + 1) <= |soft|
    ensures -0x80 <= v < 0x80
  {
    if SendsC2(rate, step) then soft[Offset(rate, step) + Count(SendsC1(rate, step))] as int else 0
  }

  function Branch(rate: nat, soft: seq<Int8>, step: nat, state: nat, bit: bool): (bm: int)
    requires rate < RATE_COUNT && Offset(rate, step + 1) <= |soft|
    ensures -256 <= bm <= 256
  {
    var (c1, c2) := BranchOutputs(state, bit);
    Signed(c1, Soft1(rate, soft, step)) + Signed(c2, Soft2(rate, soft, step))
  }

  /** Metric collected along the inputs u from state `start`. */
  function PathMetric(rate: nat, soft: seq<Int8>, start: nat, u: seq<bool>): int
    requires rate < RATE_COUNT && start < STATES && Offset(rate, |u|) <= |soft|
  {
    if u == [] then 0
    else
      PathMetric(rate, soft, start, Front(u))
      + Branch(rate, soft, |u| - 1, StateFrom(start, Front(u)), Last(u))
  }

  lemma PathMetricStep(rate: nat, soft: seq<Int8>, start: nat, u: seq<bool>)
    requires rate < RATE_COUNT && start < STATES && u != []
    requires Offset(rate, |u| - 1) <= Offset(rate, |u|) <= |soft|
    ensures PathMetric(rate, soft, start, u)
         == PathMetric(rate, soft, start, Front(u))
            + Branch(rate, soft, |u| - 1, StateFrom(start, Front(u)), Last(u))
  {
    hide Offset, Branch, StateFrom;
  }

  lemma EmptyPath(rate: nat, soft: seq<Int8>, start: nat)
    requires rate < RATE_COUNT && start < STATES
    ensures Offset(rate, 0) == 0 && StateFrom(start, []) == start && Codeword(rate, []) == []
    ensures PathMetric(rate, soft, start, []) == 0 && Correlation([], soft) == 0
    ensures Best(rate, soft, 0, start) == Start(start)
    ensures Survivor(rate, soft, 0, start) == [] && Origin(rate, soft, 0, start) == start
  {
  }

  lemma {:induction false} PathMetricBound(rate: nat, soft: seq<Int8>, start: nat, u: seq<bool>)
    requires rate < RATE_COUNT && start < STATES && Offset(rate, |u|) <= |soft|
    ensures -256 * |u| <= PathMetric(rate, soft, start, u) <= 256 * |u|
  {
    hide Branch, Offset, StateFrom, PathMetric;
    EmptyPath(rate, soft, start);
    if u != [] {
      OffsetMonotone(rate, |u| - 1, |u|);
      PathMetricStep(rate, soft, start, u);
      PathMetricBound(rate, soft, start, Front(u));
    }
  }

  lemma CorrelationAppend(code: seq<bool>, bit: bool, soft: seq<Int8>)
    requires |code| < |soft|
    ensures Correlation(code + [bit], soft) == Correlation(code, soft) + Signed(bit, soft[|code|] as int)
  {
    assert Front(code + [bit]) == code;
  }

  /** Appending an optional bit adds its soft value. */
  lemma CorrelationAppendIf(code: seq<bool>, sent: bool, bit: bool, soft: seq<Int8>, value: int)
    requires if sent then |code| < |soft| && value == soft[|code|] as int else |code| <= |soft| && value == 0
    ensures |code| + Count(sent) <= |soft|
    ensures Correlation(code + (if sent then [bit] else []), soft) == Correlation(code, soft) + Signed(bit, value)
  {
    if sent {
      CorrelationAppend(code, bit, soft);
    } else {
      assert code + [] == code;
    }
  }

  lemma StepIsCorrelation(rate: nat, soft: seq<Int8>, step: nat, state: nat, bit: bool, code: seq<bool>)
    requires rate < RATE_COUNT && Offset(rate, step + 1) <= |soft| && |code| == Offset(rate, step)
    ensures |code + Sent(rate, step, state, bit)| <= |soft|
    ensures Correlation(code + Sent(rate, step, state, bit), soft)
         == Correlation(code, soft) + Branch(rate, soft, step, state, bit)
  {
    hide BranchOutputs, SendsC1, SendsC2, Offset, Correlation, Signed;
    OffsetStep(rate, step);
    var (c1, c2) := BranchOutputs(state, bit);
    var first := if SendsC1(rate, step) then [c1] else [];
    var second := if SendsC2(rate, step) then [c2] else [];
    CorrelationAppendIf(code, SendsC1(rate, step), c1, soft, Soft1(rate, soft, step));
    CorrelationAppendIf(code + first, SendsC2(rate, step), c2, soft, Soft2(rate, soft, step));
    assert code + Sent(rate, step, state, bit) == (code + first) + second;
  }

  /** The metric of a path from state 0 is the correlation of its punctured codeword. */
  lemma {:induction false} MetricIsCorrelation(rate: nat, soft: seq<Int8>, u: seq<bool>)
    requires rate < RATE_COUNT && Offset(rate, |u|) <= |soft|
    ensures PathMetric(rate, soft, 0, u) == Correlation(Codeword(rate, u), soft)
  {
    hide Branch, Sent, Correlation, Offset, StateFrom, Codeword, PathMetric;
    EmptyPath(rate, soft, 0);
    if u != [] {
      OffsetMonotone(rate, |u| - 1, |u|);
      CodewordStep(rate, u);
      PathMetricStep(rate, soft, 0, u);
      MetricIsCorrelation(rate, soft, Front(u));
      StepIsCorrelation(rate, soft, |u| - 1, StateFrom(0, Front(u)), Last(u), Codeword(rate, Front(u)));
    }
  }

  lemma CodewordStep(rate: nat, u: seq<bool>)
    requires rate < RATE_COUNT && u != []
    ensures Codeword(rate, u) == Codeword(rate, Front(u)) + Sent(rate, |u| - 1, StateFrom(0, Front(u)), Last(u))
  {
  }

  // ---- Dynamic program ----

  function Start(s: nat): int { if s == 0 then 0 else UNREACHED }

  /** The two predecessors of a state: they differ in the bit shifted out. */
  function Pred(ns: nat, oldest: bool): (s: nat)
    requires ns < STATES
    ensures s < STATES
  {
    2 * ns % STATES + Count(oldest)
  }

  /** Newest input of a state. */
  predicate Newest(ns: nat) { ns / 32 == 1 }

  lemma PredIsInverse(state: nat, bit: bool)
    requires state < STATES
    ensures Newest(NextState(state, bit)) == bit
    ensures Pred(NextState(state, bit), state % 2 == 1) == state
  {
  }

  lemma NextIsInverse(ns: nat, oldest: bool)
    requires ns < STATES
    ensures NextState(Pred(ns, oldest), Newest(ns)) == ns
  {
  }

  /** Best metric of any path into `ns` after `step` steps, initial metric included. */
  function Best(rate: nat, soft: seq<Int8>, step: nat, ns: nat): int
    requires rate < RATE_COUNT && ns < STATES && Offset(rate, step) <= |soft|
    decreases step, 1
  {
    if step == 0 then Start(ns)
    else if Choice(rate, soft, step - 1, ns) then Extend(rate, soft, step - 1, ns, true)
    else Extend(rate, soft, step - 1, ns, false)
  }

  /** Metric of reaching `ns` over the predecessor given by `oldest`. */
  function Extend(rate: nat, soft: seq<Int8>, step: nat, ns: nat, oldest: bool): int
    requires rate < RATE_COUNT && ns < STATES && Offset(rate, step + 1) <= |soft|
    decreases step, 2
  {
    Best(rate, soft, step, Pred(ns, oldest)) + Branch(rate, soft, step, Pred(ns, oldest), Newest(ns))
  }

  /** The decision bit: set only if the predecessor with oldest bit 1 is strictly better. */
  predicate Choice(rate: nat, soft: seq<Int8>, step: nat, ns: nat)
    requires rate < RATE_COUNT && ns < STATES && Offset(rate, step + 1) <= |soft|
    decreases step, 3
  {
    Extend(rate, soft, step, ns, true) > Extend(rate, soft, step, ns, false)
  }

  /** Best is the better of the two branches, and Choice names it. */
  lemma BestStep(rate: nat, soft: seq<Int8>, step: nat, ns: nat)
    requires rate < RATE_COUNT && ns < STATES && Offset(rate, step) <= Offset(rate, step + 1) <= |soft|
    ensures var best, one, two :=
              Best(rate, soft, step + 1, ns), Extend(rate, soft, step, ns, true), Extend(rate, soft, step, ns, false);
            best == (if Choice(rate, soft, step, ns) then one else two) && best >= one && best >= two
  {
    hide Offset, Extend;
  }

  /** Best is at least what any branch into the state offers. */
  lemma BestFromAnyBranch(rate: nat, soft: seq<Int8>, step: nat, state: nat, bit: bool)
    requires rate < RATE_COUNT && state < STATES && Offset(rate, step) <= Offset(rate, step + 1) <= |soft|
    ensures Best(rate, soft, step + 1, NextState(state, bit))
         >= Best(rate, soft, step, state) + Branch(rate, soft, step, state, bit)
  {
    hide Offset, Best, Choice, Branch, NextState, Pred, Newest;
    PredIsInverse(state, bit);
    BestStep(rate, soft, step, NextState(state, bit));
    assert Extend(rate, soft, step, NextState(state, bit), state % 2 == 1)
        == Best(rate, soft, step, state) + Branch(rate, soft, step, state, bit);
  }

  /** Best is an upper bound for every path that reaches the state. */
  lemma {:induction false} BestIsUpperBound(rate: nat, soft: seq<Int8>, start: nat, u: seq<bool>)
    requires rate < RATE_COUNT && start < STATES && Offset(rate, |u|) <= |soft|
    ensures Best(rate, soft, |u|, StateFrom(start, u)) >= Start(start) + PathMetric(rate, soft, start, u)
  {
    hide Branch, Offset, Best, PathMetric, StateFrom, NextState;
    EmptyPath(rate, soft, start);
    if u != [] {
      OffsetMonotone(rate, |u| - 1, |u|);
      PathMetricStep(rate, soft, start, u);
      StateStep(start, u);
      BestIsUpperBound(rate, soft, start, Front(u));
      BestFromAnyBranch(rate, soft, |u| - 1, StateFrom(start, Front(u)), Last(u));
    }
  }

  lemma StateStep(start: nat, u: seq<bool>)
    requires start < STATES && u != []
    ensures StateFrom(start, u) == NextState(StateFrom(start, Front(u)), Last(u))
  {
  }

  /** The path the traceback from `ns` recovers. */
  function Survivor(rate: nat, soft: seq<Int8>, step: nat, ns: nat): (u: seq<bool>)
    requires rate < RATE_COUNT && ns < STATES && Offset(rate, step) <= |soft|
    ensures |u| == step
  {
    if step == 0 then []
    else Survivor(rate, soft, step - 1, Pred(ns, Choice(rate, soft, step - 1, ns))) + [Newest(ns)]
  }

  /** The state it starts in. */
  function Origin(rate: nat, soft: seq<Int8>, step: nat, ns: nat): (s: nat)
    requires rate < RATE_COUNT && ns < STATES && Offset(rate, step) <= |soft|
    ensures s < STATES
  {
    if step == 0 then ns
    else Origin(rate, soft, step - 1, Pred(ns, Choice(rate, soft, step - 1, ns)))
  }

  /** The survivor is a path into `ns` and attains Best. */
  lemma {:induction false} SurvivorAttainsBest(rate: nat, soft: seq<Int8>, step: nat, ns: nat)
    requires rate < RATE_COUNT && ns < STATES && Offset(rate, step) <= |soft|
    ensures var o, u := Origin(rate, soft, step, ns), Survivor(rate, soft, step, ns);
            StateFrom(o, u) == ns && Best(rate, soft, step, ns) == Start(o) + PathMetric(rate, soft, o, u)
  {
    hide Branch, Offset, Best, Extend, Choice, Survivor, Origin, StateFrom, NextState, PathMetric, Pred, Newest;
    EmptyPath(rate, soft, ns);
    if step > 0 {
      OffsetMonotone(rate, step - 1, step);
      BestStep(rate, soft, step - 1, ns);
      var choice := Choice(rate, soft, step - 1, ns);
      var prev := Pred(ns, choice);
      SurvivorStep(rate, soft, step, ns, prev);
      OriginStep(rate, soft, step, ns, prev);
      ExtendIs(rate, soft, step - 1, ns, choice);
      NextIsInverse(ns, choice);
      SurvivorAttainsBest(rate, soft, step - 1, prev);
      var o, u := Origin(rate, soft, step, ns), Survivor(rate, soft, step, ns);
      PathMetricStep(rate, soft, o, u);
      StateStep(o, u);
    }
  }

  lemma ExtendIs(rate: nat, soft: seq<Int8>, step: nat, ns: nat, oldest: bool)
    requires rate < RATE_COUNT && ns < STATES && Offset(rate, step) <= Offset(rate, step + 1) <= |soft|
    ensures Extend(rate, soft, step, ns, oldest)
         == Best(rate, soft, step, Pred(ns, oldest)) + Branch(rate, soft, step, Pred(ns, oldest), Newest(ns))
  {
    hide Best, Branch, Offset, Pred, Newest;
  }

  lemma SurvivorStep(rate: nat, soft: seq<Int8>, step: nat, ns: nat, prev: nat)
    requires rate < RATE_COUNT && ns < STATES && step > 0
    requires Offset(rate, step - 1) <= Offset(rate, step) <= |soft|
    requires prev == Pred(ns, Choice(rate, soft, step - 1, ns))
    ensures var u := Survivor(rate, soft, step, ns);
            Front(u) == Survivor(rate, soft, step - 1, prev) && Last(u) == Newest(ns)
  {
    hide Offset, Choice, Best, Pred, Newest;
  }

  lemma OriginStep(rate: nat, soft: seq<Int8>, step: nat, ns: nat, prev: nat)
    requires rate < RATE_COUNT && ns < STATES && step > 0
    requires Offset(rate, step - 1) <= Offset(rate, step) <= |soft|
    requires prev == Pred(ns, Choice(rate, soft, step - 1, ns))
    ensures Origin(rate, soft, step, ns) == Origin(rate, soft, step - 1, prev)
  {
    hide Offset, Choice, Best, Pred, Newest;
  }

  // ---- Maximum likelihood ----

  lemma {:induction false} ZerosStayAtZero(n: nat)
    ensures StateFrom(0, Zeros(n)) == 0
  {
    if n > 0 {
      assert Front(Zeros(n)) == Zeros(n - 1);
      ZerosStayAtZero(n - 1);
    }
  }

  /** Within the decoder's block size the survivor into state 0 starts in state 0. */
  lemma {:induction false} SurvivorStartsAtZero(rate: nat, soft: seq<Int8>, step: nat)
    requires rate < RATE_COUNT && Offset(rate, step) <= |soft| && step <= MAX_INFO_BITS + TAIL_BITS
    ensures Origin(rate, soft, step, 0) == 0
  {
    hide PathMetric, Best, Origin;
    ZerosStayAtZero(step);
    BestIsUpperBound(rate, soft, 0, Zeros(step));
    PathMetricBound(rate, soft, 0, Zeros(step));
    SurvivorAttainsBest(rate, soft, step, 0);
    PathMetricBound(rate, soft, Origin(rate, soft, step, 0), Survivor(rate, soft, step, 0));
  }

  lemma RegisterHoldsSix(s: nat, a: bool, b: bool, c: bool, d: bool, e: bool, f: bool)
    requires s < STATES
    ensures NextState(NextState(NextState(NextState(NextState(NextState(s, a), b), c), d), e), f)
         == Register(a, b, c, d, e, f)
  {
  }

  /** After six inputs nothing is left of the starting state. */
  lemma StateIsLastSix(start: nat, u: seq<bool>)
    requires start < STATES && |u| >= 6
    ensures var k := |u| - 6;
            StateFrom(start, u) == Register(u[k], u[k + 1], u[k + 2], u[k + 3], u[k + 4], u[k + 5])
  {
    hide StateFrom, NextState, Register;
    var k := |u| - 6;
    var u5 := Front(u);
    var u4 := Front(u5);
    var u3 := Front(u4);
    var u2 := Front(u3);
    var u1 := Front(u2);
    var u0 := Front(u1);
    StateStep(start, u);
    StateStep(start, u5);
    StateStep(start, u4);
    StateStep(start, u3);
    StateStep(start, u2);
    StateStep(start, u1);
    assert Last(u) == u[k + 5] && Last(u5) == u[k + 4] && Last(u4) == u[k + 3];
    assert Last(u3) == u[k + 2] && Last(u2) == u[k + 1] && Last(u1) == u[k];
    RegisterHoldsSix(StateFrom(start, u0), u[k], u[k + 1], u[k + 2], u[k + 3], u[k + 4], u[k + 5]);
  }

  /** Six zero inputs empty the register, and a zero state shows six zero inputs. */
  lemma TailMeansStateZero(start: nat, u: seq<bool>)
    requires start < STATES && |u| >= TAIL_BITS
    ensures StateFrom(start, u) == 0 <==> u[|u| - TAIL_BITS..] == Zeros(TAIL_BITS)
  {
    hide StateFrom, Zeros;
    StateIsLastSix(start, u);
    var k := |u| - TAIL_BITS;
    var t := u[k..];
    assert t[0] == u[k] && t[1] == u[k + 1] && t[2] == u[k + 2];
    assert t[3] == u[k + 3] && t[4] == u[k + 4] && t[5] == u[k + 5];
    SixZeros(t);
  }

  lemma SixZeros(t: seq<bool>)
    requires |t| == TAIL_BITS
    ensures t == Zeros(TAIL_BITS) <==> !t[0] && !t[1] && !t[2] && !t[3] && !t[4] && !t[5]
  {
    if !t[0] && !t[1] && !t[2] && !t[3] && !t[4] && !t[5] {
      assert t == [false, false, false, false, false, false];
    }
  }

  /** What the decoder returns: the information part of the survivor into state 0. */
  function Decoded(rate: nat, soft: seq<Int8>, infoBits: nat): (w: seq<bool>)
    requires rate < RATE_COUNT && Offset(rate, infoBits + TAIL_BITS) <= |soft|
    ensures |w| == infoBits
  {
    Survivor(rate, soft, infoBits + TAIL_BITS, 0)[..infoBits]
  }

  function Likelihood(rate: nat, soft: seq<Int8>, w: seq<bool>): int
    requires rate < RATE_COUNT && Offset(rate, |w| + TAIL_BITS) <= |soft|
  {
    Correlation(Codeword(rate, Terminated(w)), soft)
  }

  lemma SurvivorIsTerminated(rate: nat, soft: seq<Int8>, infoBits: nat)
    requires rate < RATE_COUNT && infoBits <= MAX_INFO_BITS && Offset(rate, infoBits + TAIL_BITS) <= |soft|
    ensures Survivor(rate, soft, infoBits + TAIL_BITS, 0) == Terminated(Decoded(rate, soft, infoBits))
  {
    hide Survivor, Origin, PathMetric, Best, StateFrom;
    var steps := infoBits + TAIL_BITS;
    var u := Survivor(rate, soft, steps, 0);
    SurvivorAttainsBest(rate, soft, steps, 0);
    TailMeansStateZero(Origin(rate, soft, steps, 0), u);
    assert u == u[..infoBits] + u[infoBits..];
  }

  /** Viterbi optimality: no information word correlates better than the decoded one. */
  lemma {:induction false} DecodedIsMostLikely(rate: nat, soft: seq<Int8>, infoBits: nat, w: seq<bool>)
    requires rate < RATE_COUNT && infoBits <= MAX_INFO_BITS && |w| == infoBits
    requires Offset(rate, infoBits + TAIL_BITS) <= |soft|
    ensures Likelihood(rate, soft, w) <= Likelihood(rate, soft, Decoded(rate, soft, infoBits))
  {
    hide Survivor, Origin, PathMetric, Best, StateFrom, Codeword, Correlation;
    var steps := infoBits + TAIL_BITS;
    var u, v := Survivor(rate, soft, steps, 0), Terminated(w);
    SurvivorIsTerminated(rate, soft, infoBits);
    SurvivorAttainsBest(rate, soft, steps, 0);
    SurvivorStartsAtZero(rate, soft, steps);
    assert v[|v| - TAIL_BITS..] == Zeros(TAIL_BITS);
    TailMeansStateZero(0, v);
    BestIsUpperBound(rate, soft, 0, v);
    MetricIsCorrelation(rate, soft, u);
    MetricIsCorrelation(rate, soft, v);
  }

  // ---- Round trip ----

  /** Every soft value is nonzero and has the sign of the coded bit. */
  ghost predicate SignCorrect(code: seq<bool>, soft: seq<Int8>) {
    |code| <= |soft| && forall k :: 0 <= k < |code| ==> if code[k] then soft[k] < 0 else soft[k] > 0
  }

  lemma {:induction false} OtherWordsCorrelateLess(code: seq<bool>, other: seq<bool>, soft: seq<Int8>)
    requires SignCorrect(code, soft) && |other| == |code|
    ensures Correlation(other, soft) <= Correlation(code, soft)
    ensures other != code ==> Correlation(other, soft) < Correlation(code, soft)
  {
    if code != [] {
      OtherWordsCorrelateLess(Front(code), Front(other), soft);
      assert code == Front(code) + [Last(code)] && other == Front(other) + [Last(other)];
    }
  }

  /** Coding round trip: soft values with the right signs decode to the encoded word. */
  lemma {:induction false} DecodeEncodeRoundTrip(rate: nat, soft: seq<Int8>, w: seq<bool>)
    requires rate < RATE_COUNT && |w| <= MAX_INFO_BITS
    requires SignCorrect(Codeword(rate, Terminated(w)), soft)
    ensures Decoded(rate, soft, |w|) == w
  {
    hide Survivor, Codeword, Correlation;
    var d := Decoded(rate, soft, |w|);
    DecodedIsMostLikely(rate, soft, |w|, w);
    OtherWordsCorrelateLess(Codeword(rate, Terminated(w)), Codeword(rate, Terminated(d)), soft);
    EncodingIsInjective(rate, Terminated(w), Terminated(d));
    assert w == Terminated(w)[..|w|] && d == Terminated(d)[..|w|];
  }

  // ---- Metric bounds ----

  lemma OneStepUp(rate: nat, soft: seq<Int8>, step: nat, state: nat, bit: bool)
    requires rate < RATE_COUNT && state < STATES && Offset(rate, step + 1) <= |soft|
    ensures Best(rate, soft, step + 1, NextState(state, bit)) >= Best(rate, soft, step, state) - 256
  {
    hide Best, Branch, Offset;
    OffsetMonotone(rate, step, step + 1);
    BestFromAnyBranch(rate, soft, step, state, bit);
  }

  ghost predicate Capped(rate: nat, soft: seq<Int8>, step: nat, top: int)
    requires rate < RATE_COUNT && Offset(rate, step) <= |soft|
  {
    forall s :: 0 <= s < STATES ==> Best(rate, soft, step, s) <= top
  }

  lemma CappedStep(rate: nat, soft: seq<Int8>, step: nat, top: int)
    requires rate < RATE_COUNT && Offset(rate, step) <= |soft| && Offset(rate, step + 1) <= |soft|
    requires Capped(rate, soft, step, top)
    ensures Capped(rate, soft, step + 1, top + 256)
  {
    hide Branch, Offset, Best, Choice, Extend;
    OffsetMonotone(rate, step, step + 1);
    var next := step + 1;
    forall s | 0 <= s < STATES
      ensures Best(rate, soft, next, s) <= top + 256
    {
      BestStep(rate, soft, step, s);
      ExtendIs(rate, soft, step, s, Choice(rate, soft, step, s));
    }
  }

  /** No metric grows by more than 256 a step. */
  lemma {:induction false} Growth(rate: nat, soft: seq<Int8>, from: nat, to: nat, top: int)
    requires rate < RATE_COUNT && from <= to && Offset(rate, from) <= Offset(rate, to) <= |soft|
    requires Capped(rate, soft, from, top)
    ensures Capped(rate, soft, to, top + 256 * (to - from))
  {
    hide Capped, Offset;
    if from < to {
      OffsetMonotone(rate, from, to - 1);
      OffsetMonotone(rate, to - 1, to);
      Growth(rate, soft, from, to - 1, top);
      CappedStep(rate, soft, to - 1, top + 256 * (to - 1 - from));
    }
  }

  lemma {:induction false} Decline(rate: nat, soft: seq<Int8>, step: nat, ns: nat)
    requires rate < RATE_COUNT && ns < STATES && Offset(rate, step) <= |soft|
    ensures Best(rate, soft, step, ns) >= UNREACHED - 256 * step
  {
    hide Best, Offset, NextState, Pred, Newest;
    EmptyPath(rate, soft, ns);
    if step > 0 {
      OffsetMonotone(rate, step - 1, step);
      NextIsInverse(ns, false);
      Decline(rate, soft, step - 1, Pred(ns, false));
      OneStepUp(rate, soft, step - 1, Pred(ns, false), Newest(ns));
    }
  }

  lemma {:induction false} StepsUp(rate: nat, soft: seq<Int8>, step: nat, from: nat, u: seq<bool>)
    requires rate < RATE_COUNT && from < STATES
    requires Offset(rate, step) <= |soft| && Offset(rate, step + |u|) <= |soft|
    ensures Best(rate, soft, step + |u|, StateFrom(from, u)) >= Best(rate, soft, step, from) - 256 * |u|
  {
    hide Offset, Best, NextState, StateFrom;
    EmptyPath(rate, soft, from);
    if u != [] {
      StateStep(from, u);
      OffsetMonotone(rate, step + |u| - 1, step + |u|);
      StepsUp(rate, soft, step, from, Front(u));
      OneStepUp(rate, soft, step + |u| - 1, StateFrom(from, Front(u)), Last(u));
    }
  }

  /** Every state reaches every state in six steps. */
  lemma {:induction false} SixStepsUp(rate: nat, soft: seq<Int8>, step: nat, from: nat, to: nat)
    requires rate < RATE_COUNT && from < STATES && to < STATES
    requires Offset(rate, step) <= |soft| && Offset(rate, step + 6) <= |soft|
    ensures Best(rate, soft, step + 6, to) >= Best(rate, soft, step, from) - 1536
  {
    hide Best, Offset, StateFrom, Register;
    var a, b, c, d, e, f := BitsOf(to);
    var u := [a, b, c, d, e, f];
    StateIsLastSix(from, u);
    StepsUp(rate, soft, step, from, u);
  }

  lemma BitsOf(s: nat) returns (a: bool, b: bool, c: bool, d: bool, e: bool, f: bool)
    requires s < STATES
    ensures Register(a, b, c, d, e, f) == s
  {
    var h1, h2, h3, h4, h5;
    a, h1 := Halve(s);
    b, h2 := Halve(h1);
    c, h3 := Halve(h2);
    d, h4 := Halve(h3);
    e, h5 := Halve(h4);
    f := h5 == 1;
  }

  lemma Halve(s: nat) returns (low: bool, rest: nat)
    ensures s == 2 * rest + Count(low)
  {
    low, rest := s % 2 == 1, s / 2;
  }

  lemma {:induction false} SomeStateIsBest(rate: nat, soft: seq<Int8>, step: nat, n: nat) returns (r: nat)
    requires rate < RATE_COUNT && 0 < n <= STATES && Offset(rate, step) <= |soft|
    ensures r < n && forall s :: 0 <= s < n ==> Best(rate, soft, step, s) <= Best(rate, soft, step, r)
  {
    hide Best, Offset;
    r := 0;
    if n > 1 {
      r := SomeStateIsBest(rate, soft, step, n - 1);
      if Best(rate, soft, step, n - 1) > Best(rate, soft, step, r) { r := n - 1; }
    }
  }

  /** From the sixth step on, any two metrics are at most 3072 apart, whatever the block length. */
  lemma {:induction false} SpreadIsBounded(rate: nat, soft: seq<Int8>, step: nat, a: nat, b: nat)
    requires rate < RATE_COUNT && a < STATES && b < STATES && step >= 6 && Offset(rate, step) <= |soft|
    ensures Best(rate, soft, step, a) - Best(rate, soft, step, b) <= 3072
  {
    hide Best, Offset;
    OffsetMonotone(rate, step - 6, step);
    var r := SomeStateIsBest(rate, soft, step - 6, STATES);
    Growth(rate, soft, step - 6, step, Best(rate, soft, step - 6, r));
    SixStepsUp(rate, soft, step - 6, r, b);
  }

  lemma CappedAtStart(rate: nat, soft: seq<Int8>)
    requires rate < RATE_COUNT
    ensures Offset(rate, 0) == 0 && Capped(rate, soft, 0, 0)
  {
  }

  /** In the first steps the spread is at most the initial one and 512 a step. */
  lemma EarlySpread(rate: nat, soft: seq<Int8>, step: nat, a: nat, b: nat)
    requires rate < RATE_COUNT && a < STATES && b < STATES && Offset(rate, step) <= |soft|
    ensures Best(rate, soft, step, a) - Best(rate, soft, step, b) <= -UNREACHED + 512 * step
  {
    hide Best, Offset;
    CappedAtStart(rate, soft);
    OffsetMonotone(rate, 0, step);
    Growth(rate, soft, 0, step, 0);
    Decline(rate, soft, step, b);
  }
}
