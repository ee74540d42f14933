/** Which of several equally likely words the decoder returns: the one with a 0 at the latest place where they
    differ. Together with optimality this makes the decision unique. */
module ViterbiTies {

  import opened ConvCode
  import opened Viterbi

  /** The words are different, and at the latest place where they are, u has a 0 and v a 1. */
  ghost predicate LaterZero(u: seq<bool>, v: seq<bool>) {
    |u| == |v| && exists k :: 0 <= k < |u| && !u[k] && v[k] && u[k + 1..] == v[k + 1..]
  }

  lemma LaterZeroAppend(u: seq<bool>, v: seq<bool>, b: bool)
    requires LaterZero(u, v)
    ensures LaterZero(u + [b], v + [b])
  {
    var k :| 0 <= k < |u| && !u[k] && v[k] && u[k + 1..] == v[k + 1..];
    assert (u + [b])[k + 1..] == u[k + 1..] + [b] && (v + [b])[k + 1..] == v[k + 1..] + [b];
    assert !(u + [b])[k] && (v + [b])[k];
  }

  /** Two words whose states are the two predecessors of one state: all but the sixth last input agree. */
  lemma PredecessorsDiffer(o: nat, u: seq<bool>, v: seq<bool>, ns: nat, b: bool)
    requires o < STATES && ns < STATES && |u| == |v| >= 6
    requires StateFrom(o, u) == Pred(ns, false) && StateFrom(0, v) == Pred(ns, true)
    ensures LaterZero(u + [b], v + [b])
  {
    hide StateFrom, LaterZero;
    StateIsLastSix(o, u);
    StateIsLastSix(0, v);
    var k := |u| - 6;
    PredecessorInputs(ns, u[k], u[k + 1], u[k + 2], u[k + 3], u[k + 4], u[k + 5],
                      v[k], v[k + 1], v[k + 2], v[k + 3], v[k + 4], v[k + 5]);
    assert u[k + 1..] == [u[k + 1], u[k + 2], u[k + 3], u[k + 4], u[k + 5]];
    assert v[k + 1..] == [v[k + 1], v[k + 2], v[k + 3], v[k + 4], v[k + 5]];
    LaterZeroAt(u, v, k);
    LaterZeroAppend(u, v, b);
  }

  lemma LaterZeroAt(u: seq<bool>, v: seq<bool>, k: nat)
    requires |u| == |v| && k < |u| && !u[k] && v[k] && u[k + 1..] == v[k + 1..]
    ensures LaterZero(u, v)
  {
  }

  lemma PredecessorInputs(ns: nat, a: bool, b: bool, c: bool, d: bool, e: bool, f: bool,
                          a': bool, b': bool, c': bool, d': bool, e': bool, f': bool)
    requires ns < STATES && Register(a, b, c, d, e, f) == Pred(ns, false)
    requires Register(a', b', c', d', e', f') == Pred(ns, true)
    ensures !a && a' && b == b' && c == c' && d == d' && e == e' && f == f'
  {
    hide Register;
    var even := 2 * ns % STATES / 2;
    assert Pred(ns, false) == 2 * even && Pred(ns, true) == 2 * even + 1;
    RegisterParts(a, b, c, d, e, f, even, false);
    RegisterParts(a', b', c', d', e', f', even, true);
    FiveDigits(b, c, d, e, f, b', c', d', e', f');
  }

  function Five(b: bool, c: bool, d: bool, e: bool, f: bool): nat {
    Count(b) + 2 * Count(c) + 4 * Count(d) + 8 * Count(e) + 16 * Count(f)
  }

  lemma RegisterParts(a: bool, b: bool, c: bool, d: bool, e: bool, f: bool, half: nat, odd: bool)
    requires Register(a, b, c, d, e, f) == 2 * half + Count(odd)
    ensures a == odd && Five(b, c, d, e, f) == half
  {
    assert Register(a, b, c, d, e, f) == Count(a) + 2 * Five(b, c, d, e, f);
  }

  lemma FiveDigits(b: bool, c: bool, d: bool, e: bool, f: bool, b': bool, c': bool, d': bool, e': bool, f': bool)
    requires Five(b, c, d, e, f) == Five(b', c', d', e', f')
    ensures b == b' && c == c' && d == d' && e == e' && f == f'
  {
  }

  /** A word of fewer than six inputs from state 0 leaves an even state. */
  lemma {:induction false} ShortWordsAreEven(u: seq<bool>)
    requires |u| < 6
    ensures StateFrom(0, u) % 2 == 0
  {
    StateIsLastInputs(u);
  }

  /** The last branch of a path attains what the path attains. */
  lemma LastBranch(rate: nat, soft: seq<Int8>, v: seq<bool>, n: nat, s: nat, ns: nat)
    requires rate < RATE_COUNT && s < STATES && ns < STATES && |v| == n + 1
    requires StateFrom(0, Front(v)) == s && StateFrom(0, v) == ns
    requires Offset(rate, n) <= Offset(rate, n + 1) <= |soft|
    ensures Last(v) == Newest(ns) && s == Pred(ns, s % 2 == 1)
    ensures PathMetric(rate, soft, 0, v) - PathMetric(rate, soft, 0, Front(v)) == Branch(rate, soft, n, s, Newest(ns))
  {
    hide PathMetric, StateFrom, NextState, Branch, Offset, Pred, Newest;
    StateStep(0, v);
    PathMetricStep(rate, soft, 0, v);
    PredIsInverse(s, Last(v));
  }

  /** The way a best path into a state took is itself best. */
  lemma BestPathHasBestFront(rate: nat, soft: seq<Int8>, v: seq<bool>, n: nat, s: nat, ns: nat)
    requires rate < RATE_COUNT && s < STATES && ns < STATES && |v| == n + 1
    requires StateFrom(0, Front(v)) == s && StateFrom(0, v) == ns
    requires Offset(rate, n) <= Offset(rate, n + 1) <= |soft|
    requires PathMetric(rate, soft, 0, v) == Best(rate, soft, n + 1, ns)
    ensures PathMetric(rate, soft, 0, Front(v)) == Best(rate, soft, n, s)
  {
    hide PathMetric, Best, Extend, Choice, StateFrom, Branch, Offset, Pred, Newest;
    LastBranch(rate, soft, v, n, s, ns);
    BestIsUpperBound(rate, soft, 0, Front(v));
    StartAtZero();
    ExtendIs(rate, soft, n, ns, s % 2 == 1);
    BestStep(rate, soft, n, ns);
  }

  lemma StartAtZero()
    ensures Viterbi.Start(0) == 0
  {
  }

  /** A path from state 0 that is as good as the survivor is the survivor, or has a 1 where the survivor has its
      latest different 0. */
  lemma {:induction false} SurvivorPrefersZero(rate: nat, soft: seq<Int8>, v: seq<bool>, ns: nat)
    requires rate < RATE_COUNT && ns < STATES && Offset(rate, |v|) <= |soft|
    requires Origin(rate, soft, |v|, ns) == 0
    requires StateFrom(0, v) == ns && PathMetric(rate, soft, 0, v) == Best(rate, soft, |v|, ns)
    ensures v == Survivor(rate, soft, |v|, ns) || LaterZero(Survivor(rate, soft, |v|, ns), v)
    decreases |v|
  {
    hide PathMetric, Best, Extend, Choice, StateFrom, Branch, Offset, Pred, Newest, Survivor, Origin, LaterZero;
    EmptyPath(rate, soft, ns);
    if v != [] {
      var n := |v| - 1;
      OffsetMonotone(rate, n, n + 1);
      var s := StateFrom(0, Front(v));
      LastBranch(rate, soft, v, n, s, ns);
      BestPathHasBestFront(rate, soft, v, n, s, ns);
      ExtendIs(rate, soft, n, ns, s % 2 == 1);
      BestStep(rate, soft, n, ns);
      ChoiceIs(rate, soft, n, ns);
      var choice := Choice(rate, soft, n, ns);
      SurvivorStep(rate, soft, n + 1, ns, Pred(ns, choice));
      OriginStep(rate, soft, n + 1, ns, Pred(ns, choice));
      var u := Survivor(rate, soft, n + 1, ns);
      assert v == Front(v) + [Last(v)] && u == Front(u) + [Last(u)];
      if (s % 2 == 1) == choice {
        SurvivorPrefersZero(rate, soft, Front(v), s);
        if Front(v) != Front(u) { LaterZeroAppend(Front(u), Front(v), Last(v)); }
      } else {
        SurvivorAttainsBest(rate, soft, n, Pred(ns, choice));
        if n < 6 { ShortWordsAreEven(Front(v)); }
        PredecessorsDiffer(0, Front(u), Front(v), ns, Last(v));
      }
    }
  }

  lemma ChoiceIs(rate: nat, soft: seq<Int8>, step: nat, ns: nat)
    requires rate < RATE_COUNT && ns < STATES && Offset(rate, step) <= Offset(rate, step + 1) <= |soft|
    ensures Choice(rate, soft, step, ns)
       <==> Extend(rate, soft, step, ns, true) > Extend(rate, soft, step, ns, false)
  {
    hide Extend, Offset;
  }

  /** Every other word that is as likely as the decoded one has a 1 at the latest place where they differ, so the
      decoded word is determined by the soft values alone. */
  lemma {:induction false} TiesGoToZero(rate: nat, soft: seq<Int8>, infoBits: nat, w: seq<bool>)
    requires rate < RATE_COUNT && infoBits <= MAX_INFO_BITS && |w| == infoBits
    requires Offset(rate, infoBits + TAIL_BITS) <= |soft|
    requires Likelihood(rate, soft, w) == Likelihood(rate, soft, Decoded(rate, soft, infoBits))
    ensures w == Decoded(rate, soft, infoBits) || LaterZero(Decoded(rate, soft, infoBits), w)
  {
    hide Survivor, Origin, PathMetric, Best, StateFrom, Codeword, Correlation, LaterZero, Zeros;
    var steps := infoBits + TAIL_BITS;
    var d, v := Decoded(rate, soft, infoBits), Terminated(w);
    SurvivorIsTerminated(rate, soft, infoBits);
    SurvivorAttainsBest(rate, soft, steps, 0);
    SurvivorStartsAtZero(rate, soft, steps);
    assert v[|v| - TAIL_BITS..] == Zeros(TAIL_BITS);
    TailMeansStateZero(0, v);
    StartAtZero();
    MetricIsCorrelation(rate, soft, Terminated(d));
    MetricIsCorrelation(rate, soft, v);
    SurvivorPrefersZero(rate, soft, v, 0);
    if v == Terminated(d) {
      assert w == v[..infoBits] == d;
    } else {
      WithoutTail(d, w);
    }
  }

  lemma WithoutTail(d: seq<bool>, w: seq<bool>)
    requires |d| == |w| && LaterZero(Terminated(d), Terminated(w))
    ensures LaterZero(d, w)
  {
    var u, v := Terminated(d), Terminated(w);
    var k :| 0 <= k < |u| && !u[k] && v[k] && u[k + 1..] == v[k + 1..];
    assert forall j :: |w| <= j < |v| ==> !v[j];
    assert d[k + 1..] == u[k + 1..][..|d| - k - 1] && w[k + 1..] == v[k + 1..][..|w| - k - 1];
  }

  /** Soft values that say nothing decode to zeros. */
  lemma {:induction false} ErasedDecodesToZeros(rate: nat, soft: seq<Int8>, infoBits: nat)
    requires rate < RATE_COUNT && infoBits <= MAX_INFO_BITS && Offset(rate, infoBits + TAIL_BITS) <= |soft|
    requires forall k :: 0 <= k < |soft| ==> soft[k] == 0
    ensures Decoded(rate, soft, infoBits) == Zeros(infoBits)
  {
    hide Decoded, Codeword;
    var z, d := Zeros(infoBits), Decoded(rate, soft, infoBits);
    NothingCorrelates(Codeword(rate, Terminated(z)), soft);
    NothingCorrelates(Codeword(rate, Terminated(d)), soft);
    TiesGoToZero(rate, soft, infoBits, z);
  }

  lemma {:induction false} NothingCorrelates(code: seq<bool>, soft: seq<Int8>)
    requires |code| <= |soft| && forall k :: 0 <= k < |soft| ==> soft[k] == 0
    ensures Correlation(code, soft) == 0
  {
    if code != [] { NothingCorrelates(Front(code), soft); }
  }
}
