/** The soft-decision decoder as it runs: add-compare-select over two metric arrays of 32-bit
    integers, renormalisation after every step, and one traceback. `Int32` is checked, so every
    addition and negation below is proved to stay inside 32 bits. */
module ViterbiDecoder {

  import opened Bytes
  import opened ConvCode
  import opened Viterbi

  const INT32_MIN: Int32 := -0x8000_0000
  /** INT32_MIN / 4, the metric of a state no path has reached. */
  const FLOOR: Int32 := -0x2000_0000
  /** INT32_MIN / 2, below which a metric is clamped. */
  const CLAMP: Int32 := -0x4000_0000

  /** The metrics hold Best up to a common offset, and the best of them is 0. */
  ghost predicate Normalised(pm: seq<Int32>, rate: nat, soft: seq<Int8>, step: nat, c: int) {
    && rate < RATE_COUNT && Offset(rate, step) <= |soft|
    && Holds(pm, rate, soft, step, c)
    && (forall s :: 0 <= s < STATES ==> pm[s] <= 0)
    && (exists s :: 0 <= s < STATES && pm[s] == 0)
  }

  ghost predicate Holds(pm: seq<Int32>, rate: nat, soft: seq<Int8>, step: nat, c: int)
    requires rate < RATE_COUNT && Offset(rate, step) <= |soft|
  {
    |pm| == STATES && forall s :: 0 <= s < STATES ==> pm[s] as int == Best(rate, soft, step, s) - c
  }

  /** Metric bound, independent of the block length: after renormalisation every metric lies in
      [-3072, 0] from the sixth step on, and never more than 3072 below the initial spread. */
  lemma MetricBound(pm: seq<Int32>, rate: nat, soft: seq<Int8>, step: nat, c: int)
    requires Normalised(pm, rate, soft, step, c)
    ensures forall s :: 0 <= s < STATES ==> UNREACHED - 3072 <= pm[s] as int <= 0
    ensures step >= 6 ==> forall s :: 0 <= s < STATES ==> -3072 <= pm[s] as int <= 0
  {
    hide Best, Offset;
    var top :| 0 <= top < STATES && pm[top] == 0;
    forall s | 0 <= s < STATES
      ensures UNREACHED - 3072 <= pm[s] as int
      ensures step >= 6 ==> -3072 <= pm[s] as int
    {
      assert pm[top] as int == Best(rate, soft, step, top) - c;
      assert pm[s] as int == Best(rate, soft, step, s) - c;
      if step >= 6 { SpreadIsBounded(rate, soft, step, top, s); } else { EarlySpread(rate, soft, step, top, s); }
    }
  }

  /** The better of the two branches into `ns`; the first one wins a tie. */
  method Select(rate: nat, soft: seq<Int8>, step: nat, s1: Int32, s2: Int32, pm: array<Int32>, ns: nat, ghost c: int)
    returns (best: Int32, choice: bool)
    requires rate < RATE_COUNT && ns < STATES && Offset(rate, step) <= Offset(rate, step + 1) <= |soft|
    requires s1 as int == Soft1(rate, soft, step) && s2 as int == Soft2(rate, soft, step)
    requires Holds(pm[..], rate, soft, step, c)
    requires forall s :: 0 <= s < STATES ==> UNREACHED - 3072 <= pm[..][s] as int <= 0
    ensures best as int == Best(rate, soft, step + 1, ns) - c
    ensures choice == Choice(rate, soft, step, ns)
    ensures UNREACHED - 3328 <= best as int <= 256
  {
    hide BranchOutputs, Soft1, Soft2, Offset;
    assert -0x80 <= s1 as int < 0x80 && -0x80 <= s2 as int < 0x80;
    var bit := ns / 32 == 1;
    var base := 2 * ns % STATES;
    best := INT32_MIN;
    choice := false;
    for oldest := 0 to 2
      invariant oldest == 0 ==> best == INT32_MIN && !choice
      invariant oldest == 1 ==> best as int == Extend(rate, soft, step, ns, false) - c && !choice
      invariant oldest == 2 ==> best as int == Best(rate, soft, step + 1, ns) - c
      invariant oldest == 2 ==> choice == Choice(rate, soft, step, ns)
      invariant oldest > 0 ==> UNREACHED - 3328 <= best as int <= 256
    {
      var prev := base + oldest;
      assert prev == Pred(ns, oldest == 1);
      var (c1, c2) := BranchOutputs(prev, bit);
      var bm := (if c1 then -s1 else s1) + (if c2 then -s2 else s2);
      assert bm as int == Branch(rate, soft, step, prev, bit);
      assert pm[..][prev] as int == Best(rate, soft, step, prev) - c;
      var m := pm[prev] + bm;
      assert m as int == Extend(rate, soft, step, ns, oldest == 1) - c;
      if m > best {
        best := m;
        choice := oldest == 1;
      }
    }
  }

  /** One add-compare-select step over all states; the result is the step's decision word. */
  method AddCompareSelect(rate: nat, soft: seq<Int8>, step: nat, s1: Int32, s2: Int32,
                          pm: array<Int32>, next: array<Int32>, ghost c: int)
    returns (decisions: seq<bool>)
    requires rate < RATE_COUNT && Offset(rate, step) <= Offset(rate, step + 1) <= |soft|
    requires s1 as int == Soft1(rate, soft, step) && s2 as int == Soft2(rate, soft, step)
    requires pm != next && next.Length == STATES
    requires Holds(pm[..], rate, soft, step, c)
    requires forall s :: 0 <= s < STATES ==> UNREACHED - 3072 <= pm[..][s] as int <= 0
    modifies next
    ensures Holds(next[..], rate, soft, step + 1, c)
    ensures forall s :: 0 <= s < STATES ==> UNREACHED - 3328 <= next[..][s] as int <= 256
    ensures |decisions| == STATES
    ensures forall s :: 0 <= s < STATES ==> decisions[s] == Choice(rate, soft, step, s)
  {
    hide Best, Offset, Choice, Soft1, Soft2;
    decisions := seq(STATES, _ => false);
    for ns := 0 to STATES
      invariant |decisions| == STATES
      invariant forall s :: 0 <= s < ns ==> next[s] as int == Best(rate, soft, step + 1, s) - c
      invariant forall s :: 0 <= s < ns ==> UNREACHED - 3328 <= next[s] as int <= 256
      invariant forall s :: 0 <= s < ns ==> decisions[s] == Choice(rate, soft, step, s)
      invariant pm[..] == old(pm[..])
    {
      var best, choice := Select(rate, soft, step, s1, s2, pm, ns, c);
      next[ns] := best;
      decisions := decisions[ns := choice];
    }
  }

  /** Subtracts the best metric from all. The clamp for metrics below INT32_MIN / 2 never fires. */
  method Renormalise(next: array<Int32>, pm: array<Int32>) returns (ghost top: int)
    requires pm != next && pm.Length == next.Length == STATES
    requires forall s :: 0 <= s < STATES ==> UNREACHED - 3328 <= next[s] as int <= 256
    modifies pm
    ensures forall s :: 0 <= s < STATES ==> pm[s] as int == next[s] as int - top
    ensures forall s :: 0 <= s < STATES ==> pm[s] <= 0
    ensures exists s :: 0 <= s < STATES && pm[s] == 0
  {
    var best := INT32_MIN;
    ghost var arg := 0;
    for s := 0 to STATES
      invariant arg < STATES
      invariant s > 0 ==> next[arg] == best
      invariant forall k :: 0 <= k < s ==> next[k] <= best
      invariant s == 0 ==> best == INT32_MIN
    {
      if next[s] > best {
        best := next[s];
        arg := s;
      }
    }
    for s := 0 to STATES
      invariant forall k :: 0 <= k < s ==> pm[k] as int == next[k] as int - best as int
    {
      pm[s] := if next[s] < CLAMP then FLOOR else next[s] - best;
    }
    top := best as int;
    assert pm[arg] == 0;
  }

  /** The soft values of one step, 0 for a punctured bit. */
  method ReadSoft(rate: nat, soft: seq<Int8>, step: nat, n: nat) returns (s1: Int32, s2: Int32, m: nat)
    requires rate < RATE_COUNT && n == Offset(rate, step) && Offset(rate, step + 1) <= |soft|
    ensures s1 as int == Soft1(rate, soft, step) && s2 as int == Soft2(rate, soft, step)
    ensures m == Offset(rate, step + 1)
  {
    var p := Pattern(rate);
    var phase := step % p.period;
    PhaseIsRemainder(rate, step);
    s1, s2, m := 0, 0, n;
    if p.c1[phase] {
      s1 := soft[m] as Int32;
      m := m + 1;
    }
    if p.c2[phase] {
      s2 := soft[m] as Int32;
      m := m + 1;
    }
  }

  /** Word k of the decision memory: bit s is the choice made for state s. */
  ghost predicate WordHolds(word: seq<bool>, rate: nat, soft: seq<Int8>, k: nat)
  {
    rate < RATE_COUNT && Offset(rate, k + 1) <= |soft| && |word| == STATES &&
    forall s :: 0 <= s < STATES ==> word[s] == Choice(rate, soft, k, s)
  }

  ghost predicate DecisionsHold(words: seq<seq<bool>>, rate: nat, soft: seq<Int8>) {
    forall k :: 0 <= k < |words| ==> WordHolds(words[k], rate, soft, k)
  }

  /** One trellis step: add, compare, select, then renormalise. */
  method TrellisStep(rate: nat, soft: seq<Int8>, step: nat, n: nat, pm: array<Int32>, next: array<Int32>, ghost c: int)
    returns (m: nat, word: seq<bool>, ghost d: int)
    requires rate < RATE_COUNT && Offset(rate, step + 1) <= |soft| && n == Offset(rate, step)
    requires pm != next && pm.Length == next.Length == STATES
    requires Normalised(pm[..], rate, soft, step, c)
    modifies pm, next
    ensures m == Offset(rate, step + 1)
    ensures Normalised(pm[..], rate, soft, step + 1, d)
    ensures WordHolds(word, rate, soft, step)
  {
    hide Best, Choice, Soft1, Soft2, Offset;
    var s1, s2;
    s1, s2, m := ReadSoft(rate, soft, step, n);
    MetricBound(pm[..], rate, soft, step, c);
    OffsetMonotone(rate, step, step + 1);
    word := AddCompareSelect(rate, soft, step, s1, s2, pm, next, c);
    ghost var sums := next[..];
    ghost var top := Renormalise(next, pm);
    d := c + top;
    forall s | 0 <= s < STATES
      ensures pm[..][s] as int == Best(rate, soft, step + 1, s) - d
    {
      assert sums[s] as int == Best(rate, soft, step + 1, s) - c;
    }
    var z :| 0 <= z < STATES && pm[z] == 0;
    assert pm[..][z] == 0;
  }

  /** Runs the trellis over the whole block and returns the decision words and the final metrics. */
  method Forward(rate: nat, soft: seq<Int8>, steps: nat)
    returns (decisions: array<seq<bool>>, pm: array<Int32>, ghost c: int)
    requires rate < RATE_COUNT && Offset(rate, steps) <= |soft|
    ensures fresh(decisions) && fresh(pm) && decisions.Length == steps
    ensures Normalised(pm[..], rate, soft, steps, c)
    ensures DecisionsHold(decisions[..], rate, soft)
  {
    hide Offset;
    decisions := new seq<bool>[steps](_ => []);
    pm := new Int32[STATES];
    var next := new Int32[STATES];
    for s := 0 to STATES
      invariant forall k :: 0 <= k < s ==> pm[k] as int == Start(k)
    {
      pm[s] := if s == 0 then 0 else FLOOR;
    }
    var n := 0;
    c := 0;
    OffsetMonotone(rate, 0, steps);
    assert n == Offset(rate, 0) by { StartOffset(rate); }
    assert pm[..][0] == 0;
    hide Start, Best;
    for i := 0 to steps
      invariant n == Offset(rate, i)
      invariant Normalised(pm[..], rate, soft, i, c)
      invariant DecisionsHold(decisions[..i], rate, soft)
    {
      hide Normalised, WordHolds;
      OffsetMonotone(rate, i + 1, steps);
      var word;
      n, word, c := TrellisStep(rate, soft, i, n, pm, next, c);
      ghost var before := decisions[..i];
      decisions[i] := word;
      assert decisions[..i + 1] == before + [word];
    }
    assert decisions[..steps] == decisions[..];
  }

  /** margin is what the best path into state 0 is ahead of the best path into any other state. */
  ghost predicate IsMargin(rate: nat, soft: seq<Int8>, step: nat, margin: int) {
    rate < RATE_COUNT && Offset(rate, step) <= |soft| &&
    (forall s :: 1 <= s < STATES ==> Best(rate, soft, step, s) <= Best(rate, soft, step, 0) - margin) &&
    exists s :: 1 <= s < STATES && Best(rate, soft, step, s) == Best(rate, soft, step, 0) - margin
  }

  /** The highest metric of the states other than 0. */
  method Second(pm: array<Int32>) returns (second: Int32, ghost at: nat)
    requires pm.Length == STATES && forall k :: 0 <= k < STATES ==> pm[k] > INT32_MIN
    ensures 1 <= at < STATES && second == pm[at] && forall k :: 1 <= k < STATES ==> pm[k] <= second
  {
    second, at := INT32_MIN, 1;
    for s := 1 to STATES
      invariant 1 <= at < STATES && (s == 1 ==> second == INT32_MIN) && (s > 1 ==> second == pm[at])
      invariant forall k :: 1 <= k < s ==> pm[k] <= second
    {
      if pm[s] > second { second, at := pm[s], s; }
    }
  }

  /** The reliability metric: the margin of the final metrics, as the unsigned word it is stored in. */
  method Margin(rate: nat, ghost soft: seq<Int8>, ghost step: nat, pm: array<Int32>, ghost c: int)
    returns (metric: nat, ghost margin: int)
    requires Normalised(pm[..], rate, soft, step, c)
    ensures IsMargin(rate, soft, step, margin) && metric == margin % 0x1_0000_0000
  {
    hide Normalised, IsMargin, Best, Offset;
    MetricsInRange(pm[..], rate, soft, step, c);
    assert forall k :: 0 <= k < STATES ==> pm[..][k] == pm[k];
    var second;
    ghost var at;
    second, at := Second(pm);
    assert pm[0] == pm[..][0] && pm[at] == pm[..][at];
    var lead := pm[0] - second;
    margin := lead as int;
    metric := (lead as int) % 0x1_0000_0000;
    MarginOf(pm[..], rate, soft, step, c, at);
  }

  lemma MetricsInRange(pm: seq<Int32>, rate: nat, soft: seq<Int8>, step: nat, c: int)
    requires Normalised(pm, rate, soft, step, c)
    ensures |pm| == STATES && forall s :: 0 <= s < STATES ==> UNREACHED - 3072 <= pm[s] as int <= 0
  {
    hide Best, Offset;
    MetricBound(pm, rate, soft, step, c);
  }

  lemma MarginOf(pm: seq<Int32>, rate: nat, soft: seq<Int8>, step: nat, c: int, at: nat)
    requires Normalised(pm, rate, soft, step, c) && 1 <= at < STATES
    requires |pm| == STATES && forall k :: 1 <= k < STATES ==> pm[k] <= pm[at]
    ensures IsMargin(rate, soft, step, pm[0] as int - pm[at] as int)
  {
    hide Best, Offset;
    assert pm[0] as int == Best(rate, soft, step, 0) - c && pm[at] as int == Best(rate, soft, step, at) - c;
    forall s | 1 <= s < STATES
      ensures Best(rate, soft, step, s) <= Best(rate, soft, step, 0) - (pm[0] as int - pm[at] as int)
    {
      assert pm[s] as int == Best(rate, soft, step, s) - c;
    }
  }

  lemma StartOffset(rate: nat)
    requires rate < RATE_COUNT
    ensures Offset(rate, 0) == 0
  {
  }

  /** The step before a state on the surviving path. */
  lemma PrefixOfSurvivor(rate: nat, soft: seq<Int8>, step: nat, ns: nat)
    requires rate < RATE_COUNT && ns < STATES && 0 < step && Offset(rate, step - 1) <= Offset(rate, step) <= |soft|
    ensures var prev := Pred(ns, Choice(rate, soft, step - 1, ns));
            var u := Survivor(rate, soft, step, ns);
            u[..step - 1] == Survivor(rate, soft, step - 1, prev) && u[step - 1] == Newest(ns)
  {
    hide Survivor, Offset, Choice, Pred, Newest;
    SurvivorStep(rate, soft, step, ns, Pred(ns, Choice(rate, soft, step - 1, ns)));
  }

  /** Follows the decisions from state 0 and packs the information bits. */
  method TraceBack(rate: nat, ghost soft: seq<Int8>, infoBits: nat, decisions: seq<seq<bool>>, out: array<bv8>)
    requires rate < RATE_COUNT && |decisions| == infoBits + TAIL_BITS
    requires Offset(rate, infoBits + TAIL_BITS) <= |soft|
    requires DecisionsHold(decisions, rate, soft)
    requires (infoBits + 7) / 8 <= out.Length
    modifies out
    ensures var n := (infoBits + 7) / 8;
            && Unpack(out[..n], 8 * n) == Decoded(rate, soft, infoBits) + Zeros(8 * n - infoBits)
            && out[n..] == old(out[..])[n..]
  {
    hide Offset, Survivor, Choice, Marked, Unpack;
    var steps := infoBits + TAIL_BITS;
    var outBytes := (infoBits + 7) / 8;
    ghost var u := Survivor(rate, soft, steps, 0);
    Clear(out, outBytes, u, infoBits);
    var state: nat := 0;
    var i: nat := steps;
    assert u[..steps] == u;
    while i > 0
      invariant i <= steps && state < STATES && Offset(rate, i) <= |soft|
      invariant u[..i] == Survivor(rate, soft, i, state)
      invariant Marked(out[..outBytes], u, i, infoBits)
      invariant out[outBytes..] == old(out[..])[outBytes..]
    {
      var step := i - 1;
      OffsetMonotone(rate, step, i);
      PrefixOfSurvivor(rate, soft, i, state);
      assert u[..i][..step] == u[..step] && u[..i][step] == u[step];
      assert WordHolds(decisions[step], rate, soft, step);
      var bit := state / 32 == 1;
      var oldest := decisions[step][state];
      WriteBit(out, outBytes, u, step, infoBits, bit);
      state := 2 * state % STATES + Count(oldest);
      i := step;
    }
    MarkedIsDecoded(out[..outBytes], u, infoBits);
  }

  method Clear(out: array<bv8>, outBytes: nat, ghost u: seq<bool>, infoBits: nat)
    requires outBytes <= out.Length && infoBits <= |u|
    modifies out
    ensures Marked(out[..outBytes], u, |u|, infoBits) && out[outBytes..] == old(out[..])[outBytes..]
  {
    for i := 0 to outBytes
      invariant forall k :: 0 <= k < i ==> out[k] == 0
      invariant out[outBytes..] == old(out[..])[outBytes..]
    {
      out[i] := 0;
    }
  }

  /** Packs one bit of the path; the tail bits are not packed. */
  method WriteBit(out: array<bv8>, outBytes: nat, ghost u: seq<bool>, step: nat, infoBits: nat, bit: bool)
    requires outBytes <= out.Length && step < |u| && infoBits <= |u| && infoBits <= 8 * outBytes && bit == u[step]
    requires Marked(out[..outBytes], u, step + 1, infoBits)
    modifies out
    ensures Marked(out[..outBytes], u, step, infoBits) && out[outBytes..] == old(out[..])[outBytes..]
  {
    ghost var before := out[..outBytes];
    if step < infoBits && bit {
      out[step / 8] := out[step / 8] | Mask(step % 8);
      MarkBit(before, u, step, infoBits);
      assert out[..outBytes] == before[step / 8 := before[step / 8] | Mask(step % 8)];
    }
  }

  /** The information bits u[from..] are set in the packed bytes, all others are clear. */
  ghost predicate Marked(bytes: seq<bv8>, u: seq<bool>, from: nat, infoBits: nat)
    requires infoBits <= |u|
  {
    forall j, k :: 0 <= j < |bytes| && 0 <= k < 8 ==>
      (BitOf(bytes[j], k) <==> from <= 8 * j + k < infoBits && u[8 * j + k])
  }

  lemma MarkBit(bytes: seq<bv8>, u: seq<bool>, step: nat, infoBits: nat)
    requires step < infoBits <= |u| && infoBits <= 8 * |bytes| && u[step]
    requires Marked(bytes, u, step + 1, infoBits)
    ensures Marked(bytes[step / 8 := bytes[step / 8] | Mask(step % 8)], u, step, infoBits)
  {
    hide BitOf, Mask;
    var q, r := step / 8, step % 8;
    var after := bytes[q := bytes[q] | Mask(r)];
    forall j, k | 0 <= j < |bytes| && 0 <= k < 8
      ensures BitOf(after[j], k) <==> step <= 8 * j + k < infoBits && u[8 * j + k]
    {
      assert BitOf(bytes[j], k) <==> step + 1 <= 8 * j + k < infoBits && u[8 * j + k];
      if j == q {
        SetBit(bytes[q], r, k);
        assert after[j] == bytes[q] | Mask(r);
        assert 8 * j + k == step <==> k == r;
      } else {
        assert after[j] == bytes[j] && 8 * j + k != step;
      }
    }
  }

  lemma MarkedIsDecoded(bytes: seq<bv8>, u: seq<bool>, infoBits: nat)
    requires infoBits <= |u| && |bytes| == (infoBits + 7) / 8
    requires Marked(bytes, u, 0, infoBits)
    ensures Unpack(bytes, 8 * |bytes|) == u[..infoBits] + Zeros(8 * |bytes| - infoBits)
  {
    hide BitOf;
    var a, b := Unpack(bytes, 8 * |bytes|), u[..infoBits] + Zeros(8 * |bytes| - infoBits);
    forall i | 0 <= i < 8 * |bytes|
      ensures a[i] == b[i]
    {
      assert BitOf(bytes[i / 8], i % 8) <==> 0 <= 8 * (i / 8) + i % 8 < infoBits && u[8 * (i / 8) + i % 8];
    }
  }

  /** The decoder: on success the packed result is the most likely information word, and the unused
      bits of the last byte are zero; on an error nothing is written. */
  method Decode(soft: seq<Int8>, infoBits: nat, rate: nat, out: array<bv8>)
    returns (status: Status, metric: nat, ghost margin: int)
    requires infoBits <= MAX_INFO_BITS ==> (infoBits + 7) / 8 <= out.Length
    modifies out
    ensures status.Ok? <==> rate < RATE_COUNT && CodedBitsSpec(infoBits, rate) <= |soft| && infoBits <= MAX_INFO_BITS
    ensures !status.Ok? ==> out[..] == old(out[..])
    ensures status.Ok? ==>
              var n := (infoBits + 7) / 8;
              && Unpack(out[..n], 8 * n) == Decoded(rate, soft, infoBits) + Zeros(8 * n - infoBits)
              && out[n..] == old(out[..])[n..]
    ensures status.Ok? ==> MostLikely(rate, soft, Decoded(rate, soft, infoBits))
    ensures status.Ok? ==> IsMargin(rate, soft, infoBits + TAIL_BITS, margin) && metric == margin % 0x1_0000_0000
  {
    hide Offset, Survivor, Choice, MostLikely, DecisionsHold, Unpack, Normalised, IsMargin;
    metric, margin := 0, 0;
    var needed := CodedBits(infoBits, rate);
    assert rate < RATE_COUNT ==> needed >= TAIL_BITS;
    if needed == 0 || |soft| < needed || infoBits > MAX_INFO_BITS { return ErrRange, metric, margin; }
    var decisions, pm;
    ghost var c;
    decisions, pm, c := Forward(rate, soft, infoBits + TAIL_BITS);
    metric, margin := Margin(rate, soft, infoBits + TAIL_BITS, pm, c);
    TraceBack(rate, soft, infoBits, decisions[..], out);
    NoneIsMoreLikely(rate, soft, infoBits);
    status := Ok;
  }

  /** No word of the same length correlates better. */
  ghost predicate MostLikely(rate: nat, soft: seq<Int8>, u: seq<bool>) {
    rate < RATE_COUNT && Offset(rate, |u| + TAIL_BITS) <= |soft| &&
    forall w: seq<bool> :: |w| == |u| ==> Likelihood(rate, soft, w) <= Likelihood(rate, soft, u)
  }

  lemma NoneIsMoreLikely(rate: nat, soft: seq<Int8>, infoBits: nat)
    requires rate < RATE_COUNT && infoBits <= MAX_INFO_BITS && Offset(rate, infoBits + TAIL_BITS) <= |soft|
    ensures MostLikely(rate, soft, Decoded(rate, soft, infoBits))
  {
    hide Offset, Likelihood, Decoded;
    forall w: seq<bool> | |w| == infoBits
      ensures Likelihood(rate, soft, w) <= Likelihood(rate, soft, Decoded(rate, soft, infoBits))
    {
      DecodedIsMostLikely(rate, soft, infoBits, w);
    }
  }
}
