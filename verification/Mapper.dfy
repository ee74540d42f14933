/** The bit-to-symbol mapping of the three modulations; amplitudes are the decimal constants of the source
    as real numbers. */
module Mapper {

  import opened FrameLayout

  const INV_SQRT2: real := 0.70710678

  /** Cosine and sine of the eight phases. */
  function Phase8(m: nat): Symbol
    requires m < 8
  {
    match m
    case 0 => Symbol(1.0, 0.0)
    case 1 => Symbol(INV_SQRT2, INV_SQRT2)
    case 2 => Symbol(0.0, 1.0)
    case 3 => Symbol(-INV_SQRT2, INV_SQRT2)
    case 4 => Symbol(-1.0, 0.0)
    case 5 => Symbol(-INV_SQRT2, -INV_SQRT2)
    case 6 => Symbol(0.0, -1.0)
    case _ => Symbol(INV_SQRT2, -INV_SQRT2)
  }

  /** Three binary digits, most significant first. */
  datatype Label = Label(b2: bool, b1: bool, b0: bool)

  function Digits(m: nat): Label
    requires m < 8
  {
    Label(m / 4 == 1, m / 2 % 2 == 1, m % 2 == 1)
  }

  /** m exclusive-or m / 2, digit by digit. */
  function Gray(m: nat): Label
    requires m < 8
  {
    var d := Digits(m);
    Label(d.b2, d.b1 != d.b2, d.b0 != d.b1)
  }

  /** The phase whose Gray label is the given one. */
  function Ungray(l: Label): (m: nat)
    ensures m < 8 && Gray(m) == l
  {
    var d1 := l.b1 != l.b2;
    var d0 := l.b0 != d1;
    (if l.b2 then 4 else 0) + (if d1 then 2 else 0) + if d0 then 1 else 0
  }

  lemma GrayIsInjective(m: nat, n: nat)
    requires m < 8 && n < 8
    ensures Gray(m) == Gray(n) <==> m == n
  {
  }

  function Different(a: Label, b: Label): nat {
    (if a.b2 != b.b2 then 1 else 0) + (if a.b1 != b.b1 then 1 else 0) + if a.b0 != b.b0 then 1 else 0
  }

  /** Neighbouring phases, around the circle, have labels that differ in exactly one bit. */
  lemma NeighboursDifferInOneBit(m: nat)
    requires m < 8
    ensures Different(Gray(m), Gray((m + 1) % 8)) == 1
  {
  }

  /** The symbol of one group of bits. */
  function Point(bits: seq<bool>): Symbol
    requires 1 <= |bits| <= 3
  {
    if |bits| == 1 then Bpsk(bits[0])
    else if |bits| == 2 then
      Symbol(if bits[0] then -INV_SQRT2 else INV_SQRT2, if bits[1] then -INV_SQRT2 else INV_SQRT2)
    else Phase8(Ungray(Label(bits[0], bits[1], bits[2])))
  }

  /** The labels of 8PSK around the circle, from the positive real axis in steps of 45 degrees. */
  lemma LabelsAroundCircle()
    ensures Point([false, false, false]) == Symbol(1.0, 0.0)
    ensures Point([false, false, true]) == Symbol(INV_SQRT2, INV_SQRT2)
    ensures Point([false, true, true]) == Symbol(0.0, 1.0)
    ensures Point([false, true, false]) == Symbol(-INV_SQRT2, INV_SQRT2)
    ensures Point([true, true, false]) == Symbol(-1.0, 0.0)
    ensures Point([true, true, true]) == Symbol(-INV_SQRT2, -INV_SQRT2)
    ensures Point([true, false, true]) == Symbol(0.0, -1.0)
    ensures Point([true, false, false]) == Symbol(INV_SQRT2, -INV_SQRT2)
  {
  }

  /** In BPSK and QPSK the sign of each axis in use is its bit, and QPSK uses the diagonals. */
  lemma SignsAreBits(a: bool, b: bool)
    ensures Point([a]).im == 0.0 && (Point([a]).re < 0.0 <==> a) && Point([a]).re * Point([a]).re == 1.0
    ensures var s := Point([a, b]);
            && (s.re < 0.0 <==> a) && (s.im < 0.0 <==> b)
            && s.re * s.re == s.im * s.im == INV_SQRT2 * INV_SQRT2
  {
  }

  /** Different bits give different symbols in every modulation. */
  lemma PointIsInjective(a: seq<bool>, b: seq<bool>)
    requires 1 <= |a| == |b| <= 3 && Point(a) == Point(b)
    ensures a == b
  {
    if |a| == 3 {
      PhasesDiffer(Ungray(Label(a[0], a[1], a[2])), Ungray(Label(b[0], b[1], b[2])));
    }
  }

  lemma PhasesDiffer(m: nat, n: nat)
    requires m < 8 && n < 8 && Phase8(m) == Phase8(n)
    ensures m == n
  {
  }

  lemma GroupInside(k: nat, bps: nat, n: nat)
    requires k < n
    ensures k * bps + bps <= n * bps
  {
    var d := n - k - 1;
    assert n * bps == k * bps + bps + d * bps;
  }

  /** Group k of bps bits. */
  function Group(bits: seq<bool>, k: nat, bps: nat, n: nat): (g: seq<bool>)
    requires k < n && |bits| == n * bps
    ensures |g| == bps
  {
    GroupInside(k, bps, n);
    var at := k * bps;
    bits[at..at + bps]
  }

  /** n symbols from n groups of bps bits. */
  function Mapped(bps: nat, bits: seq<bool>, n: nat): (s: seq<Symbol>)
    requires 1 <= bps <= 3 && |bits| == n * bps
    ensures |s| == n
  {
    seq(n, k requires 0 <= k < n => Point(Group(bits, k, bps, n)))
  }

  /** The bits can be read back from the symbols. */
  lemma MappedIsInjective(bps: nat, a: seq<bool>, b: seq<bool>, n: nat)
    requires 1 <= bps <= 3 && |a| == |b| == n * bps && Mapped(bps, a, n) == Mapped(bps, b, n)
    ensures a == b
  {
    hide Point, Group;
    forall i | 0 <= i < |a|
      ensures a[i] == b[i]
    {
      var k, j := GroupOf(i, bps, n);
      assert Mapped(bps, a, n)[k] == Mapped(bps, b, n)[k];
      PointIsInjective(Group(a, k, bps, n), Group(b, k, bps, n));
      GroupReads(a, k, bps, n, i, j);
      GroupReads(b, k, bps, n, i, j);
    }
  }

  lemma GroupOf(i: nat, bps: nat, n: nat) returns (k: nat, j: nat)
    requires 1 <= bps <= 3 && i < n * bps
    ensures k < n && j < bps && i == k * bps + j
  {
    k, j := i / bps, i % bps;
    if bps == 1 {
    } else if bps == 2 {
    } else {
    }
  }

  lemma GroupReads(bits: seq<bool>, k: nat, bps: nat, n: nat, i: nat, j: nat)
    requires k < n && j < bps && |bits| == n * bps && i == k * bps + j
    ensures i < |bits| && bits[i] == Group(bits, k, bps, n)[j]
  {
    GroupInside(k, bps, n);
  }

  /** The phase for a label, found by trying all eight. */
  method FindPhase(l: Label) returns (s: Symbol)
    ensures s == Phase8(Ungray(l))
  {
    s := Symbol(0.0, 0.0);
    for m := 0 to 8
      invariant m > Ungray(l) ==> s == Phase8(Ungray(l))
    {
      GrayIsInjective(m, Ungray(l));
      if Gray(m) == l { s := Phase8(m); }
    }
  }

  method MapGroup(group: seq<bool>) returns (s: Symbol)
    requires 1 <= |group| <= 3
    ensures s == Point(group)
  {
    if |group| == 1 {
      s := Bpsk(group[0]);
    } else if |group| == 2 {
      s := Symbol(if group[0] then -INV_SQRT2 else INV_SQRT2, if group[1] then -INV_SQRT2 else INV_SQRT2);
    } else {
      s := FindPhase(Label(group[0], group[1], group[2]));
    }
  }

  /** Whole groups, and no more than fit. */
  predicate Fits(bps: nat, nbits: nat, maxSymbols: nat) {
    1 <= bps <= 3 && nbits % bps == 0 && nbits / bps <= maxSymbols
  }

  function Groups(bps: nat, nbits: nat): nat
    requires bps > 0
  {
    nbits / bps
  }

  lemma WholeGroups(bps: nat, nbits: nat, maxSymbols: nat)
    requires Fits(bps, nbits, maxSymbols)
    ensures 1 <= bps <= 3 && nbits == Groups(bps, nbits) * bps && Groups(bps, nbits) <= maxSymbols
  {
  }

  /** Maps whole groups of bits, or refuses and writes nothing. */
  method Map(bps: nat, bits: seq<bool>, symbols: array<Symbol>) returns (ok: bool, n: nat)
    modifies symbols
    ensures ok <==> Fits(bps, |bits|, symbols.Length)
    ensures !ok ==> symbols[..] == old(symbols[..])
    ensures ok ==> |bits| == n * bps && n <= symbols.Length && symbols[..n] == Mapped(bps, bits, n)
  {
    hide Point, Group, Fits, Groups;
    if !Fits(bps, |bits|, symbols.Length) { return false, 0; }
    WholeGroups(bps, |bits|, symbols.Length);
    n := Groups(bps, |bits|);
    for k := 0 to n
      invariant symbols[..k] == Mapped(bps, bits, n)[..k]
    {
      symbols[k] := MapGroup(Group(bits, k, bps, n));
    }
    ok := true;
  }
}
