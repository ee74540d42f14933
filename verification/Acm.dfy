/** The adaptive coding and modulation controller: one decision per frame, with hysteresis. */
module Acm {

  import opened Arith

  const MODCODS: nat := 5

  datatype Settings = Settings(minModcod: nat, maxModcod: nat, margin: real, hysteresis: real, upHold: nat)

  /** Es/N0 threshold of a MODCOD in dB. */
  function Threshold(m: nat): real
    requires m < MODCODS
  {
    match m
    case 0 => 2.0
    case 1 => 4.5
    case 2 => 7.0
    case 3 => 10.0
    case _ => 12.5
  }

  lemma ThresholdsGrow(m: nat, n: nat)
    requires m < n < MODCODS
    ensures Threshold(m) < Threshold(n)
  {
  }

  predicate ConfigValid(c: Settings) {
    c.minModcod <= c.maxModcod < MODCODS && c.margin >= 0.0 && c.hysteresis >= 0.0 && 0 < c.upHold < 0x1_0000
  }

  type Config = c: Settings | ConfigValid(c) witness Settings(0, 4, 1.0, 1.0, 3)

  /** Es/N0 is enough to stay at m. */
  predicate Enough(c: Config, m: nat, esn0: real)
    requires m < MODCODS
  {
    Threshold(m) + c.margin <= esn0
  }

  /** Es/N0 is enough to step up to m. */
  predicate Good(c: Config, m: nat, esn0: real)
    requires m < MODCODS
  {
    esn0 >= Threshold(m) + c.margin + c.hysteresis
  }

  /** t is the most efficient level in range with enough Es/N0, or the lowest one. */
  predicate IsTarget(c: Config, esn0: real, t: nat) {
    c.minModcod <= t <= c.maxModcod && (t == c.minModcod || Enough(c, t, esn0)) &&
    forall m :: t < m <= c.maxModcod ==> !Enough(c, m, esn0)
  }

  function TargetUpTo(c: Config, esn0: real, n: nat): (t: nat)
    requires c.minModcod <= n <= c.maxModcod
    ensures c.minModcod <= t <= n && (t == c.minModcod || Enough(c, t, esn0))
    ensures forall m :: t < m <= n ==> !Enough(c, m, esn0)
    decreases n
  {
    if Enough(c, n, esn0) || n == c.minModcod then n else TargetUpTo(c, esn0, n - 1)
  }

  function Target(c: Config, esn0: real): (t: nat)
    ensures IsTarget(c, esn0, t)
  {
    TargetUpTo(c, esn0, c.maxModcod)
  }

  lemma TargetIsUnique(c: Config, esn0: real, s: nat, t: nat)
    requires IsTarget(c, esn0, s) && IsTarget(c, esn0, t)
    ensures s == t
  {
  }

  // ---- The controller ----

  datatype Controller = Controller(config: Config, current: nat, goodCount: nat, ups: nat, downs: nat, decisions: nat)

  predicate InRange(a: Controller) {
    a.config.minModcod <= a.current <= a.config.maxModcod && a.goodCount < a.config.upHold
  }

  function Start(c: Config): (a: Controller)
    ensures InRange(a)
  {
    Controller(c, c.minModcod, 0, 0, 0, 0)
  }

  function Clamp(x: nat, low: nat, high: nat): nat
    requires low <= high
  {
    if x < low then low else if x > high then high else x
  }

  function Configure(a: Controller, c: Settings): (b: Controller)
    requires InRange(a)
    ensures InRange(b)
  {
    if ConfigValid(c) then a.(config := c, current := Clamp(a.current, c.minModcod, c.maxModcod), goodCount := 0) else a
  }

  /** One decision. */
  function Update(a: Controller, esn0: real, locked: bool): (b: Controller)
    requires InRange(a)
    ensures InRange(b) && b.config == a.config && b.decisions == a.decisions + 1
  {
    var c := a.config;
    var d := a.(decisions := a.decisions + 1);
    if !locked then
      d.(current := c.minModcod, goodCount := 0, downs := a.downs + if a.current != c.minModcod then 1 else 0)
    else if !Enough(c, a.current, esn0) then
      var t := Target(c, esn0);
      if t < a.current then d.(current := t, goodCount := 0, downs := a.downs + 1) else d.(goodCount := 0)
    else if a.current == c.maxModcod then d
    else if !Good(c, a.current + 1, esn0) then d.(goodCount := 0)
    else if a.goodCount + 1 >= c.upHold then d.(current := a.current + 1, goodCount := 0, ups := a.ups + 1)
    else d.(goodCount := a.goodCount + 1)
  }

  // ---- Runs ----

  datatype Decision = Frame(esn0: real, locked: bool) | NewConfig(config: Settings)

  function Decide(a: Controller, d: Decision): (b: Controller)
    requires InRange(a)
    ensures InRange(b)
  {
    match d
    case Frame(esn0, locked) => Update(a, esn0, locked)
    case NewConfig(c) => Configure(a, c)
  }

  /** Any mix of decisions and new configurations; the level never leaves the configured range. */
  function Run(a: Controller, ds: seq<Decision>): (b: Controller)
    requires InRange(a)
    ensures InRange(b)
  {
    if ds == [] then a else Decide(Run(a, ds[..|ds| - 1]), ds[|ds| - 1])
  }

  /** Between a rise to a level and a fall from it under lock, Es/N0 has dropped by more than the
      hysteresis, so noise smaller than that cannot make the controller oscillate. */
  lemma RiseAndFallAreApart(a: Controller, b: Controller, up: real, down: real)
    requires InRange(a) && InRange(b) && a.config == b.config
    requires Update(a, up, true).current > a.current
    requires b.current == Update(a, up, true).current && Update(b, down, true).current < b.current
    ensures up - down > a.config.hysteresis
    ensures b.current == a.current + 1
  {
  }

  predicate OnlyFrames(ds: seq<Decision>) {
    forall k :: 0 <= k < |ds| ==> ds[k].Frame?
  }

  /** The controller after the first n decisions. */
  function At(a: Controller, ds: seq<Decision>, n: nat): (b: Controller)
    requires InRange(a) && n <= |ds|
    ensures InRange(b)
  {
    Run(a, ds[..n])
  }

  /** In a run of frames: whatever lies between decision i, a rise to m, and decision j, a fall from m
      under lock. */
  lemma HysteresisHolds(a: Controller, ds: seq<Decision>, i: nat, j: nat)
    requires InRange(a) && i < j < |ds| && OnlyFrames(ds) && ds[i].Frame? && ds[j].Frame? && ds[j].locked
    requires At(a, ds, i + 1).current > At(a, ds, i).current
    requires At(a, ds, j).current == At(a, ds, i + 1).current > At(a, ds, j + 1).current
    ensures ds[i].esn0 - ds[j].esn0 > a.config.hysteresis
  {
    hide *;
    FrameStep(a, ds, i);
    FrameStep(a, ds, j);
    RisesOnlyLocked(At(a, ds, i), ds[i].esn0, ds[i].locked);
    RiseAndFallAreApart(At(a, ds, i), At(a, ds, j), ds[i].esn0, ds[j].esn0);
  }

  /** A frame in the middle of a run is one decision with the configuration of its start. */
  lemma FrameStep(a: Controller, ds: seq<Decision>, n: nat)
    requires InRange(a) && n < |ds| && OnlyFrames(ds)
    ensures var b := At(a, ds, n);
            ds[n].Frame? && b.config == a.config && At(a, ds, n + 1) == Update(b, ds[n].esn0, ds[n].locked)
  {
    hide Update, Run, InRange, ConfigValid;
    FramesKeepConfig(a, ds, n);
    RunStep(a, ds, n);
  }

  lemma RisesOnlyLocked(a: Controller, esn0: real, locked: bool)
    requires InRange(a) && Update(a, esn0, locked).current > a.current
    ensures locked
  {
  }

  lemma RunStep(a: Controller, ds: seq<Decision>, n: nat)
    requires InRange(a) && n < |ds|
    ensures Run(a, ds[..n + 1]) == Decide(Run(a, ds[..n]), ds[n])
  {
    assert ds[..n + 1][..n] == ds[..n];
  }

  lemma {:induction false} FramesKeepConfig(a: Controller, ds: seq<Decision>, n: nat)
    requires InRange(a) && n <= |ds| && forall k :: 0 <= k < |ds| ==> ds[k].Frame?
    ensures Run(a, ds[..n]).config == a.config
  {
    if n > 0 {
      FramesKeepConfig(a, ds, n - 1);
      RunStep(a, ds, n - 1);
    }
  }

  // ---- Constant Es/N0 under lock ----

  function Steady(a: Controller, esn0: real, n: nat): (b: Controller)
    requires InRange(a)
    ensures InRange(b) && b.config == a.config
  {
    if n == 0 then a else Update(Steady(a, esn0, n - 1), esn0, true)
  }

  /** The highest level the controller climbs to from m. */
  function Summit(c: Config, m: nat, esn0: real): (s: nat)
    requires m <= c.maxModcod
    ensures m <= s <= c.maxModcod
    ensures forall k :: m < k <= s ==> Good(c, k, esn0)
    ensures s < c.maxModcod ==> !Good(c, s + 1, esn0)
    decreases c.maxModcod - m
  {
    if m < c.maxModcod && Good(c, m + 1, esn0) then Summit(c, m + 1, esn0) else m
  }

  function Laps(x: nat, h: nat): nat
    requires h > 0
  {
    x / h
  }

  function Left(x: nat, h: nat): nat
    requires h > 0
  {
    x % h
  }

  /** A level just stepped up to has enough Es/N0. */
  lemma GoodIsEnough(c: Config, m: nat, esn0: real)
    requires m < MODCODS && Good(c, m, esn0)
    ensures Enough(c, m, esn0)
  {
  }

  /** What one decision does on the way up. */
  lemma ClimbStep(a: Controller, esn0: real, summit: nat)
    requires InRange(a) && Enough(a.config, a.current, esn0) && a.current < summit <= a.config.maxModcod
    requires Good(a.config, a.current + 1, esn0)
    ensures var b := Update(a, esn0, true);
            if a.goodCount + 1 == a.config.upHold then
              b.current == a.current + 1 && b.goodCount == 0 && b.ups == a.ups + 1 && b.downs == a.downs &&
              Enough(b.config, b.current, esn0)
            else b.current == a.current && b.goodCount == a.goodCount + 1 && b.ups == a.ups && b.downs == a.downs
  {
    GoodIsEnough(a.config, a.current + 1, esn0);
  }

  lemma RestStep(a: Controller, esn0: real)
    requires InRange(a) && Enough(a.config, a.current, esn0)
    requires a.current < a.config.maxModcod ==> !Good(a.config, a.current + 1, esn0)
    ensures var b := Update(a, esn0, true);
            b.current == a.current && b.ups == a.ups && b.downs == a.downs && (a.goodCount == 0 ==> b.goodCount == 0)
  {
  }

  /** Climbing: the whole trajectory. One level per upHold decisions, up to the summit and no further. */
  lemma {:induction false} SteadyClimb(a: Controller, esn0: real, n: nat)
    requires InRange(a) && Enough(a.config, a.current, esn0) && a.current < Summit(a.config, a.current, esn0)
    ensures var b := Steady(a, esn0, n); var summit := Summit(a.config, a.current, esn0); var h := a.config.upHold;
            b.current == Min(summit, a.current + Laps(a.goodCount + n, h)) && Enough(a.config, b.current, esn0) &&
            b.goodCount == (if b.current < summit then Left(a.goodCount + n, h) else 0) &&
            b.ups == a.ups + (b.current - a.current) && b.downs == a.downs
  {
    hide Summit, Good, Enough, Update, Laps, Left;
    var h := a.config.upHold;
    if n == 0 {
      Below(a.goodCount, h);
    } else {
      SteadyClimb(a, esn0, n - 1);
      Next(a.goodCount + n - 1, h);
      var b := Steady(a, esn0, n - 1);
      if b.current < Summit(a.config, a.current, esn0) {
        ClimbStep(b, esn0, Summit(a.config, a.current, esn0));
      } else {
        RestStep(b, esn0);
      }
    }
  }

  /** At the summit: nothing moves. */
  lemma {:induction false} SteadyAtSummit(a: Controller, esn0: real, n: nat)
    requires InRange(a) && Enough(a.config, a.current, esn0) && a.current == Summit(a.config, a.current, esn0)
    ensures var b := Steady(a, esn0, n); b.current == a.current && b.ups == a.ups && b.downs == a.downs
  {
    hide Summit, Good, Enough, Update;
    if n > 0 {
      SteadyAtSummit(a, esn0, n - 1);
      RestStep(Steady(a, esn0, n - 1), esn0);
    }
  }

  lemma Below(x: nat, h: nat)
    requires x < h
    ensures Laps(x, h) == 0 && Left(x, h) == x
  {
  }

  lemma Next(x: nat, h: nat)
    requires h > 0
    ensures if Left(x, h) + 1 == h then Laps(x + 1, h) == Laps(x, h) + 1 && Left(x + 1, h) == 0
            else Laps(x + 1, h) == Laps(x, h) && Left(x + 1, h) == Left(x, h) + 1
  {
    var q, r := x / h, x % h;
    assert x == h * q + r;
    if r + 1 == h {
      assert x + 1 == h * (q + 1);
      Quotient(x + 1, h, q + 1, 0);
    } else {
      Quotient(x + 1, h, q, r + 1);
    }
  }

  lemma Quotient(x: nat, h: nat, q: nat, r: nat)
    requires r < h && x == h * q + r
    ensures x / h == q && x % h == r
  {
    RemainderIsUnique(x, h, q, r);
    var d := x / h - q;
    assert h * d == 0;
    Product(h, d);
  }

  lemma QuotientAtLeast(x: nat, h: nat, k: nat)
    requires h > 0 && x >= k * h
    ensures Laps(x, h) >= k
  {
    var d := x / h - k;
    assert h * d == x - x % h - k * h;
    Product(h, d);
  }

  /** Falling: one change at most, and then nothing moves any more. */
  lemma {:induction false} SteadyFall(a: Controller, esn0: real, n: nat)
    requires InRange(a) && !Enough(a.config, a.current, esn0) && n > 0
    ensures var b := Steady(a, esn0, n);
            b.current == Target(a.config, esn0) && b.goodCount == 0 && b.ups == a.ups &&
            b.downs == a.downs + if Target(a.config, esn0) < a.current then 1 else 0
  {
    hide Good, Enough, Target;
    var t := Target(a.config, esn0);
    if n > 1 {
      SteadyFall(a, esn0, n - 1);
      AtTarget(a.config, esn0, t);
    } else {
      assert Steady(a, esn0, 0) == a;
      NotAbove(a, esn0);
    }
  }

  lemma AtTarget(c: Config, esn0: real, t: nat)
    requires IsTarget(c, esn0, t)
    ensures Enough(c, t, esn0) || t == c.minModcod
    ensures t < c.maxModcod ==> !Good(c, t + 1, esn0)
  {
    if t < c.maxModcod && Good(c, t + 1, esn0) { GoodIsEnough(c, t + 1, esn0); }
  }

  /** Without enough Es/N0 the target is not above the current level. */
  lemma NotAbove(a: Controller, esn0: real)
    requires InRange(a) && !Enough(a.config, a.current, esn0)
    ensures Target(a.config, esn0) <= a.current
  {
    var t := Target(a.config, esn0);
    if t > a.current { ThresholdsGrow(a.current, t); }
  }

  /** The level at which the controller comes to rest. */
  function Rest(a: Controller, esn0: real): nat
    requires InRange(a)
  {
    if Enough(a.config, a.current, esn0) then Summit(a.config, a.current, esn0) else Target(a.config, esn0)
  }

  /** Under constant Es/N0 and lock the level is at rest after (max - min) * upHold decisions, and there
      were at most max - min changes on the way. */
  lemma SteadyRests(a: Controller, esn0: real, n: nat)
    requires InRange(a) && n >= (a.config.maxModcod - a.config.minModcod) * a.config.upHold
    ensures n > 0 ==> Steady(a, esn0, n).current == Rest(a, esn0)
    ensures var b := Steady(a, esn0, n);
            b.ups + b.downs - a.ups - a.downs <= a.config.maxModcod - a.config.minModcod
  {
    hide Summit, Good, Enough, Target, Steady, Update;
    if !Enough(a.config, a.current, esn0) {
      if n > 0 {
        SteadyFall(a, esn0, n);
        NotAbove(a, esn0);
      } else {
        NoSteps(a, esn0);
      }
    } else if a.current == Summit(a.config, a.current, esn0) {
      SteadyAtSummit(a, esn0, n);
    } else {
      SteadyClimb(a, esn0, n);
      QuotientAtLeast(a.goodCount + n, a.config.upHold, a.config.maxModcod - a.config.minModcod);
    }
  }

  lemma NoSteps(a: Controller, esn0: real)
    requires InRange(a)
    ensures Steady(a, esn0, 0) == a
  {
  }
}
