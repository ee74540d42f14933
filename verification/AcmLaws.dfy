/** What the controller promises of single decisions and of any run of frames: when a level is left, kept or
    reached, and how fast it can rise. */
module AcmLaws {

  import opened Acm

  /** Es/N0 in dB above which a level may be kept and, with hysteresis, be stepped up to. */
  function KeepFrom(c: Config, m: nat): real
    requires m < MODCODS
  {
    [2.0, 4.5, 7.0, 10.0, 12.5][m] + c.margin
  }

  /** Without lock the controller falls to the lowest level at once, counts one change unless it is there, and the
      rise starts over. */
  lemma LockLossFallsToLowest(a: Controller, esn0: real)
    requires InRange(a)
    ensures Update(a, esn0, false)
         == a.(current := a.config.minModcod, goodCount := 0, decisions := a.decisions + 1,
               downs := a.downs + if a.current > a.config.minModcod then 1 else 0)
  {
  }

  /** Under lock a decision ends on a level above the lowest only with the Es/N0 it needs, and it never skips a level
      that Es/N0 allows on the way down. */
  lemma LevelIsSupported(a: Controller, esn0: real)
    requires InRange(a)
    ensures var b, c := Update(a, esn0, true), a.config;
            && (b.current > c.minModcod ==> esn0 >= KeepFrom(c, b.current))
            && (b.current < a.current <==> a.current > c.minModcod && esn0 < KeepFrom(c, a.current))
            && (b.current < a.current ==> forall m :: b.current < m < a.current ==> esn0 < KeepFrom(c, m))
  {
    hide Target;
    var b, c := Update(a, esn0, true), a.config;
    if b.current < a.current {
      forall m | b.current < m < a.current
        ensures esn0 < KeepFrom(c, m)
      {
        assert !Enough(c, m, esn0);
      }
    } else if !Enough(c, a.current, esn0) {
      AboveFails(c, esn0, a.current);
    }
  }

  /** A target that is not below a level without enough Es/N0 is that level, and it is the lowest one. */
  lemma AboveFails(c: Config, esn0: real, m: nat)
    requires c.minModcod <= m <= c.maxModcod && !Enough(c, m, esn0) && Target(c, esn0) >= m
    ensures m == c.minModcod
  {
    var t := Target(c, esn0);
    if t > m { ThresholdsGrow(m, t); }
  }

  /** A rise is one level, under lock, with margin and hysteresis above the threshold of the new one, after enough
      frames in a row; and all that together makes it rise. */
  lemma RisesIff(a: Controller, esn0: real, locked: bool)
    requires InRange(a)
    ensures var b, c := Update(a, esn0, locked), a.config;
            (b.current > a.current <==>
               && locked && a.current < c.maxModcod && esn0 >= KeepFrom(c, a.current + 1) + c.hysteresis
               && a.goodCount + 1 == c.upHold) &&
            (b.current > a.current ==> b.current == a.current + 1 && b.ups == a.ups + 1)
  {
    hide Target;
    if a.current < a.config.maxModcod && Good(a.config, a.current + 1, esn0) {
      GoodIsEnough(a.config, a.current + 1, esn0);
      ThresholdsGrow(a.current, a.current + 1);
    }
    if !Enough(a.config, a.current, esn0) { NotAbove(a, esn0); }
  }

  /** The configuration decides the level only where it must: a level inside the new range stays, any other moves to
      the nearer end. */
  lemma ConfigureMovesToNearest(a: Controller, c: Settings, m: nat)
    requires InRange(a) && ConfigValid(c) && c.minModcod <= m <= c.maxModcod
    ensures var b := Configure(a, c);
            && b.config == c && c.minModcod <= b.current <= c.maxModcod
            && Distance(b.current, a.current) <= Distance(m, a.current)
            && b == a.(config := c, current := b.current, goodCount := 0)
  {
  }

  function Distance(x: nat, y: nat): nat {
    if x <= y then y - x else x - y
  }

  // ---- Runs of frames ----

  /** Frame k was locked and good enough for the level above the one it found. */
  ghost predicate HeldAt(a: Controller, ds: seq<Decision>, k: nat, level: nat)
    requires InRange(a) && k < |ds|
  {
    && ds[k].Frame? && ds[k].locked && At(a, ds, k).current == level < a.config.maxModcod
    && ds[k].esn0 >= KeepFrom(a.config, level + 1) + a.config.hysteresis
  }

  /** The hold counter counts a row of such frames that ends now. */
  ghost predicate CountsHeld(a: Controller, ds: seq<Decision>, n: nat)
    requires InRange(a) && n <= |ds|
  {
    var b := At(a, ds, n);
    b.goodCount <= n && forall k :: n - b.goodCount <= k < n ==> HeldAt(a, ds, k, b.current)
  }

  lemma HoldStep(a: Controller, esn0: real, locked: bool)
    requires InRange(a)
    ensures var b, c := Update(a, esn0, locked), a.config;
            b.goodCount == 0
            || (a.current == c.maxModcod && b.goodCount == a.goodCount && b.current == a.current)
            || (locked && a.current < c.maxModcod && esn0 >= KeepFrom(c, a.current + 1) + c.hysteresis
                && b.goodCount == a.goodCount + 1 && b.current == a.current)
  {
    hide Target;
  }

  lemma {:induction false} CounterCountsHeld(a: Controller, ds: seq<Decision>, n: nat)
    requires InRange(a) && a.goodCount == 0 && OnlyFrames(ds) && n <= |ds|
    ensures CountsHeld(a, ds, n)
  {
    hide Update, InRange, ConfigValid, KeepFrom, Run;
    if n == 0 {
      AtStart(a, ds);
    } else {
      CounterCountsHeld(a, ds, n - 1);
      FrameStep(a, ds, n - 1);
      var b, c := At(a, ds, n - 1), At(a, ds, n);
      HoldStep(b, ds[n - 1].esn0, ds[n - 1].locked);
      assert b.goodCount > 0 ==> HeldAt(a, ds, n - 2, b.current);
    }
  }

  lemma AtStart(a: Controller, ds: seq<Decision>)
    requires InRange(a)
    ensures At(a, ds, 0) == a
  {
  }

  /** A rise is held: it happens only after upHold frames in a row, all locked, all on the level below, and all with
      margin and hysteresis above the threshold of the level reached. */
  lemma {:induction false} RiseIsHeld(a: Controller, ds: seq<Decision>, j: nat)
    requires InRange(a) && a.goodCount == 0 && OnlyFrames(ds) && j < |ds|
    requires At(a, ds, j + 1).current > At(a, ds, j).current
    ensures j + 1 >= a.config.upHold
    ensures forall k :: j + 1 - a.config.upHold <= k <= j ==> HeldAt(a, ds, k, At(a, ds, j).current)
  {
    hide Update, InRange, ConfigValid, KeepFrom, Run;
    CounterCountsHeld(a, ds, j);
    FrameStep(a, ds, j);
    RisesIff(At(a, ds, j), ds[j].esn0, ds[j].locked);
  }

  /** However good the frames are, n of them raise the level by at most (goodCount + n) / upHold. */
  lemma {:induction false} RisesAreSlow(a: Controller, ds: seq<Decision>, n: nat)
    requires InRange(a) && OnlyFrames(ds) && n <= |ds|
    ensures var b := At(a, ds, n);
            && a.config.upHold * (b.ups - a.ups) + b.goodCount <= a.goodCount + n
            && b.ups - a.ups + a.current >= b.current
  {
    hide Update, InRange, ConfigValid, Run;
    if n == 0 {
      AtStart(a, ds);
    } else {
      RisesAreSlow(a, ds, n - 1);
      FrameStep(a, ds, n - 1);
      var b := At(a, ds, n - 1);
      CountStep(b, ds[n - 1].esn0, ds[n - 1].locked);
      var h := a.config.upHold;
      assert h * (b.ups + 1 - a.ups) == h * (b.ups - a.ups) + h;
    }
  }

  lemma CountStep(a: Controller, esn0: real, locked: bool)
    requires InRange(a)
    ensures var b := Update(a, esn0, locked);
            if b.ups == a.ups then b.goodCount <= a.goodCount + 1 && b.current <= a.current
            else b.ups == a.ups + 1 && b.goodCount == 0 && a.goodCount + 1 == a.config.upHold
                 && b.current == a.current + 1
  {
    hide Target;
    if !Enough(a.config, a.current, esn0) { NotAbove(a, esn0); }
  }
}
