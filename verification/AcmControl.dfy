/** The adaptive coding and modulation controller as the firmware keeps it, updated in place. */
module AcmControl {

  import opened Acm

  datatype Reason = Up | Down | LockLost

  class AcmController {
    var config: Config
    var current: nat
    var goodCount: nat
    var changesUp: nat
    var changesDown: nat
    var decisions: nat

    constructor (c: Config)
      ensures Valid() && Value() == Start(c)
    {
      config, current, goodCount, changesUp, changesDown, decisions := c, c.minModcod, 0, 0, 0, 0;
    }

    ghost function Value(): Controller
      reads this
    {
      Controller(config, current, goodCount, changesUp, changesDown, decisions)
    }

    ghost predicate Valid()
      reads this
    {
      InRange(Value())
    }

    method Configure(c: Settings) returns (ok: bool)
      requires Valid()
      modifies this
      ensures Valid() && ok == ConfigValid(c) && Value() == Acm.Configure(old(Value()), c)
    {
      if !ConfigValid(c) { return false; }
      config := c;
      if current < c.minModcod { current := c.minModcod; }
      if current > c.maxModcod { current := c.maxModcod; }
      goodCount := 0;
      ok := true;
    }

    method FindTarget(esn0: real) returns (target: nat)
      ensures IsTarget(config, esn0, target) && target == Target(config, esn0)
    {
      target := config.minModcod;
      for m := config.minModcod to config.maxModcod + 1
        invariant config.minModcod <= target <= config.maxModcod && (m == config.minModcod || target < m)
        invariant target == config.minModcod || Enough(config, target, esn0)
        invariant forall k :: target < k < m ==> !Enough(config, k, esn0)
      {
        if Threshold(m) + config.margin <= esn0 { target := m; }
      }
      TargetIsUnique(config, esn0, target, Target(config, esn0));
    }

    method Change(to: nat, reason: Reason)
      modifies this
      ensures Value() ==
              old(Value()).(current := to, goodCount := 0, ups := old(changesUp) + (if reason == Up then 1 else 0),
                            downs := old(changesDown) + (if reason == Up then 0 else 1))
    {
      current, goodCount := to, 0;
      if reason == Up { changesUp := changesUp + 1; } else { changesDown := changesDown + 1; }
    }

    method Update(esn0: real, locked: bool) returns (modcod: nat)
      requires Valid()
      modifies this
      ensures Valid() && Value() == Acm.Update(old(Value()), esn0, locked) && modcod == current
    {
      hide Target, IsTarget;
      decisions := decisions + 1;
      if !locked {
        if current != config.minModcod { Change(config.minModcod, LockLost); }
        goodCount := 0;
        return current;
      }
      if esn0 < Threshold(current) + config.margin {
        var target := FindTarget(esn0);
        if target < current { Change(target, Down); }
        goodCount := 0;
        return current;
      }
      if current < config.maxModcod {
        var next := current + 1;
        if esn0 >= Threshold(next) + config.margin + config.hysteresis {
          goodCount := goodCount + 1;
          if goodCount >= config.upHold { Change(next, Up); }
        } else {
          goodCount := 0;
        }
      }
      modcod := current;
    }
  }
}
