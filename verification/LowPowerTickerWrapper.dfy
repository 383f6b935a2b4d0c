/**
 * `LowPowerTickerWrapper` as the source writes it, field by field; each method is proved to take
 * the step of the same name in `LowPowerTicker`, where the properties of runs are proved.
 */
module LowPowerTickerWrapper {
  import opened TickerTime
  import L = LowPowerTicker

  datatype World = World(
    attached: bool, due: nat, now: nat, irq: bool, compare: L.Compare,
    lastSetTick: nat, lastActualTick: nat, writes: seq<nat>, dueIsMatch: bool, forfeited: bool)

  /** `Advance`, on the part of the state that it changes. */
  function Later(w: World, d: nat): World {
    var hit := w.compare.Armed? && w.compare.sure && w.now < w.compare.tick <= w.now + d;
    w.(now := w.now + d, irq := w.irq || hit)
  }

  /** After `wait` ticks the hardware takes a match in place of its old one; `more` ticks later the counter is read. */
  function Written(h: L.Limits, w: World, match_: nat, cycles: nat, wait: nat, more: nat): World
    requires h.modulus > 0
  {
    var t := Later(w, wait).(now := w.now + wait + more);
    var left := Masked(match_, t.now % h.modulus, h.modulus);
    t.(compare := L.Armed(match_, t.now + left, left <= cycles && left >= h.minUntil),
       lastActualTick := t.now, writes := w.writes + [w.now + wait])
  }

  class Wrapper {
    const limits: L.Limits

    var suspended: bool
    var pendingTimeout: bool
    var pendingMatch: bool
    var pendingFireNow: bool
    var setAllowed: bool
    var curMatch: nat
    var lastSet: nat
    var lastActual: nat

    // the Timeout, the hardware and the history, which the wrapper does not own
    var world: World

    function Snapshot(): L.State
      reads this
    {
      L.State(suspended, pendingTimeout, pendingMatch, pendingFireNow, setAllowed, curMatch, lastSet, lastActual,
              world.attached, world.due, world.now, world.irq, world.compare, world.lastSetTick,
              world.lastActualTick, world.writes, world.dueIsMatch, world.forfeited)
    }

    ghost predicate Valid()
      reads this
    {
      L.ValidLimits(limits) && L.Inv(limits, Snapshot())
    }

    /** Wrapping freshly started hardware. */
    constructor (limits: L.Limits, now: nat)
      requires L.ValidLimits(limits)
      ensures this.limits == limits && Snapshot() == L.Start(now) && Valid()
    {
      this.limits := limits;
      suspended, pendingTimeout, pendingMatch, pendingFireNow, setAllowed := false, false, false, false, true;
      curMatch, lastSet, lastActual := 0, 0, 0;
      world := World(false, 0, now, false, L.Idle, 0, 0, [], false, false);
    }

    // ----- the parts outside the wrapper

    method Elapse(d: nat)
      modifies this`world
      ensures world == Later(old(world), d)
    {
      var c, now := world.compare, world.now;
      var hit := c.Armed? && c.sure && now < c.tick <= now + d;
      world := world.(now := now + d, irq := world.irq || hit);
    }

    method AttachTimeout(ticks: nat, all: bool)
      modifies this`world, this`pendingTimeout
      ensures Snapshot() == L.AttachTimeout(old(Snapshot()), ticks, all)
    {
      world := world.(attached := true, due := world.now + ticks, dueIsMatch := all);
      pendingTimeout := true;
    }

    // ----- the wrapper

    method Reset()
      modifies this
      ensures Snapshot() == L.Reset(old(Snapshot()))
    {
      world := world.(attached := false);
      pendingTimeout := false;
      pendingMatch := false;
      pendingFireNow := false;
      setAllowed := true;
      curMatch := 0;
      lastSet := 0;
      lastActual := 0;
    }

    /** `_intf->set_interrupt(_cur_match_time)` and the reading after it. */
    method WriteCompare(cycles: nat, wait: nat, more: nat) returns (left: nat)
      requires limits.modulus > 0 && cycles == Masked(curMatch, lastSet, limits.modulus)
      modifies this`world, this`lastActual, this`setAllowed
      ensures Snapshot() == L.WriteCompare(limits, old(Snapshot()), wait, more)
      ensures left == Masked(curMatch, lastActual, limits.modulus)
    {
      world := Written(limits, world, curMatch, cycles, wait, more);
      lastActual := world.now % limits.modulus;
      setAllowed := false;
      left := Masked(curMatch, lastActual, limits.modulus);
    }

    /** Check whether `_intf->set_interrupt` is allowed again. */
    method AllowWrite(current: nat)
      requires limits.modulus > 0 && current == world.now % limits.modulus
      modifies this`setAllowed
      ensures Snapshot() == L.AllowWrite(limits, old(Snapshot()))
    {
      if !setAllowed {
        if Masked(current, lastActual, limits.modulus) >= limits.minBetween {
          setAllowed := true;
        }
      }
    }

    method UseTimeout(cycles: nat)
      requires limits.modulus > 0 && cycles == Masked(curMatch, lastSet, limits.modulus)
      modifies this`world, this`pendingTimeout
      ensures Snapshot() == L.UseTimeout(limits, old(Snapshot()))
    {
      if !pendingTimeout {
        AttachTimeout(if cycles < limits.minUntil then cycles else limits.minUntil, cycles < limits.minUntil);
      }
    }

    method CheckWrite(cycles: nat, left: nat)
      requires limits.modulus > 0 && cycles == Masked(curMatch, lastSet, limits.modulus)
      requires left == Masked(curMatch, lastActual, limits.modulus)
      modifies this`world, this`pendingTimeout
      ensures Snapshot() == L.CheckWrite(limits, old(Snapshot()))
    {
      if left > cycles {
        world := world.(irq := true);
      } else if left < limits.minUntil {
        AttachTimeout(left, true);
      }
    }

    method ScheduleMatch(current: nat, wait: nat, more: nat)
      requires limits.modulus > 0 && current == world.now % limits.modulus
      modifies this`world, this`pendingTimeout, this`lastActual, this`setAllowed
      ensures Snapshot() == L.ScheduleMatch(limits, old(Snapshot()), wait, more)
    {
      AllowWrite(current);
      var cycles := Masked(curMatch, lastSet, limits.modulus);
      if !setAllowed {
        UseTimeout(cycles);
      } else if cycles < limits.minUntil {
        AttachTimeout(cycles, true);
      } else {
        var left := WriteCompare(cycles, wait, more);
        CheckWrite(cycles, left);
      }
    }

    method SetInterrupt(timestamp: nat, wait: nat, more: nat)
      requires Valid() && timestamp < limits.modulus
      modifies this
      ensures Snapshot() == L.SetInterrupt(limits, old(Snapshot()), timestamp, wait, more)
      ensures Valid()
    {
      L.SetKeeps(limits, Snapshot(), timestamp, wait, more);
      lastSet := world.now % limits.modulus;
      curMatch := timestamp;
      pendingMatch := true;
      world := world.(lastSetTick := world.now, dueIsMatch := false, forfeited := false);
      ScheduleMatch(lastSet, wait, more);
    }

    method TimeoutHandler(wait: nat, more: nat)
      requires Valid() && world.attached
      modifies this
      ensures Snapshot() == L.TimeoutHandler(limits, old(Snapshot()), wait, more)
      ensures Valid()
    {
      L.TimeoutKeeps(limits, Snapshot(), wait, more);
      world := world.(attached := false);
      pendingTimeout := false;
      var current := world.now % limits.modulus;
      if Passed(lastSet, current, curMatch) {
        world := world.(irq := true);
      } else {
        ScheduleMatch(current, wait, more);
      }
    }

    /** The interrupt is taken off the line `gap` ticks from now. */
    method Clear(gap: nat)
      requires limits.modulus > 0
      modifies this`world
      ensures Snapshot() == L.Clear(limits, old(Snapshot()), gap)
    {
      var inTime := L.ClearedInTime(limits, Snapshot(), gap);
      Elapse(gap);
      world := world.(irq := false, forfeited := world.forfeited || !inTime);
    }

    method IrqHandler(gap: nat) returns (handled: bool)
      requires Valid()
      modifies this
      ensures Snapshot() == L.IrqHandler(limits, old(Snapshot()), gap)
      ensures Valid()
      ensures handled == old(suspended || pendingFireNow ||
                             (pendingMatch && Passed(lastSet, world.now % limits.modulus, curMatch)))
    {
      L.InterruptKeeps(limits, Snapshot(), gap);
      if suspended {
        Clear(0);
        return true;
      }
      if pendingFireNow || (pendingMatch && Passed(lastSet, world.now % limits.modulus, curMatch)) {
        world := world.(attached := false, irq := false);
        pendingTimeout := false;
        pendingMatch := false;
        pendingFireNow := false;
        handled := true;
      } else {
        Clear(gap);
        handled := false;
      }
    }

    method Read() returns (current: nat)
      requires Valid()
      modifies this
      ensures Snapshot() == L.Read(limits, old(Snapshot()))
      ensures Valid() && current == world.now % limits.modulus
    {
      L.StepKeeps(limits, Snapshot(), L.ReadCounter);
      current := world.now % limits.modulus;
      if pendingMatch && Passed(lastSet, current, curMatch) {
        world := world.(irq := true);
      }
    }

    method FireInterrupt()
      requires Valid()
      modifies this
      ensures Snapshot() == L.FireInterrupt(old(Snapshot())) && Valid()
    {
      L.StepKeeps(limits, Snapshot(), L.FireNow);
      pendingFireNow := true;
      world := world.(irq := true);
    }

    /**
     * The polling loop of `suspend`.  Polls that see the same tick change nothing, so each turn of
     * the loop is a new tick.  It ends because the masked counter can show `minBetween`.
     */
    method WaitForWrite() returns (ghost polls: nat)
      requires Valid() && limits.minBetween < limits.modulus
      modifies this`world, this`setAllowed
      ensures world == Later(old(world), polls)
      ensures old(setAllowed) || Masked(world.now % limits.modulus, lastActual, limits.modulus) >= limits.minBetween
    {
      polls := 0;
      var last := lastActual;
      assert !setAllowed ==> last < limits.modulus;
      while !setAllowed
        invariant lastActual == last && world == Later(old(world), polls)
        invariant setAllowed && !old(setAllowed) ==>
                    Masked(world.now % limits.modulus, last, limits.modulus) >= limits.minBetween
        decreases !setAllowed, limits.minBetween - Masked(world.now % limits.modulus, last, limits.modulus)
      {
        var current := world.now % limits.modulus;
        if Masked(current, lastActual, limits.modulus) >= limits.minBetween {
          setAllowed := true;
        } else {
          L.NextTick(limits, world.now, last);
          LaterTwice(old(world), polls);
          Elapse(1);
          polls := polls + 1;
        }
      }
    }

    method Suspend() returns (ghost polls: nat)
      requires Valid() && limits.minBetween < limits.modulus
      modifies this
      ensures Snapshot() == L.Suspend(old(Snapshot()), polls)
      ensures Valid() && suspended
    {
      ghost var before := Snapshot();
      polls := WaitForWrite();
      L.SuspendKeeps(limits, before, polls);
      Reset();
      suspended := true;
    }

    method Resume()
      requires Valid()
      modifies this
      ensures Snapshot() == L.Resume(old(Snapshot())) && Valid()
    {
      L.StepKeeps(limits, Snapshot(), L.ResumeNow);
      suspended := false;
    }

    /** `init`: the hardware starts again, at a counter value of its own. */
    method Init(restart: nat)
      requires Valid()
      modifies this
      ensures Snapshot() == L.Start(restart).(suspended := old(suspended))
      ensures Valid()
    {
      Reset();
      world := World(false, 0, restart, false, L.Idle, 0, 0, [], false, false);
    }
  }

  lemma LaterTwice(w: World, d: nat)
    ensures Later(Later(w, d), 1) == Later(w, d + 1)
  {
  }
}
