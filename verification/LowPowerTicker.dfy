/**
 * The wrapper around a low power ticker whose compare register must not be written too often
 * and does not fire for a match that is too near.  The wrapper's fields, the hardware and the
 * backup Timeout form one state; every operation is a step of it.
 *
 * Time spent inside an operation is a parameter: `wait` ticks from its first reading of the
 * counter to the write of the compare register, `more` from there to the reading after it.
 */
module LowPowerTicker {
  import opened TickerTime

  /** What the constructor is given: the counter's modulus and the two limits, each plus one. */
  datatype Limits = Limits(modulus: nat, minBetween: nat, minUntil: nat)

  ghost predicate ValidLimits(h: Limits) {
    Modulus(h.modulus) && h.minBetween >= 1 && h.minUntil >= 1
  }

  /** The hardware compare register: a match that fires at real tick `tick` if `sure`. */
  datatype Compare = Idle | Armed(value: nat, tick: nat, sure: bool)

  datatype State = State(
    // fields of the wrapper
    suspended: bool, pendingTimeout: bool, pendingMatch: bool, pendingFireNow: bool, setAllowed: bool,
    curMatch: nat, lastSet: nat, lastActual: nat,
    // the Timeout object: attached, and the first tick at which it can end
    attached: bool, due: nat,
    // hardware: real time, the interrupt line, the compare register
    now: nat, irq: bool, compare: Compare,
    // history: when `set_interrupt` last read the counter and when the compare register was
    // last read back, the ticks of all writes since the hardware was started, whether the
    // attached Timeout was given all the ticks that were left, and whether the interrupt of the
    // pending match was cleared without the match being accepted
    lastSetTick: nat, lastActualTick: nat, writes: seq<nat>, dueIsMatch: bool, forfeited: bool)

  /** Just after the hardware was started. */
  function Start(now: nat): State {
    State(false, false, false, false, true, 0, 0, 0, false, 0, now, false, Idle, 0, 0, [], false, false)
  }

  // ----- readings

  function Reading(h: Limits, s: State): (r: nat)
    requires h.modulus > 0
    ensures r < h.modulus
  {
    s.now % h.modulus
  }

  /** `(_cur_match_time - _last_set_interrupt) & _mask` */
  function CyclesUntilMatch(h: Limits, s: State): nat
    requires h.modulus > 0
  {
    Masked(s.curMatch, s.lastSet, h.modulus)
  }

  /** The real tick of the pending match. */
  function Deadline(h: Limits, s: State): nat
    requires h.modulus > 0
  {
    s.lastSetTick + CyclesUntilMatch(h, s)
  }

  predicate MatchCheck(h: Limits, s: State)
    requires h.modulus > 0
  {
    s.pendingMatch && Passed(s.lastSet, Reading(h, s), s.curMatch)
  }

  // ----- steps of the hardware

  /** `d` ticks go by.  A sure compare whose tick comes raises the interrupt. */
  function Advance(s: State, d: nat): State {
    var hit := s.compare.Armed? && s.compare.sure && s.now < s.compare.tick <= s.now + d;
    s.(now := s.now + d, irq := s.irq || hit)
  }

  /** An interrupt nobody asked for: an old or unsure compare. */
  function Stray(s: State): State { s.(irq := true) }

  // ----- steps of the wrapper

  function Reset(s: State): State {
    s.(attached := false, pendingTimeout := false, pendingMatch := false, pendingFireNow := false,
       setAllowed := true, curMatch := 0, lastSet := 0, lastActual := 0)
  }

  function AttachTimeout(s: State, ticks: nat, all: bool): State {
    s.(attached := true, due := s.now + ticks, dueIsMatch := all, pendingTimeout := true)
  }

  /** The first part of `_schedule_match`: may the compare register be written again? */
  function AllowWrite(h: Limits, s: State): State
    requires h.modulus > 0
  {
    if !s.setAllowed && Masked(Reading(h, s), s.lastActual, h.modulus) >= h.minBetween
    then s.(setAllowed := true) else s
  }

  /** Writing the compare register, which ends the match it held, and reading the counter back. */
  function WriteCompare(h: Limits, s: State, wait: nat, more: nat): State
    requires h.modulus > 0
  {
    var t := Advance(s, wait).(now := s.now + wait + more);
    var left := Masked(s.curMatch, Reading(h, t), h.modulus);
    t.(lastActual := Reading(h, t), lastActualTick := t.now, setAllowed := false,
       writes := s.writes + [s.now + wait],
       compare := Armed(s.curMatch, t.now + left, left <= CyclesUntilMatch(h, s) && left >= h.minUntil))
  }

  /** The compare register cannot be written yet: use the Timeout, unless it is already attached. */
  function UseTimeout(h: Limits, s: State): State
    requires h.modulus > 0
  {
    var cycles := CyclesUntilMatch(h, s);
    if s.pendingTimeout then s
    else AttachTimeout(s, if cycles < h.minUntil then cycles else h.minUntil, cycles < h.minUntil)
  }

  /** After the write: did the match go by, and is it far enough for the hardware to fire? */
  function CheckWrite(h: Limits, s: State): State
    requires h.modulus > 0
  {
    var left := Masked(s.curMatch, s.lastActual, h.modulus);
    if left > CyclesUntilMatch(h, s) then s.(irq := true)
    else if left < h.minUntil then AttachTimeout(s, left, true)
    else s
  }

  function ScheduleMatch(h: Limits, s: State, wait: nat, more: nat): State
    requires h.modulus > 0
  {
    var a := AllowWrite(h, s);
    if !a.setAllowed then UseTimeout(h, a)
    else if CyclesUntilMatch(h, a) < h.minUntil then AttachTimeout(a, CyclesUntilMatch(h, a), true)
    else CheckWrite(h, WriteCompare(h, a, wait, more))
  }

  function SetInterrupt(h: Limits, s: State, timestamp: nat, wait: nat, more: nat): State
    requires h.modulus > 0
  {
    ScheduleMatch(h, s.(lastSet := Reading(h, s), lastSetTick := s.now, curMatch := timestamp, pendingMatch := true,
                        dueIsMatch := false, forfeited := false), wait, more)
  }

  /** The Timeout ends: it detaches itself and calls `_timeout_handler`. */
  function TimeoutHandler(h: Limits, s: State, wait: nat, more: nat): State
    requires h.modulus > 0
  {
    var t := s.(attached := false, pendingTimeout := false);
    if Passed(t.lastSet, Reading(h, t), t.curMatch) then t.(irq := true)
    else ScheduleMatch(h, t, wait, more)
  }

  predicate Accepts(h: Limits, s: State)
    requires h.modulus > 0
  {
    s.pendingFireNow || MatchCheck(h, s)
  }

  /** An interrupt cleared `gap` ticks from now is not, and does not become, that of the pending match. */
  predicate ClearedInTime(h: Limits, s: State, gap: nat)
    requires h.modulus > 0
  {
    s.attached || !s.pendingMatch || s.now + gap < Deadline(h, s)
  }

  /** The interrupt line is cleared after `gap` ticks. */
  function Clear(h: Limits, s: State, gap: nat): State
    requires h.modulus > 0
  {
    Advance(s, gap).(irq := false, forfeited := s.forfeited || !ClearedInTime(h, s, gap))
  }

  /** `irq_handler`.  On a spurious interrupt `gap` ticks pass before the interrupt is cleared. */
  function IrqHandler(h: Limits, s: State, gap: nat): State
    requires h.modulus > 0
  {
    if s.suspended then Clear(h, s, 0)
    else if Accepts(h, s) then
      s.(attached := false, pendingTimeout := false, pendingMatch := false, pendingFireNow := false, irq := false)
    else Clear(h, s, gap)
  }

  function Read(h: Limits, s: State): State
    requires h.modulus > 0
  {
    if MatchCheck(h, s) then s.(irq := true) else s
  }

  function FireInterrupt(s: State): State { s.(pendingFireNow := true, irq := true) }

  /** Is the wait of `suspend` over at the current tick? */
  predicate WaitOver(h: Limits, s: State)
    requires h.modulus > 0
  {
    s.setAllowed || Masked(Reading(h, s), s.lastActual, h.modulus) >= h.minBetween
  }

  function Suspend(s: State, polls: nat): State { Reset(Advance(s, polls)).(suspended := true) }

  function Resume(s: State): State { s.(suspended := false) }

  // ----- runs

  datatype Event =
    | Ticks(d: nat)
    | StrayInterrupt
    | Set(timestamp: nat, wait: nat, more: nat)
    | TimeoutEnds(wait: nat, more: nat)
    | Interrupt(gap: nat)
    | ReadCounter
    | FireNow
    | SuspendAfter(polls: nat)
    | ResumeNow
    | Restart(now: nat)

  predicate Enabled(h: Limits, s: State, e: Event)
    requires h.modulus > 0
  {
    match e
    case Ticks(_) => true
    case StrayInterrupt => true
    case Set(timestamp, _, _) => timestamp < h.modulus
    case TimeoutEnds(_, _) => s.attached && s.now >= s.due
    case Interrupt(_) => s.irq
    case ReadCounter => true
    case FireNow => true
    case SuspendAfter(polls) => WaitOver(h, Advance(s, polls))
    case ResumeNow => true
    case Restart(_) => true
  }

  function Apply(h: Limits, s: State, e: Event): State
    requires h.modulus > 0
  {
    match e
    case Ticks(d) => Advance(s, d)
    case StrayInterrupt => Stray(s)
    case Set(timestamp, wait, more) => SetInterrupt(h, s, timestamp, wait, more)
    case TimeoutEnds(wait, more) => TimeoutHandler(h, s, wait, more)
    case Interrupt(gap) => IrqHandler(h, s, gap)
    case ReadCounter => Read(h, s)
    case FireNow => FireInterrupt(s)
    case SuspendAfter(polls) => Suspend(s, polls)
    case ResumeNow => Resume(s)
    case Restart(now) => Start(now).(suspended := s.suspended)
  }

  function Run(h: Limits, s: State, events: seq<Event>): State
    requires h.modulus > 0
  {
    if events == [] then s else Apply(h, Run(h, s, events[..|events| - 1]), events[|events| - 1])
  }

  predicate Possible(h: Limits, s: State, events: seq<Event>)
    requires h.modulus > 0
  {
    events == [] ||
    (Possible(h, s, events[..|events| - 1]) &&
     Enabled(h, Run(h, s, events[..|events| - 1]), events[|events| - 1]))
  }

  // ----- what every step keeps

  /** Less than one wrap of the counter since the match was set. */
  predicate InWindow(h: Limits, s: State) { s.now < s.lastSetTick + h.modulus }

  /** The three ways in which a pending match is sure to be delivered. */
  predicate Secured(h: Limits, s: State)
    requires h.modulus > 0
  {
    || s.attached
    || (s.compare.Armed? && s.compare.sure && s.compare.value == s.curMatch
        && s.compare.tick == Deadline(h, s) && s.now < s.compare.tick)
    || (s.irq && s.curMatch != s.lastSet && s.now >= Deadline(h, s))
  }

  predicate NoMatchLost(h: Limits, s: State)
    requires h.modulus > 0
  {
    s.pendingMatch && !s.forfeited && InWindow(h, s) ==> Secured(h, s)
  }

  predicate Apart(writes: seq<nat>, gap: nat) {
    forall i :: 0 < i < |writes| ==> writes[i] >= writes[i - 1] + gap
  }

  /** The compare register is never written twice within `minBetween` ticks. */
  predicate WritesApart(h: Limits, s: State)
    requires h.modulus > 0
  {
    && Apart(s.writes, h.minBetween)
    && (s.writes != [] ==> s.writes[|s.writes| - 1] <= s.lastActualTick <= s.now)
    && (s.writes != [] && s.setAllowed ==> s.now >= s.lastActualTick + h.minBetween)
    && (!s.setAllowed ==> s.writes != [] && s.lastActual == s.lastActualTick % h.modulus)
  }

  predicate Consistent(h: Limits, s: State)
    requires h.modulus > 0
  {
    && s.attached == s.pendingTimeout
    && (s.pendingTimeout ==> s.pendingMatch)
    && (s.pendingMatch ==> s.curMatch < h.modulus && s.lastSetTick <= s.now && s.lastSet == s.lastSetTick % h.modulus)
    && (s.attached && s.dueIsMatch ==> s.due >= Deadline(h, s))
  }

  /** A Timeout is never more than `minUntil` ticks long, nor ends later than that after the match. */
  predicate DueInTime(h: Limits, s: State)
    requires h.modulus > 0
  {
    s.attached ==>
      && s.due <= s.now + h.minUntil
      && (s.pendingMatch && s.curMatch != s.lastSet && InWindow(h, s) ==> s.due < Deadline(h, s) + h.minUntil)
  }

  predicate Inv(h: Limits, s: State)
    requires h.modulus > 0
  {
    Consistent(h, s) && WritesApart(h, s) && NoMatchLost(h, s) && DueInTime(h, s)
  }

  lemma AdvanceKeeps(h: Limits, s: State, d: nat)
    requires h.modulus > 0 && Inv(h, s)
    ensures Inv(h, Advance(s, d))
  {
    WritesApartLater(h, s, Advance(s, d));
    AdvanceKeepsMatch(h, s, d);
  }

  lemma AdvanceKeepsMatch(h: Limits, s: State, d: nat)
    requires h.modulus > 0 && Consistent(h, s) && NoMatchLost(h, s)
    ensures NoMatchLost(h, Advance(s, d))
  {
    var t := Advance(s, d);
    assert Deadline(h, t) == Deadline(h, s);
    if s.pendingMatch && !s.forfeited && InWindow(h, t) {
      assert Secured(h, s);
      NoWait(h, s);
    }
  }

  /** A match for the tick at which it was set has no time left. */
  lemma NoWait(h: Limits, s: State)
    requires h.modulus > 0
    ensures s.curMatch == s.lastSet ==> Deadline(h, s) == s.lastSetTick
  {
  }

  /** Time alone does not bring writes closer together. */
  lemma WritesApartLater(h: Limits, s: State, t: State)
    requires h.modulus > 0 && WritesApart(h, s)
    requires t.writes == s.writes && t.setAllowed == s.setAllowed && t.now >= s.now
    requires t.lastActual == s.lastActual && t.lastActualTick == s.lastActualTick
    ensures WritesApart(h, t)
  {
  }

  lemma AllowWriteKeeps(h: Limits, s: State)
    requires ValidLimits(h) && WritesApart(h, s)
    ensures WritesApart(h, AllowWrite(h, s))
  {
    if !s.setAllowed {
      MaskedNeverOver(s.lastActualTick, s.now, h.modulus);
    }
  }

  lemma WriteCompareKeeps(h: Limits, s: State, wait: nat, more: nat)
    requires ValidLimits(h) && WritesApart(h, s) && s.setAllowed
    ensures WritesApart(h, WriteCompare(h, s, wait, more))
  {
    var w := WriteCompare(h, s, wait, more);
    assert w.writes[..|w.writes| - 1] == s.writes;
  }

  /** `WritesApart` looks at these fields only. */
  lemma WritesApartFrame(h: Limits, s: State, t: State)
    requires h.modulus > 0 && WritesApart(h, s)
    requires t.writes == s.writes && t.setAllowed == s.setAllowed && t.now == s.now
    requires t.lastActual == s.lastActual && t.lastActualTick == s.lastActualTick
    ensures WritesApart(h, t)
  {
  }

  lemma UseTimeoutKeepsWritesApart(h: Limits, s: State)
    requires h.modulus > 0 && WritesApart(h, s)
    ensures WritesApart(h, UseTimeout(h, s))
    ensures forall ticks, all :: WritesApart(h, AttachTimeout(s, ticks, all))
  {
    WritesApartFrame(h, s, UseTimeout(h, s));
    forall ticks, all
      ensures WritesApart(h, AttachTimeout(s, ticks, all))
    {
      WritesApartFrame(h, s, AttachTimeout(s, ticks, all));
    }
  }

  lemma WriteKeepsWritesApart(h: Limits, s: State, wait: nat, more: nat)
    requires ValidLimits(h) && WritesApart(h, s) && s.setAllowed
    ensures WritesApart(h, CheckWrite(h, WriteCompare(h, s, wait, more)))
  {
    WriteCompareKeeps(h, s, wait, more);
    CheckKeepsWritesApart(h, WriteCompare(h, s, wait, more));
  }

  lemma CheckKeepsWritesApart(h: Limits, w: State)
    requires h.modulus > 0 && WritesApart(h, w)
    ensures WritesApart(h, CheckWrite(h, w))
  {
    var left := Masked(w.curMatch, w.lastActual, h.modulus);
    if left > CyclesUntilMatch(h, w) {
      WritesApartFrame(h, w, w.(irq := true));
    } else if left < h.minUntil {
      WritesApartFrame(h, w, AttachTimeout(w, left, true));
    }
  }

  lemma ScheduleKeepsWritesApart(h: Limits, s: State, wait: nat, more: nat)
    requires ValidLimits(h) && WritesApart(h, s)
    ensures WritesApart(h, ScheduleMatch(h, s, wait, more))
  {
    AllowWriteKeeps(h, s);
    AllowedSchedule(h, AllowWrite(h, s), wait, more, ScheduleMatch(h, s, wait, more));
  }

  lemma AllowedSchedule(h: Limits, a: State, wait: nat, more: nat, c: State)
    requires ValidLimits(h) && WritesApart(h, a)
    requires c == if !a.setAllowed then UseTimeout(h, a)
                  else if CyclesUntilMatch(h, a) < h.minUntil then AttachTimeout(a, CyclesUntilMatch(h, a), true)
                  else CheckWrite(h, WriteCompare(h, a, wait, more))
    ensures WritesApart(h, c)
  {
    UseTimeoutKeepsWritesApart(h, a);
    if a.setAllowed {
      WriteKeepsWritesApart(h, a, wait, more);
    }
  }

  /** A match is pending and its fields stand for real ticks. */
  predicate Pending(h: Limits, s: State)
    requires h.modulus > 0
  {
    && s.pendingMatch && s.attached == s.pendingTimeout
    && s.curMatch < h.modulus && s.lastSetTick <= s.now && s.lastSet == s.lastSetTick % h.modulus
    && (s.attached && s.dueIsMatch ==> s.due >= Deadline(h, s))
  }

  lemma UseTimeoutSecures(h: Limits, s: State)
    requires h.modulus > 0 && Pending(h, s)
    ensures Pending(h, UseTimeout(h, s)) && UseTimeout(h, s).attached
  {
  }

  /** What reading the counter back after the write says about the match. */
  predicate ReadBack(h: Limits, w: State, left: nat)
    requires h.modulus > 0
  {
    && h.minUntil >= 1 && w.curMatch != w.lastSet
    && w.compare == Armed(w.curMatch, w.now + left, left <= CyclesUntilMatch(h, w) && left >= h.minUntil)
    && (InWindow(h, w) ==>
          && (left > CyclesUntilMatch(h, w) <==> w.now > Deadline(h, w))
          && (w.now <= Deadline(h, w) ==> left == Deadline(h, w) - w.now))
    && (!InWindow(h, w) ==> w.now + left >= Deadline(h, w))
  }

  lemma WriteReadsBack(h: Limits, s: State, wait: nat, more: nat, w: State)
    requires ValidLimits(h) && Pending(h, s) && CyclesUntilMatch(h, s) >= h.minUntil
    requires w == WriteCompare(h, s, wait, more)
    ensures Pending(h, w) && ReadBack(h, w, Masked(w.curMatch, w.lastActual, h.modulus))
  {
    if InWindow(h, w) {
      OverflowExactly(s.lastSetTick, w.now, s.curMatch, h.modulus);
    }
    MaskedIsMod(s.curMatch, s.lastSet, h.modulus);
  }

  lemma WriteSecures(h: Limits, s: State, wait: nat, more: nat)
    requires ValidLimits(h) && Pending(h, s) && CyclesUntilMatch(h, s) >= h.minUntil
    ensures var c := CheckWrite(h, WriteCompare(h, s, wait, more));
            Pending(h, c) && (InWindow(h, c) ==> Secured(h, c))
  {
    var w := WriteCompare(h, s, wait, more);
    WriteReadsBack(h, s, wait, more, w);
    CheckSecures(h, w, CheckWrite(h, w), Masked(w.curMatch, w.lastActual, h.modulus));
  }

  lemma CheckSecures(h: Limits, w: State, c: State, left: nat)
    requires h.modulus > 0 && Pending(h, w) && c == CheckWrite(h, w)
    requires left == Masked(w.curMatch, w.lastActual, h.modulus) && ReadBack(h, w, left)
    ensures Pending(h, c) && (InWindow(h, c) ==> Secured(h, c))
  {
    if left > CyclesUntilMatch(h, w) {
      assert c == w.(irq := true);
    } else if left < h.minUntil {
      AttachKeepsPending(h, w, left);
    } else {
      assert c == w;
    }
  }

  lemma AttachKeepsPending(h: Limits, w: State, left: nat)
    requires h.modulus > 0 && Pending(h, w) && w.now + left >= Deadline(h, w)
    ensures Pending(h, AttachTimeout(w, left, true)) && AttachTimeout(w, left, true).attached
  {
  }

  /** `_schedule_match` secures the pending match. */
  lemma ScheduleSecures(h: Limits, s: State, wait: nat, more: nat)
    requires ValidLimits(h) && Pending(h, s)
    ensures var c := ScheduleMatch(h, s, wait, more);
            Pending(h, c) && (InWindow(h, c) ==> Secured(h, c))
  {
    var a := AllowWrite(h, s);
    if !a.setAllowed {
      UseTimeoutSecures(h, a);
    } else if CyclesUntilMatch(h, a) >= h.minUntil {
      WriteSecures(h, a, wait, more);
    }
  }

  // ----- how late a Timeout can end

  lemma WaitIsPositive(h: Limits, s: State)
    requires ValidLimits(h) && Pending(h, s) && s.curMatch != s.lastSet
    ensures Deadline(h, s) > s.lastSetTick
  {
    MaskedIsMod(s.curMatch, s.lastSet, h.modulus);
  }

  lemma CheckIsDue(h: Limits, w: State, left: nat)
    requires h.modulus > 0 && left == Masked(w.curMatch, w.lastActual, h.modulus)
    requires DueInTime(h, w) && ReadBack(h, w, left)
    ensures DueInTime(h, CheckWrite(h, w))
  {
    if left <= CyclesUntilMatch(h, w) && left < h.minUntil {
      FinalIsDue(h, w, left);
    }
  }

  /** A Timeout that is given all that is left ends at the match. */
  lemma FinalIsDue(h: Limits, w: State, left: nat)
    requires h.modulus > 0 && left < h.minUntil && (InWindow(h, w) ==> w.now + left == Deadline(h, w))
    ensures DueInTime(h, AttachTimeout(w, left, true))
  {
    assert Deadline(h, AttachTimeout(w, left, true)) == Deadline(h, w);
  }

  lemma WriteIsDue(h: Limits, s: State, wait: nat, more: nat)
    requires h.modulus > 0 && DueInTime(h, s)
    ensures DueInTime(h, WriteCompare(h, s, wait, more))
  {
    assert Deadline(h, WriteCompare(h, s, wait, more)) == Deadline(h, s);
  }

  lemma AttachIsDue(h: Limits, s: State, ticks: nat, all: bool)
    requires h.modulus > 0 && ticks <= h.minUntil
    requires s.curMatch != s.lastSet && InWindow(h, s) ==> s.now < Deadline(h, s)
    ensures DueInTime(h, AttachTimeout(s, ticks, all))
  {
    assert Deadline(h, AttachTimeout(s, ticks, all)) == Deadline(h, s);
  }

  /** A schedule made before the match's tick brings no later Timeout. */
  lemma ScheduleIsDue(h: Limits, s: State, wait: nat, more: nat)
    requires ValidLimits(h) && Pending(h, s) && DueInTime(h, s)
    requires s.curMatch != s.lastSet && InWindow(h, s) ==> s.now < Deadline(h, s)
    ensures DueInTime(h, ScheduleMatch(h, s, wait, more))
  {
    var a := AllowWrite(h, s);
    AllowFrame(h, s, a);
    AllowedIsDue(h, a, wait, more, ScheduleMatch(h, s, wait, more));
  }

  lemma AllowFrame(h: Limits, s: State, a: State)
    requires h.modulus > 0 && Pending(h, s) && DueInTime(h, s) && (a == s || a == s.(setAllowed := true))
    ensures Pending(h, a) && DueInTime(h, a) && Deadline(h, a) == Deadline(h, s)
  {
  }

  lemma AllowedIsDue(h: Limits, a: State, wait: nat, more: nat, c: State)
    requires ValidLimits(h) && Pending(h, a) && DueInTime(h, a)
    requires a.curMatch != a.lastSet && InWindow(h, a) ==> a.now < Deadline(h, a)
    requires c == if !a.setAllowed then UseTimeout(h, a)
                  else if CyclesUntilMatch(h, a) < h.minUntil then AttachTimeout(a, CyclesUntilMatch(h, a), true)
                  else CheckWrite(h, WriteCompare(h, a, wait, more))
    ensures DueInTime(h, c)
  {
    var cycles := CyclesUntilMatch(h, a);
    if !a.setAllowed {
      AttachIsDue(h, a, if cycles < h.minUntil then cycles else h.minUntil, cycles < h.minUntil);
    } else if cycles < h.minUntil {
      AttachIsDue(h, a, cycles, true);
    } else {
      var w := WriteCompare(h, a, wait, more);
      WriteIsDue(h, a, wait, more);
      WriteReadsBack(h, a, wait, more, w);
      CheckIsDue(h, w, Masked(w.curMatch, w.lastActual, h.modulus));
    }
  }

  // ----- every step keeps the invariant

  lemma SetKeeps(h: Limits, s: State, timestamp: nat, wait: nat, more: nat)
    requires ValidLimits(h) && Inv(h, s) && timestamp < h.modulus
    ensures Inv(h, SetInterrupt(h, s, timestamp, wait, more))
  {
    var t := s.(lastSet := Reading(h, s), lastSetTick := s.now, curMatch := timestamp, pendingMatch := true,
                dueIsMatch := false, forfeited := false);
    WritesApartFrame(h, s, t);
    ScheduleKeepsWritesApart(h, t, wait, more);
    ScheduleSecures(h, t, wait, more);
    if t.curMatch != t.lastSet {
      WaitIsPositive(h, t);
    }
    ScheduleIsDue(h, t, wait, more);
  }

  lemma TimeoutKeeps(h: Limits, s: State, wait: nat, more: nat)
    requires ValidLimits(h) && Inv(h, s) && s.attached
    ensures Inv(h, TimeoutHandler(h, s, wait, more))
  {
    var t := s.(attached := false, pendingTimeout := false);
    WritesApartFrame(h, s, t);
    if t.curMatch != t.lastSet && InWindow(h, t) {
      PassedExactly(t.lastSetTick, t.now, t.curMatch, h.modulus);
    }
    if Passed(t.lastSet, Reading(h, t), t.curMatch) {
      SameTickNeverPasses(t.lastSet, Reading(h, t));
      WritesApartFrame(h, t, t.(irq := true));
    } else {
      ScheduleKeepsWritesApart(h, t, wait, more);
      ScheduleSecures(h, t, wait, more);
      ScheduleIsDue(h, t, wait, more);
    }
  }

  /** In the window `irq_handler` accepts a pending match exactly from its tick on. */
  lemma AcceptsExactly(h: Limits, s: State)
    requires ValidLimits(h) && Consistent(h, s) && s.pendingMatch && InWindow(h, s) && !s.pendingFireNow
    ensures Accepts(h, s) <==> s.curMatch != s.lastSet && s.now >= Deadline(h, s)
  {
    SameTickNeverPasses(s.lastSet, Reading(h, s));
    if s.curMatch != s.lastSet {
      PassedExactly(s.lastSetTick, s.now, s.curMatch, h.modulus);
    }
  }

  lemma ClearKeeps(h: Limits, s: State, gap: nat)
    requires ValidLimits(h) && Inv(h, s)
    ensures Inv(h, Clear(h, s, gap))
  {
    AdvanceKeeps(h, s, gap);
    WritesApartFrame(h, Advance(s, gap), Clear(h, s, gap));
  }

  lemma InterruptKeeps(h: Limits, s: State, gap: nat)
    requires ValidLimits(h) && Inv(h, s)
    ensures Inv(h, IrqHandler(h, s, gap))
  {
    ClearKeeps(h, s, if s.suspended then 0 else gap);
    if !s.suspended && Accepts(h, s) {
      WritesApartFrame(h, s, IrqHandler(h, s, gap));
    }
  }

  lemma SuspendKeeps(h: Limits, s: State, polls: nat)
    requires ValidLimits(h) && Inv(h, s) && WaitOver(h, Advance(s, polls))
    ensures Inv(h, Suspend(s, polls))
  {
    var t := Advance(s, polls);
    AdvanceKeeps(h, s, polls);
    AllowWriteKeeps(h, t);
    assert AllowWrite(h, t).setAllowed;
  }

  lemma RaiseKeeps(h: Limits, s: State)
    requires h.modulus > 0 && Inv(h, s)
    ensures Inv(h, s.(irq := true))
  {
    WritesApartFrame(h, s, s.(irq := true));
  }

  lemma FireKeeps(h: Limits, s: State)
    requires h.modulus > 0 && Inv(h, s)
    ensures Inv(h, FireInterrupt(s))
  {
    WritesApartFrame(h, s, FireInterrupt(s));
  }

  lemma ResumeKeeps(h: Limits, s: State)
    requires h.modulus > 0 && Inv(h, s)
    ensures Inv(h, Resume(s))
  {
    WritesApartFrame(h, s, Resume(s));
  }

  lemma RestartKeeps(h: Limits, s: State, now: nat)
    requires h.modulus > 0
    ensures Inv(h, Start(now).(suspended := s.suspended))
  {
  }

  /** While the wait is not over, one tick brings the masked difference one closer. */
  lemma NextTick(h: Limits, now: nat, last: nat)
    requires ValidLimits(h) && h.minBetween < h.modulus && last < h.modulus
    requires Masked(now % h.modulus, last, h.modulus) < h.minBetween
    ensures Masked((now + 1) % h.modulus, last, h.modulus) == Masked(now % h.modulus, last, h.modulus) + 1
  {
    var m := h.modulus;
    LaterReading(now, 1, m);
    MaskedIsMod(now % m, last, m);
    MaskedIsMod((now + 1) % m, last, m);
  }

  lemma {:induction false} WaitEnds(h: Limits, now: nat, last: nat) returns (polls: nat)
    requires ValidLimits(h) && h.minBetween < h.modulus && last < h.modulus
    ensures Masked((now + polls) % h.modulus, last, h.modulus) >= h.minBetween
    decreases h.minBetween - Masked(now % h.modulus, last, h.modulus)
  {
    polls := 0;
    if Masked(now % h.modulus, last, h.modulus) < h.minBetween {
      NextTick(h, now, last);
      var more := WaitEnds(h, now + 1, last);
      polls := 1 + more;
    }
  }

  /** The polling loop of `suspend` ends if and only if the counter can show the ticks between two writes. */
  lemma SuspendEndsExactly(h: Limits, s: State)
    requires ValidLimits(h) && Inv(h, s)
    ensures (exists polls: nat :: WaitOver(h, Advance(s, polls))) <==> s.setAllowed || h.minBetween < h.modulus
  {
    if s.setAllowed {
      assert WaitOver(h, Advance(s, 0));
    } else if h.minBetween < h.modulus {
      var polls := WaitEnds(h, s.now, s.lastActual);
      assert WaitOver(h, Advance(s, polls));
    } else {
      forall polls: nat
        ensures !WaitOver(h, Advance(s, polls))
      {
        assert Masked(Reading(h, Advance(s, polls)), s.lastActual, h.modulus) < h.modulus;
      }
    }
  }

  lemma StepKeeps(h: Limits, s: State, e: Event)
    requires ValidLimits(h) && Inv(h, s) && Enabled(h, s, e)
    ensures Inv(h, Apply(h, s, e))
  {
    match e
    case Ticks(d) => AdvanceKeeps(h, s, d);
    case StrayInterrupt => RaiseKeeps(h, s);
    case Set(timestamp, wait, more) => SetKeeps(h, s, timestamp, wait, more);
    case TimeoutEnds(wait, more) => TimeoutKeeps(h, s, wait, more);
    case Interrupt(gap) => InterruptKeeps(h, s, gap);
    case ReadCounter => RaiseKeeps(h, s);
    case FireNow => FireKeeps(h, s);
    case SuspendAfter(polls) => SuspendKeeps(h, s, polls);
    case ResumeNow => ResumeKeeps(h, s);
    case Restart(now) => RestartKeeps(h, s, now);
  }

  /** In every run: no match is lost, and the compare register is not written too often. */
  lemma {:induction false} RunKeeps(h: Limits, now: nat, events: seq<Event>)
    requires ValidLimits(h) && Possible(h, Start(now), events)
    ensures Inv(h, Run(h, Start(now), events))
  {
    if events != [] {
      var init := events[..|events| - 1];
      RunKeeps(h, now, init);
      StepKeeps(h, Run(h, Start(now), init), events[|events| - 1]);
    }
  }

  /** Two writes since the hardware was started, anywhere in a run, are `minBetween` ticks apart. */
  lemma {:induction false} AnyTwoWrites(h: Limits, s: State, i: nat, j: nat)
    requires h.modulus > 0 && WritesApart(h, s) && i < j < |s.writes|
    ensures s.writes[j] >= s.writes[i] + h.minBetween
  {
    if i + 1 < j {
      AnyTwoWrites(h, s, i, j - 1);
    }
  }

  // ----- delivery

  /** A Timeout that was given all the remaining ticks finds the match passed and fires. */
  lemma FinalTimeoutFires(h: Limits, s: State, wait: nat, more: nat)
    requires ValidLimits(h) && Inv(h, s) && s.attached && s.dueIsMatch && s.now >= s.due
    requires InWindow(h, s) && s.curMatch != s.lastSet
    ensures TimeoutHandler(h, s, wait, more) == s.(attached := false, pendingTimeout := false, irq := true)
    ensures Accepts(h, TimeoutHandler(h, s, wait, more))
  {
    PassedExactly(s.lastSetTick, s.now, s.curMatch, h.modulus);
  }

  /** Once the tick of a secured match has come and no Timeout is attached, the interrupt is up and accepted. */
  lemma SecuredIsDelivered(h: Limits, s: State, d: nat)
    requires ValidLimits(h) && Inv(h, s) && !s.suspended && s.pendingMatch && !s.forfeited && !s.attached
    requires InWindow(h, Advance(s, d)) && s.now + d >= Deadline(h, s)
    ensures Advance(s, d).irq && Accepts(h, Advance(s, d))
    ensures !IrqHandler(h, Advance(s, d), 0).pendingMatch
  {
    var t := Advance(s, d);
    AdvanceKeeps(h, s, d);
    if !t.pendingFireNow {
      AcceptsExactly(h, t);
    }
  }

  /**
   * In every run: with Timeouts served within `delay` ticks of being due, and no interrupt waiting, a
   * match still pending is less than `minUntil + delay` ticks late.  Hence it is accepted by then.
   */
  lemma DeliveredBy(h: Limits, now: nat, events: seq<Event>, delay: nat)
    requires ValidLimits(h) && Possible(h, Start(now), events)
    ensures var s := Run(h, Start(now), events);
            && s.pendingMatch && s.curMatch != s.lastSet && !s.forfeited && InWindow(h, s)
            && (s.attached ==> s.now <= s.due + delay) && !s.irq
            ==> s.now < Deadline(h, s) + h.minUntil + delay
  {
    RunKeeps(h, now, events);
  }

  /** A match set for the very tick it is set at never passes: its Timeout is renewed for ever. */
  lemma SameTickIsRenewed(h: Limits, s: State, wait: nat, more: nat)
    requires ValidLimits(h) && Inv(h, s) && s.attached && s.curMatch == s.lastSet
    ensures TimeoutHandler(h, s, wait, more).attached
  {
    SameTickNeverPasses(s.lastSet, Reading(h, s));
    MaskedIsMod(s.curMatch, s.lastSet, h.modulus);
  }

  // ----- what each operation does, in real ticks

  /** Scheduling leaves the match itself alone. */
  predicate SameMatch(s: State, c: State) {
    && c.pendingMatch == s.pendingMatch && c.forfeited == s.forfeited && c.suspended == s.suspended
    && c.curMatch == s.curMatch && c.lastSet == s.lastSet && c.lastSetTick == s.lastSetTick
  }

  /** Only the Timeout and the interrupt may differ. */
  predicate SameWrites(s: State, c: State) {
    && c.writes == s.writes && c.compare == s.compare && c.setAllowed == s.setAllowed && c.now == s.now
    && SameMatch(s, c)
  }

  lemma TimeoutFrame(s: State, ticks: nat, all: bool, c: State)
    requires c == AttachTimeout(s, ticks, all)
    ensures SameWrites(s, c) && c.irq == s.irq
  {
  }

  lemma FireFrame(s: State, c: State)
    requires c == s.(irq := true)
    ensures SameWrites(s, c)
  {
  }

  lemma UseFrame(h: Limits, s: State, c: State)
    requires h.modulus > 0 && c == UseTimeout(h, s)
    ensures SameWrites(s, c) && c.irq == s.irq
  {
    var cycles := CyclesUntilMatch(h, s);
    if !s.pendingTimeout {
      TimeoutFrame(s, if cycles < h.minUntil then cycles else h.minUntil, cycles < h.minUntil, c);
    }
  }

  /** What is done after a write touches the Timeout and the interrupt only. */
  lemma CheckFrame(h: Limits, w: State, c: State)
    requires h.modulus > 0 && c == CheckWrite(h, w)
    ensures SameWrites(w, c)
  {
    var left := Masked(w.curMatch, w.lastActual, h.modulus);
    if left > CyclesUntilMatch(h, w) {
      FireFrame(w, c);
    } else if left < h.minUntil {
      TimeoutFrame(w, left, true, c);
    }
  }

  lemma AllowSame(s: State, a: State)
    requires a == s || a == s.(setAllowed := true)
    ensures a.writes == s.writes && a.compare == s.compare && a.now == s.now && a.irq == s.irq && SameMatch(s, a)
  {
  }

  lemma ScheduleSameMatch(h: Limits, s: State, wait: nat, more: nat)
    requires h.modulus > 0
    ensures SameMatch(s, ScheduleMatch(h, s, wait, more))
  {
    WritesExactly(h, s, wait, more);
  }

  /** The match asked for is the first tick, from now on, at which the counter shows the timestamp. */
  lemma SetMeans(h: Limits, s: State, timestamp: nat, wait: nat, more: nat)
    requires ValidLimits(h) && timestamp < h.modulus
    ensures var c := SetInterrupt(h, s, timestamp, wait, more);
            && c.pendingMatch && !c.forfeited && c.lastSetTick == s.now
            && s.now <= Deadline(h, c) < s.now + h.modulus && Deadline(h, c) % h.modulus == timestamp
  {
    var t := s.(lastSet := Reading(h, s), lastSetTick := s.now, curMatch := timestamp, pendingMatch := true,
                dueIsMatch := false, forfeited := false);
    ScheduleSameMatch(h, t, wait, more);
    FirstTick(s.now, timestamp, h.modulus, Masked(timestamp, s.now % h.modulus, h.modulus));
  }

  lemma FirstTick(now: nat, timestamp: nat, m: nat, wait: nat)
    requires Modulus(m) && timestamp < m && wait == Masked(timestamp, now % m, m)
    ensures (now + wait) % m == timestamp
  {
    MaskedIsMod(timestamp, now % m, m);
    LaterReading(now, wait, m);
  }

  /** Ticks since the compare register was last read back, as far as the counter can tell. */
  function SinceWrite(h: Limits, s: State): nat
    requires h.modulus > 0 && s.lastActualTick <= s.now
  {
    (s.now - s.lastActualTick) % h.modulus
  }

  /** Writing is allowed again exactly when enough ticks have gone by since the last write. */
  lemma AllowedExactly(h: Limits, s: State)
    requires ValidLimits(h) && Inv(h, s) && !s.setAllowed
    ensures s.lastActualTick <= s.now
    ensures AllowWrite(h, s).setAllowed <==> SinceWrite(h, s) >= h.minBetween
  {
    MaskedSince(s.lastActualTick, s.now, h.modulus);
  }

  lemma MaskedSince(start: nat, now: nat, m: nat)
    requires Modulus(m) && start <= now
    ensures Masked(now % m, start % m, m) == (now - start) % m
  {
    var e, q := (now - start) % m, (now - start) / m;
    assert now == (start + e) + m * q;
    ModShift(start + e, m, q);
    LaterReading(start, e, m);
    MaskedIsMod(now % m, start % m, m);
  }

  /** The compare register is written exactly when that is allowed and the match is not too near. */
  lemma WritesExactly(h: Limits, s: State, wait: nat, more: nat)
    requires h.modulus > 0
    ensures var a, c := AllowWrite(h, s), ScheduleMatch(h, s, wait, more);
            if a.setAllowed && CyclesUntilMatch(h, s) >= h.minUntil then Written(s, c, wait, more) else Unwritten(s, c)
    ensures SameMatch(s, ScheduleMatch(h, s, wait, more))
  {
    var a, c := AllowWrite(h, s), ScheduleMatch(h, s, wait, more);
    AllowSame(s, a);
    if !a.setAllowed {
      UseFrame(h, a, c);
    } else if CyclesUntilMatch(h, a) < h.minUntil {
      TimeoutFrame(a, CyclesUntilMatch(h, a), true, c);
    } else {
      WriteFrame(h, a, wait, more, WriteCompare(h, a, wait, more));
      CheckFrame(h, WriteCompare(h, a, wait, more), c);
    }
  }

  predicate Written(s: State, c: State, wait: nat, more: nat) {
    && c.writes == s.writes + [s.now + wait] && !c.setAllowed && c.now == s.now + wait + more
    && c.compare.Armed? && c.compare.value == s.curMatch
  }

  predicate Unwritten(s: State, c: State) {
    c.writes == s.writes && c.compare == s.compare && c.now == s.now && c.irq == s.irq
  }

  lemma WriteFrame(h: Limits, a: State, wait: nat, more: nat, w: State)
    requires h.modulus > 0 && w == WriteCompare(h, a, wait, more)
    ensures w.writes == a.writes + [a.now + wait] && !w.setAllowed && w.now == a.now + wait + more
    ensures w.compare.Armed? && w.compare.value == a.curMatch && w.attached == a.attached && w.due == a.due
    ensures SameMatch(a, w)
  {
  }

  /** Without a write the Timeout is used, for the ticks left or the minimum; one already running is left alone. */
  lemma TimeoutLength(h: Limits, s: State, wait: nat, more: nat)
    requires h.modulus > 0
    requires !AllowWrite(h, s).setAllowed || CyclesUntilMatch(h, s) < h.minUntil
    ensures var c, left := ScheduleMatch(h, s, wait, more), CyclesUntilMatch(h, s);
            if !AllowWrite(h, s).setAllowed && s.pendingTimeout then c.due == s.due && c.attached == s.attached
            else c.attached && c.pendingTimeout && c.due == s.now + (if left < h.minUntil then left else h.minUntil)
  {
  }

  /**
   * After a write a match that was passed fires at once, one that is near gets a Timeout, and any other
   * is left to the hardware.
   */
  lemma AfterWrite(h: Limits, a: State, wait: nat, more: nat)
    requires ValidLimits(h) && Pending(h, a) && a.setAllowed && CyclesUntilMatch(h, a) >= h.minUntil
    requires InWindow(h, WriteCompare(h, a, wait, more))
    ensures var w, c, end := WriteCompare(h, a, wait, more), ScheduleMatch(h, a, wait, more), Deadline(h, a);
            if w.now > end then c == w.(irq := true)
            else if end - w.now < h.minUntil then c == AttachTimeout(w, end - w.now, true)
            else c == w && w.compare == Armed(a.curMatch, end, true)
  {
    var w := WriteCompare(h, a, wait, more);
    WriteReadsBack(h, a, wait, more, w);
    WriteFrame(h, a, wait, more, w);
    AfterCheck(h, w, CheckWrite(h, w), Masked(w.curMatch, w.lastActual, h.modulus));
  }

  lemma AfterCheck(h: Limits, w: State, c: State, left: nat)
    requires h.modulus > 0 && c == CheckWrite(h, w) && left == Masked(w.curMatch, w.lastActual, h.modulus)
    requires ReadBack(h, w, left) && InWindow(h, w)
    ensures if w.now > Deadline(h, w) then c == w.(irq := true)
            else if Deadline(h, w) - w.now < h.minUntil then c == AttachTimeout(w, Deadline(h, w) - w.now, true)
            else c == w && w.compare == Armed(w.curMatch, Deadline(h, w), true)
  {
  }

  /** A Timeout that ends fires exactly when the tick of its match has come, and schedules anew otherwise. */
  lemma TimeoutFiresExactly(h: Limits, s: State, wait: nat, more: nat)
    requires ValidLimits(h) && Inv(h, s) && s.attached && InWindow(h, s) && s.curMatch != s.lastSet
    ensures var t, c := s.(attached := false, pendingTimeout := false), TimeoutHandler(h, s, wait, more);
            c == if s.now >= Deadline(h, s) then t.(irq := true) else ScheduleMatch(h, t, wait, more)
  {
    PassedExactly(s.lastSetTick, s.now, s.curMatch, h.modulus);
  }

  /** Reading the counter raises the interrupt exactly for a match whose tick has come, and changes nothing else. */
  lemma ReadExactly(h: Limits, s: State)
    requires ValidLimits(h) && Consistent(h, s) && InWindow(h, s)
    ensures Read(h, s) == s.(irq := s.irq || (s.pendingMatch && s.curMatch != s.lastSet && s.now >= Deadline(h, s)))
  {
    if s.pendingMatch {
      SameTickNeverPasses(s.lastSet, Reading(h, s));
      if s.curMatch != s.lastSet {
        PassedExactly(s.lastSetTick, s.now, s.curMatch, h.modulus);
      }
    }
  }

  /** A fired interrupt is up until it is served. */
  lemma FireRaises(s: State)
    ensures var f := FireInterrupt(s);
            f.irq && f.pendingFireNow && f == s.(irq := f.irq, pendingFireNow := f.pendingFireNow)
  {
  }

  /** It is served whatever match is pending and however near: the match and its Timeout are taken with it. */
  lemma FiredIsHandled(h: Limits, s: State, gap: nat)
    requires h.modulus > 0 && !s.suspended && s.pendingFireNow
    ensures Taken(s, IrqHandler(h, s, gap))
  {
  }

  /** So is the interrupt of a match whose tick has come. */
  lemma MatchIsHandled(h: Limits, s: State, gap: nat)
    requires ValidLimits(h) && Consistent(h, s) && !s.suspended && s.pendingMatch && InWindow(h, s)
    requires s.curMatch != s.lastSet && s.now >= Deadline(h, s)
    ensures Taken(s, IrqHandler(h, s, gap))
  {
    if !s.pendingFireNow {
      AcceptsExactly(h, s);
    }
  }

  /** The interrupt is off the line, and nothing is left to be delivered. */
  predicate Taken(s: State, t: State) {
    && !t.irq && !t.pendingFireNow && !t.pendingMatch && !t.pendingTimeout && !t.attached
    && t.forfeited == s.forfeited && t.now == s.now && t.suspended == s.suspended
    && t.setAllowed == s.setAllowed && t.compare == s.compare && t.writes == s.writes
  }

  /** Any other interrupt is only cleared. */
  lemma OthersAreCleared(h: Limits, s: State, gap: nat)
    requires h.modulus > 0 && (s.suspended || !(s.pendingFireNow || MatchCheck(h, s)))
    ensures var t := IrqHandler(h, s, gap);
            && !t.irq && t.now == s.now + (if s.suspended then 0 else gap)
            && t == s.(irq := t.irq, now := t.now, forfeited := t.forfeited)
  {
  }

  /** A suspended wrapper has nothing pending and may write at once when it is resumed. */
  lemma SuspendForgets(s: State, polls: nat)
    ensures var t := Suspend(s, polls);
            && t.suspended && !t.attached && !t.pendingTimeout && !t.pendingMatch && !t.pendingFireNow && t.setAllowed
            && t.now == s.now + polls && t.writes == s.writes
            && Resume(t) == t.(suspended := false)
  {
  }

  /** Hardware that was just started holds no match, and may be written. */
  lemma StartIsFree(now: nat)
    ensures var s := Start(now);
            && !s.suspended && !s.attached && !s.pendingTimeout && !s.pendingMatch && !s.pendingFireNow && !s.irq
            && s.setAllowed && s.compare == Idle && s.writes == [] && s.now == now
  {
  }

  // ----- the race in irq_handler

  /** Clearing a spurious interrupt leaves a pending match secured exactly when its tick does not come first. */
  lemma SpuriousExactly(h: Limits, s: State, gap: nat)
    requires ValidLimits(h) && Inv(h, s) && !s.suspended && s.pendingMatch && !s.forfeited && s.irq && !Accepts(h, s)
    requires InWindow(h, Advance(s, gap))
    ensures Secured(h, IrqHandler(h, s, gap)) <==> ClearedInTime(h, s, gap)
  {
    AcceptsExactly(h, s);
  }

  lemma RunMore(h: Limits, s: State, events: seq<Event>, e: Event)
    requires h.modulus > 0
    ensures Run(h, s, events + [e]) == Apply(h, Run(h, s, events), e)
    ensures Possible(h, s, events + [e]) <==> Possible(h, s, events) && Enabled(h, Run(h, s, events), e)
  {
    var more := events + [e];
    assert more[..|more| - 1] == events;
  }

  /** A match for tick 50 was set at tick 0. */
  function FirstArmed(now: nat, irq: bool): State {
    State(false, false, true, false, false, 50, 0, 0, false, 0, now, irq, Armed(50, 50, true),
          0, 0, [0], false, false)
  }

  /** Its interrupt is up and not yet served, and a match for tick 53 has been set at tick 50. */
  function SecondArmed(now: nat): State {
    State(false, false, true, false, false, 53, 50, 50, false, 0, now, true, Armed(53, 53, true),
          50, 50, [0, 50], false, false)
  }

  lemma RaceMasked(m: nat)
    requires m == 65536
    ensures 0 % m == 0 && 50 % m == 50 && 52 % m == 52 && Masked(50, 0, m) == 50 && Masked(53, 50, m) == 3
  {
    assert m * m == UINT32;
    MaskedIsMod(50, 0, m);
    MaskedIsMod(53, 50, m);
  }

  lemma RaceFirst(h: Limits)
    requires h.modulus == 65536 && h.minBetween == 2 && h.minUntil == 2
    ensures SetInterrupt(h, Start(0), 50, 0, 0) == FirstArmed(0, false)
  {
    RaceMasked(h.modulus);
  }

  lemma RaceSecond(h: Limits)
    requires h.modulus == 65536 && h.minBetween == 2 && h.minUntil == 2
    ensures SetInterrupt(h, FirstArmed(50, true), 53, 0, 0) == SecondArmed(50)
  {
    RaceMasked(h.modulus);
    assert [0] + [50] == [0, 50];
  }

  lemma RaceReached(h: Limits) returns (events: seq<Event>)
    requires h.modulus == 65536 && h.minBetween == 2 && h.minUntil == 2
    ensures Possible(h, Start(0), events) && Run(h, Start(0), events) == SecondArmed(52)
  {
    RaceFirst(h);
    RunMore(h, Start(0), [], Set(50, 0, 0));
    events := [] + [Set(50, 0, 0)];
    assert Run(h, Start(0), events) == FirstArmed(0, false);
    RunMore(h, Start(0), events, Ticks(50));
    events := events + [Ticks(50)];
    assert Run(h, Start(0), events) == FirstArmed(50, true);
    RaceSecond(h);
    RunMore(h, Start(0), events, Set(53, 0, 0));
    events := events + [Set(53, 0, 0)];
    assert Run(h, Start(0), events) == SecondArmed(50);
    RunMore(h, Start(0), events, Ticks(2));
    events := events + [Ticks(2)];
  }

  lemma RaceLoses(h: Limits)
    requires h.modulus == 65536 && h.minBetween == 2 && h.minUntil == 2
    ensures var s := IrqHandler(h, SecondArmed(52), 1);
            s.pendingMatch && InWindow(h, s) && s.now >= Deadline(h, s) && !s.irq && !s.attached && !Secured(h, s)
  {
    RaceMasked(h.modulus);
  }

  /**
   * A late first interrupt, served just as the second match comes, takes that match with it: the match
   * stays pending past its tick with no interrupt, no Timeout and no compare to bring it back.
   */
  lemma MatchCanBeLost(h: Limits) returns (events: seq<Event>)
    requires h == Limits(65536, 2, 2)
    ensures ValidLimits(h) && Possible(h, Start(0), events)
    ensures var s := Run(h, Start(0), events);
            s.pendingMatch && InWindow(h, s) && s.now >= Deadline(h, s) && !s.irq && !s.attached && !Secured(h, s)
  {
    assert 65536 * 65536 == UINT32;
    events := RaceReached(h);
    RaceLoses(h);
    RunMore(h, Start(0), events, Interrupt(1));
    events := events + [Interrupt(1)];
  }
}
