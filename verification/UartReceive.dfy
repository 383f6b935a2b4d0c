/**
 * The receive half of the buffered UART: concurrent `read` calls that take turns holding the
 * mutex, and the receive interrupt, which can come between any two of their steps.
 */
module UartReceive {

  /** Where a call of `read` stands. */
  datatype Place =
    | Enter  // waits for the mutex
    | Check  // holds it, about to look whether the buffer is empty
    | Wait   // has let go of it because the buffer was empty
    | Pop    // holds it, at the head of the popping loop
    | Kick   // holds it, about to enter the critical section
    | Done

  /** A call of `read`; as history, whether it gave up, and whether all its steps so far were in blocking mode. */
  datatype Call = Call(length: nat, got: seq<nat>, place: Place, gaveUp: bool, patient: bool)

  datatype Holder = Nobody | Reader(call: nat)

  datatype State = State(
    capacity: nat, buffer: seq<nat>, enabled: bool, attached: bool,
    holder: Holder, calls: map<nat, Call>,
    arrived: seq<nat>,    // what was taken from the peripheral, in order
    delivered: seq<nat>)  // what the calls have popped, in order

  /** The constructor attaches the receive handler. */
  function Start(capacity: nat): State {
    State(capacity, [], true, true, Nobody, map[], [], [])
  }

  predicate Full(s: State) { |s.buffer| == s.capacity }

  predicate Holds(p: Place) { p.Check? || p.Pop? || p.Kick? }

  /** The stretch between the first pop and the end of the critical section. */
  predicate Popping(p: Place) { p.Pop? || p.Kick? }

  predicate InPopRegion(s: State) {
    s.holder.Reader? && s.holder.call in s.calls && Popping(s.calls[s.holder.call].place)
  }

  // ----- steps

  /** `rx_irq`, when the peripheral has `bytes` to offer; what does not fit stays there. */
  function RxIrq(s: State, bytes: seq<nat>): State
    requires |s.buffer| <= s.capacity
  {
    var n := if |bytes| < s.capacity - |s.buffer| then |bytes| else s.capacity - |s.buffer|;
    var t := s.(buffer := s.buffer + bytes[..n], arrived := s.arrived + bytes[..n]);
    if t.enabled && Full(t) then t.(attached := false, enabled := false) else t
  }

  function Goto(s: State, id: nat, p: Place): State
    requires id in s.calls
  {
    s.(calls := s.calls[id := s.calls[id].(place := p)])
  }

  function Release(s: State, id: nat, p: Place, gaveUp: bool): State
    requires id in s.calls
  {
    s.(calls := s.calls[id := s.calls[id].(place := p, gaveUp := gaveUp)], holder := Nobody)
  }

  /** The critical section of `read`: take what fits, and turn the interrupt on if there is room. */
  function KickStep(s: State, bytes: seq<nat>): State
    requires |s.buffer| <= s.capacity
  {
    if s.enabled then s
    else
      var t := RxIrq(s, bytes);
      if !Full(t) then t.(attached := true, enabled := true) else t
  }

  function PopStep(s: State, id: nat): State
    requires id in s.calls && s.buffer != []
  {
    var c := s.calls[id];
    s.(buffer := s.buffer[1..], delivered := s.delivered + [s.buffer[0]],
       calls := s.calls[id := c.(got := c.got + [s.buffer[0]])])
  }

  /** The history of call `id` before it takes a step. */
  function Noted(s: State, id: nat, blocking: bool): State
    requires id in s.calls
  {
    var c := s.calls[id];
    s.(calls := s.calls[id := c.(patient := c.patient && blocking)])
  }

  /** One step of call `id`. */
  function ReaderStep(s: State, id: nat, blocking: bool, bytes: seq<nat>): State
    requires id in s.calls && |s.buffer| <= s.capacity
  {
    var c := s.calls[id];
    match c.place
    case Enter => Goto(s, id, Check).(holder := Reader(id))
    case Wait => Goto(s, id, Check).(holder := Reader(id))
    case Check =>
      if s.buffer != [] then Goto(s, id, Pop)
      else if blocking then Release(s, id, Wait, false)
      else Release(s, id, Done, true)
    case Pop => if |c.got| < c.length && s.buffer != [] then PopStep(s, id) else Goto(s, id, Kick)
    case Kick => Release(KickStep(s, bytes), id, Done, false)
    case Done => s
  }

  datatype Event =
    | Begin(id: nat, length: nat)
    | Step(id: nat, blocking: bool, bytes: seq<nat>)
    | Interrupt(bytes: seq<nat>)

  predicate Enabled(s: State, e: Event) {
    match e
    case Begin(id, length) => id !in s.calls && length > 0
    case Step(id, _, _) =>
      && id in s.calls
      && !s.calls[id].place.Done?
      && (s.calls[id].place.Enter? || s.calls[id].place.Wait? ==> s.holder.Nobody?)
    case Interrupt(_) => s.attached
  }

  function Apply(s: State, e: Event): State
    requires Enabled(s, e) && |s.buffer| <= s.capacity
  {
    match e
    case Begin(id, length) => s.(calls := s.calls[id := Call(length, [], Enter, false, true)])
    case Step(id, blocking, bytes) => ReaderStep(Noted(s, id, blocking), id, blocking, bytes)
    case Interrupt(bytes) => RxIrq(s, bytes)
  }

  // ----- what every step keeps

  predicate Fifo(s: State) { s.arrived == s.delivered + s.buffer && |s.buffer| <= s.capacity }

  /** The interrupt is on exactly when there is room; a holder may be about to turn it on. */
  predicate NeverStalls(s: State) {
    && s.attached == s.enabled
    && (s.enabled ==> !Full(s))
    && (!Full(s) && !s.enabled ==> InPopRegion(s))
  }

  predicate CallOk(s: State, id: nat)
    requires id in s.calls
  {
    var c := s.calls[id];
    && c.length > 0 && |c.got| <= c.length
    && (Holds(c.place) <==> s.holder == Reader(id))
    && (c.place.Enter? || c.place.Wait? || c.place.Check? ==> c.got == [])
    && (c.place.Pop? ==> c.got != [] || s.buffer != [])
    && (c.place.Kick? ==> c.got != [])
    && (c.place.Done? ==> (c.got == [] <==> c.gaveUp))
    && (c.patient ==> !c.gaveUp)
    && (Popping(c.place) ==> EndsWith(s.delivered, c.got))
  }

  predicate EndsWith(a: seq<nat>, b: seq<nat>) { |b| <= |a| && a[|a| - |b|..] == b }

  predicate CallsOk(s: State) {
    && (forall id :: id in s.calls ==> CallOk(s, id))
    && (s.holder.Reader? ==> s.holder.call in s.calls)
  }

  predicate Inv(s: State) { s.capacity > 0 && Fifo(s) && NeverStalls(s) && CallsOk(s) }

  lemma RxIrqKeeps(s: State, bytes: seq<nat>)
    requires Inv(s)
    ensures Inv(RxIrq(s, bytes))
  {
    var t := RxIrq(s, bytes);
    assert t.arrived == t.delivered + t.buffer;
    forall id | id in t.calls
      ensures CallOk(t, id)
    {
      assert CallOk(s, id);
    }
  }

  /** A step that only moves call `id`, and takes or lets go of the mutex, keeps the other calls. */
  lemma MoveKeeps(s: State, id: nat, c: Call, holder: Holder, t: State)
    requires Inv(s) && id in s.calls && (s.holder == Nobody || s.holder == Reader(id))
    requires holder == Nobody || holder == Reader(id)
    requires t == s.(calls := s.calls[id := c], holder := holder)
    requires c.length == s.calls[id].length && c.got == s.calls[id].got
    requires Holds(c.place) <==> holder == Reader(id)
    requires c.place.Enter? || c.place.Wait? || c.place.Check? ==> c.got == []
    requires c.place.Pop? ==> c.got != [] || s.buffer != []
    requires c.place.Kick? ==> c.got != []
    requires c.place.Done? ==> (c.got == [] <==> c.gaveUp)
    requires c.patient ==> !c.gaveUp
    requires Popping(c.place) ==> EndsWith(s.delivered, c.got)
    requires !Full(s) && !s.enabled ==> Popping(c.place)
    ensures Inv(t)
  {
    assert CallOk(s, id);
    forall other | other in t.calls
      ensures CallOk(t, other)
    {
      assert CallOk(s, other);
    }
  }

  lemma HolderIs(s: State, id: nat)
    requires Inv(s) && id in s.calls && Holds(s.calls[id].place)
    ensures s.holder == Reader(id)
  {
    assert CallOk(s, id);
  }

  lemma EndsWithMore(a: seq<nat>, b: seq<nat>, x: nat)
    requires EndsWith(a, b)
    ensures EndsWith(a + [x], b + [x])
  {
  }

  lemma PopKeeps(s: State, id: nat)
    requires Inv(s) && id in s.calls && s.calls[id].place.Pop?
    requires |s.calls[id].got| < s.calls[id].length && s.buffer != []
    ensures Inv(PopStep(s, id))
  {
    HolderIs(s, id);
    assert CallOk(s, id);
    var t := PopStep(s, id);
    EndsWithMore(s.delivered, s.calls[id].got, s.buffer[0]);
    assert t.arrived == t.delivered + t.buffer;
    forall other | other in t.calls
      ensures CallOk(t, other)
    {
      assert CallOk(s, other);
    }
  }

  lemma KickKeeps(s: State, id: nat, bytes: seq<nat>)
    requires Inv(s) && id in s.calls && s.calls[id].place.Kick?
    ensures Inv(Release(KickStep(s, bytes), id, Done, false))
  {
    HolderIs(s, id);
    assert CallOk(s, id);
    RxIrqKeeps(s, bytes);
    var k := KickStep(s, bytes);
    assert Inv(k) by {
      if !s.enabled {
        var u := RxIrq(s, bytes);
        forall other | other in k.calls
          ensures CallOk(k, other)
        {
          assert CallOk(u, other);
        }
      }
    }
    MoveKeeps(k, id, k.calls[id].(place := Done, gaveUp := false), Nobody, Release(k, id, Done, false));
  }

  /** Outside the pop region, room in the buffer means the interrupt is on. */
  lemma NotPopping(s: State, id: nat)
    requires Inv(s) && id in s.calls && !Popping(s.calls[id].place)
    requires s.holder == Nobody || s.holder == Reader(id)
    ensures Full(s) || s.enabled
  {
  }

  lemma LockKeeps(s: State, id: nat)
    requires Inv(s) && id in s.calls && (s.calls[id].place.Enter? || s.calls[id].place.Wait?) && s.holder == Nobody
    ensures Inv(Goto(s, id, Check).(holder := Reader(id)))
  {
    NotPopping(s, id);
    assert CallOk(s, id);
    MoveKeeps(s, id, s.calls[id].(place := Check), Reader(id), Goto(s, id, Check).(holder := Reader(id)));
  }

  lemma CheckKeeps(s: State, id: nat, blocking: bool, t: State)
    requires Inv(s) && id in s.calls && s.calls[id].place.Check? && t == ReaderStep(s, id, blocking, [])
    requires s.calls[id].patient ==> blocking
    ensures Inv(t)
  {
    HolderIs(s, id);
    NotPopping(s, id);
    assert CallOk(s, id);
    var c := s.calls[id];
    if s.buffer != [] {
      MoveKeeps(s, id, c.(place := Pop), Reader(id), t);
    } else if blocking {
      MoveKeeps(s, id, c.(place := Wait, gaveUp := false), Nobody, t);
    } else {
      MoveKeeps(s, id, c.(place := Done, gaveUp := true), Nobody, t);
    }
  }

  lemma LeavePopKeeps(s: State, id: nat)
    requires Inv(s) && id in s.calls && s.calls[id].place.Pop?
    requires !(|s.calls[id].got| < s.calls[id].length && s.buffer != [])
    ensures Inv(Goto(s, id, Kick))
  {
    HolderIs(s, id);
    assert CallOk(s, id);
    MoveKeeps(s, id, s.calls[id].(place := Kick), Reader(id), Goto(s, id, Kick));
  }

  lemma ReaderStepKeeps(s: State, id: nat, blocking: bool, bytes: seq<nat>)
    requires Inv(s) && Enabled(s, Step(id, blocking, bytes)) && (s.calls[id].patient ==> blocking)
    ensures Inv(ReaderStep(s, id, blocking, bytes))
  {
    match s.calls[id].place
    case Enter => LockKeeps(s, id);
    case Wait => LockKeeps(s, id);
    case Check => CheckKeeps(s, id, blocking, ReaderStep(s, id, blocking, bytes));
    case Pop =>
      if |s.calls[id].got| < s.calls[id].length && s.buffer != [] {
        PopKeeps(s, id);
      } else {
        LeavePopKeeps(s, id);
      }
    case Kick => KickKeeps(s, id, bytes);
  }

  lemma NotedKeeps(s: State, id: nat, blocking: bool, bytes: seq<nat>)
    requires Inv(s) && Enabled(s, Step(id, blocking, bytes))
    ensures Inv(Noted(s, id, blocking)) && Enabled(Noted(s, id, blocking), Step(id, blocking, bytes))
  {
    assert CallOk(s, id);
    var c := s.calls[id];
    MoveKeeps(s, id, c.(patient := c.patient && blocking), s.holder, Noted(s, id, blocking));
  }

  lemma BeginKeeps(s: State, id: nat, length: nat)
    requires Inv(s) && id !in s.calls && length > 0
    ensures Inv(s.(calls := s.calls[id := Call(length, [], Enter, false, true)]))
  {
    var t := s.(calls := s.calls[id := Call(length, [], Enter, false, true)]);
    forall other | other in t.calls
      ensures CallOk(t, other)
    {
      assert other in s.calls ==> CallOk(s, other);
    }
  }

  lemma StepKeeps(s: State, e: Event)
    requires Inv(s) && Enabled(s, e)
    ensures Inv(Apply(s, e))
  {
    match e
    case Begin(id, length) => BeginKeeps(s, id, length);
    case Step(id, blocking, bytes) =>
      NotedKeeps(s, id, blocking, bytes);
      ReaderStepKeeps(Noted(s, id, blocking), id, blocking, bytes);
    case Interrupt(bytes) => RxIrqKeeps(s, bytes);
  }

  // ----- consequences

  /** `rx_irq` never pushes more than there is room for, and takes bytes in the order they are offered. */
  lemma NoOverrun(s: State, bytes: seq<nat>)
    requires Inv(s)
    ensures |RxIrq(s, bytes).buffer| <= s.capacity
    ensures exists n :: 0 <= n <= |bytes| && RxIrq(s, bytes).arrived == s.arrived + bytes[..n]
                        && (n == |bytes| || Full(RxIrq(s, bytes)))
  {
    var n := if |bytes| < s.capacity - |s.buffer| then |bytes| else s.capacity - |s.buffer|;
    assert 0 <= n <= |bytes|;
  }

  /** A call about to return has at least one byte, and its bytes are the last ones delivered. */
  lemma FinishedRead(s: State, id: nat)
    requires Inv(s) && id in s.calls && s.calls[id].place.Kick?
    ensures 0 < |s.calls[id].got| <= s.calls[id].length && EndsWith(s.delivered, s.calls[id].got)
  {
    assert CallOk(s, id);
  }

  /** A blocking call that has returned has at least one byte, and any call that has not gave up. */
  lemma ReturnsBytes(s: State, id: nat)
    requires Inv(s) && id in s.calls && s.calls[id].place.Done?
    ensures s.calls[id].patient || !s.calls[id].gaveUp ==> 0 < |s.calls[id].got| <= s.calls[id].length
    ensures s.calls[id].gaveUp ==> s.calls[id].got == []
  {
    assert CallOk(s, id);
  }

  /** A call in blocking mode never gives up; one that is not never waits. */
  lemma ModeDecides(s: State, id: nat, blocking: bool, bytes: seq<nat>)
    requires Inv(s) && Enabled(s, Step(id, blocking, bytes))
    ensures var t := Apply(s, Step(id, blocking, bytes));
            && id in t.calls
            && (t.calls[id].place.Done? && t.calls[id].got == [] ==> !blocking && s.buffer == [])
            && (t.calls[id].place.Wait? ==> blocking && s.buffer == [])
  {
    assert CallOk(s, id);
  }

  /** A call takes the oldest byte as long as it wants one and there is one. */
  lemma TakesAll(s: State, id: nat, blocking: bool, bytes: seq<nat>)
    requires Inv(s) && Enabled(s, Step(id, blocking, bytes)) && s.calls[id].place.Pop?
    ensures var c, t := s.calls[id], Apply(s, Step(id, blocking, bytes));
            && id in t.calls
            && if |c.got| == c.length || s.buffer == [] then
                 t.calls[id].got == c.got && t.calls[id].place == Kick && t.buffer == s.buffer
               else
                 && t.calls[id].got == c.got + [s.buffer[0]] && t.calls[id].place == Pop
                 && [s.buffer[0]] + t.buffer == s.buffer
  {
    assert CallOk(s, id);
  }

  /** Outside the pop region an empty buffer has the interrupt that will fill it. */
  lemma WaitingReaderIsReleased(s: State, bytes: seq<nat>)
    requires Inv(s) && !InPopRegion(s) && s.buffer == [] && bytes != []
    ensures s.attached && RxIrq(s, bytes).buffer != []
  {
  }

  /** The critical section takes at once what fits unless the interrupt is on, and leaves that on while there is room. */
  lemma KickTakes(s: State, bytes: seq<nat>, t: State)
    requires |s.buffer| <= s.capacity && (s.enabled ==> !Full(s)) && t == KickStep(s, bytes)
    ensures t.enabled <==> !Full(t)
    ensures if s.enabled then t == s
            else exists n :: 0 <= n <= |bytes| && t.arrived == s.arrived + bytes[..n] && t.buffer == s.buffer + bytes[..n]
                             && (n == |bytes| || Full(t))
  {
    if !s.enabled {
      var n := if |bytes| < s.capacity - |s.buffer| then |bytes| else s.capacity - |s.buffer|;
      assert t.arrived == s.arrived + bytes[..n];
    }
  }

  // ----- progress

  /** A bound on the steps that call `id` still takes if it need not wait. */
  function Left(s: State, id: nat): nat
    requires id in s.calls && |s.calls[id].got| <= s.calls[id].length
  {
    var c := s.calls[id];
    match c.place
    case Enter => c.length + 4
    case Wait => c.length + 4
    case Check => c.length + 3
    case Pop => c.length - |c.got| + 2
    case Kick => 1
    case Done => 0
  }

  /** Call `id` is nearer to its end in `t`, or has let go of the mutex on an empty buffer. */
  predicate Advances(s: State, id: nat, t: State)
    requires id in s.calls && |s.calls[id].got| <= s.calls[id].length
  {
    && id in t.calls && t.calls[id].length == s.calls[id].length
    && s.calls[id].got <= t.calls[id].got && |t.calls[id].got| <= t.calls[id].length
    && if t.calls[id].place.Wait? then s.buffer == [] && Left(t, id) == Left(s, id) + 1
       else Left(t, id) < Left(s, id)
  }

  /** Every step of a call brings it nearer to its end, except for letting go of the mutex on an empty buffer. */
  lemma StepProgresses(s: State, id: nat, blocking: bool, bytes: seq<nat>)
    requires Inv(s) && Enabled(s, Step(id, blocking, bytes))
    ensures |s.calls[id].got| <= s.calls[id].length && Advances(s, id, Apply(s, Step(id, blocking, bytes)))
  {
    NotedKeeps(s, id, blocking, bytes);
    var u := Noted(s, id, blocking);
    assert CallOk(u, id);
    assert Left(u, id) == Left(s, id);
    ReaderProgresses(u, id, blocking, bytes, ReaderStep(u, id, blocking, bytes));
  }

  lemma ReaderProgresses(s: State, id: nat, blocking: bool, bytes: seq<nat>, t: State)
    requires Inv(s) && Enabled(s, Step(id, blocking, bytes)) && CallOk(s, id) && t == ReaderStep(s, id, blocking, bytes)
    ensures Advances(s, id, t)
  {
    match s.calls[id].place
    case Check => CheckAdvances(s, id, blocking, t);
    case Pop => PopAdvances(s, id, t);
    case Kick => KickAdvances(s, id, bytes, t);
    case _ =>
  }

  lemma CheckAdvances(s: State, id: nat, blocking: bool, t: State)
    requires id in s.calls && |s.buffer| <= s.capacity && CallOk(s, id) && s.calls[id].place.Check?
    requires t == ReaderStep(s, id, blocking, [])
    ensures Advances(s, id, t)
  {
  }

  lemma PopAdvances(s: State, id: nat, t: State)
    requires id in s.calls && |s.buffer| <= s.capacity && CallOk(s, id) && s.calls[id].place.Pop?
    requires t == ReaderStep(s, id, false, [])
    ensures Advances(s, id, t)
  {
  }

  lemma KickAdvances(s: State, id: nat, bytes: seq<nat>, t: State)
    requires id in s.calls && |s.buffer| <= s.capacity && CallOk(s, id) && s.calls[id].place.Kick?
    requires t == ReaderStep(s, id, false, bytes)
    ensures Advances(s, id, t)
  {
  }

  /** No step of another call, and no interrupt, touches a call. */
  lemma OthersDoNotHinder(s: State, e: Event, id: nat)
    requires Inv(s) && Enabled(s, e) && id in s.calls && !(e.Step? && e.id == id)
    ensures id in Apply(s, e).calls && Apply(s, e).calls[id] == s.calls[id]
    ensures |s.calls[id].got| <= s.calls[id].length && Left(Apply(s, e), id) == Left(s, id)
  {
    assert CallOk(s, id);
  }
}
