/**
 * The transmit half of the buffered UART: any number of concurrent `write` calls, which take
 * turns holding the mutex, and the transmit interrupt, which can come between any two of their
 * steps.
 */
module UartTransmit {
  import opened Common

  /** A byte together with the call that wrote it. */
  datatype Item = Item(call: nat, byte: nat)

  /** Where a call of `write` stands. */
  datatype Place =
    | Enter    // waits for the mutex
    | Top      // holds it, at the head of the outer loop
    | Wait     // has let go of it because the buffer was full
    | Recheck  // holds it again, about to look whether the buffer is still full
    | Look     // holds it, at the head of the pushing loop
    | Push     // holds it, has seen that the buffer is not full
    | Kick     // holds it, about to enter the critical section
    | Done

  /** A call of `write`; as history, whether it gave up, and whether all its steps so far were in blocking mode. */
  datatype Call = Call(data: seq<nat>, written: nat, place: Place, gaveUp: bool, patient: bool)

  datatype Holder = Nobody | Writer(call: nat)

  datatype State = State(
    capacity: nat, buffer: seq<Item>, enabled: bool, attached: bool,
    holder: Holder, calls: map<nat, Call>,
    accepted: seq<Item>,  // what the calls have pushed, in order
    sent: seq<Item>)      // what the peripheral has been handed, in order

  function Start(capacity: nat): State {
    State(capacity, [], false, false, Nobody, map[], [], [])
  }

  predicate Full(s: State) { |s.buffer| == s.capacity }

  /** Places at which the call holds the mutex. */
  predicate Holds(p: Place) { p.Top? || p.Recheck? || p.Look? || p.Push? || p.Kick? }

  /** The stretch between the first push and the end of the critical section. */
  predicate Pushing(p: Place) { p.Look? || p.Push? || p.Kick? }

  predicate InPushRegion(s: State) {
    s.holder.Writer? && s.holder.call in s.calls && Pushing(s.calls[s.holder.call].place)
  }

  // ----- steps

  /** `tx_irq`, when the peripheral takes up to `room` bytes. */
  function TxIrq(s: State, room: nat): State {
    var n := Min(room, |s.buffer|);
    var t := s.(buffer := s.buffer[n..], sent := s.sent + s.buffer[..n]);
    if t.enabled && t.buffer == [] then t.(attached := false, enabled := false) else t
  }

  function Goto(s: State, id: nat, p: Place): State
    requires id in s.calls
  {
    s.(calls := s.calls[id := s.calls[id].(place := p)])
  }

  function Release(s: State, id: nat, p: Place): State
    requires id in s.calls
  {
    Goto(s, id, p).(holder := Nobody)
  }

  function Finish(s: State, id: nat, gaveUp: bool): State
    requires id in s.calls
  {
    s.(calls := s.calls[id := s.calls[id].(place := Done, gaveUp := gaveUp)], holder := Nobody)
  }

  /** The critical section of `write`: send what fits, and leave the interrupt on for the rest. */
  function KickStep(s: State, room: nat): State {
    if s.enabled then s
    else
      var t := TxIrq(s, room);
      if t.buffer != [] then t.(attached := true, enabled := true) else t
  }

  function PushStep(s: State, id: nat): State
    requires id in s.calls && s.calls[id].written < |s.calls[id].data|
  {
    var c := s.calls[id];
    var item := Item(id, c.data[c.written]);
    s.(buffer := s.buffer + [item], accepted := s.accepted + [item],
       calls := s.calls[id := c.(written := c.written + 1, place := Look)])
  }

  /** The history of call `id` before it takes a step. */
  function Noted(s: State, id: nat, blocking: bool): State
    requires id in s.calls
  {
    var c := s.calls[id];
    s.(calls := s.calls[id := c.(patient := c.patient && blocking)])
  }

  /** One step of call `id`. */
  function WriterStep(s: State, id: nat, blocking: bool, room: nat): State
    requires id in s.calls
    requires s.calls[id].place.Push? ==> s.calls[id].written < |s.calls[id].data|
  {
    var c := s.calls[id];
    match c.place
    case Enter => Goto(s, id, Top).(holder := Writer(id))
    case Wait => Goto(s, id, Recheck).(holder := Writer(id))
    case Recheck => if Full(s) then Release(s, id, Wait) else Goto(s, id, Look)
    case Top =>
      if c.written == |c.data| then Finish(s, id, false)
      else if !Full(s) then Goto(s, id, Look)
      else if blocking then Release(s, id, Wait)
      else Finish(s, id, true)
    case Look => Goto(s, id, if c.written < |c.data| && !Full(s) then Push else Kick)
    case Push => PushStep(s, id)
    case Kick => Goto(KickStep(s, room), id, Top)
    case Done => s
  }

  datatype Event =
    | Begin(id: nat, data: seq<nat>)
    | Step(id: nat, blocking: bool, room: nat)
    | Interrupt(room: nat)

  predicate Enabled(s: State, e: Event) {
    match e
    case Begin(id, data) => id !in s.calls && data != []
    case Step(id, _, _) =>
      && id in s.calls
      && !s.calls[id].place.Done?
      && (s.calls[id].place.Enter? || s.calls[id].place.Wait? ==> s.holder.Nobody?)
      && (s.calls[id].place.Push? ==> s.calls[id].written < |s.calls[id].data|)
    case Interrupt(_) => s.attached
  }

  function Apply(s: State, e: Event): State
    requires Enabled(s, e)
  {
    match e
    case Begin(id, data) => s.(calls := s.calls[id := Call(data, 0, Enter, false, true)])
    case Step(id, blocking, room) => WriterStep(Noted(s, id, blocking), id, blocking, room)
    case Interrupt(room) => TxIrq(s, room)
  }

  // ----- what every step keeps

  /** The bytes of one call in a log. */
  function Of(log: seq<Item>, id: nat): seq<nat> {
    if log == [] then []
    else
      var last := log[|log| - 1];
      Of(log[..|log| - 1], id) + (if last.call == id then [last.byte] else [])
  }

  /** First in, first out: what was accepted is what was sent and then what is still buffered. */
  ghost predicate Fifo(s: State) { s.accepted == s.sent + s.buffer && |s.buffer| <= s.capacity }

  /** The interrupt is on exactly when bytes are waiting; a holder may be about to turn it on. */
  ghost predicate NeverStalls(s: State) {
    && s.attached == s.enabled
    && (s.enabled ==> s.buffer != [])
    && (s.buffer != [] && !s.enabled ==> InPushRegion(s))
  }

  ghost predicate CallOk(s: State, id: nat)
    requires id in s.calls
  {
    var c := s.calls[id];
    && c.written <= |c.data|
    && (Holds(c.place) <==> s.holder == Writer(id))
    && (c.place.Push? ==> c.written < |c.data| && !Full(s))
    && (c.place.Wait? || c.place.Recheck? ==> c.written < |c.data|)
    && (c.place.Done? ==> c.written == |c.data| || c.gaveUp)
    && (c.patient ==> !c.gaveUp)
    && Of(s.accepted, id) == c.data[..c.written]
  }

  ghost predicate CallsOk(s: State) {
    && (forall id :: id in s.calls ==> CallOk(s, id))
    && (s.holder.Writer? ==> s.holder.call in s.calls)
    && (forall id :: id !in s.calls ==> Of(s.accepted, id) == [])
  }

  ghost predicate Inv(s: State) { s.capacity > 0 && Fifo(s) && NeverStalls(s) && CallsOk(s) }

  lemma TxIrqKeeps(s: State, room: nat)
    requires Inv(s)
    ensures Inv(TxIrq(s, room))
  {
    var n := Min(room, |s.buffer|);
    assert s.buffer == s.buffer[..n] + s.buffer[n..];
    var t := TxIrq(s, room);
    forall id | id in t.calls
      ensures CallOk(t, id)
    {
      assert CallOk(s, id);
    }
  }

  lemma OfPush(log: seq<Item>, item: Item, id: nat)
    ensures Of(log + [item], id) == Of(log, id) + (if item.call == id then [item.byte] else [])
  {
    var more := log + [item];
    assert more[..|more| - 1] == log;
  }

  /** A step that only moves call `id`, and takes or lets go of the mutex, keeps the other calls. */
  lemma MoveKeeps(s: State, id: nat, c: Call, holder: Holder, t: State)
    requires Inv(s) && id in s.calls && (s.holder == Nobody || s.holder == Writer(id))
    requires holder == Nobody || holder == Writer(id)
    requires t == s.(calls := s.calls[id := c], holder := holder)
    requires c.data == s.calls[id].data && c.written == s.calls[id].written
    requires Holds(c.place) <==> holder == Writer(id)
    requires c.place.Push? ==> c.written < |c.data| && !Full(s)
    requires c.place.Wait? || c.place.Recheck? ==> c.written < |c.data|
    requires c.place.Done? ==> c.written == |c.data| || c.gaveUp
    requires c.patient ==> !c.gaveUp
    requires s.buffer != [] && !s.enabled ==> Pushing(c.place)
    ensures Inv(t)
  {
    assert CallOk(s, id);
    forall other | other in t.calls
      ensures CallOk(t, other)
    {
      assert CallOk(s, other);
    }
  }

  lemma HolderIs(s: State, id: nat)
    requires Inv(s) && id in s.calls && Holds(s.calls[id].place)
    ensures s.holder == Writer(id)
  {
    assert CallOk(s, id);
  }

  lemma PushKeeps(s: State, id: nat)
    requires Inv(s) && id in s.calls && s.calls[id].place.Push?
    ensures CallOk(s, id) && Inv(PushStep(s, id))
  {
    assert CallOk(s, id);
    var t := PushStep(s, id);
    var c := s.calls[id];
    var item := Item(id, c.data[c.written]);
    assert c.data[..c.written + 1] == c.data[..c.written] + [c.data[c.written]];
    forall other
      ensures other in t.calls ==> CallOk(t, other)
      ensures other !in t.calls ==> Of(t.accepted, other) == []
    {
      OfPush(s.accepted, item, other);
      if other in s.calls {
        assert CallOk(s, other);
      }
    }
    assert t.accepted == t.sent + t.buffer;
  }

  lemma KickKeeps(s: State, id: nat, room: nat)
    requires Inv(s) && id in s.calls && s.calls[id].place.Kick?
    ensures Inv(Goto(KickStep(s, room), id, Top))
  {
    HolderIs(s, id);
    TxIrqKeeps(s, room);
    var k := KickStep(s, room);
    assert Inv(k) by {
      if !s.enabled {
        var u := TxIrq(s, room);
        forall other | other in k.calls
          ensures CallOk(k, other)
        {
          assert CallOk(u, other);
        }
      }
    }
    MoveKeeps(k, id, k.calls[id].(place := Top), Writer(id), Goto(k, id, Top));
  }

  lemma LookKeeps(s: State, id: nat)
    requires Inv(s) && id in s.calls && s.calls[id].place.Look?
    ensures Inv(Goto(s, id, if s.calls[id].written < |s.calls[id].data| && !Full(s) then Push else Kick))
  {
    HolderIs(s, id);
    var p := if s.calls[id].written < |s.calls[id].data| && !Full(s) then Push else Kick;
    MoveKeeps(s, id, s.calls[id].(place := p), Writer(id), Goto(s, id, p));
  }

  /** Outside the push region, waiting bytes have the interrupt on. */
  lemma NotPushing(s: State, id: nat)
    requires Inv(s) && id in s.calls && !Pushing(s.calls[id].place)
    requires s.holder == Nobody || s.holder == Writer(id)
    ensures s.buffer == [] || s.enabled
  {
  }

  lemma TopKeeps(s: State, id: nat, blocking: bool, t: State)
    requires Inv(s) && id in s.calls && s.calls[id].place.Top? && t == WriterStep(s, id, blocking, 0)
    requires s.calls[id].patient ==> blocking
    ensures Inv(t)
  {
    HolderIs(s, id);
    NotPushing(s, id);
    var c := s.calls[id];
    assert CallOk(s, id);
    if c.written == |c.data| {
      MoveKeeps(s, id, c.(place := Done, gaveUp := false), Nobody, t);
    } else if !Full(s) {
      MoveKeeps(s, id, c.(place := Look), Writer(id), t);
    } else if blocking {
      MoveKeeps(s, id, c.(place := Wait), Nobody, t);
    } else {
      MoveKeeps(s, id, c.(place := Done, gaveUp := true), Nobody, t);
    }
  }

  lemma LockKeeps(s: State, id: nat, p: Place)
    requires Inv(s) && id in s.calls && (s.calls[id].place.Enter? || s.calls[id].place.Wait?) && s.holder == Nobody
    requires p == if s.calls[id].place.Enter? then Top else Recheck
    ensures Inv(Goto(s, id, p).(holder := Writer(id)))
  {
    NotPushing(s, id);
    assert CallOk(s, id);
    MoveKeeps(s, id, s.calls[id].(place := p), Writer(id), Goto(s, id, p).(holder := Writer(id)));
  }

  lemma RecheckKeeps(s: State, id: nat)
    requires Inv(s) && id in s.calls && s.calls[id].place.Recheck?
    ensures Inv(if Full(s) then Release(s, id, Wait) else Goto(s, id, Look))
  {
    HolderIs(s, id);
    NotPushing(s, id);
    assert CallOk(s, id);
    if Full(s) {
      MoveKeeps(s, id, s.calls[id].(place := Wait), Nobody, Release(s, id, Wait));
    } else {
      MoveKeeps(s, id, s.calls[id].(place := Look), Writer(id), Goto(s, id, Look));
    }
  }

  lemma WriterStepKeeps(s: State, id: nat, blocking: bool, room: nat)
    requires Inv(s) && Enabled(s, Step(id, blocking, room)) && (s.calls[id].patient ==> blocking)
    ensures Inv(WriterStep(s, id, blocking, room))
  {
    match s.calls[id].place
    case Enter => LockKeeps(s, id, Top);
    case Wait => LockKeeps(s, id, Recheck);
    case Recheck => RecheckKeeps(s, id);
    case Top => TopKeeps(s, id, blocking, WriterStep(s, id, blocking, room));
    case Look => LookKeeps(s, id);
    case Push => PushKeeps(s, id);
    case Kick => KickKeeps(s, id, room);
  }

  lemma NotedKeeps(s: State, id: nat, blocking: bool, room: nat)
    requires Inv(s) && Enabled(s, Step(id, blocking, room))
    ensures Inv(Noted(s, id, blocking)) && Enabled(Noted(s, id, blocking), Step(id, blocking, room))
  {
    assert CallOk(s, id);
    var c := s.calls[id];
    MoveKeeps(s, id, c.(patient := c.patient && blocking), s.holder, Noted(s, id, blocking));
  }

  lemma BeginKeeps(s: State, id: nat, data: seq<nat>)
    requires Inv(s) && id !in s.calls
    ensures Inv(s.(calls := s.calls[id := Call(data, 0, Enter, false, true)]))
  {
    var t := s.(calls := s.calls[id := Call(data, 0, Enter, false, true)]);
    assert data[..0] == [];
    forall other | other in t.calls
      ensures CallOk(t, other)
    {
      assert other in s.calls ==> CallOk(s, other);
    }
  }

  lemma StepKeeps(s: State, e: Event)
    requires Inv(s) && Enabled(s, e)
    ensures Inv(Apply(s, e))
  {
    match e
    case Begin(id, data) => BeginKeeps(s, id, data);
    case Step(id, blocking, room) =>
      NotedKeeps(s, id, blocking, room);
      WriterStepKeeps(Noted(s, id, blocking), id, blocking, room);
    case Interrupt(room) => TxIrqKeeps(s, room);
  }

  // ----- consequences

  /** No push is ever made on a full buffer, which would drop the oldest byte. */
  lemma NoPushOnFull(s: State, id: nat)
    requires Inv(s) && id in s.calls && s.calls[id].place.Push?
    ensures |s.buffer| < s.capacity
  {
    assert CallOk(s, id);
  }

  /** A call that returned without giving up has had all its bytes accepted, in order. */
  lemma FinishedWrite(s: State, id: nat)
    requires Inv(s) && id in s.calls && s.calls[id].place.Done? && (s.calls[id].patient || !s.calls[id].gaveUp)
    ensures Of(s.sent + s.buffer, id) == s.calls[id].data
  {
    assert CallOk(s, id);
    var c := s.calls[id];
    assert c.data[..c.written] == c.data;
  }

  /** A call in blocking mode never gives up; one that is not never waits. */
  lemma ModeDecides(s: State, id: nat, blocking: bool, room: nat)
    requires Inv(s) && Enabled(s, Step(id, blocking, room))
    ensures Decided(s, id, blocking, Apply(s, Step(id, blocking, room)))
  {
    var u := Noted(s, id, blocking);
    assert CallOk(s, id) && Full(u) == Full(s);
    WriterDecides(u, id, blocking, room, WriterStep(u, id, blocking, room));
  }

  predicate Decided(s: State, id: nat, blocking: bool, t: State)
    requires id in s.calls
  {
    && id in t.calls
    && (t.calls[id].place.Done? && t.calls[id].written < |t.calls[id].data| ==> !blocking && Full(s))
    && (t.calls[id].place.Wait? && !s.calls[id].place.Recheck? ==> blocking && Full(s))
    && (t.calls[id].place.Recheck? ==> s.calls[id].place.Wait?)
  }

  lemma WriterDecides(s: State, id: nat, blocking: bool, room: nat, t: State)
    requires Enabled(s, Step(id, blocking, room)) && t == WriterStep(s, id, blocking, room)
    requires s.calls[id].written <= |s.calls[id].data|
    ensures Decided(s, id, blocking, t)
  {
    match s.calls[id].place
    case Top => TopDecides(s, id, blocking, t);
    case Kick => KickDecides(s, id, blocking, room, t);
    case _ => MoveDecides(s, id, blocking, t);
  }

  lemma TopDecides(s: State, id: nat, blocking: bool, t: State)
    requires id in s.calls && s.calls[id].place.Top? && t == WriterStep(s, id, blocking, 0)
    ensures Decided(s, id, blocking, t)
  {
  }

  lemma KickDecides(s: State, id: nat, blocking: bool, room: nat, t: State)
    requires id in s.calls && t == Goto(KickStep(s, room), id, Top)
    ensures Decided(s, id, blocking, t)
  {
  }

  lemma MoveDecides(s: State, id: nat, blocking: bool, t: State)
    requires Enabled(s, Step(id, blocking, 0)) && t == WriterStep(s, id, blocking, 0)
    requires !s.calls[id].place.Top? && !s.calls[id].place.Kick?
    ensures Decided(s, id, blocking, t)
  {
  }

  /** Outside the push region a full buffer has the interrupt that will empty it. */
  lemma WaitingWriterIsReleased(s: State, room: nat)
    requires Inv(s) && !InPushRegion(s) && Full(s) && room > 0
    ensures s.attached && !Full(TxIrq(s, room))
  {
  }

  /** A call pushes its next byte as long as it has one and the buffer is not full, and only then ends the round. */
  lemma PushesAll(s: State, id: nat, blocking: bool, room: nat)
    requires Inv(s) && Enabled(s, Step(id, blocking, room)) && Pushing(s.calls[id].place) && !s.calls[id].place.Kick?
    ensures var c, t := s.calls[id], Apply(s, Step(id, blocking, room));
            && id in t.calls
            && if c.written == |c.data| || Full(s) then
                 t.calls[id].place == Kick && t.accepted == s.accepted && t.buffer == s.buffer
               else
                 Pushing(t.calls[id].place) && !t.calls[id].place.Kick?
  {
    assert CallOk(s, id);
  }

  /** The interrupt sends all the bytes that the peripheral takes, and takes no more than there are. */
  lemma TxIrqSends(s: State, room: nat)
    ensures SendsAll(s, room, TxIrq(s, room))
  {
    var n := Min(room, |s.buffer|);
    assert s.buffer == s.buffer[..n] + s.buffer[n..];
  }

  predicate SendsAll(s: State, room: nat, t: State) {
    && t.sent + t.buffer == s.sent + s.buffer && |s.sent| <= |t.sent|
    && |t.sent| <= |s.sent| + room && (t.buffer == [] || |t.sent| == |s.sent| + room)
    && t.accepted == s.accepted && t.calls == s.calls && t.holder == s.holder
  }

  /** The critical section sends at once what it can unless the interrupt is on, and leaves that on for the rest. */
  lemma KickSends(s: State, room: nat)
    requires s.enabled ==> s.buffer != []
    ensures var t := KickStep(s, room);
            && SendsAll(s, if s.enabled then 0 else room, t)
            && (t.enabled <==> t.buffer != [])
  {
    TxIrqSends(s, room);
  }

  // ----- progress

  /** A bound on the steps that call `id` still takes if it need not wait. */
  function Left(s: State, id: nat): nat
    requires id in s.calls && s.calls[id].written <= |s.calls[id].data|
  {
    var c := s.calls[id];
    var left := |c.data| - c.written;
    6 * left +
    match c.place
    case Enter => 4
    case Wait => 4
    case Top => 3
    case Recheck => 3
    case Look => if left > 0 && !Full(s) then 2 else 5
    case Push => 1
    case Kick => 4
    case Done => 0
  }

  /** Call `id` is nearer to its end in `t`, or has let go of the mutex on a full buffer. */
  predicate Advances(s: State, id: nat, t: State)
    requires id in s.calls && s.calls[id].written <= |s.calls[id].data|
  {
    && id in t.calls && t.calls[id].data == s.calls[id].data
    && s.calls[id].written <= t.calls[id].written <= |t.calls[id].data|
    && if t.calls[id].place.Wait? then Full(s) && Left(t, id) == Left(s, id) + 1
       else Left(t, id) < Left(s, id)
  }

  /** Every step of a call brings it nearer to its end, except for letting go of the mutex on a full buffer. */
  lemma StepProgresses(s: State, id: nat, blocking: bool, room: nat)
    requires Inv(s) && Enabled(s, Step(id, blocking, room))
    ensures s.calls[id].written <= |s.calls[id].data| && Advances(s, id, Apply(s, Step(id, blocking, room)))
  {
    NotedKeeps(s, id, blocking, room);
    var u := Noted(s, id, blocking);
    assert CallOk(u, id);
    assert Left(u, id) == Left(s, id);
    WriterProgresses(u, id, blocking, room, WriterStep(u, id, blocking, room));
  }

  lemma WriterProgresses(s: State, id: nat, blocking: bool, room: nat, t: State)
    requires Inv(s) && Enabled(s, Step(id, blocking, room)) && CallOk(s, id) && t == WriterStep(s, id, blocking, room)
    ensures Advances(s, id, t)
  {
    match s.calls[id].place
    case Push => PushAdvances(s, id, t);
    case Top => TopAdvances(s, id, blocking, t);
    case Kick => KickAdvances(s, id, room, t);
    case _ => MoveAdvances(s, id, t);
  }

  lemma MoveAdvances(s: State, id: nat, t: State)
    requires id in s.calls && CallOk(s, id) && t == WriterStep(s, id, false, 0)
    requires s.calls[id].place.Enter? || s.calls[id].place.Wait? || s.calls[id].place.Recheck? || s.calls[id].place.Look?
    ensures Advances(s, id, t)
  {
  }

  lemma PushAdvances(s: State, id: nat, t: State)
    requires id in s.calls && CallOk(s, id) && s.calls[id].place.Push? && t == PushStep(s, id)
    ensures Advances(s, id, t)
  {
    assert t.calls[id].written == s.calls[id].written + 1;
  }

  lemma TopAdvances(s: State, id: nat, blocking: bool, t: State)
    requires id in s.calls && CallOk(s, id) && s.calls[id].place.Top? && t == WriterStep(s, id, blocking, 0)
    ensures Advances(s, id, t)
  {
  }

  lemma KickAdvances(s: State, id: nat, room: nat, t: State)
    requires id in s.calls && CallOk(s, id) && s.calls[id].place.Kick? && t == Goto(KickStep(s, room), id, Top)
    ensures Advances(s, id, t)
  {
  }

  /** No step of another call, and no interrupt, sets a call back. */
  lemma OthersDoNotHinder(s: State, e: Event, id: nat)
    requires Inv(s) && Enabled(s, e) && id in s.calls && !(e.Step? && e.id == id)
    ensures id in Apply(s, e).calls && Apply(s, e).calls[id] == s.calls[id]
    ensures s.calls[id].written <= |s.calls[id].data| && Left(Apply(s, e), id) <= Left(s, id)
  {
    assert CallOk(s, id);
    if e.Step? {
      assert CallOk(s, e.id);
    }
  }
}
