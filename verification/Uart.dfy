/**
 * The buffered UART as a whole: both halves under one mutex, and the deep-sleep lock that
 * `SerialBase::attach` keeps for every attached handler.
 */
module Uart {
  import T = UartTransmit
  import R = UartReceive

  datatype State = State(tx: T.State, rx: R.State, sleepLocks: int)

  datatype Event = Tx(t: T.Event) | Rx(r: R.Event)

  function Start(txSize: nat, rxSize: nat): State { State(T.Start(txSize), R.Start(rxSize), 1) }

  /** `attach`: the first handler of a kind takes a lock, removing it gives the lock back. */
  function Locks(locks: int, before: bool, after: bool): int {
    if after && !before then locks + 1 else if before && !after then locks - 1 else locks
  }

  /** A step that takes the mutex. */
  predicate TakesMutex(s: State, e: Event) {
    match e
    case Tx(Step(id, _, _)) => id in s.tx.calls && (s.tx.calls[id].place.Enter? || s.tx.calls[id].place.Wait?)
    case Rx(Step(id, _, _)) => id in s.rx.calls && (s.rx.calls[id].place.Enter? || s.rx.calls[id].place.Wait?)
    case _ => false
  }

  predicate Enabled(s: State, e: Event) {
    && |s.rx.buffer| <= s.rx.capacity
    && (TakesMutex(s, e) ==> s.tx.holder.Nobody? && s.rx.holder.Nobody?)
    && match e case Tx(t) => T.Enabled(s.tx, t) case Rx(r) => R.Enabled(s.rx, r)
  }

  function Apply(s: State, e: Event): State
    requires Enabled(s, e)
  {
    match e
    case Tx(t) =>
      var tx := T.Apply(s.tx, t);
      State(tx, s.rx, Locks(s.sleepLocks, s.tx.attached, tx.attached))
    case Rx(r) =>
      var rx := R.Apply(s.rx, r);
      State(s.tx, rx, Locks(s.sleepLocks, s.rx.attached, rx.attached))
  }

  /** A run: the state after each event, from the start. */
  ghost predicate IsRun(states: seq<State>, events: seq<Event>, txSize: nat, rxSize: nat) {
    && |states| == |events| + 1 && states[0] == Start(txSize, rxSize)
    && forall i :: 0 <= i < |events| ==> IsStep(states, events, i)
  }

  ghost predicate IsStep(states: seq<State>, events: seq<Event>, i: nat)
    requires i < |events| && |states| == |events| + 1
  {
    Enabled(states[i], events[i]) && states[i + 1] == Apply(states[i], events[i])
  }

  ghost predicate Inv(s: State) {
    && T.Inv(s.tx) && R.Inv(s.rx)
    && (s.tx.holder.Nobody? || s.rx.holder.Nobody?)
    && s.sleepLocks == (if s.tx.attached then 1 else 0) + (if s.rx.attached then 1 else 0)
  }

  /** Only a step that takes the mutex makes its call the holder. */
  lemma TxHolder(s: T.State, e: T.Event)
    requires T.Inv(s) && T.Enabled(s, e)
    ensures var t := T.Apply(s, e);
            t.holder.Nobody? || t.holder == s.holder ||
            (e.Step? && (s.calls[e.id].place.Enter? || s.calls[e.id].place.Wait?))
  {
  }

  lemma RxHolder(s: R.State, e: R.Event)
    requires R.Inv(s) && R.Enabled(s, e)
    ensures var t := R.Apply(s, e);
            t.holder.Nobody? || t.holder == s.holder ||
            (e.Step? && (s.calls[e.id].place.Enter? || s.calls[e.id].place.Wait?))
  {
  }

  lemma StepKeeps(s: State, e: Event)
    requires Inv(s) && Enabled(s, e)
    ensures Inv(Apply(s, e))
  {
    match e
    case Tx(t) =>
      T.StepKeeps(s.tx, t);
      TxHolder(s.tx, t);
    case Rx(r) =>
      R.StepKeeps(s.rx, r);
      RxHolder(s.rx, r);
  }

  lemma StartInv(txSize: nat, rxSize: nat)
    requires txSize > 0 && rxSize > 0
    ensures Inv(Start(txSize, rxSize))
  {
  }

  /** In every state of every run, over every interleaving of calls and interrupts, the invariant holds. */
  lemma {:induction false} RunKeeps(states: seq<State>, events: seq<Event>, txSize: nat, rxSize: nat, i: nat)
    requires IsRun(states, events, txSize, rxSize) && txSize > 0 && rxSize > 0 && i < |states|
    ensures Inv(states[i])
  {
    if i == 0 {
      StartInv(txSize, rxSize);
    } else {
      RunKeeps(states, events, txSize, rxSize, i - 1);
      assert IsStep(states, events, i - 1);
      StepKeeps(states[i - 1], events[i - 1]);
    }
  }

  lemma RunStep(states: seq<State>, events: seq<Event>, txSize: nat, rxSize: nat, i: nat)
    requires IsRun(states, events, txSize, rxSize) && txSize > 0 && rxSize > 0 && i < |events|
    ensures Inv(states[i]) && Enabled(states[i], events[i]) && states[i + 1] == Apply(states[i], events[i])
  {
    RunKeeps(states, events, txSize, rxSize, i);
    assert IsStep(states, events, i);
  }

  /** The bytes sent are, call by call, a prefix of what each call was given. */
  lemma {:induction false} SentIsPrefix(log: seq<T.Item>, rest: seq<T.Item>, id: nat)
    ensures T.Of(log, id) <= T.Of(log + rest, id)
    decreases |rest|
  {
    if rest == [] {
      assert log + rest == log;
    } else {
      var more := log + rest;
      assert more[..|more| - 1] == log + rest[..|rest| - 1];
      SentIsPrefix(log, rest[..|rest| - 1], id);
    }
  }

  /** In every state of a run each writer's bytes reach the peripheral in order and unchanged. */
  lemma SentInOrder(s: State, id: nat)
    requires Inv(s) && id in s.tx.calls
    ensures T.Of(s.tx.sent, id) <= s.tx.calls[id].data
  {
    assert T.CallOk(s.tx, id);
    SentIsPrefix(s.tx.sent, s.tx.buffer, id);
  }

  // ----- how long calls take

  predicate WriterSteps(e: Event, id: nat) { e.Tx? && e.t.Step? && e.t.id == id }

  predicate ReaderSteps(e: Event, id: nat) { e.Rx? && e.r.Step? && e.r.id == id }

  /** How many of the events `i` to `j` are steps of writer `id`. */
  ghost function WriterCount(events: seq<Event>, id: nat, i: nat, j: nat): nat
    requires j <= |events|
  {
    if j <= i then 0
    else WriterCount(events, id, i, j - 1) + if WriterSteps(events[j - 1], id) then 1 else 0
  }

  ghost function ReaderCount(events: seq<Event>, id: nat, i: nat, j: nat): nat
    requires j <= |events|
  {
    if j <= i then 0
    else ReaderCount(events, id, i, j - 1) + if ReaderSteps(events[j - 1], id) then 1 else 0
  }

  /** How many of those steps find the buffer full and let go of the mutex. */
  ghost function WriterWaits(states: seq<State>, events: seq<Event>, id: nat, i: nat, j: nat): nat
    requires j <= |events| && |states| == |events| + 1
  {
    if j <= i then 0
    else
      var waits := WriterSteps(events[j - 1], id) && id in states[j].tx.calls && states[j].tx.calls[id].place.Wait?;
      WriterWaits(states, events, id, i, j - 1) + if waits then 1 else 0
  }

  ghost function ReaderWaits(states: seq<State>, events: seq<Event>, id: nat, i: nat, j: nat): nat
    requires j <= |events| && |states| == |events| + 1
  {
    if j <= i then 0
    else
      var waits := ReaderSteps(events[j - 1], id) && id in states[j].rx.calls && states[j].rx.calls[id].place.Wait?;
      ReaderWaits(states, events, id, i, j - 1) + if waits then 1 else 0
  }

  /** The number of steps a writer takes is bounded by what it has to write and by how often it finds the buffer full. */
  lemma {:induction false} WriterIsBounded(
      states: seq<State>, events: seq<Event>, txSize: nat, rxSize: nat, id: nat, i: nat, j: nat)
    requires IsRun(states, events, txSize, rxSize) && txSize > 0 && rxSize > 0 && i <= j < |states|
    requires id in states[i].tx.calls
    ensures T.Inv(states[i].tx) && states[i].tx.calls[id].written <= |states[i].tx.calls[id].data|
    ensures id in states[j].tx.calls && states[j].tx.calls[id].data == states[i].tx.calls[id].data
    ensures states[j].tx.calls[id].written <= |states[j].tx.calls[id].data|
    ensures WriterCount(events, id, i, j) + T.Left(states[j].tx, id)
            <= T.Left(states[i].tx, id) + 2 * WriterWaits(states, events, id, i, j)
    decreases j
  {
    if i == j {
      RunKeeps(states, events, txSize, rxSize, i);
      assert T.CallOk(states[i].tx, id);
    } else {
      WriterIsBounded(states, events, txSize, rxSize, id, i, j - 1);
      RunStep(states, events, txSize, rxSize, j - 1);
      WriterOneMore(states[j - 1], events[j - 1], states[j], id);
    }
  }

  lemma WriterOneMore(s: State, e: Event, t: State, id: nat)
    requires Inv(s) && Enabled(s, e) && t == Apply(s, e) && id in s.tx.calls
    ensures s.tx.calls[id].written <= |s.tx.calls[id].data| && id in t.tx.calls
    ensures t.tx.calls[id].data == s.tx.calls[id].data && t.tx.calls[id].written <= |t.tx.calls[id].data|
    ensures var wait := t.tx.calls[id].place.Wait?;
            if !WriterSteps(e, id) then T.Left(t.tx, id) <= T.Left(s.tx, id)
            else T.Left(t.tx, id) + 1 <= T.Left(s.tx, id) + (if wait then 2 else 0)
  {
    assert T.CallOk(s.tx, id);
    if WriterSteps(e, id) {
      T.StepProgresses(s.tx, id, e.t.blocking, e.t.room);
    } else if e.Tx? {
      T.OthersDoNotHinder(s.tx, e.t, id);
    }
  }

  lemma {:induction false} ReaderIsBounded(
      states: seq<State>, events: seq<Event>, txSize: nat, rxSize: nat, id: nat, i: nat, j: nat)
    requires IsRun(states, events, txSize, rxSize) && txSize > 0 && rxSize > 0 && i <= j < |states|
    requires id in states[i].rx.calls
    ensures R.Inv(states[i].rx) && |states[i].rx.calls[id].got| <= states[i].rx.calls[id].length
    ensures id in states[j].rx.calls && states[j].rx.calls[id].length == states[i].rx.calls[id].length
    ensures |states[j].rx.calls[id].got| <= states[j].rx.calls[id].length
    ensures ReaderCount(events, id, i, j) + R.Left(states[j].rx, id)
            <= R.Left(states[i].rx, id) + 2 * ReaderWaits(states, events, id, i, j)
    decreases j
  {
    if i == j {
      RunKeeps(states, events, txSize, rxSize, i);
      assert R.CallOk(states[i].rx, id);
    } else {
      ReaderIsBounded(states, events, txSize, rxSize, id, i, j - 1);
      RunStep(states, events, txSize, rxSize, j - 1);
      ReaderOneMore(states[j - 1], events[j - 1], states[j], id);
    }
  }

  lemma ReaderOneMore(s: State, e: Event, t: State, id: nat)
    requires Inv(s) && Enabled(s, e) && t == Apply(s, e) && id in s.rx.calls
    ensures |s.rx.calls[id].got| <= s.rx.calls[id].length && id in t.rx.calls
    ensures t.rx.calls[id].length == s.rx.calls[id].length && |t.rx.calls[id].got| <= t.rx.calls[id].length
    ensures var wait := t.rx.calls[id].place.Wait?;
            if !ReaderSteps(e, id) then R.Left(t.rx, id) <= R.Left(s.rx, id)
            else R.Left(t.rx, id) + 1 <= R.Left(s.rx, id) + (if wait then 2 else 0)
  {
    assert R.CallOk(s.rx, id);
    if ReaderSteps(e, id) {
      R.StepProgresses(s.rx, id, e.r.blocking, e.r.bytes);
    } else if e.Rx? {
      R.OthersDoNotHinder(s.rx, e.r, id);
    }
  }

  lemma ImpatientWriterStep(s: State, e: Event, t: State, id: nat)
    requires Inv(s) && Enabled(s, e) && t == Apply(s, e) && id in s.tx.calls
    requires WriterSteps(e, id) ==> !e.t.blocking
    requires !s.tx.calls[id].place.Wait? && !s.tx.calls[id].place.Recheck?
    ensures id in t.tx.calls && !t.tx.calls[id].place.Wait? && !t.tx.calls[id].place.Recheck?
  {
    if WriterSteps(e, id) {
      T.ModeDecides(s.tx, id, e.t.blocking, e.t.room);
    } else if e.Tx? {
      T.OthersDoNotHinder(s.tx, e.t, id);
    }
  }

  /** A call that is never in blocking mode never waits: it ends within a number of steps fixed by its length. */
  lemma {:induction false} ImpatientWriterEnds(
      states: seq<State>, events: seq<Event>, txSize: nat, rxSize: nat, id: nat, i: nat, j: nat)
    requires IsRun(states, events, txSize, rxSize) && txSize > 0 && rxSize > 0 && i <= j < |states|
    requires id in states[i].tx.calls && states[i].tx.calls[id].place.Enter?
    requires forall k :: i <= k < j && WriterSteps(events[k], id) ==> !events[k].t.blocking
    ensures WriterWaits(states, events, id, i, j) == 0
    ensures id in states[j].tx.calls && !states[j].tx.calls[id].place.Wait? && !states[j].tx.calls[id].place.Recheck?
    ensures WriterCount(events, id, i, j) <= 6 * |states[i].tx.calls[id].data| + 4
    decreases j
  {
    if i < j {
      ImpatientWriterEnds(states, events, txSize, rxSize, id, i, j - 1);
      RunStep(states, events, txSize, rxSize, j - 1);
      ImpatientWriterStep(states[j - 1], events[j - 1], states[j], id);
    }
    WriterIsBounded(states, events, txSize, rxSize, id, i, j);
  }

  lemma ImpatientReaderStep(s: State, e: Event, t: State, id: nat)
    requires Inv(s) && Enabled(s, e) && t == Apply(s, e) && id in s.rx.calls
    requires ReaderSteps(e, id) ==> !e.r.blocking
    requires !s.rx.calls[id].place.Wait?
    ensures id in t.rx.calls && !t.rx.calls[id].place.Wait?
  {
    if ReaderSteps(e, id) {
      R.ModeDecides(s.rx, id, e.r.blocking, e.r.bytes);
    } else if e.Rx? {
      R.OthersDoNotHinder(s.rx, e.r, id);
    }
  }

  lemma {:induction false} ImpatientReaderEnds(
      states: seq<State>, events: seq<Event>, txSize: nat, rxSize: nat, id: nat, i: nat, j: nat)
    requires IsRun(states, events, txSize, rxSize) && txSize > 0 && rxSize > 0 && i <= j < |states|
    requires id in states[i].rx.calls && states[i].rx.calls[id].place.Enter?
    requires forall k :: i <= k < j && ReaderSteps(events[k], id) ==> !events[k].r.blocking
    ensures ReaderWaits(states, events, id, i, j) == 0
    ensures id in states[j].rx.calls && !states[j].rx.calls[id].place.Wait?
    ensures ReaderCount(events, id, i, j) <= states[i].rx.calls[id].length + 4
    decreases j
  {
    if i < j {
      ImpatientReaderEnds(states, events, txSize, rxSize, id, i, j - 1);
      RunStep(states, events, txSize, rxSize, j - 1);
      ImpatientReaderStep(states[j - 1], events[j - 1], states[j], id);
    }
    ReaderIsBounded(states, events, txSize, rxSize, id, i, j);
  }

  /** In blocking mode a call that has returned has had all its bytes accepted, in order. */
  lemma BlockingWriterCompletes(
      states: seq<State>, events: seq<Event>, txSize: nat, rxSize: nat, id: nat, data: seq<nat>, i: nat, j: nat)
    requires IsRun(states, events, txSize, rxSize) && txSize > 0 && rxSize > 0 && i < j < |states|
    requires events[i] == Tx(T.Begin(id, data))
    requires forall k :: i < k < j && WriterSteps(events[k], id) ==> events[k].t.blocking
    ensures id in states[j].tx.calls
    ensures states[j].tx.calls[id].place.Done? ==> T.Of(states[j].tx.sent + states[j].tx.buffer, id) == data
  {
    RunStep(states, events, txSize, rxSize, i);
    WriterBegins(states[i], data, states[i + 1], id);
    PatientWriter(states, events, txSize, rxSize, id, i + 1, j);
    RunKeeps(states, events, txSize, rxSize, j);
    if states[j].tx.calls[id].place.Done? {
      T.FinishedWrite(states[j].tx, id);
    }
  }

  lemma WriterBegins(s: State, data: seq<nat>, t: State, id: nat)
    requires Enabled(s, Tx(T.Begin(id, data))) && t == Apply(s, Tx(T.Begin(id, data)))
    ensures id in t.tx.calls && t.tx.calls[id].data == data && t.tx.calls[id].patient
  {
  }

  lemma {:induction false} PatientWriter(
      states: seq<State>, events: seq<Event>, txSize: nat, rxSize: nat, id: nat, i: nat, j: nat)
    requires IsRun(states, events, txSize, rxSize) && txSize > 0 && rxSize > 0 && i <= j < |states|
    requires id in states[i].tx.calls
    requires forall k :: i <= k < j && WriterSteps(events[k], id) ==> events[k].t.blocking
    ensures id in states[j].tx.calls && states[j].tx.calls[id].data == states[i].tx.calls[id].data
    ensures states[j].tx.calls[id].patient == states[i].tx.calls[id].patient
    decreases j
  {
    if i < j {
      PatientWriter(states, events, txSize, rxSize, id, i, j - 1);
      RunStep(states, events, txSize, rxSize, j - 1);
      PatientWriterStep(states[j - 1], events[j - 1], states[j], id);
    }
  }

  lemma PatientWriterStep(s: State, e: Event, t: State, id: nat)
    requires Inv(s) && Enabled(s, e) && t == Apply(s, e) && id in s.tx.calls
    requires WriterSteps(e, id) ==> e.t.blocking
    ensures id in t.tx.calls && t.tx.calls[id].data == s.tx.calls[id].data
    ensures t.tx.calls[id].patient == s.tx.calls[id].patient
  {
    if e.Tx? && !WriterSteps(e, id) {
      T.OthersDoNotHinder(s.tx, e.t, id);
    }
  }

  /** In blocking mode a call that has returned has at least one byte, and no more than it asked for. */
  lemma BlockingReaderCompletes(
      states: seq<State>, events: seq<Event>, txSize: nat, rxSize: nat, id: nat, length: nat, i: nat, j: nat)
    requires IsRun(states, events, txSize, rxSize) && txSize > 0 && rxSize > 0 && i < j < |states|
    requires events[i] == Rx(R.Begin(id, length))
    requires forall k :: i < k < j && ReaderSteps(events[k], id) ==> events[k].r.blocking
    ensures id in states[j].rx.calls
    ensures states[j].rx.calls[id].place.Done? ==> 0 < |states[j].rx.calls[id].got| <= length
  {
    RunStep(states, events, txSize, rxSize, i);
    ReaderBegins(states[i], length, states[i + 1], id);
    PatientReader(states, events, txSize, rxSize, id, i + 1, j);
    RunKeeps(states, events, txSize, rxSize, j);
    if states[j].rx.calls[id].place.Done? {
      R.ReturnsBytes(states[j].rx, id);
    }
  }

  lemma ReaderBegins(s: State, length: nat, t: State, id: nat)
    requires Enabled(s, Rx(R.Begin(id, length))) && t == Apply(s, Rx(R.Begin(id, length)))
    ensures id in t.rx.calls && t.rx.calls[id].length == length && t.rx.calls[id].patient
  {
  }

  lemma {:induction false} PatientReader(
      states: seq<State>, events: seq<Event>, txSize: nat, rxSize: nat, id: nat, i: nat, j: nat)
    requires IsRun(states, events, txSize, rxSize) && txSize > 0 && rxSize > 0 && i <= j < |states|
    requires id in states[i].rx.calls
    requires forall k :: i <= k < j && ReaderSteps(events[k], id) ==> events[k].r.blocking
    ensures id in states[j].rx.calls && states[j].rx.calls[id].length == states[i].rx.calls[id].length
    ensures states[j].rx.calls[id].patient == states[i].rx.calls[id].patient
    decreases j
  {
    if i < j {
      PatientReader(states, events, txSize, rxSize, id, i, j - 1);
      RunStep(states, events, txSize, rxSize, j - 1);
      PatientReaderStep(states[j - 1], events[j - 1], states[j], id);
    }
  }

  lemma PatientReaderStep(s: State, e: Event, t: State, id: nat)
    requires Inv(s) && Enabled(s, e) && t == Apply(s, e) && id in s.rx.calls
    requires ReaderSteps(e, id) ==> e.r.blocking
    ensures id in t.rx.calls && t.rx.calls[id].length == s.rx.calls[id].length
    ensures t.rx.calls[id].patient == s.rx.calls[id].patient
  {
    if e.Rx? && !ReaderSteps(e, id) {
      R.OthersDoNotHinder(s.rx, e.r, id);
    }
  }
}
