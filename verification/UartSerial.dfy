/**
 * The interrupt handlers and critical sections of `UARTSerial`, and `SerialBase::attach`, as the
 * source writes them; each is proved to take its step in `UartTransmit` or `UartReceive`.
 */
module UartSerial {
  import opened Common
  import T = UartTransmit
  import R = UartReceive
  import U = Uart

  class Serial {
    const txSize: nat
    const rxSize: nat
    var txbuf: seq<T.Item>
    var rxbuf: seq<nat>
    var txIrqEnabled: bool
    var rxIrqEnabled: bool

    // SerialBase: the attached handlers and the sleep manager's count
    var txHandler: bool
    var rxHandler: bool
    var sleepLocks: int

    // the peripheral's side
    var sent: seq<T.Item>
    var arrived: seq<nat>

    /** The fields are those of the transmit half `t` and the receive half `r`. */
    ghost predicate Shows(s: U.State)
      reads this
    {
      && s.tx.capacity == txSize && s.tx.buffer == txbuf && s.tx.enabled == txIrqEnabled
      && s.tx.attached == txHandler && s.tx.sent == sent
      && s.rx.capacity == rxSize && s.rx.buffer == rxbuf && s.rx.enabled == rxIrqEnabled
      && s.rx.attached == rxHandler && s.rx.arrived == arrived
      && s.sleepLocks == sleepLocks
    }

    constructor (txSize: nat, rxSize: nat)
      requires txSize > 0 && rxSize > 0
      ensures this.txSize == txSize && this.rxSize == rxSize && Shows(U.Start(txSize, rxSize))
    {
      this.txSize, this.rxSize := txSize, rxSize;
      txbuf, rxbuf, sent, arrived := [], [], [], [];
      txIrqEnabled, rxIrqEnabled := false, true;
      txHandler, rxHandler, sleepLocks := false, false, 0;
      new;
      AttachRx(true);
    }

    method AttachTx(handler: bool)
      modifies this`txHandler, this`sleepLocks
      ensures txHandler == handler && sleepLocks == U.Locks(old(sleepLocks), old(txHandler), handler)
    {
      if handler {
        if !txHandler {
          sleepLocks := sleepLocks + 1;
        }
        txHandler := true;
      } else {
        if txHandler {
          sleepLocks := sleepLocks - 1;
        }
        txHandler := false;
      }
    }

    method AttachRx(handler: bool)
      modifies this`rxHandler, this`sleepLocks
      ensures rxHandler == handler && sleepLocks == U.Locks(old(sleepLocks), old(rxHandler), handler)
    {
      if handler {
        if !rxHandler {
          sleepLocks := sleepLocks + 1;
        }
        rxHandler := true;
      } else {
        if rxHandler {
          sleepLocks := sleepLocks - 1;
        }
        rxHandler := false;
      }
    }

    /** What `poll` reports as readable. */
    predicate PollIn()
      reads this
    {
      rxbuf != []
    }

    /** What `poll` reports as writable, unless the line has hung up. */
    predicate PollOut(hup: bool)
      reads this
    {
      !hup && |txbuf| != txSize
    }

    method Poll(hup: bool) returns (readable: bool, hangUp: bool, writable: bool)
      ensures readable == PollIn() && hangUp == hup && writable == PollOut(hup)
    {
      readable, hangUp, writable := false, false, false;
      if rxbuf != [] {
        readable := true;
      }
      if hup {
        hangUp := true;
      } else if |txbuf| != txSize {
        writable := true;
      }
    }

    /** `tx_irq`: the peripheral is writeable `room` times.  Pollers are woken when the port becomes writable. */
    method TxIrq(room: nat, hup: bool, ghost s: U.State) returns (wake: bool)
      requires Shows(s)
      modifies this`txbuf, this`sent, this`txIrqEnabled, this`txHandler, this`sleepLocks
      ensures var t := T.TxIrq(s.tx, room);
              Shows(s.(tx := t, sleepLocks := U.Locks(s.sleepLocks, s.tx.attached, t.attached)))
      ensures wake == (!old(PollOut(hup)) && PollOut(hup))
    {
      var wasFull := |txbuf| == txSize;
      var left := room;
      ghost var k := 0;
      while left > 0 && txbuf != []
        invariant 0 <= k <= |s.tx.buffer| && left == room - k
        invariant txbuf == s.tx.buffer[k..] && sent == s.tx.sent + s.tx.buffer[..k]
        invariant txIrqEnabled == s.tx.enabled && txHandler == s.tx.attached
        invariant sleepLocks == s.sleepLocks
      {
        sent := sent + [txbuf[0]];
        txbuf := txbuf[1..];
        left := left - 1;
        assert s.tx.buffer[..k + 1] == s.tx.buffer[..k] + [s.tx.buffer[k]];
        k := k + 1;
      }
      assert k == Min(room, |s.tx.buffer|);
      if txIrqEnabled && txbuf == [] {
        AttachTx(false);
        txIrqEnabled := false;
      }
      wake := wasFull && |txbuf| != txSize && !hup;
    }

    /** `rx_irq`: the peripheral is readable for each of `bytes`.  Pollers are woken when the port becomes readable. */
    method RxIrq(bytes: seq<nat>, ghost s: U.State) returns (wake: bool)
      requires Shows(s) && |rxbuf| <= rxSize
      modifies this`rxbuf, this`arrived, this`rxIrqEnabled, this`rxHandler, this`sleepLocks
      ensures var r := R.RxIrq(s.rx, bytes);
              Shows(s.(rx := r, sleepLocks := U.Locks(s.sleepLocks, s.rx.attached, r.attached)))
      ensures wake == (!old(PollIn()) && PollIn())
    {
      var wasEmpty := rxbuf == [];
      var k := 0;
      while |rxbuf| != rxSize && k < |bytes|
        invariant 0 <= k <= |bytes| && |s.rx.buffer| + k <= rxSize
        invariant rxbuf == s.rx.buffer + bytes[..k] && arrived == s.rx.arrived + bytes[..k]
        invariant rxIrqEnabled == s.rx.enabled && rxHandler == s.rx.attached
        invariant sleepLocks == s.sleepLocks
      {
        assert bytes[..k + 1] == bytes[..k] + [bytes[k]];
        rxbuf := rxbuf + [bytes[k]];
        arrived := arrived + [bytes[k]];
        k := k + 1;
      }
      if rxIrqEnabled && |rxbuf| == rxSize {
        AttachRx(false);
        rxIrqEnabled := false;
      }
      wake := wasEmpty && rxbuf != [];
    }

    /** The critical section at the end of each round of `write`. */
    method KickTransmit(room: nat, hup: bool, ghost s: U.State) returns (wake: bool)
      requires Shows(s) && U.Inv(s)
      modifies this`txbuf, this`sent, this`txIrqEnabled, this`txHandler, this`sleepLocks
      ensures var t := T.KickStep(s.tx, room);
              Shows(s.(tx := t, sleepLocks := U.Locks(s.sleepLocks, s.tx.attached, t.attached)))
      ensures wake == (!old(PollOut(hup)) && PollOut(hup))
    {
      wake := false;
      if !txIrqEnabled {
        wake := TxIrq(room, hup, s);
        if txbuf != [] {
          AttachTx(true);
          txIrqEnabled := true;
        }
      }
    }

    /** The critical section at the end of `read`. */
    method KickReceive(bytes: seq<nat>, ghost s: U.State) returns (wake: bool)
      requires Shows(s) && U.Inv(s)
      modifies this`rxbuf, this`arrived, this`rxIrqEnabled, this`rxHandler, this`sleepLocks
      ensures var r := R.KickStep(s.rx, bytes);
              Shows(s.(rx := r, sleepLocks := U.Locks(s.sleepLocks, s.rx.attached, r.attached)))
      ensures wake == (!old(PollIn()) && PollIn())
    {
      wake := false;
      if !rxIrqEnabled {
        wake := RxIrq(bytes, s);
        if |rxbuf| != rxSize {
          AttachRx(true);
          rxIrqEnabled := true;
        }
      }
    }
  }
}
