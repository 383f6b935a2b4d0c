/** `CircularBuffer`: a ring of fixed size with a full flag, proved to be a bounded queue. */
module CircularBuffer {

  /** The elements of a ring from the oldest to the newest. */
  function Elements<T>(pool: seq<T>, head: nat, tail: nat, full: bool): seq<T>
    requires head < |pool| && tail < |pool|
  {
    if full || head < tail then pool[tail..] + pool[..head] else pool[tail..head]
  }

  lemma NextSlot(i: nat, n: nat)
    requires i < n
    ensures (i + 1) % n == if i + 1 == n then 0 else i + 1
  {
    if i + 1 < n {
      assert (i + 1) / n == 0;
    }
  }

  lemma PopElements<T>(pool: seq<T>, head: nat, tail: nat, full: bool)
    requires head < |pool| && tail < |pool| && (full ==> head == tail) && (head != tail || full)
    ensures var next := if tail + 1 == |pool| then 0 else tail + 1;
            Elements(pool, head, tail, full) == [pool[tail]] + Elements(pool, head, next, false)
  {
  }

  lemma PushElements<T>(pool: seq<T>, head: nat, tail: nat, data: T)
    requires head < |pool| && tail < |pool|
    ensures var next := if head + 1 == |pool| then 0 else head + 1;
            Elements(pool[head := data], next, tail, next == tail) == Elements(pool, head, tail, false) + [data]
  {
    var p := pool[head := data];
    if head < tail {
      assert p[tail..] == pool[tail..] && p[..head + 1] == pool[..head] + [data];
    } else {
      assert p[tail..head + 1] == pool[tail..head] + [data];
      if head + 1 == |pool| {
        assert p[tail..] + p[..0] == p[tail..head + 1];
      }
    }
  }

  class Ring<T(0)> {
    var pool: array<T>
    var head: nat
    var tail: nat
    var full: bool

    ghost predicate Valid()
      reads this
    {
      pool.Length > 0 && head < pool.Length && tail < pool.Length && (full ==> head == tail)
    }

    /** The elements from the oldest to the newest. */
    ghost function Contents(): seq<T>
      requires Valid()
      reads this, pool
    {
      Elements(pool[..], head, tail, full)
    }

    constructor (size: nat)
      requires size > 0
      ensures Valid() && Contents() == [] && fresh(pool) && pool.Length == size
    {
      pool := new T[size];
      head, tail, full := 0, 0, false;
    }

    /** Pushing on a full ring drops the oldest element. */
    method Push(data: T)
      requires Valid()
      modifies this`head, this`tail, this`full, pool
      ensures Valid() && pool == old(pool)
      ensures Contents() == (if old(full) then old(Contents())[1..] else old(Contents())) + [data]
    {
      ghost var before := pool[..];
      NextSlot(tail, pool.Length);
      NextSlot(head, pool.Length);
      if full {
        PopElements(before, head, tail, full);
        tail := tail + 1;
        tail := tail % pool.Length;
      }
      PushElements(before, head, tail, data);
      pool[head] := data;
      assert pool[..] == before[head := data];
      head := head + 1;
      head := head % pool.Length;
      if head == tail {
        full := true;
      }
    }

    method Pop() returns (popped: bool, data: T)
      requires Valid()
      modifies this`tail, this`full
      ensures Valid() && popped == (old(Contents()) != [])
      ensures popped ==> old(Contents()) == [data] + Contents()
      ensures !popped ==> Contents() == old(Contents())
    {
      popped := false;
      data := *;
      var empty := Empty();
      if !empty {
        NextSlot(tail, pool.Length);
        PopElements(pool[..], head, tail, full);
        data := pool[tail];
        tail := (tail + 1) % pool.Length;
        full := false;
        popped := true;
      }
    }

    method Empty() returns (empty: bool)
      requires Valid()
      ensures empty == (Contents() == [])
    {
      empty := head == tail && !full;
    }

    method Full() returns (isFull: bool)
      requires Valid()
      ensures isFull == (|Contents()| == pool.Length)
    {
      isFull := full;
    }

    method Size() returns (elements: nat)
      requires Valid()
      ensures elements == |Contents()|
    {
      if !full {
        if head < tail {
          elements := pool.Length + head - tail;
        } else {
          elements := head - tail;
        }
      } else {
        elements := pool.Length;
      }
    }
  }
}
