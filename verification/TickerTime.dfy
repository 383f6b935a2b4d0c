/**
 * Arithmetic on a counter that wraps: what the low bits of two readings say about real time.
 * Real time is an unbounded number of ticks; a counter of modulus `m` shows it modulo `m`.
 */
module TickerTime {

  const UINT32: int := 0x1_0000_0000

  /** `(a - b) & _mask` on `uint32_t`, where the mask is `m - 1`. */
  function Masked(a: nat, b: nat, m: nat): (r: nat)
    requires 0 < m
    ensures r < m
  {
    ((a - b) % UINT32) % m
  }

  /** `_ticker_match_interval_passed` */
  predicate Passed(prev: nat, cur: nat, match_: nat) {
    if match_ > prev then cur >= match_ || cur < prev else cur < prev && cur >= match_
  }

  /** A modulus that `info->bits` can give: it divides 2^32. */
  ghost predicate Modulus(m: nat) {
    m > 1 && exists k: nat :: m * k == UINT32
  }

  lemma MultipleApart(m: nat, k: int)
    ensures k >= 1 ==> m * k >= m
    ensures k <= -1 ==> m * k + m <= 0
  {
  }

  lemma ModUnique(x: int, m: nat, q: int, r: nat)
    requires 0 < m && r < m && x == m * q + r
    ensures x % m == r
  {
    assert m * (q - x / m) == x % m - r;
    MultipleApart(m, q - x / m);
  }

  /** Masking a 32-bit difference is taking the difference modulo `m`. */
  lemma MaskedIsMod(a: nat, b: nat, m: nat)
    requires Modulus(m) && a < m && b < m
    ensures Masked(a, b, m) == if a >= b then a - b else a - b + m
  {
    var k: nat :| m * k == UINT32;
    var d := (a - b) % UINT32;
    if a >= b {
      assert a - b < m <= UINT32 by { Divides(m, k); }
      ModUnique(a - b, UINT32, 0, a - b);
      ModUnique(a - b, m, 0, a - b);
    } else {
      assert 0 < b - a < m <= UINT32 by { Divides(m, k); }
      ModUnique(a - b, UINT32, -1, a - b + UINT32);
      assert a - b + UINT32 == m * (k - 1) + (a - b + m);
      ModUnique(a - b + UINT32, m, k - 1, a - b + m);
    }
  }

  lemma Divides(m: nat, k: nat)
    requires m > 1 && m * k == UINT32
    ensures m <= UINT32
  {
  }

  /** The reading `e` ticks after a reading, within one wrap. */
  lemma LaterReading(start: nat, e: nat, m: nat)
    requires 0 < m && e < m
    ensures (start + e) % m == if start % m + e < m then start % m + e else start % m + e - m
  {
    var q, r := start / m, start % m;
    if r + e < m {
      ModUnique(start + e, m, q, r + e);
    } else {
      ModUnique(start + e, m, q + 1, r + e - m);
    }
  }

  /** The masked difference of two readings never exceeds the real time between them. */
  lemma MaskedNeverOver(start: nat, now: nat, m: nat)
    requires Modulus(m) && start <= now
    ensures Masked(now % m, start % m, m) <= now - start
  {
    var e := (now - start) % m;
    var q := (now - start) / m;
    assert now == (start + e) + m * q;
    ModShift(start + e, m, q);
    LaterReading(start, e, m);
    MaskedIsMod(now % m, start % m, m);
    assert q >= 0 && m * q >= 0;
  }

  lemma ModShift(x: nat, m: nat, q: nat)
    requires 0 < m
    ensures (x + m * q) % m == x % m
  {
    ModUnique(x + m * q, m, x / m + q, x % m);
  }

  /** Within one wrap the comparison finds exactly the matches whose tick has come. */
  lemma PassedExactly(start: nat, now: nat, match_: nat, m: nat)
    requires Modulus(m) && match_ < m && start <= now < start + m && match_ != start % m
    ensures Passed(start % m, now % m, match_) <==> now >= start + Masked(match_, start % m, m)
  {
    LaterReading(start, now - start, m);
    MaskedIsMod(match_, start % m, m);
  }

  /** A match equal to the reading it is set at is never found passed. */
  lemma SameTickNeverPasses(prev: nat, cur: nat)
    ensures !Passed(prev, cur, prev)
  {
  }

  /** `new_cycles > cycles` holds exactly when the match tick was strictly passed. */
  lemma OverflowExactly(start: nat, now: nat, match_: nat, m: nat)
    requires Modulus(m) && match_ < m && start <= now < start + m
    ensures Masked(match_, now % m, m) > Masked(match_, start % m, m)
            <==> now > start + Masked(match_, start % m, m)
    ensures now <= start + Masked(match_, start % m, m) ==>
            Masked(match_, now % m, m) == start + Masked(match_, start % m, m) - now
  {
    LaterReading(start, now - start, m);
    MaskedIsMod(match_, start % m, m);
    MaskedIsMod(match_, now % m, m);
  }

  // ----- the backup Timeout, in microseconds

  /** `_us_per_tick`: the length of a tick in microseconds, rounded up. */
  function UsPerTick(frequency: nat): nat
    requires frequency > 0
  {
    (1000000 + frequency - 1) / frequency
  }

  /** `_lp_ticks_to_us`, in the width of the source. */
  function LpTicksToUs(ticks: nat, frequency: nat): nat
    requires frequency > 0
  {
    (UsPerTick(frequency) * ticks + 4) % UINT32
  }

  lemma UsPerTickRange(frequency: nat)
    requires 4000 <= frequency <= 64000
    ensures 16 <= UsPerTick(frequency) <= 250 && UsPerTick(frequency) * frequency >= 1000000
  {
    var u := UsPerTick(frequency);
    Quotient(1000000 + frequency - 1, frequency);
    Larger(u, 251, frequency);
    Larger(16, u + 1, frequency);
    Larger(u + 1, 16, frequency);
  }

  /** It is the least number of microseconds that is no shorter than a tick. */
  lemma UsPerTickExactly(frequency: nat, u: nat)
    requires frequency > 0
    ensures u * frequency >= 1000000 <==> u >= UsPerTick(frequency)
  {
    var t := UsPerTick(frequency);
    Quotient(1000000 + frequency - 1, frequency);
    Larger(u, t, frequency);
    Larger(t, u + 1, frequency);
  }

  lemma Quotient(n: nat, d: nat)
    requires d > 0
    ensures (n / d) * d <= n < (n / d) * d + d
  {
  }

  lemma Larger(a: nat, b: nat, f: nat)
    ensures a >= b ==> a * f >= b * f
  {
  }

  /** No 32-bit overflow for 4 to 64 kHz, as long as the delay is below 17 million ticks. */
  lemma NoOverflow(ticks: nat, frequency: nat)
    requires 4000 <= frequency <= 64000 && ticks <= 17179869
    ensures LpTicksToUs(ticks, frequency) == UsPerTick(frequency) * ticks + 4
  {
    UsPerTickRange(frequency);
    var u := UsPerTick(frequency);
    assert u * ticks <= 250 * ticks;
  }

  /** What a counter of `frequency` Hz shows at real time `t` in microseconds. */
  function TicksAt(t: real, frequency: nat): int {
    (t * frequency as real / 1000000.0).Floor
  }

  /** What a microsecond ticker of period `p` shows at `t`: the start of the current period. */
  function UsAt(t: real, p: real): real
    requires p > 0.0
  {
    (t / p).Floor as real * p
  }

  /**
   * A Timeout of `LpTicksToUs(ticks)` microseconds, kept by a ticker of at least 250 kHz, never
   * ends before the low power counter has advanced by `ticks`.
   */
  lemma TimeoutNeverEarly(start: real, end: real, p: real, ticks: nat, frequency: nat)
    requires 0.0 < p <= 4.0 && start <= end
    requires 4000 <= frequency <= 64000 && ticks <= 17179869
    requires UsAt(end, p) >= UsAt(start, p) + LpTicksToUs(ticks, frequency) as real
    ensures TicksAt(end, frequency) >= TicksAt(start, frequency) + ticks
  {
    NoOverflow(ticks, frequency);
    UsPerTickRange(frequency);
    var u := UsPerTick(frequency);
    UsBounds(start, p);
    UsBounds(end, p);
    Product(u, frequency, ticks);
    var us := u * ticks;
    assert LpTicksToUs(ticks, frequency) == us + 4;
    Elapsed(start, end, UsAt(start, p), UsAt(end, p), p, us);
    LongEnough(start, end, us, frequency, ticks);
  }

  /** Two readings that differ by the delay and four microseconds are at least the delay apart. */
  lemma Elapsed(start: real, end: real, first: real, last: real, p: real, us: nat)
    requires p <= 4.0 && start - p < first && last <= end && last >= first + (us + 4) as real
    ensures end >= start + us as real
  {
  }

  lemma UsBounds(t: real, p: real)
    requires 0.0 < p
    ensures t - p < UsAt(t, p) <= t
  {
    var q := t / p;
    var f := q.Floor as real;
    TimesQuotient(t, p);
    PeriodStart(t, p, f, q);
  }

  lemma PeriodStart(t: real, p: real, f: real, q: real)
    requires 0.0 < p && f <= q < f + 1.0 && q * p == t
    ensures t - p < f * p <= t
  {
    AtMost(t, p, f, q);
    LessThanOneMore(t, p, f, q);
  }

  lemma AtMost(t: real, p: real, f: real, q: real)
    requires 0.0 < p && f <= q && q * p == t
    ensures f * p <= t
  {
    Scale(f, q, p);
  }

  lemma LessThanOneMore(t: real, p: real, f: real, q: real)
    requires 0.0 < p && q < f + 1.0 && q * p == t
    ensures t - p < f * p
  {
    ScaleStrictly(q, f + 1.0, p);
    OneMore(f, p);
  }

  lemma Scale(a: real, b: real, p: real)
    requires 0.0 < p && a <= b
    ensures a * p <= b * p
  {
  }

  lemma ScaleStrictly(a: real, b: real, p: real)
    requires 0.0 < p && a < b
    ensures a * p < b * p
  {
  }

  lemma OneMore(f: real, p: real)
    ensures (f + 1.0) * p == f * p + p
  {
  }

  lemma TimesQuotient(t: real, p: real)
    requires 0.0 < p
    ensures (t / p) * p == t
  {
  }

  lemma Product(u: nat, f: nat, n: nat)
    requires u * f >= 1000000
    ensures u * n * f >= 1000000 * n
  {
    assert u * n * f == (u * f) * n;
  }

  lemma LongEnough(start: real, end: real, us: nat, f: nat, n: nat)
    requires end >= start + us as real && us * f >= 1000000 * n && f > 0
    ensures TicksAt(end, f) >= TicksAt(start, f) + n
  {
    var fr := f as real;
    assert (us * f) as real == us as real * fr;
    assert end * fr >= start * fr + us as real * fr;
    assert end * fr >= start * fr + 1000000.0 * n as real;
    assert end * fr / 1000000.0 >= start * fr / 1000000.0 + n as real;
  }
}
