/**
 * The least-bit-first CRC-32 with its sixteen-entry table and the reflected most-bit-first one
 * are the same CRC: the registers are mirror images of each other after every byte.
 */
module CrcReversed {
  import opened Words
  import opened MbedCrc
  import CrcTables

  /** One round with the register running the other way. */
  function BackStep(p: Word, rev: Word): Word {
    if p[0] then Xor(Shr(p, 1), rev) else Shr(p, 1)
  }

  function BackSteps(p: Word, rev: Word, n: nat): Word
    decreases n
  {
    if n == 0 then p else BackStep(BackSteps(p, rev, n - 1), rev)
  }

  /** Entry `i` is what four rounds make of `i`. */
  ghost predicate IsNibbleTable(t: seq<bv32>, rev: Word) {
    |t| == 16 && forall p: Word :: NibbleIsRemainder(t, p, rev)
  }

  ghost predicate NibbleIsRemainder(t: seq<bv32>, p: Word, rev: Word)
    requires |t| == 16
  {
    CrcTables.Nibble(t, p) == BackSteps(Low(p, 4), rev, 4)
  }

  // ----- linearity

  lemma BackStepXor(p: Word, q: Word, rev: Word)
    ensures BackStep(Xor(p, q), rev) == Xor(BackStep(p, rev), BackStep(q, rev))
  {
    ShrXor(p, q, 1);
  }

  lemma ShrXor(p: Word, q: Word, n: nat)
    ensures Shr(Xor(p, q), n) == Xor(Shr(p, n), Shr(q, n))
  {
  }

  lemma {:induction false} BackStepsXor(p: Word, q: Word, rev: Word, n: nat)
    ensures BackSteps(Xor(p, q), rev, n) == Xor(BackSteps(p, rev, n), BackSteps(q, rev, n))
    decreases n
  {
    if n > 0 {
      BackStepsXor(p, q, rev, n - 1);
      BackStepXor(BackSteps(p, rev, n - 1), BackSteps(q, rev, n - 1), rev);
    }
  }

  lemma {:induction false} BackStepsShift(p: Word, rev: Word, n: nat)
    requires n <= 32 && forall i :: 0 <= i < n ==> !p[i]
    ensures BackSteps(p, rev, n) == Shr(p, n)
    decreases n
  {
    if n == 0 {
      assert Shr(p, 0) == p;
    } else {
      BackStepsShift(p, rev, n - 1);
      assert !Shr(p, n - 1)[0];
      ShrShr(p, n - 1, 1);
    }
  }

  lemma ShrShr(p: Word, m: nat, n: nat)
    ensures Shr(Shr(p, m), n) == Shr(p, m + n)
  {
  }

  lemma {:induction false} BackStepsSplit(p: Word, rev: Word, m: nat, n: nat)
    ensures BackSteps(p, rev, m + n) == BackSteps(BackSteps(p, rev, m), rev, n)
    decreases n
  {
    if n > 0 {
      BackStepsSplit(p, rev, m, n - 1);
    }
  }

  // ----- two lookups are eight rounds

  lemma NibbleRounds(t: seq<bv32>, p: Word, rev: Word)
    requires IsNibbleTable(t, rev)
    ensures BackSteps(p, rev, 4) == Xor(Shr(p, 4), CrcTables.Nibble(t, p))
  {
    var low, high := Low(p, 4), Shl(Shr(p, 4), 4);
    assert NibbleIsRemainder(t, p, rev);
    SplitNibble(p);
    BackStepsXor(high, low, rev, 4);
    BackStepsShift(high, rev, 4);
    assert Shr(high, 4) == Shr(p, 4);
  }

  lemma SplitNibble(p: Word)
    ensures Xor(Shl(Shr(p, 4), 4), Low(p, 4)) == p
  {
  }

  lemma NibbleByteRounds(c: Config, t: seq<bv32>, p: Word, d: Byte, rev: Word)
    requires ValidWidth(c.width) && IsNibbleTable(t, rev)
    ensures TableByte(c, NibbleTable(t), p, d) == BackSteps(Xor(p, Widen(d)), rev, ROUNDS)
  {
    var w := Widen(d);
    var u := Xor(p, w);
    var half := Xor(Shr(p, 4), CrcTables.Nibble(t, u));
    NibbleRounds(t, u, rev);
    ShrXor(p, w, 4);
    XorSwap(Shr(p, 4), Shr(w, 4), CrcTables.Nibble(t, u));
    var v := Xor(half, Shr(w, 4));
    NibbleRounds(t, v, rev);
    ShrXor(half, Shr(w, 4), 4);
    ByteGone(half, d);
    BackStepsSplit(u, rev, 4, 4);
  }

  lemma ByteGone(half: Word, d: Byte)
    ensures Xor(Shr(half, 4), Shr(Shr(Widen(d), 4), 4)) == Shr(half, 4)
  {
  }

  // ----- mirror images

  lemma MirrorStep(p: Word, rev: Word)
    ensures Reflect(BackStep(p, rev), 32) == Step(Reflect(p, 32), Reflect(rev, 32), 31)
  {
  }

  lemma {:induction false} MirrorSteps(p: Word, rev: Word, n: nat)
    ensures Reflect(BackSteps(p, rev, n), 32) == Steps(Reflect(p, 32), Reflect(rev, 32), 31, n)
    decreases n
  {
    if n > 0 {
      MirrorSteps(p, rev, n - 1);
      MirrorStep(BackSteps(p, rev, n - 1), rev);
    }
  }

  lemma MirrorByte(p: Word, d: Byte)
    ensures Reflect(Xor(p, Widen(d)), 32) == Xor(Reflect(p, 32), Shl(Reflect(Widen(d), 8), 24))
  {
  }

  lemma MirrorMirror(p: Word)
    ensures Reflect(Reflect(p, 32), 32) == p
  {
  }

  /** `fast` is the nibble form, `slow` the reflected one, over mirrored polynomials. */
  ghost predicate Mirrored(fast: Config, slow: Config, t: seq<bv32>) {
    && fast.width == 32 && slow.width == 32 && slow.reflectData
    && IsNibbleTable(t, fast.polynomial)
    && slow.polynomial == Reflect(fast.polynomial, 32)
  }

  /** After every message the registers are bit reversals of each other. */
  lemma {:induction false} RunsMirror(fast: Config, slow: Config, t: seq<bv32>, start: Word, data: seq<Byte>)
    requires Mirrored(fast, slow, t)
    ensures Reflect(TableRun(fast, NibbleTable(t), start, data), 32) == BitwiseRun(slow, Reflect(start, 32), data)
  {
    if data != [] {
      var init, d := data[..|data| - 1], data[|data| - 1];
      var p := TableRun(fast, NibbleTable(t), start, init);
      RunsMirror(fast, slow, t, start, init);
      NibbleByteRounds(fast, t, p, d, fast.polynomial);
      MirrorSteps(Xor(p, Widen(d)), fast.polynomial, ROUNDS);
      MirrorByte(p, d);
    }
  }

  /** So the two deliver the same CRC. */
  lemma SameCrc(fast: Config, slow: Config, t: seq<bv32>, data: seq<Byte>)
    requires Mirrored(fast, slow, t) && slow.reflectRemainder
    requires slow.initial == Reflect(fast.initial, 32) && slow.finalXor == fast.finalXor
    ensures Crc(fast, NibbleTable(t), data) == Crc(slow, NoTable, data)
  {
    RunsMirror(fast, slow, t, fast.initial, data);
    var p := TableRun(fast, NibbleTable(t), fast.initial, data);
    MirrorMirror(p);
    LowAll(p);
    LowAll(Reflect(p, 32));
  }

  lemma LowAll(p: Word)
    ensures Low(p, 32) == p
  {
  }
}
