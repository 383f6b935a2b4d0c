/**
 * Single bits of 32-bit words, the ground on which the CRC proofs stand.
 *
 * The lemmas about the operations of C are relational: the result is a parameter tied to the
 * operands by a precondition, so that each induction meets its hypothesis word for word.
 */
module CrcBits {

  predicate Odd(p: bv32) { p & 1 != 0 }

  /** Is bit `i` of `p` set?  Bits from 32 on are clear. */
  predicate Test(p: bv32, i: nat)
    decreases i
  {
    if i == 0 then Odd(p) else Test(p >> 1, i - 1)
  }

  /** `p << n` of C, as `n` one-place shifts. */
  function Shl(p: bv32, n: nat): bv32
    decreases n
  {
    if n == 0 then p else Shl(p, n - 1) << 1
  }

  /** The single bit `j`: `1u << j`. */
  function Bit(j: nat): bv32
    requires j < 32
    decreases 31 - j
  {
    if j == 31 then 0x8000_0000 else Bit(j + 1) >> 1
  }

  /** The low `n` bits: `(uint32_t)((1ull << n) - 1)`. */
  function Ones(n: nat): bv32
    requires n <= 32
    decreases 32 - n
  {
    if n == 32 then 0xffff_ffff else Ones(n + 1) >> 1
  }

  /** Bit `i` of `p` is bit `i - 1` of `p >> 1`. */
  lemma TestHalf(p: bv32, half: bv32, i: nat)
    requires half == p >> 1 && i > 0
    ensures Test(p, i) == Test(half, i - 1)
  {
  }

  // ----- xor, and, or

  lemma XorHalf(p: bv32, q: bv32, x: bv32)
    requires x == p ^ q
    ensures Odd(x) <==> (Odd(p) != Odd(q))
    ensures x >> 1 == (p >> 1) ^ (q >> 1)
  {
  }

  lemma {:induction false} TestXor(p: bv32, q: bv32, x: bv32, i: nat)
    requires x == p ^ q
    ensures Test(x, i) <==> (Test(p, i) != Test(q, i))
    decreases i
  {
    XorHalf(p, q, x);
    if i > 0 {
      var p', q', x' := p >> 1, q >> 1, x >> 1;
      TestXor(p', q', x', i - 1);
      TestHalf(p, p', i);
      TestHalf(q, q', i);
      TestHalf(x, x', i);
    }
  }

  lemma AndHalf(p: bv32, q: bv32, x: bv32)
    requires x == p & q
    ensures Odd(x) <==> Odd(p) && Odd(q)
    ensures x >> 1 == (p >> 1) & (q >> 1)
  {
  }

  lemma {:induction false} TestAnd(p: bv32, q: bv32, x: bv32, i: nat)
    requires x == p & q
    ensures Test(x, i) <==> Test(p, i) && Test(q, i)
    decreases i
  {
    AndHalf(p, q, x);
    if i > 0 {
      var p', q', x' := p >> 1, q >> 1, x >> 1;
      TestAnd(p', q', x', i - 1);
      TestHalf(p, p', i);
      TestHalf(q, q', i);
      TestHalf(x, x', i);
    }
  }

  // ----- zero, masks and single bits

  lemma {:induction false} TestZero(x: bv32, i: nat)
    requires x == 0
    ensures !Test(x, i)
    decreases i
  {
    if i > 0 {
      TestZero(x >> 1, i - 1);
    }
  }

  lemma OnesHigh()
    ensures Ones(32) == 0xffff_ffff && Ones(31) == 0x7fff_ffff && Ones(30) == 0x3fff_ffff
    ensures Ones(29) == 0x1fff_ffff && Ones(28) == 0xfff_ffff && Ones(27) == 0x7ff_ffff
    ensures Ones(26) == 0x3ff_ffff && Ones(25) == 0x1ff_ffff && Ones(24) == 0xff_ffff
    ensures Ones(23) == 0x7f_ffff && Ones(22) == 0x3f_ffff && Ones(21) == 0x1f_ffff
    ensures Ones(20) == 0xf_ffff && Ones(19) == 0x7_ffff && Ones(18) == 0x3_ffff
    ensures Ones(17) == 0x1_ffff && Ones(16) == 0xffff
  {
  }

  lemma OnesLow()
    ensures Ones(15) == 0x7fff && Ones(14) == 0x3fff && Ones(13) == 0x1fff && Ones(12) == 0xfff
    ensures Ones(11) == 0x7ff && Ones(10) == 0x3ff && Ones(9) == 0x1ff && Ones(8) == 0xff
    ensures Ones(7) == 0x7f && Ones(6) == 0x3f && Ones(5) == 0x1f && Ones(4) == 0xf
    ensures Ones(3) == 0x7 && Ones(2) == 0x3 && Ones(1) == 0x1 && Ones(0) == 0
  {
    OnesHigh();
  }

  lemma OnesParity(n: nat)
    requires n <= 32
    ensures Odd(Ones(n)) <==> n > 0
    ensures Ones(n) >> 1 == if n == 0 then 0 else Ones(n - 1)
  {
    OnesLow();
    if n > 15 {
      OnesHigh();
    }
  }

  lemma {:induction false} TestOnes(n: nat, m: bv32, i: nat)
    requires n <= 32 && m == Ones(n)
    ensures Test(m, i) <==> i < n
    decreases i
  {
    OnesParity(n);
    if i > 0 {
      if n == 0 {
        TestZero(m >> 1, i - 1);
      } else {
        TestOnes(n - 1, m >> 1, i - 1);
      }
    }
  }

  lemma TestMasked(p: bv32, w: nat, x: bv32, i: nat)
    requires w <= 32 && x == p & Ones(w)
    ensures Test(x, i) <==> i < w && Test(p, i)
  {
    var m := Ones(w);
    TestAnd(p, m, x, i);
    TestOnes(w, m, i);
  }

  lemma BitHigh()
    ensures Bit(31) == 0x8000_0000 && Bit(30) == 0x4000_0000 && Bit(29) == 0x2000_0000 && Bit(28) == 0x1000_0000
    ensures Bit(27) == 0x800_0000 && Bit(26) == 0x400_0000 && Bit(25) == 0x200_0000 && Bit(24) == 0x100_0000
    ensures Bit(23) == 0x80_0000 && Bit(22) == 0x40_0000 && Bit(21) == 0x20_0000 && Bit(20) == 0x10_0000
    ensures Bit(19) == 0x8_0000 && Bit(18) == 0x4_0000 && Bit(17) == 0x2_0000 && Bit(16) == 0x1_0000
  {
  }

  lemma BitLow()
    ensures Bit(15) == 0x8000 && Bit(14) == 0x4000 && Bit(13) == 0x2000 && Bit(12) == 0x1000
    ensures Bit(11) == 0x800 && Bit(10) == 0x400 && Bit(9) == 0x200 && Bit(8) == 0x100
    ensures Bit(7) == 0x80 && Bit(6) == 0x40 && Bit(5) == 0x20 && Bit(4) == 0x10
    ensures Bit(3) == 0x8 && Bit(2) == 0x4 && Bit(1) == 0x2 && Bit(0) == 0x1
  {
    BitHigh();
  }

  lemma BitParity(j: nat)
    requires j < 32
    ensures Odd(Bit(j)) <==> j == 0
    ensures Bit(j) >> 1 == if j == 0 then 0 else Bit(j - 1)
  {
    BitLow();
    if j > 15 {
      BitHigh();
    }
  }

  lemma {:induction false} TestBit(j: nat, m: bv32, i: nat)
    requires j < 32 && m == Bit(j)
    ensures Test(m, i) <==> i == j
    decreases i
  {
    BitParity(j);
    if i > 0 {
      if j == 0 {
        TestZero(m >> 1, i - 1);
      } else {
        TestBit(j - 1, m >> 1, i - 1);
      }
    }
  }

  // ----- shifts to the left

  lemma DblHalf(p: bv32, d: bv32, m: bv32)
    requires d == p << 1 && m == 0x7fff_ffff
    ensures !Odd(d)
    ensures d >> 1 == p & m
  {
  }

  lemma TestDbl(p: bv32, d: bv32, i: nat)
    requires d == p << 1 && i < 32
    ensures Test(d, i) <==> i > 0 && Test(p, i - 1)
  {
    OnesHigh();
    DblHalf(p, d, Ones(31));
    if i > 0 {
      var d' := d >> 1;
      TestHalf(d, d', i);
      TestMasked(p, 31, d', i - 1);
    }
  }

  // ----- words are equal when their bits are

  lemma JoinHalf(p: bv32, q: bv32, p': bv32, q': bv32)
    requires p' == p >> 1 && q' == q >> 1 && p' == q' && Odd(p) == Odd(q)
    ensures p == q
  {
  }

  lemma {:induction false} ShiftedExtensional(p: bv32, q: bv32, n: nat)
    requires Shr(p, n) == Shr(q, n)
    requires forall i: nat :: i < n ==> Test(p, i) == Test(q, i)
    ensures p == q
    decreases n
  {
    if n > 0 {
      var p', q' := p >> 1, q >> 1;
      forall i: nat | i < n - 1
        ensures Test(p', i) == Test(q', i)
      {
        TestHalf(p, p', i + 1);
        TestHalf(q, q', i + 1);
      }
      ShiftedExtensional(p', q', n - 1);
      assert Test(p, 0) == Test(q, 0);
      JoinHalf(p, q, p', q');
    }
  }

  /** `p >> n` of C, as `n` one-place shifts. */
  function Shr(p: bv32, n: nat): bv32
    decreases n
  {
    if n == 0 then p else Shr(p >> 1, n - 1)
  }

  lemma ShrHalf(p: bv32, half: bv32, n: nat)
    requires half == p >> 1 && n > 0
    ensures Shr(p, n) == Shr(half, n - 1)
  {
  }

  lemma FourShifts(p: bv32, a: bv32, b: bv32, c: bv32, d: bv32, p': bv32)
    requires a == p >> 1 && b == a >> 1 && c == b >> 1 && d == c >> 1 && p' == p >> 4
    ensures d == p'
  {
  }

  lemma ShrFour(p: bv32, p': bv32, n: nat)
    requires n >= 4 && p' == p >> 4
    ensures Shr(p, n) == Shr(p', n - 4)
  {
    var a := p >> 1;
    var b := a >> 1;
    var c := b >> 1;
    var d := c >> 1;
    ShrHalf(p, a, n);
    ShrHalf(a, b, n - 1);
    ShrHalf(b, c, n - 2);
    ShrHalf(c, d, n - 3);
    FourShifts(p, a, b, c, d, p');
  }

  lemma ShrEight(p: bv32, p': bv32, n: nat)
    requires n >= 8 && p' == p >> 8
    ensures Shr(p, n) == Shr(p', n - 8)
  {
    var q := p >> 4;
    ShrFour(p, q, n);
    ShrFour(q, p', n - 4);
  }

  lemma ShrAll(p: bv32)
    ensures Shr(p, 32) == 0
  {
    var a := p >> 8;
    var b := a >> 8;
    var c := b >> 8;
    var d := c >> 8;
    ShrEight(p, a, 32);
    ShrEight(a, b, 24);
    ShrEight(b, c, 16);
    ShrEight(c, d, 8);
    ShrGone(p, a, b, c, d);
  }

  lemma ShrGone(p: bv32, a: bv32, b: bv32, c: bv32, d: bv32)
    requires a == p >> 8 && b == a >> 8 && c == b >> 8 && d == c >> 8
    ensures d == 0
  {
  }

  lemma Extensional(p: bv32, q: bv32)
    requires forall i: nat :: i < 32 ==> Test(p, i) == Test(q, i)
    ensures p == q
  {
    ShrAll(p);
    ShrAll(q);
    ShiftedExtensional(p, q, 32);
  }

  lemma AndBitClear(p: bv32, j: nat, m: bv32, x: bv32, zero: bv32)
    requires j < 32 && m == Bit(j) && x == p & m && zero == 0 && !Test(p, j)
    ensures x == 0
  {
    forall i: nat | i < 32
      ensures Test(x, i) == Test(zero, i)
    {
      TestAnd(p, m, x, i);
      TestBit(j, m, i);
      TestZero(zero, i);
    }
    Extensional(x, zero);
  }

  /** The C idiom `p & (1u << j)` tests bit `j`. */
  lemma AndBit(p: bv32, j: nat, x: bv32)
    requires j < 32 && x == p & Bit(j)
    ensures x != 0 <==> Test(p, j)
  {
    var m := Bit(j);
    TestAnd(p, m, x, j);
    TestBit(j, m, j);
    if x == 0 {
      TestZero(x, j);
    } else if !Test(p, j) {
      AndBitClear(p, j, m, x, 0);
    }
  }
}
