/**
 * The ROM tables hold what they should.  Each entry is checked against eight rounds on bit
 * vectors, and the result is carried over to words bit by bit.
 */
module CrcRoms {
  import opened Words
  import opened CrcBits
  import opened CrcTables
  import opened MbedCrc
  import opened CrcTableMode
  import opened CrcReversed

  const POLY_8BIT_CCITT: bv32 := 0x07
  const POLY_7BIT_SD: bv32 := 0x09
  const POLY_16BIT_CCITT: bv32 := 0x1021
  const POLY_16BIT_IBM: bv32 := 0x8005
  const POLY_32BIT_ANSI: bv32 := 0x04C11DB7
  const POLY_32BIT_REV_ANSI: bv32 := 0xEDB88320

  // ----- rounds on bit vectors

  function BvStep(p: bv32, poly: bv32, top: bv32): bv32 {
    if p & top != 0 then (p << 1) ^ poly else p << 1
  }

  function BvFour(p: bv32, poly: bv32, top: bv32): bv32 {
    BvStep(BvStep(BvStep(BvStep(p, poly, top), poly, top), poly, top), poly, top)
  }

  function BvEight(p: bv32, poly: bv32, top: bv32): bv32 {
    BvFour(BvFour(p, poly, top), poly, top)
  }

  function BvSteps(p: bv32, poly: bv32, top: bv32, n: nat): bv32
    decreases n
  {
    if n == 0 then p else BvStep(BvSteps(p, poly, top, n - 1), poly, top)
  }

  lemma BvStepsAreEight(p: bv32, poly: bv32, top: bv32)
    ensures BvSteps(p, poly, top, ROUNDS) == BvEight(p, poly, top)
  {
    assert BvSteps(p, poly, top, 4) == BvFour(p, poly, top);
    var q := BvSteps(p, poly, top, 4);
    assert BvSteps(p, poly, top, 8) == BvFour(q, poly, top);
  }

  lemma OfXor(p: bv32, q: bv32, x: bv32)
    requires x == p ^ q
    ensures Of(x) == Xor(Of(p), Of(q))
  {
    forall i | 0 <= i < 32
      ensures Of(x)[i] == Xor(Of(p), Of(q))[i]
    {
      TestXor(p, q, x, i);
    }
  }

  lemma OfDbl(p: bv32, d: bv32)
    requires d == p << 1
    ensures Of(d) == Words.Shl(Of(p), 1)
  {
    forall i | 0 <= i < 32
      ensures Of(d)[i] == Words.Shl(Of(p), 1)[i]
    {
      TestDbl(p, d, i);
    }
  }

  lemma OfStep(p: bv32, poly: bv32, j: nat, top: bv32, s: bv32)
    requires j < 32 && top == Bit(j) && s == BvStep(p, poly, top)
    ensures Of(s) == Step(Of(p), Of(poly), j)
  {
    var x := p & top;
    var d := p << 1;
    BvStepCases(p, poly, top, x, d, s);
    AndBit(p, j, x);
    OfShiftOrXor(p, poly, j, d, s);
  }

  lemma OfShiftOrXor(p: bv32, poly: bv32, j: nat, d: bv32, s: bv32)
    requires j < 32 && d == p << 1 && if Test(p, j) then s == d ^ poly else s == d
    ensures Of(s) == Step(Of(p), Of(poly), j)
  {
    OfDbl(p, d);
    if Test(p, j) {
      OfXor(d, poly, s);
    }
  }

  lemma BvStepCases(p: bv32, poly: bv32, top: bv32, x: bv32, d: bv32, s: bv32)
    requires x == p & top && d == p << 1 && s == BvStep(p, poly, top)
    ensures if x != 0 then s == d ^ poly else s == d
  {
  }

  lemma {:induction false} OfSteps(p: bv32, poly: bv32, j: nat, top: bv32, n: nat, s: bv32)
    requires j < 32 && top == Bit(j) && s == BvSteps(p, poly, top, n)
    ensures Of(s) == Steps(Of(p), Of(poly), j, n)
    decreases n
  {
    if n > 0 {
      var q := BvSteps(p, poly, top, n - 1);
      OfSteps(p, poly, j, top, n - 1, q);
      OfStep(q, poly, j, top, s);
    }
  }

  // ----- shifts by whole bytes

  lemma EightDoublings(p: bv32, a: bv32, b: bv32, c: bv32, d: bv32, e: bv32, f: bv32, g: bv32, h: bv32, x: bv32)
    requires a == p << 1 && b == a << 1 && c == b << 1 && d == c << 1
    requires e == d << 1 && f == e << 1 && g == f << 1 && h == g << 1 && x == p << 8
    ensures h == x
  {
  }

  lemma OfShl8(p: bv32, x: bv32)
    requires x == p << 8
    ensures Of(x) == Words.Shl(Of(p), 8)
  {
    var a := p << 1;
    var b := a << 1;
    var c := b << 1;
    var d := c << 1;
    var e := d << 1;
    var f := e << 1;
    var g := f << 1;
    var h := g << 1;
    EightDoublings(p, a, b, c, d, e, f, g, h, x);
    OfDbl(p, a);
    OfDbl(a, b);
    OfDbl(b, c);
    OfDbl(c, d);
    OfDbl(d, e);
    OfDbl(e, f);
    OfDbl(f, g);
    OfDbl(g, h);
    EightShifts(Of(p));
  }

  lemma EightShifts(p: Word)
    ensures Words.Shl(Words.Shl(Words.Shl(Words.Shl(Words.Shl(Words.Shl(Words.Shl(Words.Shl(
              p, 1), 1), 1), 1), 1), 1), 1), 1) == Words.Shl(p, 8)
  {
    ShlShl(p, 1, 1);
    ShlShl(p, 2, 1);
    ShlShl(p, 3, 1);
    ShlShl(p, 4, 1);
    ShlShl(p, 5, 1);
    ShlShl(p, 6, 1);
    ShlShl(p, 7, 1);
  }

  lemma ThreeBytes(p: bv32, a: bv32, b: bv32, x: bv32)
    requires a == p << 8 && b == a << 8 && x == p << 24
    ensures x == b << 8
  {
  }

  lemma OfShl24(p: bv32, x: bv32)
    requires x == p << 24
    ensures Of(x) == Words.Shl(Of(p), 24)
  {
    var a := p << 8;
    var b := a << 8;
    ThreeBytes(p, a, b, x);
    OfShl8(p, a);
    OfShl8(a, b);
    OfShl8(b, x);
    ShlShl(Of(p), 8, 8);
    ShlShl(Of(p), 16, 8);
  }

  // ----- indices

  lemma ByteBits(b: Byte, v: bv32, v1: bv32, v2: bv32, v3: bv32, v4: bv32, v5: bv32, v6: bv32, v7: bv32, v8: bv32)
    requires v == ByteValue(b) && v1 == v >> 1 && v2 == v1 >> 1 && v3 == v2 >> 1 && v4 == v3 >> 1
    requires v5 == v4 >> 1 && v6 == v5 >> 1 && v7 == v6 >> 1 && v8 == v7 >> 1
    ensures Odd(v) == b[0] && Odd(v1) == b[1] && Odd(v2) == b[2] && Odd(v3) == b[3]
    ensures Odd(v4) == b[4] && Odd(v5) == b[5] && Odd(v6) == b[6] && Odd(v7) == b[7] && v8 == 0
  {
  }

  /** The bits of `v`, from the lowest, are `b` and then zeros. */
  predicate BitsAre(v: bv32, b: seq<bool>)
    decreases |b|
  {
    if b == [] then v == 0 else Odd(v) == b[0] && BitsAre(v >> 1, b[1..])
  }

  lemma BitsCons(v: bv32, v': bv32, b: seq<bool>)
    requires v' == v >> 1 && b != [] && Odd(v) == b[0] && BitsAre(v', b[1..])
    ensures BitsAre(v, b)
  {
  }

  lemma {:induction false} TestBitsAre(v: bv32, b: seq<bool>, i: nat)
    requires BitsAre(v, b)
    ensures Test(v, i) == (i < |b| && b[i])
    decreases i
  {
    if b == [] {
      TestZero(v, i);
    } else if i > 0 {
      var v' := v >> 1;
      TestHalf(v, v', i);
      TestBitsAre(v', b[1..], i - 1);
    }
  }

  lemma ByteValueBits(b: Byte, v: bv32)
    requires v == ByteValue(b)
    ensures BitsAre(v, b)
  {
    var v1 := v >> 1;
    var v2 := v1 >> 1;
    var v3 := v2 >> 1;
    var v4 := v3 >> 1;
    var v5 := v4 >> 1;
    var v6 := v5 >> 1;
    var v7 := v6 >> 1;
    var v8 := v7 >> 1;
    ByteBits(b, v, v1, v2, v3, v4, v5, v6, v7, v8);
    assert BitsAre(v8, b[8..]);
    BitsCons(v7, v8, b[7..]);
    BitsCons(v6, v7, b[6..]);
    BitsCons(v5, v6, b[5..]);
    BitsCons(v4, v5, b[4..]);
    BitsCons(v3, v4, b[3..]);
    BitsCons(v2, v3, b[2..]);
    BitsCons(v1, v2, b[1..]);
    BitsCons(v, v1, b);
  }

  lemma OfByteValue(b: Byte)
    ensures Of(ByteValue(b)) == Widen(b)
  {
    var v := ByteValue(b);
    ByteValueBits(b, v);
    forall i | 0 <= i < 32
      ensures Of(v)[i] == Widen(b)[i]
    {
      TestBitsAre(v, b, i);
    }
  }

  // ----- the entries, two rows at a time, each moved to the top of a 32-bit register

  lemma Ansi0(i: bv32)
    requires FullTable(ANSI_32BIT) && i <= 0xff
    ensures i >> 5 == 0 ==> Lookup(ANSI_32BIT, i) == BvEight(i << 24, POLY_32BIT_ANSI, 0x8000_0000)
  {
  }

  lemma Ansi1(i: bv32)
    requires FullTable(ANSI_32BIT) && i <= 0xff
    ensures i >> 5 == 1 ==> Lookup(ANSI_32BIT, i) == BvEight(i << 24, POLY_32BIT_ANSI, 0x8000_0000)
  {
  }

  lemma Ansi2(i: bv32)
    requires FullTable(ANSI_32BIT) && i <= 0xff
    ensures i >> 5 == 2 ==> Lookup(ANSI_32BIT, i) == BvEight(i << 24, POLY_32BIT_ANSI, 0x8000_0000)
  {
  }

  lemma Ansi3(i: bv32)
    requires FullTable(ANSI_32BIT) && i <= 0xff
    ensures i >> 5 == 3 ==> Lookup(ANSI_32BIT, i) == BvEight(i << 24, POLY_32BIT_ANSI, 0x8000_0000)
  {
  }

  lemma Ansi4(i: bv32)
    requires FullTable(ANSI_32BIT) && i <= 0xff
    ensures i >> 5 == 4 ==> Lookup(ANSI_32BIT, i) == BvEight(i << 24, POLY_32BIT_ANSI, 0x8000_0000)
  {
  }

  lemma Ansi5(i: bv32)
    requires FullTable(ANSI_32BIT) && i <= 0xff
    ensures i >> 5 == 5 ==> Lookup(ANSI_32BIT, i) == BvEight(i << 24, POLY_32BIT_ANSI, 0x8000_0000)
  {
  }

  lemma Ansi6(i: bv32)
    requires FullTable(ANSI_32BIT) && i <= 0xff
    ensures i >> 5 == 6 ==> Lookup(ANSI_32BIT, i) == BvEight(i << 24, POLY_32BIT_ANSI, 0x8000_0000)
  {
  }

  lemma Ansi7(i: bv32)
    requires FullTable(ANSI_32BIT) && i <= 0xff
    ensures i >> 5 == 7 ==> Lookup(ANSI_32BIT, i) == BvEight(i << 24, POLY_32BIT_ANSI, 0x8000_0000)
  {
  }

  lemma Ccitt160(i: bv32)
    requires FullTable(CCITT_16BIT) && i <= 0xff
    ensures i >> 5 == 0 ==> Lookup(CCITT_16BIT, i) << 16 == BvEight(i << 24, 0x1021_0000, 0x8000_0000)
  {
  }

  lemma Ccitt161(i: bv32)
    requires FullTable(CCITT_16BIT) && i <= 0xff
    ensures i >> 5 == 1 ==> Lookup(CCITT_16BIT, i) << 16 == BvEight(i << 24, 0x1021_0000, 0x8000_0000)
  {
  }

  lemma Ccitt162(i: bv32)
    requires FullTable(CCITT_16BIT) && i <= 0xff
    ensures i >> 5 == 2 ==> Lookup(CCITT_16BIT, i) << 16 == BvEight(i << 24, 0x1021_0000, 0x8000_0000)
  {
  }

  lemma Ccitt163(i: bv32)
    requires FullTable(CCITT_16BIT) && i <= 0xff
    ensures i >> 5 == 3 ==> Lookup(CCITT_16BIT, i) << 16 == BvEight(i << 24, 0x1021_0000, 0x8000_0000)
  {
  }

  lemma Ccitt164(i: bv32)
    requires FullTable(CCITT_16BIT) && i <= 0xff
    ensures i >> 5 == 4 ==> Lookup(CCITT_16BIT, i) << 16 == BvEight(i << 24, 0x1021_0000, 0x8000_0000)
  {
  }

  lemma Ccitt165(i: bv32)
    requires FullTable(CCITT_16BIT) && i <= 0xff
    ensures i >> 5 == 5 ==> Lookup(CCITT_16BIT, i) << 16 == BvEight(i << 24, 0x1021_0000, 0x8000_0000)
  {
  }

  lemma Ccitt166(i: bv32)
    requires FullTable(CCITT_16BIT) && i <= 0xff
    ensures i >> 5 == 6 ==> Lookup(CCITT_16BIT, i) << 16 == BvEight(i << 24, 0x1021_0000, 0x8000_0000)
  {
  }

  lemma Ccitt167(i: bv32)
    requires FullTable(CCITT_16BIT) && i <= 0xff
    ensures i >> 5 == 7 ==> Lookup(CCITT_16BIT, i) << 16 == BvEight(i << 24, 0x1021_0000, 0x8000_0000)
  {
  }

  lemma Ccitt80(i: bv32)
    requires FullTable(CCITT_8BIT) && i <= 0xff
    ensures i >> 5 == 0 ==> Lookup(CCITT_8BIT, i) << 24 == BvEight(i << 24, 0x0700_0000, 0x8000_0000)
  {
  }

  lemma Ccitt81(i: bv32)
    requires FullTable(CCITT_8BIT) && i <= 0xff
    ensures i >> 5 == 1 ==> Lookup(CCITT_8BIT, i) << 24 == BvEight(i << 24, 0x0700_0000, 0x8000_0000)
  {
  }

  lemma Ccitt82(i: bv32)
    requires FullTable(CCITT_8BIT) && i <= 0xff
    ensures i >> 5 == 2 ==> Lookup(CCITT_8BIT, i) << 24 == BvEight(i << 24, 0x0700_0000, 0x8000_0000)
  {
  }

  lemma Ccitt83(i: bv32)
    requires FullTable(CCITT_8BIT) && i <= 0xff
    ensures i >> 5 == 3 ==> Lookup(CCITT_8BIT, i) << 24 == BvEight(i << 24, 0x0700_0000, 0x8000_0000)
  {
  }

  lemma Ccitt84(i: bv32)
    requires FullTable(CCITT_8BIT) && i <= 0xff
    ensures i >> 5 == 4 ==> Lookup(CCITT_8BIT, i) << 24 == BvEight(i << 24, 0x0700_0000, 0x8000_0000)
  {
  }

  lemma Ccitt85(i: bv32)
    requires FullTable(CCITT_8BIT) && i <= 0xff
    ensures i >> 5 == 5 ==> Lookup(CCITT_8BIT, i) << 24 == BvEight(i << 24, 0x0700_0000, 0x8000_0000)
  {
  }

  lemma Ccitt86(i: bv32)
    requires FullTable(CCITT_8BIT) && i <= 0xff
    ensures i >> 5 == 6 ==> Lookup(CCITT_8BIT, i) << 24 == BvEight(i << 24, 0x0700_0000, 0x8000_0000)
  {
  }

  lemma Ccitt87(i: bv32)
    requires FullTable(CCITT_8BIT) && i <= 0xff
    ensures i >> 5 == 7 ==> Lookup(CCITT_8BIT, i) << 24 == BvEight(i << 24, 0x0700_0000, 0x8000_0000)
  {
  }

  lemma Sd0(i: bv32)
    requires FullTable(SD_7BIT) && i <= 0xff
    ensures i >> 5 == 0 ==> Lookup(SD_7BIT, i) << 24 == BvEight(i << 24, 0x1200_0000, 0x8000_0000)
  {
  }

  lemma Sd1(i: bv32)
    requires FullTable(SD_7BIT) && i <= 0xff
    ensures i >> 5 == 1 ==> Lookup(SD_7BIT, i) << 24 == BvEight(i << 24, 0x1200_0000, 0x8000_0000)
  {
  }

  lemma Sd2(i: bv32)
    requires FullTable(SD_7BIT) && i <= 0xff
    ensures i >> 5 == 2 ==> Lookup(SD_7BIT, i) << 24 == BvEight(i << 24, 0x1200_0000, 0x8000_0000)
  {
  }

  lemma Sd3(i: bv32)
    requires FullTable(SD_7BIT) && i <= 0xff
    ensures i >> 5 == 3 ==> Lookup(SD_7BIT, i) << 24 == BvEight(i << 24, 0x1200_0000, 0x8000_0000)
  {
  }

  lemma Sd4(i: bv32)
    requires FullTable(SD_7BIT) && i <= 0xff
    ensures i >> 5 == 4 ==> Lookup(SD_7BIT, i) << 24 == BvEight(i << 24, 0x1200_0000, 0x8000_0000)
  {
  }

  lemma Sd5(i: bv32)
    requires FullTable(SD_7BIT) && i <= 0xff
    ensures i >> 5 == 5 ==> Lookup(SD_7BIT, i) << 24 == BvEight(i << 24, 0x1200_0000, 0x8000_0000)
  {
  }

  lemma Sd6(i: bv32)
    requires FullTable(SD_7BIT) && i <= 0xff
    ensures i >> 5 == 6 ==> Lookup(SD_7BIT, i) << 24 == BvEight(i << 24, 0x1200_0000, 0x8000_0000)
  {
  }

  lemma Sd7(i: bv32)
    requires FullTable(SD_7BIT) && i <= 0xff
    ensures i >> 5 == 7 ==> Lookup(SD_7BIT, i) << 24 == BvEight(i << 24, 0x1200_0000, 0x8000_0000)
  {
  }

  lemma Ibm0(i: bv32)
    requires FullTable(IBM_16BIT) && i <= 0xff
    ensures i >> 5 == 0 ==> Lookup(IBM_16BIT, i) << 16 == BvEight(i << 24, 0x8005_0000, 0x8000_0000)
  {
  }

  lemma Ibm1(i: bv32)
    requires FullTable(IBM_16BIT) && i <= 0xff
    ensures i >> 5 == 1 ==> Lookup(IBM_16BIT, i) << 16 == BvEight(i << 24, 0x8005_0000, 0x8000_0000)
  {
  }

  lemma Ibm2(i: bv32)
    requires FullTable(IBM_16BIT) && i <= 0xff
    ensures i >> 5 == 2 ==> Lookup(IBM_16BIT, i) << 16 == BvEight(i << 24, 0x8005_0000, 0x8000_0000)
  {
  }

  lemma Ibm3(i: bv32)
    requires FullTable(IBM_16BIT) && i <= 0xff
    ensures i >> 5 == 3 ==> Lookup(IBM_16BIT, i) << 16 == BvEight(i << 24, 0x8005_0000, 0x8000_0000)
  {
  }

  lemma Ibm4(i: bv32)
    requires FullTable(IBM_16BIT) && i <= 0xff
    ensures i >> 5 == 4 ==> Lookup(IBM_16BIT, i) << 16 == BvEight(i << 24, 0x8005_0000, 0x8000_0000)
  {
  }

  lemma Ibm5(i: bv32)
    requires FullTable(IBM_16BIT) && i <= 0xff
    ensures i >> 5 == 5 ==> Lookup(IBM_16BIT, i) << 16 == BvEight(i << 24, 0x8005_0000, 0x8000_0000)
  {
  }

  lemma Ibm6(i: bv32)
    requires FullTable(IBM_16BIT) && i <= 0xff
    ensures i >> 5 == 6 ==> Lookup(IBM_16BIT, i) << 16 == BvEight(i << 24, 0x8005_0000, 0x8000_0000)
  {
  }

  lemma Ibm7(i: bv32)
    requires FullTable(IBM_16BIT) && i <= 0xff
    ensures i >> 5 == 7 && i < 252 ==> Lookup(IBM_16BIT, i) << 16 == BvEight(i << 24, 0x8005_0000, 0x8000_0000)
  {
  }

  lemma IbmMissing(i: bv32, y: bv32)
    requires FullTable(IBM_16BIT) && 252 <= i <= 0xff && y == BvEight(i << 24, 0x8005_0000, 0x8000_0000)
    ensures Lookup(IBM_16BIT, i) == 0 && y != 0
  {
  }

  // ----- the entries on words

  lemma Bit31() ensures Bit(31) == 0x8000_0000 {}

  /** Eight rounds on the byte `b` in the top of the register. */
  lemma TopRounds(b: Byte, v: bv32, poly: bv32, s: bv32)
    requires v == ByteValue(b) && s == BvEight(v << 24, poly, 0x8000_0000)
    ensures Of(s) == Steps(Words.Shl(Widen(b), 24), Of(poly), 31, ROUNDS)
  {
    var u := v << 24;
    OfByteValue(b);
    OfShl24(v, u);
    Bit31();
    BvStepsAreEight(u, poly, 0x8000_0000);
    OfSteps(u, poly, 31, 0x8000_0000, ROUNDS, s);
  }

  /** Moving the register up by `k` moves every round up by `k`. */
  lemma {:induction false} StepsMoved(p: Word, poly: Word, k: nat, n: nat)
    requires k <= 31
    ensures Steps(Words.Shl(p, k), Words.Shl(poly, k), 31, n) == Words.Shl(Steps(p, poly, 31 - k, n), k)
    decreases n
  {
    if n > 0 {
      StepsMoved(p, poly, k, n - 1);
      StepMoved(Steps(p, poly, 31 - k, n - 1), poly, k);
    }
  }

  lemma StepMoved(q: Word, poly: Word, k: nat)
    requires k <= 31
    ensures Step(Words.Shl(q, k), Words.Shl(poly, k), 31) == Words.Shl(Step(q, poly, 31 - k), k)
  {
    ShlShl(q, k, 1);
    ShlShl(q, 1, k);
    ShlXor(Words.Shl(q, 1), poly, k);
  }

  lemma MovedBack(p: Word, q: Word, k: nat)
    requires k <= 32
    ensures Words.Shl(p, k) == Words.Shl(q, k) <==> Low(p, 32 - k) == Low(q, 32 - k)
  {
    if Words.Shl(p, k) == Words.Shl(q, k) {
      forall i | 0 <= i < 32 - k
        ensures p[i] == q[i]
      {
        assert Words.Shl(p, k)[i + k] == Words.Shl(q, k)[i + k];
      }
      LowFromBits(p, q, 32 - k);
    }
    if Low(p, 32 - k) == Low(q, 32 - k) {
      SameLow(p, q, 32 - k);
    }
  }

  lemma RemainderMoved(b: Byte, poly: Word, w: nat)
    requires 8 <= w <= 32
    ensures Steps(Words.Shl(Widen(b), 24), Words.Shl(poly, 32 - w), 31, ROUNDS)
            == Words.Shl(ByteRemainder(b, poly, w), 32 - w)
  {
    var p := Words.Shl(Widen(b), w - 8);
    ShlTwice(Widen(b), w - 8, 32 - w, 24);
    MovedUp(p, Words.Shl(Widen(b), 24), poly, 32 - w, w - 1, ROUNDS);
  }

  lemma ShlTwice(p: Word, m: nat, n: nat, k: nat)
    requires k == m + n
    ensures Words.Shl(Words.Shl(p, m), n) == Words.Shl(p, k)
  {
    ShlShl(p, m, n);
  }

  lemma MovedUp(p: Word, start: Word, poly: Word, k: nat, top: nat, n: nat)
    requires k <= 31 && top == 31 - k && start == Words.Shl(p, k)
    ensures Steps(start, Words.Shl(poly, k), 31, n) == Words.Shl(Steps(p, poly, top, n), k)
  {
    StepsMoved(p, poly, k, n);
  }

  /** An entry is the remainder of its index when, moved up, it equals eight rounds up there. */
  lemma EntryFromTop(t: Table, b: Byte, poly: Word, w: nat, e: Word)
    requires FullTable(t) && 8 <= w <= 32 && e == Entry(t, b)
    ensures Words.Shl(e, 32 - w) == Steps(Words.Shl(Widen(b), 24), Words.Shl(poly, 32 - w), 31, ROUNDS)
            <==> EntryIsRemainder(t, b, poly, w)
  {
    RemainderMoved(b, poly, w);
    MovedBack(e, ByteRemainder(b, poly, w), 32 - w);
  }

  lemma OfShl16(p: bv32, x: bv32)
    requires x == p << 16
    ensures Of(x) == Words.Shl(Of(p), 16)
  {
    var a := p << 8;
    TwoBytes(p, a, x);
    OfShl8(p, a);
    OfShl8(a, x);
    ShlShl(Of(p), 8, 8);
  }

  lemma TwoBytes(p: bv32, a: bv32, x: bv32)
    requires a == p << 8 && x == p << 16
    ensures x == a << 8
  {
  }

  /** Every entry, moved to the top of a 32-bit register, is what eight rounds leave of its index. */
  ghost predicate FullRows(t: Table, moved: bv32) {
    FullTable(t) && forall i: bv32 :: i <= 0xff ==> Lookup(t, i) == BvEight(i << 24, moved, 0x8000_0000)
  }

  /** The same, but for the last four entries if they are `missing`. */
  ghost predicate WideRows(t: Table, moved: bv32, missing: bool) {
    && FullTable(t)
    && forall i: bv32 :: i <= 0xff && !(missing && i >= 252) ==>
         Lookup(t, i) << 16 == BvEight(i << 24, moved, 0x8000_0000)
  }

  ghost predicate ShortRows(t: Table, moved: bv32) {
    FullTable(t) && forall i: bv32 :: i <= 0xff ==> Lookup(t, i) << 24 == BvEight(i << 24, moved, 0x8000_0000)
  }

  lemma FullEntry(t: Table, b: Byte, moved: bv32)
    requires FullRows(t, moved)
    ensures EntryIsRemainder(t, b, Of(moved), 32)
  {
    TopRounds(b, ByteValue(b), moved, Lookup(t, ByteValue(b)));
  }

  lemma WideEntry(t: Table, b: Byte, v: bv32, moved: bv32, missing: bool, poly: Word)
    requires v == ByteValue(b) && !(missing && v >= 252)
    requires WideRows(t, moved, missing) && Of(moved) == Words.Shl(poly, 16)
    ensures EntryIsRemainder(t, b, poly, 16)
  {
    var x := Lookup(t, v);
    WideEntryRounds(t, b, v, x, x << 16, moved, poly);
  }

  lemma WideEntryRounds(t: Table, b: Byte, v: bv32, x: bv32, y: bv32, moved: bv32, poly: Word)
    requires FullTable(t) && v == ByteValue(b) && x == Lookup(t, v) && y == x << 16
    requires y == BvEight(v << 24, moved, 0x8000_0000) && Of(moved) == Words.Shl(poly, 16)
    ensures EntryIsRemainder(t, b, poly, 16)
  {
    TopRounds(b, v, moved, y);
    OfShl16(x, y);
    EntryFromTop(t, b, poly, 16, Of(x));
  }

  lemma ShortEntry(t: Table, b: Byte, moved: bv32, poly: Word)
    requires ShortRows(t, moved) && Of(moved) == Words.Shl(poly, 24)
    ensures EntryIsRemainder(t, b, poly, 8)
  {
    var x := Lookup(t, ByteValue(b));
    var y := x << 24;
    TopRounds(b, ByteValue(b), moved, y);
    OfShl24(x, y);
    EntryFromTop(t, b, poly, 8, Of(x));
  }

  lemma AnsiRows()
    requires FullTable(ANSI_32BIT)
    ensures FullRows(ANSI_32BIT, POLY_32BIT_ANSI)
  {
    forall i: bv32 | i <= 0xff
      ensures Lookup(ANSI_32BIT, i) == BvEight(i << 24, POLY_32BIT_ANSI, 0x8000_0000)
    {
      Ansi0(i);
      Ansi1(i);
      Ansi2(i);
      Ansi3(i);
      Ansi4(i);
      Ansi5(i);
      Ansi6(i);
      Ansi7(i);
    }
  }

  lemma Ccitt16Rows()
    requires FullTable(CCITT_16BIT)
    ensures WideRows(CCITT_16BIT, 0x1021_0000, false)
  {
    forall i: bv32 | i <= 0xff
      ensures Lookup(CCITT_16BIT, i) << 16 == BvEight(i << 24, 0x1021_0000, 0x8000_0000)
    {
      Ccitt160(i);
      Ccitt161(i);
      Ccitt162(i);
      Ccitt163(i);
      Ccitt164(i);
      Ccitt165(i);
      Ccitt166(i);
      Ccitt167(i);
    }
  }

  lemma Ccitt8Rows()
    requires FullTable(CCITT_8BIT)
    ensures ShortRows(CCITT_8BIT, 0x0700_0000)
  {
    forall i: bv32 | i <= 0xff
      ensures Lookup(CCITT_8BIT, i) << 24 == BvEight(i << 24, 0x0700_0000, 0x8000_0000)
    {
      Ccitt80(i);
      Ccitt81(i);
      Ccitt82(i);
      Ccitt83(i);
      Ccitt84(i);
      Ccitt85(i);
      Ccitt86(i);
      Ccitt87(i);
    }
  }

  lemma SdRows()
    requires FullTable(SD_7BIT)
    ensures ShortRows(SD_7BIT, 0x1200_0000)
  {
    forall i: bv32 | i <= 0xff
      ensures Lookup(SD_7BIT, i) << 24 == BvEight(i << 24, 0x1200_0000, 0x8000_0000)
    {
      Sd0(i);
      Sd1(i);
      Sd2(i);
      Sd3(i);
      Sd4(i);
      Sd5(i);
      Sd6(i);
      Sd7(i);
    }
  }

  lemma IbmRows()
    requires FullTable(IBM_16BIT)
    ensures WideRows(IBM_16BIT, 0x8005_0000, true)
  {
    forall i: bv32 | i < 252
      ensures Lookup(IBM_16BIT, i) << 16 == BvEight(i << 24, 0x8005_0000, 0x8000_0000)
    {
      Ibm0(i);
      Ibm1(i);
      Ibm2(i);
      Ibm3(i);
      Ibm4(i);
      Ibm5(i);
      Ibm6(i);
      Ibm7(i);
    }
  }

  lemma FullIsByteTable(t: Table, moved: bv32)
    requires FullRows(t, moved)
    ensures IsByteTable(t, Of(moved), 32)
  {
    forall b: Byte
      ensures EntryIsRemainder(t, b, Of(moved), 32)
    {
      FullEntry(t, b, moved);
    }
  }

  lemma WideIsByteTable(t: Table, moved: bv32, poly: Word)
    requires WideRows(t, moved, false) && Of(moved) == Words.Shl(poly, 16)
    ensures IsByteTable(t, poly, 16)
  {
    forall b: Byte
      ensures EntryIsRemainder(t, b, poly, 16)
    {
      WideEntry(t, b, ByteValue(b), moved, false, poly);
    }
  }

  lemma ShortIsByteTable(t: Table, moved: bv32, poly: Word)
    requires ShortRows(t, moved) && Of(moved) == Words.Shl(poly, 24)
    ensures IsByteTable(t, poly, 8)
  {
    forall b: Byte
      ensures EntryIsRemainder(t, b, poly, 8)
    {
      ShortEntry(t, b, moved, poly);
    }
  }

  /** The four default tables without gaps are tables of remainders. */
  lemma TablesHoldRemainders()
    ensures IsByteTable(ANSI_32BIT, Of(POLY_32BIT_ANSI), 32)
    ensures IsByteTable(CCITT_16BIT, Of(POLY_16BIT_CCITT), 16)
    ensures IsByteTable(CCITT_8BIT, Of(POLY_8BIT_CCITT), 8)
    ensures IsByteTable(SD_7BIT, Words.Shl(Of(POLY_7BIT_SD), 1), 8)
  {
    TablesAreFull();
    AnsiRows();
    FullIsByteTable(ANSI_32BIT, POLY_32BIT_ANSI);
    Ccitt16Rows();
    OfShl16(POLY_16BIT_CCITT, 0x1021_0000);
    WideIsByteTable(CCITT_16BIT, 0x1021_0000, Of(POLY_16BIT_CCITT));
    Ccitt8Rows();
    OfShl24(POLY_8BIT_CCITT, 0x0700_0000);
    ShortIsByteTable(CCITT_8BIT, 0x0700_0000, Of(POLY_8BIT_CCITT));
    SdRows();
    OfDbl(POLY_7BIT_SD, 0x12);
    OfShl24(0x12, 0x1200_0000);
    ShortIsByteTable(SD_7BIT, 0x1200_0000, Of(0x12));
  }

  // ----- the IBM table, whose last four entries are missing

  /** Is `b` one of the indices 252 to 255? */
  predicate Missing(b: Byte) { b[2] && b[3] && b[4] && b[5] && b[6] && b[7] }

  lemma MissingValue(b: Byte, v: bv32)
    requires v == ByteValue(b)
    ensures Missing(b) <==> v >= 252
  {
  }

  lemma IbmEntryIsRemainder(b: Byte)
    requires FullTable(IBM_16BIT)
    ensures EntryIsRemainder(IBM_16BIT, b, Of(POLY_16BIT_IBM), 16) <==> !Missing(b)
  {
    var v := ByteValue(b);
    MissingValue(b, v);
    OfShl16(POLY_16BIT_IBM, 0x8005_0000);
    if Missing(b) {
      IbmWrong(b, v);
    } else {
      IbmRows();
      WideEntry(IBM_16BIT, b, v, 0x8005_0000, true, Of(POLY_16BIT_IBM));
    }
  }

  lemma IbmWrong(b: Byte, v: bv32)
    requires FullTable(IBM_16BIT) && v == ByteValue(b) && v >= 252
    requires Of(0x8005_0000) == Words.Shl(Of(POLY_16BIT_IBM), 16)
    ensures !EntryIsRemainder(IBM_16BIT, b, Of(POLY_16BIT_IBM), 16)
  {
    var y := BvEight(v << 24, 0x8005_0000, 0x8000_0000);
    IbmMissing(v, y);
    TopRounds(b, v, 0x8005_0000, y);
    var x := Lookup(IBM_16BIT, v);
    ZeroWord(x);
    if EntryIsRemainder(IBM_16BIT, b, Of(POLY_16BIT_IBM), 16) {
      EntryFromTop(IBM_16BIT, b, Of(POLY_16BIT_IBM), 16, Of(x));
      ZeroFromBits(y);
    }
  }

  lemma ZeroWord(z: bv32)
    requires z == 0
    ensures Of(z) == ZERO
  {
    forall i | 0 <= i < 32
      ensures Of(z)[i] == ZERO[i]
    {
      TestZero(z, i);
    }
  }

  lemma ZeroFromBits(x: bv32)
    requires forall i :: 0 <= i < 32 ==> !Of(x)[i]
    ensures x == 0
  {
    var z: bv32 := 0;
    forall i: nat | i < 32
      ensures Test(x, i) == Test(z, i)
    {
      assert !Of(x)[i];
      TestZero(z, i);
    }
    Extensional(x, z);
  }

  // ----- the sixteen-entry table

  function BvBackStep(p: bv32, rev: bv32): bv32 {
    if p & 1 != 0 then (p >> 1) ^ rev else p >> 1
  }

  lemma NibbleEntry(i: bv32)
    requires i <= 15
    ensures REV_ANSI_32BIT[i as nat] ==
            BvBackStep(BvBackStep(BvBackStep(BvBackStep(i, POLY_32BIT_REV_ANSI), POLY_32BIT_REV_ANSI),
                                  POLY_32BIT_REV_ANSI), POLY_32BIT_REV_ANSI)
  {
  }

  lemma {:induction false} TestOfShr(p: bv32, n: nat)
    ensures Test(p, n) == Odd(CrcBits.Shr(p, n))
    decreases n
  {
    if n > 0 {
      var h := p >> 1;
      TestHalf(p, h, n);
      TestOfShr(h, n - 1);
    }
  }

  lemma OfHalf(p: bv32, h: bv32)
    requires h == p >> 1
    ensures Of(h) == Words.Shr(Of(p), 1)
  {
    TestOfShr(p, 32);
    ShrAll(p);
    forall i | 0 <= i < 32
      ensures Of(h)[i] == Words.Shr(Of(p), 1)[i]
    {
      TestHalf(p, h, i + 1);
    }
  }

  lemma BackStepCases(p: bv32, rev: bv32, h: bv32, s: bv32)
    requires h == p >> 1 && s == BvBackStep(p, rev)
    ensures if Odd(p) then s == h ^ rev else s == h
  {
  }

  lemma OfBackStep(p: bv32, rev: bv32, s: bv32)
    requires s == BvBackStep(p, rev)
    ensures Of(s) == BackStep(Of(p), Of(rev))
  {
    var h := p >> 1;
    BackStepCases(p, rev, h, s);
    OfShrOrXor(p, rev, h, s);
  }

  lemma OfShrOrXor(p: bv32, rev: bv32, h: bv32, s: bv32)
    requires h == p >> 1 && if Odd(p) then s == h ^ rev else s == h
    ensures Of(s) == BackStep(Of(p), Of(rev))
  {
    OfHalf(p, h);
    assert Of(p)[0] == Odd(p);
    if Odd(p) {
      OfXor(h, rev, s);
    }
  }

  lemma FourBackSteps(p: Word, rev: Word)
    ensures BackSteps(p, rev, 4) == BackStep(BackStep(BackStep(BackStep(p, rev), rev), rev), rev)
  {
    assert BackSteps(p, rev, 1) == BackStep(p, rev);
    assert BackSteps(p, rev, 2) == BackStep(BackSteps(p, rev, 1), rev);
    assert BackSteps(p, rev, 3) == BackStep(BackSteps(p, rev, 2), rev);
  }

  lemma NibbleBits(b0: bool, b1: bool, b2: bool, b3: bool, v: bv32, v1: bv32, v2: bv32, v3: bv32, v4: bv32)
    requires v == NibbleValue(b0, b1, b2, b3) && v1 == v >> 1 && v2 == v1 >> 1 && v3 == v2 >> 1 && v4 == v3 >> 1
    ensures Odd(v) == b0 && Odd(v1) == b1 && Odd(v2) == b2 && Odd(v3) == b3 && v4 == 0
  {
  }

  lemma OfNibbleValue(p: Word, v: bv32)
    requires v == NibbleValue(p[0], p[1], p[2], p[3])
    ensures Of(v) == Low(p, 4)
  {
    var v1 := v >> 1;
    var v2 := v1 >> 1;
    var v3 := v2 >> 1;
    var v4 := v3 >> 1;
    NibbleBits(p[0], p[1], p[2], p[3], v, v1, v2, v3, v4);
    var b := p[..4];
    var b1, b2, b3, b4 := b[1..], b[2..], b[3..], b[4..];
    assert b3[1..] == b4 && b2[1..] == b3 && b1[1..] == b2 && b[1..] == b1;
    assert BitsAre(v4, b4);
    BitsCons(v3, v4, b3);
    BitsCons(v2, v3, b2);
    BitsCons(v1, v2, b1);
    BitsCons(v, v1, b);
    forall i | 0 <= i < 32
      ensures Of(v)[i] == Low(p, 4)[i]
    {
      TestBitsAre(v, b, i);
    }
  }

  lemma RevEntryIsRemainder(p: Word)
    ensures NibbleIsRemainder(REV_ANSI_32BIT, p, Of(POLY_32BIT_REV_ANSI))
  {
    var v := NibbleValue(p[0], p[1], p[2], p[3]);
    OfNibbleValue(p, v);
    NibbleEntry(v);
    var a := BvBackStep(v, POLY_32BIT_REV_ANSI);
    var b := BvBackStep(a, POLY_32BIT_REV_ANSI);
    var c := BvBackStep(b, POLY_32BIT_REV_ANSI);
    var d := BvBackStep(c, POLY_32BIT_REV_ANSI);
    OfBackStep(v, POLY_32BIT_REV_ANSI, a);
    OfBackStep(a, POLY_32BIT_REV_ANSI, b);
    OfBackStep(b, POLY_32BIT_REV_ANSI, c);
    OfBackStep(c, POLY_32BIT_REV_ANSI, d);
    FourBackSteps(Low(p, 4), Of(POLY_32BIT_REV_ANSI));
  }

  lemma RevIsNibbleTable()
    ensures IsNibbleTable(REV_ANSI_32BIT, Of(POLY_32BIT_REV_ANSI))
  {
    forall p: Word
      ensures NibbleIsRemainder(REV_ANSI_32BIT, p, Of(POLY_32BIT_REV_ANSI))
    {
      RevEntryIsRemainder(p);
    }
  }

  // ----- the two CRC-32 polynomials are mirror images

  lemma FourBits(v: bv32, v': bv32, low: seq<bool>, high: seq<bool>) returns (b: seq<bool>)
    requires v' == v >> 4 && |low| == 4 && BitsAre(v', high)
    requires low[0] == (v & 1 != 0) && low[1] == (v & 2 != 0) && low[2] == (v & 4 != 0) && low[3] == (v & 8 != 0)
    ensures b == low + high && BitsAre(v, b)
  {
    b := low + high;
    var v1 := v >> 1;
    var v2 := v1 >> 1;
    var v3 := v2 >> 1;
    FourOdds(v, v1, v2, v3, v');
    assert b[4..] == high;
    BitsCons(v3, v', b[3..]);
    BitsCons(v2, v3, b[2..]);
    BitsCons(v1, v2, b[1..]);
    BitsCons(v, v1, b);
  }

  lemma FourOdds(v: bv32, v1: bv32, v2: bv32, v3: bv32, v': bv32)
    requires v1 == v >> 1 && v2 == v1 >> 1 && v3 == v2 >> 1 && v' == v >> 4
    ensures Odd(v) == (v & 1 != 0) && Odd(v1) == (v & 2 != 0) && Odd(v2) == (v & 4 != 0) && Odd(v3) == (v & 8 != 0)
    ensures v' == v3 >> 1
  {
  }

  const REV_ANSI_BITS: seq<bool> :=
    [false, false, false, false] + ([false, true, false, false] + ([true, true, false, false] +
    ([false, false, false, true] + ([false, false, false, true] + ([true, true, false, true] +
    ([true, false, true, true] + ([false, true, true, true] + [])))))))

  const ANSI_BITS: seq<bool> :=
    [true, true, true, false] + ([true, true, false, true] + ([true, false, true, true] +
    ([true, false, false, false] + ([true, false, false, false] + ([false, false, true, true] +
    ([false, false, true, false] + ([false, false, false, false] + [])))))))

  lemma RevAnsiBits() returns (b: seq<bool>)
    ensures b == REV_ANSI_BITS && BitsAre(POLY_32BIT_REV_ANSI, b)
  {
    b := [];
    b := FourBits(0xe, 0x0, [false, true, true, true], b);
    b := FourBits(0xed, 0xe, [true, false, true, true], b);
    b := FourBits(0xedb, 0xed, [true, true, false, true], b);
    b := FourBits(0xedb8, 0xedb, [false, false, false, true], b);
    b := FourBits(0xedb88, 0xedb8, [false, false, false, true], b);
    b := FourBits(0xedb883, 0xedb88, [true, true, false, false], b);
    b := FourBits(0xedb8832, 0xedb883, [false, true, false, false], b);
    b := FourBits(0xedb88320, 0xedb8832, [false, false, false, false], b);
  }

  lemma AnsiBits() returns (b: seq<bool>)
    ensures b == ANSI_BITS && BitsAre(POLY_32BIT_ANSI, b)
  {
    b := [];
    b := FourBits(0x0, 0x0, [false, false, false, false], b);
    b := FourBits(0x4, 0x0, [false, false, true, false], b);
    b := FourBits(0x4c, 0x4, [false, false, true, true], b);
    b := FourBits(0x4c1, 0x4c, [true, false, false, false], b);
    b := FourBits(0x4c11, 0x4c1, [true, false, false, false], b);
    b := FourBits(0x4c11d, 0x4c11, [true, false, true, true], b);
    b := FourBits(0x4c11db, 0x4c11d, [true, true, false, true], b);
    b := FourBits(0x4c11db7, 0x4c11db, [true, true, true, false], b);
  }

  lemma MirroredBits()
    ensures |ANSI_BITS| == 32 && |REV_ANSI_BITS| == 32
    ensures forall i :: 0 <= i < 32 ==> ANSI_BITS[i] == REV_ANSI_BITS[31 - i]
  {
  }

  lemma PolynomialsMirror()
    ensures Of(POLY_32BIT_ANSI) == Reflect(Of(POLY_32BIT_REV_ANSI), 32)
  {
    var r := RevAnsiBits();
    var a := AnsiBits();
    MirroredBits();
    MirrorFromBits(POLY_32BIT_ANSI, a, POLY_32BIT_REV_ANSI, r);
  }

  lemma MirrorFromBits(x: bv32, a: seq<bool>, y: bv32, r: seq<bool>)
    requires |a| == 32 && |r| == 32 && BitsAre(x, a) && BitsAre(y, r)
    requires forall i :: 0 <= i < 32 ==> a[i] == r[31 - i]
    ensures Of(x) == Reflect(Of(y), 32)
  {
    forall i | 0 <= i < 32
      ensures Of(x)[i] == Reflect(Of(y), 32)[i]
    {
      TestBitsAre(x, a, i);
      TestBitsAre(y, r, 31 - i);
    }
  }
}
