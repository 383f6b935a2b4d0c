/**
 * The bit-by-bit CRC is polynomial division: the register always holds the remainder of what
 * has been read so far, for every message, start value, polynomial and width.
 */
module CrcDivision {
  import opened Words
  import opened Gf2
  import opened MbedCrc

  /** The polynomial in the low `w` bits of a word. */
  function Register(p: Word, w: nat): (r: Poly)
    requires w <= 32
    ensures forall e: nat :: e in r <==> e < w && p[e]
  {
    set e: nat | e < w && p[e]
  }

  /** The divisor of degree `w` whose lower coefficients are the bits of `poly`. */
  function Generator(poly: Word, w: nat): Poly
    requires w <= 32
  {
    {w} + Register(poly, w)
  }

  /** The bytes of a message as one polynomial, the first byte highest. */
  ghost function Message(c: Config, data: seq<Byte>): Poly {
    if data == [] then {}
    else Add(Raise(Message(c, data[..|data| - 1]), 8), Register(ReflectBytes(c, data[|data| - 1]), 8))
  }

  /** What is divided: the message times `x^w`, with the start value put on its first bits. */
  ghost function Dividend(c: Config, start: Word, data: seq<Byte>): Poly
    requires ValidWidth(c.width)
  {
    Add(Raise(Register(start, c.width), 8 * |data|), Raise(Message(c, data), c.width))
  }

  lemma ShiftedCoefficient(m: Poly, d: Word, e: nat)
    ensures e in Add(Raise(m, 8), Register(d, 8)) <==> if e >= 8 then e - 8 in m else d[e]
  {
  }

  lemma EightDown(e: nat)
    requires e >= 8
    ensures (e - 8) / 8 == e / 8 - 1 && (e - 8) % 8 == e % 8
  {
  }

  /** Bit `e % 8` of the byte `e / 8` places from the end of the message, counted from the other side if reflected. */
  predicate BitFromEnd(c: Config, data: seq<Byte>, e: nat) {
    e < 8 * |data| && data[|data| - 1 - e / 8][if c.reflectData then 7 - e % 8 else e % 8]
  }

  lemma ByteBit(c: Config, d: Byte, k: nat)
    requires k < 8
    ensures ReflectBytes(c, d)[k] == d[if c.reflectData then 7 - k else k]
  {
  }

  lemma BitMoves(c: Config, data: seq<Byte>, e: nat)
    requires data != []
    ensures BitFromEnd(c, data, e) <==>
            if e >= 8 then BitFromEnd(c, data[..|data| - 1], e - 8)
            else data[|data| - 1][if c.reflectData then 7 - e else e]
  {
    if e >= 8 {
      EightDown(e);
    }
  }

  /** The coefficients of the message are its bits, the first byte highest. */
  lemma {:induction false} MessageCoefficient(c: Config, data: seq<Byte>, e: nat)
    ensures e in Message(c, data) <==> BitFromEnd(c, data, e)
    decreases |data|
  {
    if data != [] {
      var init := data[..|data| - 1];
      ShiftedCoefficient(Message(c, init), ReflectBytes(c, data[|data| - 1]), e);
      BitMoves(c, data, e);
      if e >= 8 {
        MessageCoefficient(c, init, e - 8);
      } else {
        ByteBit(c, data[|data| - 1], e);
      }
    }
  }

  // ----- widths from 8 to 32

  lemma RegisterStep(p: Word, poly: Word, w: nat)
    requires 0 < w <= 32
    ensures Register(Step(p, poly, w - 1), w) ==
            if p[w - 1] then Add(Raise(Register(p, w), 1), Generator(poly, w)) else Raise(Register(p, w), 1)
  {
  }

  lemma StepDivides(a: Poly, q: Word, poly: Word, w: nat)
    requires 0 < w <= 32 && Congruent(a, Register(q, w), Generator(poly, w))
    ensures Congruent(Raise(a, 1), Register(Step(q, poly, w - 1), w), Generator(poly, w))
  {
    CongruentRaise(a, Register(q, w), Generator(poly, w), q[w - 1]);
    RegisterStep(q, poly, w);
  }

  /** `n` rounds divide `a * x^n` when the register stood for `a`. */
  lemma {:induction false} StepsDivide(a: Poly, p: Word, poly: Word, w: nat, n: nat)
    requires 0 < w <= 32 && Congruent(a, Register(p, w), Generator(poly, w))
    ensures Congruent(Raise(a, n), Register(Steps(p, poly, w - 1, n), w), Generator(poly, w))
    decreases n
  {
    if n == 0 {
      RaiseZero(a);
    } else {
      StepsDivide(a, p, poly, w, n - 1);
      StepDivides(Raise(a, n - 1), Steps(p, poly, w - 1, n - 1), poly, w);
      RaiseRaise(a, n - 1, 1);
    }
  }

  lemma RegisterTakesByte(p: Word, d: Word, w: nat)
    requires 8 <= w <= 32
    ensures Register(Xor(p, Shl(d, w - 8)), w) == Add(Register(p, w), Raise(Register(d, 8), w - 8))
  {
  }

  /** Eight places up, the dividend of `data` minus its last byte becomes that of `data`. */
  lemma BringDown(a: Poly, next: Poly, s: Poly, m: Poly, more: Poly, b: Poly, k: nat, k': nat, w: nat)
    requires w >= 8 && k' == k + 8 && a == Add(Raise(s, k), Raise(m, w))
    requires more == Add(Raise(m, 8), b) && next == Add(Raise(s, k'), Raise(more, w))
    ensures Raise(Add(a, Raise(b, w - 8)), 8) == next
  {
  }

  lemma MessageGrows(c: Config, data: seq<Byte>)
    requires data != []
    ensures Message(c, data) ==
            Add(Raise(Message(c, data[..|data| - 1]), 8), Register(ReflectBytes(c, data[|data| - 1]), 8))
  {
  }

  lemma RunOfNothing(c: Config, start: Word)
    requires ValidWidth(c.width)
    ensures Dividend(c, start, []) == Register(start, c.width)
  {
    RaiseZero(Register(start, c.width));
    assert Raise({}, c.width) == {};
  }

  /** What a further byte does to the dividend. */
  lemma DividendGrows(c: Config, start: Word, data: seq<Byte>)
    requires 8 <= c.width <= 32 && data != []
    ensures var init, d := data[..|data| - 1], ReflectBytes(c, data[|data| - 1]);
            Dividend(c, start, data) == Raise(Add(Dividend(c, start, init), Raise(Register(d, 8), c.width - 8)), 8)
  {
    var init, d := data[..|data| - 1], ReflectBytes(c, data[|data| - 1]);
    MessageGrows(c, data);
    BringDown(Dividend(c, start, init), Dividend(c, start, data), Register(start, c.width),
              Message(c, init), Message(c, data), Register(d, 8), 8 * |init|, 8 * |data|, c.width);
  }

  /** One byte more: the register takes it in and eight rounds divide. */
  lemma ByteDivides(a: Poly, p: Word, d: Word, poly: Word, w: nat)
    requires 8 <= w <= 32 && Congruent(a, Register(p, w), Generator(poly, w))
    ensures Congruent(Raise(Add(a, Raise(Register(d, 8), w - 8)), 8),
                      Register(Steps(Xor(p, Shl(d, w - 8)), poly, w - 1, ROUNDS), w), Generator(poly, w))
  {
    var b := Raise(Register(d, 8), w - 8);
    CongruentAdd(a, Register(p, w), Generator(poly, w), b);
    RegisterTakesByte(p, d, w);
    StepsDivide(Add(a, b), Xor(p, Shl(d, w - 8)), poly, w, ROUNDS);
  }

  lemma {:induction false} RunDivides(c: Config, start: Word, data: seq<Byte>)
    requires 8 <= c.width <= 32
    ensures Congruent(Dividend(c, start, data), Register(BitwiseRun(c, start, data), c.width),
                      Generator(c.polynomial, c.width))
    decreases |data|
  {
    var w := c.width;
    if data == [] {
      RunOfNothing(c, start);
      CongruentSelf(Register(start, w), Generator(c.polynomial, w));
    } else {
      var init, d := data[..|data| - 1], ReflectBytes(c, data[|data| - 1]);
      RunDivides(c, start, init);
      ByteDivides(Dividend(c, start, init), BitwiseRun(c, start, init), d, c.polynomial, w);
      RunGrows(c, start, data);
      DividendGrows(c, start, data);
    }
  }

  lemma RunGrows(c: Config, start: Word, data: seq<Byte>)
    requires 8 <= c.width <= 32 && data != []
    ensures var p, d := BitwiseRun(c, start, data[..|data| - 1]), ReflectBytes(c, data[|data| - 1]);
            BitwiseRun(c, start, data) == Steps(Xor(p, Shl(d, c.width - 8)), c.polynomial, c.width - 1, ROUNDS)
  {
  }

  /**
   * The bitwise loop returns the remainder of the message times `x^width`, started anywhere,
   * divided by the generator; and no other value would do.
   */
  lemma BitwiseIsRemainder(c: Config, start: Word, data: seq<Byte>, r: Word)
    requires 8 <= c.width <= 32
    ensures IsRemainder(Dividend(c, start, data), Register(r, c.width), Generator(c.polynomial, c.width), c.width)
            && (forall i :: c.width <= i < 32 ==> !r[i])
            <==> r == BitwisePartial(c, start, data)
  {
    var w, g := c.width, Generator(c.polynomial, c.width);
    var p := BitwisePartial(c, start, data);
    RunDivides(c, start, data);
    assert Register(p, w) == Register(BitwiseRun(c, start, data), w);
    if IsRemainder(Dividend(c, start, data), Register(r, w), g, w) && (forall i :: w <= i < 32 ==> !r[i]) {
      RemainderUnique(Dividend(c, start, data), Register(r, w), Register(p, w), g, w);
      forall i | 0 <= i < 32
        ensures r[i] == p[i]
      {
        assert i in Register(r, w) <==> i in Register(p, w);
      }
      assert r == p;
    }
  }

  /** From start value 0 what is divided is the message alone. */
  lemma FromZero(c: Config, data: seq<Byte>)
    requires ValidWidth(c.width)
    ensures Dividend(c, ZERO, data) == Raise(Message(c, data), c.width)
  {
    assert Register(ZERO, c.width) == {};
    assert Raise({}, 8 * |data|) == {};
  }

  // ----- width 7

  /** The `n` highest bits of the byte `d`. */
  ghost function TopBits(d: Word, n: nat): Poly
    requires n <= 8
  {
    Register(Shr(d, 8 - n), n)
  }

  lemma NarrowRegisterStep(p: Word, bit: bool, poly: Word)
    ensures Register(NarrowStep(p, bit, poly), 7) ==
            Add(if bit != p[6] then Add(Raise(Register(p, 7), 1), Generator(poly, 7)) else Raise(Register(p, 7), 1),
                if bit then {7} else {})
  {
  }

  lemma {:induction false} NarrowStepsDivide(a: Poly, p: Word, d: Word, poly: Word, n: nat)
    requires n <= 8 && Congruent(a, Register(p, 7), Generator(poly, 7))
    ensures Congruent(Add(Raise(a, n), Raise(TopBits(d, n), 7)),
                      Register(NarrowSteps(p, d, poly, n), 7), Generator(poly, 7))
    decreases n
  {
    if n == 0 {
      assert Add(Raise(a, 0), Raise(TopBits(d, 0), 7)) == a;
    } else {
      NarrowStepsDivide(a, p, d, poly, n - 1);
      var before := Add(Raise(a, n - 1), Raise(TopBits(d, n - 1), 7));
      var q, bit := NarrowSteps(p, d, poly, n - 1), d[8 - n];
      CongruentRaise(before, Register(q, 7), Generator(poly, 7), bit != q[6]);
      NarrowRegisterStep(q, bit, poly);
      var incoming: Poly := if bit then {7} else {};
      CongruentAdd(Raise(before, 1),
                   if bit != q[6] then Add(Raise(Register(q, 7), 1), Generator(poly, 7)) else Raise(Register(q, 7), 1),
                   Generator(poly, 7), incoming);
      NextTopBit(a, d, n);
    }
  }

  lemma NextTopBit(a: Poly, d: Word, n: nat)
    requires 0 < n <= 8
    ensures Add(Raise(Add(Raise(a, n - 1), Raise(TopBits(d, n - 1), 7)), 1), if d[8 - n] then {7} else {})
            == Add(Raise(a, n), Raise(TopBits(d, n), 7))
  {
    var low: Poly := if d[8 - n] then {0} else {};
    TopBitsStep(d, n);
    SevenUp(d[8 - n]);
    ShiftIn(a, TopBits(d, n - 1), TopBits(d, n), low, n - 1, n);
  }

  lemma SevenUp(bit: bool)
    ensures Raise(if bit then {0} else {}, 7) == if bit then {7} else {}
  {
  }

  lemma TopBitsStep(d: Word, n: nat)
    requires 0 < n <= 8
    ensures TopBits(d, n) == Add(Raise(TopBits(d, n - 1), 1), if d[8 - n] then {0} else {})
  {
  }

  lemma ShiftIn(a: Poly, t: Poly, t': Poly, low: Poly, n: nat, n': nat)
    requires t' == Add(Raise(t, 1), low) && n' == n + 1
    ensures Add(Raise(Add(Raise(a, n), Raise(t, 7)), 1), Raise(low, 7)) == Add(Raise(a, n'), Raise(t', 7))
  {
  }

  lemma AllTopBits(d: Word)
    ensures TopBits(d, 8) == Register(d, 8)
  {
    assert Shr(d, 0) == d;
  }

  lemma {:induction false} NarrowRunDivides(c: Config, start: Word, data: seq<Byte>)
    requires c.width == 7
    ensures Congruent(Dividend(c, start, data), Register(BitwiseRun(c, start, data), 7), Generator(c.polynomial, 7))
  {
    if data == [] {
      RunOfNothing(c, start);
      CongruentSelf(Register(start, 7), Generator(c.polynomial, 7));
    } else {
      var init, d := data[..|data| - 1], ReflectBytes(c, data[|data| - 1]);
      NarrowRunDivides(c, start, init);
      NarrowByteDivides(Dividend(c, start, init), BitwiseRun(c, start, init), d, c.polynomial);
      NarrowDividendGrows(c, start, data);
    }
  }

  lemma NarrowDividendGrows(c: Config, start: Word, data: seq<Byte>)
    requires c.width == 7 && data != []
    ensures var init, d := data[..|data| - 1], ReflectBytes(c, data[|data| - 1]);
            Dividend(c, start, data) == Add(Raise(Dividend(c, start, init), 8), Raise(Register(d, 8), 7))
  {
    var init, d := data[..|data| - 1], ReflectBytes(c, data[|data| - 1]);
    NarrowBringDown(Register(start, 7), Message(c, init), Register(d, 8), 8 * |init|);
  }

  lemma NarrowByteDivides(a: Poly, p: Word, d: Word, poly: Word)
    requires Congruent(a, Register(p, 7), Generator(poly, 7))
    ensures Congruent(Add(Raise(a, 8), Raise(Register(d, 8), 7)),
                      Register(NarrowSteps(p, d, poly, ROUNDS), 7), Generator(poly, 7))
  {
    NarrowStepsDivide(a, p, d, poly, ROUNDS);
    AllTopBits(d);
  }

  /** For width 7 the low seven bits are the remainder; bit 7 is left over from the shifting. */
  lemma NarrowBitwiseIsRemainder(c: Config, start: Word, data: seq<Byte>, r: Word)
    requires c.width == 7
    ensures IsRemainder(Dividend(c, start, data), Register(r, 7), Generator(c.polynomial, 7), 7)
            <==> Register(r, 7) == Register(BitwisePartial(c, start, data), 7)
  {
    NarrowRunDivides(c, start, data);
    var p := BitwisePartial(c, start, data);
    assert Register(p, 7) == Register(BitwiseRun(c, start, data), 7);
    if IsRemainder(Dividend(c, start, data), Register(r, 7), Generator(c.polynomial, 7), 7) {
      RemainderUnique(Dividend(c, start, data), Register(r, 7), Register(p, 7), Generator(c.polynomial, 7), 7);
    }
  }

  lemma NarrowBringDown(s: Poly, m: Poly, b: Poly, k: nat)
    ensures Add(Raise(Add(Raise(s, k), Raise(m, 7)), 8), Raise(b, 7))
            == Add(Raise(s, k + 8), Raise(Add(Raise(m, 8), b), 7))
  {
  }
}
