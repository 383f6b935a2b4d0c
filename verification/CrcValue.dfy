/**
 * What `compute` delivers, from the message to the last bit: the remainder of the division, in the
 * order asked for, with the final XOR.
 */
module CrcValue {
  import opened Words
  import opened Gf2
  import opened MbedCrc
  import opened CrcDivision
  import opened CrcTableMode

  /** For widths from 8 to 32 bit `k` is a coefficient of the remainder, flipped where the final XOR says so. */
  lemma CrcFromRemainder(c: Config, data: seq<Byte>, r: Poly, k: nat)
    requires 8 <= c.width <= 32 && k < 32
    requires IsRemainder(Dividend(c, c.initial, data), r, Generator(c.polynomial, c.width), c.width)
    ensures Crc(c, NoTable, data)[k] ==
            (k < c.width && ((if c.reflectRemainder then c.width - 1 - k else k) in r) != c.finalXor[k])
  {
    var p := BitwisePartial(c, c.initial, data);
    RegisterIsRemainder(c, data, r, p);
    StopIsFinish(c, NoTable, p);
    FinishedBit(c, p, c.width, r, k, Crc(c, NoTable, data));
  }

  /** Bit `k` of what `compute_partial_stop` makes of a register that stands for `r`. */
  lemma FinishedBit(c: Config, p: Word, w: nat, r: Poly, k: nat, crc: Word)
    requires w <= 32 && k < 32 && Register(p, w) == r && crc == Finish(c, p, w)
    ensures crc[k] == (k < w && ((if c.reflectRemainder then w - 1 - k else k) in r) != c.finalXor[k])
  {
    if k < w {
      FinishBit(c, p, w, k);
    }
  }

  lemma RegisterIsRemainder(c: Config, data: seq<Byte>, r: Poly, p: Word)
    requires 8 <= c.width <= 32 && p == BitwisePartial(c, c.initial, data)
    requires IsRemainder(Dividend(c, c.initial, data), r, Generator(c.polynomial, c.width), c.width)
    ensures Register(p, c.width) == r
  {
    BitwiseIsRemainder(c, c.initial, data, p);
    RemainderUnique(Dividend(c, c.initial, data), r, Register(p, c.width), Generator(c.polynomial, c.width), c.width);
  }

  /** For width 7 the remainder stands one place higher in the eight bits delivered. */
  lemma NarrowCrcFromRemainder(c: Config, data: seq<Byte>, r: Poly, k: nat)
    requires c.width == 7 && k < 32
    requires IsRemainder(Dividend(c, c.initial, data), r, Generator(c.polynomial, 7), 7)
    ensures var j := if c.reflectRemainder then 7 - k else k;
            Crc(c, NoTable, data)[k] == (k < 8 && (j > 0 && j - 1 in r) != c.finalXor[k])
  {
    var p := BitwisePartial(c, c.initial, data);
    NarrowRegisterIsRemainder(c, data, r, p);
    StopIsFinish(c, NoTable, p);
    if k < 8 {
      FinishBit(c, Shl(p, 1), 8, k);
    }
  }

  lemma NarrowRegisterIsRemainder(c: Config, data: seq<Byte>, r: Poly, p: Word)
    requires c.width == 7 && p == BitwisePartial(c, c.initial, data)
    requires IsRemainder(Dividend(c, c.initial, data), r, Generator(c.polynomial, 7), 7)
    ensures Register(p, 7) == r
  {
    NarrowBitwiseIsRemainder(c, c.initial, data, p);
    RemainderUnique(Dividend(c, c.initial, data), r, Register(p, 7), Generator(c.polynomial, 7), 7);
  }
}
