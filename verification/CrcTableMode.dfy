/**
 * Table mode refines bitwise mode: eight rounds at a time, by linearity of the division.
 */
module CrcTableMode {
  import opened Words
  import opened MbedCrc
  import CrcTables

  /** Entry `b` is what eight rounds make of `b` in the top byte of a `w`-bit register. */
  ghost predicate IsByteTable(t: CrcTables.Table, poly: Word, w: nat)
    requires 8 <= w <= 32
  {
    CrcTables.FullTable(t) && forall b: Byte :: EntryIsRemainder(t, b, poly, w)
  }

  ghost predicate EntryIsRemainder(t: CrcTables.Table, b: Byte, poly: Word, w: nat)
    requires 8 <= w <= 32 && CrcTables.FullTable(t)
  {
    Low(CrcTables.Entry(t, b), w) == Low(ByteRemainder(b, poly, w), w)
  }

  function ByteRemainder(b: Byte, poly: Word, w: nat): Word
    requires 8 <= w <= 32
  {
    Steps(Shl(Widen(b), w - 8), poly, w - 1, ROUNDS)
  }

  // ----- linearity

  lemma StepXor(p: Word, q: Word, poly: Word, top: nat)
    requires top < 32
    ensures Step(Xor(p, q), poly, top) == Xor(Step(p, poly, top), Step(q, poly, top))
  {
    ShlXor(p, q, 1);
  }

  lemma {:induction false} StepsXor(p: Word, q: Word, poly: Word, top: nat, n: nat)
    requires top < 32
    ensures Steps(Xor(p, q), poly, top, n) == Xor(Steps(p, poly, top, n), Steps(q, poly, top, n))
    decreases n
  {
    if n > 0 {
      StepsXor(p, q, poly, top, n - 1);
      StepXor(Steps(p, poly, top, n - 1), Steps(q, poly, top, n - 1), poly, top);
    }
  }

  /** While no set bit reaches the top, a round is a shift. */
  lemma {:induction false} StepsShift(p: Word, poly: Word, top: nat, n: nat)
    requires top < 32 && n <= top + 1
    requires forall i :: top - n < i <= top ==> !p[i]
    ensures Steps(p, poly, top, n) == Shl(p, n)
    decreases n
  {
    if n == 0 {
      assert Shl(p, 0) == p;
    } else {
      StepsShift(p, poly, top, n - 1);
      assert !Shl(p, n - 1)[top];
      ShlShl(p, n - 1, 1);
    }
  }

  // ----- only the low bits matter

  lemma StepLow(p: Word, q: Word, poly: Word, w: nat)
    requires 0 < w <= 32 && Low(p, w) == Low(q, w)
    ensures Low(Step(p, poly, w - 1), w) == Low(Step(q, poly, w - 1), w)
  {
    SameLow(p, q, w);
    assert p[w - 1] == q[w - 1];
    LowFromBits(Step(p, poly, w - 1), Step(q, poly, w - 1), w);
  }

  lemma SameLow(p: Word, q: Word, w: nat)
    requires w <= 32 && Low(p, w) == Low(q, w)
    ensures forall i :: 0 <= i < w ==> p[i] == q[i]
  {
    forall i | 0 <= i < w
      ensures p[i] == q[i]
    {
      assert Low(p, w)[i] == p[i] && Low(q, w)[i] == q[i];
    }
  }

  lemma LowFromBits(p: Word, q: Word, w: nat)
    requires w <= 32 && forall i :: 0 <= i < w ==> p[i] == q[i]
    ensures Low(p, w) == Low(q, w)
  {
  }

  lemma {:induction false} StepsLow(p: Word, q: Word, poly: Word, w: nat, n: nat)
    requires 0 < w <= 32 && Low(p, w) == Low(q, w)
    ensures Low(Steps(p, poly, w - 1, n), w) == Low(Steps(q, poly, w - 1, n), w)
    decreases n
  {
    if n > 0 {
      StepsLow(p, q, poly, w, n - 1);
      StepLow(Steps(p, poly, w - 1, n - 1), Steps(q, poly, w - 1, n - 1), poly, w);
    }
  }

  lemma {:induction false} NarrowStepsLow(p: Word, q: Word, d: Word, poly: Word, n: nat)
    requires n <= 8 && Low(p, 8) == Low(q, 8)
    ensures Low(NarrowSteps(p, d, poly, n), 8) == Low(NarrowSteps(q, d, poly, n), 8)
    decreases n
  {
    if n > 0 {
      NarrowStepsLow(p, q, d, poly, n - 1);
      var a, b := NarrowSteps(p, d, poly, n - 1), NarrowSteps(q, d, poly, n - 1);
      SameLow(a, b, 8);
      LowFromBits(NarrowStep(a, d[8 - n], poly), NarrowStep(b, d[8 - n], poly), 8);
    }
  }

  lemma BitwiseByteLow(c: Config, p: Word, q: Word, d: Word)
    requires ValidWidth(c.width) && Low(p, MaskWidth(c.width)) == Low(q, MaskWidth(c.width))
    ensures Low(BitwiseByte(c, p, d), MaskWidth(c.width)) == Low(BitwiseByte(c, q, d), MaskWidth(c.width))
  {
    if c.width < 8 {
      NarrowStepsLow(p, q, d, c.polynomial, ROUNDS);
    } else {
      var e := Shl(d, c.width - 8);
      SameLow(p, q, c.width);
      LowFromBits(Xor(p, e), Xor(q, e), c.width);
      StepsLow(Xor(p, e), Xor(q, e), c.polynomial, c.width, ROUNDS);
    }
  }

  lemma TableByteLow(c: Config, rom: Rom, p: Word, q: Word, d: Byte)
    requires ValidWidth(c.width) && ValidRom(rom) && !rom.NoTable? && (rom.NibbleTable? ==> c.width == 32)
    requires Low(p, MaskWidth(c.width)) == Low(q, MaskWidth(c.width))
    ensures Low(TableByte(c, rom, p, d), MaskWidth(c.width)) == Low(TableByte(c, rom, q, d), MaskWidth(c.width))
  {
    var w := MaskWidth(c.width);
    SameLow(p, q, w);
    if rom.NibbleTable? {
      assert p == q;
    } else if c.width <= 8 {
      assert Narrow(Xor(ReflectBytes(c, d), p)) == Narrow(Xor(ReflectBytes(c, d), q));
    } else {
      assert Narrow(Xor(ReflectBytes(c, d), Shr(p, w - 8))) == Narrow(Xor(ReflectBytes(c, d), Shr(q, w - 8)));
      LowFromBits(TableByte(c, rom, p, d), TableByte(c, rom, q, d), w);
    }
  }

  // ----- one byte by table is eight rounds

  /** The byte that indexes the table. */
  function TableIndex(p: Word, d: Word, w: nat): Byte
    requires 8 <= w <= 32
  {
    Narrow(Xor(d, Shr(p, w - 8)))
  }

  /** The register with its top byte taken out. */
  function Rest(p: Word, w: nat): (r: Word)
    ensures forall i :: 0 <= i < 32 ==> r[i] == (p[i] && !(w - 8 <= i < w))
  {
    seq(32, i requires 0 <= i < 32 => p[i] && !(w - 8 <= i < w))
  }

  lemma SplitRegister(p: Word, d: Word, w: nat)
    requires 8 <= w <= 32 && forall i :: 8 <= i < 32 ==> !d[i]
    ensures Xor(p, Shl(d, w - 8)) == Xor(Shl(Widen(TableIndex(p, d, w)), w - 8), Rest(p, w))
  {
  }

  lemma RoundsOfByte(p: Word, d: Word, poly: Word, w: nat)
    requires 8 <= w <= 32 && forall i :: 8 <= i < 32 ==> !d[i]
    ensures Steps(Xor(p, Shl(d, w - 8)), poly, w - 1, ROUNDS)
            == Xor(ByteRemainder(TableIndex(p, d, w), poly, w), Shl(Rest(p, w), 8))
  {
    SplitRegister(p, d, w);
    StepsXor(Shl(Widen(TableIndex(p, d, w)), w - 8), Rest(p, w), poly, w - 1, ROUNDS);
    StepsShift(Rest(p, w), poly, w - 1, ROUNDS);
  }

  /** What a byte of the table mode is, in the low bits, for widths from 8 up. */
  lemma TableByteIs(c: Config, t: CrcTables.Table, q: Word, d: Byte, w: nat)
    requires w == c.width && 8 <= w <= 32 && CrcTables.FullTable(t)
    ensures var entry := CrcTables.Entry(t, TableIndex(q, ReflectBytes(c, d), w));
            Low(TableByte(c, ByteTable(t), q, d), w) == Low(Xor(entry, Shl(q, 8)), w)
  {
    if w == 8 {
      assert Shr(q, 0) == q;
      ShiftedOut(CrcTables.Entry(t, TableIndex(q, ReflectBytes(c, d), w)), q);
    }
  }

  /** What a byte of the bitwise mode is, for widths from 8 up. */
  lemma BitwiseByteIs(c: Config, p: Word, e: Word, w: nat)
    requires w == c.width && 8 <= w <= 32 && forall i :: 8 <= i < 32 ==> !e[i]
    ensures BitwiseByte(c, p, e) == Xor(ByteRemainder(TableIndex(p, e, w), c.polynomial, w), Shl(Rest(p, w), 8))
  {
    RoundsOfByte(p, e, c.polynomial, w);
  }

  lemma ByteAgrees(c: Config, t: CrcTables.Table, p: Word, d: Byte, w: nat)
    requires w == c.width && 8 <= w <= 32 && CrcTables.FullTable(t)
    requires EntryIsRemainder(t, TableIndex(p, ReflectBytes(c, d), w), c.polynomial, w)
    ensures Low(TableByte(c, ByteTable(t), p, d), w) == Low(BitwiseByte(c, p, ReflectBytes(c, d)), w)
  {
    var e := ReflectBytes(c, d);
    var i := TableIndex(p, e, w);
    BitwiseByteIs(c, p, e, w);
    TableByteIs(c, t, p, d, w);
    JoinLow(CrcTables.Entry(t, i), ByteRemainder(i, c.polynomial, w), p, w);
  }

  lemma JoinLow(entry: Word, remainder: Word, p: Word, w: nat)
    requires 8 <= w <= 32 && Low(entry, w) == Low(remainder, w)
    ensures Low(Xor(entry, Shl(p, 8)), w) == Low(Xor(remainder, Shl(Rest(p, w), 8)), w)
    ensures w == 8 ==> Low(entry, w) == Low(Xor(remainder, Shl(Rest(p, w), 8)), w)
  {
    SameLow(entry, remainder, w);
    LowFromBits(Xor(entry, Shl(p, 8)), Xor(remainder, Shl(Rest(p, w), 8)), w);
    if w == 8 {
      LowFromBits(entry, Xor(remainder, Shl(Rest(p, w), 8)), w);
    }
  }

  /** Table mode and bitwise mode agree under the mask, for every message and start value. */
  lemma {:induction false} TableAgrees(c: Config, t: CrcTables.Table, start: Word, data: seq<Byte>)
    requires 8 <= c.width <= 32 && IsByteTable(t, c.polynomial, c.width)
    ensures TablePartial(c, ByteTable(t), start, data) == BitwisePartial(c, start, data)
  {
    if data != [] {
      var init, d := data[..|data| - 1], data[|data| - 1];
      TableAgrees(c, t, start, init);
      var p, q := TableRun(c, ByteTable(t), start, init), BitwiseRun(c, start, init);
      assert EntryIsRemainder(t, TableIndex(p, ReflectBytes(c, d), c.width), c.polynomial, c.width);
      ByteAgrees(c, t, p, d, c.width);
      BitwiseByteLow(c, p, q, ReflectBytes(c, d));
    }
  }

  /** Hence the two modes deliver the same CRC. */
  lemma ModesAgree(c: Config, t: CrcTables.Table, data: seq<Byte>)
    requires 8 <= c.width <= 32 && IsByteTable(t, c.polynomial, c.width)
    ensures Crc(c, ByteTable(t), data) == Crc(c, NoTable, data)
  {
    TableAgrees(c, t, c.initial, data);
  }

  // ----- exactly when a table with wrong entries still agrees

  ghost predicate AgreesAfter(c: Config, t: CrcTables.Table, start: Word, data: seq<Byte>)
    requires ValidWidth(c.width) && CrcTables.FullTable(t)
  {
    TablePartial(c, ByteTable(t), start, data) == BitwisePartial(c, start, data)
  }

  /** The modes agree after `data` and after every prefix of it. */
  ghost predicate AgreesThroughout(c: Config, t: CrcTables.Table, start: Word, data: seq<Byte>)
    requires ValidWidth(c.width) && CrcTables.FullTable(t)
  {
    AgreesAfter(c, t, start, data) && (data == [] || AgreesThroughout(c, t, start, data[..|data| - 1]))
  }

  /** The index that the last byte of `data` looks up when the register is right. */
  function LastIndex(c: Config, start: Word, data: seq<Byte>): Byte
    requires 8 <= c.width <= 32 && data != []
  {
    TableIndex(BitwiseRun(c, start, data[..|data| - 1]), ReflectBytes(c, data[|data| - 1]), c.width)
  }

  /** Every entry that `data` makes a right register look up is the remainder of its index. */
  ghost predicate LooksUpRemainders(c: Config, t: CrcTables.Table, start: Word, data: seq<Byte>)
    requires 8 <= c.width <= 32 && CrcTables.FullTable(t)
  {
    data == [] ||
    (LooksUpRemainders(c, t, start, data[..|data| - 1]) &&
     EntryIsRemainder(t, LastIndex(c, start, data), c.polynomial, c.width))
  }

  lemma CancelRest(entry: Word, remainder: Word, q: Word, w: nat)
    requires 8 <= w <= 32
    requires Low(Xor(entry, Shl(q, 8)), w) == Low(Xor(remainder, Shl(Rest(q, w), 8)), w)
    ensures Low(entry, w) == Low(remainder, w)
  {
    SameLow(Xor(entry, Shl(q, 8)), Xor(remainder, Shl(Rest(q, w), 8)), w);
    forall i | 0 <= i < w
      ensures entry[i] == remainder[i]
    {
      assert Xor(entry, Shl(q, 8))[i] == Xor(remainder, Shl(Rest(q, w), 8))[i];
    }
    LowFromBits(entry, remainder, w);
  }

  lemma ByteAgreesOnlyIf(c: Config, t: CrcTables.Table, q: Word, d: Byte, w: nat)
    requires w == c.width && 8 <= w <= 32 && CrcTables.FullTable(t)
    requires Low(TableByte(c, ByteTable(t), q, d), w) == Low(BitwiseByte(c, q, ReflectBytes(c, d)), w)
    ensures EntryIsRemainder(t, TableIndex(q, ReflectBytes(c, d), w), c.polynomial, w)
  {
    var e := ReflectBytes(c, d);
    var i := TableIndex(q, e, w);
    BitwiseByteIs(c, q, e, w);
    TableByteIs(c, t, q, d, w);
    CancelRest(CrcTables.Entry(t, i), ByteRemainder(i, c.polynomial, w), q, w);
  }

  /** Where the modes agree before a byte, they agree after it exactly when its entry is right. */
  lemma RoundExactly(c: Config, t: CrcTables.Table, p: Word, q: Word, d: Byte, w: nat)
    requires w == c.width && 8 <= w <= 32 && CrcTables.FullTable(t) && Low(p, w) == Low(q, w)
    ensures Low(TableByte(c, ByteTable(t), p, d), w) == Low(BitwiseByte(c, q, ReflectBytes(c, d)), w)
            <==> EntryIsRemainder(t, TableIndex(q, ReflectBytes(c, d), w), c.polynomial, w)
  {
    TableByteLow(c, ByteTable(t), p, q, d);
    if EntryIsRemainder(t, TableIndex(q, ReflectBytes(c, d), w), c.polynomial, w) {
      ByteAgrees(c, t, q, d, w);
    }
    if Low(TableByte(c, ByteTable(t), q, d), w) == Low(BitwiseByte(c, q, ReflectBytes(c, d)), w) {
      ByteAgreesOnlyIf(c, t, q, d, w);
    }
  }

  lemma PrefixExactly(c: Config, t: CrcTables.Table, start: Word, data: seq<Byte>)
    requires 8 <= c.width <= 32 && CrcTables.FullTable(t) && data != []
    requires AgreesAfter(c, t, start, data[..|data| - 1])
    ensures AgreesAfter(c, t, start, data)
            <==> EntryIsRemainder(t, LastIndex(c, start, data), c.polynomial, c.width)
  {
    var init, d := data[..|data| - 1], data[|data| - 1];
    RoundExactly(c, t, TableRun(c, ByteTable(t), start, init), BitwiseRun(c, start, init), d, c.width);
  }

  /**
   * Whatever the table, the modes agree after every prefix of a message exactly when every entry
   * that is looked up is the remainder of its index.
   */
  lemma {:induction false} AgreesExactly(c: Config, t: CrcTables.Table, start: Word, data: seq<Byte>)
    requires 8 <= c.width <= 32 && CrcTables.FullTable(t)
    ensures AgreesThroughout(c, t, start, data) <==> LooksUpRemainders(c, t, start, data)
  {
    if data != [] {
      var init := data[..|data| - 1];
      AgreesExactly(c, t, start, init);
      if AgreesThroughout(c, t, start, init) {
        PrefixExactly(c, t, start, data);
      }
    }
  }

  // ----- the end of the computation

  /** The end of `compute_partial_stop`, once a narrow register has been moved up; `w` bits are kept. */
  function Finish(c: Config, r: Word, w: nat): Word
    requires w <= 32
  {
    Low(Xor(if c.reflectRemainder then Reflect(r, w) else r, c.finalXor), w)
  }

  lemma FinishBit(c: Config, r: Word, w: nat, k: nat)
    requires w <= 32 && k < w
    ensures Finish(c, r, w)[k] == (r[if c.reflectRemainder then w - 1 - k else k] != c.finalXor[k])
  {
  }

  /** It tells apart exactly the registers that differ in the bits that are kept. */
  lemma FinishTellsApart(c: Config, r: Word, s: Word, w: nat)
    requires w <= 32
    ensures Finish(c, r, w) == Finish(c, s, w) <==> Low(r, w) == Low(s, w)
  {
    if Finish(c, r, w) == Finish(c, s, w) {
      forall i: nat | i < w
        ensures r[i] == s[i]
      {
        var k := if c.reflectRemainder then w - 1 - i else i;
        FinishBit(c, r, w, k);
        FinishBit(c, s, w, k);
      }
      LowFromBits(r, s, w);
    }
    if Low(r, w) == Low(s, w) {
      SameLow(r, s, w);
      assert Finish(c, r, w) == Finish(c, s, w);
    }
  }

  lemma StopIsFinish(c: Config, rom: Rom, p: Word)
    requires ValidWidth(c.width) && !rom.NibbleTable?
    ensures Stop(c, rom, p) ==
            Finish(c, if c.width < 8 && rom.NoTable? then Shl(p, 8 - c.width) else p, MaskWidth(c.width))
  {
  }

  /** With any table at all, the CRCs are equal exactly when the registers are, before `compute_partial_stop`. */
  lemma CrcsAgreeExactly(c: Config, t: CrcTables.Table, data: seq<Byte>)
    requires 8 <= c.width <= 32 && CrcTables.FullTable(t)
    ensures Crc(c, ByteTable(t), data) == Crc(c, NoTable, data) <==> AgreesAfter(c, t, c.initial, data)
  {
    var p, q, w := TablePartial(c, ByteTable(t), c.initial, data), BitwisePartial(c, c.initial, data), c.width;
    StopIsFinish(c, ByteTable(t), p);
    StopIsFinish(c, NoTable, q);
    FinishTellsApart(c, p, q, w);
    LowLow(TableRun(c, ByteTable(t), c.initial, data), w);
    LowLow(BitwiseRun(c, c.initial, data), w);
  }

  // ----- splitting the data changes nothing

  lemma {:induction false} BitwiseRunSplits(c: Config, p: Word, q: Word, a: seq<Byte>, b: seq<Byte>)
    requires ValidWidth(c.width)
    requires Low(q, MaskWidth(c.width)) == Low(BitwiseRun(c, p, a), MaskWidth(c.width))
    ensures Low(BitwiseRun(c, q, b), MaskWidth(c.width)) == Low(BitwiseRun(c, p, a + b), MaskWidth(c.width))
    decreases |b|
  {
    if b == [] {
      assert a + b == a;
    } else {
      var b0 := b[..|b| - 1];
      assert (a + b)[..|a + b| - 1] == a + b0;
      BitwiseRunSplits(c, p, q, a, b0);
      BitwiseByteLow(c, BitwiseRun(c, q, b0), BitwiseRun(c, p, a + b0), ReflectBytes(c, b[|b| - 1]));
    }
  }

  lemma {:induction false} TableRunSplits(c: Config, rom: Rom, p: Word, q: Word, a: seq<Byte>, b: seq<Byte>)
    requires ValidWidth(c.width) && ValidRom(rom) && !rom.NoTable? && (rom.NibbleTable? ==> c.width == 32)
    requires Low(q, MaskWidth(c.width)) == Low(TableRun(c, rom, p, a), MaskWidth(c.width))
    ensures Low(TableRun(c, rom, q, b), MaskWidth(c.width)) == Low(TableRun(c, rom, p, a + b), MaskWidth(c.width))
    decreases |b|
  {
    if b == [] {
      assert a + b == a;
    } else {
      var b0 := b[..|b| - 1];
      assert (a + b)[..|a + b| - 1] == a + b0;
      TableRunSplits(c, rom, p, q, a, b0);
      TableByteLow(c, rom, TableRun(c, rom, q, b0), TableRun(c, rom, p, a + b0), b[|b| - 1]);
    }
  }

  lemma LowLow(p: Word, w: nat)
    ensures Low(Low(p, w), w) == Low(p, w)
  {
  }

  /** Feeding `a` and then `b` is feeding `a + b`, in every mode. */
  lemma PartialSplits(c: Config, rom: Rom, crc: Word, a: seq<Byte>, b: seq<Byte>)
    requires ValidWidth(c.width) && ValidRom(rom) && (rom.NibbleTable? ==> c.width == 32)
    ensures Partial(c, rom, Partial(c, rom, crc, a), b) == Partial(c, rom, crc, a + b)
  {
    if rom.NoTable? {
      LowLow(BitwiseRun(c, crc, a), MaskWidth(c.width));
      BitwiseRunSplits(c, crc, BitwisePartial(c, crc, a), a, b);
    } else {
      LowLow(TableRun(c, rom, crc, a), MaskWidth(c.width));
      TableRunSplits(c, rom, crc, TablePartial(c, rom, crc, a), a, b);
    }
  }

  /** In the nibble form splitting changes nothing, for every message and value, if and only if nothing is masked. */
  lemma NibbleSplitsExactly(c: Config, t: seq<bv32>)
    requires 16 < c.width <= 32 && |t| == 16
    ensures (forall crc, a, b :: Partial(c, NibbleTable(t), Partial(c, NibbleTable(t), crc, a), b)
                                 == Partial(c, NibbleTable(t), crc, a + b))
            <==> c.width == 32
  {
    var rom := NibbleTable(t);
    if c.width == 32 {
      forall crc, a, b
        ensures Partial(c, rom, Partial(c, rom, crc, a), b) == Partial(c, rom, crc, a + b)
      {
        PartialSplits(c, rom, crc, a, b);
      }
    } else {
      NibbleLosesBits(c, t, c.width, [seq(8, _ => false)]);
    }
  }

  /** One byte after nothing: the mask has taken a high bit that the byte would have moved down. */
  lemma NibbleLosesBits(c: Config, t: seq<bv32>, w: nat, b: seq<Byte>)
    requires 16 < c.width == w < 32 && |t| == 16 && |b| == 1
    ensures Partial(c, NibbleTable(t), Partial(c, NibbleTable(t), ALL_ONES, []), b)
            != Partial(c, NibbleTable(t), ALL_ONES, [] + b)
  {
    var rom, p, q := NibbleTable(t), Low(ALL_ONES, w), ALL_ONES;
    assert [] + b == b;
    NothingMasks(c, rom, q, w);
    OneByte(c, rom, p, b, w);
    OneByte(c, rom, q, b, w);
    NibbleByteBit(c, t, p, q, b[0], w - 8);
    DifferentLow(TableByte(c, rom, p, b[0]), TableByte(c, rom, q, b[0]), w - 8, w);
  }

  lemma NothingMasks(c: Config, rom: Rom, crc: Word, w: nat)
    requires 8 <= c.width == w <= 32 && ValidRom(rom)
    ensures Partial(c, rom, crc, []) == Low(crc, w)
  {
  }

  lemma OneByte(c: Config, rom: Rom, crc: Word, b: seq<Byte>, w: nat)
    requires 8 <= c.width == w <= 32 && ValidRom(rom) && !rom.NoTable? && |b| == 1
    ensures Partial(c, rom, crc, b) == Low(TableByte(c, rom, crc, b[0]), w)
  {
    assert b[..|b| - 1] == [];
    assert TableRun(c, rom, crc, b[..|b| - 1]) == crc;
  }

  lemma DifferentLow(x: Word, y: Word, k: nat, w: nat)
    requires k < w <= 32 && x[k] != y[k]
    ensures Low(x, w) != Low(y, w)
  {
    assert Low(x, w)[k] != Low(y, w)[k];
  }

  /** Where two registers agree in their low byte, a byte of the nibble form only moves the rest down. */
  lemma NibbleByteBit(c: Config, t: seq<bv32>, p: Word, q: Word, d: Byte, k: nat)
    requires ValidWidth(c.width) && |t| == 16 && k < 24 && forall i :: 0 <= i < 8 ==> p[i] == q[i]
    ensures var x, y := TableByte(c, NibbleTable(t), p, d), TableByte(c, NibbleTable(t), q, d);
            (x[k] == y[k]) <==> (p[k + 8] == q[k + 8])
  {
    var w := Widen(d);
    var n := CrcTables.Nibble(t, Xor(p, w));
    assert n == CrcTables.Nibble(t, Xor(q, w));
    var a, b := Xor(Shr(p, 4), n), Xor(Shr(q, 4), n);
    HalfBits(p, q, n, a, b);
    var v := Shr(w, 4);
    var m := CrcTables.Nibble(t, Xor(a, v));
    assert m == CrcTables.Nibble(t, Xor(b, v));
    HalfBits(a, b, m, Xor(Shr(a, 4), m), Xor(Shr(b, 4), m));
  }

  lemma HalfBits(p: Word, q: Word, n: Word, a: Word, b: Word)
    requires a == Xor(Shr(p, 4), n) && b == Xor(Shr(q, 4), n)
    ensures forall i :: 0 <= i < 28 ==> (a[i] == b[i] <==> p[i + 4] == q[i + 4])
  {
  }

  // ----- width 7: the table holds the register one place to the left

  lemma {:induction false} NarrowStepsAligned(p: Word, d: Word, poly: Word, n: nat)
    requires n <= 8 && forall i :: 8 <= i < 32 ==> !d[i]
    ensures Low(Steps(Xor(Shl(p, 1), d), Shl(poly, 1), 7, n), 8)
            == Low(Xor(Shl(NarrowSteps(p, d, poly, n), 1), Shl(d, n)), 8)
    decreases n
  {
    if n == 0 {
      assert Shl(d, 0) == d;
    } else {
      NarrowStepsAligned(p, d, poly, n - 1);
      var u := Steps(Xor(Shl(p, 1), d), Shl(poly, 1), 7, n - 1);
      var q := NarrowSteps(p, d, poly, n - 1);
      AlignedStep(u, q, d, poly, n);
    }
  }

  lemma AlignedStep(u: Word, q: Word, d: Word, poly: Word, n: nat)
    requires 0 < n <= 8 && Low(u, 8) == Low(Xor(Shl(q, 1), Shl(d, n - 1)), 8)
    ensures Low(Step(u, Shl(poly, 1), 7), 8)
            == Low(Xor(Shl(NarrowStep(q, d[8 - n], poly), 1), Shl(d, n)), 8)
  {
    var a, e := Xor(Shl(q, 1), Shl(d, n - 1)), Shl(d, n - 1);
    StepLow(u, a, Shl(poly, 1), 8);
    assert a[7] == (q[6] != d[8 - n]);
    ShlXor(Shl(q, 1), e, 1);
    ShlShl(d, n - 1, 1);
    ShlXor(Shl(q, 1), poly, 1);
    XorSwap(Shl(Shl(q, 1), 1), Shl(d, n), Shl(poly, 1));
  }

  /** The table index in terms of the bitwise register `q`. */
  lemma NarrowIndex(p: Word, q: Word, e: Word, w: nat)
    requires w == 8 && Low(p, w) == Low(Shl(q, 1), w) && forall i :: 8 <= i < 32 ==> !e[i]
    ensures Low(Shl(Widen(Narrow(Xor(e, p))), w - 8), w) == Low(Xor(Shl(q, 1), e), w)
  {
    SameLow(p, Shl(q, 1), w);
    LowFromBits(Shl(Widen(Narrow(Xor(e, p))), w - 8), Xor(Shl(q, 1), e), w);
  }

  lemma NarrowByteAgrees(c: Config, t: CrcTables.Table, p: Word, q: Word, d: Byte)
    requires c.width == 7 && IsByteTable(t, Shl(c.polynomial, 1), 8) && Low(p, 8) == Low(Shl(q, 1), 8)
    ensures Low(TableByte(c, ByteTable(t), p, d), 8) == Low(Shl(BitwiseByte(c, q, ReflectBytes(c, d)), 1), 8)
  {
    var e := ReflectBytes(c, d);
    var i := Narrow(Xor(e, p));
    assert EntryIsRemainder(t, i, Shl(c.polynomial, 1), 8);
    NarrowIndex(p, q, e, 8);
    AlignedRemainder(i, q, e, c.polynomial, 8);
  }

  lemma AlignedRemainder(i: Byte, q: Word, e: Word, poly: Word, w: nat)
    requires w == 8 && Low(Shl(Widen(i), w - 8), w) == Low(Xor(Shl(q, 1), e), w)
    requires forall i :: 8 <= i < 32 ==> !e[i]
    ensures Low(ByteRemainder(i, Shl(poly, 1), w), w) == Low(Shl(NarrowSteps(q, e, poly, ROUNDS), 1), w)
  {
    StepsLow(Shl(Widen(i), w - 8), Xor(Shl(q, 1), e), Shl(poly, 1), w, ROUNDS);
    AlignedByte(q, e, poly, w);
    LowTransitive(ByteRemainder(i, Shl(poly, 1), w), Steps(Xor(Shl(q, 1), e), Shl(poly, 1), w - 1, ROUNDS),
                  Shl(NarrowSteps(q, e, poly, ROUNDS), 1), w);
  }

  lemma AlignedByte(q: Word, e: Word, poly: Word, w: nat)
    requires w == 8 && forall i :: 8 <= i < 32 ==> !e[i]
    ensures Low(Steps(Xor(Shl(q, 1), e), Shl(poly, 1), w - 1, ROUNDS), w)
            == Low(Shl(NarrowSteps(q, e, poly, ROUNDS), 1), w)
  {
    NarrowStepsAligned(q, e, poly, ROUNDS);
    ShiftedOut(Shl(NarrowSteps(q, e, poly, ROUNDS), 1), e);
  }

  lemma LowTransitive(a: Word, b: Word, c: Word, w: nat)
    requires Low(a, w) == Low(b, w) && Low(b, w) == Low(c, w)
    ensures Low(a, w) == Low(c, w)
  {
  }

  lemma ShiftedOut(p: Word, e: Word)
    ensures Low(Xor(p, Shl(e, 8)), 8) == Low(p, 8)
  {
  }

  /** A table register `s` and a bitwise register `p` that stands one place lower stay so. */
  lemma {:induction false} NarrowRunsAligned(c: Config, t: CrcTables.Table, s: Word, p: Word, data: seq<Byte>)
    requires c.width == 7 && IsByteTable(t, Shl(c.polynomial, 1), 8) && Low(s, 8) == Low(Shl(p, 1), 8)
    ensures Low(TableRun(c, ByteTable(t), s, data), 8) == Low(Shl(BitwiseRun(c, p, data), 1), 8)
    decreases |data|
  {
    if data != [] {
      var init, d := data[..|data| - 1], data[|data| - 1];
      NarrowRunsAligned(c, t, s, p, init);
      NarrowByteAgrees(c, t, TableRun(c, ByteTable(t), s, init), BitwiseRun(c, p, init), d);
    }
  }

  lemma LowShl(p: Word, w: nat)
    ensures Low(Shl(Low(p, w), 1), w) == Low(Shl(p, 1), w)
  {
  }

  /** The table register is the bitwise one shifted left by one, whenever it is so at the start. */
  lemma NarrowTableAgrees(c: Config, t: CrcTables.Table, s: Word, p: Word, data: seq<Byte>)
    requires c.width == 7 && IsByteTable(t, Shl(c.polynomial, 1), 8) && Low(s, 8) == Low(Shl(p, 1), 8)
    ensures TablePartial(c, ByteTable(t), s, data) == Low(Shl(BitwisePartial(c, p, data), 1), 8)
  {
    NarrowRunsAligned(c, t, s, p, data);
    LowShl(BitwiseRun(c, p, data), 8);
  }

  /** A start value that is its own double, in eight bits, is 0. */
  lemma {:induction false} OwnDouble(p: Word, i: nat)
    requires i < 8 && Low(p, 8) == Low(Shl(p, 1), 8)
    ensures !p[i]
    decreases i
  {
    assert Low(p, 8)[i] == Low(Shl(p, 1), 8)[i];
    if i > 0 {
      OwnDouble(p, i - 1);
    }
  }

  /** `compute_partial_stop` on both forms of a register, in the eight bits that it keeps. */
  lemma NarrowStop(c: Config, t: CrcTables.Table, s: Word, p: Word)
    requires c.width == 7
    ensures Stop(c, ByteTable(t), s) == Stop(c, NoTable, p) <==> Low(s, 8) == Low(Shl(p, 1), 8)
  {
    StopIsFinish(c, ByteTable(t), s);
    StopIsFinish(c, NoTable, p);
    FinishTellsApart(c, s, Shl(p, 1), 8);
  }

  /** `compute_partial_stop` makes up for the shift, from a start value that is 0 in its low eight bits. */
  lemma NarrowCrcsAgree(c: Config, t: CrcTables.Table, data: seq<Byte>)
    requires c.width == 7 && IsByteTable(t, Shl(c.polynomial, 1), 8) && Low(c.initial, 8) == ZERO
    ensures Crc(c, ByteTable(t), data) == Crc(c, NoTable, data)
  {
    var p := c.initial;
    assert Low(Shl(p, 1), 8) == Low(p, 8) by {
      LowShl(p, 8);
    }
    NarrowTableAgrees(c, t, p, p, data);
    NarrowStop(c, t, TablePartial(c, ByteTable(t), p, data), BitwisePartial(c, p, data));
  }

  lemma NarrowCrcsOfNothing(c: Config, t: CrcTables.Table)
    requires c.width == 7 && CrcTables.FullTable(t) && Crc(c, ByteTable(t), []) == Crc(c, NoTable, [])
    ensures Low(c.initial, 8) == ZERO
  {
    var p := c.initial;
    NarrowStop(c, t, Low(p, 8), Low(p, 8));
    LowShl(p, 8);
    forall i: nat | i < 8
      ensures !p[i]
    {
      OwnDouble(p, i);
    }
  }

  /**
   * With width 7 the modes deliver the same CRC on every message if and only if the start value is
   * 0 in its low eight bits.
   */
  lemma NarrowModesAgree(c: Config, t: CrcTables.Table)
    requires c.width == 7 && IsByteTable(t, Shl(c.polynomial, 1), 8)
    ensures (forall data :: Crc(c, ByteTable(t), data) == Crc(c, NoTable, data)) <==> Low(c.initial, 8) == ZERO
  {
    if Low(c.initial, 8) == ZERO {
      forall data
        ensures Crc(c, ByteTable(t), data) == Crc(c, NoTable, data)
      {
        NarrowCrcsAgree(c, t, data);
      }
    }
    if forall data :: Crc(c, ByteTable(t), data) == Crc(c, NoTable, data) {
      NarrowCrcsOfNothing(c, t);
    }
  }
}
