/**
 * The CRC objects a program gets from the default constructors, and what the proofs about
 * tables, division and reversal say of them.
 */
module CrcDefaults {
  import opened Words
  import opened MbedCrc
  import opened CrcTables
  import opened CrcTableMode
  import opened CrcReversed
  import opened CrcRoms
  import opened Gf2
  import opened CrcDivision
  import opened CrcValue

  /** `mbed_crc_ctor`: the table is chosen by the polynomial alone. */
  function SelectRom(polynomial: bv32): Rom {
    if polynomial == POLY_32BIT_ANSI then ByteTable(ANSI_32BIT)
    else if polynomial == POLY_32BIT_REV_ANSI then NibbleTable(REV_ANSI_32BIT)
    else if polynomial == POLY_8BIT_CCITT then ByteTable(CCITT_8BIT)
    else if polynomial == POLY_7BIT_SD then ByteTable(SD_7BIT)
    else if polynomial == POLY_16BIT_CCITT then ByteTable(CCITT_16BIT)
    else if polynomial == POLY_16BIT_IBM then ByteTable(IBM_16BIT)
    else NoTable
  }

  const ANSI32 := Config(Of(POLY_32BIT_ANSI), 32, ALL_ONES, ALL_ONES, true, true)
  const REV_ANSI32 := Config(Of(POLY_32BIT_REV_ANSI), 32, ALL_ONES, ALL_ONES, false, false)
  const IBM16 := Config(Of(POLY_16BIT_IBM), 16, ZERO, ZERO, true, true)

  lemma RomsAreValid(polynomial: bv32)
    ensures ValidRom(SelectRom(polynomial))
  {
    TablesAreFull();
  }

  /** Any other polynomial is computed bit by bit. */
  lemma OthersHaveNoTable(polynomial: bv32)
    requires polynomial != POLY_32BIT_ANSI && polynomial != POLY_32BIT_REV_ANSI
    requires polynomial != POLY_16BIT_CCITT && polynomial != POLY_16BIT_IBM
    requires polynomial != POLY_8BIT_CCITT && polynomial != POLY_7BIT_SD
    ensures SelectRom(polynomial) == NoTable
  {
  }

  /** A polynomial with a complete table, at its own width. */
  predicate HasFullTable(polynomial: bv32, width: nat) {
    || (polynomial == POLY_32BIT_ANSI && width == 32)
    || (polynomial == POLY_16BIT_CCITT && width == 16)
    || (polynomial == POLY_8BIT_CCITT && width == 8)
  }

  lemma FullTableHoldsRemainders(polynomial: bv32, width: nat)
    requires HasFullTable(polynomial, width)
    ensures SelectRom(polynomial).ByteTable?
    ensures IsByteTable(SelectRom(polynomial).entries, Of(polynomial), width)
  {
    TablesHoldRemainders();
  }

  /** For these, table mode and bitwise mode agree from every start value on every message. */
  lemma TableModeIsBitwiseMode(c: Config, polynomial: bv32, start: Word, data: seq<Byte>)
    requires c.polynomial == Of(polynomial) && HasFullTable(polynomial, c.width)
    ensures ValidRom(SelectRom(polynomial))
    ensures Partial(c, SelectRom(polynomial), start, data) == Partial(c, NoTable, start, data)
    ensures Crc(c, SelectRom(polynomial), data) == Crc(c, NoTable, data)
  {
    FullTableHoldsRemainders(polynomial, c.width);
    TableAgrees(c, SelectRom(polynomial).entries, start, data);
    ModesAgree(c, SelectRom(polynomial).entries, data);
  }

  lemma SdTableHoldsRemainders()
    ensures SelectRom(POLY_7BIT_SD) == ByteTable(SD_7BIT)
    ensures IsByteTable(SD_7BIT, Shl(Of(POLY_7BIT_SD), 1), 8)
  {
    TablesHoldRemainders();
  }

  /** For the 7-bit polynomial the register sits one place higher, and from start value 0 the CRC is the same. */
  lemma SdTableModeIsBitwiseMode(c: Config, data: seq<Byte>)
    requires c.polynomial == Of(POLY_7BIT_SD) && c.width == 7 && c.initial == ZERO
    ensures ValidRom(SelectRom(POLY_7BIT_SD))
    ensures Partial(c, SelectRom(POLY_7BIT_SD), ZERO, data) == Low(Shl(Partial(c, NoTable, ZERO, data), 1), 8)
    ensures Crc(c, SelectRom(POLY_7BIT_SD), data) == Crc(c, NoTable, data)
  {
    SdTableHoldsRemainders();
    var t := SelectRom(POLY_7BIT_SD).entries;
    assert Low(ZERO, 8) == Low(Shl(ZERO, 1), 8) == ZERO;
    NarrowTableAgrees(c, t, ZERO, ZERO, data);
    NarrowModesAgree(c, t);
  }

  lemma DefaultsMirror()
    ensures Mirrored(REV_ANSI32, ANSI32, REV_ANSI_32BIT)
    ensures ValidRom(SelectRom(POLY_32BIT_ANSI)) && SelectRom(POLY_32BIT_REV_ANSI) == NibbleTable(REV_ANSI_32BIT)
    ensures Reflect(ALL_ONES, 32) == ALL_ONES
  {
    FullTableHoldsRemainders(POLY_32BIT_ANSI, 32);
    RevIsNibbleTable();
    PolynomialsMirror();
  }

  /** The nibble-table CRC-32 and the reflected CRC-32 deliver the same value on every message. */
  lemma Crc32FormsAgree(data: seq<Byte>)
    ensures ValidRom(SelectRom(POLY_32BIT_ANSI)) && ValidRom(SelectRom(POLY_32BIT_REV_ANSI))
    ensures Crc(REV_ANSI32, SelectRom(POLY_32BIT_REV_ANSI), data) == Crc(ANSI32, SelectRom(POLY_32BIT_ANSI), data)
  {
    DefaultsMirror();
    TableModeIsBitwiseMode(ANSI32, POLY_32BIT_ANSI, ALL_ONES, data);
    SameCrc(REV_ANSI32, ANSI32, REV_ANSI_32BIT, data);
  }

  /** Their partial values are bit reversals of each other. */
  lemma Crc32PartialsMirror(data: seq<Byte>)
    ensures ValidRom(SelectRom(POLY_32BIT_ANSI)) && ValidRom(SelectRom(POLY_32BIT_REV_ANSI))
    ensures Partial(ANSI32, SelectRom(POLY_32BIT_ANSI), ALL_ONES, data)
            == Reflect(Partial(REV_ANSI32, SelectRom(POLY_32BIT_REV_ANSI), ALL_ONES, data), 32)
  {
    DefaultsMirror();
    TableModeIsBitwiseMode(ANSI32, POLY_32BIT_ANSI, ALL_ONES, data);
    PartialsMirror(REV_ANSI32, ANSI32, REV_ANSI_32BIT, ALL_ONES, data);
  }

  lemma PartialsMirror(fast: Config, slow: Config, t: seq<bv32>, start: Word, data: seq<Byte>)
    requires Mirrored(fast, slow, t)
    ensures Partial(slow, NoTable, Reflect(start, 32), data) == Reflect(Partial(fast, NibbleTable(t), start, data), 32)
  {
    RunsMirror(fast, slow, t, start, data);
    LowAll(TableRun(fast, NibbleTable(t), start, data));
    LowAll(BitwiseRun(slow, Reflect(start, 32), data));
  }

  /** Starts from all ones, takes bytes and delivers the remainder in reflected order, and inverts it. */
  predicate Inverts(c: Config) {
    && c.width == 32 && c.reflectData && c.reflectRemainder
    && forall k :: 0 <= k < 32 ==> c.initial[k] && c.finalXor[k]
  }

  lemma Crc32Inverts()
    ensures Inverts(ANSI32) && ANSI32.polynomial == Of(POLY_32BIT_ANSI)
  {
  }

  /** What is divided then: the message in reflected bytes, its first 32 bits inverted, with 32 zeros after it. */
  lemma InvertedDividend(c: Config, data: seq<Byte>, e: nat)
    requires Inverts(c)
    ensures e in Dividend(c, c.initial, data) <==>
            ((8 * |data| <= e < 8 * |data| + 32) != (e >= 32 && BitFromEnd(c, data, e - 32)))
  {
    OnesRaised(c.initial, 8 * |data|, e);
    MessageRaised(c, data, e);
    AddMember(Raise(Register(c.initial, 32), 8 * |data|), Raise(Message(c, data), 32), e);
  }

  lemma AddMember(a: Poly, b: Poly, e: nat)
    ensures e in Add(a, b) <==> ((e in a) != (e in b))
  {
  }

  lemma MessageRaised(c: Config, data: seq<Byte>, e: nat)
    ensures e in Raise(Message(c, data), 32) <==> e >= 32 && BitFromEnd(c, data, e - 32)
  {
    if e >= 32 {
      MessageCoefficient(c, data, e - 32);
    }
  }

  lemma OnesRaised(ones: Word, n: nat, e: nat)
    requires forall k :: 0 <= k < 32 ==> ones[k]
    ensures e in Raise(Register(ones, 32), n) <==> n <= e < n + 32
  {
  }

  lemma InvertedValue(c: Config, data: seq<Byte>, r: Poly, k: nat)
    requires Inverts(c) && k < 32
    requires IsRemainder(Dividend(c, c.initial, data), r, Generator(c.polynomial, 32), 32)
    ensures Crc(c, NoTable, data)[k] <==> 31 - k !in r
  {
    CrcFromRemainder(c, data, r, k);
  }

  /** The default CRC-32 delivers the remainder of that division in reflected order, every bit inverted. */
  lemma Crc32Value(c: Config, data: seq<Byte>, r: Poly, k: nat)
    requires c == ANSI32 && k < 32
    requires IsRemainder(Dividend(c, c.initial, data), r, Generator(c.polynomial, 32), 32)
    ensures ValidRom(SelectRom(POLY_32BIT_ANSI)) && Inverts(c) && c.polynomial == Of(POLY_32BIT_ANSI)
    ensures Crc(c, SelectRom(POLY_32BIT_ANSI), data)[k] <==> 31 - k !in r
  {
    Crc32Inverts();
    TableModeIsBitwiseMode(c, POLY_32BIT_ANSI, ALL_ONES, data);
    InvertedValue(c, data, r, k);
  }

  // ----- the 16-bit IBM table

  /** No byte of `data` makes a right register look up one of the four missing entries. */
  predicate AvoidsMissing(c: Config, start: Word, data: seq<Byte>)
    requires c.width == 16
  {
    data == [] || (AvoidsMissing(c, start, data[..|data| - 1]) && !Missing(LastIndex(c, start, data)))
  }

  /** With the IBM polynomial the modes agree after every prefix of a message exactly when that is so. */
  lemma IbmAgreesExactly(c: Config, start: Word, data: seq<Byte>)
    requires c.polynomial == Of(POLY_16BIT_IBM) && c.width == 16
    ensures FullTable(IBM_16BIT)
    ensures AgreesThroughout(c, IBM_16BIT, start, data) <==> AvoidsMissing(c, start, data)
  {
    IbmFull();
    AgreesExactly(c, IBM_16BIT, start, data);
    IbmLookups(c, IBM_16BIT, start, data);
  }

  lemma {:induction false} IbmLookups(c: Config, t: Table, start: Word, data: seq<Byte>)
    requires c.polynomial == Of(POLY_16BIT_IBM) && c.width == 16 && t == IBM_16BIT && FullTable(t)
    ensures LooksUpRemainders(c, t, start, data) <==> AvoidsMissing(c, start, data)
  {
    if data != [] {
      IbmLookups(c, t, start, data[..|data| - 1]);
      IbmEntryIsRemainder(LastIndex(c, start, data));
    }
  }

  lemma IbmIsSelected()
    ensures SelectRom(POLY_16BIT_IBM) == ByteTable(IBM_16BIT)
  {
  }

  /** Through the table selected, a message that avoids the missing entries gets the CRC of the bitwise mode. */
  lemma IbmCrcAgrees(c: Config, data: seq<Byte>)
    requires c.polynomial == Of(POLY_16BIT_IBM) && c.width == 16 && AvoidsMissing(c, c.initial, data)
    ensures ValidRom(SelectRom(POLY_16BIT_IBM))
    ensures Crc(c, SelectRom(POLY_16BIT_IBM), data) == Crc(c, NoTable, data)
  {
    IbmIsSelected();
    IbmEntriesAgree(c, data);
  }

  lemma IbmEntriesAgree(c: Config, data: seq<Byte>)
    requires c.polynomial == Of(POLY_16BIT_IBM) && c.width == 16 && AvoidsMissing(c, c.initial, data)
    ensures FullTable(IBM_16BIT)
    ensures Crc(c, ByteTable(IBM_16BIT), data) == Crc(c, NoTable, data)
  {
    IbmAgreesExactly(c, c.initial, data);
    CrcsAgreeExactly(c, IBM_16BIT, data);
  }

  /** The CRCs of a message and of all its prefixes are right exactly when it avoids the missing entries. */
  lemma IbmCrcsAgreeExactly(c: Config, data: seq<Byte>)
    requires c.polynomial == Of(POLY_16BIT_IBM) && c.width == 16
    ensures FullTable(IBM_16BIT)
    ensures CrcsAgreeThroughout(c, IBM_16BIT, data) <==> AvoidsMissing(c, c.initial, data)
  {
    IbmAgreesExactly(c, c.initial, data);
    CrcsThroughout(c, IBM_16BIT, data);
  }

  ghost predicate CrcsAgreeThroughout(c: Config, t: Table, data: seq<Byte>)
    requires ValidWidth(c.width) && FullTable(t)
  {
    && Crc(c, ByteTable(t), data) == Crc(c, NoTable, data)
    && (data == [] || CrcsAgreeThroughout(c, t, data[..|data| - 1]))
  }

  lemma {:induction false} CrcsThroughout(c: Config, t: Table, data: seq<Byte>)
    requires 8 <= c.width <= 32 && FullTable(t)
    ensures CrcsAgreeThroughout(c, t, data) <==> AgreesThroughout(c, t, c.initial, data)
    decreases |data|
  {
    CrcsAgreeExactly(c, t, data);
    if data != [] {
      CrcsThroughout(c, t, data[..|data| - 1]);
    }
  }

  /** The bits of the byte 0x3F. */
  const BYTE_3F: Byte := [true, true, true, true, true, true, false, false]

  /** The message 0x3F makes the default object look up a missing entry, and `compute` delivers a wrong CRC. */
  lemma IbmWitness(data: seq<Byte>)
    requires data == [BYTE_3F]
    ensures ValidRom(SelectRom(POLY_16BIT_IBM))
    ensures Crc(IBM16, SelectRom(POLY_16BIT_IBM), data) != Crc(IBM16, NoTable, data)
  {
    IbmIsSelected();
    IbmEntriesDiffer(data);
  }

  lemma IbmEntriesDiffer(data: seq<Byte>)
    requires data == [BYTE_3F]
    ensures FullTable(IBM_16BIT)
    ensures Crc(IBM16, ByteTable(IBM_16BIT), data) != Crc(IBM16, NoTable, data)
  {
    IbmFull();
    Index3F(data);
    IbmEntryIsRemainder(LastIndex(IBM16, ZERO, data));
    WitnessCrc(IBM16, IBM_16BIT, data);
  }

  lemma WitnessCrc(c: Config, t: Table, data: seq<Byte>)
    requires c.width == 16 && c.initial == ZERO && FullTable(t) && |data| == 1
    requires !EntryIsRemainder(t, LastIndex(c, ZERO, data), c.polynomial, 16)
    ensures Crc(c, ByteTable(t), data) != Crc(c, NoTable, data)
  {
    WitnessRound(c, t, data);
    CrcsAgreeExactly(c, t, data);
  }

  lemma WitnessRound(c: Config, t: Table, data: seq<Byte>)
    requires c.width == 16 && FullTable(t) && |data| == 1
    requires !EntryIsRemainder(t, LastIndex(c, ZERO, data), c.polynomial, 16)
    ensures !AgreesAfter(c, t, ZERO, data)
  {
    assert data[..0] == [];
    PrefixExactly(c, t, ZERO, data);
  }

  lemma Index3F(data: seq<Byte>)
    requires data == [BYTE_3F]
    ensures Missing(LastIndex(IBM16, ZERO, data))
  {
    assert data[..0] == [];
    forall k | 2 <= k < 8
      ensures LastIndex(IBM16, ZERO, data)[k]
    {
      assert Reflect(Widen(BYTE_3F), 8)[k] == BYTE_3F[7 - k];
    }
  }
}
