/**
 * The software modes of `MbedCRC`: the loops as methods, each proved equal to a function on
 * words.  The functions are what the other CRC modules reason about.
 */
module MbedCrc {
  import opened Words
  import CrcTables

  /** Template parameters and constructor arguments of an `MbedCRC` object. */
  datatype Config = Config(
    polynomial: Word, width: nat, initial: Word, finalXor: Word, reflectData: bool, reflectRemainder: bool)

  /** The table an object holds: none, a 256-entry one, or the 16-entry one of the nibble form. */
  datatype Rom = NoTable | ByteTable(entries: CrcTables.Table) | NibbleTable(nibbles: seq<bv32>)

  /** Rounds per byte of data. */
  const ROUNDS: nat := 8

  predicate ValidWidth(w: nat) { 0 < w <= 32 }

  predicate ValidRom(rom: Rom) {
    match rom
    case NoTable => true
    case ByteTable(t) => CrcTables.FullTable(t)
    case NibbleTable(t) => |t| == 16
  }

  /** `get_crc_mask`: the number of low bits that are kept. */
  function MaskWidth(w: nat): nat { if w < 8 then 8 else w }

  /** `get_top_bit`: the position of the bit that decides a round. */
  function TopBit(w: nat): nat
    requires ValidWidth(w)
  {
    if w < 8 then 7 else w - 1
  }

  // ----- reflection

  method ReflectLoop(data: Word, nBits: nat) returns (reflection: Word)
    requires nBits <= 32
    ensures reflection == Reflect(data, nBits)
  {
    reflection := ZERO;
    var rest := data;
    for bit := 0 to nBits
      invariant forall i :: 0 <= i < 32 ==> rest[i] == (i + bit < 32 && data[i + bit])
      invariant forall i :: 0 <= i < 32 ==> reflection[i] == (nBits - bit <= i < nBits && data[nBits - 1 - i])
    {
      if rest[0] {
        reflection := SetBit(reflection, nBits - 1 - bit);
      }
      rest := Shr(rest, 1);
    }
    assert reflection == Reflect(data, nBits);
  }

  function ReflectBytes(c: Config, d: Byte): Word {
    if c.reflectData then Reflect(Widen(d), 8) else Widen(d)
  }

  function ReflectRemainder(c: Config, p: Word): Word
    requires ValidWidth(c.width)
  {
    if c.reflectRemainder then Reflect(p, MaskWidth(c.width)) else p
  }

  // ----- bit by bit

  /** One round of the modulo-2 division; bit `top` decides it. */
  function Step(p: Word, poly: Word, top: nat): Word
    requires top < 32
  {
    if p[top] then Xor(Shl(p, 1), poly) else Shl(p, 1)
  }

  function Steps(p: Word, poly: Word, top: nat, n: nat): Word
    requires top < 32
    decreases n
  {
    if n == 0 then p else Step(Steps(p, poly, top, n - 1), poly, top)
  }

  /** One round for widths below 8, where the data bit meets the register as it leaves. */
  function NarrowStep(p: Word, bit: bool, poly: Word): Word {
    if bit != p[6] then Xor(Shl(p, 1), poly) else Shl(p, 1)
  }

  /** The rounds for the `n` highest bits of the data byte `d`. */
  function NarrowSteps(p: Word, d: Word, poly: Word, n: nat): Word
    requires n <= 8
    decreases n
  {
    if n == 0 then p else NarrowStep(NarrowSteps(p, d, poly, n - 1), d[8 - n], poly)
  }

  function BitwiseByte(c: Config, p: Word, d: Word): Word
    requires ValidWidth(c.width)
  {
    if c.width < 8 then NarrowSteps(p, d, c.polynomial, ROUNDS)
    else Steps(Xor(p, Shl(d, c.width - 8)), c.polynomial, TopBit(c.width), ROUNDS)
  }

  /** The register after `data`, before the final mask. */
  function BitwiseRun(c: Config, p: Word, data: seq<Byte>): Word
    requires ValidWidth(c.width)
    decreases |data|
  {
    if data == [] then p
    else BitwiseByte(c, BitwiseRun(c, p, data[..|data| - 1]), ReflectBytes(c, data[|data| - 1]))
  }

  function BitwisePartial(c: Config, crc: Word, data: seq<Byte>): Word
    requires ValidWidth(c.width)
  {
    Low(BitwiseRun(c, crc, data), MaskWidth(c.width))
  }

  method BitwiseComputePartial(c: Config, data: seq<Byte>, crc: Word) returns (r: Word)
    requires ValidWidth(c.width)
    ensures r == BitwisePartial(c, crc, data)
  {
    var p := crc;
    for byte := 0 to |data|
      invariant p == BitwiseRun(c, crc, data[..byte])
    {
      var d := ReflectBytes(c, data[byte]);
      if c.width < 8 {
        p := NarrowByteLoop(p, d, c.polynomial);
      } else {
        p := ByteLoop(Xor(p, Shl(d, c.width - 8)), c.polynomial, TopBit(c.width));
      }
      assert data[..byte + 1][..byte] == data[..byte];
    }
    assert data[..|data|] == data;
    r := Low(p, MaskWidth(c.width));
  }

  method ByteLoop(start: Word, poly: Word, top: nat) returns (p: Word)
    requires top < 32
    ensures p == Steps(start, poly, top, ROUNDS)
  {
    p := start;
    for bit := 0 to ROUNDS
      invariant p == Steps(start, poly, top, bit)
    {
      if p[top] {
        p := Xor(Shl(p, 1), poly);
      } else {
        p := Shl(p, 1);
      }
    }
  }

  method NarrowByteLoop(start: Word, d: Word, poly: Word) returns (p: Word)
    ensures p == NarrowSteps(start, d, poly, ROUNDS)
  {
    p := start;
    var dataByte := Narrow(d);
    assert Shl(d, 0) == d;
    for bit := 0 to ROUNDS
      invariant p == NarrowSteps(start, d, poly, bit)
      invariant dataByte == Narrow(Shl(d, bit))
    {
      LeavingBit(dataByte, p);
      NextBit(d, bit);
      p := Shl(p, 1);
      if Xor(Widen(dataByte), p)[7] {
        p := Xor(p, poly);
      }
      dataByte := ShiftByte(dataByte);
    }
  }

  lemma LeavingBit(b: Byte, p: Word)
    ensures Xor(Widen(b), Shl(p, 1))[7] == (b[7] != p[6])
  {
  }

  /** `data_byte <<= 1` on a `uint8_t` */
  function ShiftByte(b: Byte): Byte {
    Narrow(Shl(Widen(b), 1))
  }

  lemma NextBit(d: Word, bit: nat)
    requires bit < 8
    ensures Narrow(Shl(d, bit))[7] == d[7 - bit]
    ensures ShiftByte(Narrow(Shl(d, bit))) == Narrow(Shl(d, bit + 1))
  {
  }

  // ----- tables

  function TableByte(c: Config, rom: Rom, p: Word, d: Byte): Word
    requires ValidWidth(c.width) && ValidRom(rom) && !rom.NoTable?
  {
    match rom
    case NibbleTable(t) =>
      var w := Widen(d);
      var half := Xor(Shr(p, 4), CrcTables.Nibble(t, Xor(p, w)));
      Xor(Shr(half, 4), CrcTables.Nibble(t, Xor(half, Shr(w, 4))))
    case ByteTable(t) =>
      if c.width <= 8 then CrcTables.Entry(t, Narrow(Xor(ReflectBytes(c, d), p)))
      else Xor(CrcTables.Entry(t, Narrow(Xor(ReflectBytes(c, d), Shr(p, c.width - 8)))), Shl(p, 8))
  }

  function TableRun(c: Config, rom: Rom, p: Word, data: seq<Byte>): Word
    requires ValidWidth(c.width) && ValidRom(rom) && !rom.NoTable?
    decreases |data|
  {
    if data == [] then p
    else TableByte(c, rom, TableRun(c, rom, p, data[..|data| - 1]), data[|data| - 1])
  }

  function TablePartial(c: Config, rom: Rom, crc: Word, data: seq<Byte>): Word
    requires ValidWidth(c.width) && ValidRom(rom) && !rom.NoTable?
  {
    Low(TableRun(c, rom, crc, data), MaskWidth(c.width))
  }

  method TableComputePartial(c: Config, rom: Rom, data: seq<Byte>, crc: Word) returns (r: Word)
    requires ValidWidth(c.width) && ValidRom(rom) && !rom.NoTable?
    requires rom.NibbleTable? ==> c.width > 16
    ensures r == TablePartial(c, rom, crc, data)
  {
    var p := crc;
    for byte := 0 to |data|
      invariant p == TableRun(c, rom, crc, data[..byte])
    {
      if rom.NibbleTable? {
        var d := Widen(data[byte]);
        p := Xor(Shr(p, 4), CrcTables.Nibble(rom.nibbles, Xor(p, d)));
        p := Xor(Shr(p, 4), CrcTables.Nibble(rom.nibbles, Xor(p, Shr(d, 4))));
      } else if c.width <= 8 {
        p := CrcTables.Entry(rom.entries, Narrow(Xor(ReflectBytes(c, data[byte]), p)));
      } else {
        var dataByte := Narrow(Xor(ReflectBytes(c, data[byte]), Shr(p, c.width - 8)));
        p := Xor(CrcTables.Entry(rom.entries, dataByte), Shl(p, 8));
      }
      assert data[..byte + 1][..byte] == data[..byte];
    }
    assert data[..|data|] == data;
    r := Low(p, MaskWidth(c.width));
  }

  // ----- the whole computation

  function Partial(c: Config, rom: Rom, crc: Word, data: seq<Byte>): Word
    requires ValidWidth(c.width) && ValidRom(rom)
  {
    if rom.NoTable? then BitwisePartial(c, crc, data) else TablePartial(c, rom, crc, data)
  }

  /** `compute_partial_stop` */
  function Stop(c: Config, rom: Rom, crc: Word): Word
    requires ValidWidth(c.width)
  {
    var p := if c.width < 8 && rom.NoTable? then Shl(crc, 8 - c.width) else crc;
    var q := if rom.NibbleTable? then p else ReflectRemainder(c, p);
    Low(Xor(q, c.finalXor), MaskWidth(c.width))
  }

  /** The value `compute` delivers. */
  function Crc(c: Config, rom: Rom, data: seq<Byte>): Word
    requires ValidWidth(c.width) && ValidRom(rom)
  {
    Stop(c, rom, Partial(c, rom, c.initial, data))
  }

  /** `compute_partial` */
  method ComputePartial(c: Config, rom: Rom, data: seq<Byte>, crc: Word) returns (r: Word)
    requires ValidWidth(c.width) && ValidRom(rom)
    requires rom.NibbleTable? ==> c.width > 16
    ensures r == Partial(c, rom, crc, data)
  {
    if rom.NoTable? {
      r := BitwiseComputePartial(c, data, crc);
    } else {
      r := TableComputePartial(c, rom, data, crc);
    }
  }

  method ComputePartialStop(c: Config, rom: Rom, crc: Word) returns (r: Word)
    requires ValidWidth(c.width)
    ensures r == Stop(c, rom, crc)
  {
    var p := crc;
    if c.width < 8 && rom.NoTable? {
      p := Shl(p, 8 - c.width);
    }
    if !rom.NibbleTable? {
      p := ReflectRemainderLoop(c, p);
    }
    r := Low(Xor(p, c.finalXor), MaskWidth(c.width));
  }

  /** `reflect_remainder` */
  method ReflectRemainderLoop(c: Config, p: Word) returns (r: Word)
    requires ValidWidth(c.width)
    ensures r == ReflectRemainder(c, p)
  {
    r := p;
    if c.reflectRemainder {
      r := ReflectLoop(p, MaskWidth(c.width));
    }
  }

  method Compute(c: Config, rom: Rom, data: seq<Byte>) returns (crc: Word)
    requires ValidWidth(c.width) && ValidRom(rom)
    requires rom.NibbleTable? ==> c.width > 16
    ensures crc == Crc(c, rom, data)
  {
    crc := ComputePartial(c, rom, data, c.initial);
    crc := ComputePartialStop(c, rom, crc);
  }
}
