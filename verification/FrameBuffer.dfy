/** The SSD1306 frame buffer: one bit for each pixel, eight rows to a byte, seen through a rotation. */
module FrameBuffer {
  import opened Multiples
  import opened GfxLine

  // ----- bits of a byte

  /** `_BV`. */
  function Bv(bit: nat): bv8
    requires bit < 8
  {
    match bit
    case 0 => 1 case 1 => 2 case 2 => 4 case 3 => 8
    case 4 => 16 case 5 => 32 case 6 => 64 case 7 => 128
  }

  predicate Bit(b: bv8, k: nat)
    requires k < 8
  {
    b & Bv(k) != 0
  }

  function SetBit(b: bv8, k: nat, white: bool): bv8
    requires k < 8
  {
    if white then b | Bv(k) else b & !Bv(k)
  }

  lemma SetBitIs(b: bv8, k: nat, white: bool, j: nat)
    requires k < 8 && j < 8
    ensures Bit(SetBit(b, k, white), j) == if j == k then white else Bit(b, j)
  {
    SetBitIsBv(b, Bv(k), Bv(j), white);
    BvApart(j, k);
  }

  lemma BvApart(j: nat, k: nat)
    requires k < 8 && j < 8
    ensures j == k <==> Bv(j) == Bv(k)
    ensures OneBit(Bv(j))
  {
  }

  predicate OneBit(m: bv8) { m == 1 || m == 2 || m == 4 || m == 8 || m == 16 || m == 32 || m == 64 || m == 128 }

  lemma SetBitIsBv(b: bv8, m: bv8, n: bv8, white: bool)
    ensures OneBit(m) && OneBit(n) ==>
              (((if white then b | m else b & !m) & n) != 0) == (if n == m then white else b & n != 0)
  {
  }

  // ----- pixels and bits

  datatype Screen = Screen(rawWidth: nat, rawHeight: nat, rotation: nat) {
    predicate Valid() { 0 < rawWidth < 256 && 0 < rawHeight < 256 && rotation < 4 }
    function Width(): nat { if rotation % 2 == 0 then rawWidth else rawHeight }
    function Height(): nat { if rotation % 2 == 0 then rawHeight else rawWidth }
    predicate Has(p: Pixel) { 0 <= p.x < Width() && 0 <= p.y < Height() }

    /** Where the pixel is when the display is not rotated. */
    function Raw(p: Pixel): Pixel {
      match rotation
      case 1 => Pixel(rawWidth - p.y - 1, p.x)
      case 2 => Pixel(rawWidth - p.x - 1, rawHeight - p.y - 1)
      case 3 => Pixel(p.y, rawHeight - p.x - 1)
      case _ => p
    }

    /** The inverse of `Raw`. */
    function Logical(p: Pixel): Pixel {
      match rotation
      case 1 => Pixel(p.y, rawWidth - p.x - 1)
      case 2 => Pixel(rawWidth - p.x - 1, rawHeight - p.y - 1)
      case 3 => Pixel(rawHeight - p.y - 1, p.x)
      case _ => p
    }

    function Index(p: Pixel): nat
      requires Valid() && Has(p)
    {
      Raw(p).x + (Raw(p).y / 8) * rawWidth
    }

    function BitOf(p: Pixel): nat
      requires Valid() && Has(p)
    {
      Raw(p).y % 8
    }

    /** The size of the buffer in bytes. */
    function Size(): nat { rawHeight * rawWidth / 8 }
  }

  lemma RawInside(s: Screen, p: Pixel)
    requires s.Valid() && s.Has(p)
    ensures var q := s.Raw(p); 0 <= q.x < s.rawWidth && 0 <= q.y < s.rawHeight && s.Logical(q) == p
  {
  }

  lemma LogicalInside(s: Screen, q: Pixel)
    requires s.Valid() && 0 <= q.x < s.rawWidth && 0 <= q.y < s.rawHeight
    ensures s.Has(s.Logical(q)) && s.Raw(s.Logical(q)) == q
  {
  }

  /** Each rotation is a quarter turn of the one before: x and y of the turned screen run down and leftwards. */
  lemma QuarterTurn(s: Screen, p: Pixel)
    requires s.Valid()
    ensures var t := s.(rotation := (s.rotation + 1) % 4);
            && t.Width() == s.Height() && t.Height() == s.Width()
            && (t.Has(p) ==> s.Has(Pixel(s.Width() - 1 - p.y, p.x)))
            && t.Raw(p) == s.Raw(Pixel(s.Width() - 1 - p.y, p.x))
    ensures s.rotation == 0 ==> s.Raw(p) == p
  {
  }

  /** So the pixel that a quarter turn brings elsewhere stays the same bit of the buffer. */
  lemma QuarterTurnKeepsBit(s: Screen, p: Pixel)
    requires s.Valid()
    ensures var t, q := s.(rotation := (s.rotation + 1) % 4), Pixel(s.Width() - 1 - p.y, p.x);
            t.Has(p) ==> s.Has(q) && t.Index(p) == s.Index(q) && t.BitOf(p) == s.BitOf(q)
  {
    QuarterTurn(s, p);
  }

  /**
   * How an unrotated display lies in the buffer: the first pixel is the lowest bit of the first byte; the
   * pixel below is the next higher bit of the same byte, or the lowest bit a whole row of bytes further on
   * after the eighth; and the pixel to the right is the same bit of the next byte.
   */
  lemma Layout(s: Screen, p: Pixel)
    requires s.Valid() && s.rotation == 0 && s.Has(p)
    ensures p == Pixel(0, 0) ==> s.Index(p) == 0 && s.BitOf(p) == 0
    ensures var below := Pixel(p.x, p.y + 1);
            s.Has(below) ==>
              if s.BitOf(p) < 7 then s.Index(below) == s.Index(p) && s.BitOf(below) == s.BitOf(p) + 1
              else s.Index(below) == s.Index(p) + s.rawWidth && s.BitOf(below) == 0
    ensures var right := Pixel(p.x + 1, p.y);
            s.Has(right) ==> s.Index(right) == s.Index(p) + 1 && s.BitOf(right) == s.BitOf(p)
    ensures s.BitOf(p) < 8
  {
    var a, b := p.y / 8, p.y % 8;
    assert p.y == 8 * a + b;
    if b < 7 {
      assert (p.y + 1) / 8 == a && (p.y + 1) % 8 == b + 1;
    } else {
      assert (p.y + 1) / 8 == a + 1 && (p.y + 1) % 8 == 0;
      assert (a + 1) * s.rawWidth == a * s.rawWidth + s.rawWidth;
    }
  }

  /** Each bit of a byte is twice the one before, from 1 on. */
  lemma BitsDouble(k: nat)
    requires k < 8
    ensures Bv(0) == 1 && (k < 7 ==> Bv(k + 1) == Bv(k) << 1)
  {
  }

  /** Two pixels never share a bit. */
  lemma OneToOne(s: Screen, p: Pixel, q: Pixel)
    requires s.Valid() && s.Has(p) && s.Has(q)
    requires s.Index(p) == s.Index(q) && s.BitOf(p) == s.BitOf(q)
    ensures p == q
  {
    RawInside(s, p);
    RawInside(s, q);
    var a, b := s.Raw(p), s.Raw(q);
    SameQuotient(a.y / 8, b.y / 8, s.rawWidth, a.x, b.x);
    assert a.y == 8 * (a.y / 8) + a.y % 8;
    assert b.y == 8 * (b.y / 8) + b.y % 8;
  }

  /** Whole bytes of rows: the buffer's size is then a whole number of rows of bytes. */
  lemma SizeOf(s: Screen, q: nat)
    requires s.rawHeight == 8 * q
    ensures s.Size() == q * s.rawWidth
  {
    assert s.rawHeight * s.rawWidth == 8 * (q * s.rawWidth);
  }

  lemma RowTimes(a: nat, q: nat, x: nat, w: nat)
    requires a < q && x < w
    ensures x + a * w < q * w
  {
    LessTimes(a, q, w);
  }

  /** When the height is a whole number of bytes every pixel's byte lies in the buffer. */
  lemma InBounds(s: Screen, p: Pixel)
    requires s.Valid() && s.rawHeight % 8 == 0 && s.Has(p)
    ensures s.Index(p) < s.Size()
  {
    RawInside(s, p);
    var q := s.rawHeight / 8;
    SizeOf(s, q);
    RowTimes(s.Raw(p).y / 8, q, s.Raw(p).x, s.rawWidth);
  }

  /** Otherwise the last row of pixels reaches beyond the buffer. */
  lemma InBoundsExactly(s: Screen)
    requires s.Valid()
    ensures (forall p :: s.Has(p) ==> s.Index(p) < s.Size()) <==> s.rawHeight % 8 == 0
  {
    if s.rawHeight % 8 == 0 {
      forall p | s.Has(p)
        ensures s.Index(p) < s.Size()
      {
        InBounds(s, p);
      }
    } else {
      var last := Pixel(s.rawWidth - 1, s.rawHeight - 1);
      LogicalInside(s, last);
      LastRow(s.rawHeight, s.rawWidth);
      assert s.Index(s.Logical(last)) >= s.Size();
    }
  }

  lemma LastRow(h: nat, w: nat)
    requires h % 8 != 0 && w > 0
    ensures w - 1 + (h - 1) / 8 * w >= h * w / 8
  {
    var q, r := h / 8, h % 8;
    assert h == 8 * q + r && (h - 1) / 8 == q;
    assert h * w == 8 * (q * w) + r * w;
    LessTimes(r, 8, w);
  }

  /** Every bit of the buffer is some pixel's. */
  lemma Onto(s: Screen, index: nat, bit: nat) returns (p: Pixel)
    requires s.Valid() && s.rawHeight % 8 == 0 && index < s.Size() && bit < 8
    ensures s.Has(p) && s.Index(p) == index && s.BitOf(p) == bit
  {
    var q := s.rawHeight / 8;
    SizeOf(s, q);
    var row, x := index / s.rawWidth, index % s.rawWidth;
    assert index == row * s.rawWidth + x;
    RowBelow(row, q, s.rawWidth, x);
    p := AtPlace(s, row, x, bit);
  }

  lemma AtPlace(s: Screen, row: nat, x: nat, bit: nat) returns (p: Pixel)
    requires s.Valid() && bit < 8 && x < s.rawWidth && 8 * row + bit < s.rawHeight
    ensures s.Has(p) && s.Index(p) == x + row * s.rawWidth && s.BitOf(p) == bit
  {
    var y := 8 * row + bit;
    LogicalInside(s, Pixel(x, y));
    assert y / 8 == row && y % 8 == bit;
    p := s.Logical(Pixel(x, y));
  }

  lemma RowBelow(row: nat, q: nat, w: nat, x: nat)
    requires row * w + x < q * w
    ensures row < q
  {
    if row > q {
      LessTimes(q, row, w);
    }
  }

  // ----- drawing

  predicate Fits(s: Screen, buf: seq<bv8>) { s.Valid() && s.rawHeight % 8 == 0 && |buf| == s.Size() }

  predicate Lit(s: Screen, buf: seq<bv8>, p: Pixel)
    requires Fits(s, buf) && s.Has(p)
  {
    InBounds(s, p);
    Bit(buf[s.Index(p)], s.BitOf(p))
  }

  /** `drawPixel`: a pixel off the screen is left out. */
  function Put(s: Screen, buf: seq<bv8>, p: Pixel, white: bool): (r: seq<bv8>)
    requires Fits(s, buf)
    ensures |r| == |buf|
  {
    if !s.Has(p) then buf
    else
      InBounds(s, p);
      buf[s.Index(p) := SetBit(buf[s.Index(p)], s.BitOf(p), white)]
  }

  /** The pixels, one after the other, in one colour. */
  function Paint(s: Screen, buf: seq<bv8>, ps: seq<Pixel>, white: bool): (r: seq<bv8>)
    requires Fits(s, buf)
    ensures |r| == |buf|
    decreases |ps|
  {
    if ps == [] then buf else Put(s, Paint(s, buf, ps[..|ps| - 1], white), ps[|ps| - 1], white)
  }

  lemma PutShows(s: Screen, buf: seq<bv8>, p: Pixel, white: bool, q: Pixel)
    requires Fits(s, buf) && s.Has(q)
    ensures Lit(s, Put(s, buf, p, white), q) == if q == p then white else Lit(s, buf, q)
  {
    if s.Has(p) {
      InBounds(s, p);
      InBounds(s, q);
      SetBitIs(buf[s.Index(p)], s.BitOf(p), white, s.BitOf(q));
      if s.Index(p) == s.Index(q) && s.BitOf(p) == s.BitOf(q) {
        OneToOne(s, p, q);
      }
    }
  }

  /** Painting changes the pixels listed, and no others. */
  lemma {:induction false} PaintShows(s: Screen, buf: seq<bv8>, ps: seq<Pixel>, white: bool, q: Pixel)
    requires Fits(s, buf) && s.Has(q)
    ensures Lit(s, Paint(s, buf, ps, white), q) == if q in ps then white else Lit(s, buf, q)
    decreases |ps|
  {
    if ps != [] {
      var n := |ps| - 1;
      PutShows(s, Paint(s, buf, ps[..n], white), ps[n], white, q);
      PaintShows(s, buf, ps[..n], white, q);
      assert ps == ps[..n] + [ps[n]];
    }
  }

  lemma {:induction false} PaintAppend(s: Screen, buf: seq<bv8>, ps: seq<Pixel>, qs: seq<Pixel>, white: bool)
    requires Fits(s, buf)
    ensures Paint(s, buf, ps + qs, white) == Paint(s, Paint(s, buf, ps, white), qs, white)
    decreases |qs|
  {
    if qs == [] {
      assert ps + qs == ps;
    } else {
      var n := |qs| - 1;
      assert (ps + qs)[..|ps| + n] == ps + qs[..n];
      PaintAppend(s, buf, ps, qs[..n], white);
    }
  }

  /** Buffers that show the same picture are equal: the pixels account for every bit. */
  lemma SamePicture(s: Screen, a: seq<bv8>, b: seq<bv8>)
    requires Fits(s, a) && Fits(s, b)
    requires forall p :: s.Has(p) ==> Lit(s, a, p) == Lit(s, b, p)
    ensures a == b
  {
    forall i | 0 <= i < |a|
      ensures a[i] == b[i]
    {
      forall k: nat | k < 8
        ensures Bit(a[i], k) == Bit(b[i], k)
      {
        var p := Onto(s, i, k);
        assert Lit(s, a, p) == Lit(s, b, p);
      }
      SameBits(a[i], b[i]);
    }
  }

  lemma SameBits(a: bv8, b: bv8)
    requires forall k: nat :: k < 8 ==> Bit(a, k) == Bit(b, k)
    ensures a == b
  {
    assert Bit(a, 0) == Bit(b, 0) && Bit(a, 1) == Bit(b, 1) && Bit(a, 2) == Bit(b, 2) && Bit(a, 3) == Bit(b, 3);
    assert Bit(a, 4) == Bit(b, 4) && Bit(a, 5) == Bit(b, 5) && Bit(a, 6) == Bit(b, 6) && Bit(a, 7) == Bit(b, 7);
  }
}
