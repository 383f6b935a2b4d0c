/** The pixels of `Adafruit_GFX::drawLine`, and of the shapes made of lines. */
module GfxLine {
  import opened Multiples

  datatype Pixel = Pixel(x: int, y: int)

  /** What is left of a value stored in an `int16_t`. */
  function Wrap16(v: int): (w: int)
    ensures -0x8000 <= w < 0x8000
    ensures -0x8000 <= v < 0x8000 ==> w == v
  {
    (v + 0x8000) % 0x1_0000 - 0x8000
  }

  function Abs(v: int): (a: nat) { if v < 0 then -v else v }

  /** A line as the loop walks it: from (a0, b0) to (a1, b1) with a0 <= a1, the axes swapped if steep. */
  datatype Stroke = Stroke(steep: bool, a0: int, b0: int, a1: int, b1: int) {
    predicate Valid() { a0 <= a1 && Abs(b1 - b0) <= a1 - a0 }
    function Major(): int { a1 - a0 }
    function Minor(): nat { Abs(b1 - b0) }
    function Sign(): int { if b0 < b1 then 1 else -1 }

    function At(i: nat): Pixel
      requires Valid()
    {
      var b := b0 + Sign() * Offset(i, Major(), Minor());
      if steep then Pixel(b, a0 + i) else Pixel(a0 + i, b)
    }
  }

  function StrokeOf(x0: int, y0: int, x1: int, y1: int): (s: Stroke)
    ensures s.Valid()
  {
    var steep := Abs(y1 - y0) > Abs(x1 - x0);
    var (a0, b0, a1, b1) := if steep then (y0, x0, y1, x1) else (x0, y0, x1, y1);
    if a0 > a1 then Stroke(steep, a1, b1, a0, b0) else Stroke(steep, a0, b0, a1, b1)
  }

  /** The nearest whole minor offset to `i * minor / major`; a half is rounded down. */
  function Offset(i: nat, major: nat, minor: nat): nat {
    if major == 0 then 0 else (i * minor + (major - 1) / 2) / major
  }

  /** The pixels of a line in the order they are drawn. */
  function Line(x0: int, y0: int, x1: int, y1: int): (ps: seq<Pixel>)
  {
    var s := StrokeOf(x0, y0, x1, y1);
    seq(s.Major() + 1, (i: nat) => s.At(i))
  }

  // ----- the error term

  /** The value of `err` after `i` rounds. */
  function Err(i: nat, major: nat, minor: nat): int {
    major / 2 - i * minor + Offset(i, major, minor) * major
  }

  lemma HalfAndRest(d: nat)
    requires d > 0
    ensures (d - 1) / 2 == d - 1 - d / 2
  {
  }

  lemma ErrInRange(i: nat, major: nat, minor: nat)
    requires major > 0
    ensures 0 <= Err(i, major, minor) < major
  {
    HalfAndRest(major);
    var n := i * minor + (major - 1) / 2;
    assert n == n / major * major + n % major;
  }

  /** The offset is the only one that keeps the error term in its range. */
  lemma OffsetIs(i: nat, major: nat, minor: nat, k: nat, err: int)
    requires major > 0 && err == major / 2 - i * minor + k * major && 0 <= err < major
    ensures Offset(i, major, minor) == k && Err(i, major, minor) == err
  {
    HalfAndRest(major);
    QuotientUnique(i * minor + (major - 1) / 2, major, k, major - 1 - err);
  }

  /** One round of the loop: subtract, and step the minor coordinate when the error turns negative. */
  lemma ErrStep(i: nat, major: nat, minor: nat)
    requires minor <= major
    ensures var e := Err(i, major, minor) - minor;
            && Offset(i + 1, major, minor) == Offset(i, major, minor) + (if e < 0 then 1 else 0)
            && Err(i + 1, major, minor) == (if e < 0 then e + major else e)
  {
    if major > 0 {
      ErrInRange(i, major, minor);
      var e, k := Err(i, major, minor) - minor, Offset(i, major, minor);
      assert (i + 1) * minor == i * minor + minor;
      assert (k + 1) * major == k * major + major;
      if e < 0 {
        OffsetIs(i + 1, major, minor, k + 1, e + major);
      } else {
        OffsetIs(i + 1, major, minor, k, e);
      }
    }
  }

  lemma OffsetStart(major: nat, minor: nat)
    ensures Offset(0, major, minor) == 0 && Err(0, major, minor) == major / 2
  {
    if major > 0 {
      OffsetIs(0, major, minor, 0, major / 2);
    }
  }

  lemma OffsetEnd(major: nat, minor: nat)
    requires minor <= major
    ensures Offset(major, major, minor) == minor
  {
    if major > 0 {
      OffsetIs(major, major, minor, minor, major / 2);
    }
  }

  // ----- what a line is

  /** Each pixel is a nearest one to the ideal line: at most half a pixel off. */
  lemma Nearest(i: nat, major: nat, minor: nat)
    requires major > 0
    ensures 2 * Abs(Offset(i, major, minor) * major - i * minor) <= major
  {
    ErrInRange(i, major, minor);
  }

  /** The line has one pixel for each major coordinate, from one endpoint to the other. */
  lemma LineSpans(x0: int, y0: int, x1: int, y1: int)
    ensures var s, ps := StrokeOf(x0, y0, x1, y1), Line(x0, y0, x1, y1);
            && |ps| == (if Abs(x1 - x0) < Abs(y1 - y0) then Abs(y1 - y0) else Abs(x1 - x0)) + 1
            && (forall i :: 0 <= i < |ps| ==> (if s.steep then ps[i].y else ps[i].x) == s.a0 + i)
            && ((ps[0] == Pixel(x0, y0) && ps[|ps| - 1] == Pixel(x1, y1))
                || (ps[0] == Pixel(x1, y1) && ps[|ps| - 1] == Pixel(x0, y0)))
  {
    var s := StrokeOf(x0, y0, x1, y1);
    OffsetStart(s.Major(), s.Minor());
    OffsetEnd(s.Major(), s.Minor());
  }

  /** In every octant a pixel's distance from the ideal line, along the minor axis, is at most half a pixel. */
  lemma LineIsNearest(x0: int, y0: int, x1: int, y1: int, i: nat)
    requires i < |Line(x0, y0, x1, y1)|
    ensures var p, dx, dy := Line(x0, y0, x1, y1)[i], x1 - x0, y1 - y0;
            2 * Abs((p.y - y0) * dx - (p.x - x0) * dy) <= (if Abs(dx) < Abs(dy) then Abs(dy) else Abs(dx))
  {
    var s := StrokeOf(x0, y0, x1, y1);
    var k := Offset(i, s.Major(), s.Minor());
    if s.Major() > 0 {
      Nearest(i, s.Major(), s.Minor());
      CrossProduct(s, i, k);
      assert Line(x0, y0, x1, y1)[i] == s.At(i);
      if !(s.a0 == (if s.steep then y0 else x0) && s.b0 == (if s.steep then x0 else y0)) {
        OtherEnd(s.At(i).x, s.At(i).y, x0, y0, x1, y1);
      }
    }
  }

  /** Halfway between two pixels it is the one nearer to the end with the smaller major coordinate. */
  lemma TiesStayBack(x0: int, y0: int, x1: int, y1: int, i: nat)
    requires i < |Line(x0, y0, x1, y1)| && (x0, y0) != (x1, y1)
    ensures var s, p := StrokeOf(x0, y0, x1, y1), Line(x0, y0, x1, y1)[i];
            var k := Abs((if s.steep then p.x else p.y) - s.b0);
            2 * (k * s.Major() - i * s.Minor()) < s.Major()
  {
    var s := StrokeOf(x0, y0, x1, y1);
    assert Line(x0, y0, x1, y1)[i] == s.At(i);
    ErrInRange(i, s.Major(), s.Minor());
  }

  lemma OtherEnd(px: int, py: int, x0: int, y0: int, x1: int, y1: int)
    ensures (py - y0) * (x1 - x0) - (px - x0) * (y1 - y0) == -((py - y1) * (x0 - x1) - (px - x1) * (y0 - y1))
  {
  }

  /** How far pixel `i` of a stroke is off its line, in the stroke's own axes. */
  lemma CrossProduct(s: Stroke, i: nat, k: int)
    requires s.Valid() && k == Offset(i, s.Major(), s.Minor())
    ensures var b := s.b0 + s.Sign() * k;
            Abs((b - s.b0) * (s.a1 - s.a0) - i * (s.b1 - s.b0)) == Abs(k * s.Major() - i * s.Minor())
  {
    if s.b0 < s.b1 {
      assert s.Sign() * k == k;
    } else {
      assert s.Sign() * k == -k;
      assert (-k) * s.Major() == -(k * s.Major());
      assert i * (s.b1 - s.b0) == -(i * s.Minor());
    }
  }

  /** The line does not depend on which endpoint is given first. */
  lemma LineIsSymmetric(x0: int, y0: int, x1: int, y1: int)
    ensures Line(x0, y0, x1, y1) == Line(x1, y1, x0, y0)
  {
    assert StrokeOf(x0, y0, x1, y1) == StrokeOf(x1, y1, x0, y0);
  }
}
