/** The midpoint walk shared by `drawCircle` and `fillCircle`, and the pixels they draw. */
module GfxCircle {
  import opened GfxLine

  /** The loop's variables; `ddF_x` and `ddF_y` are 2x + 1 and -2y throughout. */
  datatype Arc = Arc(x: int, y: int, f: int)

  function First(r: nat): Arc { Arc(0, r, 1 - r) }

  function Next(w: Arc): Arc {
    if w.f >= 0 then Arc(w.x + 1, w.y - 1, w.f - 2 * (w.y - 1) + 2 * (w.x + 1) + 1)
    else Arc(w.x + 1, w.y, w.f + 2 * (w.x + 1) + 1)
  }

  function Walk(r: nat, i: nat): Arc {
    if i == 0 then First(r) else Next(Walk(r, i - 1))
  }

  /** How many rounds the loop makes from `w` on. */
  function Rounds(w: Arc): nat
    decreases w.y - w.x
  {
    if w.x < w.y then 1 + Rounds(Next(w)) else 0
  }

  /** How far (x, y) is off the circle: the square of its radius minus r * r. */
  function Excess(r: nat, x: int, y: int): int { x * x + y * y - r * r }

  /** `f` measures the midpoint below the next pixel, and (x, y) stays next to the circle. */
  predicate OnArc(r: nat, w: Arc) {
    && 0 <= w.x <= w.y + 1 && 0 <= w.y <= r
    && w.f == Excess(r, w.x, w.y) + 2 * w.x + 1 - w.y
    && -w.y <= Excess(r, w.x, w.y) <= w.y
    && (w.x < w.y ==> Excess(r, w.x, w.y) <= w.y - 1)
  }

  lemma FIsMidpoint(r: nat, w: Arc)
    requires OnArc(r, w)
    ensures w.f == (w.x + 1) * (w.x + 1) + w.y * w.y - w.y - r * r
  {
  }

  lemma NextSquares(r: nat, x: int, y: int)
    ensures Excess(r, x + 1, y) == Excess(r, x, y) + 2 * x + 1
    ensures Excess(r, x + 1, y - 1) == Excess(r, x, y) + 2 * x + 1 - 2 * y + 1
  {
  }

  lemma NextOnArc(r: nat, w: Arc)
    requires OnArc(r, w) && w.x < w.y
    ensures OnArc(r, Next(w))
  {
    NextSquares(r, w.x, w.y);
  }

  /** The walk stays on the circle as long as the loop runs. */
  lemma {:induction false} WalkOnArc(r: nat, i: nat)
    requires i <= Rounds(First(r))
    ensures OnArc(r, Walk(r, i)) && Walk(r, i).x == i
    ensures Rounds(Walk(r, i)) == Rounds(First(r)) - i
    decreases i
  {
    if i > 0 {
      WalkOnArc(r, i - 1);
      NextOnArc(r, Walk(r, i - 1));
    }
  }

  /** No value of the loop leaves the range of an `int16_t`. */
  lemma NoOverflow(r: nat, w: Arc)
    requires r <= 16383 && OnArc(r, w) && w.x < w.y
    ensures var v := Next(w);
            && -0x8000 <= v.f < 0x8000 && -0x8000 <= -2 * v.y && 2 * v.x + 1 < 0x8000
            && (w.f >= 0 ==> -0x8000 <= w.f - 2 * v.y)
  {
    NextOnArc(r, w);
  }

  // ----- the pixels

  /** A call of `drawFastVLine`. */
  datatype Strip = Strip(x: int, y: int, h: int)

  /** The pixels of a strip, which is drawn as a line. */
  function VLine(v: Strip): seq<Pixel> { Line(v.x, v.y, v.x, v.y + v.h - 1) }

  function Pixels(vs: seq<Strip>): seq<Pixel>
    decreases |vs|
  {
    if vs == [] then [] else Pixels(vs[..|vs| - 1]) + VLine(vs[|vs| - 1])
  }

  /** The column from one end of the strip to the other; for h < 1 the ends are the other way round. */
  predicate OnStrip(p: Pixel, v: Strip) {
    p.x == v.x && (v.y <= p.y < v.y + v.h || v.y + v.h - 1 <= p.y <= v.y)
  }

  /** The strips of one round: columns x to either side, y up and down, and the other way round. */
  function Pair(x0: int, y0: int, x: int, y: int): seq<Strip> {
    [Strip(x0 + x, y0 - y, 2 * y + 1), Strip(x0 + y, y0 - x, 2 * x + 1),
     Strip(x0 - x, y0 - y, 2 * y + 1), Strip(x0 - y, y0 - x, 2 * x + 1)]
  }

  /** The strips after `i` rounds: the middle column and four for each round. */
  function Disc(x0: int, y0: int, r: nat, i: nat): seq<Strip> {
    if i == 0 then [Strip(x0, y0 - r, 2 * r + 1)] else Disc(x0, y0, r, i - 1) + Pair(x0, y0, Walk(r, i).x, Walk(r, i).y)
  }

  function WholeDisc(x0: int, y0: int, r: nat): seq<Strip> { Disc(x0, y0, r, Rounds(First(r))) }

  /** Some strip has the pixel. */
  ghost predicate Covers(vs: seq<Strip>, p: Pixel) { exists k :: 0 <= k < |vs| && OnStrip(p, vs[k]) }

  lemma VLineAt(x: int, y0: int, y1: int)
    ensures var ps := Line(x, y0, x, y1);
            && |ps| == Abs(y1 - y0) + 1
            && forall i :: 0 <= i < |ps| ==> ps[i] == Pixel(x, (if y0 <= y1 then y0 else y1) + i)
  {
    var s, ps := StrokeOf(x, y0, x, y1), Line(x, y0, x, y1);
    forall i | 0 <= i < |ps|
      ensures ps[i] == Pixel(x, (if y0 <= y1 then y0 else y1) + i)
    {
      NoMinor(i, s.Major());
    }
  }

  lemma NoMinor(i: nat, major: nat)
    ensures Offset(i, major, 0) == 0
  {
  }

  /** A vertical line is its column between the two ends. */
  lemma VLineHas(v: Strip, p: Pixel)
    ensures p in VLine(v) <==> OnStrip(p, v)
  {
    var y1 := v.y + v.h - 1;
    var ps := VLine(v);
    VLineAt(v.x, v.y, y1);
    if OnStrip(p, v) {
      assert ps[p.y - (if v.y <= y1 then v.y else y1)] == p;
    }
  }

  lemma {:induction false} PixelsHave(vs: seq<Strip>, p: Pixel)
    ensures p in Pixels(vs) <==> Covers(vs, p)
    decreases |vs|
  {
    if vs != [] {
      var n := |vs| - 1;
      PixelsHave(vs[..n], p);
      VLineHas(vs[n], p);
    }
  }

  lemma PairHas(x0: int, y0: int, x: nat, y: nat, p: Pixel)
    ensures Covers(Pair(x0, y0, x, y), p) <==>
            (Abs(p.x - x0) == x && Abs(p.y - y0) <= y) || (Abs(p.x - x0) == y && Abs(p.y - y0) <= x)
  {
    var vs := Pair(x0, y0, x, y);
    if Abs(p.x - x0) == x && Abs(p.y - y0) <= y {
      assert OnStrip(p, vs[0]) || OnStrip(p, vs[2]);
    } else if Abs(p.x - x0) == y && Abs(p.y - y0) <= x {
      assert OnStrip(p, vs[1]) || OnStrip(p, vs[3]);
    }
  }

  lemma CoversAppend(vs: seq<Strip>, us: seq<Strip>, p: Pixel)
    ensures Covers(vs + us, p) <==> Covers(vs, p) || Covers(us, p)
  {
    if Covers(us, p) {
      var k :| 0 <= k < |us| && OnStrip(p, us[k]);
      assert OnStrip(p, (vs + us)[|vs| + k]);
    }
    if Covers(vs, p) {
      var k :| 0 <= k < |vs| && OnStrip(p, vs[k]);
      assert OnStrip(p, (vs + us)[k]);
    }
  }

  /** A pixel of the disc lies in the middle column or in a strip of some round. */
  lemma {:induction false} InSomeRound(x0: int, y0: int, r: nat, n: nat, p: Pixel) returns (i: nat)
    requires Covers(Disc(x0, y0, r, n), p)
    ensures i <= n && Covers(if i == 0 then Disc(x0, y0, r, 0) else Pair(x0, y0, Walk(r, i).x, Walk(r, i).y), p)
    decreases n
  {
    i := n;
    if n > 0 {
      CoversAppend(Disc(x0, y0, r, n - 1), Pair(x0, y0, Walk(r, n).x, Walk(r, n).y), p);
      if Covers(Disc(x0, y0, r, n - 1), p) {
        i := InSomeRound(x0, y0, r, n - 1, p);
      }
    }
  }

  lemma {:induction false} DiscHas(x0: int, y0: int, r: nat, n: nat, i: nat, p: Pixel)
    requires i <= n && Covers(if i == 0 then Disc(x0, y0, r, 0) else Pair(x0, y0, Walk(r, i).x, Walk(r, i).y), p)
    ensures Covers(Disc(x0, y0, r, n), p)
    decreases n
  {
    if n > 0 {
      CoversAppend(Disc(x0, y0, r, n - 1), Pair(x0, y0, Walk(r, n).x, Walk(r, n).y), p);
      if i < n {
        DiscHas(x0, y0, r, n - 1, i, p);
      }
    }
  }

  lemma MiddleHas(x0: int, y0: int, r: nat, p: Pixel)
    ensures Covers(Disc(x0, y0, r, 0), p) <==> p.x == x0 && Abs(p.y - y0) <= r
  {
    var vs := Disc(x0, y0, r, 0);
    if p.x == x0 && Abs(p.y - y0) <= r {
      assert OnStrip(p, vs[0]);
    }
  }

  lemma SquareMonotone(a: nat, b: nat)
    requires a <= b
    ensures a * a <= b * b
  {
    assert b * b == a * a + (b - a) * (b + a);
  }

  lemma SquareOfAbs(v: int)
    ensures Abs(v) * Abs(v) == v * v
  {
  }

  /** Within a column of half-height `h` no point is further out than its ends. */
  lemma ColumnSound(r: nat, dx: int, dy: int, x: nat, h: nat)
    requires Abs(dx) == x && Abs(dy) <= h
    ensures Excess(r, dx, dy) <= Excess(r, x, h)
  {
    SquareOfAbs(dx);
    SquareOfAbs(dy);
    SquareMonotone(Abs(dy), h);
  }

  /** No pixel of the disc lies further out than r * r + r. */
  lemma DiscSound(x0: int, y0: int, r: nat, p: Pixel)
    requires p in Pixels(WholeDisc(x0, y0, r))
    ensures Excess(r, p.x - x0, p.y - y0) <= r
  {
    PixelsHave(WholeDisc(x0, y0, r), p);
    var i := InSomeRound(x0, y0, r, Rounds(First(r)), p);
    if i == 0 {
      MiddleHas(x0, y0, r, p);
      ColumnSound(r, p.x - x0, p.y - y0, 0, r);
    } else {
      WalkOnArc(r, i);
      var w := Walk(r, i);
      PairHas(x0, y0, w.x, w.y, p);
      if Abs(p.x - x0) == w.x && Abs(p.y - y0) <= w.y {
        ColumnSound(r, p.x - x0, p.y - y0, w.x, w.y);
      } else {
        ColumnSound(r, p.x - x0, p.y - y0, w.y, w.x);
      }
    }
  }

  // ----- every point of the circle is covered

  /** Where the walk leaves column `a`: the last round before `n` with y == a. */
  lemma {:induction false} LeavesColumn(r: nat, a: nat, n: nat) returns (i: nat)
    requires n <= Rounds(First(r)) && Walk(r, n).y < a <= r
    ensures i < n && Walk(r, i).y == a && Walk(r, i).f >= 0
    decreases n
  {
    if Walk(r, n - 1).y < a {
      i := LeavesColumn(r, a, n - 1);
    } else {
      i := n - 1;
    }
  }

  /** A point (a, b) of the circle, seen from its first quadrant, lies in one of the columns. */
  lemma Covered(r: nat, a: nat, b: nat) returns (i: nat, swapped: bool)
    requires Excess(r, a, b) <= 0 && a > 0
    ensures 0 < i <= Rounds(First(r))
    ensures var w := Walk(r, i); if swapped then a == w.y && b <= w.x else a == w.x && b <= w.y
  {
    var n := Rounds(First(r));
    WithinRadius(r, a, b);
    WalkOnArc(r, n);
    if a <= n {
      i, swapped := a, false;
      WalkOnArc(r, a);
      if b > Walk(r, a).y {
        AboveIsOutside(r, a, Walk(r, a).y, b);
      }
    } else {
      i := LeavesColumn(r, a, n);
      swapped := true;
      WalkOnArc(r, i);
      if b > i {
        RightIsOutside(r, i, a, b);
      }
    }
  }

  lemma WithinRadius(r: nat, a: nat, b: nat)
    requires Excess(r, a, b) <= 0
    ensures a <= r && b <= r
  {
    Beyond(r, a, b);
    Beyond(r, b, a);
  }

  lemma Beyond(r: nat, a: nat, b: nat)
    ensures a > r ==> Excess(r, a, b) > 2 * r
  {
    if a > r {
      SquareMonotone(r + 1, a);
      NextSquares(r, r, 0);
      SquareMonotone(0, b);
    }
  }

  lemma AboveIsOutside(r: nat, x: nat, y: int, b: nat)
    requires -y <= Excess(r, x, y) && b > y >= 0
    ensures Excess(r, x, b) > 0
  {
    SquareMonotone(y + 1, b);
  }

  lemma RightIsOutside(r: nat, x: nat, y: nat, b: nat)
    requires Excess(r, x, y) + 2 * x + 1 - y >= 0 && y > 0 && b > x
    ensures Excess(r, y, b) > 0
  {
    SquareMonotone(x + 1, b);
    NextSquares(r, x, y);
  }

  /** Every lattice point within the radius is drawn. */
  lemma DiscComplete(x0: int, y0: int, r: nat, p: Pixel)
    requires Excess(r, p.x - x0, p.y - y0) <= 0
    ensures p in Pixels(WholeDisc(x0, y0, r))
  {
    var a, b, i := Abs(p.x - x0), Abs(p.y - y0), 0;
    SquareOfAbs(p.x - x0);
    SquareOfAbs(p.y - y0);
    WithinRadius(r, a, b);
    PixelsHave(WholeDisc(x0, y0, r), p);
    if a == 0 {
      MiddleHas(x0, y0, r, p);
    } else {
      i := CoveredBy(r, a, b, x0, y0, p);
    }
    DiscHas(x0, y0, r, Rounds(First(r)), i, p);
  }

  lemma CoveredBy(r: nat, a: nat, b: nat, x0: int, y0: int, p: Pixel) returns (i: nat)
    requires Excess(r, a, b) <= 0 && a > 0 && a == Abs(p.x - x0) && b == Abs(p.y - y0)
    ensures 0 < i <= Rounds(First(r)) && Covers(Pair(x0, y0, Walk(r, i).x, Walk(r, i).y), p)
  {
    var swapped;
    i, swapped := Covered(r, a, b);
    WalkOnArc(r, i);
    PairHas(x0, y0, Walk(r, i).x, Walk(r, i).y, p);
  }

  // ----- the outline

  /** The four reflections of a point, in the order they are drawn. */
  function Four(x0: int, y0: int, a: int, b: int): seq<Pixel> {
    [Pixel(x0 + a, y0 + b), Pixel(x0 - a, y0 + b), Pixel(x0 + a, y0 - b), Pixel(x0 - a, y0 - b)]
  }

  function Outline8(x0: int, y0: int, w: Arc): seq<Pixel> {
    Four(x0, y0, w.x, w.y) + Four(x0, y0, w.y, w.x)
  }

  function Cross(x0: int, y0: int, r: nat): seq<Pixel> {
    [Pixel(x0, y0 + r), Pixel(x0, y0 - r), Pixel(x0 + r, y0), Pixel(x0 - r, y0)]
  }

  function Outline(x0: int, y0: int, r: nat, i: nat): seq<Pixel> {
    if i == 0 then Cross(x0, y0, r)
    else Outline(x0, y0, r, i - 1) + Outline8(x0, y0, Walk(r, i))
  }

  /** Every pixel of the outline is next to the circle: its squared radius is at most r off. */
  lemma {:induction false} OutlineSound(x0: int, y0: int, r: nat, n: nat, p: Pixel)
    requires n <= Rounds(First(r)) && p in Outline(x0, y0, r, n)
    ensures Abs(Excess(r, p.x - x0, p.y - y0)) <= r
    decreases n
  {
    if n == 0 {
      CrossOnCircle(x0, y0, r, p);
    } else if p in Outline(x0, y0, r, n - 1) {
      OutlineSound(x0, y0, r, n - 1, p);
    } else {
      WalkOnArc(r, n);
      EightOnCircle(x0, y0, r, Walk(r, n), p);
      NearArc(r, Walk(r, n));
    }
  }

  lemma NearArc(r: nat, w: Arc)
    requires OnArc(r, w)
    ensures Abs(Excess(r, w.x, w.y)) <= r
  {
  }

  lemma CrossOnCircle(x0: int, y0: int, r: nat, p: Pixel)
    requires p in Cross(x0, y0, r)
    ensures Excess(r, p.x - x0, p.y - y0) == 0
  {
  }

  lemma EightOnCircle(x0: int, y0: int, r: nat, w: Arc, p: Pixel)
    requires p in Outline8(x0, y0, w)
    ensures Excess(r, p.x - x0, p.y - y0) == Excess(r, w.x, w.y)
  {
  }

  lemma FourSymmetric(x0: int, y0: int, a: int, b: int, dx: int, dy: int)
    requires Pixel(x0 + dx, y0 + dy) in Four(x0, y0, a, b)
    ensures Pixel(x0 - dx, y0 + dy) in Four(x0, y0, a, b) && Pixel(x0 + dy, y0 + dx) in Four(x0, y0, b, a)
  {
    var f, g := Four(x0, y0, a, b), Four(x0, y0, b, a);
    assert f[0] in f && f[1] in f && f[2] in f && f[3] in f;
    assert g[0] in g && g[1] in g && g[2] in g && g[3] in g;
  }

  lemma EightSymmetric(x0: int, y0: int, w: Arc, dx: int, dy: int)
    requires Pixel(x0 + dx, y0 + dy) in Outline8(x0, y0, w)
    ensures Pixel(x0 - dx, y0 + dy) in Outline8(x0, y0, w) && Pixel(x0 + dy, y0 + dx) in Outline8(x0, y0, w)
  {
    if Pixel(x0 + dx, y0 + dy) in Four(x0, y0, w.x, w.y) {
      FourSymmetric(x0, y0, w.x, w.y, dx, dy);
    } else {
      FourSymmetric(x0, y0, w.y, w.x, dx, dy);
    }
  }

  lemma CrossSymmetric(x0: int, y0: int, r: nat, dx: int, dy: int)
    requires Pixel(x0 + dx, y0 + dy) in Cross(x0, y0, r)
    ensures Pixel(x0 - dx, y0 + dy) in Cross(x0, y0, r) && Pixel(x0 + dy, y0 + dx) in Cross(x0, y0, r)
  {
    var c := Cross(x0, y0, r);
    assert c[0] in c && c[1] in c && c[2] in c && c[3] in c;
  }

  /** The outline is its own image under the reflections that generate all eight of the square. */
  lemma {:induction false} OutlineSymmetric(x0: int, y0: int, r: nat, n: nat, dx: int, dy: int)
    requires Pixel(x0 + dx, y0 + dy) in Outline(x0, y0, r, n)
    ensures Pixel(x0 - dx, y0 + dy) in Outline(x0, y0, r, n) && Pixel(x0 + dy, y0 + dx) in Outline(x0, y0, r, n)
    decreases n
  {
    if n == 0 {
      CrossSymmetric(x0, y0, r, dx, dy);
    } else if Pixel(x0 + dx, y0 + dy) in Outline(x0, y0, r, n - 1) {
      OutlineSymmetric(x0, y0, r, n - 1, dx, dy);
    } else {
      EightSymmetric(x0, y0, Walk(r, n), dx, dy);
    }
  }

  lemma {:induction false} OutlineHas(x0: int, y0: int, r: nat, n: nat, i: nat, p: Pixel)
    requires i <= n && p in (if i == 0 then Cross(x0, y0, r) else Outline8(x0, y0, Walk(r, i)))
    ensures p in Outline(x0, y0, r, n)
    decreases n
  {
    if i < n {
      OutlineHas(x0, y0, r, n - 1, i, p);
    }
  }

  lemma EightHas(x0: int, y0: int, w: Arc)
    ensures Pixel(x0 + w.x, y0 + w.y) in Outline8(x0, y0, w)
    ensures Pixel(x0 + w.y, y0 + w.x) in Outline8(x0, y0, w)
  {
    var o := Outline8(x0, y0, w);
    assert o[0] in o && o[4] in o;
  }

  lemma CrossHas(x0: int, y0: int, r: nat)
    ensures Pixel(x0, y0 + r) in Cross(x0, y0, r) && Pixel(x0 + r, y0) in Cross(x0, y0, r)
  {
    var c := Cross(x0, y0, r);
    assert c[0] in c && c[2] in c;
  }

  /** The round of the walk that draws in column `a`, and the height at which it does. */
  lemma ColumnRound(r: nat, a: nat) returns (i: nat, b: nat)
    requires 0 < a < r
    ensures 0 < i <= Rounds(First(r))
    ensures (a == Walk(r, i).x && b == Walk(r, i).y) || (a == Walk(r, i).y && b == Walk(r, i).x)
  {
    var n := Rounds(First(r));
    WalkOnArc(r, n);
    if a <= n {
      WalkOnArc(r, a);
      i, b := a, Walk(r, a).y;
    } else {
      i := LeavesColumn(r, a, n);
      WalkOnArc(r, i);
      b := i;
    }
  }

  /** The outline has no gaps: each column that the circle spans has a pixel of it. */
  lemma OutlineReaches(x0: int, y0: int, r: nat, a: nat) returns (b: nat)
    requires a <= r
    ensures Pixel(x0 + a, y0 + b) in Outline(x0, y0, r, Rounds(First(r)))
  {
    var n, i := Rounds(First(r)), 0;
    if a == 0 || a == r {
      b := if a == 0 then r else 0;
      CrossHas(x0, y0, r);
    } else {
      i, b := ColumnRound(r, a);
      EightHas(x0, y0, Walk(r, i));
    }
    OutlineHas(x0, y0, r, n, i, Pixel(x0 + a, y0 + b));
  }
}
