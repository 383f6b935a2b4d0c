/** The display: `Adafruit_SSD1306` with the drawing operations it inherits from `Adafruit_GFX`. */
module Display {
  import opened Multiples
  import opened GfxLine
  import opened GfxCircle
  import opened FrameBuffer

  const WHITE: nat := 1

  predicate Int16(v: int) { -0x8000 <= v < 0x8000 }

  /** The loop of `drawLine` ends: its `int16_t` counter can pass the last coordinate. */
  predicate Ends(x0: int, y0: int, x1: int, y1: int) {
    Int16(x0) && Int16(y0) && Int16(x1) && Int16(y1) && StrokeOf(x0, y0, x1, y1).a1 < 0x7FFF
  }

  /** It also draws the line: the extent fits the `int16_t` it is kept in. */
  predicate Drawable(x0: int, y0: int, x1: int, y1: int) {
    Ends(x0, y0, x1, y1) && StrokeOf(x0, y0, x1, y1).Major() < 0x8000
  }

  /** The same for a vertical line, which is steep unless it is a single pixel. */
  predicate StripDrawable(v: Strip) {
    && Int16(v.x) && Int16(v.y) && Int16(v.y + v.h - 1) && Int16(v.h - 1) && v.h > -0x7FFF
    && if v.h == 1 then v.x < 0x7FFF else v.y < 0x7FFF && v.y + v.h - 1 < 0x7FFF
  }

  lemma StripIsDrawable(v: Strip)
    ensures StripDrawable(v) <==> Drawable(v.x, v.y, v.x, v.y + v.h - 1)
  {
  }

  /** The strips of `fillRect`. */
  function Rect(x: int, y: int, w: int, h: int): seq<Strip> {
    seq(if w < 0 then 0 else w, (i: nat) => Strip(x + i, y, h))
  }

  lemma RectNext(x: int, y: int, n: nat, h: int)
    ensures Pixels(Rect(x, y, n + 1, h)) == Pixels(Rect(x, y, n, h)) + VLine(Strip(x + n, y, h))
  {
    PixelsAppend(Rect(x, y, n, h), Strip(x + n, y, h));
    assert Rect(x, y, n, h) + [Strip(x + n, y, h)] == Rect(x, y, n + 1, h);
  }

  /** The pixels drawn after each of the first `n` columns. */
  ghost predicate ColumnsAfter(x: int, y: int, n: nat, h: int, drawn: seq<seq<Pixel>>) {
    && |drawn| == n + 1
    && forall i {:trigger Rect(x, y, i, h)} :: 0 <= i <= n ==> drawn[i] == Pixels(Rect(x, y, i, h))
  }

  lemma RectHas(x: int, y: int, w: int, h: int, p: Pixel)
    ensures p in Pixels(Rect(x, y, w, h)) <==> x <= p.x < x + w && OnStrip(p, Strip(p.x, y, h))
  {
    var vs := Rect(x, y, w, h);
    PixelsHave(vs, p);
    if x <= p.x < x + w && OnStrip(p, Strip(p.x, y, h)) {
      assert OnStrip(p, vs[p.x - x]);
    }
  }

  /** `fillRect` covers exactly its rectangle when the height is positive, and only then, unless it is empty. */
  lemma RectIsExact(x: int, y: int, w: int, h: int)
    ensures (forall p :: p in Pixels(Rect(x, y, w, h)) <==> x <= p.x < x + w && y <= p.y < y + h)
            <==> h >= 1 || w <= 0
  {
    forall p
      ensures p in Pixels(Rect(x, y, w, h)) <==> x <= p.x < x + w && OnStrip(p, Strip(p.x, y, h))
    {
      RectHas(x, y, w, h, p);
    }
    if h < 1 && w > 0 {
      var p := Pixel(x, y);
      assert p in Pixels(Rect(x, y, w, h));
    }
  }

  /** On the screen a filled rectangle shows exactly its own part, and the rest as before. */
  lemma RectShows(s: Screen, buf: seq<bv8>, x: int, y: int, w: int, h: int, white: bool, p: Pixel)
    requires Fits(s, buf) && s.Has(p) && h >= 1
    ensures Lit(s, Paint(s, buf, Pixels(Rect(x, y, w, h)), white), p) ==
            if x <= p.x < x + w && y <= p.y < y + h then white else Lit(s, buf, p)
  {
    RectHas(x, y, w, h, p);
    PaintShows(s, buf, Pixels(Rect(x, y, w, h)), white, p);
  }

  /** On the screen a filled circle shows every point within r, and nothing beyond r * r + r. */
  lemma DiscShows(s: Screen, buf: seq<bv8>, x0: int, y0: int, r: nat, white: bool, p: Pixel)
    requires Fits(s, buf) && s.Has(p)
    ensures var shown := Lit(s, Paint(s, buf, Pixels(WholeDisc(x0, y0, r)), white), p);
            && (Excess(r, p.x - x0, p.y - y0) <= 0 ==> shown == white)
            && (Excess(r, p.x - x0, p.y - y0) > r ==> shown == Lit(s, buf, p))
  {
    PaintShows(s, buf, Pixels(WholeDisc(x0, y0, r)), white, p);
    if Excess(r, p.x - x0, p.y - y0) <= 0 {
      DiscComplete(x0, y0, r, p);
    } else if p in Pixels(WholeDisc(x0, y0, r)) {
      DiscSound(x0, y0, r, p);
    }
  }

  lemma PixelsAppend(vs: seq<Strip>, v: Strip)
    ensures Pixels(vs + [v]) == Pixels(vs) + VLine(v)
  {
    assert (vs + [v])[..|vs|] == vs;
  }

  // ----- the loop of `drawLine` in `int16_t` arithmetic

  /** Halving in C, which rounds towards zero. */
  function Half(v: int): int { if v < 0 then -((-v) / 2) else v / 2 }

  /** The loop's `err` and minor coordinate. */
  datatype Loop = Loop(err: int, y: int)

  function LoopStart(s: Stroke): Loop
    requires s.Valid()
  {
    Loop(Half(Wrap16(s.Major())), s.b0)
  }

  function LoopNext(s: Stroke, l: Loop): Loop
    requires s.Valid()
  {
    var e := Wrap16(l.err - Wrap16(s.Minor()));
    if e < 0 then Loop(Wrap16(e + Wrap16(s.Major())), Wrap16(l.y + s.Sign())) else Loop(e, l.y)
  }

  function LoopAt(s: Stroke, i: nat): Loop
    requires s.Valid()
  {
    if i == 0 then LoopStart(s) else LoopNext(s, LoopAt(s, i - 1))
  }

  function LoopPixel(s: Stroke, i: nat): Pixel
    requires s.Valid()
  {
    var y := LoopAt(s, i).y;
    if s.steep then Pixel(y, s.a0 + i) else Pixel(s.a0 + i, y)
  }

  /** The first `i` pixels that the loop draws. */
  function Drawn(s: Stroke, i: nat): seq<Pixel>
    requires s.Valid()
  {
    seq(i, (k: nat) => LoopPixel(s, k))
  }

  lemma DrawnNext(g: Screen, buf: seq<bv8>, s: Stroke, i: nat, white: bool)
    requires Fits(g, buf) && s.Valid()
    ensures Paint(g, buf, Drawn(s, i + 1), white) == Put(g, Paint(g, buf, Drawn(s, i), white), LoopPixel(s, i), white)
  {
    assert Drawn(s, i + 1)[..i] == Drawn(s, i);
  }

  /** All the pixels that the loop draws between two ends. */
  function LoopLine(x0: int, y0: int, x1: int, y1: int): seq<Pixel> {
    var s := StrokeOf(x0, y0, x1, y1);
    Drawn(s, s.Major() + 1)
  }

  /** If the extent fits an `int16_t`, they are the line's. */
  lemma LoopDrawsLine(x0: int, y0: int, x1: int, y1: int)
    requires Drawable(x0, y0, x1, y1)
    ensures LoopLine(x0, y0, x1, y1) == Line(x0, y0, x1, y1)
  {
    var s := StrokeOf(x0, y0, x1, y1);
    forall i: nat | i <= s.Major()
      ensures LoopPixel(s, i) == s.At(i)
    {
      LoopIs(s, i);
      PixelIs(s, i, LoopAt(s, i).err, LoopAt(s, i).y);
    }
  }

  lemma {:induction false} LoopIs(s: Stroke, i: nat)
    requires s.Valid() && Int16(s.b0) && s.Major() < 0x8000 && i <= s.Major()
    ensures RoundIs(s, i, LoopAt(s, i).err, LoopAt(s, i).y)
    decreases i
  {
    if i == 0 {
      StrokeFirst(s);
    } else {
      LoopIs(s, i - 1);
      StrokeNext(s, i - 1, LoopAt(s, i - 1).err, LoopAt(s, i - 1).y);
    }
  }

  /** The loop draws the line exactly when its extent fits: beyond that it is off at the second or third pixel. */
  lemma LineExactly(x0: int, y0: int, x1: int, y1: int)
    requires Ends(x0, y0, x1, y1)
    ensures LoopLine(x0, y0, x1, y1) == Line(x0, y0, x1, y1) <==> StrokeOf(x0, y0, x1, y1).Major() < 0x8000
  {
    var s := StrokeOf(x0, y0, x1, y1);
    if s.Major() < 0x8000 {
      LoopDrawsLine(x0, y0, x1, y1);
    } else {
      var i := if 2 * s.Minor() == s.Major() + 1 then 2 else 1;
      LongSlips(s, i);
      assert LoopLine(x0, y0, x1, y1)[i] == LoopPixel(s, i);
      assert Line(x0, y0, x1, y1)[i] == s.At(i);
    }
  }

  /** The extents that do not fit. */
  predicate Long(s: Stroke) {
    s.Valid() && Int16(s.b0) && Int16(s.b1) && 0x8000 <= s.Major() < 0xFFFF
  }

  lemma LongSlips(s: Stroke, i: nat)
    requires Long(s) && i == if 2 * s.Minor() == s.Major() + 1 then 2 else 1
    ensures LoopPixel(s, i) != s.At(i)
  {
    FirstRound(s);
    FirstOffset(s.Major(), s.Minor());
    MinorFits(s, 1);
    if i == 2 {
      SecondRound(s);
      SecondOffset(s.Major(), s.Minor());
    }
  }

  /** The line's first step: half the extent decides it. */
  lemma FirstOffset(major: nat, minor: nat)
    requires 0 < major && minor <= major
    ensures Offset(1, major, minor) == if minor > major / 2 then 1 else 0
  {
    var n := minor + (major - 1) / 2;
    if minor > major / 2 {
      QuotientUnique(n, major, 1, n - major);
    } else {
      QuotientUnique(n, major, 0, n);
    }
  }

  lemma SecondOffset(major: nat, minor: nat)
    requires 0x8000 <= major && 2 * minor == major + 1
    ensures Offset(2, major, minor) == 1
  {
    QuotientUnique(2 * minor + (major - 1) / 2, major, 1, 1 + (major - 1) / 2);
  }

  /** The loop's first step: the wrapped extent is negative, and small slopes are taken for large ones. */
  lemma FirstRound(s: Stroke)
    requires Long(s)
    ensures LoopAt(s, 1).y == if s.Minor() <= (s.Major() + 1) / 2 then Wrap16(s.b0 + s.Sign()) else s.b0
    ensures 2 * s.Minor() == s.Major() + 1 ==> LoopAt(s, 1).err == s.Major() - 0x8000
  {
    assert LoopAt(s, 0) == LoopStart(s);
    assert Wrap16(s.Major()) == s.Major() - 0x1_0000;
  }

  lemma SecondRound(s: Stroke)
    requires Long(s) && 2 * s.Minor() == s.Major() + 1
    ensures LoopAt(s, 2).y == Wrap16(Wrap16(s.b0 + s.Sign()) + s.Sign())
  {
    FirstRound(s);
    assert LoopAt(s, 2) == LoopNext(s, LoopAt(s, 1));
  }

  // ----- loops whose counter is an `int16_t`

  /** The counter after `n` rounds. */
  function Count(start: int, n: nat): int {
    if n == 0 then start else Wrap16(Count(start, n - 1) + 1)
  }

  lemma {:induction false} CountIs(start: int, n: nat)
    requires Int16(start)
    ensures Int16(Count(start, n)) && (start + n < 0x8000 ==> Count(start, n) == start + n)
    decreases n
  {
    if n > 0 {
      CountIs(start, n - 1);
    }
  }

  /**
   * The counter reaches a limit at or above its start exactly when the limit is an `int16_t`: the loop
   * of `drawLine` runs to its last coordinate + 1, that of `fillRect` to x + w.
   */
  lemma CounterReaches(start: int, limit: int)
    requires Int16(start) && start <= limit
    ensures (exists n :: Count(start, n) >= limit) <==> limit < 0x8000
  {
    if limit < 0x8000 {
      CountIs(start, limit - start);
      assert Count(start, limit - start) >= limit;
    } else {
      forall n: nat
        ensures Count(start, n) < limit
      {
        CountIs(start, n);
      }
    }
  }

  /** The minor coordinate, as an `int16_t`, is right while it is still to be drawn. */
  lemma MinorFits(s: Stroke, i: nat)
    requires s.Valid() && Int16(s.b0) && Int16(s.b1) && i <= s.Major()
    ensures Int16(s.b0 + s.Sign() * Offset(i, s.Major(), s.Minor()))
    decreases s.Major() - i
  {
    OffsetEnd(s.Major(), s.Minor());
    if i < s.Major() {
      MinorBelow(s, i);
    }
  }

  lemma MinorBelow(s: Stroke, i: nat)
    requires s.Valid() && i <= s.Major()
    ensures 0 <= Offset(i, s.Major(), s.Minor()) <= s.Minor()
    decreases s.Major() - i
  {
    OffsetEnd(s.Major(), s.Minor());
    if i < s.Major() {
      MinorBelow(s, i + 1);
      ErrStep(i, s.Major(), s.Minor());
    }
  }

  /** The values that `err` and the minor coordinate should have after `i` rounds. */
  predicate RoundIs(s: Stroke, i: nat, err: int, y: int)
    requires s.Valid()
  {
    err == Err(i, s.Major(), s.Minor()) && y == Wrap16(s.b0 + s.Sign() * Offset(i, s.Major(), s.Minor()))
  }

  lemma StrokeFirst(s: Stroke)
    requires s.Valid() && Int16(s.b0)
    ensures RoundIs(s, 0, s.Major() / 2, s.b0)
  {
    OffsetStart(s.Major(), s.Minor());
  }

  lemma PixelIs(s: Stroke, i: nat, err: int, y: int)
    requires s.Valid() && Int16(s.b0) && Int16(s.b1) && i <= s.Major() && RoundIs(s, i, err, y)
    ensures s.At(i) == if s.steep then Pixel(y, s.a0 + i) else Pixel(s.a0 + i, y)
  {
    MinorFits(s, i);
  }

  lemma WrapTwice(v: int, d: int)
    ensures Wrap16(Wrap16(v) + d) == Wrap16(v + d)
  {
  }

  /** One round of the loop in `int16_t` arithmetic. */
  lemma StrokeNext(s: Stroke, i: nat, err: int, y: int)
    requires s.Valid() && s.Major() < 0x8000 && i <= s.Major() && RoundIs(s, i, err, y)
    ensures var e := Wrap16(err - s.Minor());
            if e < 0 then RoundIs(s, i + 1, Wrap16(e + s.Major()), Wrap16(y + s.Sign())) else RoundIs(s, i + 1, e, y)
  {
    var dx, dy, k := s.Major(), s.Minor(), Offset(i, s.Major(), s.Minor());
    ErrStep(i, dx, dy);
    ErrFits(i, dx, dy);
    WrapTwice(s.b0 + s.Sign() * k, s.Sign());
    SignTimes(s.Sign(), k);
  }

  lemma SignTimes(sign: int, k: nat)
    ensures sign * (k + 1) == sign * k + sign
  {
  }

  /** The error term stays in the range of an `int16_t`, before and after the correction. */
  lemma ErrFits(i: nat, major: nat, minor: nat)
    requires minor <= major < 0x8000 && (major == 0 ==> i == 0)
    ensures var e := Err(i, major, minor) - minor;
            Wrap16(e) == e && (e < 0 ==> Wrap16(e + major) == e + major)
  {
    if major > 0 {
      ErrInRange(i, major, minor);
    }
  }

  lemma StripMoves(x: int, i: int, y: int, h: int)
    requires StripDrawable(Strip(x, y, h)) && Int16(i) && i < 0x7FFF
    ensures StripDrawable(Strip(i, y, h))
  {
  }

  // ----- circles

  /** The circle lies in the range of coordinates but for its last value, and its diameter in an `int16_t`. */
  predicate CircleDrawable(x0: int, y0: int, r: nat) {
    r <= 16383 && -0x8000 <= x0 - r && x0 + r < 0x7FFF && -0x8000 <= y0 - r && y0 + r < 0x7FFF
  }

  lemma ColumnDrawable(x: int, y0: int, h: nat)
    requires -0x8000 <= x < 0x7FFF && h <= 16383 && -0x8000 <= y0 - h && y0 + h < 0x7FFF
    ensures StripDrawable(Strip(x, y0 - h, 2 * h + 1))
  {
  }

  lemma RoundDrawable(x0: int, y0: int, r: nat, i: nat)
    requires CircleDrawable(x0, y0, r) && i <= Rounds(First(r))
    ensures var w := Walk(r, i); PairDrawable(x0, y0, w.x, w.y)
  {
    var w := Walk(r, i);
    WalkOnArc(r, i);
    WithinR(r, w);
    PairFits(x0, y0, r, w.x, w.y);
  }

  predicate PairDrawable(x0: int, y0: int, x: int, y: int) {
    && StripDrawable(Strip(x0 + x, y0 - y, 2 * y + 1)) && StripDrawable(Strip(x0 + y, y0 - x, 2 * x + 1))
    && StripDrawable(Strip(x0 - x, y0 - y, 2 * y + 1)) && StripDrawable(Strip(x0 - y, y0 - x, 2 * x + 1))
  }

  lemma PairFits(x0: int, y0: int, r: nat, x: int, y: int)
    requires CircleDrawable(x0, y0, r) && 0 <= x <= r && 0 <= y <= r
    ensures PairDrawable(x0, y0, x, y)
  {
    ColumnDrawable(x0 + x, y0, y);
    ColumnDrawable(x0 - x, y0, y);
    ColumnDrawable(x0 + y, y0, x);
    ColumnDrawable(x0 - y, y0, x);
  }

  lemma WithinR(r: nat, w: Arc)
    requires OnArc(r, w)
    ensures w.x <= r
  {
    Beyond(r, w.x, w.y);
  }

  /** A list of pixels with those of the four strips of a round after it. */
  function AfterPair(ps: seq<Pixel>, x0: int, y0: int, x: int, y: int): seq<Pixel> {
    ps + VLine(Strip(x0 + x, y0 - y, 2 * y + 1)) + VLine(Strip(x0 + y, y0 - x, 2 * x + 1))
    + VLine(Strip(x0 - x, y0 - y, 2 * y + 1)) + VLine(Strip(x0 - y, y0 - x, 2 * x + 1))
  }

  lemma PairAppends(vs: seq<Strip>, x0: int, y0: int, x: int, y: int)
    ensures Pixels(vs + Pair(x0, y0, x, y)) == AfterPair(Pixels(vs), x0, y0, x, y)
  {
    var p := Pair(x0, y0, x, y);
    PixelsAppend(vs, p[0]);
    PixelsAppend(vs + [p[0]], p[1]);
    PixelsAppend(vs + [p[0]] + [p[1]], p[2]);
    PixelsAppend(vs + [p[0]] + [p[1]] + [p[2]], p[3]);
    assert vs + [p[0]] + [p[1]] + [p[2]] + [p[3]] == vs + p;
  }

  lemma MiddlePixels(x0: int, y0: int, r: nat)
    ensures Pixels(Disc(x0, y0, r, 0)) == [] + VLine(Strip(x0, y0 - r, 2 * r + 1))
  {
    PixelsAppend([], Strip(x0, y0 - r, 2 * r + 1));
    assert [] + [Strip(x0, y0 - r, 2 * r + 1)] == Disc(x0, y0, r, 0);
  }

  lemma DrawnNextRound(x0: int, y0: int, r: nat, n: nat, i: nat, drawn: seq<seq<Pixel>>)
    requires DrawnAfter(x0, y0, r, n, drawn) && i < n
    ensures drawn[i + 1] == AfterPair(drawn[i], x0, y0, Walk(r, i + 1).x, Walk(r, i + 1).y)
  {
    assert drawn[i] == Pixels(Disc(x0, y0, r, i)) && drawn[i + 1] == Pixels(Disc(x0, y0, r, i + 1));
    PairAppends(Disc(x0, y0, r, i), x0, y0, Walk(r, i + 1).x, Walk(r, i + 1).y);
  }

  /** The loop's variables after `i` of `n` rounds; the loop goes on exactly while there are rounds to come. */
  ghost predicate AtRound(r: nat, n: nat, i: nat, f: int, ddFx: int, ddFy: int, x: int, y: int) {
    && Walk(r, i) == Arc(x, y, f) && ddFx == 2 * x + 1 && ddFy == -2 * y
    && (x < y <==> i < n)
  }

  /** The pixels drawn after each of `n` rounds. */
  ghost predicate DrawnAfter(x0: int, y0: int, r: nat, n: nat, drawn: seq<seq<Pixel>>) {
    && |drawn| == n + 1
    && forall i {:trigger Disc(x0, y0, r, i)} :: 0 <= i <= n ==> drawn[i] == Pixels(Disc(x0, y0, r, i))
  }

  /** The arithmetic of one round, in an `int16_t`. */
  method CircleRound(r: nat, ghost n: nat, ghost i: nat, f0: int, ddFx0: int, ddFy0: int, x0: int, y0: int)
    returns (f: int, ddFx: int, ddFy: int, x: int, y: int)
    requires r <= 16383 && i < n == Rounds(First(r)) && AtRound(r, n, i, f0, ddFx0, ddFy0, x0, y0)
    ensures AtRound(r, n, i + 1, f, ddFx, ddFy, x, y)
  {
    f, ddFx, ddFy, x, y := f0, ddFx0, ddFy0, x0, y0;
    WalkOnArc(r, i);
    NoOverflow(r, Arc(x, y, f));
    if f >= 0 {
      y := y - 1;
      ddFy := Wrap16(ddFy + 2);
      f := Wrap16(f + ddFy);
    }
    x := x + 1;
    ddFx := Wrap16(ddFx + 2);
    f := Wrap16(f + ddFx);
    WalkOnArc(r, i + 1);
  }

  class Panel {
    const rawWidth: nat
    const rawHeight: nat
    const buffer: array<bv8>
    var rotation: nat
    var width: nat
    var height: nat

    function View(): Screen
      reads this
    {
      Screen(rawWidth, rawHeight, rotation)
    }

    predicate Valid()
      reads this, buffer
    {
      Fits(View(), buffer[..]) && width == View().Width() && height == View().Height()
    }

    constructor (rawWidth: nat, rawHeight: nat)
      requires 0 < rawWidth < 256 && 0 < rawHeight < 256 && rawHeight % 8 == 0
      ensures Valid() && View() == Screen(rawWidth, rawHeight, 0) && fresh(buffer)
      ensures forall p :: View().Has(p) ==> !Lit(View(), buffer[..], p)
    {
      this.rawWidth, this.rawHeight := rawWidth, rawHeight;
      rotation, width, height := 0, rawWidth, rawHeight;
      buffer := new bv8[rawHeight * rawWidth / 8](_ => 0);
      new;
      Dark(View(), buffer[..]);
    }

    method SetRotation(x: nat)
      requires Valid()
      modifies this`rotation, this`width, this`height
      ensures Valid() && rotation == x % 4
    {
      rotation := x % 4;
      if rotation == 0 || rotation == 2 {
        width, height := rawWidth, rawHeight;
      } else {
        width, height := rawHeight, rawWidth;
      }
    }

    method ClearDisplay()
      requires Valid()
      modifies buffer
      ensures Valid()
      ensures forall p :: View().Has(p) ==> !Lit(View(), buffer[..], p)
    {
      var i := 0;
      while i < buffer.Length
        invariant 0 <= i <= buffer.Length
        invariant forall j :: 0 <= j < i ==> buffer[j] == 0
      {
        buffer[i] := 0;
        i := i + 1;
      }
      Dark(View(), buffer[..]);
    }

    /** The pixel's place on the display as it is built in. */
    method Turn(px: int, py: int) returns (x: int, y: int)
      requires rotation < 4
      ensures Pixel(x, y) == View().Raw(Pixel(px, py))
    {
      x, y := px, py;
      match rotation {
        case 1 =>
          x, y := y, x;
          x := rawWidth - x - 1;
        case 2 =>
          x := rawWidth - x - 1;
          y := rawHeight - y - 1;
        case 3 =>
          x, y := y, x;
          y := rawHeight - y - 1;
        case _ =>
      }
    }

    /** Sets or clears one bit of one byte. */
    method Mark(at: nat, bit: nat, color: nat)
      requires at < buffer.Length && bit < 8
      modifies buffer
      ensures buffer[..] == old(buffer[..])[at := SetBit(old(buffer[at]), bit, color == WHITE)]
    {
      if color == WHITE {
        buffer[at] := buffer[at] | Bv(bit);
      } else {
        buffer[at] := buffer[at] & !Bv(bit);
      }
    }

    method DrawPixel(px: int, py: int, color: nat)
      requires Valid()
      modifies buffer
      ensures Valid() && buffer[..] == Put(View(), old(buffer[..]), Pixel(px, py), color == WHITE)
    {
      if px < 0 || px >= width || py < 0 || py >= height {
        return;
      }
      var x, y := Turn(px, py);
      InBounds(View(), Pixel(px, py));
      RawInside(View(), Pixel(px, py));
      Mark(x + (y / 8) * rawWidth, y % 8, color);
    }

    method DrawLine(x0: int, y0: int, x1: int, y1: int, color: nat)
      requires Valid() && Ends(x0, y0, x1, y1)
      modifies buffer
      ensures Valid() && buffer[..] == Paint(View(), old(buffer[..]), LoopLine(x0, y0, x1, y1), color == WHITE)
    {
      var a0, b0, a1, b1 := x0, y0, x1, y1;
      var steep := Abs(y1 - y0) > Abs(x1 - x0);
      if steep {
        a0, b0 := b0, a0;
        a1, b1 := b1, a1;
      }
      if a0 > a1 {
        a0, a1 := a1, a0;
        b0, b1 := b1, b0;
      }
      var s := Stroke(steep, a0, b0, a1, b1);
      assert s == StrokeOf(x0, y0, x1, y1);
      DrawStroke(s, color, View(), buffer[..]);
    }

    /** The panel shows `was` with the pixels `ps` painted over it. */
    ghost predicate Shows(g: Screen, was: seq<bv8>, ps: seq<Pixel>, white: bool)
      reads this, buffer
    {
      Valid() && g == View() && Fits(g, was) && buffer[..] == Paint(g, was, ps, white)
    }

    /** One pixel of the loop of `drawLine`. */
    method StrokePixel(s: Stroke, x: int, y: int, color: nat, ghost g: Screen, ghost was: seq<bv8>, ghost i: nat)
      requires s.Valid() && Shows(g, was, Drawn(s, i), color == WHITE)
      requires LoopPixel(s, i) == if s.steep then Pixel(y, x) else Pixel(x, y)
      modifies buffer
      ensures Shows(g, was, Drawn(s, i + 1), color == WHITE)
    {
      DrawnNext(g, was, s, i, color == WHITE);
      if s.steep {
        DrawPixel(y, x, color);
      } else {
        DrawPixel(x, y, color);
      }
    }

    /** One round of the loop of `drawLine`. */
    method StrokeRound(s: Stroke, dx: int, dy: int, step: int, err0: int, x0: int, y0: int, color: nat,
                       ghost g: Screen, ghost was: seq<bv8>, ghost i: nat)
      returns (err: int, x: int, y: int)
      requires s.Valid() && dx == Wrap16(s.Major()) && dy == Wrap16(s.Minor()) && step == s.Sign()
      requires x0 == s.a0 + i && Int16(x0) && x0 < 0x7FFF && LoopAt(s, i) == Loop(err0, y0)
      requires Shows(g, was, Drawn(s, i), color == WHITE)
      modifies buffer
      ensures x == s.a0 + i + 1 && LoopAt(s, i + 1) == Loop(err, y)
      ensures Shows(g, was, Drawn(s, i + 1), color == WHITE)
    {
      err, x, y := err0, x0, y0;
      StrokePixel(s, x, y, color, g, was, i);
      err := Wrap16(err - dy);
      if err < 0 {
        y := Wrap16(y + step);
        err := Wrap16(err + dx);
      }
      x := Wrap16(x + 1);
    }

    /** The loop of `drawLine`. */
    method DrawStroke(s: Stroke, color: nat, ghost g: Screen, ghost was: seq<bv8>)
      requires s.Valid() && Int16(s.a0) && s.a1 < 0x7FFF && Shows(g, was, [], color == WHITE)
      modifies buffer
      ensures Shows(g, was, Drawn(s, s.Major() + 1), color == WHITE)
    {
      ghost var i: nat := 0;
      var dx, dy := Wrap16(s.a1 - s.a0), Wrap16(Abs(s.b1 - s.b0));
      var err := Half(dx);
      var step := if s.b0 < s.b1 then 1 else -1;
      var x, y := s.a0, s.b0;
      while x <= s.a1
        invariant i <= s.Major() + 1 && x == s.a0 + i && LoopAt(s, i) == Loop(err, y)
        invariant Shows(g, was, Drawn(s, i), color == WHITE)
        decreases s.Major() + 1 - i
      {
        err, x, y := StrokeRound(s, dx, dy, step, err, x, y, color, g, was, i);
        i := i + 1;
      }
    }

    method DrawFastVLine(x: int, y: int, h: int, color: nat)
      requires Valid() && StripDrawable(Strip(x, y, h))
      modifies buffer
      ensures Valid() && buffer[..] == Paint(View(), old(buffer[..]), VLine(Strip(x, y, h)), color == WHITE)
    {
      StripIsDrawable(Strip(x, y, h));
      LoopDrawsLine(x, y, x, y + h - 1);
      DrawLine(x, y, x, y + h - 1, color);
    }

    /** One more strip. */
    method AddStrip(v: Strip, color: nat, ghost g: Screen, ghost was: seq<bv8>, ghost ps: seq<Pixel>)
      requires StripDrawable(v) && Shows(g, was, ps, color == WHITE)
      modifies buffer
      ensures Shows(g, was, ps + VLine(v), color == WHITE)
    {
      PaintAppend(g, was, ps, VLine(v), color == WHITE);
      DrawFastVLine(v.x, v.y, v.h, color);
    }

    /** The column `k` of `fillRect`. */
    method FillColumn(x: int, y: int, h: int, k: nat, color: nat,
                      ghost g: Screen, ghost was: seq<bv8>, ghost n: nat, ghost drawn: seq<seq<Pixel>>)
      requires StripDrawable(Strip(x + k, y, h)) && ColumnsAfter(x, y, n, h, drawn) && k < n
      requires Shows(g, was, drawn[k], color == WHITE)
      modifies buffer
      ensures Shows(g, was, drawn[k + 1], color == WHITE)
    {
      RectNext(x, y, k, h);
      AddStrip(Strip(x + k, y, h), color, g, was, drawn[k]);
    }

    /** The loop of `fillRect`. */
    method FillColumns(x: int, y: int, w: int, h: int, color: nat,
                       ghost g: Screen, ghost was: seq<bv8>, ghost n: nat, ghost drawn: seq<seq<Pixel>>)
      requires Int16(x) && x + w <= 0x7FFF && StripDrawable(Strip(x, y, h))
      requires n == (if w < 0 then 0 else w) && ColumnsAfter(x, y, n, h, drawn)
      requires Shows(g, was, drawn[0], color == WHITE)
      modifies buffer
      ensures Shows(g, was, drawn[n], color == WHITE)
    {
      var i := x;
      while i < x + w
        invariant x <= i <= x + n && Shows(g, was, drawn[i - x], color == WHITE)
      {
        StripMoves(x, i, y, h);
        FillColumn(x, y, h, i - x, color, g, was, n, drawn);
        i := Wrap16(i + 1);
      }
    }

    method FillRect(x: int, y: int, w: int, h: int, color: nat)
      requires Valid() && Int16(x) && x + w <= 0x7FFF && StripDrawable(Strip(x, y, h))
      modifies buffer
      ensures Valid() && buffer[..] == Paint(View(), old(buffer[..]), Pixels(Rect(x, y, w, h)), color == WHITE)
    {
      ghost var n: nat := if w < 0 then 0 else w;
      ghost var drawn := seq(n + 1, (i: nat) => Pixels(Rect(x, y, i, h)));
      FillColumns(x, y, w, h, color, View(), buffer[..], n, drawn);
      assert Rect(x, y, n, h) == Rect(x, y, w, h);
    }

    /** One corner's share of a round of `fillCircleHelper`. */
    method FillSide(a: Strip, b: Strip, color: nat, ghost g: Screen, ghost was: seq<bv8>, ghost ps: seq<Pixel>)
      requires StripDrawable(a) && StripDrawable(b) && Shows(g, was, ps, color == WHITE)
      modifies buffer
      ensures Shows(g, was, ps + VLine(a) + VLine(b), color == WHITE)
    {
      AddStrip(a, color, g, was, ps);
      AddStrip(b, color, g, was, ps + VLine(a));
    }

    /** One round of `fillCircleHelper`, for both corners. */
    method FillPair(x0: int, y0: int, x: int, y: int, color: nat,
                    ghost g: Screen, ghost was: seq<bv8>, ghost ps: seq<Pixel>)
      requires PairDrawable(x0, y0, x, y) && Shows(g, was, ps, color == WHITE)
      modifies buffer
      ensures Shows(g, was, AfterPair(ps, x0, y0, x, y), color == WHITE)
    {
      var a, b := Strip(x0 + x, y0 - y, 2 * y + 1), Strip(x0 + y, y0 - x, 2 * x + 1);
      FillSide(a, b, color, g, was, ps);
      var c, d := Strip(x0 - x, y0 - y, 2 * y + 1), Strip(x0 - y, y0 - x, 2 * x + 1);
      FillSide(c, d, color, g, was, ps + VLine(a) + VLine(b));
    }

    /** The strips of round `i + 1`. */
    method FillStrips(x0: int, y0: int, r: nat, x: int, y: int, color: nat,
                      ghost g: Screen, ghost was: seq<bv8>, ghost n: nat, ghost i: nat, ghost drawn: seq<seq<Pixel>>)
      requires CircleDrawable(x0, y0, r) && i < n == Rounds(First(r)) && DrawnAfter(x0, y0, r, n, drawn)
      requires Walk(r, i + 1).x == x && Walk(r, i + 1).y == y && Shows(g, was, drawn[i], color == WHITE)
      modifies buffer
      ensures Shows(g, was, drawn[i + 1], color == WHITE)
    {
      RoundDrawable(x0, y0, r, i + 1);
      DrawnNextRound(x0, y0, r, n, i, drawn);
      FillPair(x0, y0, x, y, color, g, was, drawn[i]);
    }

    /** One round of `fillCircleHelper`. */
    method FillRound(x0: int, y0: int, r: nat, f0: int, ddFx0: int, ddFy0: int, a: int, b: int, color: nat,
                     ghost g: Screen, ghost was: seq<bv8>, ghost n: nat, ghost i: nat, ghost drawn: seq<seq<Pixel>>)
      returns (f: int, ddFx: int, ddFy: int, x: int, y: int)
      requires CircleDrawable(x0, y0, r) && i < n == Rounds(First(r)) && DrawnAfter(x0, y0, r, n, drawn)
      requires AtRound(r, n, i, f0, ddFx0, ddFy0, a, b) && Shows(g, was, drawn[i], color == WHITE)
      modifies buffer
      ensures AtRound(r, n, i + 1, f, ddFx, ddFy, x, y) && Shows(g, was, drawn[i + 1], color == WHITE)
    {
      f, ddFx, ddFy, x, y := CircleRound(r, n, i, f0, ddFx0, ddFy0, a, b);
      FillStrips(x0, y0, r, x, y, color, g, was, n, i, drawn);
    }

    method FillCircle(x0: int, y0: int, r: nat, color: nat)
      requires Valid() && CircleDrawable(x0, y0, r)
      modifies buffer
      ensures Valid() && buffer[..] == Paint(View(), old(buffer[..]), Pixels(WholeDisc(x0, y0, r)), color == WHITE)
    {
      ghost var g, was := View(), buffer[..];
      ColumnDrawable(x0, y0, r);
      AddStrip(Strip(x0, y0 - r, 2 * r + 1), color, g, was, []);
      MiddlePixels(x0, y0, r);
      FillCircleHelper(x0, y0, r, color, g, was);
    }

    /** `fillCircleHelper` for both halves, from its first round on. */
    method FillCircleHelper(x0: int, y0: int, r: nat, color: nat, ghost g: Screen, ghost was: seq<bv8>)
      requires CircleDrawable(x0, y0, r) && Shows(g, was, Pixels(Disc(x0, y0, r, 0)), color == WHITE)
      modifies buffer
      ensures Shows(g, was, Pixels(WholeDisc(x0, y0, r)), color == WHITE)
    {
      var f, ddFx, ddFy := Wrap16(1 - r), 1, Wrap16(-2 * r);
      ghost var n := Rounds(First(r));
      ghost var drawn := seq(n + 1, (i: nat) => Pixels(Disc(x0, y0, r, i)));
      FillRounds(x0, y0, r, f, ddFx, ddFy, 0, r, color, g, was, n, drawn);
    }

    /** Its loop. */
    method FillRounds(x0: int, y0: int, r: nat, f0: int, ddFx0: int, ddFy0: int, a: int, b: int, color: nat,
                      ghost g: Screen, ghost was: seq<bv8>, ghost n: nat, ghost drawn: seq<seq<Pixel>>)
      requires CircleDrawable(x0, y0, r) && n == Rounds(First(r)) && DrawnAfter(x0, y0, r, n, drawn)
      requires AtRound(r, n, 0, f0, ddFx0, ddFy0, a, b) && Shows(g, was, drawn[0], color == WHITE)
      modifies buffer
      ensures Shows(g, was, drawn[n], color == WHITE)
    {
      var f, ddFx, ddFy, x, y := f0, ddFx0, ddFy0, a, b;
      ghost var i := 0;
      while x < y
        invariant i <= n && AtRound(r, n, i, f, ddFx, ddFy, x, y)
        invariant Shows(g, was, drawn[i], color == WHITE)
        decreases n - i
      {
        f, ddFx, ddFy, x, y := FillRound(x0, y0, r, f, ddFx, ddFy, x, y, color, g, was, n, i, drawn);
        i := i + 1;
      }
    }

    /** One more pixel. */
    method AddPixel(x: int, y: int, color: nat, ghost g: Screen, ghost was: seq<bv8>, ghost ps: seq<Pixel>)
      requires Shows(g, was, ps, color == WHITE)
      modifies buffer
      ensures Shows(g, was, ps + [Pixel(x, y)], color == WHITE)
    {
      assert (ps + [Pixel(x, y)])[..|ps|] == ps;
      DrawPixel(x, y, color);
    }

    method DrawTwo(p: Pixel, q: Pixel, color: nat, ghost g: Screen, ghost was: seq<bv8>, ghost ps: seq<Pixel>)
      requires Shows(g, was, ps, color == WHITE)
      modifies buffer
      ensures Shows(g, was, ps + [p, q], color == WHITE)
    {
      AddPixel(p.x, p.y, color, g, was, ps);
      AddPixel(q.x, q.y, color, g, was, ps + [p]);
      assert ps + [p] + [q] == ps + [p, q];
    }

    method DrawFour(x0: int, y0: int, a: int, b: int, color: nat,
                    ghost g: Screen, ghost was: seq<bv8>, ghost ps: seq<Pixel>)
      requires Shows(g, was, ps, color == WHITE)
      modifies buffer
      ensures Shows(g, was, ps + Four(x0, y0, a, b), color == WHITE)
    {
      ghost var q := Four(x0, y0, a, b);
      DrawTwo(Pixel(x0 + a, y0 + b), Pixel(x0 - a, y0 + b), color, g, was, ps);
      DrawTwo(Pixel(x0 + a, y0 - b), Pixel(x0 - a, y0 - b), color, g, was, ps + [q[0], q[1]]);
      assert ps + [q[0], q[1]] + [q[2], q[3]] == ps + q;
    }

    method DrawCross(x0: int, y0: int, r: nat, color: nat, ghost g: Screen, ghost was: seq<bv8>)
      requires Shows(g, was, [], color == WHITE)
      modifies buffer
      ensures Shows(g, was, Cross(x0, y0, r), color == WHITE)
    {
      ghost var q := Cross(x0, y0, r);
      DrawTwo(Pixel(x0, y0 + r), Pixel(x0, y0 - r), color, g, was, []);
      DrawTwo(Pixel(x0 + r, y0), Pixel(x0 - r, y0), color, g, was, [] + [q[0], q[1]]);
      assert [] + [q[0], q[1]] + [q[2], q[3]] == q;
    }

    method DrawCircle(x0: int, y0: int, r: nat, color: nat)
      requires Valid() && CircleDrawable(x0, y0, r)
      modifies buffer
      ensures Valid()
      ensures buffer[..] == Paint(View(), old(buffer[..]), Outline(x0, y0, r, Rounds(First(r))), color == WHITE)
    {
      ghost var g, was := View(), buffer[..];
      DrawCross(x0, y0, r, color, g, was);
      var f, ddFx, ddFy := Wrap16(1 - r), 1, Wrap16(-2 * r);
      var x, y := 0, r;
      ghost var i: nat, n := 0, Rounds(First(r));
      while x < y
        invariant i <= n && AtRound(r, n, i, f, ddFx, ddFy, x, y)
        invariant Shows(g, was, Outline(x0, y0, r, i), color == WHITE)
        decreases n - i
      {
        f, ddFx, ddFy, x, y := CircleRound(r, n, i, f, ddFx, ddFy, x, y);
        i := i + 1;
        DrawFour(x0, y0, x, y, color, g, was, Outline(x0, y0, r, i - 1));
        DrawFour(x0, y0, y, x, color, g, was, Outline(x0, y0, r, i - 1) + Four(x0, y0, x, y));
        OutlineNext(x0, y0, r, i);
      }
    }
  }

  lemma OutlineNext(x0: int, y0: int, r: nat, i: nat)
    requires i > 0
    ensures var w := Walk(r, i);
            Outline(x0, y0, r, i) == Outline(x0, y0, r, i - 1) + Four(x0, y0, w.x, w.y) + Four(x0, y0, w.y, w.x)
  {
  }

  lemma Dark(s: Screen, buf: seq<bv8>)
    requires Fits(s, buf) && forall i :: 0 <= i < |buf| ==> buf[i] == 0
    ensures forall p :: s.Has(p) ==> !Lit(s, buf, p)
  {
    forall p | s.Has(p)
      ensures !Lit(s, buf, p)
    {
      InBounds(s, p);
    }
  }
}
