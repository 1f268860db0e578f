/** The drawing functions of the LCD driver, loop by loop, over one frame buffer. */
module Lcd {
  import opened CInt
  import opened Geometry
  import opened Frame
  import opened LineGeometry
  import opened LineWalk
  import opened CircleGeometry
  import opened CircleWalk
  import opened DiscGeometry
  import opened PolygonGeometry
  import opened EllipseGeometry
  import opened TextGeometry

  class Display {
    const width: nat
    const height: nat
    const fb: array<Color>
    var textColor: Color
    var backColor: Color
    var font: Font

    ghost predicate Valid() {
      0 < width <= 16384 && 0 < height <= 16384 && fb.Length == width * height
    }

    ghost predicate Visible(p: Pt) {
      OnScreen(width, height, p)
    }

    /** The buffer is before with the pixels of area in the text colour. */
    ghost predicate Shows(before: seq<Color>, area: iset<Pt>)
      reads this, fb
    {
      width > 0 && fb[..] == Paint(before, width, area, textColor)
    }

    /** What that means for one pixel of the screen. */
    lemma ShownPixel(before: seq<Color>, area: iset<Pt>, p: Pt)
      requires Valid() && |before| == fb.Length && Shows(before, area) && 0 <= p.x < width && 0 <= p.y < height
      ensures 0 <= p.y * width + p.x < fb.Length
      ensures fb[p.y * width + p.x] == if p in area then textColor else before[p.y * width + p.x]
    {
      PaintedPixel(before, width, height, area, textColor, p);
      assert fb[..][p.y * width + p.x] == fb[p.y * width + p.x];
      hide Paint;
    }

    /** A screen of the given size, with arbitrary contents. */
    constructor (w: nat, h: nat, text: Color, back: Color, f: Font)
      requires 0 < w <= 16384 && 0 < h <= 16384
      ensures Valid() && width == w && height == h && fresh(fb)
      ensures textColor == text && backColor == back && font == f
    {
      width, height := w, h;
      fb := new Color[w * h];
      textColor, backColor, font := text, back, f;
    }

    /** Sets the word of one pixel.  Nothing checks that the pixel is on the screen: one past
        the right edge is one of the next row. */
    method DrawPixel(x: int, y: int, c: Color)
      requires Valid() && (Visible(Pt(x, y)) || 0 <= y * width + x < fb.Length)
      modifies fb
      ensures 0 <= y * width + x < fb.Length && fb[..] == old(fb[..])[y * width + x := c]
      ensures Visible(Pt(x, y)) ==> fb[..] == Paint(old(fb[..]), width, iset{Pt(x, y)}, c)
    {
      if Visible(Pt(x, y)) {
        assert Address(width, height, Pt(x, y)) == y * width + x;
        PaintOne(fb[..], width, height, Pt(x, y), c);
      }
      fb[y * width + x] := c;
      assert fb[..] == old(fb[..])[y * width + x := c];
    }

    /** The DMA2D engine in register-to-memory mode: ys rows of xs words, off words apart. */
    method LLFillBuffer(dst: nat, xs: nat, ys: nat, off: nat, c: Color)
      requires ys == 0 || dst + (ys - 1) * (xs + off) + xs <= fb.Length
      modifies fb
      ensures forall i :: 0 <= i < fb.Length ==>
        fb[i] == if InStride(i, dst, xs, off, ys) then c else old(fb[i])
    {
      var r := 0;
      var row := dst;
      while r < ys
        invariant 0 <= r <= ys
        invariant row == StrideRow(dst, xs, off, r)
        invariant forall i :: 0 <= i < fb.Length ==>
          fb[i] == if InStride(i, dst, xs, off, r) then c else old(fb[i])
      {
        MulMono(r, ys - 1, xs + off);
        FillWords(row, xs, c);
        forall i: int
          ensures InStride(i, dst, xs, off, r + 1) <==> InStride(i, dst, xs, off, r) || row <= i < row + xs
        {
          StrideNext(i, dst, xs, off, r);
        }
        StrideStep(dst, xs, off, r);
        row := row + xs + off;
        r := r + 1;
      }
    }

    /** One row of the fill. */
    method FillWords(dst: nat, n: nat, c: Color)
      requires dst + n <= fb.Length
      modifies fb
      ensures forall i :: 0 <= i < fb.Length ==> fb[i] == if dst <= i < dst + n then c else old(fb[i])
    {
      var j := 0;
      while j < n
        invariant 0 <= j <= n
        invariant forall i :: 0 <= i < fb.Length ==> fb[i] == if dst <= i < dst + j then c else old(fb[i])
      {
        fb[dst + j] := c;
        j := j + 1;
      }
    }

    method DrawHLine(x: int, y: int, len: nat)
      requires Valid() && 0 <= x && x + len <= width && 0 <= y < height
      modifies fb
      ensures Shows(old(fb[..]), Rect(x, y, len, 1))
    {
      RectFits(width, height, Pt(x, y), len, 1, 0);
      MulMono(0, y, width);
      LLFillBuffer(width * y + x, len, 1, 0, textColor);
      StridePaintsRect(old(fb[..]), fb[..], width, Pt(x, y), len, 1, 0, textColor);
    }

    method DrawVLine(x: int, y: int, len: nat)
      requires Valid() && 0 <= x < width && 0 <= y && y + len <= height
      modifies fb
      ensures Shows(old(fb[..]), Rect(x, y, 1, len))
    {
      if len > 0 {
        RectFits(width, height, Pt(x, y), 1, len, width - 1);
      }
      MulMono(0, y, width);
      LLFillBuffer(width * y + x, 1, len, width - 1, textColor);
      StridePaintsRect(old(fb[..]), fb[..], width, Pt(x, y), 1, len, width - 1, textColor);
    }

    method FillRect(x: int, y: int, w: nat, h: nat)
      requires Valid() && 0 <= x && x + w <= width && 0 <= y && y + h <= height
      modifies fb
      ensures Shows(old(fb[..]), Rect(x, y, w, h))
    {
      if h > 0 {
        RectFits(width, height, Pt(x, y), w, h, width - w);
      }
      MulMono(0, y, width);
      LLFillBuffer(width * y + x, w, h, width - w, textColor);
      StridePaintsRect(old(fb[..]), fb[..], width, Pt(x, y), w, h, width - w, textColor);
    }

    /** Bresenham with a running numerator, in 16-bit variables. */
    method DrawLine(x1: int, y1: int, x2: int, y2: int)
      requires Valid() && Visible(Pt(x1, y1)) && Visible(Pt(x2, y2))
      modifies fb
      ensures Shows(old(fb[..]), LinePixels(Pt(x1, y1), Pt(x2, y2)))
    {
      hide OnCourse, Paint, LinePoint;
      ghost var p, q := Pt(x1, y1), Pt(x2, y2);
      SetupOnCourse(p, q);
      var w := Setup(x1, y1, x2, y2);
      ghost var m := 0;
      var curpixel := 0;
      PaintNothing(fb[..], width, textColor);
      while curpixel <= w.numPixels
        invariant 0 <= curpixel <= Longer(p, q) + 1
        invariant w.numPixels == Longer(p, q)
        invariant OnCourse(p, q, curpixel, m, w)
        invariant Shows(old(fb[..]), LinePrefix(p, q, curpixel))
      {
        OnCoursePoint(p, q, curpixel, m, w);
        StepOnCourse(p, q, curpixel, m, w);
        LineInBox(p, q, curpixel, 0, width - 1, 0, height - 1);
        DrawPixel(w.x, w.y, textColor);
        PaintThen(old(fb[..]), width, LinePrefix(p, q, curpixel), iset{LinePoint(p, q, curpixel)}, textColor);
        LinePrefixGrows(p, q, curpixel);
        m := if w.num + w.numAdd >= w.den then m + 1 else m;
        w := Step(w);
        curpixel := ToInt16(curpixel + 1);
      }
    }

    /** The square of half side radius around c is on the screen. */
    ghost predicate RoomFor(c: Pt, radius: int) {
      radius <= c.x && c.x + radius < width && radius <= c.y && c.y + radius < height
    }

    method DrawCircle(xpos: int, ypos: int, radius: nat)
      requires Valid() && radius >= 1 && RoomFor(Pt(xpos, ypos), radius)
      modifies fb
      ensures Shows(old(fb[..]), CirclePixels(Pt(xpos, ypos), radius))
    {
      hide Head, Paint;
      ghost var c := Pt(xpos, ypos);
      BeginTracks(radius);
      var w := Begin(radius);
      PaintNothing(fb[..], width, textColor);
      assert CirclePrefix(c, radius, w.x) == iset{};
      while w.x <= w.y
        invariant 0 <= w.x && Tracks(radius, w)
        invariant Shows(old(fb[..]), CirclePrefix(c, radius, w.x))
        decreases w.y - w.x
      {
        NextTracks(radius, w);
        DrawHalfOctet(Pt(xpos, ypos), w.x, w.y, false);
        PaintThen(old(fb[..]), width, CirclePrefix(c, radius, w.x), HalfMirrors(c, w.x, w.y, false), textColor);
        DrawHalfOctet(Pt(xpos, ypos), w.x, w.y, true);
        PaintThen(old(fb[..]), width, CirclePrefix(c, radius, w.x) + HalfMirrors(c, w.x, w.y, false),
                  HalfMirrors(c, w.x, w.y, true), textColor);
        MirrorsListed(c, w.x, w.y);
        PrefixGrows(c, radius, w.x, w.y);
        assert CirclePrefix(c, radius, w.x) + HalfMirrors(c, w.x, w.y, false) + HalfMirrors(c, w.x, w.y, true)
            == CirclePrefix(c, radius, w.x + 1);
        w := Next(w);
      }
      HeadAtExit(c, radius, w.x, w.y, w.decision);
    }

    /** Four of the eight points of one pass of DrawCircle: those on one side of the centre. */
    method DrawHalfOctet(c: Pt, x: nat, y: nat, down: bool)
      requires Valid() && x <= y && RoomFor(c, y)
      modifies fb
      ensures Shows(old(fb[..]), HalfMirrors(c, x, y, down))
    {
      DrawTwo(c.x, x, c.y + Signed(down, y));
      DrawTwo(c.x, y, c.y + Signed(down, x));
      HalfOctetPaints(old(fb[..]), width, c, x, y, down, textColor);
    }

    /** The two pixels of a row at the same distance from the centre column. */
    method DrawTwo(column: int, d: nat, row: int)
      requires Valid() && d <= column && column + d < width && 0 <= row < height
      modifies fb
      ensures Shows(old(fb[..]), iset{Pt(column + d, row), Pt(column - d, row)})
    {
      DrawPixel(column + d, row, textColor);
      DrawPixel(column - d, row, textColor);
      PaintThen(old(fb[..]), width, iset{Pt(column + d, row)}, iset{Pt(column - d, row)}, textColor);
      assert iset{Pt(column + d, row)} + iset{Pt(column - d, row)} == iset{Pt(column + d, row), Pt(column - d, row)};
    }

    method FillCircle(xpos: int, ypos: int, radius: nat)
      requires Valid() && radius >= 1 && RoomFor(Pt(xpos, ypos), radius)
      modifies fb
      ensures Shows(old(fb[..]), DiscPixels(Pt(xpos, ypos), radius))
    {
      hide Head, Paint;
      ghost var c := Pt(xpos, ypos);
      BeginTracks(radius);
      var w := Begin(radius);
      PaintNothing(fb[..], width, textColor);
      assert SpanPixels(c, radius, w.x) == iset{};
      while w.x <= w.y
        invariant 0 <= w.x && Tracks(radius, w)
        invariant Shows(old(fb[..]), SpanPixels(c, radius, w.x))
        decreases w.y - w.x
      {
        NextTracks(radius, w);
        FillRows(Pt(xpos, ypos), w.x, w.y, old(fb[..]), SpanPixels(c, radius, w.x));
        SpansGrow(c, radius, w.x, w.y);
        w := Next(w);
      }
      DrawCircle(xpos, ypos, radius);
      PaintThen(old(fb[..]), width, SpanPixels(c, radius, w.x), CirclePixels(c, radius), textColor);
      SpansAtExit(c, radius, w.x, w.y, w.decision);
    }

    /** The four row fills of one pass of FillCircle. */
    method FillRows(c: Pt, x: nat, y: nat, ghost before: seq<Color>, ghost area: iset<Pt>)
      requires Valid() && x <= y && RoomFor(c, y)
      requires Shows(before, area)
      modifies fb
      ensures Shows(before, area + PassRows(c, x, y))
    {
      hide Paint, PassRows, Rect;
      if y > 0 {
        DrawHLine(c.x - y, c.y + x, 2 * y);
        DrawHLine(c.x - y, c.y - x, 2 * y);
      }
      if x > 0 {
        DrawHLine(c.x - x, c.y - y, 2 * x);
        DrawHLine(c.x - x, c.y + y, 2 * x);
      }
      RowsPaint(before, width, area, c, x, y, textColor);
    }

    method FillTriangle(x1: int, x2: int, x3: int, y1: int, y2: int, y3: int)
      requires Valid() && Visible(Pt(x1, y1)) && Visible(Pt(x2, y2)) && Visible(Pt(x3, y3))
      modifies fb
      ensures Shows(old(fb[..]), TrianglePixels(Pt(x1, y1), Pt(x2, y2), Pt(x3, y3)))
    {
      hide LinePoint, LinePixels, OnCourse, Paint;
      ghost var p, q, r := Pt(x1, y1), Pt(x2, y2), Pt(x3, y3);
      SetupOnCourse(p, q);
      var w := Setup(x1, y1, x2, y2);
      ghost var m := 0;
      var curpixel := 0;
      PaintNothing(fb[..], width, textColor);
      while curpixel <= w.numPixels
        invariant 0 <= curpixel <= Longer(p, q) + 1
        invariant w.numPixels == Longer(p, q)
        invariant OnCourse(p, q, curpixel, m, w)
        invariant Shows(old(fb[..]), TrianglePrefix(p, q, r, curpixel))
      {
        OnCoursePoint(p, q, curpixel, m, w);
        StepOnCourse(p, q, curpixel, m, w);
        LineInBox(p, q, curpixel, 0, width - 1, 0, height - 1);
        DrawLine(w.x, w.y, x3, y3);
        PaintThen(old(fb[..]), width, TrianglePrefix(p, q, r, curpixel),
                  LinePixels(LinePoint(p, q, curpixel), r), textColor);
        TrianglePrefixGrows(p, q, r, curpixel);
        m := if w.num + w.numAdd >= w.den then m + 1 else m;
        w := Step(w);
        curpixel := ToInt16(curpixel + 1);
      }
    }

    method DrawPolygon(points: seq<Pt>, pointCount: nat)
      requires Valid() && pointCount <= |points|
      requires forall p :: p in points[..pointCount] ==> Visible(p)
      modifies fb
      ensures pointCount < 2 ==> fb[..] == old(fb[..])
      ensures pointCount >= 2 ==> Shows(old(fb[..]), PolygonPixels(points[..pointCount]))
    {
      hide Paint, LinePixels;
      if pointCount < 2 {
        return;
      }
      ghost var ps := points[..pointCount];
      DrawLine(points[0].x, points[0].y, points[pointCount - 1].x, points[pointCount - 1].y);
      var left, i := pointCount - 1, 0;
      while left > 0
        invariant left == pointCount - 1 - i
        invariant Shows(old(fb[..]), EdgePixels(ps, i))
      {
        assert points[i] == ps[i] && points[i + 1] == ps[i + 1];
        var x, y := points[i].x, points[i].y;
        i := i + 1;
        DrawLine(x, y, points[i].x, points[i].y);
        PaintThen(old(fb[..]), width, EdgePixels(ps, i - 1), LinePixels(ps[i - 1], ps[i]), textColor);
        left := left - 1;
      }
    }

    /** Three sweeps of one triangle, as FillPolygon calls them. */
    method FillFan(a: Pt, b: Pt, c: Pt, ghost before: seq<Color>, ghost area: iset<Pt>)
      requires Valid() && Visible(a) && Visible(b) && Visible(c)
      requires Shows(before, area)
      modifies fb
      ensures Shows(before, area + FanPixels(a, b, c))
    {
      hide FanPixels, Paint;
      FillTriangle(a.x, b.x, c.x, a.y, b.y, c.y);
      FillTriangle(a.x, c.x, b.x, a.y, c.y, b.y);
      FillTriangle(c.x, b.x, a.x, c.y, b.y, a.y);
      FanPaints(before, width, area, a, b, c, textColor);
    }

    /** The first loop of FillPolygon.  It reads the first vertex before the count is
        looked at, and its counter is 16 bits wide. */
    method VertexBounds(points: seq<Pt>, pointCount: nat) returns (box: Box)
      requires pointCount <= |points| && 1 <= |points| && pointCount < 0x8000
      ensures pointCount >= 1 ==> box == Bounds(points[..pointCount])
    {
      var left, right, top, bottom := points[0].x, points[0].x, points[0].y, points[0].y;
      var counter := 1;
      while counter < pointCount
        invariant 1 <= counter <= |points| && (pointCount >= 1 ==> counter <= pointCount)
        invariant Box(left, right, top, bottom) == Bounds(points[..counter])
        decreases pointCount - counter
      {
        var x, y := points[counter].x, points[counter].y;
        if x < left { left := x; }
        if x > right { right := x; }
        if y < top { top := y; }
        if y > bottom { bottom := y; }
        assert points[..counter + 1][..counter] == points[..counter];
        counter := ToInt16(counter + 1);
      }
      box := Box(left, right, top, bottom);
    }

    method FillPolygon(points: seq<Pt>, pointCount: nat)
      requires Valid() && pointCount <= |points| && 1 <= |points| && pointCount < 0x8000
      requires forall p :: p in points[..pointCount] ==> Visible(p)
      modifies fb
      ensures pointCount < 2 ==> fb[..] == old(fb[..])
      ensures pointCount >= 2 ==> Shows(old(fb[..]), FilledPixels(points[..pointCount]))
    {
      hide FanPixels, Paint;
      var box := VertexBounds(points, pointCount);
      if pointCount < 2 {
        return;
      }
      var ps := points[..pointCount];
      BoundsAreTight(ps);
      assert ps[0] in ps && InBox(box, ps[0]);
      var c := Pt((box.left + box.right) / 2, (box.bottom + box.top) / 2);
      assert c == Centre(Bounds(ps));
      FillEdges(ps, c);
      FillFan(points[0], points[pointCount - 1], c, old(fb[..]), FansPixels(ps, c, |ps| - 1));
    }

    /** The second loop of FillPolygon: a fan around the centre for every edge but the
        closing one. */
    method FillEdges(ps: seq<Pt>, c: Pt)
      requires Valid() && 2 <= |ps| && Visible(c) && forall i :: 0 <= i < |ps| ==> Visible(ps[i])
      modifies fb
      ensures Shows(old(fb[..]), FansPixels(ps, c, |ps| - 1))
    {
      hide FanPixels, Paint;
      PaintNothing(fb[..], width, textColor);
      var i := 0;
      var rest := |ps| - 1;
      while rest > 0
        invariant 0 <= rest && 0 <= i && rest == |ps| - 1 - i
        invariant Shows(old(fb[..]), FansPixels(ps, c, i))
      {
        var p := ps[i];
        i := i + 1;
        FillFan(p, ps[i], c, old(fb[..]), FansPixels(ps, c, i - 1));
        FansStep(ps, c, i);
        rest := rest - 1;
      }
    }

    /** DrawEllipse draws outlines of rows (filled false) and FillEllipse whole rows (filled
        true) at the cursors of one and the same error loop.  scale stands for the division
        of x by the ratio of the radii. */
    ghost predicate RoomForEllipse(c: Pt, scale: nat -> nat, xr: int, yr: int) {
      forall t :: t in Trace(Start(xr, yr)) ==>
        && scale(t.x) <= c.x && c.x + scale(t.x) < width
        && 0 <= c.y + t.y < height && 0 <= c.y - t.y < height
    }

    /** The four points of one pass of DrawEllipse. */
    method DrawCorners(c: Pt, d: nat, y: int)
      requires Valid() && d <= c.x && c.x + d < width && 0 <= c.y + y < height && 0 <= c.y - y < height
      modifies fb
      ensures Shows(old(fb[..]), Corners(c, d, y))
    {
      hide Corners, Paint;
      DrawPixel(c.x - d, c.y + y, textColor);
      DrawPixel(c.x + d, c.y + y, textColor);
      DrawPixel(c.x + d, c.y - y, textColor);
      DrawPixel(c.x - d, c.y - y, textColor);
      FourPaint(old(fb[..]), width, c, d, y, textColor);
    }

    /** The two rows of one pass of FillEllipse. */
    method DrawRowPair(c: Pt, d: nat, y: int)
      requires Valid() && d <= c.x && c.x + d < width && 0 <= c.y + y < height && 0 <= c.y - y < height
      modifies fb
      ensures Shows(old(fb[..]), RowPair(c, d, y))
    {
      DrawHLine(c.x - d, c.y + y, 2 * d + 1);
      DrawHLine(c.x - d, c.y - y, 2 * d + 1);
      PaintThen(old(fb[..]), width, Rect(c.x - d, c.y + y, 2 * d + 1, 1),
                Rect(c.x - d, c.y - y, 2 * d + 1, 1), textColor);
    }

    /** The update at the end of a pass, the same in DrawEllipse and FillEllipse. */
    static method EllipseStep(x0: nat, y0: int, err0: int) returns (x: nat, y: int, err: int)
      ensures Cursor(x, y, err) == Pass(Cursor(x0, y0, err0))
    {
      x, y, err := x0, y0, err0;
      var e2 := err;
      if e2 <= x {
        x := x + 1;
        err := err + x * 2 + 1;
        if -y == x && e2 <= y { e2 := 0; }
      }
      if e2 > y {
        y := y + 1;
        err := err + y * 2 + 1;
      }
    }

    method DrawEllipse(xpos: int, ypos: int, xr: int, yr: int, scale: nat -> nat)
      requires Valid() && RoomForEllipse(Pt(xpos, ypos), scale, xr, yr)
      modifies fb
      ensures Shows(old(fb[..]), EllipsePixels(Pt(xpos, ypos), scale, Trace(Start(xr, yr)), false))
      ensures xr >= 1 && yr >= 1 ==> Shows(old(fb[..]), DrawnPixels(Pt(xpos, ypos), scale, xr, yr, false))
    {
      if xr >= 1 && yr >= 1 {
        EllipseIsDrawn(Pt(xpos, ypos), scale, xr, yr, false);
      }
      hide Paint, Trace, EllipsePixels, DrawnPixels;
      ghost var c, all, done := Pt(xpos, ypos), Trace(Start(xr, yr)), [];
      var x, y, err := 0, -yr, 2 - 2 * xr;
      var again := true;
      while again
        invariant 0 <= x
        invariant all == done + Rest(again, Cursor(x, y, err))
        invariant Shows(old(fb[..]), EllipsePixels(c, scale, done, false))
        decreases |all| - |done|
      {
        ghost var t := Cursor(x, y, err);
        assert t in Rest(true, t) && t in all;
        DrawCorners(Pt(xpos, ypos), scale(x), y);
        CornersPaint(old(fb[..]), width, c, scale, done, t, textColor);
        TraceSplits(done, t);
        done := done + [t];
        x, y, err := EllipseStep(x, y, err);
        again := y <= 0;
      }
      assert all == done;
    }

    method FillEllipse(xpos: int, ypos: int, xr: int, yr: int, scale: nat -> nat)
      requires Valid() && RoomForEllipse(Pt(xpos, ypos), scale, xr, yr)
      modifies fb
      ensures Shows(old(fb[..]), EllipsePixels(Pt(xpos, ypos), scale, Trace(Start(xr, yr)), true))
      ensures xr >= 1 && yr >= 1 ==> Shows(old(fb[..]), DrawnPixels(Pt(xpos, ypos), scale, xr, yr, true))
    {
      if xr >= 1 && yr >= 1 {
        EllipseIsDrawn(Pt(xpos, ypos), scale, xr, yr, true);
      }
      hide Paint, Trace, EllipsePixels, DrawnPixels;
      ghost var c, all, done := Pt(xpos, ypos), Trace(Start(xr, yr)), [];
      var x, y, err := 0, -yr, 2 - 2 * xr;
      var again := true;
      while again
        invariant 0 <= x
        invariant all == done + Rest(again, Cursor(x, y, err))
        invariant Shows(old(fb[..]), EllipsePixels(c, scale, done, true))
        decreases |all| - |done|
      {
        ghost var t := Cursor(x, y, err);
        assert t in Rest(true, t) && t in all;
        DrawRowPair(Pt(xpos, ypos), scale(x), y);
        RowPairPaints(old(fb[..]), width, c, scale, done, t, textColor);
        TraceSplits(done, t);
        done := done + [t];
        x, y, err := EllipseStep(x, y, err);
        again := y <= 0;
      }
      assert all == done;
    }

    /** The buffer is before with one character cell printed as far as row i, pixel j. */
    ghost predicate Printing(before: seq<Color>, left: int, c: int, o: Pt, i: nat, j: nat)
      requires ValidFont(font) && Printable(c)
      reads this, fb
    {
      width > 0 && fb[..] == Print(before, width, left, CellInk(font, c, o) * Started(o, i, j),
                                   CellPaper(font, c, o) * Started(o, i, j), textColor, backColor)
    }

    /** All rows of a cell lie in the buffer, and it lies in the screen's width of columns that
        starts at left. */
    ghost predicate CellInBuffer(left: int, o: Pt)
      reads this
    {
      && left <= o.x && o.x + font.width <= left + width && 0 <= o.x && 0 <= o.y
      && (o.y + font.height - 1) * width + o.x + font.width <= fb.Length
    }

    /** Draws one character bitmap; start is its place in the font table.  (left only says in
        which columns to count the pixels.) */
    method DrawChar(xpos: int, ypos: int, start: nat, ghost c: int, ghost left: int)
      requires Valid() && ValidFont(font) && Printable(c) && start == RowStart(font, c, 0)
      requires CellInBuffer(left, Pt(xpos, ypos)) && ypos + font.height <= 0x1_0000
      modifies fb
      ensures fb[..] == Print(old(fb[..]), width, left, CellInk(font, c, Pt(xpos, ypos)),
                              CellPaper(font, c, Pt(xpos, ypos)), textColor, backColor)
    {
      ghost var o := Pt(xpos, ypos);
      var y := ypos;
      CellStartsAndEnds(font, c, o);
      PrintNothing(fb[..], width, left, textColor, backColor);
      var i := 0;
      while i < font.height
        invariant 0 <= i <= font.height && (i < font.height ==> y == ypos + i)
        invariant Printing(old(fb[..]), left, c, o, i, 0)
      {
        RowInTable(font, c, i);
        DrawCharRow(xpos, y, start + RowBytes(font) * i, c, ypos, i, left, old(fb[..]));
        RowFinished(font, c, o, i);
        y := ToUint16(y + 1);
        i := i + 1;
      }
    }

    /** One row of DrawChar: up to three bytes, then the inner loop over its pixels. */
    method DrawCharRow(xpos: int, y: int, pchar: nat, ghost c: int, ghost top: int, ghost i: nat, ghost left: int,
                       ghost before: seq<Color>)
      requires Valid() && ValidFont(font) && Printable(c) && i < font.height && y == top + i
      requires CellInBuffer(left, Pt(xpos, top))
      requires pchar == RowStart(font, c, i) && pchar + RowBytes(font) <= |font.table|
      requires Printing(before, left, c, Pt(xpos, top), i, 0)
      modifies fb
      ensures Printing(before, left, c, Pt(xpos, top), i, font.width)
    {
      var bytes := RowBytes(font);
      var offset := 8 * bytes - font.width;
      var line := Line(font.table[pchar..pchar + bytes]);
      forall j | 0 <= j < font.width
        ensures Bit(line, font.width - j + offset - 1) == Ink(font, c, i, j)
      {
        RowInk(font, c, i, j, pchar);
      }
      DrawBits(xpos, y, line, offset, c, top, i, left, before);
    }

    method DrawBits(xpos: int, y: int, line: nat, offset: nat, ghost c: int, ghost top: int, ghost i: nat,
                    ghost left: int, ghost before: seq<Color>)
      requires Valid() && ValidFont(font) && Printable(c) && i < font.height && y == top + i
      requires CellInBuffer(left, Pt(xpos, top))
      requires forall j :: 0 <= j < font.width ==> Bit(line, font.width - j + offset - 1) == Ink(font, c, i, j)
      requires Printing(before, left, c, Pt(xpos, top), i, 0)
      modifies fb
      ensures Printing(before, left, c, Pt(xpos, top), i, font.width)
    {
      hide CellInk, CellPaper, Started, Ink, Bit, Print, PaintFrom;
      RowInBuffer(top, i, left, xpos);
      hide CellInBuffer;
      ghost var start := y * width + xpos;
      var j := 0;
      while j < font.width
        invariant 0 <= j <= font.width
        invariant 0 <= start && start + font.width <= fb.Length && left <= xpos && xpos + font.width <= left + width
        invariant Printing(before, left, c, Pt(xpos, top), i, j)
      {
        assert y * width + (xpos + j) == start + j;
        DrawDot(xpos + j, y, Bit(line, font.width - j + offset - 1), left);
        PrintPixel(before, width, left, font, c, Pt(xpos, top), i, j, textColor, backColor);
        j := j + 1;
      }
    }

    lemma RowInBuffer(top: int, i: nat, left: int, xpos: int)
      requires Valid() && i < font.height && CellInBuffer(left, Pt(xpos, top))
      ensures 0 <= (top + i) * width + xpos && (top + i) * width + xpos + font.width <= fb.Length
      ensures left <= xpos && xpos + font.width <= left + width
    {
      MulMono(0, top + i, width);
      MulMono(top + i, top + font.height - 1, width);
    }

    /** One pixel of a character: ink or paper. */
    method DrawDot(x: int, y: int, lit: bool, ghost left: int)
      requires Valid() && 0 <= y * width + x < fb.Length && left <= x < left + width
      modifies fb
      ensures fb[..] == PaintFrom(old(fb[..]), width, left, iset{Pt(x, y)}, if lit then textColor else backColor)
    {
      PaintOneFrom(fb[..], width, left, Pt(x, y), if lit then textColor else backColor);
      if lit {
        DrawPixel(x, y, textColor);
      } else {
        DrawPixel(x, y, backColor);
      }
    }

    method DisplayChar(xpos: int, ypos: int, ascii: int, ghost left: int)
      requires Valid() && ValidFont(font) && Printable(ascii)
      requires CellInBuffer(left, Pt(xpos, ypos)) && ypos + font.height <= 0x1_0000
      modifies fb
      ensures fb[..] == Print(old(fb[..]), width, left, CellInk(font, ascii, Pt(xpos, ypos)),
                              CellPaper(font, ascii, Pt(xpos, ypos)), textColor, backColor)
    {
      MulMono(0, ascii - 0x20, font.height);
      MulMono(0, (ascii - 0x20) * font.height, RowBytes(font));
      DrawChar(xpos, ypos, (ascii - 0x20) * font.height * RowBytes(font), ascii, left);
    }

    /** Draws a line of text, wherever it starts: only the buffer has to hold it.  What runs over
        the right edge lands in the next rows; PrintOnScreen and FitsIff say what follows for a
        text that does not.  (The loop also stops at the end of the text, whose size the first
        loop of BSP_LCD_DisplayStringAt has counted.) */
    method DisplayStringAt(xpos: nat, ypos: int, text: seq<int>, mode: Align)
      requires Valid() && width < 0x8000 && ValidFont(font) && ValidText(text)
      requires 0 <= ypos && ypos + font.height <= 0x1_0000
      requires var start := RefColumn(width, font.width, xpos, |text|, mode);
        (ypos + font.height - 1) * width + start + CharCount(width, font.width, |text|) * font.width <= fb.Length
      modifies fb
      ensures Printed(old(fb[..]), text, Pt(RefColumn(width, font.width, xpos, |text|, mode), ypos),
                      CharCount(width, font.width, |text|))
    {
      DrawText(RefColumn(width, font.width, xpos, |text|, mode), ypos, text, CharCount(width, font.width, |text|));
    }

    /** The loop of DisplayStringAt, from the column the alignment has chosen. */
    method DrawText(column: nat, ypos: int, text: seq<int>, ghost n: nat)
      requires Valid() && width < 0x8000 && ValidFont(font) && font.width > 0 && ValidText(text)
      requires n == CharCount(width, font.width, |text|) && column < 0x8000
      requires 0 <= ypos && ypos + font.height <= 0x1_0000
      requires (ypos + font.height - 1) * width + column + n * font.width <= fb.Length
      modifies fb
      ensures Printed(old(fb[..]), text, Pt(column, ypos), n)
    {
      hide Print, TextInk, TextPaper, CellInk, CellPaper, ValidFont, LineRoom;
      var refColumn := column;
      ghost var o, bottom := Pt(column, ypos), (ypos + font.height - 1) * width;
      WholeCells(width, font.width, n);
      var i := 0;
      PrintNoText(fb[..], width, font, text, o, textColor, backColor);
      LoopTestHolds(width, font.width, |text|, 0);
      while i < |text| && LineRoom(width, i, font.width) >= font.width
        invariant 0 <= i <= n && refColumn == CellAt(font, o, i).x
        invariant (i < |text| && LineRoom(width, i, font.width) >= font.width) <==> i < n
        invariant Printed(old(fb[..]), text, o, i)
      {
        LoopTestHolds(width, font.width, |text|, i + 1);
        NextCell(font, o, i, n);
        DisplayChar(refColumn, ypos, text[i], column);
        TextGrows(old(fb[..]), width, font, text, o, i, textColor, backColor);
        refColumn := ToUint16(refColumn + font.width);
        i := ToUint16(i + 1);
      }
    }

    /** The buffer is before with the first n characters of a text printed. */
    ghost predicate Printed(before: seq<Color>, text: seq<int>, o: Pt, n: nat)
      requires ValidFont(font) && ValidText(text) && n <= |text|
      reads this, fb
    {
      width > 0 && fb[..] == Print(before, width, o.x, TextInk(font, text, o, n), TextPaper(font, text, o, n),
                                   textColor, backColor)
    }

    /** What that means for pixel j of row i of the k-th character: the text colour where the font
        table has a one bit, the back colour where it has a zero. */
    lemma PrintedPixel(before: seq<Color>, text: seq<int>, o: Pt, n: nat, k: nat, i: nat, j: nat)
      requires Valid() && |before| == fb.Length && ValidFont(font) && ValidText(text) && n <= |text|
      requires Printed(before, text, o, n) && n * font.width <= width
      requires k < n && i < font.height && j < font.width
      requires 0 <= (o.y + i) * width + (o.x + k * font.width + j) < fb.Length
      ensures var at := ((text[k] - 0x20) * font.height + i) * ((font.width + 7) / 8) + j / 8;
        && 0 <= at < |font.table|
        && fb[(o.y + i) * width + (o.x + k * font.width + j)]
             == if font.table[at] / [0x80, 0x40, 0x20, 0x10, 8, 4, 2, 1][j % 8] % 2 == 1 then textColor else backColor
    {
      hide Print, TextInk, TextPaper, ValidFont;
      TextShows(before, width, font, text, o, n, textColor, backColor, k, i, j);
      var a := (o.y + i) * width + (o.x + k * font.width + j);
      assert fb[..][a] == fb[a];
    }
  }

  ghost function Corners(c: Pt, d: int, y: int): iset<Pt> {
    iset p: Pt | Abs(p.x - c.x) == d && Abs(p.y - c.y) == Abs(y)
  }

  ghost function RowPair(c: Pt, d: int, y: int): iset<Pt> {
    Rect(c.x - d, c.y + y, 2 * d + 1, 1) + Rect(c.x - d, c.y - y, 2 * d + 1, 1)
  }

  lemma FourPaint(s: seq<Color>, w: nat, c: Pt, d: nat, y: int, k: Color)
    requires w > 0
    ensures Paint(s, w, Corners(c, d, y), k)
      == Paint(Paint(Paint(Paint(s, w, iset{Pt(c.x - d, c.y + y)}, k), w, iset{Pt(c.x + d, c.y + y)}, k),
                     w, iset{Pt(c.x + d, c.y - y)}, k), w, iset{Pt(c.x - d, c.y - y)}, k)
  {
  }

  lemma CornersPaint(s: seq<Color>, w: nat, c: Pt, scale: nat -> nat, ts: seq<Cursor>, t: Cursor, k: Color)
    requires w > 0
    ensures Paint(Paint(s, w, EllipsePixels(c, scale, ts, false), k), w, Corners(c, scale(t.x), t.y), k)
      == Paint(s, w, EllipsePixels(c, scale, ts + [t], false), k)
  {
    EllipseGrows(c, scale, ts, t, false);
    assert EllipsePixels(c, scale, ts, false) + Corners(c, scale(t.x), t.y) == EllipsePixels(c, scale, ts + [t], false);
    PaintThen(s, w, EllipsePixels(c, scale, ts, false), Corners(c, scale(t.x), t.y), k);
  }

  lemma RowPairPaints(s: seq<Color>, w: nat, c: Pt, scale: nat -> nat, ts: seq<Cursor>, t: Cursor, k: Color)
    requires w > 0
    ensures Paint(Paint(s, w, EllipsePixels(c, scale, ts, true), k), w, RowPair(c, scale(t.x), t.y), k)
      == Paint(s, w, EllipsePixels(c, scale, ts + [t], true), k)
  {
    EllipseGrows(c, scale, ts, t, true);
    assert EllipsePixels(c, scale, ts, true) + RowPair(c, scale(t.x), t.y) == EllipsePixels(c, scale, ts + [t], true);
    PaintThen(s, w, EllipsePixels(c, scale, ts, true), RowPair(c, scale(t.x), t.y), k);
  }

  lemma StrideNext(i: int, dst: int, xs: nat, off: nat, r: nat)
    ensures InStride(i, dst, xs, off, r + 1)
      <==> InStride(i, dst, xs, off, r) || StrideRow(dst, xs, off, r) <= i < StrideRow(dst, xs, off, r) + xs
  {
  }

  lemma StrideStep(dst: int, xs: nat, off: nat, r: nat)
    ensures StrideRow(dst, xs, off, r + 1) == StrideRow(dst, xs, off, r) + xs + off
  {
    assert (r + 1) * (xs + off) == r * (xs + off) + (xs + off);
  }

  lemma HalfOctetPaints(b: seq<Color>, w: nat, c: Pt, x: nat, y: nat, down: bool, k: Color)
    requires w > 0
    ensures Paint(b, w, HalfMirrors(c, x, y, down), k)
      == Paint(Paint(b, w, iset{Pt(c.x + x, c.y + Signed(down, y)), Pt(c.x - x, c.y + Signed(down, y))}, k),
               w, iset{Pt(c.x + y, c.y + Signed(down, x)), Pt(c.x - y, c.y + Signed(down, x))}, k)
  {
  }

  lemma RowsPaint(s: seq<Color>, w: nat, area: iset<Pt>, c: Pt, x: nat, y: nat, k: Color)
    requires w > 0
    ensures var s0 := Paint(s, w, area, k);
      var s1 := if y > 0 then Paint(Paint(s0, w, Rect(c.x - y, c.y + x, 2 * y, 1), k),
                                    w, Rect(c.x - y, c.y - x, 2 * y, 1), k) else s0;
      var s2 := if x > 0 then Paint(Paint(s1, w, Rect(c.x - x, c.y - y, 2 * x, 1), k),
                                    w, Rect(c.x - x, c.y + y, 2 * x, 1), k) else s1;
      s2 == Paint(s, w, area + PassRows(c, x, y), k)
  {
  }

  lemma FanPaints(s: seq<Color>, w: nat, area: iset<Pt>, a: Pt, b: Pt, c: Pt, k: Color)
    requires w > 0
    ensures Paint(Paint(Paint(Paint(s, w, area, k), w, TrianglePixels(a, b, c), k),
                  w, TrianglePixels(a, c, b), k), w, TrianglePixels(c, b, a), k)
      == Paint(s, w, area + FanPixels(a, b, c), k)
  {
    var S, T, U := TrianglePixels(a, b, c), TrianglePixels(a, c, b), TrianglePixels(c, b, a);
    PaintThen(s, w, area, S, k);
    PaintThen(s, w, area + S, T, k);
    PaintThen(s, w, area + S + T, U, k);
    assert area + S + T + U == area + FanPixels(a, b, c);
  }
}
