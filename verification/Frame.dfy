/** Frame buffer contents and what it means to paint a set of pixels. */
module Frame {
  import opened Geometry

  type Color = bv32

  predicate OnScreen(w: nat, h: nat, p: Pt) {
    0 <= p.x < w && 0 <= p.y < h
  }

  /** The pixel shown by word i of a frame buffer w pixels wide. */
  function PointAt(w: nat, i: nat): Pt
    requires w > 0
  {
    Pt(i % w, i / w)
  }

  /** s with exactly the pixels of area set to c. */
  ghost function Paint(s: seq<Color>, w: nat, area: iset<Pt>, c: Color): (r: seq<Color>)
    requires w > 0
    ensures |r| == |s|
  {
    seq(|s|, i requires 0 <= i < |s| => if PointAt(w, i) in area then c else s[i])
  }

  /** The word of the frame buffer that holds a pixel. */
  function Address(w: nat, h: nat, p: Pt): (i: nat)
    requires OnScreen(w, h, p)
    ensures i < w * h && PointAt(w, i) == p
  {
    MulMono(p.y + 1, h, w);
    assert (p.y + 1) * w == p.y * w + w && w * h == h * w;
    RowAndColumn(w, p.y, p.x, (p.y * w + p.x) / w, (p.y * w + p.x) % w);
    p.y * w + p.x
  }

  /** Row and column of a word are unique. */
  lemma RowAndColumn(w: nat, y: int, x: int, y': int, x': int)
    requires 0 <= x < w && 0 <= x' < w && y * w + x == y' * w + x'
    ensures y == y' && x == x'
  {
    QuotientIsUnique(y * w + x, w, y, x);
    QuotientIsUnique(y' * w + x', w, y', x');
  }

  lemma PaintThen(s: seq<Color>, w: nat, S: iset<Pt>, T: iset<Pt>, c: Color)
    requires w > 0
    ensures Paint(Paint(s, w, S, c), w, T, c) == Paint(s, w, S + T, c)
  {
  }

  /** Pixel by pixel: the word of p takes the colour if p is in the area, and no other does. */
  lemma PaintedPixel(s: seq<Color>, w: nat, h: nat, area: iset<Pt>, c: Color, p: Pt)
    requires |s| == w * h && OnScreen(w, h, p)
    ensures 0 <= p.y * w + p.x < |s|
    ensures Paint(s, w, area, c)[p.y * w + p.x] == if p in area then c else s[p.y * w + p.x]
  {
    var i := Address(w, h, p);
    assert i == p.y * w + p.x;
  }

  /** A painted rectangle, pixel by pixel. */
  lemma PaintedRect(s: seq<Color>, w: nat, h: nat, x: int, y: int, rw: nat, rh: nat, c: Color, p: Pt)
    requires |s| == w * h && OnScreen(w, h, p)
    ensures 0 <= p.y * w + p.x < |s|
    ensures Paint(s, w, Rect(x, y, rw, rh), c)[p.y * w + p.x]
      == if x <= p.x < x + rw && y <= p.y < y + rh then c else s[p.y * w + p.x]
  {
    PaintedPixel(s, w, h, Rect(x, y, rw, rh), c, p);
    hide Paint;
  }

  lemma PaintOne(s: seq<Color>, w: nat, h: nat, p: Pt, c: Color)
    requires w > 0 && |s| == w * h && OnScreen(w, h, p)
    ensures s[Address(w, h, p) := c] == Paint(s, w, iset{p}, c)
  {
    var a := Address(w, h, p);
    forall i | 0 <= i < |s|
      ensures s[a := c][i] == Paint(s, w, iset{p}, c)[i]
    {
      assert i == (i / w) * w + i % w && a == (a / w) * w + a % w;
    }
  }

  lemma PaintNothing(s: seq<Color>, w: nat, c: Color)
    requires w > 0
    ensures Paint(s, w, iset{}, c) == s
  {
  }

  // ---- rows that run over the right edge ----

  /** The pixel drawn at word i by a picture w columns wide that starts at column left: what
      runs over the right edge of the screen lands at the start of the next row. */
  function PointFrom(w: nat, left: int, i: int): Pt
    requires w > 0
  {
    Pt(left + (i - left) % w, (i - left) / w)
  }

  /** s with the pixels of area set to c, for an area within the columns from left on. */
  ghost function PaintFrom(s: seq<Color>, w: nat, left: int, area: iset<Pt>, c: Color): (r: seq<Color>)
    requires w > 0
    ensures |r| == |s|
  {
    seq(|s|, i requires 0 <= i < |s| => if PointFrom(w, left, i) in area then c else s[i])
  }

  /** Inside its w columns a picture has one word for each pixel, whatever the right edge. */
  lemma WordFrom(w: nat, left: int, x: int, y: int)
    requires w > 0 && left <= x < left + w
    ensures PointFrom(w, left, y * w + x) == Pt(x, y)
  {
    var a := y * w + x - left;
    QuotientIsUnique(a, w, y, x - left);
    assert a == (a / w) * w + a % w;
  }

  lemma PointFromInverse(w: nat, left: int, i: int)
    requires w > 0
    ensures var p := PointFrom(w, left, i); left <= p.x < left + w && i == p.y * w + p.x
  {
    var a := i - left;
    assert a == (a / w) * w + a % w;
  }

  lemma PointAtInverse(w: nat, i: nat)
    requires w > 0
    ensures var q := PointAt(w, i); 0 <= q.x < w && i == q.y * w + q.x
  {
    assert i == (i / w) * w + i % w;
  }

  /** On the screen it is plain painting. */
  lemma PaintFromOnScreen(s: seq<Color>, w: nat, left: int, area: iset<Pt>, c: Color)
    requires w > 0 && forall p :: p in area ==> left <= p.x < left + w && 0 <= p.x < w
    ensures PaintFrom(s, w, left, area, c) == Paint(s, w, area, c)
  {
    forall i | 0 <= i < |s|
      ensures PaintFrom(s, w, left, area, c)[i] == Paint(s, w, area, c)[i]
    {
      SamePoint(w, left, area, i);
      hide PointFrom, PointAt;
    }
  }

  lemma SamePoint(w: nat, left: int, area: iset<Pt>, i: nat)
    requires w > 0 && forall p :: p in area ==> left <= p.x < left + w && 0 <= p.x < w
    ensures PointFrom(w, left, i) in area <==> PointAt(w, i) in area
  {
    hide PointFrom, PointAt;
    var p, q := PointFrom(w, left, i), PointAt(w, i);
    PointFromInverse(w, left, i);
    PointAtInverse(w, i);
    if q in area {
      WordFrom(w, left, q.x, q.y);
    }
    if p in area {
      RowAndColumn(w, p.y, p.x, q.y, q.x);
    }
  }

  lemma PaintFromThen(s: seq<Color>, w: nat, left: int, S: iset<Pt>, T: iset<Pt>, c: Color)
    requires w > 0
    ensures PaintFrom(PaintFrom(s, w, left, S, c), w, left, T, c) == PaintFrom(s, w, left, S + T, c)
  {
  }

  lemma PaintFromNothing(s: seq<Color>, w: nat, left: int, c: Color)
    requires w > 0
    ensures PaintFrom(s, w, left, iset{}, c) == s
  {
  }

  lemma PaintOneFrom(s: seq<Color>, w: nat, left: int, p: Pt, c: Color)
    requires w > 0 && left <= p.x < left + w && 0 <= p.y * w + p.x < |s|
    ensures s[p.y * w + p.x := c] == PaintFrom(s, w, left, iset{p}, c)
  {
    var a := p.y * w + p.x;
    WordFrom(w, left, p.x, p.y);
    forall i | 0 <= i < |s|
      ensures s[a := c][i] == PaintFrom(s, w, left, iset{p}, c)[i]
    {
      PointFromInverse(w, left, i);
    }
  }

  // ---- the strided fill engine ----

  /** Word i belongs to the first rows rows of a fill of xs words per row, off words apart. */
  ghost predicate InStride(i: int, dst: int, xs: nat, off: nat, rows: nat) {
    exists r: nat :: r < rows && StrideRow(dst, xs, off, r) <= i < StrideRow(dst, xs, off, r) + xs
  }

  function StrideRow(dst: int, xs: nat, off: nat, r: nat): int {
    dst + r * (xs + off)
  }

  lemma StrideRowStart(w: nat, o: Pt, xs: nat, off: nat, r: nat)
    requires xs + off == w || r == 0
    ensures StrideRow(o.y * w + o.x, xs, off, r) == (o.y + r) * w + o.x
  {
    assert (o.y + r) * w == o.y * w + r * w;
  }

  /** On a screen w wide, a fill whose row length plus gap is w, or that has one row only,
      touches exactly the pixels of a rectangle. */
  lemma StrideIsRect(w: nat, o: Pt, xs: nat, ys: nat, off: nat, i: nat)
    requires w > 0 && 0 <= o.x && 0 <= o.y && o.x + xs <= w
    requires xs + off == w || ys <= 1
    ensures InStride(i, o.y * w + o.x, xs, off, ys) <==> PointAt(w, i) in Rect(o.x, o.y, xs, ys)
  {
    var dst, p := o.y * w + o.x, PointAt(w, i);
    if p in Rect(o.x, o.y, xs, ys) {
      RectRow(w, o, xs, off, p.y - o.y, i);
    }
    if r: nat :| r < ys && StrideRow(dst, xs, off, r) <= i < StrideRow(dst, xs, off, r) + xs {
      RectRow(w, o, xs, off, r, i);
    }
  }

  /** One row of a strided fill is one row of the rectangle. */
  lemma RectRow(w: nat, o: Pt, xs: nat, off: nat, r: nat, i: nat)
    requires w > 0 && 0 <= o.x && 0 <= o.y && o.x + xs <= w
    requires xs + off == w || r == 0
    ensures StrideRow(o.y * w + o.x, xs, off, r) <= i < StrideRow(o.y * w + o.x, xs, off, r) + xs
      <==> PointAt(w, i).y == o.y + r && o.x <= PointAt(w, i).x < o.x + xs
  {
    StrideRowStart(w, o, xs, off, r);
    var start := (o.y + r) * w + o.x;
    assert i == (i / w) * w + i % w;
    if start <= i < start + xs {
      RowAndColumn(w, o.y + r, i - (o.y + r) * w, i / w, i % w);
    }
  }

  lemma StridePaintsRect(a: seq<Color>, b: seq<Color>, w: nat, o: Pt, xs: nat, ys: nat, off: nat, c: Color)
    requires w > 0 && |a| == |b| && 0 <= o.x && 0 <= o.y && o.x + xs <= w
    requires xs + off == w || ys <= 1
    requires forall i :: 0 <= i < |b| ==> b[i] == if InStride(i, o.y * w + o.x, xs, off, ys) then c else a[i]
    ensures b == Paint(a, w, Rect(o.x, o.y, xs, ys), c)
  {
    forall i | 0 <= i < |b|
      ensures b[i] == Paint(a, w, Rect(o.x, o.y, xs, ys), c)[i]
    {
      StrideIsRect(w, o, xs, ys, off, i);
    }
  }

  /** A rectangle on the screen ends inside the frame buffer. */
  lemma RectFits(w: nat, h: nat, o: Pt, xs: nat, ys: nat, off: nat)
    requires 0 <= o.x && 0 <= o.y && o.x + xs <= w && o.y + ys <= h
    requires xs + off == w || ys <= 1
    requires ys >= 1
    ensures o.y * w + o.x + (ys - 1) * (xs + off) + xs <= w * h
  {
    StrideRowStart(w, o, xs, off, ys - 1);
    MulMono(o.y + ys, h, w);
    assert (o.y + ys) * w == (o.y + (ys - 1)) * w + w && w * h == h * w;
  }
}
