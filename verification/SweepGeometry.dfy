/** When a line drawn from some pixel of an edge to the corner opposite passes through a given
    lattice point.  The corner is taken as the origin; w is the point to be reached. */
module SweepGeometry {
  import opened Geometry
  import opened LineGeometry
  import opened LineSymmetry

  /** Twice the signed area of the triangle a, b, p. */
  function Cross(a: Pt, b: Pt, p: Pt): int {
    (b.x - a.x) * (p.y - a.y) - (b.y - a.y) * (p.x - a.x)
  }

  /** The side of the ray through w on which f lies. */
  function Side(w: Pt, f: Pt): int { w.x * f.y - w.y * f.x }

  // ---- one line back to the origin ----

  ghost predicate Beyond(f: Pt, w: Pt) { 0 <= w.x <= f.x && 0 <= w.y <= f.y }

  /** f is near enough to the ray through w for its line to be rounded onto w. */
  ghost predicate Hits(f: Pt, w: Pt) {
    Beyond(f, w) && 2 * Abs(Side(w, f)) < Max(f.x, f.y)
  }

  lemma MinorBack(d: int, a: int, j: int, q: int)
    requires 0 <= a <= d && 0 <= j <= d && 2 * Abs(j * a - q * d) < d
    ensures Minor(d, a, d - j) == a - q
  {
    assert d / 2 + (d - j) * a == (a - q) * d + (d / 2 - (j * a - q * d)) by {
      assert (d - j) * a == d * a - j * a;
      assert (a - q) * d == a * d - q * d;
    }
    QuotientIsUnique(d / 2 + (d - j) * a, d, a - q, d / 2 - (j * a - q * d));
  }

  lemma HitIsOnLine(f: Pt, w: Pt)
    requires Hits(f, w)
    ensures OnLine(f, ORIGIN, w)
  {
    var flat := f.x >= f.y;
    var k: nat := if flat then f.x - w.x else f.y - w.y;
    AbsSwap(w.x * f.y, w.y * f.x);
    BackToOrigin(f, k);
    hide Minor, LinePoint, Longer, Abs;
    if flat {
      MinorBack(f.x, f.y, w.x, w.y);
    } else {
      MinorBack(f.y, f.x, w.y, w.x);
    }
    hide Side;
    assert w == LinePoint(f, ORIGIN, k);
  }

  lemma BackToOrigin(f: Pt, k: nat)
    requires f.x >= 0 && f.y >= 0 && k <= Max(f.x, f.y)
    ensures Longer(f, ORIGIN) == Max(f.x, f.y)
    ensures LinePoint(f, ORIGIN, k) == if f.x >= f.y then Pt(f.x - k, f.y - Minor(f.x, f.y, k))
                                       else Pt(f.x - Minor(f.y, f.x, k), f.y - k)
  {
    hide Minor;
    MinorAtExtremes(Max(f.x, f.y), k);
  }

  /** p lies exactly on the segment from a to b. */
  predicate OnSegment(a: Pt, b: Pt, p: Pt) {
    && Cross(a, b, p) == 0
    && Min(a.x, b.x) <= p.x <= Max(a.x, b.x) && Min(a.y, b.y) <= p.y <= Max(a.y, b.y)
  }

  lemma SideFromCross(a: Pt, b: Pt, p: Pt, nx: bool, ny: bool)
    requires Cross(a, b, p) == 0
    ensures Side(Mirror(Minus(p, b), nx, ny), Mirror(Minus(a, b), nx, ny)) == 0
  {
    var f, w := Minus(a, b), Minus(p, b);
    assert Cross(a, b, p) == w.x * f.y - w.y * f.x;
  }

  /** A line passes through every lattice point of the segment it stands for. */
  lemma SegmentIsOnLine(a: Pt, b: Pt, p: Pt)
    requires OnSegment(a, b, p)
    ensures OnLine(a, b, p)
  {
    if a == b {
      LineEnds(a, b);
      assert p == LinePoint(a, b, 0);
    } else {
      var nx, ny := a.x < b.x, a.y < b.y;
      SideFromCross(a, b, p, nx, ny);
      hide Cross, Side, OnLine;
      HitIsOnLine(Mirror(Minus(a, b), nx, ny), Mirror(Minus(p, b), nx, ny));
      OnLineMirrors(Minus(a, b), Minus(p, b), nx, ny);
      OnLineMoves(a, b, p);
    }
  }

  // ---- an edge walked pixel by pixel, from either end ----

  function Chain(u: Pt, v: Pt, fwd: bool, k: nat): Pt
    requires k <= Longer(u, v)
  {
    LinePoint(u, v, if fwd then k else Longer(u, v) - k)
  }

  lemma ChainEnds(u: Pt, v: Pt, fwd: bool)
    ensures Chain(u, v, fwd, 0) == if fwd then u else v
    ensures Chain(u, v, fwd, Longer(u, v)) == if fwd then v else u
  {
    hide LinePoint;
    LineEnds(u, v);
  }

  lemma HitSweeps(u: Pt, v: Pt, fwd: bool, k: nat, w: Pt)
    requires k <= Longer(u, v) && Hits(Chain(u, v, fwd, k), w)
    ensures Swept(u, v, w)
  {
    hide LinePoint, OnLine;
    HitIsOnLine(Chain(u, v, fwd, k), w);
  }

  /** The last pixel of the walk, from k on, before it crosses the ray through w. */
  lemma {:induction false} Crossing(u: Pt, v: Pt, fwd: bool, w: Pt, k: nat) returns (n: nat)
    requires k <= Longer(u, v)
    requires Side(w, Chain(u, v, fwd, k)) >= 0 >= Side(w, Chain(u, v, fwd, Longer(u, v)))
    ensures k <= n <= Longer(u, v) && Side(w, Chain(u, v, fwd, n)) >= 0
    ensures if n == Longer(u, v) then Side(w, Chain(u, v, fwd, n)) == 0
      else Side(w, Chain(u, v, fwd, n + 1)) <= 0
    decreases Longer(u, v) - k
  {
    hide Chain, Side;
    if k == Longer(u, v) || Side(w, Chain(u, v, fwd, k + 1)) <= 0 {
      n := k;
    } else {
      n := Crossing(u, v, fwd, w, k + 1);
    }
  }

  lemma SideDiffers(w: Pt, f: Pt, g: Pt)
    ensures Side(w, f) - Side(w, g) == w.y * (g.x - f.x) - w.x * (g.y - f.y)
  {
  }

  // ---- an edge that rises like the ray ----

  /** The walk lo-hi rises and passes the ray through w from its left to its right, with the
      origin and w below it. */
  ghost predicate Facing(lo: Pt, hi: Pt, w: Pt) {
    && 0 <= w.x <= hi.x && 0 <= w.y <= hi.y && w != ORIGIN
    && lo.x <= hi.x && lo.y <= hi.y && lo != hi
    && Side(w, lo) >= 0 >= Side(w, hi)
    && Cross(lo, hi, w) <= 0
  }

  /** One pixel further along a line. */
  lemma LineSteps(p: Pt, q: Pt, k: nat)
    requires k < Longer(p, q)
    ensures var f, g := LinePoint(p, q, k), LinePoint(p, q, k + 1);
      if XMajor(p, q) then g.x == f.x + Sign(p.x, q.x) && (g.y == f.y || (p.y != q.y && g.y == f.y + Sign(p.y, q.y)))
      else g.y == f.y + Sign(p.y, q.y) && (g.x == f.x || (p.x != q.x && g.x == f.x + Sign(p.x, q.x)))
  {
    MinorSteps(Longer(p, q), Shorter(p, q), k);
    MinorAtExtremes(Longer(p, q), k);
    MinorAtExtremes(Longer(p, q), k + 1);
    hide Minor;
  }

  lemma ChainRises(u: Pt, v: Pt, fwd: bool, k: nat)
    requires k < Longer(u, v)
    requires if fwd then u.x <= v.x && u.y <= v.y else v.x <= u.x && v.y <= u.y
    ensures var f, g := Chain(u, v, fwd, k), Chain(u, v, fwd, k + 1);
      f.x <= g.x <= f.x + 1 && f.y <= g.y <= f.y + 1 && if XMajor(u, v) then g.x == f.x + 1 else g.y == f.y + 1
  {
    hide LinePoint;
    LineSteps(u, v, if fwd then k else Longer(u, v) - k - 1);
  }

  lemma ChainAt(u: Pt, v: Pt, fwd: bool, k: nat)
    requires k <= Longer(u, v)
    requires if fwd then u.x <= v.x && u.y <= v.y else v.x <= u.x && v.y <= u.y
    ensures var f, lo := Chain(u, v, fwd, k), if fwd then u else v;
      f.x >= lo.x && f.y >= lo.y && if XMajor(u, v) then f.x == lo.x + k else f.y == lo.y + k
  {
    MinorBounds(Longer(u, v), Shorter(u, v), if fwd then k else Longer(u, v) - k);
    hide Minor;
  }

  lemma CrossTurned(f: Pt, u: Pt, v: Pt)
    ensures Cross(v, u, f) == -Cross(u, v, f)
  {
  }

  lemma CrossFromOffsets(u: Pt, v: Pt, f: Pt)
    ensures Abs(Cross(u, v, f)) == Abs((f.x - u.x) * (v.y - u.y) - (f.y - u.y) * (v.x - u.x))
  {
    AbsSwap((f.x - u.x) * (v.y - u.y), (f.y - u.y) * (v.x - u.x));
  }

  /** The walk stays within half a pixel of the edge. */
  lemma ChainNear(u: Pt, v: Pt, fwd: bool, k: nat)
    requires k <= Longer(u, v)
    ensures 2 * Abs(Cross(u, v, Chain(u, v, fwd, k))) <= Longer(u, v)
  {
    hide LinePoint, Longer, Cross, Abs;
    var f := Chain(u, v, fwd, k);
    assert OnLine(u, v, f);
    LineWithinHalfPixel(u, v, f);
    CrossFromOffsets(u, v, f);
  }

  // In the column of w (or its row, for a steep edge) the walk is not nearer than w.

  lemma ColumnAbove(lo: Pt, hi: Pt, w: Pt, f: Pt)
    requires Cross(lo, hi, w) <= 0 && 2 * Abs(Cross(lo, hi, f)) <= hi.x - lo.x
    requires f.x == w.x && lo.x < hi.x
    ensures f.y >= w.y
  {
    if f.y < w.y {
      assert Cross(lo, hi, w) - Cross(lo, hi, f) == (hi.x - lo.x) * (w.y - f.y);
      MulMono(1, w.y - f.y, hi.x - lo.x);
    }
  }

  lemma RowLeft(lo: Pt, hi: Pt, w: Pt, f: Pt)
    requires Cross(lo, hi, w) <= 0 && 2 * Abs(Cross(lo, hi, f)) <= hi.y - lo.y
    requires f.y == w.y && lo.y < hi.y
    ensures f.x <= w.x
  {
    if f.x > w.x {
      assert Cross(lo, hi, w) - Cross(lo, hi, f) == (hi.y - lo.y) * (f.x - w.x);
      MulMono(1, f.x - w.x, hi.y - lo.y);
    }
  }

  lemma LeftOf(w: Pt, f: Pt)
    requires w.x >= 0 && w.y >= 0 && f.x <= w.x && f.y >= w.y
    ensures Side(w, f) >= 0
  {
    MulMono(w.y, f.y, w.x);
    MulMono(f.x, w.x, w.y);
  }

  lemma LeftAndFurther(w: Pt, f: Pt)
    requires w.x >= 0 && w.y >= 0 && w != ORIGIN && f.x > w.x && Side(w, f) >= 0
    ensures f.y >= w.y
  {
    if f.y < w.y {
      MulMono(f.y + 1, w.y, w.x);
      MulMono(w.x + 1, f.x, w.y);
    }
  }

  /** Where the walk has reached w and is still on the left of the ray. */
  lemma Start(u: Pt, v: Pt, fwd: bool, w: Pt) returns (k: nat)
    requires if fwd then Facing(u, v, w) else Facing(v, u, w)
    ensures k <= Longer(u, v) && Side(w, Chain(u, v, fwd, k)) >= 0 && Chain(u, v, fwd, k).y >= w.y
    ensures XMajor(u, v) ==> Chain(u, v, fwd, k).x >= w.x
  {
    hide LinePoint, Side, Cross, Chain;
    var lo, hi := if fwd then u else v, if fwd then v else u;
    k := if XMajor(u, v) then Max(0, w.x - lo.x) else Max(0, w.y - lo.y);
    var f := Chain(u, v, fwd, k);
    ChainEnds(u, v, fwd);
    ChainAt(u, v, fwd, k);
    ChainNear(u, v, fwd, k);
    CrossTurned(f, u, v);
    if XMajor(u, v) {
      if k == 0 && lo.x > w.x {
        LeftAndFurther(w, lo);
      } else {
        ColumnAbove(lo, hi, w, f);
        LeftOf(w, f);
      }
    } else if k > 0 || lo.y == w.y {
      RowLeft(lo, hi, w, f);
      LeftOf(w, f);
    }
  }

  lemma {:induction false} ChainMono(u: Pt, v: Pt, fwd: bool, j: nat, k: nat)
    requires j <= k <= Longer(u, v)
    requires if fwd then u.x <= v.x && u.y <= v.y else v.x <= u.x && v.y <= u.y
    ensures Chain(u, v, fwd, j).x <= Chain(u, v, fwd, k).x && Chain(u, v, fwd, j).y <= Chain(u, v, fwd, k).y
    decreases k - j
  {
    hide Chain;
    if j < k {
      ChainRises(u, v, fwd, j);
      ChainMono(u, v, fwd, j + 1, k);
    }
  }

  lemma LevelSide(w: Pt, f: Pt)
    requires Beyond(f, w) && f.y == w.y
    ensures Side(w, f) <= 0
  {
    MulMono(w.x, f.x, w.y);
  }

  lemma Products(w: Pt, a: int, b: int)
    requires w.x >= 0 && w.y >= 0 && 0 <= a <= 1 && 0 <= b <= 1
    ensures w.y * a - w.x * b <= w.y
  {
  }

  /** Where a rising walk crosses the ray, the two pixels cannot both be half a pixel off. */
  lemma RisingStepHits(f: Pt, g: Pt, w: Pt)
    requires Beyond(f, w) && f.x <= g.x <= f.x + 1 && f.y <= g.y <= f.y + 1
    requires w != ORIGIN && Side(w, f) >= 0 >= Side(w, g)
    ensures Hits(f, w) || Hits(g, w)
  {
    hide Side;
    SideDiffers(w, f, g);
    Products(w, g.x - f.x, g.y - f.y);
    if f.y == w.y {
      LevelSide(w, f);
    }
  }

  /** A steep walk that has just crossed the ray has reached the column of w. */
  lemma SteepCrossing(f: Pt, g: Pt, w: Pt)
    requires w.x >= 0 && 0 <= w.y <= f.y && w != ORIGIN
    requires f.x <= g.x <= f.x + 1 && g.y == f.y + 1 && Side(w, g) <= 0
    ensures Beyond(f, w) || Hits(g, w)
  {
    if f.x < w.x {
      var gap := w.x - g.x;
      assert Side(w, g) == w.x * (g.y - w.y) + w.y * gap by {
        assert w.x * (g.y - w.y) == w.x * g.y - w.x * w.y;
        assert w.y * gap == w.y * w.x - w.y * g.x;
      }
      assert w.x * (g.y - w.y) >= w.x by { MulMono(1, g.y - w.y, w.x); }
      assert w.y * gap >= 0 by { MulMono(0, gap, w.y); }
      assert w.x == 0 && w.y * gap == 0;
      assert gap == 0 by {
        if gap > 0 {
          MulMono(1, gap, w.y);
        }
      }
    }
  }

  lemma FacingSweeps(u: Pt, v: Pt, fwd: bool, w: Pt)
    requires if fwd then Facing(u, v, w) else Facing(v, u, w)
    ensures Swept(u, v, w)
  {
    hide Chain, Side, Cross, Swept;
    var last := Longer(u, v);
    ChainEnds(u, v, fwd);
    var k := Start(u, v, fwd, w);
    var n := Crossing(u, v, fwd, w, k);
    ChainMono(u, v, fwd, k, n);
    var f := Chain(u, v, fwd, n);
    if n == last {
      HitSweeps(u, v, fwd, n, w);
    } else {
      ChainRises(u, v, fwd, n);
      var g := Chain(u, v, fwd, n + 1);
      assert Beyond(f, w) || Hits(g, w) by {
        if XMajor(u, v) {
          assert Beyond(f, w);
        } else {
          SteepCrossing(f, g, w);
        }
      }
      if Beyond(f, w) {
        RisingStepHits(f, g, w);
      }
      if Hits(f, w) {
        HitSweeps(u, v, fwd, n, w);
      } else {
        HitSweeps(u, v, fwd, n + 1, w);
      }
    }
  }

  // ---- an edge far enough away ----

  /** A pixel far beyond w and close to its ray is beyond w on both axes. */
  lemma FarBelow(a: int, b: int, x: int, y: int)
    requires a > 0 && b > 0 && x >= a + b && y < b
    ensures 2 * (a * y - b * x) < -(a + b)
  {
    MulMono(y, b - 1, a);
    MulMono(a + b, x, b);
    assert a * (b - 1) == a * b - a;
    assert b * (a + b) == a * b + b * b;
    MulMono(1, b, b);
  }

  lemma FarIsBeyond(f: Pt, w: Pt)
    requires w.x > 0 && w.y > 0 && f.x >= w.x + w.y && 2 * Abs(Side(w, f)) <= w.x + w.y
    ensures Beyond(f, w)
  {
    if f.y < w.y {
      FarBelow(w.x, w.y, f.x, f.y);
    }
  }

  lemma DiagonalProducts(w: Pt, a: int, b: int)
    requires w.x > 0 && w.y > 0 && -1 <= a <= 1 && -1 <= b <= 1
    ensures w.y * a - w.x * b <= w.x + w.y
    ensures w.y * a - w.x * b == w.x + w.y ==> a == 1
  {
  }

  lemma FarStepHits(f: Pt, g: Pt, w: Pt)
    requires w.x > 0 && w.y > 0 && f.x >= w.x + w.y && g.x >= w.x + w.y
    requires -1 <= g.x - f.x <= 1 && -1 <= g.y - f.y <= 1
    requires Side(w, f) >= 0 >= Side(w, g)
    ensures Hits(f, w) || Hits(g, w)
  {
    hide Side;
    SideDiffers(w, f, g);
    DiagonalProducts(w, g.x - f.x, g.y - f.y);
    if 2 * Side(w, f) <= w.x + w.y {
      FarIsBeyond(f, w);
    }
    if -2 * Side(w, g) <= w.x + w.y {
      FarIsBeyond(g, w);
    }
  }

  lemma FarSweeps(u: Pt, v: Pt, fwd: bool, w: Pt)
    requires w.x > 0 && w.y > 0 && u.x >= w.x + w.y && v.x >= w.x + w.y
    requires if fwd then Side(w, u) >= 0 >= Side(w, v) else Side(w, v) >= 0 >= Side(w, u)
    ensures Swept(u, v, w)
  {
    hide LinePoint, Side, Swept;
    ChainEnds(u, v, fwd);
    var n := Crossing(u, v, fwd, w, 0);
    var f := Chain(u, v, fwd, n);
    var right, top, bottom := Max(u.x, v.x), Min(u.y, v.y), Max(u.y, v.y);
    LineInBox(u, v, if fwd then n else Longer(u, v) - n, w.x + w.y, right, top, bottom);
    if n == Longer(u, v) {
      FarIsBeyond(f, w);
      HitSweeps(u, v, fwd, n, w);
    } else {
      var m := if fwd then n + 1 else Longer(u, v) - (n + 1);
      LineInBox(u, v, m, w.x + w.y, right, top, bottom);
      LineIsConnected(u, v, if fwd then n else m);
      FarStepHits(f, Chain(u, v, fwd, n + 1), w);
      if Hits(f, w) {
        HitSweeps(u, v, fwd, n, w);
      } else {
        HitSweeps(u, v, fwd, n + 1, w);
      }
    }
  }
}
