/** How one sweep of a triangle leaves a hole: where the walk along the edge takes a diagonal step
    across the rays to the corner, the lines from the two pixels pass on either side of a lattice
    point.  Some multiple of the triangle has such a step at a place where the point is inside. */
module SweepHoles {
  import opened Geometry
  import opened LineGeometry
  import opened LineSymmetry
  import opened PolygonGeometry
  import opened SweepGeometry
  import opened TriangleCover
  import opened PolygonExtent
  import opened PolygonDistance

  // ---- missing a point from every pixel of the edge ----

  /** w is more than half a pixel away from the line from f to the origin. */
  predicate Misses(f: Pt, w: Pt) {
    2 * Abs(Side(w, f)) > Max(Abs(f.x), Abs(f.y))
  }

  ghost predicate Missed(u: Pt, v: Pt, w: Pt) {
    forall k: nat :: k <= Longer(u, v) ==> Misses(LinePoint(u, v, k), w)
  }

  lemma SideFromOffsets(f: Pt, c: Pt, p: Pt)
    ensures (p.x - f.x) * (c.y - f.y) - (p.y - f.y) * (c.x - f.x) == Side(Minus(f, c), Minus(p, c))
  {
    var w, g := Minus(p, c), Minus(f, c);
    assert (w.x - g.x) * (-g.y) - (w.y - g.y) * (-g.x) == g.x * w.y - g.y * w.x;
  }

  lemma MissesLine(f: Pt, c: Pt, p: Pt)
    requires Misses(Minus(f, c), Minus(p, c))
    ensures !OnLine(f, c, p)
  {
    if OnLine(f, c, p) {
      LineWithinHalfPixel(f, c, p);
      SideFromOffsets(f, c, p);
      SideTurned(Minus(f, c), Minus(p, c));
    }
  }

  lemma SideTurned(f: Pt, w: Pt)
    ensures Side(f, w) == -Side(w, f)
  {
  }

  lemma MissedIsUnpainted(a: Pt, b: Pt, c: Pt, p: Pt)
    requires Missed(Minus(a, c), Minus(b, c), Minus(p, c))
    ensures p !in TrianglePixels(a, b, c)
  {
    hide LinePoint, OnLine, Misses, Longer, TrianglePrefix;
    TriangleMembers(a, b, c, Longer(a, b) + 1, p);
    if k: nat :| k < Longer(a, b) + 1 && OnLine(LinePoint(a, b, k), c, p) {
      LineMoves(a, b, c, k);
      MissesLine(LinePoint(a, b, k), c, p);
    }
  }

  lemma SideMirrors(f: Pt, w: Pt, nx: bool, ny: bool)
    ensures Side(Mirror(w, nx, ny), Mirror(f, nx, ny)) == if nx == ny then Side(w, f) else -Side(w, f)
  {
  }

  lemma MissesMirrors(f: Pt, w: Pt, nx: bool, ny: bool)
    ensures Misses(Mirror(f, nx, ny), Mirror(w, nx, ny)) == Misses(f, w)
  {
    SideMirrors(f, w, nx, ny);
    hide Side;
  }

  lemma MissesSwaps(f: Pt, w: Pt)
    ensures Misses(Swap(f), Swap(w)) == Misses(f, w)
  {
    AbsSwap(w.x * f.y, w.y * f.x);
  }

  lemma MissedMirrors(u: Pt, v: Pt, w: Pt, nx: bool, ny: bool)
    requires Missed(Mirror(u, nx, ny), Mirror(v, nx, ny), Mirror(w, nx, ny))
    ensures Missed(u, v, w)
  {
    hide LinePoint, Longer, Misses, Mirror;
    forall k: nat | k <= Longer(u, v)
      ensures Misses(LinePoint(u, v, k), w)
    {
      LineMirrors(u, v, nx, ny, k);
      MissesMirrors(LinePoint(u, v, k), w, nx, ny);
    }
  }

  lemma MissedSwaps(u: Pt, v: Pt, w: Pt)
    requires Missed(Swap(u), Swap(v), Swap(w))
    ensures Missed(u, v, w)
  {
    hide LinePoint, Longer, Misses, Swap;
    forall k: nat | k <= Longer(u, v)
      ensures Misses(LinePoint(u, v, k), w)
    {
      LineSwaps(u, v, k);
      MissesSwaps(LinePoint(u, v, k), w);
    }
  }

  // ---- a walk down to the right ----

  predicate Downhill(u: Pt, v: Pt) { u.x < v.x && v.y < u.y }

  /** f is well to the left of the ray through w, g well to its right. */
  predicate LeftOfRay(f: Pt, w: Pt) { 2 * Side(w, f) > Max(Abs(f.x), Abs(f.y)) }
  predicate RightOfRay(g: Pt, w: Pt) { -2 * Side(w, g) > Max(Abs(g.x), Abs(g.y)) }

  lemma DownhillStep(u: Pt, v: Pt, k: nat)
    requires Downhill(u, v) && k < Longer(u, v)
    ensures var f, g := LinePoint(u, v, k), LinePoint(u, v, k + 1);
      f.x <= g.x <= f.x + 1 && g.y <= f.y <= g.y + 1 && f != g
  {
    LineSteps(u, v, k);
    hide LinePoint;
  }

  lemma StepGain(w: Pt, a: int, b: int)
    requires w.x >= 1 && w.y >= 1 && 0 <= a <= 1 && 0 <= b <= 1 && (a, b) != (0, 0)
    ensures w.y * a - w.x * -b >= 1
  {
  }

  lemma NormStep(f: Pt, g: Pt)
    requires -1 <= g.x - f.x <= 1 && -1 <= g.y - f.y <= 1
    ensures -1 <= Max(Abs(g.x), Abs(g.y)) - Max(Abs(f.x), Abs(f.y)) <= 1
  {
  }

  lemma FurtherFromRay(f: Pt, g: Pt, w: Pt)
    requires w.x >= 1 && w.y >= 1 && f.x <= g.x <= f.x + 1 && g.y <= f.y <= g.y + 1 && f != g
    ensures LeftOfRay(g, w) ==> LeftOfRay(f, w)
    ensures RightOfRay(f, w) ==> RightOfRay(g, w)
  {
    SideDiffers(w, f, g);
    StepGain(w, g.x - f.x, f.y - g.y);
    NormStep(f, g);
    assert -(f.y - g.y) == g.y - f.y;
    hide Side, Abs, Max;
  }

  lemma {:induction false} LeftBefore(u: Pt, v: Pt, w: Pt, j: nat, k: nat)
    requires Downhill(u, v) && w.x >= 1 && w.y >= 1 && j <= k <= Longer(u, v) && LeftOfRay(LinePoint(u, v, k), w)
    ensures LeftOfRay(LinePoint(u, v, j), w)
    decreases k - j
  {
    hide LinePoint, LeftOfRay, RightOfRay;
    if j < k {
      DownhillStep(u, v, k - 1);
      FurtherFromRay(LinePoint(u, v, k - 1), LinePoint(u, v, k), w);
      LeftBefore(u, v, w, j, k - 1);
    }
  }

  lemma {:induction false} RightAfter(u: Pt, v: Pt, w: Pt, j: nat, k: nat)
    requires Downhill(u, v) && w.x >= 1 && w.y >= 1 && j <= k <= Longer(u, v) && RightOfRay(LinePoint(u, v, j), w)
    ensures RightOfRay(LinePoint(u, v, k), w)
    decreases k - j
  {
    hide LinePoint, LeftOfRay, RightOfRay;
    if j < k {
      DownhillStep(u, v, j);
      FurtherFromRay(LinePoint(u, v, j), LinePoint(u, v, j + 1), w);
      RightAfter(u, v, w, j + 1, k);
    }
  }

  /** When two consecutive pixels leave w between them, every pixel misses it. */
  lemma StepMisses(u: Pt, v: Pt, w: Pt, k: nat)
    requires Downhill(u, v) && w.x >= 1 && w.y >= 1 && k < Longer(u, v)
    requires LeftOfRay(LinePoint(u, v, k), w) && RightOfRay(LinePoint(u, v, k + 1), w)
    ensures Missed(u, v, w)
  {
    hide LinePoint, Side;
    forall j: nat | j <= Longer(u, v)
      ensures Misses(LinePoint(u, v, j), w)
    {
      if j <= k {
        LeftBefore(u, v, w, j, k);
      } else {
        RightAfter(u, v, w, k + 1, j);
      }
    }
  }

  // ---- the point a diagonal step leaves out ----

  /** Below a steep diagonal step from (x, y), with y = 2kx + rest, the point k + 1 rows down lies
      between the two lines. */
  lemma SteepGap(x: int, y: int, k: nat, rest: int)
    requires x >= 1 && y == 2 * k * x + rest && 2 * k + 4 <= rest < 2 * x && y + rest - 2 * (k + 1) > x + 1
    ensures var w, f, g := Pt(x, y - (k + 1)), Pt(x, y), Pt(x + 1, y - 1);
      w.y >= 1 && LeftOfRay(f, w) && RightOfRay(g, w)
  {
    hide Side;
    var kx := k * x;
    MulMono(0, k, x);
    assert 2 * k * x == 2 * kx;
    GapSides(x, y, k);
  }

  lemma GapSides(x: int, y: int, k: int)
    ensures Side(Pt(x, y - (k + 1)), Pt(x, y)) == k * x + x
    ensures Side(Pt(x, y - (k + 1)), Pt(x + 1, y - 1)) == k * x + k + 1 - y
  {
    var r := k + 1;
    assert r * x == k * x + x && (y - r) * x == y * x - r * x;
    assert x * (y - 1) == x * y - x && (y - r) * (x + 1) == (y - r) * x + (y - r);
  }

  /** The same for a flat step to (x, y), with x = 2ky + rest. */
  lemma FlatGap(x: int, y: int, k: nat, rest: int)
    requires y >= 1 && x == 2 * k * y + rest && 2 * k + 4 <= rest < 2 * y && x + rest - 2 * (k + 1) > y + 1
    ensures var w, f, g := Pt(x - (k + 1), y), Pt(x - 1, y + 1), Pt(x, y);
      w.x >= 1 && LeftOfRay(f, w) && RightOfRay(g, w)
  {
    SteepGap(y, x, k, rest);
    var w, f, g := Pt(x - (k + 1), y), Pt(x - 1, y + 1), Pt(x, y);
    SideSwaps(w, f);
    SideSwaps(w, g);
    hide Side;
  }

  lemma SideSwaps(w: Pt, f: Pt)
    ensures Side(Pt(w.y, w.x), Pt(f.y, f.x)) == -Side(w, f)
  {
  }

  // ---- the walk of a multiple of the edge near a lattice point of it ----

  lemma MinorShift(den: nat, add: nat, j: nat, q: int, i: nat)
    requires den > 0 && j * add == q * den
    ensures Minor(den, add, j + i) == q + Minor(den, add, i)
  {
    var a := den / 2 + i * add;
    assert a == (a / den) * den + a % den;
    assert den / 2 + (j + i) * add == (q + a / den) * den + a % den by {
      assert (j + i) * add == j * add + i * add && (q + a / den) * den == q * den + a / den * den;
    }
    QuotientIsUnique(den / 2 + (j + i) * add, den, q + a / den, a % den);
  }

  lemma {:induction false} FirstRise(den: nat, add: nat, k: nat) returns (i: nat)
    requires 0 < den && add <= den && Minor(den, add, k) >= 1
    ensures i < k && Minor(den, add, i) == 0 && Minor(den, add, i + 1) == 1
  {
    MinorAtEnds(den, add);
    hide Minor;
    MinorSteps(den, add, k - 1);
    if Minor(den, add, k - 1) >= 1 {
      i := FirstRise(den, add, k - 1);
    } else {
      i := k - 1;
      MinorMono(den, add, 0, i);
    }
  }

  /** n copies of a step of d and e, walked from the lattice point q = s * t of the n * d: the
      first rise of the shorter side comes within d steps. */
  lemma RiseAfter(d: nat, e: nat, n: nat, j: nat) returns (i: nat)
    requires 0 < e <= d && n > 0
    ensures i < d && Minor(n * d, n * e, j * d + i) == j * e && Minor(n * d, n * e, j * d + i + 1) == j * e + 1
    ensures i * e <= d
  {
    hide Minor;
    var den, add := n * d, n * e;
    MulMono(1, n, d);
    MulMono(e, d, n);
    Exchange(j, d, n, e);
    Exchange(1, d, n, e);
    MinorAtEnds(den, add);
    MinorShift(den, add, d, e, 0);
    i := FirstRise(den, add, d);
    MinorShift(den, add, j * d, j * e, i);
    MinorShift(den, add, j * d, j * e, i + 1);
    MinorWithinHalf(den, add, i);
    assert 2 * (i * (n * e)) <= n * d;
    RiseIsLate(n, d, e, i);
  }

  lemma Exchange(j: int, d: int, n: int, e: int)
    ensures (j * d) * (n * e) == (j * e) * (n * d)
  {
    assert (j * d) * (n * e) == j * n * d * e == (j * e) * (n * d);
  }

  lemma RiseIsLate(n: nat, d: nat, e: nat, i: nat)
    requires n > 0 && d > 0 && 2 * (i * (n * e)) <= n * d
    ensures i * e <= d
  {
    assert i * (n * e) == n * (i * e);
    if i * e > d {
      MulMono(d + 1, i * e, n);
    }
  }

  /** m times the point that divides u and v as t to m - t. */
  function OnEdge(u: Pt, v: Pt, m: int, t: int): Pt {
    Pt(m * u.x + t * (v.x - u.x), m * u.y + t * (v.y - u.y))
  }

  /** The walk of m * s copies of the edge takes a diagonal step soon after the lattice point
      s * OnEdge. */
  lemma DiagonalStep(u: Pt, v: Pt, m: nat, t: nat, s: nat) returns (k: nat, i: nat, j: nat)
    requires Downhill(u, v) && t < m && s > 0
    ensures var e, p, q := Times(s, OnEdge(u, v, m, t)), Times(m * s, u), Times(m * s, v);
      && k < Longer(p, q) && LinePoint(p, q, k) == Pt(e.x + i, e.y - j)
      && LinePoint(p, q, k + 1) == Pt(e.x + i + 1, e.y - j - 1)
    ensures i <= v.x - u.x && j <= u.y - v.y && (u.y - v.y) * i - (v.x - u.x) * j <= v.x - u.x
  {
    hide Minor, LinePoint, Longer, XMajor, Times, OnEdge;
    var n, dx, dy := m * s, v.x - u.x, u.y - v.y;
    MulMono(1, m, s);
    ScaledSides(u, v, n);
    EdgeFromStart(u, v, m, t, s);
    if dx >= dy {
      k, i := FlatDiagonal(u, v, n, s * t);
      j := 0;
      WalkEnds(m, s, t, dx, i);
      assert dy * i == i * dy && dx * j == 0;
    } else {
      k, j := SteepDiagonal(u, v, n, s * t);
      i := 0;
      WalkEnds(m, s, t, dy, j);
      MulMono(0, j, dx);
      assert dy * i == 0;
    }
  }

  lemma FlatDiagonal(u: Pt, v: Pt, n: nat, a: nat) returns (k: nat, f: nat)
    requires Downhill(u, v) && n > 0 && v.x - u.x >= u.y - v.y
    ensures var p, q, dx, dy := Times(n, u), Times(n, v), v.x - u.x, u.y - v.y;
      && k == a * dx + f && f < dx && f * dy <= dx && Longer(p, q) == n * dx
      && LinePoint(p, q, k) == Pt(p.x + k, p.y - a * dy) && LinePoint(p, q, k + 1) == Pt(p.x + k + 1, p.y - a * dy - 1)
  {
    hide Minor, LinePoint, Longer, XMajor, Times;
    var dx, dy := v.x - u.x, u.y - v.y;
    ScaledSides(u, v, n);
    f := RiseAfter(dx, dy, n, a);
    k := a * dx + f;
    WalkPoint(Times(n, u), Times(n, v), k, n * dx, n * dy);
    WalkPoint(Times(n, u), Times(n, v), k + 1, n * dx, n * dy);
  }

  lemma SteepDiagonal(u: Pt, v: Pt, n: nat, a: nat) returns (k: nat, f: nat)
    requires Downhill(u, v) && n > 0 && v.x - u.x < u.y - v.y
    ensures var p, q, dx, dy := Times(n, u), Times(n, v), v.x - u.x, u.y - v.y;
      && k == a * dy + f && f < dy && Longer(p, q) == n * dy
      && LinePoint(p, q, k) == Pt(p.x + a * dx, p.y - k) && LinePoint(p, q, k + 1) == Pt(p.x + a * dx + 1, p.y - k - 1)
  {
    hide Minor, LinePoint, Longer, XMajor, Times;
    var dx, dy := v.x - u.x, u.y - v.y;
    ScaledSides(u, v, n);
    f := RiseAfter(dy, dx, n, a);
    k := a * dy + f;
    WalkPoint(Times(n, u), Times(n, v), k, n * dx, n * dy);
    WalkPoint(Times(n, u), Times(n, v), k + 1, n * dx, n * dy);
  }

  lemma ScaledSides(u: Pt, v: Pt, n: nat)
    requires Downhill(u, v) && n > 0
    ensures var p, q := Times(n, u), Times(n, v);
      q.x - p.x == n * (v.x - u.x) > 0 && p.y - q.y == n * (u.y - v.y) > 0
    ensures n * (v.x - u.x) >= n * (u.y - v.y) <==> v.x - u.x >= u.y - v.y
  {
    var dx, dy := v.x - u.x, u.y - v.y;
    MulMono(1, dx, n);
    MulMono(1, dy, n);
    if dx >= dy {
      MulMono(dy, dx, n);
    } else {
      MulMono(dx + 1, dy, n);
    }
  }

  lemma WalkEnds(m: nat, s: nat, t: nat, d: nat, f: nat)
    requires t < m && s > 0 && f < d
    ensures s * t * d + f < m * s * d
  {
    MulMono(t + 1, m, s);
    MulMono(s * (t + 1), s * m, d);
    assert s * (t + 1) == s * t + s && (s * t + s) * d == s * t * d + s * d && s * m == m * s;
    MulMono(1, s, d);
  }

  lemma WalkPoint(p: Pt, q: Pt, k: nat, dx: nat, dy: nat)
    requires q.x - p.x == dx > 0 && p.y - q.y == dy > 0
    ensures Longer(p, q) == Max(dx, dy) && (XMajor(p, q) <==> dx >= dy)
    ensures LinePoint(p, q, k) == if dx >= dy then Pt(p.x + k, p.y - Minor(dx, dy, k))
                                  else Pt(p.x + Minor(dy, dx, k), p.y - k)
  {
    hide Minor;
  }

  lemma EdgeFromStart(u: Pt, v: Pt, m: int, t: int, s: int)
    ensures var e, p := Times(s, OnEdge(u, v, m, t)), Times(m * s, u);
      e.x == p.x + s * t * (v.x - u.x) && e.y == p.y - s * t * (u.y - v.y)
  {
    ScaledEdge(u.x, v.x, m, s, t);
    ScaledEdge(u.y, v.y, m, s, t);
  }

  lemma ScaledEdge(a: int, b: int, m: int, s: int, t: int)
    ensures s * (m * a + t * (b - a)) == m * s * a + s * t * (b - a)
    ensures s * t * (b - a) == -(s * t * (a - b))
  {
    assert s * (m * a) == m * s * a && s * (t * (b - a)) == s * t * (b - a);
  }

  // ---- the left-out point lies in the triangle ----

  lemma EdgeProduct(n: int, dx: int, dy: int, c: int, a: int, b: int)
    ensures (n * dx) * (-(c * dy) - b) - -(n * dy) * (c * dx + a) == n * (dy * a - dx * b)
  {
    assert -(n * dy) * (c * dx + a) == -((n * dy) * (c * dx + a));
    assert (n * dx) * (-(c * dy) - b) == -(n * dx * (c * dy)) - n * dx * b;
    assert (n * dy) * (c * dx + a) == n * dy * (c * dx) + n * dy * a;
    assert n * dx * (c * dy) == n * dy * (c * dx);
    assert n * (dy * a - dx * b) == n * dy * a - n * dx * b;
  }

  lemma SideLinear(c: Pt, u: Pt, d: Pt, m: int, t: int)
    ensures Side(c, Pt(m * u.x + t * d.x, m * u.y + t * d.y)) == m * Side(c, u) + t * Side(c, d)
  {
    assert c.x * (m * u.y + t * d.y) == m * (c.x * u.y) + t * (c.x * d.y);
    assert c.y * (m * u.x + t * d.x) == m * (c.y * u.x) + t * (c.y * d.x);
    var x, y, z, w := c.x * u.y, c.y * u.x, c.x * d.y, c.y * d.x;
    assert m * (x - y) == m * x - m * y && t * (z - w) == t * z - t * w;
  }

  lemma SideOfDifference(u: Pt, v: Pt)
    ensures Side(u, u) == 0 && Side(u, Minus(v, u)) == -Side(v, u) && Side(v, Minus(v, u)) == -Side(v, u)
  {
  }

  /** Signed distances of the lattice point of the edge from the rays to its ends. */
  lemma EdgeSides(u: Pt, v: Pt, m: int, t: int)
    ensures Side(u, OnEdge(u, v, m, t)) == -(t * Side(v, u))
    ensures Side(v, OnEdge(u, v, m, t)) == (m - t) * Side(v, u)
  {
    SideLinear(u, u, Minus(v, u), m, t);
    SideLinear(v, u, Minus(v, u), m, t);
    SideOfDifference(u, v);
    hide Side;
    var d := Side(v, u);
    assert t * -d == -(t * d) && (m - t) * d == m * d - t * d && m * 0 == 0;
  }

  lemma CornerCross(n: int, c: Pt, w: Pt)
    ensures Cross(Times(n, c), ORIGIN, w) == -(n * Side(c, w)) && Cross(ORIGIN, Times(n, c), w) == n * Side(c, w)
  {
    var x, y := n * c.x, n * c.y;
    assert Cross(ORIGIN, Pt(x, y), w) == x * w.y - y * w.x;
    assert Cross(Pt(x, y), ORIGIN, w) == -(x * w.y - y * w.x) by {
      assert (0 - x) * (w.y - y) == x * y - x * w.y && (0 - y) * (w.x - x) == x * y - y * w.x;
    }
    assert x * w.y == n * (c.x * w.y) && y * w.x == n * (c.y * w.x);
    assert n * (c.x * w.y - c.y * w.x) == n * (c.x * w.y) - n * (c.y * w.x);
  }

  lemma SideNear(c: Pt, e: Pt, s: int, a: int, b: int)
    ensures Side(c, Pt(s * e.x + a, s * e.y - b)) == s * Side(c, e) - (c.x * b + c.y * a)
  {
    assert c.x * (s * e.y - b) == s * (c.x * e.y) - c.x * b;
    assert c.y * (s * e.x + a) == s * (c.y * e.x) + c.y * a;
    assert s * (c.x * e.y - c.y * e.x) == s * (c.x * e.y) - s * (c.y * e.x);
  }

  lemma BigProduct(n: nat, s: nat, x: int, e: int)
    requires n > 0 && x >= 1 && s > Abs(e)
    ensures n * (s * x - e) > 0
  {
    MulMono(1, x, s);
    MulMono(1, s * x - e, n);
  }

  lemma HoleBelowEdge(u: Pt, v: Pt, m: nat, t: nat, s: nat, a: int, b: int)
    requires Downhill(u, v) && m > 0 && s > 0 && (u.y - v.y) * a - (v.x - u.x) * b <= 0
    ensures var e := OnEdge(u, v, m, t);
      Cross(Times(m * s, u), Times(m * s, v), Pt(s * e.x + a, s * e.y - b)) <= 0
  {
    var n, dx, dy := m * s, v.x - u.x, u.y - v.y;
    var e := OnEdge(u, v, m, t);
    var p, q, w := Times(n, u), Times(n, v), Pt(s * e.x + a, s * e.y - b);
    MulMono(1, m, s);
    ScaledSides(u, v, n);
    EdgeFromStart(u, v, m, t, s);
    assert w.x - p.x == s * t * dx + a && w.y - p.y == -(s * t * dy) - b;
    hide OnEdge, Times, Cross;
    CrossBySides(p, q, w, n * dx, -(n * dy), s * t * dx + a, -(s * t * dy) - b);
    EdgeProduct(n, dx, dy, s * t, a, b);
    MulMono(dy * a - dx * b, 0, n);
  }

  lemma CrossBySides(p: Pt, q: Pt, w: Pt, x: int, y: int, a: int, b: int)
    requires q.x - p.x == x && q.y - p.y == y && w.x - p.x == a && w.y - p.y == b
    ensures Cross(p, q, w) == x * b - y * a
  {
  }

  /** The ray to a corner c of the edge leaves the point on the side the edge lies on. */
  lemma HoleBesideRay(c: Pt, e: Pt, n: nat, s: nat, x: int, a: int, b: int, up: bool)
    requires n > 0 && x >= 1 && Signed(up, Side(c, e)) == x && s > Abs(c.x * b + c.y * a)
    ensures n * Signed(up, Side(c, Pt(s * e.x + a, s * e.y - b))) > 0
  {
    SideNear(c, e, s, a, b);
    var z := c.x * b + c.y * a;
    BigProduct(n, s, x, Signed(up, z));
    hide Side;
    assert s * -x == -(s * x);
  }

  lemma HoleInside(u: Pt, v: Pt, m: nat, t: nat, s: nat, a: int, b: int)
    requires Downhill(u, v) && 0 < t < m && s > 0 && Side(v, u) > 0
    requires (u.y - v.y) * a - (v.x - u.x) * b <= 0
    requires s > Abs(u.x * b + u.y * a) && s > Abs(v.x * b + v.y * a)
    ensures var e := OnEdge(u, v, m, t);
      RightOfEdges(Times(m * s, u), Times(m * s, v), ORIGIN, Pt(s * e.x + a, s * e.y - b))
  {
    var n, d, e := m * s, Side(v, u), OnEdge(u, v, m, t);
    var w := Pt(s * e.x + a, s * e.y - b);
    MulMono(1, m, s);
    MulMono(1, t, d);
    MulMono(1, m - t, d);
    HoleBelowEdge(u, v, m, t, s, a, b);
    EdgeSides(u, v, m, t);
    CornerCross(n, u, w);
    CornerCross(n, v, w);
    hide Cross, Side, OnEdge, Times, Abs;
    HoleBesideRay(u, e, n, s, t * d, a, b, false);
    HoleBesideRay(v, e, n, s, (m - t) * d, a, b, true);
    assert n * -Side(u, w) == -(n * Side(u, w));
  }

  // ---- a hole in some multiple ----

  /** w is a lattice point of the n-fold triangle that the sweep of its edge leaves out. */
  ghost predicate HoleAt(u: Pt, v: Pt, n: nat, w: Pt) {
    n >= 1 && Inside(Times(n, u), Times(n, v), ORIGIN, w) && Missed(Times(n, u), Times(n, v), w)
  }

  ghost predicate HasHole(u: Pt, v: Pt) {
    exists n: nat, w: Pt :: HoleAt(u, v, n, w)
  }

  lemma SmallOffset(c: Pt, a: int, b: int, bound: nat, size: nat)
    requires Abs(a) <= bound && Abs(b) <= bound && Abs(c.x) + Abs(c.y) <= size
    ensures Abs(c.x * b + c.y * a) <= size * bound
  {
    ProductBound(c.x, b, bound);
    ProductBound(c.y, a, bound);
    MulMono(Abs(c.x) + Abs(c.y), size, bound);
    assert (Abs(c.x) + Abs(c.y)) * bound == Abs(c.x) * bound + Abs(c.y) * bound;
    var x, y := c.x * b, c.y * a;
    assert Abs(x + y) <= Abs(x) + Abs(y);
  }

  lemma ProductBound(x: int, y: int, bound: nat)
    requires Abs(y) <= bound
    ensures Abs(x * y) <= Abs(x) * bound
  {
    OneProduct(y, x, bound);
    OneProduct(-y, x, bound);
    assert x * -y == -(x * y);
  }

  /** How many copies are enough. */
  function Copies(u: Pt, v: Pt, k: nat): nat
    requires Downhill(u, v)
  {
    var dx, dy := v.x - u.x, u.y - v.y;
    MulMono(0, k, dx);
    MulMono(0, k, dy);
    var size, bound := Abs(u.x) + Abs(u.y) + Abs(v.x) + Abs(v.y), dx + dy + k + 2;
    MulMono(0, size, bound);
    2 * (k * dx) + 2 * (k * dy) + 4 * dx + 4 * dy + 4 * k + 20 + size * bound
  }

  lemma HoleFromStep(u: Pt, v: Pt, m: nat, t: nat, k: nat, s: nat, step: nat, a: int, b: int)
    requires Downhill(u, v) && 0 < t < m && Side(v, u) > 0 && s == Copies(u, v, k)
    requires 0 - k <= a <= v.x - u.x && 0 <= b <= (u.y - v.y) + k + 1
    requires (u.y - v.y) * a - (v.x - u.x) * b <= 0
    requires var e, p, q := OnEdge(u, v, m, t), Times(m * s, u), Times(m * s, v);
      var w := Pt(s * e.x + a, s * e.y - b);
      && w.x >= 1 && w.y >= 1 && step < Longer(p, q)
      && LeftOfRay(LinePoint(p, q, step), w) && RightOfRay(LinePoint(p, q, step + 1), w)
    ensures HasHole(u, v)
  {
    var e, n := OnEdge(u, v, m, t), m * s;
    var w := Pt(s * e.x + a, s * e.y - b);
    var size, bound := Abs(u.x) + Abs(u.y) + Abs(v.x) + Abs(v.y), (v.x - u.x) + (u.y - v.y) + k + 2;
    SmallOffset(u, a, b, bound, size);
    SmallOffset(v, a, b, bound, size);
    EnoughCopies(u, v, k);
    MulMono(1, m, s);
    ScaledSides(u, v, n);
    hide Side, OnEdge, LinePoint, Longer, LeftOfRay, RightOfRay, RightOfEdges, Missed, Copies;
    HoleInside(u, v, m, t, s, a, b);
    StepMisses(Times(n, u), Times(n, v), w, step);
    assert HoleAt(u, v, n, w);
  }

  lemma EnoughCopies(u: Pt, v: Pt, k: nat)
    requires Downhill(u, v)
    ensures var dx, dy, s := v.x - u.x, u.y - v.y, Copies(u, v, k);
      && s > 2 * (k * dx) + 2 * (k * dy) + 4 * dx + 4 * dy + 4 * k + 10
      && s > (Abs(u.x) + Abs(u.y) + Abs(v.x) + Abs(v.y)) * (dx + dy + k + 2)
  {
    MulMono(0, k, v.x - u.x);
    MulMono(0, k, u.y - v.y);
  }

  lemma ScaledQuotient(s: int, e: int, f: int, k: int, rest: int)
    requires f == 2 * k * e + rest
    ensures s * f == 2 * (k * (s * e)) + s * rest
  {
    assert s * f == s * (2 * k * e) + s * rest;
    assert s * (2 * k * e) == 2 * (k * (s * e));
  }

  lemma ScaledRest(s: nat, e: int, f: int, rest: int)
    requires 1 <= e <= f && 0 < rest < 2 * e
    ensures s <= s * e <= s * f && s <= s * rest <= 2 * (s * e) - s
  {
    MulMono(1, e, s);
    MulMono(e, f, s);
    MulMono(1, rest, s);
    MulMono(rest + 1, 2 * e, s);
    assert (rest + 1) * s == s * rest + s && 2 * e * s == 2 * (s * e);
  }

  /** The lattice point e of the edge, scaled up s times, gives a steep diagonal step of the right
      kind at (s e.x + i, s e.y - j). */
  lemma SteepNumbers(ex: int, ey: int, s: nat, i: int, j: int, dx: nat, dy: nat, k: nat, rest: int)
    requires 1 <= ex <= ey && ey == 2 * k * ex + rest && 0 < rest < 2 * ex
    requires 0 <= i <= dx && 0 <= j <= dy && s > 2 * (k * dx) + 4 * dx + 4 * dy + 4 * k + 10
    ensures var x, y, r := s * ex + i, s * ey - j, s * rest - j - 2 * (k * i);
      && x >= 1 && y == 2 * k * x + r && 2 * k + 4 <= r < 2 * x && y + r - 2 * (k + 1) > x + 1
  {
    MulMono(i, dx, k);
    MulMono(0, i, k);
    ScaledQuotient(s, ex, ey, k, rest);
    ScaledRest(s, ex, ey, rest);
    TwiceProduct(k, s * ex, i);
  }

  lemma TwiceProduct(k: int, a: int, b: int)
    ensures 2 * k * (a + b) == 2 * (k * a) + 2 * (k * b)
  {
    assert 2 * k * (a + b) == 2 * (k * (a + b)) && k * (a + b) == k * a + k * b;
  }

  lemma StepDown(dx: nat, dy: nat, i: int, j: int, k: nat)
    requires dy * i - dx * j <= dx
    ensures dy * i - dx * (j + k + 1) <= 0
  {
    assert dx * (j + k + 1) == dx * j + dx * k + dx;
    MulMono(0, dx, k);
  }

  lemma SteepHole(u: Pt, v: Pt, m: nat, t: nat, k: nat, rest: int)
    requires Downhill(u, v) && 0 < t < m && Side(v, u) > 0
    requires var e := OnEdge(u, v, m, t); 1 <= e.x <= e.y && e.y == 2 * k * e.x + rest && 0 < rest < 2 * e.x
    ensures HasHole(u, v)
  {
    var e, dx, dy := OnEdge(u, v, m, t), v.x - u.x, u.y - v.y;
    var s := Copies(u, v, k);
    EnoughCopies(u, v, k);
    MulMono(0, k, dy);
    MulMono(0, k, dx);
    var step, i, j := DiagonalStep(u, v, m, t, s);
    hide Side, OnEdge, LinePoint, Longer, LeftOfRay, RightOfRay, Copies, Abs, HasHole;
    SteepNumbers(e.x, e.y, s, i, j, dx, dy, k, rest);
    SteepGap(s * e.x + i, s * e.y - j, k, s * rest - j - 2 * (k * i));
    StepDown(dx, dy, i, j, k);
    HoleFromStep(u, v, m, t, k, s, step, i, j + k + 1);
  }

  lemma FlatBounds(y: int, x: int, r: int, kj: nat, s: int, i: int, j: int, k: nat)
    requires s <= y <= x && s <= r <= 2 * y - s && s > 2 * kj + 2 * i + 4 * j + 2 * k + 10 && i >= 0 && j >= 0
    ensures 2 * k + 4 <= r + i + 1 + 2 * kj < 2 * (y - j - 1) && x + i + 1 + r + i + 1 + 2 * kj > 2 * (k + 1) + y - j
  {
  }

  lemma FlatNumbers(ex: int, ey: int, s: nat, i: int, j: int, dx: nat, dy: nat, k: nat, rest: int)
    requires 1 <= ey <= ex && ex == 2 * k * ey + rest && 0 < rest < 2 * ey
    requires 0 <= i <= dx && 0 <= j <= dy && s > 2 * (k * dy) + 4 * dx + 4 * dy + 4 * k + 10
    ensures var x, y, r := s * ex + i + 1, s * ey - j - 1, s * rest + i + 1 + 2 * (k * (j + 1));
      && y >= 1 && x == 2 * k * y + r && 2 * k + 4 <= r < 2 * y && x + r - 2 * (k + 1) > y + 1
  {
    MulMono(j, dy, k);
    MulMono(0, j, k);
    assert k * (j + 1) == k * j + k;
    ScaledQuotient(s, ey, ex, k, rest);
    ScaledRest(s, ey, ex, rest);
    FlatBounds(s * ey, s * ex, s * rest, k * (j + 1), s, i, j, k);
    TwiceProduct(k, s * ey, -(j + 1));
    assert k * -(j + 1) == -(k * (j + 1));
  }

  lemma StepLeft(dx: nat, dy: nat, i: int, j: int, k: nat)
    requires dy * i - dx * j <= dx
    ensures dy * (i - k) - dx * (j + 1) <= 0
  {
    assert dy * (i - k) == dy * i - dy * k && dx * (j + 1) == dx * j + dx;
    MulMono(0, dy, k);
  }

  lemma FlatHole(u: Pt, v: Pt, m: nat, t: nat, k: nat, rest: int)
    requires Downhill(u, v) && 0 < t < m && Side(v, u) > 0
    requires var e := OnEdge(u, v, m, t); 1 <= e.y <= e.x && e.x == 2 * k * e.y + rest && 0 < rest < 2 * e.y
    ensures HasHole(u, v)
  {
    var e, dx, dy := OnEdge(u, v, m, t), v.x - u.x, u.y - v.y;
    var s := Copies(u, v, k);
    EnoughCopies(u, v, k);
    MulMono(0, k, dy);
    MulMono(0, k, dx);
    var step, i, j := DiagonalStep(u, v, m, t, s);
    hide Side, OnEdge, LinePoint, Longer, LeftOfRay, RightOfRay, Copies, Abs, HasHole;
    FlatNumbers(e.x, e.y, s, i, j, dx, dy, k, rest);
    FlatGap(s * e.x + i + 1, s * e.y - j - 1, k, s * rest + i + 1 + 2 * (k * (j + 1)));
    StepLeft(dx, dy, i, j, k);
    HoleFromStep(u, v, m, t, k, s, step, i - k, j + 1);
  }
}
