/** Exactly which triangles one FillTriangle call fills at every size: those whose first edge leans
    outward.  Every other edge, turned and mirrored, has a lattice point in some multiple from which
    the walk leaves a hole. */
module SweepSizes {
  import opened Geometry
  import opened LineGeometry
  import opened LineSymmetry
  import opened PolygonGeometry
  import opened SweepGeometry
  import opened TriangleCover
  import opened PolygonDistance
  import opened SweepHoles

  // ---- a lattice point of the edge of the right kind ----

  /** Some point of the edge between its ends has two positive coordinates. */
  lemma PositivePart(u: Pt, v: Pt) returns (m: nat, t: nat)
    requires Downhill(u, v) && Side(v, u) > 0 && v.x > 0 && u.y > 0
    ensures 0 < t < m && OnEdge(u, v, m, t).x >= 1 && OnEdge(u, v, m, t).y >= 1
  {
    var dx, dy := v.x - u.x, u.y - v.y;
    var a, b := Max(0, -u.x), Min(u.y, dy);
    Ordered(u, v, a, b);
    hide Side;
    MulMono(0, a, dy);
    MulMono(1, b, dx);
    MulMono(b, dy, dx);
    t, m := a * dy + b * dx, 2 * (dy * dx);
    FirstPositive(u.x, dx, dy, a, b);
    SecondPositive(u.y, dx, dy, a, b);
    Opposite(t, dy, v.y - u.y);
  }

  lemma Opposite(t: int, d: int, e: int)
    requires d == -e
    ensures t * e == -(t * d)
  {
  }

  lemma Ordered(u: Pt, v: Pt, a: nat, b: nat)
    requires Downhill(u, v) && Side(v, u) > 0 && v.x > 0 && u.y > 0
    requires a == Max(0, -u.x) && b == Min(u.y, u.y - v.y)
    ensures a * (u.y - v.y) < b * (v.x - u.x)
  {
    var dx, dy := v.x - u.x, u.y - v.y;
    if a == 0 {
      MulMono(1, b, dx);
    } else if b == dy {
      assert a + 1 <= dx;
      MulMono(a + 1, dx, dy);
    } else {
      assert u.y * dx == u.y * v.x - u.y * u.x && -u.x * dy == -(u.x * u.y) + u.x * v.y;
    }
  }

  lemma FirstPositive(x: int, dx: int, dy: int, a: int, b: int)
    requires dx > 0 && dy > 0 && a >= -x && a * dy < b * dx
    ensures 2 * (dy * dx) * x + (a * dy + b * dx) * dx >= 1
  {
    MulMono(-x, a, dy);
    var z := 2 * (dy * x) + a * dy + b * dx;
    assert -x * dy == -(dy * x);
    MulMono(1, z, dx);
    assert z * dx == 2 * (dy * x) * dx + (a * dy + b * dx) * dx;
    assert 2 * (dy * x) * dx == 2 * (dy * dx) * x;
  }

  lemma SecondPositive(y: int, dx: int, dy: int, a: int, b: int)
    requires dx > 0 && dy > 0 && b <= y && a * dy < b * dx
    ensures 2 * (dy * dx) * y - (a * dy + b * dx) * dy >= 1
  {
    MulMono(b, y, dx);
    var z := 2 * (dx * y) - (a * dy + b * dx);
    MulMono(1, z, dy);
    assert z * dy == 2 * (dx * y) * dy - (a * dy + b * dx) * dy;
    assert 2 * (dx * y) * dy == 2 * (dy * dx) * y;
  }

  lemma Refined(a: int, d: int, m: int, t: int, n: int, i: int)
    ensures n * m * a + (n * t + i) * d == n * (m * a + t * d) + i * d
  {
    assert n * (m * a + t * d) == n * m * a + n * t * d;
    assert (n * t + i) * d == n * t * d + i * d;
  }

  lemma RefinedEdge(u: Pt, v: Pt, m: nat, t: nat, n: nat, i: int)
    requires 0 < t < m && n >= 2 && -1 <= i <= 1
    ensures var e := OnEdge(u, v, m, t);
      OnEdge(u, v, n * m, n * t + i) == Pt(n * e.x + i * (v.x - u.x), n * e.y + i * (v.y - u.y))
    ensures 0 < n * t + i < n * m
  {
    Refined(u.x, v.x - u.x, m, t, n, i);
    Refined(u.y, v.y - u.y, m, t, n, i);
    RefinedRange(m, t, n, i);
  }

  lemma RefinedRange(m: nat, t: nat, n: nat, i: int)
    requires 0 < t < m && n >= 2 && -1 <= i <= 1
    ensures 0 < n * t + i < n * m
  {
    MulMono(1, t, n);
    MulMono(t + 1, m, n);
  }

  /** An even quotient is avoided by taking a neighbour on a finer division of the edge. */
  lemma EvenQuotient(e: int, f: int, k: int, d: int, c: int) returns (n: nat, rest: int)
    requires e >= 1 && f == 2 * k * e && k >= 1 && d > 0 && c > 0
    ensures n >= 2 && n * f + c == 2 * k * (n * e - d) + rest && 0 < rest < 2 * (n * e - d)
    ensures 1 <= n * e - d <= n * f + c
  {
    MulMono(1, k, d);
    n, rest := k * d + d + c + 1, c + 2 * (k * d);
    MulMono(1, e, n);
    assert n * (2 * k * e) == 2 * k * (n * e);
    TwiceProduct(k, n * e, -d);
    assert k * -d == -(k * d);
    MulMono(1, k, n * e);
  }

  lemma SteepEdge(u: Pt, v: Pt, m: nat, t: nat)
    requires Downhill(u, v) && 0 < t < m && Side(v, u) > 0
    requires 1 <= OnEdge(u, v, m, t).x <= OnEdge(u, v, m, t).y
    ensures HasHole(u, v)
  {
    var e := OnEdge(u, v, m, t);
    var k, rest := e.y / (2 * e.x), e.y % (2 * e.x);
    DivMod(e.y, e.x);
    hide OnEdge, HasHole, Side;
    if rest > 0 {
      SteepHole(u, v, m, t, k, rest);
    } else {
      var n, r := EvenQuotient(e.x, e.y, k, v.x - u.x, u.y - v.y);
      RefinedEdge(u, v, m, t, n, -1);
      SteepHole(u, v, n * m, n * t - 1, k, r);
    }
  }

  lemma FlatEdge(u: Pt, v: Pt, m: nat, t: nat)
    requires Downhill(u, v) && 0 < t < m && Side(v, u) > 0
    requires 1 <= OnEdge(u, v, m, t).y <= OnEdge(u, v, m, t).x
    ensures HasHole(u, v)
  {
    var e := OnEdge(u, v, m, t);
    var k, rest := e.x / (2 * e.y), e.x % (2 * e.y);
    DivMod(e.x, e.y);
    hide OnEdge, HasHole, Side;
    if rest > 0 {
      FlatHole(u, v, m, t, k, rest);
    } else {
      var n, r := EvenQuotient(e.y, e.x, k, u.y - v.y, v.x - u.x);
      RefinedEdge(u, v, m, t, n, 1);
      FlatHole(u, v, n * m, n * t + 1, k, r);
    }
  }

  lemma DivMod(f: int, e: int)
    requires 1 <= e <= f
    ensures var k, rest := f / (2 * e), f % (2 * e);
      f == 2 * k * e + rest && 0 <= rest < 2 * e && k >= 0 && (rest == 0 ==> k >= 1)
  {
    var k, rest := f / (2 * e), f % (2 * e);
    assert f == 2 * e * k + rest;
    assert 2 * e * k == 2 * k * e;
  }

  lemma DownhillHole(u: Pt, v: Pt)
    requires Downhill(u, v) && Side(v, u) > 0 && v.x > 0 && u.y > 0
    ensures HasHole(u, v)
  {
    var m, t := PositivePart(u, v);
    hide OnEdge, HasHole, Side;
    if OnEdge(u, v, m, t).x <= OnEdge(u, v, m, t).y {
      SteepEdge(u, v, m, t);
    } else {
      FlatEdge(u, v, m, t);
    }
  }

  // ---- any edge that does not lean outward ----

  lemma TimesMirrors(n: int, p: Pt, nx: bool, ny: bool)
    ensures Times(n, Mirror(p, nx, ny)) == Mirror(Times(n, p), nx, ny)
    ensures Times(n, Swap(p)) == Swap(Times(n, p))
  {
    assert n * -p.x == -(n * p.x) && n * -p.y == -(n * p.y);
  }

  lemma MirrorTwice(p: Pt, nx: bool, ny: bool)
    ensures Mirror(Mirror(p, nx, ny), nx, ny) == p && Swap(Swap(p)) == p && Mirror(ORIGIN, nx, ny) == ORIGIN
  {
  }

  lemma HoleMirrors(u: Pt, v: Pt, nx: bool, ny: bool)
    requires HasHole(Mirror(u, nx, ny), Mirror(v, nx, ny))
    ensures HasHole(u, v)
  {
    hide Mirror, Times, Inside, Missed;
    var n: nat, w: Pt :| HoleAt(Mirror(u, nx, ny), Mirror(v, nx, ny), n, w);
    var a, b, p := Times(n, u), Times(n, v), Mirror(w, nx, ny);
    TimesMirrors(n, u, nx, ny);
    TimesMirrors(n, v, nx, ny);
    MirrorTwice(a, nx, ny);
    MirrorTwice(b, nx, ny);
    MirrorTwice(w, nx, ny);
    InsideMirrors(Mirror(a, nx, ny), Mirror(b, nx, ny), w, nx, ny);
    MissedMirrors(a, b, p, nx, ny);
    assert HoleAt(u, v, n, p);
  }

  lemma HoleSwaps(u: Pt, v: Pt)
    requires HasHole(Swap(u), Swap(v))
    ensures HasHole(u, v)
  {
    hide Swap, Times, RightOfEdges, Missed;
    var n: nat, w: Pt :| HoleAt(Swap(u), Swap(v), n, w);
    var a, b, p := Times(n, u), Times(n, v), Swap(w);
    TimesMirrors(n, u, false, false);
    TimesMirrors(n, v, false, false);
    MirrorTwice(a, false, false);
    MirrorTwice(b, false, false);
    MirrorTwice(w, false, false);
    if RightOfEdges(Swap(a), Swap(b), ORIGIN, w) {
      InsideSwaps(Swap(a), Swap(b), w);
    } else {
      InsideSwaps(Swap(b), Swap(a), w);
    }
    MissedSwaps(a, b, p);
    assert HoleAt(u, v, n, p);
  }

  lemma LeansMirrors(u: Pt, v: Pt, nx: bool, ny: bool)
    ensures LeansOutward(Mirror(u, nx, ny), Mirror(v, nx, ny), ORIGIN) == LeansOutward(u, v, ORIGIN)
  {
  }

  lemma LeansSwaps(u: Pt, v: Pt)
    ensures LeansOutward(Swap(u), Swap(v), ORIGIN) == LeansOutward(u, v, ORIGIN)
  {
  }

  /** The ends of an edge that runs down to the right above the corner and does not lean outward. */
  lemma DownhillEnds(u: Pt, v: Pt)
    requires Downhill(u, v) && Side(v, u) > 0 && !LeansOutward(u, v, ORIGIN)
    ensures v.x > 0 && u.y > 0
  {
    if u.x < 0 && v.y < 0 && (v.x <= 0 || u.y <= 0) {
      BelowCorner(u.x, u.y, v.x, v.y);
    }
  }

  lemma BelowCorner(ux: int, uy: int, vx: int, vy: int)
    requires ux < 0 && vy < 0 && ux < vx && vy < uy && (vx <= 0 || uy <= 0)
    ensures vx * uy - vy * ux <= 0
  {
    var a, b, c, d := -ux, -vy, -vx, -uy;
    assert vx * uy == c * d && vy * ux == a * b;
    if c > 0 && d > 0 {
      MulMono(c, a, d);
      MulMono(d, b, a);
      assert a * d == d * a;
    } else {
      MulMono(1, a, b);
      if d < 0 {
        MulMono(d, 0, c);
      } else if c < 0 {
        MulMono(c, 0, d);
      }
    }
  }

  lemma FallingHole(u: Pt, v: Pt)
    requires Falling(Minus(v, u)) && u.x != v.x && u.y != v.y && Side(v, u) != 0 && !LeansOutward(u, v, ORIGIN)
    ensures HasHole(u, v)
  {
    var right, above := u.x < v.x, Side(v, u) > 0;
    SideMirrors(u, v, true, true);
    SideSwapped(u, v);
    LeansMirrors(u, v, true, true);
    LeansSwaps(u, v);
    hide HasHole, LeansOutward, Side;
    if right && above {
      DownhillEnds(u, v);
      DownhillHole(u, v);
    } else if above {
      DownhillEnds(Mirror(u, true, true), Mirror(v, true, true));
      DownhillHole(Mirror(u, true, true), Mirror(v, true, true));
      HoleMirrors(u, v, true, true);
    } else if !right {
      DownhillEnds(Swap(u), Swap(v));
      DownhillHole(Swap(u), Swap(v));
      HoleSwaps(u, v);
    } else {
      var s, t := Mirror(u, true, true), Mirror(v, true, true);
      SideSwapped(s, t);
      LeansSwaps(s, t);
      DownhillEnds(Swap(s), Swap(t));
      DownhillHole(Swap(s), Swap(t));
      HoleSwaps(s, t);
      HoleMirrors(u, v, true, true);
    }
  }

  lemma SideSwapped(u: Pt, v: Pt)
    ensures Side(Swap(v), Swap(u)) == -Side(v, u)
  {
  }

  lemma CrossingHole(u: Pt, v: Pt)
    requires Side(v, u) != 0 && !LeansOutward(u, v, ORIGIN)
    ensures HasHole(u, v)
  {
    if Falling(Minus(v, u)) {
      FallingHole(u, v);
    } else {
      SideMirrors(u, v, true, false);
      LeansMirrors(u, v, true, false);
      FallingHole(Mirror(u, true, false), Mirror(v, true, false));
      HoleMirrors(u, v, true, false);
    }
  }

  // ---- the theorem ----

  /** One FillTriangle call paints every lattice point of the triangle. */
  ghost predicate Filled(a: Pt, b: Pt, c: Pt) {
    forall p :: Inside(a, b, c, p) ==> p in TrianglePixels(a, b, c)
  }

  function Plus(p: Pt, o: Pt): Pt { Pt(p.x + o.x, p.y + o.y) }

  lemma InsideMovesBack(a: Pt, b: Pt, c: Pt, p: Pt)
    requires Inside(Minus(a, c), Minus(b, c), ORIGIN, Minus(p, c))
    ensures Inside(a, b, c, p)
  {
    hide Cross;
    assert Minus(c, c) == ORIGIN;
    CrossMoves(a, b, p, c);
    CrossMoves(b, a, p, c);
    CrossMoves(b, c, p, c);
    CrossMoves(c, b, p, c);
    CrossMoves(a, c, p, c);
    CrossMoves(c, a, p, c);
  }

  lemma TimesMinus(n: int, a: Pt, c: Pt)
    ensures Minus(Times(n, a), Times(n, c)) == Times(n, Minus(a, c))
  {
    assert n * (a.x - c.x) == n * a.x - n * c.x && n * (a.y - c.y) == n * a.y - n * c.y;
  }

  lemma HoleIsUnpainted(a: Pt, b: Pt, c: Pt, n: nat, w: Pt)
    requires HoleAt(Minus(a, c), Minus(b, c), n, w)
    ensures !Filled(Times(n, a), Times(n, b), Times(n, c))
  {
    var p := Plus(w, Times(n, c));
    TimesMinus(n, a, c);
    TimesMinus(n, b, c);
    assert Minus(p, Times(n, c)) == w;
    hide Times, Inside, Missed, TrianglePixels, Minus;
    InsideMovesBack(Times(n, a), Times(n, b), Times(n, c), p);
    MissedIsUnpainted(Times(n, a), Times(n, b), Times(n, c), p);
  }

  lemma SignTimes(n: nat, v: int)
    requires n > 0
    ensures (n * v >= 0 <==> v >= 0) && (n * v <= 0 <==> v <= 0)
  {
    if v > 0 {
      MulMono(1, v, n);
    } else if v < 0 {
      MulMono(v, -1, n);
    }
  }

  lemma LeansTimes(u: Pt, v: Pt, n: nat)
    requires n > 0 && LeansOutward(u, v, ORIGIN)
    ensures LeansOutward(Times(n, u), Times(n, v), ORIGIN)
  {
    TimesMinus(n, v, u);
    SignTimes(n, u.x);
    SignTimes(n, u.y);
    SignTimes(n, v.x);
    SignTimes(n, v.y);
    SignTimes(n, v.x - u.x);
    SignTimes(n, v.y - u.y);
  }

  lemma LeansMoves(a: Pt, b: Pt, c: Pt)
    ensures LeansOutward(Minus(a, c), Minus(b, c), ORIGIN) == LeansOutward(a, b, c)
  {
  }

  lemma LeaningIsFilled(a: Pt, b: Pt, c: Pt, n: nat)
    requires n > 0 && LeansOutward(a, b, c)
    ensures Filled(Times(n, a), Times(n, b), Times(n, c))
  {
    var p, q, r := Times(n, a), Times(n, b), Times(n, c);
    LeansMoves(a, b, c);
    LeansTimes(Minus(a, c), Minus(b, c), n);
    TimesMinus(n, a, c);
    TimesMinus(n, b, c);
    LeansMoves(p, q, r);
    hide Times, Inside, LeansOutward, TrianglePixels;
    forall x | Inside(p, q, r, x)
      ensures x in TrianglePixels(p, q, r)
    {
      OneSweepSuffices(p, q, r, x);
    }
  }

  /** One FillTriangle call fills the triangle at every size exactly when its first edge leans
      outward.  (A triangle without an area has nothing to fill.) */
  lemma FilledAtEverySize(a: Pt, b: Pt, c: Pt)
    requires Cross(a, b, c) != 0
    ensures (forall n: nat :: n >= 1 ==> Filled(Times(n, a), Times(n, b), Times(n, c))) <==> LeansOutward(a, b, c)
  {
    hide Filled, Times;
    var u, v := Minus(a, c), Minus(b, c);
    if LeansOutward(a, b, c) {
      forall n: nat | n >= 1
        ensures Filled(Times(n, a), Times(n, b), Times(n, c))
      {
        LeaningIsFilled(a, b, c, n);
      }
    } else {
      LeansMoves(a, b, c);
      CrossFromPoint(a, b, c);
      SideTurned(u, v);
      hide Cross, LeansOutward, Side, Inside, Missed;
      CrossingHole(u, v);
      var n: nat, w: Pt :| HoleAt(u, v, n, w);
      HoleIsUnpainted(a, b, c, n, w);
    }
  }
}
