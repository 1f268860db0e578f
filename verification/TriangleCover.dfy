/** The three sweeps of a triangle leave no hole: every lattice point of it is reached from at
    least one of its corners. */
module TriangleCover {
  import opened Geometry
  import opened LineGeometry
  import opened LineSymmetry
  import opened PolygonGeometry
  import opened SweepGeometry

  /** p is on the right of each edge of a, b, c walked in this order, or on the edge. */
  ghost predicate RightOfEdges(a: Pt, b: Pt, c: Pt, p: Pt) {
    var r, s, t := Cross(a, b, p), Cross(b, c, p), Cross(c, a, p);
    r <= 0 && s <= 0 && t <= 0 && r + s + t < 0
  }

  /** p lies in the closed triangle a, b, c, whose area is not zero. */
  ghost predicate Inside(a: Pt, b: Pt, c: Pt, p: Pt) {
    RightOfEdges(a, b, c, p) || RightOfEdges(b, a, c, p)
  }

  // ---- every point of a triangle lies in its box ----

  lemma Balance(a: Pt, b: Pt, c: Pt, p: Pt)
    ensures Cross(b, c, p) * (a.x - p.x) + Cross(c, a, p) * (b.x - p.x) + Cross(a, b, p) * (c.x - p.x) == 0
    ensures Cross(b, c, p) * (a.y - p.y) + Cross(c, a, p) * (b.y - p.y) + Cross(a, b, p) * (c.y - p.y) == 0
  {
    CrossFromPoint(a, b, p);
    CrossFromPoint(b, c, p);
    CrossFromPoint(c, a, p);
  }

  lemma CrossFromPoint(a: Pt, b: Pt, p: Pt)
    ensures Cross(a, b, p) == Side(Minus(a, p), Minus(b, p))
  {
  }

  lemma SumsKeepSign(r: int, s: int, t: int, x: int, y: int, z: int)
    requires r <= 0 && s <= 0 && t <= 0 && r + s + t < 0
    requires r * x + s * y + t * z == 0
    ensures !(x > 0 && y > 0 && z > 0) && !(x < 0 && y < 0 && z < 0)
  {
    if x > 0 && y > 0 && z > 0 {
      MulMono(1, x, -r);
      MulMono(1, y, -s);
      MulMono(1, z, -t);
    } else if x < 0 && y < 0 && z < 0 {
      MulMono(1, -x, -r);
      MulMono(1, -y, -s);
      MulMono(1, -z, -t);
    }
  }

  lemma InsideBox(a: Pt, b: Pt, c: Pt, p: Pt)
    requires Inside(a, b, c, p)
    ensures Min(a.x, Min(b.x, c.x)) <= p.x <= Max(a.x, Max(b.x, c.x))
    ensures Min(a.y, Min(b.y, c.y)) <= p.y <= Max(a.y, Max(b.y, c.y))
  {
    hide Cross;
    if RightOfEdges(a, b, c, p) {
      Balance(a, b, c, p);
      SumsKeepSign(Cross(b, c, p), Cross(c, a, p), Cross(a, b, p), a.x - p.x, b.x - p.x, c.x - p.x);
      SumsKeepSign(Cross(b, c, p), Cross(c, a, p), Cross(a, b, p), a.y - p.y, b.y - p.y, c.y - p.y);
    } else {
      Balance(b, a, c, p);
      SumsKeepSign(Cross(a, c, p), Cross(c, b, p), Cross(b, a, p), b.x - p.x, a.x - p.x, c.x - p.x);
      SumsKeepSign(Cross(a, c, p), Cross(c, b, p), Cross(b, a, p), b.y - p.y, a.y - p.y, c.y - p.y);
    }
  }

  // ---- turning any corner into one of the two cases ----

  predicate Rising(d: Pt) { (d.x >= 0 && d.y >= 0) || (d.x <= 0 && d.y <= 0) }
  predicate Falling(d: Pt) { (d.x >= 0 && d.y <= 0) || (d.x <= 0 && d.y >= 0) }

  /** The edge d and the ray w lean the same way. */
  predicate Agree(d: Pt, w: Pt) { (Rising(d) && Rising(w)) || (Falling(d) && Falling(w)) }

  /** Along one axis both ends of the edge are as far as w is along both axes together. */
  predicate Far(u: Pt, v: Pt, w: Pt) {
    var n := Abs(w.x) + Abs(w.y);
    && w.x != 0 && w.y != 0
    && ((Sign(0, w.x) * u.x >= n && Sign(0, w.x) * v.x >= n) || (Sign(0, w.y) * u.y >= n && Sign(0, w.y) * v.y >= n))
  }

  lemma CrossMirrors(a: Pt, b: Pt, p: Pt, nx: bool, ny: bool)
    ensures Cross(Mirror(a, nx, ny), Mirror(b, nx, ny), Mirror(p, nx, ny))
      == if nx == ny then Cross(a, b, p) else Cross(b, a, p)
  {
  }

  lemma CrossSwaps(a: Pt, b: Pt, p: Pt)
    ensures Cross(Swap(a), Swap(b), Swap(p)) == Cross(b, a, p)
  {
  }

  lemma CrossMoves(a: Pt, b: Pt, p: Pt, o: Pt)
    ensures Cross(Minus(a, o), Minus(b, o), Minus(p, o)) == Cross(a, b, p)
  {
  }

  lemma InsideMirrors(u: Pt, v: Pt, w: Pt, nx: bool, ny: bool)
    requires Inside(u, v, ORIGIN, w)
    ensures Inside(Mirror(u, nx, ny), Mirror(v, nx, ny), ORIGIN, Mirror(w, nx, ny))
  {
    hide Cross;
    CrossMirrors(u, v, w, nx, ny);
    CrossMirrors(v, u, w, nx, ny);
    CrossMirrors(v, ORIGIN, w, nx, ny);
    CrossMirrors(ORIGIN, v, w, nx, ny);
    CrossMirrors(u, ORIGIN, w, nx, ny);
    CrossMirrors(ORIGIN, u, w, nx, ny);
  }

  lemma InsideSwaps(u: Pt, v: Pt, w: Pt)
    requires RightOfEdges(u, v, ORIGIN, w)
    ensures RightOfEdges(Swap(v), Swap(u), ORIGIN, Swap(w))
  {
    hide Cross;
    CrossSwaps(v, u, w);
    CrossSwaps(u, ORIGIN, w);
    CrossSwaps(ORIGIN, v, w);
  }

  lemma SidesFromInside(u: Pt, v: Pt, w: Pt)
    requires RightOfEdges(u, v, ORIGIN, w)
    ensures Side(w, u) >= 0 >= Side(w, v)
  {
    CrossFromPoint(v, ORIGIN, w);
    CrossFromPoint(ORIGIN, u, w);
    assert Cross(v, ORIGIN, w) == Side(w, v);
    assert Cross(ORIGIN, u, w) == -Side(w, u);
  }

  lemma InsideFaces(lo: Pt, hi: Pt, w: Pt)
    requires RightOfEdges(lo, hi, ORIGIN, w) && w != ORIGIN
    requires 0 <= w.x && 0 <= w.y && lo.x <= hi.x && lo.y <= hi.y
    ensures Facing(lo, hi, w)
  {
    SidesFromInside(lo, hi, w);
    InsideBox(lo, hi, ORIGIN, w);
    hide RightOfEdges, Cross;
    if hi.x < 0 {
      MulMono(1, -hi.x, w.y);
    }
    if hi.y < 0 {
      MulMono(1, -lo.y, w.x);
    }
    if lo == hi {
      EqualCorners(lo, w);
    }
  }

  lemma EqualCorners(u: Pt, w: Pt)
    ensures !RightOfEdges(u, u, ORIGIN, w)
  {
  }

  lemma CornerIsSwept(u: Pt, v: Pt)
    ensures Swept(u, v, ORIGIN)
  {
    LineEnds(u, v);
    LineEnds(u, ORIGIN);
    assert ORIGIN == LinePoint(u, ORIGIN, Longer(u, ORIGIN));
    assert OnLine(LinePoint(u, v, 0), ORIGIN, ORIGIN);
  }

  lemma RisingSweeps(u: Pt, v: Pt, w: Pt)
    requires Inside(u, v, ORIGIN, w) && w.x >= 0 && w.y >= 0 && Rising(Minus(v, u))
    ensures Swept(u, v, w)
  {
    hide Swept, RightOfEdges, Facing;
    if w == ORIGIN {
      CornerIsSwept(u, v);
    } else {
      var fwd := u.x <= v.x && u.y <= v.y;
      var lo, hi := if fwd then u else v, if fwd then v else u;
      if RightOfEdges(lo, hi, ORIGIN, w) {
        InsideFaces(lo, hi, w);
        FacingSweeps(u, v, fwd, w);
      } else {
        InsideSwaps(hi, lo, w);
        InsideFaces(Swap(lo), Swap(hi), Swap(w));
        FacingSweeps(Swap(u), Swap(v), fwd, Swap(w));
        SweptSwaps(u, v, w);
      }
    }
  }

  lemma AgreeSweeps(u: Pt, v: Pt, w: Pt)
    requires Inside(u, v, ORIGIN, w) && Agree(Minus(v, u), w)
    ensures Swept(u, v, w)
  {
    hide Swept, Inside;
    var rising := Rising(Minus(v, u)) && Rising(w);
    var nx := if rising then !(w.x >= 0 && w.y >= 0) else !(w.x >= 0 && w.y <= 0);
    var ny := if rising then nx else !nx;
    InsideMirrors(u, v, w, nx, ny);
    RisingSweeps(Mirror(u, nx, ny), Mirror(v, nx, ny), Mirror(w, nx, ny));
    SweptMirrors(u, v, w, nx, ny);
  }

  lemma FarAlongX(u: Pt, v: Pt, w: Pt)
    requires Inside(u, v, ORIGIN, w) && w.x > 0 && w.y > 0 && u.x >= w.x + w.y && v.x >= w.x + w.y
    ensures Swept(u, v, w)
  {
    hide Swept, RightOfEdges, Side;
    if RightOfEdges(u, v, ORIGIN, w) {
      SidesFromInside(u, v, w);
      FarSweeps(u, v, true, w);
    } else {
      SidesFromInside(v, u, w);
      FarSweeps(u, v, false, w);
    }
  }

  lemma FarApexSweeps(u: Pt, v: Pt, w: Pt)
    requires Inside(u, v, ORIGIN, w) && Far(u, v, w)
    ensures Swept(u, v, w)
  {
    hide Swept, RightOfEdges;
    var nx, ny := w.x < 0, w.y < 0;
    InsideMirrors(u, v, w, nx, ny);
    var s, t, r := Mirror(u, nx, ny), Mirror(v, nx, ny), Mirror(w, nx, ny);
    if s.x >= r.x + r.y && t.x >= r.x + r.y {
      FarAlongX(s, t, r);
    } else {
      if RightOfEdges(s, t, ORIGIN, r) {
        InsideSwaps(s, t, r);
      } else {
        InsideSwaps(t, s, r);
      }
      FarAlongX(Swap(s), Swap(t), Swap(r));
      SweptSwaps(s, t, r);
    }
    SweptMirrors(u, v, w, nx, ny);
  }

  predicate InBoxOf(a: Pt, b: Pt, c: Pt, p: Pt) {
    && Min(a.x, Min(b.x, c.x)) <= p.x <= Max(a.x, Max(b.x, c.x))
    && Min(a.y, Min(b.y, c.y)) <= p.y <= Max(a.y, Max(b.y, c.y))
  }

  /** The sweep of the edge a-b towards c reaches p. */
  predicate Serves(a: Pt, b: Pt, c: Pt, p: Pt) {
    Agree(Minus(b, a), Minus(p, c)) || Far(Minus(a, c), Minus(b, c), Minus(p, c))
  }

  /** When only the edge a-b leans its own way, p is in the rectangle between a and b, and is
      near enough to one of them. */
  lemma OddEdge(a: Pt, b: Pt, c: Pt, p: Pt)
    requires InBoxOf(a, b, c, p)
    requires if Rising(Minus(b, a)) then !Rising(Minus(c, a)) && !Rising(Minus(c, b))
      else Rising(Minus(c, a)) && Rising(Minus(c, b))
    ensures Serves(a, b, c, p) || Serves(a, c, b, p) || Serves(c, b, a, p)
  {
  }

  lemma EvenEdges(a: Pt, b: Pt, c: Pt, p: Pt)
    requires InBoxOf(a, b, c, p)
    requires Rising(Minus(b, a)) == Rising(Minus(c, a)) == Rising(Minus(c, b))
    ensures Serves(a, b, c, p) || Serves(a, c, b, p) || Serves(c, b, a, p)
  {
    hide Far;
  }

  lemma EitherWay(a: Pt, b: Pt, c: Pt, p: Pt)
    ensures Serves(a, b, c, p) == Serves(b, a, c, p)
    ensures Rising(Minus(b, a)) == Rising(Minus(a, b))
  {
  }

  lemma SomeCornerServes(a: Pt, b: Pt, c: Pt, p: Pt)
    requires InBoxOf(a, b, c, p)
    ensures Serves(a, b, c, p) || Serves(a, c, b, p) || Serves(c, b, a, p)
  {
    hide Serves, Rising, Minus;
    EitherWay(a, b, c, p);
    EitherWay(b, c, a, p);
    EitherWay(c, a, b, p);
    if Rising(Minus(b, a)) == Rising(Minus(c, a)) == Rising(Minus(c, b)) {
      EvenEdges(a, b, c, p);
    } else if Rising(Minus(b, a)) == Rising(Minus(c, a)) {
      OddEdge(b, c, a, p);
    } else if Rising(Minus(b, a)) == Rising(Minus(c, b)) {
      OddEdge(a, c, b, p);
    } else {
      OddEdge(a, b, c, p);
    }
  }

  // ---- the theorem ----

  lemma SweptIsPainted(a: Pt, b: Pt, c: Pt, p: Pt)
    requires Swept(Minus(a, c), Minus(b, c), Minus(p, c))
    ensures p in TrianglePixels(a, b, c)
  {
    hide LinePoint, Longer, OnLine, TrianglePrefix, Minus;
    var u, v, w := Minus(a, c), Minus(b, c), Minus(p, c);
    var k: nat :| k <= Longer(u, v) && OnLine(LinePoint(u, v, k), ORIGIN, w);
    LineMoves(a, b, c, k);
    OnLineMoves(LinePoint(a, b, k), c, p);
    TriangleMembers(a, b, c, Longer(a, b) + 1, p);
  }

  lemma InsideMoves(a: Pt, b: Pt, c: Pt, p: Pt)
    requires Inside(a, b, c, p)
    ensures Inside(Minus(a, c), Minus(b, c), ORIGIN, Minus(p, c))
  {
    hide Cross;
    CrossMoves(a, b, p, c);
    CrossMoves(b, a, p, c);
    CrossMoves(b, c, p, c);
    CrossMoves(c, b, p, c);
    CrossMoves(a, c, p, c);
    CrossMoves(c, a, p, c);
  }

  lemma CornerPaints(a: Pt, b: Pt, c: Pt, p: Pt)
    requires Inside(a, b, c, p)
    requires Serves(a, b, c, p)
    ensures p in TrianglePixels(a, b, c)
  {
    hide Inside, Far, Swept, TrianglePixels, Rising, Falling;
    var u, v, w := Minus(a, c), Minus(b, c), Minus(p, c);
    InsideMoves(a, b, c, p);
    if Far(u, v, w) {
      FarApexSweeps(u, v, w);
    } else {
      assert Minus(v, u) == Minus(b, a);
      AgreeSweeps(u, v, w);
    }
    SweptIsPainted(a, b, c, p);
  }

  /** The three sweeps of a triangle paint every lattice point of it. */
  lemma FanCovers(a: Pt, b: Pt, c: Pt, p: Pt)
    requires Inside(a, b, c, p)
    ensures p in FanPixels(a, b, c)
  {
    hide Serves, TrianglePixels, Cross;
    InsideBox(a, b, c, p);
    SomeCornerServes(a, b, c, p);
    if Serves(a, b, c, p) {
      CornerPaints(a, b, c, p);
    } else if Serves(a, c, b, p) {
      assert Inside(a, c, b, p);
      CornerPaints(a, c, b, p);
    } else {
      assert Inside(c, b, a, p);
      CornerPaints(c, b, a, p);
    }
  }

  // ---- one sweep alone ----

  /** The edge a-b is level or upright, or a and b lie in one quadrant seen from c and the edge
      leans the way the diagonal of that quadrant does. */
  predicate LeansOutward(a: Pt, b: Pt, c: Pt) {
    var u, v := Minus(a, c), Minus(b, c);
    || a.x == b.x || a.y == b.y
    || (Rising(Minus(b, a))
        && ((Min(u.x, v.x) >= 0 && Min(u.y, v.y) >= 0) || (Max(u.x, v.x) <= 0 && Max(u.y, v.y) <= 0)))
    || (Falling(Minus(b, a))
        && ((Min(u.x, v.x) >= 0 && Max(u.y, v.y) <= 0) || (Max(u.x, v.x) <= 0 && Min(u.y, v.y) >= 0)))
  }

  /** When one FillTriangle call is enough: it paints every lattice point of such a triangle. */
  lemma OneSweepSuffices(a: Pt, b: Pt, c: Pt, p: Pt)
    requires Inside(a, b, c, p) && LeansOutward(a, b, c)
    ensures p in TrianglePixels(a, b, c)
  {
    InsideBox(a, b, c, p);
    hide Inside, Far, TrianglePixels;
    CornerPaints(a, b, c, p);
  }

  lemma EndsOnLine(p: Pt, q: Pt)
    ensures OnLine(p, q, p) && OnLine(p, q, q)
  {
    LineEnds(p, q);
    assert p == LinePoint(p, q, 0) && q == LinePoint(p, q, Longer(p, q));
  }

  /** An edge of two pixels sweeps two lines. */
  lemma ShortEdge(a: Pt, b: Pt, c: Pt, p: Pt)
    requires Longer(a, b) == 1
    ensures p in TrianglePixels(a, b, c) <==> OnLine(a, c, p) || OnLine(b, c, p)
  {
    LineEnds(a, b);
    TriangleMembers(a, b, c, 2, p);
    hide TrianglePrefix, LinePoint, OnLine;
    assert OnLine(a, c, p) ==> OnLine(LinePoint(a, b, 0), c, p);
    assert OnLine(b, c, p) ==> OnLine(LinePoint(a, b, 1), c, p);
  }

  /** Otherwise one call can leave holes, in triangles of any size. */
  lemma OneSweepIsNotEnough(n: nat)
    requires n >= 1
    ensures Inside(Pt(n, n + 1), Pt(n + 1, n), ORIGIN, Pt(n, n))
    ensures Pt(n, n) !in TrianglePixels(Pt(n, n + 1), Pt(n + 1, n), ORIGIN)
  {
    var a, b, p := Pt(n, n + 1), Pt(n + 1, n), Pt(n, n);
    assert Cross(a, b, p) == -1 && Cross(b, ORIGIN, p) == 0 - n && Cross(ORIGIN, a, p) == 0 - n;
    hide TrianglePixels, LinePoint, OnLine, Cross;
    ShortEdge(a, b, ORIGIN, p);
    LineMisses(n, a);
    LineMisses(n, b);
  }

  lemma LineMisses(n: nat, f: Pt)
    requires n >= 1 && (f == Pt(n, n + 1) || f == Pt(n + 1, n))
    ensures !OnLine(f, ORIGIN, Pt(n, n))
  {
    QuotientMono(n + 1, (n + 1) / 2 + 1 * n, n + 1);
    assert Minor(n + 1, n, 1) >= 1;
    hide Minor;
  }

  lemma CornersArePainted(a: Pt, b: Pt, c: Pt)
    ensures a in TrianglePixels(a, b, c) && b in TrianglePixels(a, b, c) && c in TrianglePixels(a, b, c)
  {
    hide TrianglePixels, OnLine;
    EndsOnLine(a, b);
    EdgeInTriangle(a, b, c, a);
    EdgeInTriangle(a, b, c, b);
    EndsOnLine(a, c);
    LineEnds(a, b);
    SweptFromStart(a, b, c, c);
  }

  lemma SweptFromStart(a: Pt, b: Pt, c: Pt, p: Pt)
    requires OnLine(a, c, p)
    ensures p in TrianglePixels(a, b, c)
  {
    LineEnds(a, b);
    TriangleMembers(a, b, c, Longer(a, b) + 1, p);
    hide TrianglePrefix, LinePoint, OnLine, Longer;
    assert OnLine(LinePoint(a, b, 0), c, p);
  }

  lemma UnitCross(p: Pt)
    ensures Cross(Pt(1, 0), Pt(0, 1), p) == 1 - p.x - p.y
    ensures Cross(Pt(0, 1), ORIGIN, p) == p.x && Cross(ORIGIN, Pt(1, 0), p) == p.y
  {
  }

  lemma OnlyCorners(a: Pt, b: Pt, p: Pt)
    requires a == Pt(1, 0) && b == Pt(0, 1) && Inside(a, b, ORIGIN, p)
    ensures p == a || p == b || p == ORIGIN
  {
    hide Cross;
    UnitCross(p);
    CrossTurned(p, a, b);
    CrossTurned(p, b, ORIGIN);
    CrossTurned(p, ORIGIN, a);
  }

  /** But an edge that leans the other way does not always leave a hole: whether it does
      depends on which lattice points the triangle happens to hold. */
  lemma LeansOutwardIsNotNeeded(a: Pt, b: Pt, p: Pt)
    requires a == Pt(1, 0) && b == Pt(0, 1) && Inside(a, b, ORIGIN, p)
    ensures !LeansOutward(a, b, ORIGIN) && p in TrianglePixels(a, b, ORIGIN)
  {
    hide TrianglePixels, Inside;
    OnlyCorners(a, b, p);
    CornersArePainted(a, b, ORIGIN);
  }
}
