/** How far outside the polygon FillPolygon can paint, and when it does not paint outside. */
module PolygonExtent {
  import opened Geometry
  import opened LineGeometry
  import opened PolygonGeometry
  import opened SweepGeometry
  import opened TriangleCover
  import opened PolygonInterior

  // ---- painted pixels are near a fan ----

  /** p is less than one away from the point that divides a, b and c with the weights i, j and k;
      distance is measured along the axes. */
  ghost predicate Spread(a: Pt, b: Pt, c: Pt, p: Pt, i: nat, j: nat, k: nat) {
    var n := i + j + k;
    && n > 0
    && Abs(n * p.x - (i * a.x + j * b.x + k * c.x)) + Abs(n * p.y - (i * a.y + j * b.y + k * c.y)) < n
  }

  /** p is less than one away from a point of the closed triangle a, b, c. */
  ghost predicate WithinOne(a: Pt, b: Pt, c: Pt, p: Pt) {
    exists i: nat, j: nat, k: nat :: Spread(a, b, c, p, i, j, k)
  }

  /** r is near the point that divides p and q as k to n - k; e is n times the error. */
  ghost predicate Divides(p: Pt, q: Pt, r: Pt, n: nat, k: nat, e: Pt) {
    && k <= n && n > 0 && 2 * (Abs(e.x) + Abs(e.y)) <= n && (k == 0 ==> e == Pt(0, 0))
    && n * r.x == (n - k) * p.x + k * q.x + e.x
    && n * r.y == (n - k) * p.y + k * q.y + e.y
  }

  lemma MajorDivides(a: int, b: int, n: nat, k: nat, s: int)
    requires b - a == s * n
    ensures n * (a + s * k) == (n - k) * a + k * b
  {
    assert b == a + s * n;
    assert n * (a + s * k) == n * a + n * s * k;
    assert (n - k) * a + k * (a + s * n) == n * a + k * (s * n);
  }

  lemma MinorDivides(a: int, b: int, n: nat, add: nat, k: nat, s: int, m: int)
    requires b - a == s * add
    ensures n * (a + s * m) == (n - k) * a + k * b + s * (m * n - k * add)
  {
    assert b == a + s * add;
    assert n * (a + s * m) == n * a + s * (m * n);
    assert k * (a + s * add) == k * a + s * (k * add);
    assert s * (m * n - k * add) == s * (m * n) - s * (k * add);
    assert (n - k) * a == n * a - k * a;
  }

  lemma MinorError(n: nat, add: nat, k: nat, s: int)
    requires n > 0 && add <= n && (s == 1 || s == -1)
    ensures var e := s * (Minor(n, add, k) * n - k * add);
      2 * Abs(e) <= n && (k == 0 ==> e == 0)
  {
    MinorWithinHalf(n, add, k);
    MinorAtEnds(n, add);
  }

  lemma OneAxisDivides(p: Pt, q: Pt, n: nat, add: nat, k: nat, s: int, t: int) returns (e: int)
    requires n > 0 && add <= n && k <= n && (t == 1 || t == -1)
    requires q.x - p.x == s * n && q.y - p.y == t * add
    ensures Divides(p, q, Pt(p.x + s * k, p.y + t * Minor(n, add, k)), n, k, Pt(0, e))
  {
    MinorError(n, add, k, t);
    MajorDivides(p.x, q.x, n, k, s);
    MinorDivides(p.y, q.y, n, add, k, t, Minor(n, add, k));
    hide Minor;
    e := t * (Minor(n, add, k) * n - k * add);
  }

  /** Every pixel of a line is within half a pixel of a point of its segment. */
  lemma LineDivides(p: Pt, q: Pt, r: Pt) returns (n: nat, k: nat, e: Pt)
    requires OnLine(p, q, r)
    ensures Divides(p, q, r, n, k, e)
  {
    hide Minor;
    k :| k < Longer(p, q) + 1 && r == LinePoint(p, q, k);
    n := Longer(p, q);
    var add, sx, sy := Shorter(p, q), Sign(p.x, q.x), Sign(p.y, q.y);
    var m := Minor(n, add, k);
    TowardsOffset(p.x, q.x, if XMajor(p, q) then k else m);
    TowardsOffset(p.y, q.y, if XMajor(p, q) then m else k);
    if n == 0 {
      LineEnds(p, q);
      n, k, e := 1, 0, Pt(0, 0);
    } else if XMajor(p, q) {
      var d := OneAxisDivides(p, q, n, add, k, sx, sy);
      e := Pt(0, d);
    } else {
      var d := OneAxisDivides(Pt(p.y, p.x), Pt(q.y, q.x), n, add, k, sy, sx);
      e := Pt(d, 0);
    }
  }

  lemma TwoDivisions(d: int, e: int, j: int, k: int, a: int, b: int, c: int, f: int, p: int, r: int, s: int)
    requires e * f == (e - j) * a + j * b + r && d * p == (d - k) * f + k * c + s
    ensures d * e * p == (d - k) * (e - j) * a + (d - k) * j * b + k * e * c + ((d - k) * r + e * s)
  {
    var u, v := d - k, e - j;
    Distribute(e, u * f, k * c, s);
    Distribute(u, v * a, j * b, r);
    Reassociate(d, e, p);
    Reassociate(u, e, f);
    Reassociate(u, v, a);
    Reassociate(u, j, b);
    Reassociate(k, e, c);
  }

  lemma Budget(d: nat, e: nat, f: nat, r: nat, s: nat)
    requires f <= d && 2 * r <= e && 2 * s <= d && d > 0 && e > 0 && (f == d ==> s == 0)
    ensures f * r + e * s < d * e
  {
    MulMono(2 * r, e, f);
    MulMono(2 * s, d, e);
    assert 2 * (f * r) == (2 * r) * f && 2 * (e * s) == (2 * s) * e;
    if f < d {
      MulMono(f, d - 1, e);
      assert (d - 1) * e == d * e - e;
    } else {
      MulMono(1, d, e);
    }
  }

  lemma PairSums(a: int, b: int, x: int, y: int)
    ensures a * x + a * y == a * (x + y) && b * x + b * y == b * (x + y)
  {
  }

  lemma ErrorsAdd(d: nat, e: nat, k: nat, r: Pt, s: Pt)
    requires k <= d && 2 * (Abs(r.x) + Abs(r.y)) <= e && 2 * (Abs(s.x) + Abs(s.y)) <= d
    requires d > 0 && e > 0 && (k == 0 ==> s == Pt(0, 0))
    ensures Abs((d - k) * r.x + e * s.x) + Abs((d - k) * r.y + e * s.y) < d * e
  {
    AbsOfSum(d - k, e, r.x, s.x);
    AbsOfSum(d - k, e, r.y, s.y);
    PairSums(d - k, e, Abs(r.x), Abs(r.y));
    PairSums(d - k, e, Abs(s.x), Abs(s.y));
    Budget(d, e, d - k, Abs(r.x) + Abs(r.y), Abs(s.x) + Abs(s.y));
    hide Abs;
  }

  lemma AbsOfSum(a: nat, b: nat, x: int, y: int)
    ensures Abs(a * x + b * y) <= a * Abs(x) + b * Abs(y)
  {
    assert -(a * Abs(x)) <= a * x <= a * Abs(x) by {
      MulMono(x, Abs(x), a);
      MulMono(-Abs(x), x, a);
    }
    assert -(b * Abs(y)) <= b * y <= b * Abs(y) by {
      MulMono(y, Abs(y), b);
      MulMono(-Abs(y), y, b);
    }
  }

  /** Every pixel of a sweep is within one pixel of the triangle. */
  lemma SweepStaysNear(a: Pt, b: Pt, c: Pt, p: Pt)
    requires p in TrianglePixels(a, b, c)
    ensures WithinOne(a, b, c, p)
  {
    hide OnLine, LinePoint, Longer;
    TriangleMembers(a, b, c, Longer(a, b) + 1, p);
    var l: nat :| l < Longer(a, b) + 1 && OnLine(LinePoint(a, b, l), c, p);
    var f := LinePoint(a, b, l);
    EdgePixel(a, b, l);
    var e, j, r := LineDivides(a, b, f);
    var d, k, s := LineDivides(f, c, p);
    NearFromDivisions(a, b, c, f, p, e, j, r, d, k, s);
  }

  lemma EdgePixel(a: Pt, b: Pt, l: nat)
    requires l <= Longer(a, b)
    ensures OnLine(a, b, LinePoint(a, b, l))
  {
  }

  lemma NearFromDivisions(a: Pt, b: Pt, c: Pt, f: Pt, p: Pt, e: nat, j: nat, r: Pt, d: nat, k: nat, s: Pt)
    requires Divides(a, b, f, e, j, r) && Divides(f, c, p, d, k, s)
    ensures WithinOne(a, b, c, p)
  {
    TwoDivisions(d, e, j, k, a.x, b.x, c.x, f.x, p.x, r.x, s.x);
    TwoDivisions(d, e, j, k, a.y, b.y, c.y, f.y, p.y, r.y, s.y);
    ErrorsAdd(d, e, k, r, s);
    MulMono(0, d - k, e - j);
    MulMono(0, d - k, j);
    MulMono(0, k, e);
    MulMono(1, d, e);
    var x, y, z := (d - k) * (e - j), (d - k) * j, k * e;
    assert x + y + z == d * e;
    assert Spread(a, b, c, p, x, y, z);
  }

  lemma CrossDivides(u: Pt, v: Pt, a: Pt, b: Pt, c: Pt, p: Pt, i: nat, j: nat, k: nat)
    ensures var n := i + j + k;
      var ex, ey := n * p.x - (i * a.x + j * b.x + k * c.x), n * p.y - (i * a.y + j * b.y + k * c.y);
      n * Cross(u, v, p)
        == i * Cross(u, v, a) + j * Cross(u, v, b) + k * Cross(u, v, c) + (v.x - u.x) * ey - (v.y - u.y) * ex
  {
    var n, dx, dy := i + j + k, v.x - u.x, v.y - u.y;
    CrossLinear(u, v, p, n);
    CrossLinear(u, v, a, i);
    CrossLinear(u, v, b, j);
    CrossLinear(u, v, c, k);
    assert dx * u.y * n == dx * u.y * i + dx * u.y * j + dx * u.y * k;
    assert dy * u.x * n == dy * u.x * i + dy * u.x * j + dy * u.x * k;
    assert dx * (n * p.y - (i * a.y + j * b.y + k * c.y))
      == dx * (n * p.y) - dx * (i * a.y) - dx * (j * b.y) - dx * (k * c.y);
    assert dy * (n * p.x - (i * a.x + j * b.x + k * c.x))
      == dy * (n * p.x) - dy * (i * a.x) - dy * (j * b.x) - dy * (k * c.x);
  }

  lemma CrossLinear(u: Pt, v: Pt, p: Pt, n: int)
    ensures n * Cross(u, v, p)
      == (v.x - u.x) * (n * p.y) - (v.x - u.x) * u.y * n - (v.y - u.y) * (n * p.x) + (v.y - u.y) * u.x * n
  {
  }

  lemma Pairing(dx: int, dy: int, ex: int, ey: int, m: nat)
    requires Abs(dx) <= m && Abs(dy) <= m
    ensures dx * ey - dy * ex <= m * (Abs(ex) + Abs(ey))
  {
    OneProduct(dx, ey, m);
    OneProduct(-dy, ex, m);
    assert m * (Abs(ex) + Abs(ey)) == m * Abs(ex) + m * Abs(ey);
  }

  lemma OneProduct(d: int, e: int, m: nat)
    requires Abs(d) <= m
    ensures d * e <= m * Abs(e)
  {
    if e >= 0 {
      MulMono(d, m, e);
    } else {
      MulMono(-d, m, -e);
    }
  }

  lemma AverageBelow(n: nat, i: nat, j: nat, k: nat, x: int, y: int, z: int, w: int, g: int, error: nat, m: nat)
    requires n > 0 && x <= 0 && y <= 0 && z <= 0 && error <= n
    requires n * w == i * x + j * y + k * z + g && g <= m * error
    ensures w <= m
  {
    MulMono(x, 0, i);
    MulMono(y, 0, j);
    MulMono(z, 0, k);
    MulMono(error, n, m);
    if w > m {
      MulMono(m + 1, w, n);
    }
  }

  /** A point within one pixel of a triangle is at most one pixel beyond any line that has the
      triangle on its right, measured along the shorter axis of the line. */
  lemma NearIsNotFarBeyond(a: Pt, b: Pt, c: Pt, p: Pt, u: Pt, v: Pt)
    requires WithinOne(a, b, c, p)
    requires Cross(u, v, a) <= 0 && Cross(u, v, b) <= 0 && Cross(u, v, c) <= 0
    ensures Cross(u, v, p) <= Longer(u, v)
  {
    hide Cross;
    var i: nat, j: nat, k: nat :| Spread(a, b, c, p, i, j, k);
    var n, m := i + j + k, Longer(u, v);
    var ex, ey := n * p.x - (i * a.x + j * b.x + k * c.x), n * p.y - (i * a.y + j * b.y + k * c.y);
    CrossDivides(u, v, a, b, c, p, i, j, k);
    Pairing(v.x - u.x, v.y - u.y, ex, ey, m);
    AverageBelow(n, i, j, k, Cross(u, v, a), Cross(u, v, b), Cross(u, v, c), Cross(u, v, p),
                 (v.x - u.x) * ey - (v.y - u.y) * ex, Abs(ex) + Abs(ey), m);
  }

  lemma CrossSum(a: Pt, b: Pt, c: Pt, p: Pt)
    ensures Cross(a, b, p) + Cross(b, c, p) + Cross(c, a, p) == Cross(a, b, c)
  {
  }

  /** The margins of one sweep: for corners ordered so that c is on the right of a-b, no pixel is
      more than one pixel beyond any of the three edges. */
  lemma SweepMargins(a: Pt, b: Pt, c: Pt, p: Pt)
    requires p in TrianglePixels(a, b, c) && Cross(a, b, c) <= 0
    ensures Cross(a, b, p) <= Longer(a, b) && Cross(b, c, p) <= Longer(b, c) && Cross(c, a, p) <= Longer(c, a)
  {
    SweepStaysNear(a, b, c, p);
    CrossSum(a, b, c, a);
    CrossSum(b, c, a, b);
    EndsOnEdge(a, b);
    EndsOnEdge(b, c);
    EndsOnEdge(c, a);
    hide Cross, WithinOne, Longer, TrianglePixels;
    NearIsNotFarBeyond(a, b, c, p, a, b);
    NearIsNotFarBeyond(a, b, c, p, b, c);
    NearIsNotFarBeyond(a, b, c, p, c, a);
  }

  lemma EndsOnEdge(a: Pt, b: Pt)
    ensures Cross(a, b, a) == 0 && Cross(a, b, b) == 0
  {
  }

  lemma AnyOrder(a: Pt, b: Pt, c: Pt, p: Pt)
    requires WithinOne(a, b, c, p)
    ensures WithinOne(a, c, b, p) && WithinOne(c, b, a, p)
  {
    var i: nat, j: nat, k: nat :| Spread(a, b, c, p, i, j, k);
    assert Spread(a, c, b, p, i, k, j) && Spread(c, b, a, p, k, j, i);
  }

  lemma FanStaysNear(a: Pt, b: Pt, c: Pt, p: Pt)
    requires p in FanPixels(a, b, c)
    ensures WithinOne(a, b, c, p)
  {
    hide TrianglePixels, WithinOne;
    if p in TrianglePixels(a, b, c) {
      SweepStaysNear(a, b, c, p);
    } else if p in TrianglePixels(a, c, b) {
      SweepStaysNear(a, c, b, p);
      AnyOrder(a, c, b, p);
    } else {
      SweepStaysNear(c, b, a, p);
      AnyOrder(c, b, a, p);
    }
  }

  /** p is within one pixel of the triangle some edge of the polygon makes with c. */
  ghost predicate NearFan(ps: seq<Pt>, c: Pt, p: Pt)
    requires |ps| >= 2
  {
    WithinOne(ps[0], ps[|ps| - 1], c, p) || exists i :: 0 < i < |ps| && WithinOne(ps[i - 1], ps[i], c, p)
  }

  lemma {:induction false} FansStayNear(ps: seq<Pt>, c: Pt, n: nat, p: Pt)
    requires n < |ps| && p in FansPixels(ps, c, n)
    ensures exists i :: 0 < i < |ps| && WithinOne(ps[i - 1], ps[i], c, p)
  {
    hide FanPixels, WithinOne;
    if p in FanPixels(ps[n - 1], ps[n], c) {
      FanStaysNear(ps[n - 1], ps[n], c, p);
    } else {
      FansStayNear(ps, c, n - 1, p);
    }
  }

  /** FillPolygon paints nothing further than one pixel from the fans of its edges. */
  lemma FillStaysNear(ps: seq<Pt>, p: Pt)
    requires |ps| >= 2 && p in FilledPixels(ps)
    ensures NearFan(ps, Centre(Bounds(ps)), p)
  {
    hide FanPixels, FansPixels, WithinOne, Centre, Bounds;
    var c := Centre(Bounds(ps));
    if p in FansPixels(ps, c, |ps| - 1) {
      FansStayNear(ps, c, |ps| - 1, p);
    } else {
      FanStaysNear(ps[0], ps[|ps| - 1], c, p);
    }
  }

  // ---- when the fans lie inside the polygon ----

  /** Walking around the polygon, the centre is always on the same side, or straight ahead. */
  predicate Faces(ps: seq<Pt>, c: Pt, up: bool)
    requires |ps| >= 2
  {
    && (forall i :: 0 < i < |ps| ==> Signed(up, Cross(ps[i - 1], ps[i], c)) >= 0)
    && Signed(up, Cross(ps[|ps| - 1], ps[0], c)) >= 0
  }

  predicate StrictlyInside(a: Pt, b: Pt, c: Pt, p: Pt) {
    var r, s, t := Cross(a, b, p), Cross(b, c, p), Cross(c, a, p);
    (r > 0 && s > 0 && t > 0) || (r < 0 && s < 0 && t < 0)
  }

  ghost predicate InsideFan(ps: seq<Pt>, c: Pt, p: Pt)
    requires |ps| >= 2
  {
    || StrictlyInside(ps[|ps| - 1], ps[0], c, p)
    || exists i :: 0 < i < |ps| && StrictlyInside(ps[i - 1], ps[i], c, p)
  }

  lemma TurnsFace(a: Pt, b: Pt, c: Pt, p: Pt, up: bool)
    requires Signed(up, Cross(a, b, c)) >= 0
    ensures Signed(up, Turns(a, b, c, p)) >= 0
    ensures StrictlyInside(a, b, c, p) ==> Signed(up, Turns(a, b, c, p)) > 0
  {
    CrossSum(a, b, c, p);
    CrossBackwards(a, b, p);
    CrossBackwards(b, c, p);
    CrossBackwards(c, a, p);
    TurnsOnlyInside(a, b, c, p);
    hide Cross, Turns;
    if StrictlyInside(a, b, c, p) {
      if Cross(a, b, p) < 0 {
        TurnsOnceInside(a, b, c, p);
      } else {
        TurnsOnceInside(c, b, a, p);
      }
    }
  }

  lemma {:induction false} FanTurnsFace(ps: seq<Pt>, c: Pt, n: nat, p: Pt, up: bool)
    requires n < |ps| && |ps| >= 2 && Faces(ps, c, up)
    ensures Signed(up, FanTurns(ps, c, n, p)) >= 0
    ensures (exists i :: 0 < i <= n && StrictlyInside(ps[i - 1], ps[i], c, p)) ==> Signed(up, FanTurns(ps, c, n, p)) > 0
  {
    hide Turns, StrictlyInside, Cross;
    if n > 0 {
      FanTurnsFace(ps, c, n - 1, p, up);
      TurnsFace(ps[n - 1], ps[n], c, p, up);
    }
  }

  /** When every edge has the centre on the same side, which a caller can check before the
      call, no fan reaches outside: the polygon winds around every point inside a fan. */
  lemma FansLieInside(ps: seq<Pt>, c: Pt, p: Pt, up: bool)
    requires |ps| >= 2 && Faces(ps, c, up) && InsideFan(ps, c, p)
    ensures Signed(up, Winding(ps, p)) > 0
  {
    hide Turns, StrictlyInside, Cross, EdgePass, Winding;
    var n := |ps| - 1;
    FanTurnsFace(ps, c, n, p, up);
    TurnsFace(ps[n], ps[0], c, p, up);
    WindingFromFans(ps, c, p);
  }

  // ---- polygons that show the conditions are real ----

  /** A letter U: its bounding box has its centre in the gap. */
  const LETTER_U: seq<Pt> := [Pt(0, 0), Pt(9, 0), Pt(9, 9), Pt(6, 9), Pt(6, 3), Pt(3, 3), Pt(3, 9), Pt(0, 9)]

  lemma BoundsOfU()
    ensures Bounds(LETTER_U) == Box(0, 9, 0, 9)
  {
    var u := LETTER_U;
    assert u[..7][..6] == u[..6] && u[..6][..5] == u[..5] && u[..5][..4] == u[..4];
    assert u[..4][..3] == u[..3] && u[..3][..2] == u[..2] && u[..2][..1] == u[..1];
    assert Bounds(u[..1]) == Box(0, 0, 0, 0);
    assert Bounds(u[..2]) == Box(0, 9, 0, 0);
    assert Bounds(u[..3]) == Box(0, 9, 0, 9);
    assert Bounds(u[..4]) == Box(0, 9, 0, 9);
    assert Bounds(u[..5]) == Box(0, 9, 0, 9);
    assert Bounds(u[..6]) == Box(0, 9, 0, 9);
    assert Bounds(u[..7]) == Box(0, 9, 0, 9);
  }

  lemma EightEdges(u: seq<Pt>, p: Pt)
    requires |u| == 8
    ensures Winding(u, p) == EdgePass(u[0], u[1], p) + EdgePass(u[1], u[2], p) + EdgePass(u[2], u[3], p)
      + EdgePass(u[3], u[4], p) + EdgePass(u[4], u[5], p) + EdgePass(u[5], u[6], p) + EdgePass(u[6], u[7], p)
      + EdgePass(u[7], u[0], p)
  {
    hide EdgePass;
    OneEdge(u, 1, p);
    OneEdge(u, 2, p);
    OneEdge(u, 3, p);
    OneEdge(u, 4, p);
    OneEdge(u, 5, p);
    OneEdge(u, 6, p);
    OneEdge(u, 7, p);
    assert EdgePasses(u, 0, p) == 0;
    hide EdgePasses;
  }

  lemma OneEdge(u: seq<Pt>, n: nat, p: Pt)
    requires 0 < n < |u|
    ensures EdgePasses(u, n, p) == EdgePasses(u, n - 1, p) + EdgePass(u[n - 1], u[n], p)
  {
  }

  lemma LevelPass(a: Pt, b: Pt, p: Pt)
    requires a.y == b.y
    ensures EdgePass(a, b, p) == 0
  {
  }

  lemma UprightPass(a: Pt, b: Pt, p: Pt)
    requires a.x == b.x
    ensures a.y <= p.y < b.y ==> EdgePass(a, b, p) == if p.x < a.x then 1 else 0
    ensures b.y <= p.y < a.y ==> EdgePass(a, b, p) == if p.x < a.x then -1 else 0
  {
    assert Cross(a, b, p) == (b.y - a.y) * (a.x - p.x);
    if a.y < b.y && p.x < a.x {
      MulMono(1, a.x - p.x, b.y - a.y);
    } else if a.y < b.y {
      MulMono(0, p.x - a.x, b.y - a.y);
    } else if p.x < a.x {
      MulMono(1, a.x - p.x, a.y - b.y);
    } else {
      MulMono(0, p.x - a.x, a.y - b.y);
    }
  }

  lemma WindingOfU(u: seq<Pt>, p: Pt)
    requires u == LETTER_U && p == Pt(4, 4)
    ensures Winding(u, p) == 0
  {
    hide EdgePass, Winding;
    EightEdges(u, p);
    LevelPass(u[0], u[1], p);
    UprightPass(u[1], u[2], p);
    LevelPass(u[2], u[3], p);
    UprightPass(u[3], u[4], p);
    LevelPass(u[4], u[5], p);
    UprightPass(u[5], u[6], p);
    LevelPass(u[6], u[7], p);
    UprightPass(u[7], u[0], p);
  }

  /** p lies on no edge of the U, and the edges do not all have it on one side. */
  lemma EdgesOfU(u: seq<Pt>, p: Pt)
    requires u == LETTER_U && p == Pt(4, 4)
    ensures !OnBoundary(u, p) && !Faces(u, p, true) && !Faces(u, p, false)
  {
    assert Cross(u[0], u[1], p) == 36 && Cross(u[3], u[4], p) == -12;
    forall i | 0 < i < |u|
      ensures !OnSegment(u[i - 1], u[i], p)
    {
      if i == 1 {} else if i == 2 {} else if i == 3 {} else if i == 4 {} else if i == 5 {} else if i == 6 {} else {}
    }
  }

  /** FillPolygon can paint outside the polygon: it paints the gap of the U. */
  lemma FillPaintsOutside(u: seq<Pt>, p: Pt)
    requires u == LETTER_U && p == Pt(4, 4)
    ensures Winding(u, p) == 0 && !OnBoundary(u, p) && p in FilledPixels(u)
    ensures p == Centre(Bounds(u)) && !Faces(u, p, true) && !Faces(u, p, false)
  {
    hide Winding, OnBoundary, Faces, FilledPixels;
    WindingOfU(u, p);
    EdgesOfU(u, p);
    BoundsOfU();
    FillPaintsCentre(u);
  }

  /** A triangle whose box has its centre outside it. */
  const THIN_TRIANGLE: seq<Pt> := [Pt(0, 0), Pt(0, 2), Pt(2, 3)]

  lemma CrossesOfThin(t: seq<Pt>, c: Pt, p: Pt)
    requires t == THIN_TRIANGLE && c == Pt(1, 1)
    ensures Cross(t[0], t[1], p) == 0 - 2 * p.x && Cross(t[1], c, p) == p.x + p.y - 2 && Cross(c, t[0], p) == p.x - p.y
    ensures Cross(t[1], t[2], p) == 2 * p.y - 4 - p.x && Cross(t[2], c, p) == 2 * p.x - p.y - 1
    ensures Cross(t[2], t[0], p) == 3 * p.x - 2 * p.y && Cross(t[0], c, p) == p.y - p.x
    ensures Cross(c, t[1], p) == 2 - p.x - p.y && Cross(c, t[2], p) == p.y + 1 - 2 * p.x
  {
  }

  lemma BoundsOfThin()
    ensures Bounds(THIN_TRIANGLE) == Box(0, 2, 0, 3)
  {
    var t := THIN_TRIANGLE;
    assert t[..2][..1] == t[..1];
    assert Bounds(t[..1]) == Box(0, 0, 0, 0);
    assert Bounds(t[..2]) == Box(0, 0, 0, 2);
  }

  lemma ThreeEdges(t: seq<Pt>, p: Pt)
    requires |t| == 3
    ensures Winding(t, p) == EdgePass(t[0], t[1], p) + EdgePass(t[1], t[2], p) + EdgePass(t[2], t[0], p)
  {
    hide EdgePass;
    OneEdge(t, 1, p);
    OneEdge(t, 2, p);
    assert EdgePasses(t, 0, p) == 0;
    hide EdgePasses;
  }

  lemma WindingOfThin(t: seq<Pt>, p: Pt)
    requires t == THIN_TRIANGLE && p == Pt(1, 2)
    ensures Winding(t, p) == -1
  {
    hide Winding, Cross;
    ThreeEdges(t, p);
    CrossesOfThin(t, Pt(1, 1), p);
    var a, b, c := Cross(t[0], t[1], p), Cross(t[1], t[2], p), Cross(t[2], t[0], p);
    assert a == -2 && b == -1 && c == -1;
    assert EdgePass(t[0], t[1], p) == Pass(-2, 0, a);
    assert EdgePass(t[1], t[2], p) == Pass(0, 1, b);
    assert EdgePass(t[2], t[0], p) == Pass(1, -2, c);
  }

  lemma OnlyFanPoint(t: seq<Pt>, c: Pt, p: Pt)
    requires t == THIN_TRIANGLE && c == Pt(1, 1)
    ensures StrictlyInside(t[0], t[1], c, p) || StrictlyInside(t[1], t[2], c, p) || StrictlyInside(t[2], t[0], c, p)
      ==> p == Pt(1, 2)
    ensures !Faces(t, c, true) && !Faces(t, c, false)
  {
    hide Cross;
    CrossesOfThin(t, c, p);
    CrossesOfThin(t, c, c);
  }

  /** The condition of FansLieInside is not a necessary one: a fan may reach outside the polygon
      where it holds no lattice point. */
  lemma FacesIsNotNeeded(t: seq<Pt>, c: Pt, p: Pt)
    requires t == THIN_TRIANGLE && c == Centre(Bounds(t)) && InsideFan(t, c, p)
    ensures !Faces(t, c, true) && !Faces(t, c, false) && Winding(t, p) != 0
  {
    BoundsOfThin();
    hide Winding, Bounds, StrictlyInside, Faces;
    OnlyFanPoint(t, c, p);
    WindingOfThin(t, Pt(1, 2));
    assert |t| == 3;
  }
}
