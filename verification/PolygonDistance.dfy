/** When every edge of a polygon has the centre of its box on the same side, FillPolygon paints
    nothing that is a whole pixel or more away from the closed polygon.  The nearby point of the
    polygon has fractional coordinates; it is a lattice point of the polygon enlarged n times. */
module PolygonDistance {
  import opened Geometry
  import opened LineGeometry
  import opened PolygonGeometry
  import opened SweepGeometry
  import opened TriangleCover
  import opened PolygonInterior
  import opened PolygonExtent

  function Times(n: int, p: Pt): Pt { Pt(n * p.x, n * p.y) }

  function Enlarged(ps: seq<Pt>, n: nat): seq<Pt> {
    seq(|ps|, i requires 0 <= i < |ps| => Times(n, ps[i]))
  }

  /** q / n lies in the closed polygon. */
  ghost predicate InClosed(ps: seq<Pt>, n: nat, q: Pt)
    requires |ps| >= 2
  {
    Winding(Enlarged(ps, n), q) != 0 || OnBoundary(Enlarged(ps, n), q)
  }

  /** q / n is less than one away from p, measured along the axes. */
  ghost predicate Close(p: Pt, n: nat, q: Pt) {
    n > 0 && Abs(n * p.x - q.x) + Abs(n * p.y - q.y) < n
  }

  ghost predicate NearPolygon(ps: seq<Pt>, p: Pt)
    requires |ps| >= 2
  {
    exists n: nat, q: Pt :: Close(p, n, q) && InClosed(ps, n, q)
  }

  function Combined(a: Pt, b: Pt, c: Pt, i: int, j: int, k: int): Pt {
    Pt(i * a.x + j * b.x + k * c.x, i * a.y + j * b.y + k * c.y)
  }

  // ---- areas of enlarged triangles ----

  lemma ScaledProduct(n: int, u: int, v: int)
    ensures (n * u) * (n * v) == n * n * (u * v)
  {
  }

  lemma CrossTimes(a: Pt, b: Pt, c: Pt, n: nat)
    ensures Cross(Times(n, a), Times(n, b), Times(n, c)) == n * n * Cross(a, b, c)
  {
    var u, v, w, z := b.x - a.x, c.y - a.y, b.y - a.y, c.x - a.x;
    assert n * b.x - n * a.x == n * u && n * c.y - n * a.y == n * v;
    assert n * b.y - n * a.y == n * w && n * c.x - n * a.x == n * z;
    ScaledProduct(n, u, v);
    ScaledProduct(n, w, z);
    Difference(n * n, w * z, u * v);
  }

  lemma CrossCombined(a: Pt, b: Pt, c: Pt, i: int, j: int, k: int)
    ensures var n := i + j + k;
      Cross(Times(n, a), Times(n, b), Combined(a, b, c, i, j, k)) == n * k * Cross(a, b, c)
  {
    var n := i + j + k;
    var u, v := Pt(b.x - a.x, b.y - a.y), Pt(c.x - a.x, c.y - a.y);
    Difference(n, a.x, b.x);
    Difference(n, a.y, b.y);
    AxisCombined(a.x, b.x, c.x, i, j, k);
    AxisCombined(a.y, b.y, c.y, i, j, k);
    Determinant(n, j, k, u, v);
  }

  lemma Difference(n: int, a: int, b: int)
    ensures n * b - n * a == n * (b - a)
  {
  }

  lemma AxisCombined(a: int, b: int, c: int, i: int, j: int, k: int)
    ensures (i * a + j * b + k * c) - (i + j + k) * a == j * (b - a) + k * (c - a)
  {
    Distribute(a, i, j, k);
    Difference(j, a, b);
    Difference(k, a, c);
  }

  lemma Bilinear(n: int, j: int, k: int, x: int, y: int, z: int)
    ensures (n * x) * (j * y + k * z) == n * j * (x * y) + n * k * (x * z)
  {
    assert (n * x) * (j * y + k * z) == (n * x) * (j * y) + (n * x) * (k * z);
    assert (n * x) * (j * y) == n * j * (x * y);
    assert (n * x) * (k * z) == n * k * (x * z);
  }

  lemma Determinant(n: int, j: int, k: int, u: Pt, v: Pt)
    ensures (n * u.x) * (j * u.y + k * v.y) - (n * u.y) * (j * u.x + k * v.x) == n * k * (u.x * v.y - u.y * v.x)
  {
    Bilinear(n, j, k, u.x, u.y, v.y);
    Bilinear(n, j, k, u.y, u.x, v.x);
    var m, a, b := n * k, u.x * v.y, u.y * v.x;
    assert m * (a - b) == m * a - m * b;
  }

  lemma CrossCycles(a: Pt, b: Pt, c: Pt)
    ensures Cross(b, c, a) == Cross(a, b, c) && Cross(c, a, b) == Cross(a, b, c)
  {
  }

  // ---- a fan of some area: a point strictly inside it is near ----

  lemma InnerWeights(a: Pt, b: Pt, c: Pt, p: Pt, i: nat, j: nat, k: nat)
    returns (i': nat, j': nat, k': nat)
    requires Spread(a, b, c, p, i, j, k)
    ensures i' > 0 && j' > 0 && k' > 0 && Spread(a, b, c, p, i', j', k')
  {
    var n := i + j + k;
    var ex, ey := n * p.x - (i * a.x + j * b.x + k * c.x), n * p.y - (i * a.y + j * b.y + k * c.y);
    var fx, fy := 3 * p.x - (a.x + b.x + c.x), 3 * p.y - (a.y + b.y + c.y);
    var m := Abs(fx) + Abs(fy) + 1;
    MulMono(0, m, i);
    MulMono(0, m, j);
    MulMono(0, m, k);
    i', j', k' := m * i + 1, m * j + 1, m * k + 1;
    MixedError(p.x, a.x, b.x, c.x, i, j, k, m);
    MixedError(p.y, a.y, b.y, c.y, i, j, k, m);
    MixedSize(m, n, ex, ey, fx, fy);
    SumOfWeights(m, i, j, k);
    SpreadFrom(a, b, c, p, i', j', k', m * ex + fx, m * ey + fy);
  }

  lemma SumOfWeights(m: int, i: int, j: int, k: int)
    ensures (m * i + 1) + (m * j + 1) + (m * k + 1) == m * (i + j + k) + 3
  {
  }

  lemma SpreadFrom(a: Pt, b: Pt, c: Pt, p: Pt, i: nat, j: nat, k: nat, ex: int, ey: int)
    requires (i + j + k) * p.x - (i * a.x + j * b.x + k * c.x) == ex
    requires (i + j + k) * p.y - (i * a.y + j * b.y + k * c.y) == ey
    requires Abs(ex) + Abs(ey) < i + j + k
    ensures Spread(a, b, c, p, i, j, k)
  {
  }

  lemma MixedError(p: int, a: int, b: int, c: int, i: int, j: int, k: int, m: int)
    ensures ((m * i + 1) + (m * j + 1) + (m * k + 1)) * p - ((m * i + 1) * a + (m * j + 1) * b + (m * k + 1) * c)
      == m * ((i + j + k) * p - (i * a + j * b + k * c)) + (3 * p - (a + b + c))
  {
    MixedWeight(m, i, a, 1);
    MixedWeight(m, j, b, 1);
    MixedWeight(m, k, c, 1);
    var n := i + j + k;
    Distribute(m, i, j, k);
    MixedWeight(m, n, p, 3);
    Distribute(m, i * a, j * b, k * c);
    Distribute(m, n * p, -(i * a + j * b + k * c), 0);
    assert m * -(i * a + j * b + k * c) == -(m * (i * a + j * b + k * c));
  }

  lemma MixedWeight(m: int, i: int, a: int, r: int)
    ensures (m * i + r) * a == m * (i * a) + r * a
  {
  }

  lemma OneSize(m: nat, e: int, f: int)
    ensures Abs(m * e + f) <= m * Abs(e) + Abs(f)
  {
    AbsOfSum(m, 1, e, f);
  }

  lemma MixedSize(m: nat, n: nat, ex: int, ey: int, fx: int, fy: int)
    requires Abs(ex) + Abs(ey) < n && Abs(fx) + Abs(fy) < m
    ensures Abs(m * ex + fx) + Abs(m * ey + fy) < m * n + 3
  {
    OneSize(m, ex, fx);
    OneSize(m, ey, fy);
    var a, b := Abs(ex), Abs(ey);
    hide Abs;
    MulMono(a + b, n - 1, m);
    assert (a + b) * m == m * a + m * b && (n - 1) * m == m * n - m;
  }

  lemma SignOfProducts(n: nat, k: nat, v: int)
    requires n > 0 && k > 0
    ensures (n * k * v > 0 <==> v > 0) && (n * k * v < 0 <==> v < 0)
  {
    var m := n * k;
    MulMono(1, n, k);
    if v > 0 {
      MulMono(1, v, m);
    } else if v < 0 {
      MulMono(1, -v, m);
    }
  }

  lemma InnerPoint(a: Pt, b: Pt, c: Pt, i: nat, j: nat, k: nat)
    requires i > 0 && j > 0 && k > 0 && Cross(a, b, c) != 0
    ensures var n := i + j + k;
      StrictlyInside(Times(n, a), Times(n, b), Times(n, c), Combined(a, b, c, i, j, k))
  {
    var n, v := i + j + k, Cross(a, b, c);
    CrossCombined(a, b, c, i, j, k);
    CrossCombined(b, c, a, j, k, i);
    CrossCombined(c, a, b, k, i, j);
    CrossCycles(a, b, c);
    SignOfProducts(n, i, v);
    SignOfProducts(n, j, v);
    SignOfProducts(n, k, v);
    hide Cross;
  }

  // ---- edges by number: the closing edge is number 0 ----

  function From(ps: seq<Pt>, e: nat): Pt
    requires e < |ps|
  {
    if e == 0 then ps[|ps| - 1] else ps[e - 1]
  }

  lemma FacesEnlarged(ps: seq<Pt>, c: Pt, up: bool, n: nat)
    requires |ps| >= 2 && n > 0 && Faces(ps, c, up)
    ensures Faces(Enlarged(ps, n), Times(n, c), up)
  {
    hide Cross;
    forall e | 0 <= e < |ps|
      ensures Signed(up, Cross(Times(n, From(ps, e)), Times(n, ps[e]), Times(n, c))) >= 0
    {
      var a, b := From(ps, e), ps[e];
      assert Signed(up, Cross(a, b, c)) >= 0;
      CrossTimes(a, b, c, n);
      SignOfProducts(n, n, Cross(a, b, c));
    }
    var qs := Enlarged(ps, n);
    forall i | 0 < i < |qs|
      ensures Signed(up, Cross(qs[i - 1], qs[i], Times(n, c))) >= 0
    {
      assert From(ps, i) == ps[i - 1];
    }
    assert From(ps, 0) == ps[|ps| - 1];
  }

  lemma SolidFanIsNear(ps: seq<Pt>, c: Pt, up: bool, e: nat, p: Pt, i: nat, j: nat, k: nat)
    requires |ps| >= 2 && Faces(ps, c, up) && e < |ps|
    requires Spread(From(ps, e), ps[e], c, p, i, j, k) && Cross(From(ps, e), ps[e], c) != 0
    ensures NearPolygon(ps, p)
  {
    hide Faces, Winding, Cross, StrictlyInside;
    var a, b := From(ps, e), ps[e];
    var i', j', k' := InnerWeights(a, b, c, p, i, j, k);
    var n, q := i' + j' + k', Combined(a, b, c, i', j', k');
    InnerPoint(a, b, c, i', j', k');
    FacesEnlarged(ps, c, up, n);
    var qs := Enlarged(ps, n);
    assert e > 0 ==> StrictlyInside(qs[e - 1], qs[e], Times(n, c), q);
    assert InsideFan(qs, Times(n, c), q);
    FansLieInside(qs, Times(n, c), q, up);
    assert Close(p, n, q) && InClosed(ps, n, q);
  }

  // ---- a fan of no area: its points lie on its edge or on the spoke before it ----

  /** Between two numbers, in either order. */
  predicate Between(a: int, b: int, v: int) { Min(a, b) <= v <= Max(a, b) }

  lemma WeightsBetween(a: int, b: int, c: int, i: nat, j: nat, k: nat)
    ensures var n, v := i + j + k, i * a + j * b + k * c;
      Between(n * a, n * b, v) || Between(n * c, n * a, v)
  {
    var n, v := i + j + k, i * a + j * b + k * c;
    var lo, hi := Min(a, Min(b, c)), Max(a, Max(b, c));
    HullBound(a, b, c, i, j, k, lo, hi);
    MulMono(a, hi, n);
    MulMono(lo, a, n);
  }

  lemma HullBound(a: int, b: int, c: int, i: nat, j: nat, k: nat, lo: int, hi: int)
    requires lo <= a <= hi && lo <= b <= hi && lo <= c <= hi
    ensures (i + j + k) * lo <= i * a + j * b + k * c <= (i + j + k) * hi
  {
    MulMono(lo, a, i);
    MulMono(lo, b, j);
    MulMono(lo, c, k);
    MulMono(a, hi, i);
    MulMono(b, hi, j);
    MulMono(c, hi, k);
    assert (i + j + k) * lo == i * lo + j * lo + k * lo && (i + j + k) * hi == i * hi + j * hi + k * hi;
  }

  /** q / n lies in the box of a and b. */
  predicate InSpan(a: Pt, b: Pt, n: nat, q: Pt) {
    Between(n * a.x, n * b.x, q.x) && Between(n * a.y, n * b.y, q.y)
  }

  /** q / n divides a and c as w to v. */
  predicate OnSpoke(a: Pt, c: Pt, n: nat, q: Pt, d: nat, w: nat, v: nat) {
    d > 0 && w + v == n * d && d * q.x == w * a.x + v * c.x && d * q.y == w * a.y + v * c.y
  }

  /** On a line that is not upright the rows follow the columns. */
  lemma RowsFollow(ux: int, uy: int, wx: int, wy: int)
    requires ux != 0 && ux * wy == uy * wx && Between(0, ux, wx)
    ensures Between(0, uy, wy)
  {
    if ux > 0 {
      if wy > Max(0, uy) || wy < Min(0, uy) {
        RowsFollowRight(ux, uy, wx, wy);
      }
    } else {
      if wy > Max(0, uy) || wy < Min(0, uy) {
        RowsFollowRight(-ux, uy, -wx, wy);
      }
    }
  }

  lemma RowsFollowRight(ux: int, uy: int, wx: int, wy: int)
    requires ux > 0 && ux * wy == uy * wx && 0 <= wx <= ux
    ensures Between(0, uy, wy)
  {
    if uy >= 0 {
      MulMono(0, wx, uy);
      MulMono(wx, ux, uy);
      if wy < 0 { MulMono(wy, -1, ux); }
      if wy > uy { MulMono(uy + 1, wy, ux); }
    } else {
      MulMono(0, wx, -uy);
      MulMono(wx, ux, -uy);
      if wy > 0 { MulMono(1, wy, ux); }
      if wy < uy { MulMono(wy, uy - 1, ux); }
    }
  }

  /** On a line that is not upright, q / n in the columns of u and v is on the segment. */
  lemma ColumnsDecide(u: Pt, v: Pt, n: nat, q: Pt)
    requires n > 0 && u.x != v.x && Between(n * u.x, n * v.x, q.x) && Cross(Times(n, u), Times(n, v), q) == 0
    ensures InSpan(u, v, n, q)
  {
    var dx, dy, wx, wy := v.x - u.x, v.y - u.y, q.x - n * u.x, q.y - n * u.y;
    assert n * v.x - n * u.x == n * dx && n * v.y - n * u.y == n * dy;
    MulMono(1, n, Abs(dx));
    assert n * dx != 0 by { if dx > 0 { MulMono(1, dx, n); } else { MulMono(dx, -1, n); } }
    hide Abs;
    RowsFollow(n * dx, n * dy, wx, wy);
  }

  lemma WeightRange(a: int, c: int, n: nat, q: int, s: int)
    requires n > 0 && a != c && Between(n * c, n * a, q) && s == (if a > c then 1 else -1)
    ensures s * (a - c) > 0 && 0 <= s * (q - n * c) <= n * (s * (a - c))
  {
    assert n * (a - c) == n * a - n * c && n * (c - a) == n * c - n * a;
    if a > c {
      MulMono(c, a, n);
    } else {
      MulMono(a, c, n);
    }
  }

  /** The weights of a point on a spoke that is not upright. */
  lemma SpokeWeights(a: Pt, c: Pt, n: nat, q: Pt) returns (d: nat, w: nat, v: nat)
    requires n > 0 && a.x != c.x && Between(n * c.x, n * a.x, q.x) && Cross(Times(n, c), Times(n, a), q) == 0
    ensures OnSpoke(a, c, n, q, d, w, v)
  {
    var s := if a.x > c.x then 1 else -1;
    var dx, dy, wx, wy := a.x - c.x, a.y - c.y, q.x - n * c.x, q.y - n * c.y;
    WeightRange(a.x, c.x, n, q.x, s);
    d, w := s * dx, s * wx;
    v := n * d - w;
    assert n * a.x - n * c.x == n * dx && n * a.y - n * c.y == n * dy;
    Proportion(n, dx, dy, wx, wy);
    hide Cross, Between;
    SpokeAxis(a.x, c.x, n, q.x, s, d, w, dx, wx);
    SpokeRow(a.y, c.y, n, q.y, s, d, w, dx, wx);
  }

  lemma Proportion(n: nat, dx: int, dy: int, wx: int, wy: int)
    requires n > 0 && (n * dx) * wy - (n * dy) * wx == 0
    ensures dx * wy == dy * wx
  {
    var e := dx * wy - dy * wx;
    assert n * e == (n * dx) * wy - (n * dy) * wx by {
      assert n * (dx * wy) == (n * dx) * wy && n * (dy * wx) == (n * dy) * wx;
    }
    if e > 0 { MulMono(1, e, n); } else if e < 0 { MulMono(e, -1, n); }
  }

  lemma SpokeAxis(a: int, c: int, n: nat, q: int, s: int, d: int, w: int, dx: int, wx: int)
    requires (s == 1 || s == -1) && d == s * dx && w == s * wx && dx == a - c && wx == q - n * c
    ensures d * q == w * a + (n * d - w) * c
  {
    assert d * q == d * (n * c) + d * wx;
    assert w * a + (n * d - w) * c == w * (a - c) + n * d * c;
    assert d * (n * c) == n * d * c && d * wx == w * dx;
  }

  lemma SpokeRow(a: int, c: int, n: nat, q: int, s: int, d: int, w: int, dx: int, wx: int)
    requires (s == 1 || s == -1) && d == s * dx && w == s * wx && dx * (q - n * c) == (a - c) * wx
    ensures d * q == w * a + (n * d - w) * c
  {
    var dy, wy := a - c, q - n * c;
    assert d * q == d * (n * c) + d * wy;
    assert w * a + (n * d - w) * c == w * dy + n * d * c;
    assert d * (n * c) == n * d * c && d * wy == w * dy;
  }

  lemma CollapseColumns(a: Pt, b: Pt, c: Pt, i: nat, j: nat, k: nat)
    returns (onEdge: bool, d: nat, w: nat, v: nat)
    requires i + j + k > 0 && Cross(a, b, c) == 0 && !(a.x == b.x == c.x)
    ensures var n, q := i + j + k, Combined(a, b, c, i, j, k);
      if onEdge then InSpan(a, b, n, q) else OnSpoke(a, c, n, q, d, w, v)
  {
    var n, q := i + j + k, Combined(a, b, c, i, j, k);
    onEdge, d, w, v := false, 0, 0, 0;
    CrossCombined(a, b, c, i, j, k);
    CrossCombined(c, a, b, k, i, j);
    CrossCycles(a, b, c);
    assert Combined(c, a, b, k, i, j) == q && n * k * 0 == 0 && n * j * 0 == 0;
    WeightsBetween(a.x, b.x, c.x, i, j, k);
    if a.x != b.x && Between(n * a.x, n * b.x, q.x) {
      ColumnsDecide(a, b, n, q);
      onEdge := true;
    } else {
      d, w, v := SpokeWeights(a, c, n, q);
    }
  }

  function Transposed(p: Pt): Pt { Pt(p.y, p.x) }

  /** A point of a fan of no area lies on the edge of the fan, or on the spoke to its first end. */
  lemma Collapse(a: Pt, b: Pt, c: Pt, i: nat, j: nat, k: nat) returns (onEdge: bool, d: nat, w: nat, v: nat)
    requires i + j + k > 0 && Cross(a, b, c) == 0
    ensures var n, q := i + j + k, Combined(a, b, c, i, j, k);
      if onEdge then InSpan(a, b, n, q) else OnSpoke(a, c, n, q, d, w, v)
  {
    if !(a.x == b.x == c.x) {
      onEdge, d, w, v := CollapseColumns(a, b, c, i, j, k);
    } else if !(a.y == b.y == c.y) {
      CrossTransposed(a, b, c);
      onEdge, d, w, v := CollapseColumns(Transposed(a), Transposed(b), Transposed(c), i, j, k);
    } else {
      onEdge, d, w, v := true, 0, 0, 0;
      SumOfParts(a.x, i, j, k);
      SumOfParts(a.y, i, j, k);
    }
  }

  lemma CrossTransposed(a: Pt, b: Pt, c: Pt)
    ensures Cross(Transposed(a), Transposed(b), Transposed(c)) == -Cross(a, b, c)
  {
  }

  lemma SumOfParts(a: int, i: int, j: int, k: int)
    ensures i * a + j * a + k * a == (i + j + k) * a
  {
  }

  /** When the centre itself is on the edge, so is every point of the fan. */
  lemma CentreOnEdge(a: Pt, b: Pt, c: Pt, i: nat, j: nat, k: nat)
    requires OnSegment(a, b, c)
    ensures InSpan(a, b, i + j + k, Combined(a, b, c, i, j, k))
  {
    var n := i + j + k;
    HullBound(a.x, b.x, c.x, i, j, k, Min(a.x, b.x), Max(a.x, b.x));
    HullBound(a.y, b.y, c.y, i, j, k, Min(a.y, b.y), Max(a.y, b.y));
  }

  // ---- around the polygon ----

  lemma SpanIsOnBoundary(ps: seq<Pt>, e: nat, n: nat, q: Pt)
    requires |ps| >= 2 && e < |ps| && InSpan(From(ps, e), ps[e], n, q)
    requires Cross(Times(n, From(ps, e)), Times(n, ps[e]), q) == 0
    ensures InClosed(ps, n, q)
  {
    hide Winding;
    var qs := Enlarged(ps, n);
    if e == 0 {
      CrossTurned(q, qs[|qs| - 1], qs[0]);
      hide Cross;
      assert OnSegment(qs[0], qs[|qs| - 1], q);
    } else {
      hide Cross;
      assert OnSegment(qs[e - 1], qs[e], q);
    }
  }

  lemma SpanIsNear(ps: seq<Pt>, c: Pt, e: nat, p: Pt, i: nat, j: nat, k: nat)
    requires |ps| >= 2 && e < |ps| && Cross(From(ps, e), ps[e], c) == 0
    requires Spread(From(ps, e), ps[e], c, p, i, j, k)
    requires InSpan(From(ps, e), ps[e], i + j + k, Combined(From(ps, e), ps[e], c, i, j, k))
    ensures NearPolygon(ps, p)
  {
    var n, q := i + j + k, Combined(From(ps, e), ps[e], c, i, j, k);
    CrossCombined(From(ps, e), ps[e], c, i, j, k);
    assert n * k * 0 == 0;
    SpanIsOnBoundary(ps, e, n, q);
    assert Close(p, n, q);
    hide Close, InClosed;
  }

  lemma ScaledAxis(n: int, d: int, w: int, v: int, p: int, q: int, a: int, c: int)
    requires w + v == n * d && d * q == w * a + v * c
    ensures (w + v) * p - (w * a + v * c) == d * (n * p - q)
  {
    assert (n * d) * p == d * (n * p);
  }

  lemma ScaledAbs(d: nat, e: int)
    ensures Abs(d * e) <= d * Abs(e)
  {
    AbsOfSum(d, 0, e, 0);
    assert d * e + 0 * 0 == d * e;
  }

  lemma ScaledError(d: nat, n: nat, ex: int, ey: int)
    requires d > 0 && Abs(ex) + Abs(ey) < n
    ensures Abs(d * ex) + Abs(d * ey) < n * d
  {
    ScaledAbs(d, ex);
    ScaledAbs(d, ey);
    var a, b := Abs(ex), Abs(ey);
    hide Abs;
    MulMono(a + b, n - 1, d);
    assert (a + b) * d == d * a + d * b && (n - 1) * d == n * d - d;
  }

  /** A point on the first spoke of a fan is a point of the fan before it. */
  lemma SpokeOfPrevious(z: Pt, a: Pt, b: Pt, c: Pt, p: Pt, i: nat, j: nat, k: nat, d: nat, w: nat, v: nat)
    requires Spread(a, b, c, p, i, j, k) && OnSpoke(a, c, i + j + k, Combined(a, b, c, i, j, k), d, w, v)
    ensures Spread(z, a, c, p, 0, w, v)
  {
    var n, q := i + j + k, Combined(a, b, c, i, j, k);
    var ex, ey := n * p.x - q.x, n * p.y - q.y;
    ScaledAxis(n, d, w, v, p.x, q.x, a.x, c.x);
    ScaledAxis(n, d, w, v, p.y, q.y, a.y, c.y);
    ScaledError(d, n, ex, ey);
    hide Abs, Combined, Spread;
    SpreadFrom(z, a, c, p, 0, w, v, d * ex, d * ey);
  }

  /** An edge at which the walk back along the fans ends: its fan has some area, or the centre is
      on the edge. */
  predicate Settled(ps: seq<Pt>, c: Pt, e: nat)
    requires e < |ps|
  {
    Cross(From(ps, e), ps[e], c) != 0 || OnSegment(From(ps, e), ps[e], c)
  }

  lemma {:induction false} FanIsNear(ps: seq<Pt>, c: Pt, up: bool, g: nat, e: nat, p: Pt, i: nat, j: nat, k: nat)
    requires |ps| >= 2 && Faces(ps, c, up) && g < |ps| && e < |ps| && Settled(ps, c, g)
    requires Spread(From(ps, e), ps[e], c, p, i, j, k)
    ensures NearPolygon(ps, p)
    decreases if e >= g then e - g else e + |ps| - g
  {
    hide Faces, Spread, NearPolygon;
    var a, b := From(ps, e), ps[e];
    SpreadIsSome(a, b, c, p, i, j, k);
    if Cross(a, b, c) != 0 {
      SolidFanIsNear(ps, c, up, e, p, i, j, k);
    } else if OnSegment(a, b, c) {
      CentreOnEdge(a, b, c, i, j, k);
      SpanIsNear(ps, c, e, p, i, j, k);
    } else {
      var onEdge, d, w, v := Collapse(a, b, c, i, j, k);
      if onEdge {
        SpanIsNear(ps, c, e, p, i, j, k);
      } else {
        var f := if e == 0 then |ps| - 1 else e - 1;
        SpokeOfPrevious(From(ps, f), a, b, c, p, i, j, k, d, w, v);
        FanIsNear(ps, c, up, g, f, p, 0, w, v);
      }
    }
  }

  lemma SpreadIsSome(a: Pt, b: Pt, c: Pt, p: Pt, i: nat, j: nat, k: nat)
    requires Spread(a, b, c, p, i, j, k)
    ensures i + j + k > 0
  {
  }

  predicate SameSign(u: int, v: int) { (u > 0 <==> v > 0) && (u < 0 <==> v < 0) }

  /** The ends of an edge that is not settled lie in the same direction from the centre. */
  lemma UnsettledSide(a: Pt, b: Pt, c: Pt)
    requires Cross(a, b, c) == 0 && !OnSegment(a, b, c)
    ensures SameSign(a.x - c.x, b.x - c.x) && SameSign(a.y - c.y, b.y - c.y)
  {
    var ux, uy, vx, vy := a.x - c.x, a.y - c.y, b.x - c.x, b.y - c.y;
    assert ux * vy == uy * vx by {
      assert Cross(a, b, c) == (vx - ux) * (-uy) - (vy - uy) * (-ux);
    }
    if !Between(ux, vx, 0) {
      FollowingSign(ux, uy, vx, vy);
    } else {
      FollowingSign(uy, ux, vy, vx);
    }
  }

  lemma FollowingSign(ux: int, uy: int, vx: int, vy: int)
    requires ux * vy == uy * vx && ux != 0 && SameSign(ux, vx)
    ensures SameSign(uy, vy)
  {
    SignOfProduct(ux, vy);
    SignOfProduct(vx, uy);
  }

  lemma SignOfProduct(u: int, v: int)
    requires u != 0
    ensures if u > 0 then SameSign(u * v, v) else SameSign(u * v, -v)
  {
    var s, t := if u > 0 then u else -u, if v > 0 then v else -v;
    if v != 0 {
      MulMono(1, s, t);
    }
  }

  lemma {:induction false} OneDirection(ps: seq<Pt>, c: Pt, n: nat)
    requires n < |ps| && forall e :: 0 <= e < |ps| ==> !Settled(ps, c, e)
    ensures SameSign(ps[0].x - c.x, ps[n].x - c.x) && SameSign(ps[0].y - c.y, ps[n].y - c.y)
  {
    if n > 0 {
      OneDirection(ps, c, n - 1);
      assert !Settled(ps, c, n);
      UnsettledSide(ps[n - 1], ps[n], c);
    }
  }

  /** Around a point of its box a polygon has a settled edge. */
  lemma SomeEdgeIsSettled(ps: seq<Pt>, c: Pt) returns (g: nat)
    requires |ps| >= 2 && InBox(Bounds(ps), c)
    ensures g < |ps| && Settled(ps, c, g)
  {
    if e :| 0 <= e < |ps| && Settled(ps, c, e) {
      g := e;
    } else {
      g := 0;
      BoundsAreTight(ps);
      hide Settled, Bounds;
      forall p | p in ps
        ensures SameSign(ps[0].x - c.x, p.x - c.x) && SameSign(ps[0].y - c.y, p.y - c.y)
      {
        var n :| 0 <= n < |ps| && ps[n] == p;
        OneDirection(ps, c, n);
      }
      assert ps[0] == c;
      CornerIsSettled(ps, c);
    }
  }

  lemma CornerIsSettled(ps: seq<Pt>, c: Pt)
    requires |ps| >= 2 && ps[0] == c
    ensures Settled(ps, c, 0)
  {
  }

  /** FillPolygon paints nothing a whole pixel away from a polygon whose edges all have the centre
      of its box on the same side. */
  lemma FillStaysNearPolygon(ps: seq<Pt>, p: Pt, up: bool)
    requires |ps| >= 2 && Faces(ps, Centre(Bounds(ps)), up) && p in FilledPixels(ps)
    ensures NearPolygon(ps, p)
  {
    hide Faces, FilledPixels, WithinOne, NearPolygon, Settled;
    var c := Centre(Bounds(ps));
    CentreInBounds(ps);
    hide Centre, Bounds;
    var g := SomeEdgeIsSettled(ps, c);
    FillStaysNear(ps, p);
    if WithinOne(ps[0], ps[|ps| - 1], c, p) {
      Turned(ps[0], ps[|ps| - 1], c, p);
      WithinIsNear(ps, c, up, g, 0, p);
    } else {
      var i :| 0 < i < |ps| && WithinOne(ps[i - 1], ps[i], c, p);
      WithinIsNear(ps, c, up, g, i, p);
    }
  }

  lemma Turned(a: Pt, b: Pt, c: Pt, p: Pt)
    requires WithinOne(a, b, c, p)
    ensures WithinOne(b, a, c, p)
  {
    var i: nat, j: nat, k: nat :| Spread(a, b, c, p, i, j, k);
    assert Spread(b, a, c, p, j, i, k);
  }

  lemma WithinIsNear(ps: seq<Pt>, c: Pt, up: bool, g: nat, e: nat, p: Pt)
    requires |ps| >= 2 && Faces(ps, c, up) && g < |ps| && e < |ps| && Settled(ps, c, g)
    requires WithinOne(From(ps, e), ps[e], c, p)
    ensures NearPolygon(ps, p)
  {
    var i: nat, j: nat, k: nat :| Spread(From(ps, e), ps[e], c, p, i, j, k);
    hide Faces, Spread, NearPolygon, Settled, WithinOne;
    FanIsNear(ps, c, up, g, e, p, i, j, k);
  }
}
