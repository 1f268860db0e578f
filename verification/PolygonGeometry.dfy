/** Triangles and polygons as unions of lines, the way the fill functions build them. */
module PolygonGeometry {
  import opened Geometry
  import opened LineGeometry

  /** Lines to c from each of the first n pixels of the edge a-b. */
  ghost function TrianglePrefix(a: Pt, b: Pt, c: Pt, n: nat): iset<Pt> {
    if n == 0 then iset{} else TrianglePrefix(a, b, c, n - 1) + LinePixels(LinePoint(a, b, n - 1), c)
  }

  lemma {:induction false} TriangleMembers(a: Pt, b: Pt, c: Pt, n: nat, p: Pt)
    ensures p in TrianglePrefix(a, b, c, n) <==> exists k: nat :: k < n && OnLine(LinePoint(a, b, k), c, p)
  {
    hide LinePoint, LinePixels, OnLine;
    if n > 0 {
      TriangleMembers(a, b, c, n - 1, p);
      LineMembers(LinePoint(a, b, n - 1), c, p);
      if k: nat :| k < n && OnLine(LinePoint(a, b, k), c, p) {
        assert k < n - 1 || k == n - 1;
      }
    }
  }

  ghost function TrianglePixels(a: Pt, b: Pt, c: Pt): iset<Pt> {
    TrianglePrefix(a, b, c, Longer(a, b) + 1)
  }

  /** A sweep paints what the line from some pixel of the edge a-b to the corner c paints. */
  lemma TriangleIsSwept(a: Pt, b: Pt, c: Pt, p: Pt)
    ensures p in TrianglePixels(a, b, c) <==> exists f :: OnLine(a, b, f) && OnLine(f, c, p)
  {
    hide LinePoint, TrianglePrefix, Longer;
    var n := Longer(a, b) + 1;
    TriangleMembers(a, b, c, n, p);
    if p in TrianglePixels(a, b, c) {
      var k: nat :| k < n && OnLine(LinePoint(a, b, k), c, p);
      assert OnLine(a, b, LinePoint(a, b, k));
    }
    if f :| OnLine(a, b, f) && OnLine(f, c, p) {
      var k: nat :| k < n && f == LinePoint(a, b, k);
    }
  }

  /** The triangle a, b, c swept from each of its three edges. */
  ghost function FanPixels(a: Pt, b: Pt, c: Pt): iset<Pt> {
    TrianglePixels(a, b, c) + TrianglePixels(a, c, b) + TrianglePixels(c, b, a)
  }

  /** The closing edge and the first n edges of the polygon. */
  ghost function EdgePixels(ps: seq<Pt>, n: nat): iset<Pt>
    requires n < |ps|
  {
    if n == 0 then LinePixels(ps[0], ps[|ps| - 1])
    else EdgePixels(ps, n - 1) + LinePixels(ps[n - 1], ps[n])
  }

  ghost function PolygonPixels(ps: seq<Pt>): iset<Pt>
    requires |ps| >= 2
  {
    EdgePixels(ps, |ps| - 1)
  }

  lemma {:induction false} EdgeMembers(ps: seq<Pt>, n: nat, p: Pt)
    requires n < |ps|
    ensures p in EdgePixels(ps, n)
      <==> OnLine(ps[0], ps[|ps| - 1], p) || exists i :: 0 < i <= n && OnLine(ps[i - 1], ps[i], p)
  {
    hide OnLine, LinePixels;
    if n == 0 {
      LineMembers(ps[0], ps[|ps| - 1], p);
    } else {
      EdgeMembers(ps, n - 1, p);
      LineMembers(ps[n - 1], ps[n], p);
    }
  }

  /** The outline is the line of every edge, the closing edge included, and nothing else. */
  lemma PolygonMembers(ps: seq<Pt>, p: Pt)
    requires |ps| >= 2
    ensures p in PolygonPixels(ps)
      <==> OnLine(ps[0], ps[|ps| - 1], p) || exists i :: 0 < i < |ps| && OnLine(ps[i - 1], ps[i], p)
  {
    EdgeMembers(ps, |ps| - 1, p);
  }

  /** The fans of the first n edges around the centre. */
  ghost function FansPixels(ps: seq<Pt>, c: Pt, n: nat): iset<Pt>
    requires n < |ps|
  {
    if n == 0 then iset{} else FansPixels(ps, c, n - 1) + FanPixels(ps[n - 1], ps[n], c)
  }

  lemma FansStep(ps: seq<Pt>, c: Pt, n: nat)
    requires 0 < n < |ps|
    ensures FansPixels(ps, c, n) == FansPixels(ps, c, n - 1) + FanPixels(ps[n - 1], ps[n], c)
  {
  }

  /** The smallest upright box holding a list of points. */
  datatype Box = Box(left: int, right: int, top: int, bottom: int)

  predicate InBox(b: Box, p: Pt) {
    b.left <= p.x <= b.right && b.top <= p.y <= b.bottom
  }

  function Widen(b: Box, p: Pt): Box {
    Box(Min(b.left, p.x), Max(b.right, p.x), Min(b.top, p.y), Max(b.bottom, p.y))
  }

  function Bounds(ps: seq<Pt>): Box
    requires |ps| > 0
  {
    if |ps| == 1 then Box(ps[0].x, ps[0].x, ps[0].y, ps[0].y)
    else Widen(Bounds(ps[..|ps| - 1]), ps[|ps| - 1])
  }

  function Centre(b: Box): Pt {
    Pt((b.left + b.right) / 2, (b.bottom + b.top) / 2)
  }

  /** Everything FillPolygon paints. */
  ghost function FilledPixels(ps: seq<Pt>): iset<Pt>
    requires |ps| >= 2
  {
    var c := Centre(Bounds(ps));
    FansPixels(ps, c, |ps| - 1) + FanPixels(ps[0], ps[|ps| - 1], c)
  }

  lemma {:induction false} FansMembers(ps: seq<Pt>, c: Pt, n: nat, p: Pt)
    requires n < |ps|
    ensures p in FansPixels(ps, c, n) <==> exists i :: 0 < i <= n && p in FanPixels(ps[i - 1], ps[i], c)
  {
    hide FanPixels;
    if n > 0 {
      FansMembers(ps, c, n - 1, p);
    }
  }

  /** The fill is the fan of every edge around the centre of the box, the closing edge included. */
  lemma FilledMembers(ps: seq<Pt>, p: Pt)
    requires |ps| >= 2
    ensures var b := Bounds(ps);
      var c := Pt((b.left + b.right) / 2, (b.top + b.bottom) / 2);
      p in FilledPixels(ps)
      <==> p in FanPixels(ps[0], ps[|ps| - 1], c) || exists i :: 0 < i < |ps| && p in FanPixels(ps[i - 1], ps[i], c)
  {
    hide FanPixels, FansPixels, Bounds;
    FansMembers(ps, Centre(Bounds(ps)), |ps| - 1, p);
  }

  /** A fan is the triangle's three sweeps. */
  lemma FanIsSwept(a: Pt, b: Pt, c: Pt, p: Pt)
    ensures p in FanPixels(a, b, c)
      <==> (exists f :: OnLine(a, b, f) && OnLine(f, c, p)) || (exists f :: OnLine(a, c, f) && OnLine(f, b, p))
           || (exists f :: OnLine(c, b, f) && OnLine(f, a, p))
  {
    hide OnLine, TrianglePixels;
    TriangleIsSwept(a, b, c, p);
    TriangleIsSwept(a, c, b, p);
    TriangleIsSwept(c, b, a, p);
  }

  /** Bounds holds every vertex, and each of its sides passes through one. */
  lemma {:induction false} BoundsAreTight(ps: seq<Pt>)
    requires |ps| > 0
    ensures forall p :: p in ps ==> InBox(Bounds(ps), p)
    ensures exists p :: p in ps && p.x == Bounds(ps).left
    ensures exists p :: p in ps && p.x == Bounds(ps).right
    ensures exists p :: p in ps && p.y == Bounds(ps).top
    ensures exists p :: p in ps && p.y == Bounds(ps).bottom
  {
    var n := |ps| - 1;
    if n == 0 {
      assert ps[0] in ps;
    } else {
      BoundsAreTight(ps[..n]);
      assert ps == ps[..n] + [ps[n]];
      WidenIsTight(ps[..n], Bounds(ps[..n]), ps[n]);
    }
  }

  lemma WidenIsTight(ps: seq<Pt>, b: Box, q: Pt)
    requires forall p :: p in ps ==> InBox(b, p)
    requires exists p :: p in ps && p.x == b.left
    requires exists p :: p in ps && p.x == b.right
    requires exists p :: p in ps && p.y == b.top
    requires exists p :: p in ps && p.y == b.bottom
    ensures forall p :: p in ps + [q] ==> InBox(Widen(b, q), p)
    ensures exists p :: p in ps + [q] && p.x == Widen(b, q).left
    ensures exists p :: p in ps + [q] && p.x == Widen(b, q).right
    ensures exists p :: p in ps + [q] && p.y == Widen(b, q).top
    ensures exists p :: p in ps + [q] && p.y == Widen(b, q).bottom
  {
    var l :| l in ps && l.x == b.left;
    var r :| r in ps && r.x == b.right;
    var t :| t in ps && t.y == b.top;
    var u :| u in ps && u.y == b.bottom;
    assert l in ps + [q] && r in ps + [q] && t in ps + [q] && u in ps + [q] && q in ps + [q];
  }

  lemma LineContained(a: Pt, b: Pt, box: Box, p: Pt)
    requires InBox(box, a) && InBox(box, b) && OnLine(a, b, p)
    ensures InBox(box, p)
  {
    var k: nat :| k < Longer(a, b) + 1 && p == LinePoint(a, b, k);
    LineInBox(a, b, k, box.left, box.right, box.top, box.bottom);
  }

  lemma TriangleContained(a: Pt, b: Pt, c: Pt, box: Box, p: Pt)
    requires InBox(box, a) && InBox(box, b) && InBox(box, c) && p in TrianglePixels(a, b, c)
    ensures InBox(box, p)
  {
    TriangleMembers(a, b, c, Longer(a, b) + 1, p);
    var k: nat :| k < Longer(a, b) + 1 && OnLine(LinePoint(a, b, k), c, p);
    LineInBox(a, b, k, box.left, box.right, box.top, box.bottom);
    LineContained(LinePoint(a, b, k), c, box, p);
  }

  lemma FanContained(a: Pt, b: Pt, c: Pt, box: Box, p: Pt)
    requires InBox(box, a) && InBox(box, b) && InBox(box, c) && p in FanPixels(a, b, c)
    ensures InBox(box, p)
  {
    if p in TrianglePixels(a, b, c) {
      TriangleContained(a, b, c, box, p);
    } else if p in TrianglePixels(a, c, b) {
      TriangleContained(a, c, b, box, p);
    } else {
      TriangleContained(c, b, a, box, p);
    }
  }

  /** The edge a triangle is swept from is part of the triangle, pixel by pixel. */
  lemma EdgeInTriangle(a: Pt, b: Pt, c: Pt, p: Pt)
    requires OnLine(a, b, p)
    ensures p in TrianglePixels(a, b, c)
  {
    hide TrianglePrefix;
    var k: nat :| k < Longer(a, b) + 1 && p == LinePoint(a, b, k);
    LineEnds(p, c);
    assert OnLine(p, c, p);
    TriangleMembers(a, b, c, Longer(a, b) + 1, p);
  }

  lemma {:induction false} EdgesInFans(ps: seq<Pt>, c: Pt, n: nat, p: Pt)
    requires n < |ps| && p in EdgePixels(ps, n)
    ensures p in FansPixels(ps, c, n) || p in FanPixels(ps[0], ps[|ps| - 1], c)
  {
    if n == 0 {
      LineMembers(ps[0], ps[|ps| - 1], p);
      EdgeInTriangle(ps[0], ps[|ps| - 1], c, p);
    } else if p in LinePixels(ps[n - 1], ps[n]) {
      LineMembers(ps[n - 1], ps[n], p);
      EdgeInTriangle(ps[n - 1], ps[n], c, p);
    } else {
      EdgesInFans(ps, c, n - 1, p);
    }
  }

  /** FillPolygon paints every pixel DrawPolygon paints, the closing edge included. */
  lemma FillCoversOutline(ps: seq<Pt>, p: Pt)
    requires |ps| >= 2 && p in PolygonPixels(ps)
    ensures p in FilledPixels(ps)
  {
    EdgesInFans(ps, Centre(Bounds(ps)), |ps| - 1, p);
  }

  lemma {:induction false} FansContained(ps: seq<Pt>, c: Pt, n: nat, box: Box, p: Pt)
    requires n < |ps| && p in FansPixels(ps, c, n)
    requires InBox(box, c) && forall q :: q in ps ==> InBox(box, q)
    ensures InBox(box, p)
  {
    hide FanPixels, InBox;
    if p in FansPixels(ps, c, n - 1) {
      FansContained(ps, c, n - 1, box, p);
    } else {
      FanContained(ps[n - 1], ps[n], c, box, p);
    }
  }

  lemma CentreInBounds(ps: seq<Pt>)
    requires |ps| > 0
    ensures InBox(Bounds(ps), Centre(Bounds(ps)))
  {
    BoundsAreTight(ps);
    assert InBox(Bounds(ps), ps[0]);
  }

  /** FillPolygon paints nothing outside the bounding box of the vertices. */
  lemma FillStaysInBounds(ps: seq<Pt>, p: Pt)
    requires |ps| >= 2 && p in FilledPixels(ps)
    ensures InBox(Bounds(ps), p)
  {
    hide FanPixels;
    var box := Bounds(ps);
    var c := Centre(box);
    CentreInBounds(ps);
    BoundsAreTight(ps);
    var a, b := ps[0], ps[|ps| - 1];
    assert InBox(box, a) && InBox(box, b);
    if p in FansPixels(ps, c, |ps| - 1) {
      FansContained(ps, c, |ps| - 1, box, p);
    } else {
      FanContained(a, b, c, box, p);
    }
  }

  /** The centre of the bounding box is always painted, whether or not the polygon contains it
      (PolygonExtent.FillPaintsOutside shows one that does not). */
  lemma FillPaintsCentre(ps: seq<Pt>)
    requires |ps| >= 2
    ensures Centre(Bounds(ps)) in FilledPixels(ps)
  {
    var c := Centre(Bounds(ps));
    LineEnds(ps[0], ps[|ps| - 1]);
    LineEnds(ps[0], c);
    assert OnLine(LinePoint(ps[0], ps[|ps| - 1], 0), c, c);
    TriangleMembers(ps[0], ps[|ps| - 1], c, Longer(ps[0], ps[|ps| - 1]) + 1, c);
  }

  lemma TrianglePrefixGrows(a: Pt, b: Pt, c: Pt, n: nat)
    ensures TrianglePrefix(a, b, c, n) + LinePixels(LinePoint(a, b, n), c) == TrianglePrefix(a, b, c, n + 1)
  {
  }
}
