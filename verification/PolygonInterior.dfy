/** FillPolygon leaves no holes: every lattice point around which the polygon winds is painted,
    whatever the shape of the polygon and wherever its centre lies. */
module PolygonInterior {
  import opened Geometry
  import opened LineGeometry
  import opened PolygonGeometry
  import opened SweepGeometry
  import opened TriangleCover

  /** How a step from height y to height z crosses the level 0, when side tells on which side
      of the origin it does so: +1 upwards, -1 downwards, 0 when it misses the positive half. */
  function Pass(y: int, z: int, side: int): int {
    if y <= 0 < z && side > 0 then 1
    else if z <= 0 < y && side < 0 then -1
    else 0
  }

  /** How the edge a-b crosses the ray that starts at p and runs along x. */
  function EdgePass(a: Pt, b: Pt, p: Pt): int {
    Pass(a.y - p.y, b.y - p.y, Cross(a, b, p))
  }

  /** Passes of the first n edges of the open polygon. */
  function EdgePasses(ps: seq<Pt>, n: nat, p: Pt): int
    requires n < |ps|
  {
    if n == 0 then 0 else EdgePasses(ps, n - 1, p) + EdgePass(ps[n - 1], ps[n], p)
  }

  /** How many times the closed polygon winds around p. */
  function Winding(ps: seq<Pt>, p: Pt): int
    requires |ps| >= 2
  {
    EdgePasses(ps, |ps| - 1, p) + EdgePass(ps[|ps| - 1], ps[0], p)
  }

  // ---- triangles ----

  /** How many times the triangle a, b, c winds around p. */
  function Turns(a: Pt, b: Pt, c: Pt, p: Pt): int {
    EdgePass(a, b, p) + EdgePass(b, c, p) + EdgePass(c, a, p)
  }

  lemma OneLow(x: int, y: int, z: int, r: int, s: int, t: int)
    requires s * x + t * y + r * z == 0 && x <= 0 < y && z > 0
    requires Pass(x, y, r) + Pass(z, x, t) != 0
    ensures (r > 0 && s > 0 && t >= 0) || (r <= 0 && s < 0 && t < 0)
  {
    if r > 0 {
      MulMono(0, t, y);
      MulMono(1, r, z);
      if s <= 0 { MulMono(0, -s, -x); }
    } else {
      MulMono(1, -t, y);
      MulMono(0, -r, z);
      if s >= 0 { MulMono(0, s, -x); }
    }
  }

  lemma TwoLow(x: int, y: int, z: int, r: int, s: int, t: int)
    requires s * x + t * y + r * z == 0 && x <= 0 && y <= 0 < z
    requires Pass(y, z, s) + Pass(z, x, t) != 0
    ensures (r >= 0 && s > 0 && t >= 0) || (r <= 0 && s <= 0 && t < 0)
  {
    if s > 0 {
      MulMono(0, s, -x);
      MulMono(0, t, -y);
      if r < 0 { MulMono(1, -r, z); }
    } else {
      MulMono(0, -s, -x);
      MulMono(0, -t, -y);
      if r > 0 { MulMono(1, r, z); }
    }
  }

  lemma CrossBackwards(a: Pt, b: Pt, p: Pt)
    ensures Cross(b, a, p) == -Cross(a, b, p)
  {
  }

  /** A triangle winds only around points inside it, in the sense of its orientation. */
  lemma TurnsOnlyInside(a: Pt, b: Pt, c: Pt, p: Pt)
    ensures Turns(a, b, c, p) != 0 ==> Inside(a, b, c, p)
    ensures Turns(a, b, c, p) > 0 ==> RightOfEdges(b, a, c, p)
    ensures Turns(a, b, c, p) < 0 ==> RightOfEdges(a, b, c, p)
  {
    hide Cross;
    Balance(a, b, c, p);
    CrossBackwards(a, b, p);
    CrossBackwards(b, c, p);
    CrossBackwards(c, a, p);
    var x, y, z := a.y - p.y, b.y - p.y, c.y - p.y;
    var r, s, t := Cross(a, b, p), Cross(b, c, p), Cross(c, a, p);
    if Turns(a, b, c, p) == 0 {
    } else if x <= 0 && y > 0 && z > 0 {
      OneLow(x, y, z, r, s, t);
    } else if y <= 0 && z > 0 && x > 0 {
      OneLow(y, z, x, s, t, r);
    } else if z <= 0 && x > 0 && y > 0 {
      OneLow(z, x, y, t, r, s);
    } else if x <= 0 && y <= 0 && z > 0 {
      TwoLow(x, y, z, r, s, t);
    } else if y <= 0 && z <= 0 && x > 0 {
      TwoLow(y, z, x, s, t, r);
    } else if z <= 0 && x <= 0 && y > 0 {
      TwoLow(z, x, y, t, r, s);
    }
  }

  lemma NotAllLow(x: int, y: int, z: int, r: int, s: int, t: int)
    requires s * x + t * y + r * z == 0 && r < 0 && s < 0 && t < 0
    requires x <= 0 && y <= 0 && z <= 0
    ensures x == 0 && y == 0 && z == 0
  {
    MulMono(1, -s, -x);
    MulMono(1, -t, -y);
    MulMono(1, -r, -z);
  }

  lemma LevelCross(a: Pt, b: Pt, p: Pt)
    requires a.y == b.y == p.y
    ensures Cross(a, b, p) == 0
  {
  }

  /** A triangle winds exactly once around each point in its interior. */
  lemma TurnsOnceInside(a: Pt, b: Pt, c: Pt, p: Pt)
    requires Cross(a, b, p) < 0 && Cross(b, c, p) < 0 && Cross(c, a, p) < 0
    ensures Turns(a, b, c, p) == -1 && Turns(c, b, a, p) == 1
  {
    Balance(a, b, c, p);
    CrossBackwards(a, b, p);
    CrossBackwards(b, c, p);
    CrossBackwards(c, a, p);
    var x, y, z := a.y - p.y, b.y - p.y, c.y - p.y;
    SumsKeepSign(Cross(b, c, p), Cross(c, a, p), Cross(a, b, p), x, y, z);
    if x <= 0 && y <= 0 && z <= 0 {
      NotAllLow(x, y, z, Cross(a, b, p), Cross(b, c, p), Cross(c, a, p));
      LevelCross(a, b, p);
    }
    hide Cross;
  }

  // ---- polygons ----

  lemma PassBackwards(a: Pt, b: Pt, p: Pt)
    ensures EdgePass(b, a, p) == -EdgePass(a, b, p)
  {
    CrossBackwards(a, b, p);
  }

  /** Turns of the fans of the first n edges around c. */
  function FanTurns(ps: seq<Pt>, c: Pt, n: nat, p: Pt): int
    requires n < |ps|
  {
    if n == 0 then 0 else FanTurns(ps, c, n - 1, p) + Turns(ps[n - 1], ps[n], c, p)
  }

  /** The spokes to the centre cancel out. */
  lemma {:induction false} SpokesCancel(ps: seq<Pt>, c: Pt, n: nat, p: Pt)
    requires n < |ps|
    ensures EdgePasses(ps, n, p) == FanTurns(ps, c, n, p) - EdgePass(ps[n], c, p) - EdgePass(c, ps[0], p)
  {
    hide EdgePass;
    PassBackwards(ps[0], c, p);
    if n > 0 {
      SpokesCancel(ps, c, n - 1, p);
      PassBackwards(ps[n - 1], c, p);
    }
  }

  lemma {:induction false} FansWoundAround(ps: seq<Pt>, c: Pt, n: nat, p: Pt)
    requires n < |ps| && FanTurns(ps, c, n, p) != 0
    ensures p in FansPixels(ps, c, n)
  {
    hide Turns, Inside, FanPixels;
    if Turns(ps[n - 1], ps[n], c, p) != 0 {
      TurnsOnlyInside(ps[n - 1], ps[n], c, p);
      FanCovers(ps[n - 1], ps[n], c, p);
    } else {
      FansWoundAround(ps, c, n - 1, p);
    }
  }

  /** The winding number is the sum of the turns of all fans, wherever their centre lies. */
  lemma WindingFromFans(ps: seq<Pt>, c: Pt, p: Pt)
    requires |ps| >= 2
    ensures Winding(ps, p) == FanTurns(ps, c, |ps| - 1, p) + Turns(ps[|ps| - 1], ps[0], c, p)
  {
    hide EdgePass;
    var n := |ps| - 1;
    SpokesCancel(ps, c, n, p);
    PassBackwards(ps[n], c, p);
    PassBackwards(ps[0], c, p);
  }

  /** FillPolygon paints every lattice point around which the polygon winds. */
  lemma FillCoversInterior(ps: seq<Pt>, p: Pt)
    requires |ps| >= 2 && Winding(ps, p) != 0
    ensures p in FilledPixels(ps)
  {
    hide EdgePass, FanPixels, FansPixels, Cross;
    var c, n := Centre(Bounds(ps)), |ps| - 1;
    WindingFromFans(ps, c, p);
    if FanTurns(ps, c, n, p) != 0 {
      FansWoundAround(ps, c, n, p);
    } else {
      TurnsOnlyInside(ps[n], ps[0], c, p);
      FanCovers(ps[0], ps[n], c, p);
    }
  }

  /** p lies on an edge of the closed polygon. */
  ghost predicate OnBoundary(ps: seq<Pt>, p: Pt)
    requires |ps| >= 2
  {
    OnSegment(ps[0], ps[|ps| - 1], p) || exists i :: 0 < i < |ps| && OnSegment(ps[i - 1], ps[i], p)
  }

  /** DrawPolygon paints every lattice point of the boundary. */
  lemma BoundaryIsDrawn(ps: seq<Pt>, p: Pt)
    requires |ps| >= 2 && OnBoundary(ps, p)
    ensures p in PolygonPixels(ps)
  {
    hide OnSegment, OnLine, EdgePixels;
    PolygonMembers(ps, p);
    if OnSegment(ps[0], ps[|ps| - 1], p) {
      SegmentIsOnLine(ps[0], ps[|ps| - 1], p);
    } else {
      var i :| 0 < i < |ps| && OnSegment(ps[i - 1], ps[i], p);
      SegmentIsOnLine(ps[i - 1], ps[i], p);
    }
  }

  /** FillPolygon paints every lattice point inside the polygon and every one on its edges. */
  lemma FillLeavesNoHoles(ps: seq<Pt>, p: Pt)
    requires |ps| >= 2 && (Winding(ps, p) != 0 || OnBoundary(ps, p))
    ensures p in FilledPixels(ps)
  {
    hide Winding, OnBoundary, PolygonPixels, FilledPixels;
    if Winding(ps, p) != 0 {
      FillCoversInterior(ps, p);
    } else {
      BoundaryIsDrawn(ps, p);
      FillCoversOutline(ps, p);
    }
  }
}
