/** The circle outline is one closed 8-connected curve: a cycle through all its pixels. */
module CircleCurve {
  import opened Geometry
  import opened CircleGeometry

  /** The y with y*y - y < a <= y*y + y. */
  function NearestRoot(a: nat): (y: nat)
    requires a >= 1
    ensures y >= 1 && y * y - y < a <= y * y + y
  {
    if a == 1 then 1
    else
      var r := NearestRoot(a - 1);
      if a <= r * r + r then r else
      assert (r + 1) * (r + 1) == r * r + 2 * r + 1;
      r + 1
  }

  lemma BandExists(R: nat, x: nat) returns (y: nat)
    requires x < R
    ensures y >= 1 && Band(R, x, y)
  {
    SquareOrder(x, R);
    y := NearestRoot(R * R - x * x);
  }

  /** Every octant column but the first has a neighbour to its left: each x is visited once,
      and y falls by at most one. */
  lemma OctantPrev(R: nat, x: int, y: int) returns (y': int)
    requires Octant(R, x, y) && x >= 1
    ensures Octant(R, x - 1, y') && y <= y' <= y + 1
  {
    BandRadius(R, x, y);
    y' := BandExists(R, x - 1);
    BandFalls(R, x - 1, y', x, y);
    DecisionPicks(R, x - 1, y');
    if Decision(R, x - 1, y') < 0 {
      BandUnique(R, x, y, y');
    } else {
      BandFalls(R, x, y' - 1, x, y);
      if y' - (x - 1) >= 2 {
        BandUnique(R, x, y, y' - 1);
      }
    }
  }

  /** The octant goes on until it touches its own mirror image in the diagonal. */
  lemma OctantNext(R: nat, x: int, y: int) returns (y': int)
    requires Octant(R, x, y) && y - x >= 2
    ensures Octant(R, x + 1, y') && y - 1 <= y' <= y
  {
    DecisionPicks(R, x, y);
    y' := if Decision(R, x, y) < 0 then y else y - 1;
  }

  lemma OctantTop(R: nat, y: int)
    requires R >= 1
    ensures Octant(R, 0, R)
    ensures Octant(R, 0, y) ==> y == R
  {
    if Octant(R, 0, y) {
      BandUnique(R, 0, y, R);
    }
  }

  // ---- paths of outline offsets ----

  predicate On(R: nat, p: Pt) { Outline(R, p.x, p.y) }

  predicate Near(p: Pt, q: Pt) { Abs(p.x - q.x) <= 1 && Abs(p.y - q.y) <= 1 }

  ghost predicate Path(R: nat, s: seq<Pt>) {
    && |s| > 0
    && (forall i :: 0 <= i < |s| ==> On(R, s[i]))
    && (forall i, j :: 0 <= i && j == i + 1 && j < |s| ==> Near(s[i], s[j]))
  }

  ghost predicate Joined(R: nat, p: Pt, q: Pt) {
    exists s: seq<Pt> :: Path(R, s) && s[0] == p && s[|s| - 1] == q
  }

  predicate Distinct(s: seq<Pt>) {
    forall i, j :: 0 <= i < j < |s| ==> s[i] != s[j]
  }

  lemma PathJoin(R: nat, s: seq<Pt>, t: seq<Pt>)
    requires Path(R, s) && Path(R, t) && Near(s[|s| - 1], t[0])
    ensures Path(R, s + t)
  {
    var u := s + t;
    forall i, j | 0 <= i && j == i + 1 && j < |u|
      ensures Near(u[i], u[j])
    {
      if j < |s| {
        assert Near(s[i], s[j]);
      } else if i >= |s| {
        assert Near(t[i - |s|], t[j - |s|]);
      }
    }
  }

  lemma PathSlice(R: nat, s: seq<Pt>, i: nat, j: nat)
    requires Path(R, s) && i < j <= |s|
    ensures Path(R, s[i..j])
  {
    var u := s[i..j];
    forall k, l | 0 <= k && l == k + 1 && l < |u|
      ensures Near(u[k], u[l])
    {
      assert Near(s[i + k], s[i + l]);
    }
  }

  // ---- from an octant point to its mirror image ----

  /** The row of the next octant column, as the decision variable picks it. */
  function NextRow(R: nat, x: int, y: int): int {
    if Decision(R, x, y) < 0 then y else y - 1
  }

  /** The outline from the octant point (x, y) down the octant and back up its mirror image
      to (y, x). */
  ghost function Arc(R: nat, x: int, y: int): seq<Pt>
    decreases y - x
  {
    if y <= x then [Pt(x, y)]
    else
      var y' := NextRow(R, x, y);
      [Pt(x, y)] + (if x + 1 <= y' then Arc(R, x + 1, y') else []) + [Pt(y, x)]
  }

  /** From the top of the arc to its other end x - y only grows. */
  predicate Climbs(s: seq<Pt>) {
    forall i, j :: 0 <= i < j < |s| ==> s[i].x - s[i].y < s[j].x - s[j].y
  }

  lemma NextOctant(R: nat, x: int, y: int)
    requires Octant(R, x, y) && x < y
    ensures y - 1 <= NextRow(R, x, y) <= y
    ensures x + 1 <= NextRow(R, x, y) ==> Octant(R, x + 1, NextRow(R, x, y))
    ensures x + 1 > NextRow(R, x, y) ==> y == x + 1 && R * R - (x + 1) * (x + 1) <= (y - 1) * (y - 1) + (y - 1)
    ensures On(R, Pt(x, y)) && On(R, Pt(y, x))
  {
    DecisionPicks(R, x, y);
  }

  lemma {:induction false} ArcShape(R: nat, x: int, y: int)
    requires Octant(R, x, y)
    ensures var s := Arc(R, x, y);
      Path(R, s) && s[0] == Pt(x, y) && s[|s| - 1] == Pt(y, x) && Climbs(s)
    decreases y - x
  {
    if x < y {
      NextOctant(R, x, y);
      var y' := NextRow(R, x, y);
      hide Octant, NextRow, On;
      var top, end := [Pt(x, y)], [Pt(y, x)];
      if x + 1 <= y' {
        ArcShape(R, x + 1, y');
        var inner := Arc(R, x + 1, y');
        PathJoin(R, top, inner);
        PathJoin(R, top + inner, end);
        ClimbsBetween(x, y, inner);
      } else {
        PathJoin(R, top, end);
        assert Arc(R, x, y) == top + end;
      }
    }
  }

  lemma ClimbsBetween(x: int, y: int, s: seq<Pt>)
    requires Climbs(s) && |s| > 0 && x - y < s[0].x - s[0].y && s[|s| - 1].x - s[|s| - 1].y < y - x
    ensures Climbs([Pt(x, y)] + s + [Pt(y, x)])
  {
    assert forall i :: 0 <= i < |s| ==> s[0].x - s[0].y <= s[i].x - s[i].y <= s[|s| - 1].x - s[|s| - 1].y;
  }

  /** The arc holds every outline offset between its ends and no other: each column of the
      octant is visited once, and so is each row of its mirror image. */
  lemma {:induction false} ArcMembers(R: nat, x: int, y: int, p: Pt)
    requires Octant(R, x, y)
    ensures p in Arc(R, x, y) <==> On(R, p) && x <= Min(p.x, p.y)
    decreases y - x
  {
    hide Octant, On, NextRow;
    ColumnOfArc(R, x, y, p);
    if x < y && x + 1 <= NextRow(R, x, y) {
      NextOctant(R, x, y);
      ArcMembers(R, x + 1, NextRow(R, x, y), p);
    } else {
      ArcEnds(R, x, y, p);
    }
  }

  lemma ColumnOfArc(R: nat, x: int, y: int, p: Pt)
    requires Octant(R, x, y)
    ensures On(R, p) && Min(p.x, p.y) == x <==> p == Pt(x, y) || p == Pt(y, x)
    ensures x <= y
  {
    if On(R, p) && Min(p.x, p.y) == x {
      BandUnique(R, x, y, Max(p.x, p.y));
    }
  }

  lemma ArcEnds(R: nat, x: int, y: int, p: Pt)
    requires Octant(R, x, y) && (x == y || x + 1 > NextRow(R, x, y))
    ensures On(R, p) ==> Min(p.x, p.y) <= x
  {
    var m, n := Min(p.x, p.y), Max(p.x, p.y);
    if On(R, p) && x < m {
      BandFalls(R, x, y, m, n);
      if x < y {
        NextOctant(R, x, y);
        BandFalls(R, x + 1, y - 1, m, n);
      }
    }
  }

  /** The octant goes on until it touches its own mirror image in the diagonal. */
  lemma OctantToMirror(R: nat, x: int, y: int)
    requires Octant(R, x, y)
    ensures Joined(R, Pt(x, y), Pt(y, x))
  {
    ArcShape(R, x, y);
  }

  // ---- once around ----

  /** A quarter turn. */
  function Turn(p: Pt): Pt { Reflect(p, true, false, true) }

  function TurnBack(p: Pt): Pt { Reflect(p, true, true, false) }

  function TurnAll(s: seq<Pt>): seq<Pt> { seq(|s|, i requires 0 <= i < |s| => Turn(s[i])) }

  ghost function TurnRegion(r: iset<Pt>): iset<Pt> { iset p: Pt | TurnBack(p) in r }

  /** s walks through every outline offset of a region once, from a to a neighbour of b. */
  ghost predicate Strand(R: nat, s: seq<Pt>, a: Pt, b: Pt, region: iset<Pt>) {
    && Path(R, s) && Distinct(s) && s[0] == a && Near(s[|s| - 1], b)
    && forall p :: p in s <==> On(R, p) && p in region
  }

  lemma TurnKeeps(R: nat, p: Pt, q: Pt)
    ensures On(R, Turn(p)) == On(R, p) && TurnBack(Turn(p)) == p && Turn(TurnBack(p)) == p
    ensures Near(p, q) ==> Near(Turn(p), Turn(q))
  {
    OutlineSymmetric(R, p.x, p.y);
    OutlineSymmetric(R, p.y, p.x);
  }

  lemma StrandTurns(R: nat, s: seq<Pt>, a: Pt, b: Pt, region: iset<Pt>)
    requires Strand(R, s, a, b, region)
    ensures Strand(R, TurnAll(s), Turn(a), Turn(b), TurnRegion(region))
  {
    hide On, Near, Turn, TurnBack;
    var u := TurnAll(s);
    forall i, j | 0 <= i <= j < |s|
      ensures On(R, u[j]) && (j == i + 1 ==> Near(u[i], u[j])) && (i < j ==> u[i] != u[j])
    {
      TurnKeeps(R, s[i], s[j]);
      TurnKeeps(R, s[j], s[i]);
    }
    TurnKeeps(R, s[|s| - 1], b);
    forall p
      ensures p in u <==> On(R, p) && p in TurnRegion(region)
    {
      var q := TurnBack(p);
      TurnKeeps(R, q, q);
      TurnKeeps(R, p, p);
      if q in s {
        var i :| 0 <= i < |s| && s[i] == q;
        assert u[i] == p;
      }
      if p in u {
        var i :| 0 <= i < |u| && u[i] == p;
        TurnKeeps(R, s[i], s[i]);
      }
    }
  }

  lemma StrandsJoin(R: nat, s: seq<Pt>, t: seq<Pt>, a: Pt, b: Pt, c: Pt, left: iset<Pt>, right: iset<Pt>)
    requires Strand(R, s, a, b, left) && Strand(R, t, b, c, right) && left !! right
    ensures Strand(R, s + t, a, c, left + right)
  {
    hide On, Near;
    PathJoin(R, s, t);
    var u := s + t;
    forall i, j | 0 <= i < j < |u|
      ensures u[i] != u[j]
    {
      if i < |s| <= j {
        assert u[i] in s && u[j] in t;
      }
    }
  }

  /** The quarter of the plane from the positive y axis to short of the positive x axis, and
      its turns. */
  ghost function Quarter(k: nat): iset<Pt> {
    if k == 0 then iset p: Pt | p.x >= 0 && p.y > 0 else TurnRegion(Quarter(k - 1))
  }

  /** The only outline offset on the positive x axis is (R, 0). */
  lemma OnAxis(R: nat, p: Pt)
    ensures On(R, p) && p.y == 0 && p.x >= 0 ==> p == Pt(R, 0)
  {
    if On(R, p) && p.y == 0 && p.x >= 0 && R >= 1 {
      OctantTop(R, p.x);
    }
  }

  lemma ClimbsIsDistinct(s: seq<Pt>)
    requires Climbs(s)
    ensures Distinct(s)
  {
  }

  /** All of a sequence without duplicates but its last element. */
  lemma AllButLast(s: seq<Pt>, n: nat, p: Pt)
    requires Distinct(s) && n == |s| - 1
    ensures p in s[..n] <==> p in s && p != s[n]
    ensures Distinct(s[..n])
  {
  }

  lemma QuarterStrand(R: nat) returns (s: seq<Pt>)
    requires R >= 1
    ensures Strand(R, s, Pt(0, R), Pt(R, 0), Quarter(0))
  {
    OctantTop(R, R);
    ArcShape(R, 0, R);
    var arc := Arc(R, 0, R);
    var n := |arc| - 1;
    s := arc[0..n];
    ClimbsIsDistinct(arc);
    PathSlice(R, arc, 0, n);
    assert Near(arc[n - 1], arc[n]);
    hide Path, Near, Distinct, Climbs, Arc, On, Octant;
    forall p
      ensures p in s <==> On(R, p) && p in Quarter(0)
    {
      AllButLast(arc, n, p);
      ArcMembers(R, 0, R, p);
      OnAxis(R, p);
    }
    AllButLast(arc, n, Pt(0, R));
    assert s == arc[..n];
  }

  /** The outline is one closed curve: a cycle through all its pixels, each visited once, each
      touching the next and the last touching the first. */
  lemma OutlineIsCycle(R: nat) returns (s: seq<Pt>)
    requires R >= 1
    ensures Path(R, s) && Distinct(s) && |s| >= 4 && Near(s[|s| - 1], s[0])
    ensures forall p :: p in s <==> On(R, p)
  {
    hide On, Near, Distinct, Turn, TurnBack, TurnRegion;
    var q0 := QuarterStrand(R);
    var q1 := TurnAll(q0);
    var q2 := TurnAll(q1);
    var q3 := TurnAll(q2);
    var a, b := Pt(0, R), Pt(R, 0);
    StrandTurns(R, q0, a, b, Quarter(0));
    StrandTurns(R, q1, Turn(a), Turn(b), Quarter(1));
    StrandTurns(R, q2, Turn(Turn(a)), Turn(Turn(b)), Quarter(2));
    FourQuarters(R);
    hide Quarter;
    StrandsJoin(R, q0, q1, a, b, Turn(b), Quarter(0), Quarter(1));
    StrandsJoin(R, q0 + q1, q2, a, Turn(b), Turn(Turn(b)), Quarter(0) + Quarter(1), Quarter(2));
    StrandsJoin(R, q0 + q1 + q2, q3, a, Turn(Turn(b)), a, Quarter(0) + Quarter(1) + Quarter(2), Quarter(3));
    s := q0 + q1 + q2 + q3;
  }

  lemma QuarterSigns()
    ensures Quarter(0) == iset p: Pt | p.x >= 0 && p.y > 0
    ensures Quarter(1) == iset p: Pt | p.x > 0 && p.y <= 0
    ensures Quarter(2) == iset p: Pt | p.x <= 0 && p.y < 0
    ensures Quarter(3) == iset p: Pt | p.x < 0 && p.y >= 0
  {
    assert Quarter(1) == TurnRegion(Quarter(0));
    assert Quarter(2) == TurnRegion(Quarter(1));
    assert Quarter(3) == TurnRegion(Quarter(2));
  }

  lemma FourQuarters(R: nat)
    requires R >= 1
    ensures Turn(Pt(0, R)) == Pt(R, 0) && Turn(Turn(Turn(Pt(R, 0)))) == Pt(0, R)
    ensures Quarter(0) !! Quarter(1) && Quarter(0) + Quarter(1) !! Quarter(2)
    ensures Quarter(0) + Quarter(1) + Quarter(2) !! Quarter(3)
    ensures forall p :: On(R, p) ==> p in Quarter(0) + Quarter(1) + Quarter(2) + Quarter(3)
  {
    QuarterSigns();
    hide Quarter;
    forall p | On(R, p)
      ensures p in Quarter(0) + Quarter(1) + Quarter(2) + Quarter(3)
    {
      OnAxis(R, p);
      hide On;
      assert p.x != 0 || p.y != 0;
    }
  }

  /** The pixels DrawCircle paints form such a curve around its centre. */
  lemma CircleIsCycle(c: Pt, R: nat) returns (s: seq<Pt>)
    requires R >= 1
    ensures |s| >= 4 && Distinct(s) && forall p :: p in s <==> p in CirclePixels(c, R)
    ensures Near(s[|s| - 1], s[0]) && forall i, j :: 0 <= i && j == i + 1 && j < |s| ==> Near(s[i], s[j])
  {
    hide Outline;
    var t := OutlineIsCycle(R);
    s := seq(|t|, i requires 0 <= i < |t| => Pt(c.x + t[i].x, c.y + t[i].y));
    forall p
      ensures p in s <==> p in CirclePixels(c, R)
    {
      var o := Pt(p.x - c.x, p.y - c.y);
      assert o in t <==> On(R, o);
      if p in CirclePixels(c, R) {
        var i :| 0 <= i < |t| && t[i] == o;
        assert s[i] == p;
      }
    }
  }

  lemma JoinedBy(R: nat, t: seq<Pt>, p: Pt, q: Pt)
    requires Path(R, t) && t[0] == p && t[|t| - 1] == q
    ensures Joined(R, p, q)
  {
  }

  lemma JoinedAlong(R: nat, s: seq<Pt>, i: nat, j: nat)
    requires Path(R, s) && Near(s[|s| - 1], s[0]) && i < |s| && j < |s|
    ensures Joined(R, s[i], s[j])
  {
    hide Path, Near, Joined;
    if i <= j {
      PathSlice(R, s, i, j + 1);
      JoinedBy(R, s[i..j + 1], s[i], s[j]);
    } else {
      PathSlice(R, s, i, |s|);
      PathSlice(R, s, 0, j + 1);
      PathJoin(R, s[i..|s|], s[0..j + 1]);
      JoinedBy(R, s[i..|s|] + s[0..j + 1], s[i], s[j]);
    }
  }

  /** Any two outline pixels are joined by a chain of outline pixels, each touching the next. */
  lemma OutlineIsConnected(R: nat, p: Pt, q: Pt)
    requires R >= 1 && On(R, p) && On(R, q)
    ensures Joined(R, p, q)
  {
    hide Path, Near, Distinct, On, Joined;
    var s := OutlineIsCycle(R);
    var i :| 0 <= i < |s| && s[i] == p;
    var j :| 0 <= j < |s| && s[j] == q;
    JoinedAlong(R, s, i, j);
  }

  /** The curve has no ends: every outline pixel touches two other outline pixels. */
  lemma OutlineIsClosed(R: nat, p: Pt) returns (a: Pt, b: Pt)
    requires R >= 1 && On(R, p)
    ensures On(R, a) && On(R, b) && a != b && a != p && b != p
    ensures Near(p, a) && Near(p, b)
  {
    var s := OutlineIsCycle(R);
    var i :| 0 <= i < |s| && s[i] == p;
    a := if i == 0 then s[|s| - 1] else s[i - 1];
    b := if i == |s| - 1 then s[0] else s[i + 1];
    assert i > 0 ==> Near(s[i - 1], s[i]);
    assert i < |s| - 1 ==> Near(s[i], s[i + 1]);
  }
}
