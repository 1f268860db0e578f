/** The integer error loop behind the ellipse functions: why it stops for every pair of
    radii, which rows it visits and how wide it gets. */
module EllipseGeometry {
  import opened CInt
  import opened Geometry
  import opened CircleGeometry

  /** What one pass of the loop leaves for the next. */
  datatype Cursor = Cursor(x: nat, y: int, err: int)

  function Start(xr: int, yr: int): Cursor {
    Cursor(0, -yr, 2 - 2 * xr)
  }

  function Pass(s: Cursor): Cursor {
    var right := s.err <= s.x;
    var x := if right then s.x + 1 else s.x;
    var err := if right then s.err + 2 * x + 1 else s.err;
    var e2 := if right && -s.y == x && s.err <= s.y then 0 else s.err;
    if e2 > s.y then Cursor(x, s.y + 1, err + 2 * (s.y + 1) + 1) else Cursor(x, s.y, err)
  }

  /** A pass either climbs a row or raises the error towards the row it stays on. */
  lemma PassProgress(s: Cursor)
    requires s.y <= 0
    ensures Pass(s).y == s.y + 1 || (Pass(s).y == s.y && s.err <= s.y && s.err < Pass(s).err)
    ensures s.x <= Pass(s).x <= s.x + 1
  {
  }

  /** All cursors at which something is drawn: the loop tests y only after drawing. */
  function Trace(s: Cursor): (t: seq<Cursor>)
    ensures |t| > 0 && t[0] == s
    decreases Max(0, 1 - s.y), Max(0, s.y - s.err + 1)
  {
    if Pass(s).y <= 0 then
      PassProgress(s);
      [s] + Trace(Pass(s))
    else [s]
  }

  /** What the do-while loop has still to draw. */
  function Rest(again: bool, s: Cursor): seq<Cursor> {
    if again then Trace(s) else []
  }

  lemma TraceSplits(done: seq<Cursor>, s: Cursor)
    ensures done + Rest(true, s) == (done + [s]) + Rest(Pass(s).y <= 0, Pass(s))
  {
  }

  /** The constant the error term is measured against. */
  function Target(xr: int, yr: int): int { yr * yr - 2 * yr + 2 * xr }

  ghost predicate ErrorTerm(c: int, s: Cursor) {
    s.err == (s.x + 1) * (s.x + 1) + (s.y + 1) * (s.y + 1) - c
  }

  lemma ErrorTermKept(c: int, s: Cursor)
    requires ErrorTerm(c, s)
    ensures ErrorTerm(c, Pass(s))
  {
    assert (s.x + 2) * (s.x + 2) == (s.x + 1) * (s.x + 1) + 2 * (s.x + 1) + 1;
    assert (s.y + 2) * (s.y + 2) == (s.y + 1) * (s.y + 1) + 2 * (s.y + 1) + 1;
  }

  lemma ErrorTermStarts(xr: int, yr: int)
    ensures ErrorTerm(Target(xr, yr), Start(xr, yr))
  {
    assert (1 - yr) * (1 - yr) == 1 - 2 * yr + yr * yr;
  }

  /** The error variable always equals (x+1)^2 + (y+1)^2 less one constant. */
  lemma {:induction false} ErrorTermAlong(c: int, s: Cursor)
    requires ErrorTerm(c, s)
    ensures forall t :: t in Trace(s) ==> ErrorTerm(c, t)
    decreases |Trace(s)|
  {
    ErrorTermKept(c, s);
    if Pass(s).y <= 0 {
      ErrorTermAlong(c, Pass(s));
    }
  }

  // ---- rows ----

  /** No row is skipped: every row from the top of the ellipse to its middle is drawn. */
  lemma {:induction false} RowsCovered(s: Cursor, row: int)
    requires s.y <= row <= 0
    ensures exists t :: t in Trace(s) && t.y == row
    decreases |Trace(s)|
  {
    PassProgress(s);
    if s.y == row {
      assert s in Trace(s);
    } else {
      RowsCovered(Pass(s), row);
      var t :| t in Trace(Pass(s)) && t.y == row;
      assert t in Trace(s);
    }
  }

  lemma {:induction false} TraceRows(s: Cursor)
    requires s.y <= 0
    ensures forall t :: t in Trace(s) ==> s.y <= t.y <= 0
    decreases |Trace(s)|
  {
    PassProgress(s);
    if Pass(s).y <= 0 {
      TraceRows(Pass(s));
    }
  }

  // ---- width ----

  function Last(s: Cursor): Cursor { Trace(s)[|Trace(s)| - 1] }

  lemma {:induction false} WidestIsLast(s: Cursor)
    ensures Last(s) in Trace(s)
    ensures forall t :: t in Trace(s) ==> s.x <= t.x <= Last(s).x
    decreases |Trace(s)|
  {
    if Pass(s).y <= 0 {
      PassProgress(s);
      WidestIsLast(Pass(s));
      assert Last(s) == Last(Pass(s));
    }
  }

  lemma WidthStep(c: int, s: Cursor)
    requires ErrorTerm(c, s) && s.x * s.x - s.x < c
    ensures Pass(s).x * Pass(s).x - Pass(s).x < c
  {
    assert (s.x + 1) * (s.x + 1) == s.x * s.x + 2 * s.x + 1;
    assert (s.y + 1) * (s.y + 1) >= 0;
  }

  /** x only moves right while its square stays near the target. */
  lemma {:induction false} NotTooWide(c: int, s: Cursor)
    requires ErrorTerm(c, s) && s.x * s.x - s.x < c
    ensures Last(s).x * Last(s).x - Last(s).x < c
    decreases |Trace(s)|
  {
    ErrorTermKept(c, s);
    WidthStep(c, s);
    if Pass(s).y <= 0 {
      NotTooWide(c, Pass(s));
      hide ErrorTerm, Pass;
      assert Last(s) == Last(Pass(s));
    }
  }

  /** On the way to the middle row x catches up with the square root of the target. */
  lemma {:induction false} WideEnough(c: int, s: Cursor)
    requires ErrorTerm(c, s) && s.x >= 1 && s.y <= -1
    ensures c <= Last(s).x * Last(s).x + Last(s).x
    decreases |Trace(s)|
  {
    PassProgress(s);
    ErrorTermKept(c, s);
    var n := Pass(s);
    assert Last(s) == Last(n);
    if n.y <= -1 {
      WideEnough(c, n);
    } else {
      assert s.y == -1 && s.err == (s.x + 1) * (s.x + 1) - c;
      assert (s.x + 1) * (s.x + 1) == s.x * s.x + 2 * s.x + 1;
      assert c <= n.x * n.x + n.x;
      WidestIsLast(n);
      SquareOrder(n.x, Last(n).x);
    }
  }

  lemma TargetSize(xr: nat, yr: nat)
    requires xr >= 1 && yr >= 1
    ensures Target(xr, yr) >= 1
  {
    assert (yr - 1) * (yr - 1) == yr * yr - 2 * yr + 1;
    assert (yr - 1) * (yr - 1) >= 0;
  }

  /** The half width reached is the integer nearest to the square root of the target. */
  lemma HalfWidth(xr: nat, yr: nat)
    requires xr >= 1 && yr >= 2
    ensures Rounds(Target(xr, yr), Last(Start(xr, yr)).x)
  {
    var s, c := Start(xr, yr), Target(xr, yr);
    ErrorTermStarts(xr, yr);
    TargetSize(xr, yr);
    NotTooWide(c, s);
    ErrorTermKept(c, s);
    PassProgress(s);
    WideEnough(c, Pass(s));
    assert Last(s) == Last(Pass(s));
  }

  // ---- every cursor is a rounded root ----

  /** The larger of the two offsets is the rounded root for the smaller one, on the circle
      whose squared radius is c. */
  predicate OnRim(c: int, x: int, b: int) {
    Rounds(c - Min(x, b) * Min(x, b), Max(x, b))
  }

  /** The offsets of the cursors, without the loop: the quarter of the rim, where a pixel on
      the diagonal is left out when its left neighbour is on the rim too. */
  predicate Rim(c: int, x: int, b: int) {
    0 <= x && 0 <= b && OnRim(c, x, b) && !(x == b && OnRim(c, x - 1, b))
  }

  lemma SmallSquares(x: int, b: int)
    ensures (x + 1) * (x + 1) == x * x + 2 * x + 1 && (x - 1) * (x - 1) == x * x - 2 * x + 1
    ensures (1 - b) * (1 - b) == b * b - 2 * b + 1 && (b - 1) * (b - 1) == b * b - 2 * b + 1
  {
  }

  /** From a rim offset on the steep part x moves right, on the flat part y moves up; either
      way the next cursor is on the rim. */
  lemma RimKept(c: int, s: Cursor)
    requires ErrorTerm(c, s) && s.y <= 0 && Rim(c, s.x, -s.y)
    ensures if s.y < 0 then Pass(s).y <= 0 && Rim(c, Pass(s).x, -Pass(s).y) else Pass(s).y == 1
  {
    hide Rim;
    var x, b, t := s.x, -s.y, Pass(s);
    var xx, bb := x * x, b * b;
    SmallSquares(x, b);
    assert s.err == xx + 2 * x + 1 + bb - 2 * b + 1 - c by { assert s.y + 1 == 1 - b; }
    hide ErrorTerm;
    RimBySquares(c, x, b, xx, bb);
    RimBySquares(c, t.x, -t.y, if t.x == x then xx else xx + 2 * x + 1, if t.y == s.y then bb else bb - 2 * b + 1);
  }

  lemma RimBySquares(c: int, x: int, b: int, xx: int, bb: int)
    requires xx == x * x && bb == b * b
    ensures Rim(c, x, b)
      <==> (0 <= x && 0 <= b
            && (if x <= b then bb - b < c - xx <= bb + b else xx - x < c - bb <= xx + x)
            && !(x == b && bb - b < c - (xx - 2 * x + 1) <= bb + b))
  {
    SmallSquares(x, b);
  }

  lemma {:induction false} CursorsOnRim(c: int, s: Cursor)
    requires ErrorTerm(c, s) && s.y <= 0 && Rim(c, s.x, -s.y)
    ensures forall t :: t in Trace(s) ==> t.y <= 0 && Rim(c, t.x, -t.y)
    decreases |Trace(s)|
  {
    hide ErrorTerm, Rim, Pass;
    ErrorTermKept(c, s);
    RimKept(c, s);
    if Pass(s).y <= 0 {
      CursorsOnRim(c, Pass(s));
    }
  }

  // The part of the rim above the diagonal has one offset in each column; the part below has
  // one in each row.

  lemma SteepColumn(c: int, x: int, b0: int, b: int)
    requires Rim(c, x, b0) && x < b0 && Rim(c, x, b) && b <= b0
    ensures b == b0
  {
    if b >= x {
      RootUnique(c - x * x, b, b0);
    } else {
      SquareOrder(b, x);
      BandGap(x, b0);
    }
  }

  lemma SteepRow(c: int, x0: int, x: int, b: int)
    requires Rim(c, x0, b) && x0 < b && Rim(c, x, b) && x0 < x
    ensures c > (x0 + 1) * (x0 + 1) + b * b - b && b != x0 + 1
  {
    SquareOrder(x0 + 1, x);
    SquareOrder(x0 + 1, b);
    BandGap(b, x);
  }

  lemma FlatColumn(c: int, x: int, b0: int, b: int)
    requires Rim(c, x, b0) && b0 <= x && Rim(c, x, b) && b < b0
    ensures c <= x * x + x + (b0 - 1) * (b0 - 1)
  {
    SquareOrder(b, b0 - 1);
  }

  lemma FlatRow(c: int, x0: int, x: int, b: int)
    requires Rim(c, x0, b) && b <= x0 && Rim(c, x, b) && x0 <= x
    ensures x == x0
  {
    RootUnique(c - b * b, x0, x);
  }

  /** When a pass moves right and when it climbs, on either part of the rim. */
  lemma RimMoves(c: int, s: Cursor)
    requires ErrorTerm(c, s) && s.y <= 0 && Rim(c, s.x, -s.y)
    ensures var x, b := s.x, -s.y;
      if x < b then
        && Pass(s).x == x + 1
        && (Pass(s).y == s.y || c <= (x + 1) * (x + 1) + b * b - b || b == x + 1)
      else Pass(s).x == x || c > x * x + x + (b - 1) * (b - 1)
  {
    var x, b := s.x, -s.y;
    SmallSquares(x, b);
    assert s.y + 1 == 1 - b;
  }

  /** A pass that starts short of a rim offset, on both axes, does not overshoot it. */
  lemma PassStaysShort(c: int, s: Cursor, x: int, b: int)
    requires ErrorTerm(c, s) && s.y <= 0 && Rim(c, s.x, -s.y) && Rim(c, x, b)
    requires s.x <= x && b <= -s.y && !(s.x == x && b == -s.y)
    ensures Pass(s).x <= x && b <= -Pass(s).y
  {
    PassProgress(s);
    RimMoves(c, s);
    hide ErrorTerm, Rim, Pass;
    if s.x < -s.y {
      if s.x == x {
        SteepColumn(c, x, -s.y, b);
      } else if b == -s.y {
        SteepRow(c, s.x, x, b);
      }
    } else {
      if s.x == x {
        FlatColumn(c, x, -s.y, b);
      } else if b == -s.y {
        FlatRow(c, s.x, x, b);
      }
    }
  }

  lemma {:induction false} RimReached(c: int, s: Cursor, x: int, b: int)
    requires ErrorTerm(c, s) && s.y <= 0 && Rim(c, s.x, -s.y) && Rim(c, x, b)
    requires s.x <= x && b <= -s.y
    ensures exists t :: t in Trace(s) && t.x == x && t.y == -b
    decreases |Trace(s)|
  {
    hide ErrorTerm, Rim, Pass;
    if s.x == x && b == -s.y {
      assert s in Trace(s);
    } else {
      RimBounds(c, x, b);
      PassStaysShort(c, s, x, b);
      ErrorTermKept(c, s);
      RimKept(c, s);
      assert Pass(s).y <= 0;
      RimReached(c, Pass(s), x, b);
      var t :| t in Trace(Pass(s)) && t.x == x && t.y == -b;
      assert t in Trace(s);
    }
  }

  lemma RimBounds(c: int, x: int, b: int)
    requires Rim(c, x, b)
    ensures x >= 0 && b >= 0
  {
  }

  lemma RimStarts(xr: int, yr: int)
    ensures OnRim(Target(xr, yr), 0, yr) <==> yr < 2 * xr <= 3 * yr
    ensures yr < 2 * xr <= 3 * yr ==> Rim(Target(xr, yr), 0, yr)
  {
  }

  /** The cursors of the loop, without the loop: for YRadius < 2 XRadius <= 3 YRadius they are
      exactly the offsets of the rim. */
  lemma CursorsAreRim(xr: int, yr: int, x: int, b: int)
    requires yr < 2 * xr <= 3 * yr
    ensures (exists t :: t in Trace(Start(xr, yr)) && t.x == x && t.y == -b) <==> Rim(Target(xr, yr), x, b)
  {
    hide Rim, OnRim, ErrorTerm, Target, Trace;
    var s, c := Start(xr, yr), Target(xr, yr);
    ErrorTermStarts(xr, yr);
    RimStarts(xr, yr);
    CursorsOnRim(c, s);
    if Rim(c, x, b) {
      RimInBox(xr, yr, x, b);
      RimReached(c, s, x, b);
    }
  }

  lemma RimInBox(xr: int, yr: int, x: int, b: int)
    requires yr < 2 * xr <= 3 * yr && Rim(Target(xr, yr), x, b)
    ensures 0 <= x <= yr && 0 <= b <= yr
  {
    BandGap(yr, Max(x, b));
    assert Min(x, b) * Min(x, b) >= 0;
  }

  /** Every cursor is a rounded root, as on a circle whose squared radius is the target, if and
      only if YRadius < 2 XRadius <= 3 YRadius. */
  lemma CursorsAreRounded(xr: int, yr: int)
    ensures (forall t :: t in Trace(Start(xr, yr)) ==> OnRim(Target(xr, yr), t.x, -t.y)) <==> yr < 2 * xr <= 3 * yr
  {
    var s := Start(xr, yr);
    RimStarts(xr, yr);
    assert s in Trace(s);
    if yr < 2 * xr <= 3 * yr {
      ErrorTermStarts(xr, yr);
      CursorsOnRim(Target(xr, yr), s);
    }
  }

  // ---- the cursors for every pair of radii ----

  /** Some cursor of the loop, from s on, is at x in row b above the middle. */
  ghost predicate Reaches(s: Cursor, x: int, b: int) {
    exists t :: t in Trace(s) && t.x == x && t.y == -b
  }

  lemma Unroll(s: Cursor, x: int, b: int)
    ensures Reaches(s, x, b) <==> (s.x == x && -s.y == b) || (Pass(s).y <= 0 && Reaches(Pass(s), x, b))
  {
    hide Pass;
    assert s in Trace(s);
    if Pass(s).y <= 0 {
      if t :| t in Trace(Pass(s)) && t.x == x && t.y == -b {
        assert t in Trace(s);
      }
      if t :| t in Trace(s) && t.x == x && t.y == -b {
        assert t == s || t in Trace(Pass(s));
      }
    }
  }

  lemma ReachedFromRim(c: int, s: Cursor, x: int, b: int)
    requires ErrorTerm(c, s) && s.y <= 0 && Rim(c, s.x, -s.y)
    ensures Reaches(s, x, b) <==> Rim(c, x, b) && s.x <= x && b <= -s.y
  {
    hide ErrorTerm, Rim, Trace, Pass;
    CursorsOnRim(c, s);
    WidestIsLast(s);
    TraceRows(s);
    if Rim(c, x, b) && s.x <= x && b <= -s.y {
      RimReached(c, s, x, b);
    }
  }

  /** x is short of the rim in row b, so that the loop stays in the row: a row is left with the
      last such x. */
  predicate InRow(c: int, x: int, b: int) {
    x * x < c - b * b + b
  }

  lemma InRowBefore(c: int, x: int, y: int, b: int)
    requires 0 <= x <= y && InRow(c, y, b)
    ensures InRow(c, x, b)
  {
    SquareOrder(x, y);
  }

  /** In the top row x moves right until the row is left or the diagonal is met. */
  lemma TopStep(c: int, s: Cursor)
    requires ErrorTerm(c, s) && s.y < 0 && s.x < -s.y && InRow(c, s.x, -s.y)
    ensures Pass(s).x == s.x + 1
    ensures Pass(s).y == if s.x + 1 < -s.y && InRow(c, s.x + 1, -s.y) then s.y else s.y + 1
  {
    SmallSquares(s.x, -s.y);
    assert s.y + 1 == 1 - (-s.y);
  }

  lemma {:induction false} TopRow(c: int, s: Cursor, x: int, b: int) returns (e: Cursor)
    requires ErrorTerm(c, s) && s.y < 0 && s.x < -s.y && InRow(c, s.x, -s.y)
    ensures ErrorTerm(c, e) && e.y == s.y + 1 && s.x < e.x <= -s.y && InRow(c, e.x - 1, -s.y)
    ensures e.x == -s.y || !InRow(c, e.x, -s.y)
    ensures Reaches(s, x, b) <==> (b == -s.y && s.x <= x < e.x) || Reaches(e, x, b)
    decreases -s.y - s.x
  {
    hide ErrorTerm, InRow, Pass, Reaches;
    TopStep(c, s);
    ErrorTermKept(c, s);
    Unroll(s, x, b);
    if Pass(s).y == s.y {
      e := TopRow(c, Pass(s), x, b);
    } else {
      e := Pass(s);
    }
  }

  /** Past the diagonal the loop leaves a row when the next x would be off it, and is then on the
      rim. */
  lemma FlatStep(c: int, s: Cursor)
    requires ErrorTerm(c, s) && s.y <= 0 && s.x > -s.y && InRow(c, s.x, -s.y)
    ensures Pass(s).y == if InRow(c, s.x + 1, -s.y) then s.y else s.y + 1
    ensures InRow(c, s.x + 1, -s.y) ==> Pass(s).x == s.x + 1
    ensures s.y < 0 && !InRow(c, s.x + 1, -s.y) ==> Rim(c, Pass(s).x, -Pass(s).y) && Pass(s).x > -Pass(s).y
  {
    SmallSquares(s.x, -s.y);
    SmallSquares(s.x + 1, -s.y - 1);
    assert s.y + 1 == 1 - (-s.y);
  }

  lemma {:induction false} OuterRow(c: int, s: Cursor, x: int, b: int) returns (e: Cursor)
    requires ErrorTerm(c, s) && s.y <= 0 && s.x > -s.y && InRow(c, s.x, -s.y)
    ensures ErrorTerm(c, e) && e.y == s.y + 1
    ensures s.y < 0 ==> Rim(c, e.x, -e.y) && e.x > -e.y
    ensures Reaches(s, x, b)
      <==> (b == -s.y && s.x <= x && InRow(c, x, b)) || (s.y < 0 && Reaches(e, x, b))
    decreases |Trace(s)|
  {
    hide ErrorTerm, InRow, Pass, Reaches, Rim, Trace;
    TrailShrinks(s);
    FlatStep(c, s);
    ErrorTermKept(c, s);
    Unroll(s, x, b);
    if InRow(c, s.x + 1, -s.y) {
      e := OuterRow(c, Pass(s), x, b);
    } else {
      e := Pass(s);
      if b == -s.y && s.x < x && InRow(c, x, b) {
        InRowBefore(c, s.x + 1, x, b);
      }
    }
  }

  lemma TrailShrinks(s: Cursor)
    ensures Pass(s).y <= 0 ==> |Trace(Pass(s))| < |Trace(s)|
  {
    hide Pass;
  }

  /** The offsets drawn for every pair of radii, without the loop.  A tall ellipse starts above
      the rim and steps onto it; a wide one follows the top row until it meets the rim; one wider
      than that meets the diagonal first, and then follows the next row. */
  predicate Drawn(xr: int, yr: int, x: int, b: int) {
    var c := Target(xr, yr);
    if 2 * xr <= yr then (x == 0 && b == yr) || (x >= 1 && Rim(c, x, b)) || (xr == 1 && yr == 2 && x == b == 1)
    else if 2 * xr <= 3 * yr then Rim(c, x, b)
    else if b == yr then 0 <= x < yr && InRow(c, x, yr)
    else if 2 * xr <= yr * (yr + 1) then b < yr && Rim(c, x, b)
    else (b == yr - 1 && x >= yr && InRow(c, x, b)) || (b < yr - 1 && Rim(c, x, b))
  }

  lemma TallEntry(xr: nat, yr: nat)
    requires xr >= 1 && 2 * xr <= yr
    ensures Pass(Start(xr, yr)).x == 1 && Pass(Start(xr, yr)).y == 1 - yr
    ensures yr >= 3 ==> Rim(Target(xr, yr), 1, yr - 1)
  {
    SmallSquares(1, yr);
    SmallSquares(1, yr - 1);
  }

  lemma TallRim(xr: nat, yr: nat, x: int, b: int)
    requires xr >= 1 && 2 * xr <= yr && x >= 1 && Rim(Target(xr, yr), x, b)
    ensures b <= yr - 1
  {
    var m, n := Max(x, b), Min(x, b);
    SmallSquares(yr, yr);
    BandGap(yr - 1, m);
    SquareOrder(0, n);
  }

  lemma TallCursors(xr: nat, yr: nat, x: int, b: int)
    requires xr >= 1 && 3 <= yr && 2 * xr <= yr
    ensures Reaches(Start(xr, yr), x, b) <==> Drawn(xr, yr, x, b)
  {
    hide Pass, ErrorTerm, Rim, Target, Reaches;
    var s, c := Start(xr, yr), Target(xr, yr);
    TallEntry(xr, yr);
    ErrorTermStarts(xr, yr);
    ErrorTermKept(c, s);
    Unroll(s, x, b);
    ReachedFromRim(c, Pass(s), x, b);
    if x >= 1 && Rim(c, x, b) {
      TallRim(xr, yr, x, b);
    }
  }

  lemma NoOtherOffset(x: int, b: int)
    requires x >= 1 && b >= 1
    ensures !Rim(2, x, b)
  {
    BandGap(1, Max(x, b));
    SquareOrder(1, Min(x, b));
  }

  /** The smallest tall ellipse misses the rim at its first step. */
  lemma OneByTwoCursors(x: int, b: int)
    ensures Reaches(Start(1, 2), x, b) <==> Drawn(1, 2, x, b)
  {
    var s := Start(1, 2);
    var t := Pass(s);
    var u := Pass(t);
    assert t == Cursor(1, -1, 2) && u == Cursor(1, 0, 3);
    assert Rim(2, 1, 0) && ErrorTerm(2, u);
    if x >= 1 && b >= 1 {
      NoOtherOffset(x, b);
    }
    hide Rim, Reaches, Pass, ErrorTerm;
    Unroll(s, x, b);
    Unroll(t, x, b);
    ReachedFromRim(2, u, x, b);
  }

  lemma WideEntry(c: int, x: int, yr: int)
    requires 0 <= x < yr && InRow(c, x, yr) && !InRow(c, x + 1, yr) && c <= 2 * yr * yr - yr
    ensures Rim(c, x + 1, yr - 1)
  {
    SmallSquares(x, yr);
    if x + 1 == yr - 1 { SmallSquares(x + 1, x + 1); }
    assert 2 * yr * yr == 2 * (yr * yr);
  }

  /** Below the top row no rim offset lies to the left of where the top row is left. */
  lemma WideRim(c: int, x0: int, yr: int, x: int, b: int)
    requires 0 <= x0 < yr && InRow(c, x0, yr) && Rim(c, x, b) && b <= yr - 1
    ensures x > x0
  {
    if x <= x0 {
      SquareOrder(x, x0);
      SquareOrder(b, yr - 1);
      SmallSquares(x0, yr);
      SquareOrder(x, yr - 1);
      if x >= b {
        SquareOrder(b, x);
      }
    }
  }

  lemma WideFacts(xr: nat, yr: nat)
    requires yr >= 1 && 3 * yr < 2 * xr <= yr * (yr + 1)
    ensures var c := Target(xr, yr); InRow(c, 0, yr) && !InRow(c, yr, yr) && c <= 2 * yr * yr - yr
  {
    assert yr * (yr + 1) == yr * yr + yr && 2 * yr * yr == 2 * (yr * yr);
  }

  lemma WideCursors(xr: nat, yr: nat, x: int, b: int)
    requires yr >= 1 && 3 * yr < 2 * xr <= yr * (yr + 1)
    ensures Reaches(Start(xr, yr), x, b) <==> Drawn(xr, yr, x, b)
  {
    var s, c := Start(xr, yr), Target(xr, yr);
    ErrorTermStarts(xr, yr);
    WideFacts(xr, yr);
    hide ErrorTerm, Rim, Target, Reaches, Pass, InRow;
    var e := TopRow(c, s, x, b);
    WideEntry(c, e.x - 1, yr);
    ReachedFromRim(c, e, x, b);
    if Rim(c, x, b) && b <= yr - 1 {
      WideRim(c, e.x - 1, yr, x, b);
    }
    RowsOrdered(c, e.x, yr, x);
  }

  lemma RowsOrdered(c: int, end: int, b: int, x: int)
    requires 0 < end <= b && InRow(c, end - 1, b) && (end == b || !InRow(c, end, b))
    ensures 0 <= x ==> (x < end <==> x < b && InRow(c, x, b))
  {
    if 0 <= x < end {
      InRowBefore(c, x, end - 1, b);
    } else if end <= x < b && InRow(c, x, b) {
      InRowBefore(c, end, x, b);
    }
  }

  /** No rim offset at or below the row of a flat one lies to its left. */
  lemma FlatRim(c: int, x0: int, b0: int, x: int, b: int)
    requires Rim(c, x0, b0) && b0 < x0 && Rim(c, x, b) && b <= b0
    ensures x0 <= x
  {
    if x < x0 {
      SquareOrder(b, b0);
      SquareOrder(x, x0 - 1);
      SquareOrder(b0, x0 - 1);
      SmallSquares(x0, b0);
      if x < b {
        SquareOrder(x, b);
      }
    }
  }

  lemma VeryWideFacts(xr: nat, yr: nat)
    requires yr >= 1 && 2 * xr > 3 * yr && 2 * xr > yr * (yr + 1)
    ensures var c := Target(xr, yr); InRow(c, 0, yr) && InRow(c, yr, yr) && InRow(c, yr, yr - 1)
  {
    assert yr * (yr + 1) == yr * yr + yr;
    SmallSquares(yr, yr);
  }

  lemma VeryWideCursors(xr: nat, yr: nat, x: int, b: int)
    requires yr >= 1 && 2 * xr > 3 * yr && 2 * xr > yr * (yr + 1)
    ensures Reaches(Start(xr, yr), x, b) <==> Drawn(xr, yr, x, b)
  {
    hide ErrorTerm, Rim, Target, Reaches, Pass, InRow;
    var s, c := Start(xr, yr), Target(xr, yr);
    ErrorTermStarts(xr, yr);
    VeryWideFacts(xr, yr);
    var e := TopRow(c, s, x, b);
    if e.x < yr {
      InRowBefore(c, e.x, yr, yr);
    }
    InRowBefore(c, yr - 1, yr, yr);
    RowsOrdered(c, yr, yr, x);
    var f := OuterRow(c, e, x, b);
    if yr >= 2 {
      ReachedFromRim(c, f, x, b);
      if Rim(c, x, b) && b <= yr - 2 {
        FlatRim(c, f.x, yr - 2, x, b);
      }
    }
    RimIsAbove(c, x, b);
  }

  lemma RimIsAbove(c: int, x: int, b: int)
    ensures Rim(c, x, b) ==> x >= 0 && b >= 0
  {
  }

  /** The cursors of the loop, without the loop, for every pair of radii. */
  lemma CursorsAreDrawn(xr: nat, yr: nat, x: int, b: int)
    requires xr >= 1 && yr >= 1
    ensures Reaches(Start(xr, yr), x, b) <==> Drawn(xr, yr, x, b)
  {
    hide Reaches, Drawn;
    if 2 * xr <= yr {
      if yr == 2 {
        OneByTwoCursors(x, b);
      } else {
        TallCursors(xr, yr, x, b);
      }
    } else if 2 * xr <= 3 * yr {
      MiddleCursors(xr, yr, x, b);
    } else if 2 * xr <= yr * (yr + 1) {
      WideCursors(xr, yr, x, b);
    } else {
      VeryWideCursors(xr, yr, x, b);
    }
  }

  lemma MiddleCursors(xr: nat, yr: nat, x: int, b: int)
    requires yr < 2 * xr <= 3 * yr
    ensures Reaches(Start(xr, yr), x, b) <==> Drawn(xr, yr, x, b)
  {
    hide Trace, Rim;
    CursorsAreRim(xr, yr, x, b);
  }

  /** scale is the conversion to an integer of a quotient less than half a pixel away from the
      exact x * XRadius / YRadius, for every x the loop reaches: floating-point rounding is far
      smaller than that. */
  ghost predicate NearQuotient(xr: nat, yr: nat, scale: nat -> nat) {
    forall x: nat :: x <= Last(Start(xr, yr)).x ==> 2 * x * xr - 3 * yr < 2 * yr * scale(x) < 2 * x * xr + yr
  }

  lemma OffsetOrder(xr: nat, yr: nat, scale: nat -> nat, x: nat)
    requires yr >= 1 && NearQuotient(xr, yr, scale) && x <= Last(Start(xr, yr)).x
    ensures x <= yr ==> scale(x) <= xr
    ensures x > yr && (2 * xr > 3 * yr || (yr == 1 && xr >= 3)) ==> scale(x) > xr
  {
    hide Last;
    var r := scale(x);
    assert 2 * x * xr == 2 * (x * xr) && 2 * yr * r == 2 * (yr * r);
    assert (xr + 1) * yr == xr * yr + yr && (yr + 1) * xr == yr * xr + xr;
    if x <= yr && r > xr {
      MulMono(x, yr, xr);
      MulMono(xr + 1, r, yr);
    } else if x > yr && 2 * xr > 3 * yr && r <= xr {
      MulMono(yr + 1, x, xr);
      MulMono(r, xr, yr);
    }
  }

  /** The exact quotient, cut to 16 bits as the code does, is such a conversion for every ellipse
      whose half width fits in 16 bits. */
  lemma CutQuotientIsNear(xr: nat, yr: nat)
    requires yr >= 1 && Last(Start(xr, yr)).x * xr / yr < 0x1_0000
    ensures NearQuotient(xr, yr, x => ToUint16(x * xr / yr))
  {
    hide Last;
    var w := Last(Start(xr, yr)).x;
    forall x: nat | x <= w
      ensures 2 * x * xr - 3 * yr < 2 * yr * ToUint16(x * xr / yr) < 2 * x * xr + yr
    {
      MulMono(x, w, xr);
      QuotientMono(x * xr, w * xr, yr);
      ExactQuotient(x * xr, yr);
      assert 2 * x * xr == 2 * (x * xr);
    }
  }

  lemma ExactQuotient(a: nat, d: nat)
    requires d >= 1
    ensures a / d >= 0 && 2 * a - 3 * d < 2 * d * (a / d) < 2 * a + d
  {
    var q := a / d;
    assert a == q * d + a % d;
    assert 2 * d * q == 2 * (q * d);
  }

  /** The half width is exactly YRadius, so that the drawn ellipse just touches its box,
      if and only if YRadius < 2 XRadius <= 3 YRadius. */
  lemma TouchesBox(xr: nat, yr: nat)
    requires xr >= 1 && yr >= 2
    ensures Last(Start(xr, yr)).x == yr <==> yr < 2 * xr <= 3 * yr
    ensures Last(Start(xr, yr)).x <= yr <==> 2 * xr <= 3 * yr
  {
    HalfWidth(xr, yr);
    var w := Last(Start(xr, yr)).x;
    BandGap(w, yr);
    BandGap(yr, w);
  }

  lemma FlatEllipse(xr: nat)
    requires xr >= 1
    ensures Last(Start(xr, 1)).x <= 1 <==> xr <= 2
  {
    var s := Start(xr, 1);
    var t := Pass(s);
    assert t == Cursor(1, 0, 6 - 2 * xr);
    assert Last(s) == Last(t);
    if xr <= 2 {
      assert Pass(t).y == 1;
    } else {
      assert Pass(t).y == 0 && Pass(t).x == 2;
      assert Last(t) == Last(Pass(t));
      WidestIsLast(Pass(t));
    }
  }

  /** Every horizontal offset drawn stays within XRadius if and only if the ellipse is at
      most one and a half times as wide as high (or is the 2 by 1 one).  Wider ellipses
      run out of the box their radii ask for. */
  lemma StaysInBox(xr: nat, yr: nat, scale: nat -> nat)
    requires xr >= 1 && yr >= 1 && NearQuotient(xr, yr, scale)
    ensures (forall t :: t in Trace(Start(xr, yr)) ==> scale(t.x) <= xr)
      <==> 2 * xr <= 3 * yr || (xr == 2 && yr == 1)
  {
    hide NearQuotient, Trace;
    var s := Start(xr, yr);
    WidestIsLast(s);
    if yr == 1 {
      FlatEllipse(xr);
    } else {
      TouchesBox(xr, yr);
    }
    OffsetOrder(xr, yr, scale, Last(s).x);
    hide Last;
    if Last(s).x <= yr {
      forall t | t in Trace(s)
        ensures scale(t.x) <= xr
      {
        OffsetOrder(xr, yr, scale, t.x);
      }
    } else {
      assert scale(Last(s).x) > xr;
    }
  }

  // ---- the pixels of an ellipse ----

  /** p is drawn for one of the cursors ts: in its row, at (or, when filled, up to) its offset. */
  ghost predicate OnEllipse(c: Pt, scale: nat -> nat, ts: seq<Cursor>, filled: bool, p: Pt) {
    exists t :: t in ts && Abs(p.y - c.y) == Abs(t.y) &&
      (Abs(p.x - c.x) == scale(t.x) || (filled && Abs(p.x - c.x) < scale(t.x)))
  }

  ghost function EllipsePixels(c: Pt, scale: nat -> nat, ts: seq<Cursor>, filled: bool): iset<Pt> {
    iset p: Pt | OnEllipse(c, scale, ts, filled, p)
  }

  /** FillEllipse leaves no row empty: the middle pixel of every row of the ellipse is painted. */
  lemma EllipseRowsFilled(c: Pt, scale: nat -> nat, xr: int, yr: nat, row: int)
    requires Abs(row) <= yr
    ensures Pt(c.x, c.y + row) in EllipsePixels(c, scale, Trace(Start(xr, yr)), true)
  {
    RowsCovered(Start(xr, yr), -Abs(row));
    var t :| t in Trace(Start(xr, yr)) && t.y == -Abs(row);
    assert OnEllipse(c, scale, Trace(Start(xr, yr)), true, Pt(c.x, c.y + row));
  }

  /** The cursor of a row that reaches furthest out. */
  lemma {:induction false} FurthestInRow(ts: seq<Cursor>, scale: nat -> nat, y: int) returns (t: Cursor)
    requires exists u :: u in ts && u.y == y
    ensures t in ts && t.y == y && forall u :: u in ts && u.y == y ==> scale(u.x) <= scale(t.x)
  {
    if u :| u in ts[1..] && u.y == y {
      t := FurthestInRow(ts[1..], scale, y);
      if ts[0].y == y && scale(ts[0].x) > scale(t.x) {
        t := ts[0];
      }
    } else {
      t := ts[0];
    }
    assert ts == [ts[0]] + ts[1..];
  }

  /** Every row of the filled ellipse, from top to bottom, is one unbroken span, centred, that
      begins and ends on pixels of the outline; no other row is touched. */
  lemma EllipseRow(c: Pt, scale: nat -> nat, xr: int, yr: nat, row: int) returns (w: nat)
    ensures Abs(row) <= yr ==>
      && (forall p: Pt :: p.y == c.y + row ==>
            (p in EllipsePixels(c, scale, Trace(Start(xr, yr)), true) <==> c.x - w <= p.x <= c.x + w))
      && Pt(c.x - w, c.y + row) in EllipsePixels(c, scale, Trace(Start(xr, yr)), false)
      && Pt(c.x + w, c.y + row) in EllipsePixels(c, scale, Trace(Start(xr, yr)), false)
    ensures Abs(row) > yr ==>
      forall p: Pt :: p.y == c.y + row ==> p !in EllipsePixels(c, scale, Trace(Start(xr, yr)), true)
  {
    hide Trace, OnEllipse;
    var ts := Trace(Start(xr, yr));
    TraceRows(Start(xr, yr));
    w := 0;
    if Abs(row) <= yr {
      RowsCovered(Start(xr, yr), -Abs(row));
      w := RowSpan(c, scale, ts, row);
    } else {
      forall p: Pt | p.y == c.y + row
        ensures !OnEllipse(c, scale, ts, true, p)
      {
        OutsideRows(c, scale, ts, p);
      }
    }
  }

  lemma OutsideRows(c: Pt, scale: nat -> nat, ts: seq<Cursor>, p: Pt)
    requires forall t :: t in ts ==> Abs(t.y) != Abs(p.y - c.y)
    ensures !OnEllipse(c, scale, ts, true, p)
  {
  }

  lemma RowSpan(c: Pt, scale: nat -> nat, ts: seq<Cursor>, row: int) returns (w: nat)
    requires exists t :: t in ts && t.y == -Abs(row)
    requires forall t :: t in ts ==> t.y <= 0
    ensures forall p: Pt :: p.y == c.y + row ==>
      (p in EllipsePixels(c, scale, ts, true) <==> c.x - w <= p.x <= c.x + w)
    ensures Pt(c.x - w, c.y + row) in EllipsePixels(c, scale, ts, false)
    ensures Pt(c.x + w, c.y + row) in EllipsePixels(c, scale, ts, false)
  {
    var t := FurthestInRow(ts, scale, -Abs(row));
    w := scale(t.x);
    assert OnEllipse(c, scale, ts, false, Pt(c.x - w, c.y + row));
    assert OnEllipse(c, scale, ts, false, Pt(c.x + w, c.y + row));
    forall p: Pt | p.y == c.y + row
      ensures OnEllipse(c, scale, ts, true, p) <==> c.x - w <= p.x <= c.x + w
    {
      if OnEllipse(c, scale, ts, true, p) {
        var u :| u in ts && Abs(row) == Abs(u.y) && Abs(p.x - c.x) <= scale(u.x);
        assert u.y == -Abs(row);
      }
    }
  }

  /** Outline and fill are mirror images of themselves, left to right and top to bottom, and the
      outline is part of the fill. */
  lemma EllipseSymmetric(c: Pt, scale: nat -> nat, ts: seq<Cursor>, filled: bool, p: Pt)
    ensures p in EllipsePixels(c, scale, ts, filled) <==> Pt(2 * c.x - p.x, p.y) in EllipsePixels(c, scale, ts, filled)
    ensures p in EllipsePixels(c, scale, ts, filled) <==> Pt(p.x, 2 * c.y - p.y) in EllipsePixels(c, scale, ts, filled)
    ensures p in EllipsePixels(c, scale, ts, false) ==> p in EllipsePixels(c, scale, ts, true)
  {
    assert Abs(2 * c.x - p.x - c.x) == Abs(p.x - c.x) && Abs(2 * c.y - p.y - c.y) == Abs(p.y - c.y);
    hide Abs;
  }

  lemma EllipseGrows(c: Pt, scale: nat -> nat, ts: seq<Cursor>, t: Cursor, filled: bool)
    ensures forall p ::
      (OnEllipse(c, scale, ts + [t], filled, p)
       <==> OnEllipse(c, scale, ts, filled, p) || OnEllipse(c, scale, [t], filled, p))
    ensures forall p ::
      (OnEllipse(c, scale, [t], filled, p)
       <==> Abs(p.y - c.y) == Abs(t.y) &&
            (Abs(p.x - c.x) == scale(t.x) || (filled && Abs(p.x - c.x) < scale(t.x))))
  {
    forall p
      ensures OnEllipse(c, scale, [t], filled, p)
        <==> Abs(p.y - c.y) == Abs(t.y) &&
             (Abs(p.x - c.x) == scale(t.x) || (filled && Abs(p.x - c.x) < scale(t.x)))
    {
      assert t in [t];
    }
    forall p
      ensures OnEllipse(c, scale, ts + [t], filled, p)
        <==> OnEllipse(c, scale, ts, filled, p) || OnEllipse(c, scale, [t], filled, p)
    {
      assert forall u :: u in ts + [t] <==> u in ts || u in [t];
    }
  }

  /** Every pixel of the ellipse, filled or not, lies in the box its radii ask for if and only
      if the ellipse is at most one and a half times as wide as high (or is the 2 by 1 one),
      however the quotient x / k is rounded. */
  lemma EllipseInBox(c: Pt, xr: nat, yr: nat, scale: nat -> nat, filled: bool)
    requires xr >= 1 && yr >= 1 && NearQuotient(xr, yr, scale)
    ensures (forall p :: p in EllipsePixels(c, scale, Trace(Start(xr, yr)), filled)
                         ==> Abs(p.x - c.x) <= xr && Abs(p.y - c.y) <= yr)
      <==> 2 * xr <= 3 * yr || (xr == 2 && yr == 1)
  {
    hide Trace, NearQuotient;
    var ts := Trace(Start(xr, yr));
    StaysInBox(xr, yr, scale);
    TraceRows(Start(xr, yr));
    if t :| t in ts && scale(t.x) > xr {
      var p := Pt(c.x + scale(t.x), c.y + t.y);
      assert OnEllipse(c, scale, ts, filled, p);
      assert p in EllipsePixels(c, scale, ts, filled);
    } else {
      forall p | p in EllipsePixels(c, scale, ts, filled)
        ensures Abs(p.x - c.x) <= xr && Abs(p.y - c.y) <= yr
      {
        var t :| t in ts && Abs(p.y - c.y) == Abs(t.y) &&
          (Abs(p.x - c.x) == scale(t.x) || (filled && Abs(p.x - c.x) < scale(t.x)));
        assert scale(t.x) <= xr;
      }
    }
  }

  /** The pixels of an ellipse without the loop: in the row of each drawn offset, at (or, when
      filled, up to) its scaled column. */
  ghost function DrawnPixels(c: Pt, scale: nat -> nat, xr: int, yr: int, filled: bool): iset<Pt> {
    iset p: Pt |
      (exists x: nat :: Drawn(xr, yr, x, Abs(p.y - c.y)) &&
        (Abs(p.x - c.x) == scale(x) || (filled && Abs(p.x - c.x) < scale(x))))
  }

  /** What the ellipse functions paint, for every pair of radii. */
  lemma EllipseIsDrawn(c: Pt, scale: nat -> nat, xr: nat, yr: nat, filled: bool)
    requires xr >= 1 && yr >= 1
    ensures EllipsePixels(c, scale, Trace(Start(xr, yr)), filled) == DrawnPixels(c, scale, xr, yr, filled)
  {
    hide Trace, Drawn;
    var ts := Trace(Start(xr, yr));
    TraceRows(Start(xr, yr));
    forall p
      ensures p in EllipsePixels(c, scale, ts, filled) <==> p in DrawnPixels(c, scale, xr, yr, filled)
    {
      var b := Abs(p.y - c.y);
      if p in EllipsePixels(c, scale, ts, filled) {
        var t :| t in ts && Abs(p.y - c.y) == Abs(t.y) &&
          (Abs(p.x - c.x) == scale(t.x) || (filled && Abs(p.x - c.x) < scale(t.x)));
        CursorsAreDrawn(xr, yr, t.x, b);
        assert Drawn(xr, yr, t.x, b);
      }
      if p in DrawnPixels(c, scale, xr, yr, filled) {
        var x: nat :| Drawn(xr, yr, x, b) &&
          (Abs(p.x - c.x) == scale(x) || (filled && Abs(p.x - c.x) < scale(x)));
        CursorsAreDrawn(xr, yr, x, b);
        var t :| t in ts && t.x == x && t.y == -b;
        assert OnEllipse(c, scale, ts, filled, p);
      }
    }
  }

  /** p is one of the four pixels at the offsets d and b from c. */
  predicate Corner(c: Pt, d: int, b: int, p: Pt) {
    (p.x == c.x + d || p.x == c.x - d) && (p.y == c.y + b || p.y == c.y - b)
  }

  lemma DrawnAtCorner(c: Pt, scale: nat -> nat, xr: nat, yr: nat, p: Pt) returns (x: nat, b: nat)
    requires p in DrawnPixels(c, scale, xr, yr, false)
    ensures Drawn(xr, yr, x, b) && Corner(c, scale(x), b, p)
  {
    hide Drawn;
    b := Abs(p.y - c.y);
    x :| Drawn(xr, yr, x, b) && Abs(p.x - c.x) == scale(x);
  }

  lemma CornerIsDrawn(c: Pt, scale: nat -> nat, xr: nat, yr: nat, p: Pt, x: nat, b: nat)
    requires Drawn(xr, yr, x, b) && Corner(c, scale(x), b, p)
    ensures p in DrawnPixels(c, scale, xr, yr, false)
  {
    hide Drawn;
    assert Abs(p.y - c.y) == b && Abs(p.x - c.x) == scale(x);
  }

  /** The outline is the four corners of every drawn offset, and nothing else. */
  lemma EllipseOutline(c: Pt, scale: nat -> nat, xr: nat, yr: nat, p: Pt)
    requires xr >= 1 && yr >= 1
    ensures p in EllipsePixels(c, scale, Trace(Start(xr, yr)), false)
      <==> exists x: nat, b: nat :: Drawn(xr, yr, x, b) && Corner(c, scale(x), b, p)
  {
    hide *;
    EllipseIsDrawn(c, scale, xr, yr, false);
    if p in DrawnPixels(c, scale, xr, yr, false) {
      var x, b := DrawnAtCorner(c, scale, xr, yr, p);
    }
    if x: nat, b: nat :| Drawn(xr, yr, x, b) && Corner(c, scale(x), b, p) {
      CornerIsDrawn(c, scale, xr, yr, p, x, b);
    }
  }
}
