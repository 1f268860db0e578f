/** The filled circle: the row-wise hull of the outline, and how round it is. */
module DiscGeometry {
  import opened Geometry
  import opened CircleGeometry
  import opened CircleCurve

  /** (dx, dy) lies between two outline offsets of its own row. */
  ghost predicate InDisc(R: nat, dx: int, dy: int) {
    exists e: nat :: Abs(dx) <= e && Outline(R, e, dy)
  }

  ghost function DiscPixels(c: Pt, R: nat): iset<Pt> {
    iset p: Pt | InDisc(R, p.x - c.x, p.y - c.y)
  }

  /** The half-open spans drawn by the first n passes: the right-hand outline pixel of each
      row is missing until the outline itself is drawn. */
  ghost predicate InSpans(R: nat, n: int, dx: int, dy: int) {
    exists e: nat :: -dx <= e && dx < e && Outline(R, e, dy) && Min(e, Abs(dy)) < n
  }

  ghost function SpanPixels(c: Pt, R: nat, n: int): iset<Pt> {
    iset p: Pt | InSpans(R, n, p.x - c.x, p.y - c.y)
  }

  /** The four rows one pass of the loop fills. */
  ghost function PassRows(c: Pt, x: int, y: int): iset<Pt> {
    Rect(c.x - y, c.y + x, 2 * y, 1) + Rect(c.x - y, c.y - x, 2 * y, 1)
    + Rect(c.x - x, c.y - y, 2 * x, 1) + Rect(c.x - x, c.y + y, 2 * x, 1)
  }

  lemma SpansGrow(c: Pt, R: nat, x: int, y: int)
    requires Octant(R, x, y)
    ensures SpanPixels(c, R, x) + PassRows(c, x, y) == SpanPixels(c, R, x + 1)
  {
    hide InSpans, PassRows, Band;
    forall p: Pt
      ensures InSpans(R, x + 1, p.x - c.x, p.y - c.y)
        <==> InSpans(R, x, p.x - c.x, p.y - c.y) || p in PassRows(c, x, y)
    {
      SpanStep(R, x, y, p.x - c.x, p.y - c.y);
      InPassRows(c, x, y, p);
    }
  }

  lemma InPassRows(c: Pt, x: int, y: int, p: Pt)
    requires x >= 0 && y >= 0
    ensures var dx, dy := p.x - c.x, p.y - c.y;
      p in PassRows(c, x, y) <==> (Abs(dy) == x && -y <= dx < y) || (Abs(dy) == y && -x <= dx < x)
  {
  }

  /** One more octant column adds the row ends of its mirror images and nothing else. */
  lemma SpanStep(R: nat, x: int, y: int, dx: int, dy: int)
    requires Octant(R, x, y)
    ensures InSpans(R, x + 1, dx, dy)
      <==> InSpans(R, x, dx, dy) || (Abs(dy) == x && -y <= dx < y) || (Abs(dy) == y && -x <= dx < x)
  {
    if e: nat :| -dx <= e && dx < e && Outline(R, e, dy) && Min(e, Abs(dy)) < x + 1 {
      if Min(e, Abs(dy)) == x {
        BandUnique(R, x, y, Max(e, Abs(dy)));
      }
    }
    if Abs(dy) == x && -y <= dx < y {
      assert Outline(R, y, dy);
    }
    if Abs(dy) == y && -x <= dx < x {
      assert Outline(R, x, dy);
    }
  }

  lemma SpansAtExit(c: Pt, R: nat, x: int, y: int, d: int)
    requires Head(R, x, y, d) && x > y
    ensures SpanPixels(c, R, x) + CirclePixels(c, R) == DiscPixels(c, R)
  {
    forall p: Pt
      ensures p in SpanPixels(c, R, x) + CirclePixels(c, R) <==> p in DiscPixels(c, R)
    {
      SpansAndOutline(R, x, y, d, p.x - c.x, p.y - c.y);
    }
  }

  lemma SpansAndOutline(R: nat, x: int, y: int, d: int, dx: int, dy: int)
    requires Head(R, x, y, d) && x > y
    ensures InDisc(R, dx, dy) <==> InSpans(R, x, dx, dy) || Outline(R, dx, dy)
  {
    if Outline(R, dx, dy) {
      assert Outline(R, Abs(dx), dy);
    } else if e: nat :| Abs(dx) <= e && Outline(R, e, dy) {
      NoneLeft(R, x, y, d, e, dy);
      assert -dx <= e && dx < e && Min(e, Abs(dy)) < x;
    } else {
      assert forall e: nat :: Outline(R, e, dy) ==> e < Abs(dx);
    }
  }

  // ---- the disc is round and has no holes ----

  /** Every pixel of the ideal disc of radius R is filled. */
  lemma DiscCovers(R: nat, dx: int, dy: int)
    requires R >= 1 && dx * dx + dy * dy <= R * R
    ensures InDisc(R, dx, dy)
  {
    var m, r := Abs(dx), Abs(dy);
    SquareOfAbs(dx);
    SquareOfAbs(dy);
    SquareOrder(r, R);
    assert m * m >= 0;
    if r == R {
      SquareOrder(0, m);
      assert Outline(R, 0, dy);
    } else {
      var e := ReachesOut(R, m, r);
      assert Outline(R, e, dy);
    }
  }

  /** In a row r below the top, some outline offset is at least as far out as m. */
  lemma ReachesOut(R: nat, m: nat, r: nat) returns (e: nat)
    requires r < R && m * m + r * r <= R * R
    ensures m <= e && Outline(R, e, r)
  {
    var y := BandExists(R, r);
    BelowRoot(m, y, R * R - r * r);
    if r <= y {
      e := y;
    } else {
      SquareOrder(m, R);
      assert r * r > 0 by { SquareOrder(0, r); }
      var t := BandExists(R, m);
      BelowRoot(r, t, R * R - m * m);
      e := Climb(R, m, t, r, y);
    }
  }

  lemma BelowRoot(m: nat, y: nat, a: int)
    requires m * m <= a <= y * y + y
    ensures m <= y
  {
    assert (y + 1) * (y + 1) == y * y + 2 * y + 1;
    SquareOrder(y + 1, m);
  }

  /** Walking the octant from column m, some column at or past m has height r. */
  lemma {:induction false} Climb(R: nat, m: int, t: int, r: int, y: int) returns (e: nat)
    requires Octant(R, m, t) && m < r <= t
    requires 0 <= y < r && Band(R, r, y)
    ensures m <= e && Octant(R, e, r)
    decreases r - m
  {
    if t == r {
      e := m;
    } else {
      var t' := OctantNext(R, m, t);
      if m + 1 == r {
        BandUnique(R, r, y, t');
        assert false;
      } else {
        e := Climb(R, m + 1, t', r, y);
      }
    }
  }

  /** Every filled pixel is less than half a pixel outside the ideal circle. */
  lemma DiscWithin(R: nat, dx: int, dy: int)
    requires R >= 1 && InDisc(R, dx, dy)
    ensures 4 * (dx * dx + dy * dy) < (2 * R + 1) * (2 * R + 1)
  {
    var e: nat :| Abs(dx) <= e && Outline(R, e, dy);
    OutlineWithinHalfPixel(R, e, dy);
    SquareOrder(Abs(dx), e);
    SquareOfAbs(dx);
  }

  lemma {:induction false} WidestInRow(R: nat, dy: int, e: nat) returns (w: nat)
    requires Outline(R, e, dy)
    ensures Outline(R, w, dy)
    ensures forall d: nat :: Outline(R, d, dy) ==> d <= w
    decreases R - e
  {
    BandRadius(R, Min(e, Abs(dy)), Max(e, Abs(dy)));
    if d: nat :| e < d && Outline(R, d, dy) {
      BandRadius(R, Min(d, Abs(dy)), Max(d, Abs(dy)));
      w := WidestInRow(R, dy, d);
    } else {
      w := e;
    }
  }

  /** Each of the 2R + 1 rows of the disc is one unbroken span that begins and ends on an
      outline pixel; no other row is touched. */
  lemma DiscRow(R: nat, dy: int) returns (w: nat)
    requires R >= 1
    ensures Abs(dy) <= R ==> Outline(R, w, dy) && forall dx: int :: InDisc(R, dx, dy) <==> Abs(dx) <= w
    ensures Abs(dy) > R ==> forall dx: int :: !InDisc(R, dx, dy)
  {
    w := 0;
    if Abs(dy) <= R {
      SquareOrder(Abs(dy), R);
      SquareOfAbs(dy);
      DiscCovers(R, 0, dy);
      var e: nat :| Abs(0) <= e && Outline(R, e, dy);
      w := WidestInRow(R, dy, e);
    } else {
      forall e: nat
        ensures !Outline(R, e, dy)
      {
        if Outline(R, e, dy) {
          BandRadius(R, Min(e, Abs(dy)), Max(e, Abs(dy)));
        }
      }
    }
  }

  /** The filled pixels themselves: the ideal disc is covered, and none is half a pixel outside. */
  lemma DiscIsRound(c: Pt, R: nat, p: Pt)
    requires R >= 1
    ensures var d := (p.x - c.x) * (p.x - c.x) + (p.y - c.y) * (p.y - c.y);
      && (d <= R * R ==> p in DiscPixels(c, R))
      && (p in DiscPixels(c, R) ==> 4 * d < (2 * R + 1) * (2 * R + 1))
  {
    hide InDisc;
    if p in DiscPixels(c, R) {
      DiscWithin(R, p.x - c.x, p.y - c.y);
    }
    if (p.x - c.x) * (p.x - c.x) + (p.y - c.y) * (p.y - c.y) <= R * R {
      DiscCovers(R, p.x - c.x, p.y - c.y);
    }
  }

  /** Row by row: one centred span between two pixels of the circle, or nothing. */
  lemma DiscSpans(c: Pt, R: nat, row: int) returns (w: nat)
    requires R >= 1
    ensures Abs(row - c.y) <= R ==>
      && (forall x :: Pt(x, row) in DiscPixels(c, R) <==> c.x - w <= x <= c.x + w)
      && Pt(c.x - w, row) in CirclePixels(c, R) && Pt(c.x + w, row) in CirclePixels(c, R)
    ensures Abs(row - c.y) > R ==> forall x :: Pt(x, row) !in DiscPixels(c, R)
  {
    hide InDisc, Outline;
    w := DiscRow(R, row - c.y);
    if Abs(row - c.y) <= R {
      OutlineSymmetric(R, w, row - c.y);
      forall x
        ensures Pt(x, row) in DiscPixels(c, R) <==> c.x - w <= x <= c.x + w
      {
        assert InDisc(R, x - c.x, row - c.y) <==> Abs(x - c.x) <= w;
      }
    } else {
      forall x
        ensures Pt(x, row) !in DiscPixels(c, R)
      {
        assert !InDisc(R, x - c.x, row - c.y);
      }
    }
  }
}
