/** The variables DrawCircle and FillCircle both step around one octant, 32 bits wide. */
module CircleWalk {
  import opened CInt
  import opened Geometry
  import opened CircleGeometry

  datatype Octet = Octet(x: int, y: int, decision: int)

  function Begin(radius: nat): Octet {
    Octet(0, radius, 3 - 2 * radius)
  }

  /** The decision variable is signed, the coordinates are unsigned, so both updates are
      computed modulo 2^32. */
  function Next(w: Octet): Octet {
    if w.decision < 0 then
      Octet(ToUint32(w.x + 1), w.y, AddUnsigned(w.decision, ToUint32(ToUint32(4 * w.x) + 6)))
    else
      Octet(ToUint32(w.x + 1), ToUint32(w.y - 1),
            AddUnsigned(w.decision, ToUint32(ToUint32(4 * ToUint32(w.x - w.y)) + 10)))
  }

  ghost predicate Tracks(R: nat, w: Octet) {
    Head(R, w.x, w.y, w.decision)
  }

  lemma BeginTracks(R: nat)
    requires 1 <= R
    ensures Tracks(R, Begin(R))
  {
    HeadStarts(R);
  }

  /** One pass keeps decision == 2(x+1)^2 + y^2 + (y-1)^2 - 2R^2 with no wrap-around, moves x
      right by one and brings the two coordinates closer, so the loop ends. */
  lemma NextTracks(R: nat, w: Octet)
    requires 1 <= R < 0x1_0000 && Tracks(R, w) && w.x <= w.y
    ensures Octant(R, w.x, w.y) && w.y <= R
    ensures Tracks(R, Next(w))
    ensures Next(w).x == w.x + 1 && Next(w).y - Next(w).x < w.y - w.x
  {
    HeadAdvances(R, w.x, w.y, w.decision);
    BandRadius(R, w.x, w.y);
    NextDoesNotWrap(w);
  }

  lemma NextDoesNotWrap(w: Octet)
    requires 0 <= w.x <= w.y < 0x1_0000
    requires 4 * (w.x - w.y) + 3 <= w.decision < 4 * w.x + 3
    ensures Next(w) == if w.decision < 0 then Octet(w.x + 1, w.y, w.decision + 4 * w.x + 6)
                       else if w.y > 0 then Octet(w.x + 1, w.y - 1, w.decision + 4 * (w.x - w.y) + 10)
                       else Next(w)
  {
    if w.decision < 0 {
      AddUnsignedWraps(w.decision, 4 * w.x + 6, ToUint32(ToUint32(4 * w.x) + 6));
    } else {
      Difference(w.x, w.y);
      AddUnsignedWraps(w.decision, 4 * (w.x - w.y) + 10, ToUint32(ToUint32(4 * ToUint32(w.x - w.y)) + 10));
    }
  }

  lemma Difference(x: int, y: int)
    requires 0 <= x <= y < 0x1_0000
    ensures ToUint32(ToUint32(4 * ToUint32(x - y)) + 10) == ToUint32(4 * (x - y) + 10)
  {
  }

  lemma Remainder(a: int, d: int, q: int, r: int)
    requires d > 0 && a == q * d + r && 0 <= r < d
    ensures a % d == r
  {
    QuotientIsUnique(a, d, q, r);
    assert a == (a / d) * d + a % d;
  }

  lemma ZeroSteps()
    ensures Next(Begin(0)) == Octet(1, 0xFFFF_FFFF, 13)
  {
  }

  lemma ZeroColumns(cx: nat)
    requires 1 <= cx < 0xFFFF
    ensures ToUint16(cx + 0xFFFF_FFFF) == cx - 1 && ToUint16(ToUint32(cx - 0xFFFF_FFFF)) == cx + 1
  {
    Remainder(cx + 0xFFFF_FFFF, 0x1_0000, 0x1_0000, cx - 1);
    Remainder(cx - 0xFFFF_FFFF, 0x1_0000_0000, -1, cx + 1);
  }

  /** A radius of zero is not a circle to this loop: after one pass the unsigned y has wrapped
      around, the loop goes on, and the next pass draws at the columns cx - 1 and cx + 1 (as the
      16-bit arguments of the pixel function see them), outside the square of one pixel. */
  lemma RadiusZeroWraps(cx: nat)
    requires 1 <= cx < 0xFFFF
    ensures var w := Next(Begin(0));
      && w == Octet(1, 0xFFFF_FFFF, 13) && w.x <= w.y
      && ToUint16(cx + w.y) == cx - 1 && ToUint16(ToUint32(cx - w.y)) == cx + 1
  {
    hide Next, Begin, ToUint16, ToUint32;
    ZeroSteps();
    ZeroColumns(cx);
  }
}
