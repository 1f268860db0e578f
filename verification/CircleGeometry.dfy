/** The circle outline, defined without reference to any loop, and the step that walks it. */
module CircleGeometry {
  import opened Geometry

  /** y is the integer nearest to the square root of a. */
  predicate Rounds(a: int, y: int) {
    y * y - y < a <= y * y + y
  }

  /** y is the integer nearest to the square root of R*R - x*x (see BandIsNearestRoot). */
  predicate Band(R: nat, x: int, y: int) {
    Rounds(R * R - x * x, y)
  }

  /** (dx, dy) is an outline offset: seen from the octant where |dx| and |dy| are in
      increasing order, the larger one is the rounded square root. */
  predicate Outline(R: nat, dx: int, dy: int) {
    Band(R, Min(Abs(dx), Abs(dy)), Max(Abs(dx), Abs(dy)))
  }

  /** The octant point whose smaller coordinate is x, if the outline has one. */
  predicate Octant(R: nat, x: int, y: int) {
    0 <= x <= y && Band(R, x, y)
  }

  ghost function CirclePixels(c: Pt, R: nat): iset<Pt> {
    iset p: Pt | Outline(R, p.x - c.x, p.y - c.y)
  }

  /** Outline pixels whose smaller offset is below n: what n passes have plotted. */
  ghost function CirclePrefix(c: Pt, R: nat, n: int): iset<Pt> {
    iset p: Pt | Outline(R, p.x - c.x, p.y - c.y) && Min(Abs(p.x - c.x), Abs(p.y - c.y)) < n
  }

  /** The value the add-only decision variable stands for. */
  function Decision(R: nat, x: int, y: int): int {
    2 * (x + 1) * (x + 1) + y * y + (y - 1) * (y - 1) - 2 * R * R
  }

  // ---- the band ----

  /** Band says that y - 1/2 < sqrt(R*R - x*x) < y + 1/2. */
  lemma BandIsNearestRoot(R: nat, x: int, y: int)
    ensures Band(R, x, y) && y >= 1
      <==> y >= 1 && (2 * y - 1) * (2 * y - 1) < 4 * (R * R - x * x) < (2 * y + 1) * (2 * y + 1)
  {
    assert (2 * y - 1) * (2 * y - 1) == 4 * (y * y) - 4 * y + 1;
    assert (2 * y + 1) * (2 * y + 1) == 4 * (y * y) + 4 * y + 1;
  }

  lemma RootUnique(a: int, y: int, z: int)
    requires 0 <= y && 0 <= z && Rounds(a, y) && Rounds(a, z)
    ensures y == z
  {
    BandGap(y, z);
    BandGap(z, y);
  }

  lemma BandUnique(R: nat, x: int, y: int, z: int)
    requires 0 <= y && 0 <= z && Band(R, x, y) && Band(R, x, z)
    ensures y == z
  {
    RootUnique(R * R - x * x, y, z);
  }

  lemma BandGap(y: int, z: int)
    requires 0 <= y
    ensures y < z ==> z * z - z >= y * y + y
  {
    if y < z {
      assert z * z - z == z * (z - 1) && y * y + y == y * (y + 1);
      MulMono(y, z - 1, y + 1);
      MulMono(y + 1, z, z - 1);
    }
  }

  /** A larger x never has a larger y, even when y only satisfies the upper half of the band. */
  lemma BandFalls(R: nat, x: int, y: int, x': int, y': int)
    requires 0 <= x <= x' && 0 <= y && 0 <= y'
    requires R * R - x * x <= y * y + y
    requires Band(R, x', y')
    ensures y' <= y
  {
    SquareOrder(x, x');
    BandGap(y, y');
  }

  lemma BandRadius(R: nat, x: int, y: int)
    requires 0 <= x && 0 <= y && Band(R, x, y)
    ensures 1 <= y <= R && x < R
  {
    BandGap(0, y);
    SquareOrder(x, R);
    BandGap(R, y);
  }

  // ---- the loop step ----

  /** The sign of the decision variable picks the next y of the octant. */
  lemma DecisionPicks(R: nat, x: int, y: int)
    requires Octant(R, x, y)
    ensures Decision(R, x, y) < 0 ==> Band(R, x + 1, y)
    ensures Decision(R, x, y) >= 0 && y - x >= 2 ==> Band(R, x + 1, y - 1)
    ensures Decision(R, x, y) >= 0 ==> R * R - (x + 1) * (x + 1) <= (y - 1) * (y - 1) + (y - 1)
    ensures 4 * (x - y) + 3 <= Decision(R, x, y) < 4 * x + 3
  {
    assert (x + 1) * (x + 1) == x * x + 2 * x + 1;
    assert (y - 1) * (y - 1) == y * y - 2 * y + 1;
    assert 2 * (x + 1) * (x + 1) == 2 * ((x + 1) * (x + 1)) && 2 * R * R == 2 * (R * R);
  }

  lemma DecisionUpdates(R: nat, x: int, y: int)
    ensures Decision(R, x + 1, y) == Decision(R, x, y) + 4 * x + 6
    ensures Decision(R, x + 1, y - 1) == Decision(R, x, y) + 4 * (x - y) + 10
    ensures Decision(R, 0, R) == 3 - 2 * R
  {
    assert 2 * (x + 1) * (x + 1) == 2 * (x * x) + 4 * x + 2;
    assert 2 * (x + 2) * (x + 2) == 2 * (x * x) + 8 * x + 8;
    assert (y - 1) * (y - 1) == y * y - 2 * y + 1;
    assert (y - 2) * (y - 2) == y * y - 4 * y + 4;
    assert (R - 1) * (R - 1) == R * R - 2 * R + 1;
    assert 2 * R * R == 2 * (R * R);
  }

  /** What a caller of one pass may rely on at the head of the loop. */
  ghost predicate Head(R: nat, x: int, y: int, d: int) {
    && 0 <= x <= R && 0 <= y <= R && d == Decision(R, x, y)
    && R * R - x * x <= y * y + y
    && (x <= y ==> Band(R, x, y))
  }

  lemma HeadStarts(R: nat)
    requires R >= 1
    ensures Head(R, 0, R, 3 - 2 * R)
  {
    DecisionUpdates(R, 0, R);
  }

  lemma HeadAdvances(R: nat, x: int, y: int, d: int)
    requires Head(R, x, y, d) && x <= y && R >= 1
    ensures d < 0 ==> Head(R, x + 1, y, d + 4 * x + 6)
    ensures d >= 0 ==> Head(R, x + 1, y - 1, d + 4 * (x - y) + 10)
    ensures 4 * (x - y) + 3 <= d < 4 * x + 3
  {
    DecisionPicks(R, x, y);
    DecisionUpdates(R, x, y);
    BandRadius(R, x, y);
  }

  /** When the octant is exhausted, no outline pixel is left out. */
  lemma NoneLeft(R: nat, x: int, y: int, d: int, dx: int, dy: int)
    requires Head(R, x, y, d) && x > y && Outline(R, dx, dy)
    ensures Min(Abs(dx), Abs(dy)) < x
  {
    var a, b := Min(Abs(dx), Abs(dy)), Max(Abs(dx), Abs(dy));
    if x <= a {
      BandFalls(R, x, y, a, b);
    }
  }

  lemma HeadAtExit(c: Pt, R: nat, x: int, y: int, d: int)
    requires Head(R, x, y, d) && x > y
    ensures CirclePrefix(c, R, x) == CirclePixels(c, R)
  {
    forall p: Pt | p in CirclePixels(c, R)
      ensures p in CirclePrefix(c, R, x)
    {
      NoneLeft(R, x, y, d, p.x - c.x, p.y - c.y);
    }
  }

  /** The mirror images of an octant point: eight, or four when x is 0 or y. */
  ghost function Mirrors(c: Pt, x: int, y: int): iset<Pt> {
    iset p: Pt | Min(Abs(p.x - c.x), Abs(p.y - c.y)) == x && Max(Abs(p.x - c.x), Abs(p.y - c.y)) == y
  }

  /** The mirror images on one side of the centre, below it or (y growing downwards) above it. */
  ghost function HalfMirrors(c: Pt, x: int, y: int, down: bool): iset<Pt> {
    iset{Pt(c.x + x, c.y + Signed(down, y)), Pt(c.x - x, c.y + Signed(down, y)),
         Pt(c.x + y, c.y + Signed(down, x)), Pt(c.x - y, c.y + Signed(down, x))}
  }

  lemma MirrorsListed(c: Pt, x: int, y: int)
    requires 0 <= x <= y
    ensures Mirrors(c, x, y) == HalfMirrors(c, x, y, true) + HalfMirrors(c, x, y, false)
  {
  }

  lemma PrefixGrows(c: Pt, R: nat, x: int, y: int)
    requires Octant(R, x, y)
    ensures CirclePrefix(c, R, x) + Mirrors(c, x, y) == CirclePrefix(c, R, x + 1)
  {
    forall b: int | x <= b && Band(R, x, b)
      ensures b == y
    {
      BandUnique(R, x, y, b);
    }
  }

  // ---- distance to the ideal circle ----

  /** Every outline pixel lies strictly within half a pixel of the circle of radius R,
      measured along its radius. */
  lemma OutlineWithinHalfPixel(R: nat, dx: int, dy: int)
    requires R >= 1 && Outline(R, dx, dy)
    ensures (2 * R - 1) * (2 * R - 1) < 4 * (dx * dx + dy * dy) < (2 * R + 1) * (2 * R + 1)
  {
    var x, y := Min(Abs(dx), Abs(dy)), Max(Abs(dx), Abs(dy));
    assert x * x + y * y == dx * dx + dy * dy by { SquareOfAbs(dx); SquareOfAbs(dy); }
    OctantWithinHalfPixel(R, x, y);
  }

  /** The same for the pixels themselves, and their symmetry. */
  lemma CircleIsRound(c: Pt, R: nat, p: Pt)
    requires R >= 1 && p in CirclePixels(c, R)
    ensures var dx, dy := p.x - c.x, p.y - c.y;
      && (2 * R - 1) * (2 * R - 1) < 4 * (dx * dx + dy * dy) < (2 * R + 1) * (2 * R + 1)
      && Pt(c.x - dx, p.y) in CirclePixels(c, R) && Pt(p.x, c.y - dy) in CirclePixels(c, R)
      && Pt(c.x + dy, c.y + dx) in CirclePixels(c, R)
  {
    OutlineWithinHalfPixel(R, p.x - c.x, p.y - c.y);
    OutlineSymmetric(R, p.x - c.x, p.y - c.y);
    hide Outline;
  }

  lemma SquareOfAbs(v: int)
    ensures Abs(v) * Abs(v) == v * v
  {
  }

  lemma OctantWithinHalfPixel(R: nat, x: int, y: int)
    requires R >= 1 && 0 <= x && 0 <= y && Band(R, x, y)
    ensures (2 * R - 1) * (2 * R - 1) < 4 * (x * x + y * y) < (2 * R + 1) * (2 * R + 1)
  {
    BandRadius(R, x, y);
    OddSquares(R);
    hide Outline;
  }

  lemma OddSquares(R: int)
    ensures (2 * R - 1) * (2 * R - 1) == 4 * (R * R) - 4 * R + 1
    ensures (2 * R + 1) * (2 * R + 1) == 4 * (R * R) + 4 * R + 1
  {
  }

  /** Reflecting an outline offset in either axis or the diagonal gives an outline offset. */
  lemma OutlineSymmetric(R: nat, dx: int, dy: int)
    ensures Outline(R, dx, dy) == Outline(R, -dx, dy) == Outline(R, dx, -dy) == Outline(R, dy, dx)
  {
  }
}
