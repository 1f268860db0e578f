/** The pixels of a Bresenham line, in closed form. */
module LineGeometry {
  import opened Geometry

  /** Offset along the shorter axis after k steps along the longer one. */
  function Minor(den: nat, add: nat, k: nat): int {
    if den == 0 then 0 else (den / 2 + k * add) / den
  }

  function Dx(p: Pt, q: Pt): nat { Abs(q.x - p.x) }
  function Dy(p: Pt, q: Pt): nat { Abs(q.y - p.y) }

  /** True when the line walks along x. */
  predicate XMajor(p: Pt, q: Pt) { Dx(p, q) >= Dy(p, q) }

  function Longer(p: Pt, q: Pt): nat { if XMajor(p, q) then Dx(p, q) else Dy(p, q) }
  function Shorter(p: Pt, q: Pt): nat { if XMajor(p, q) then Dy(p, q) else Dx(p, q) }

  /** The pixel k steps after p on the line from p to q. */
  function LinePoint(p: Pt, q: Pt, k: nat): Pt {
    var m := Minor(Longer(p, q), Shorter(p, q), k);
    if XMajor(p, q) then Pt(Towards(p.x, q.x, k), Towards(p.y, q.y, m))
    else Pt(Towards(p.x, q.x, m), Towards(p.y, q.y, k))
  }

  /** r is one of the first n pixels of the line from p to q. */
  ghost predicate OnLinePrefix(p: Pt, q: Pt, n: nat, r: Pt) {
    exists k: nat :: k < n && r == LinePoint(p, q, k)
  }

  ghost predicate OnLine(p: Pt, q: Pt, r: Pt) {
    OnLinePrefix(p, q, Longer(p, q) + 1, r)
  }

  /** The first n pixels of the line. */
  ghost function LinePrefix(p: Pt, q: Pt, n: nat): iset<Pt> {
    if n == 0 then iset{} else LinePrefix(p, q, n - 1) + iset{LinePoint(p, q, n - 1)}
  }

  ghost function LinePixels(p: Pt, q: Pt): iset<Pt> {
    LinePrefix(p, q, Longer(p, q) + 1)
  }

  lemma {:induction false} PrefixMembers(p: Pt, q: Pt, n: nat, r: Pt)
    ensures r in LinePrefix(p, q, n) <==> OnLinePrefix(p, q, n, r)
  {
    if n > 0 {
      PrefixMembers(p, q, n - 1, r);
      if k: nat :| k < n && r == LinePoint(p, q, k) {
        assert k < n - 1 ==> OnLinePrefix(p, q, n - 1, r);
      }
    }
  }

  lemma LineMembers(p: Pt, q: Pt, r: Pt)
    ensures r in LinePixels(p, q) <==> OnLine(p, q, r)
  {
    PrefixMembers(p, q, Longer(p, q) + 1, r);
  }

  // ---- shape of the line ----

  /** The numerator kept by the loop is the remainder of the closed form. */
  lemma MinorFromRemainder(den: nat, add: nat, k: nat, m: int, num: int)
    requires den > 0 && m * den + num == den / 2 + k * add && 0 <= num < den
    ensures Minor(den, add, k) == m
  {
    QuotientIsUnique(den / 2 + k * add, den, m, num);
  }

  /** Twice the rounding error times the longer side never exceeds the longer side. */
  lemma MinorWithinHalf(den: nat, add: nat, k: nat)
    requires den > 0
    ensures 2 * Abs(Minor(den, add, k) * den - k * add) <= den
  {
    var a := den / 2 + k * add;
    assert a == (a / den) * den + a % den;
  }

  lemma MinorAtEnds(den: nat, add: nat)
    requires add <= den
    ensures Minor(den, add, 0) == 0
    ensures Minor(den, add, den) == add
  {
    if den > 0 {
      QuotientIsUnique(den / 2 + 0 * add, den, 0, den / 2);
      QuotientIsUnique(den / 2 + den * add, den, add, den / 2);
    }
  }

  lemma MinorSteps(den: nat, add: nat, k: nat)
    requires add <= den
    ensures Minor(den, add, k) <= Minor(den, add, k + 1) <= Minor(den, add, k) + 1
  {
    if den > 0 {
      var a := den / 2 + k * add;
      var b := den / 2 + (k + 1) * add;
      assert b == a + add by { assert (k + 1) * add == k * add + add; }
      var q, r := a / den, a % den;
      assert a == q * den + r;
      if r + add < den {
        QuotientIsUnique(b, den, q, r + add);
      } else {
        assert (q + 1) * den == q * den + den;
        QuotientIsUnique(b, den, q + 1, r + add - den);
      }
    }
  }

  lemma {:induction false} MinorMono(den: nat, add: nat, j: nat, k: nat)
    requires add <= den && j <= k
    ensures Minor(den, add, j) <= Minor(den, add, k)
    decreases k - j
  {
    if j < k {
      MinorSteps(den, add, j);
      MinorMono(den, add, j + 1, k);
    }
  }

  lemma MinorBounds(den: nat, add: nat, k: nat)
    requires add <= den && k <= den
    ensures 0 <= Minor(den, add, k) <= add
  {
    MinorAtEnds(den, add);
    MinorMono(den, add, 0, k);
    MinorMono(den, add, k, den);
  }

  /** The line starts at its first point and ends at its second. */
  lemma LineEnds(p: Pt, q: Pt)
    ensures LinePoint(p, q, 0) == p
    ensures LinePoint(p, q, Longer(p, q)) == q
  {
    MinorAtEnds(Longer(p, q), Shorter(p, q));
  }

  /** Consecutive pixels are 8-neighbours and advance one step along the longer axis. */
  lemma LineIsConnected(p: Pt, q: Pt, k: nat)
    ensures var a, b := LinePoint(p, q, k), LinePoint(p, q, k + 1);
      Abs(b.x - a.x) <= 1 && Abs(b.y - a.y) <= 1 && a != b
  {
    MinorSteps(Longer(p, q), Shorter(p, q), k);
  }

  /** Every pixel of a line lies in any box that holds its two end points. */
  lemma LineInBox(p: Pt, q: Pt, k: nat, left: int, right: int, top: int, bottom: int)
    requires k <= Longer(p, q)
    requires left <= p.x <= right && left <= q.x <= right
    requires top <= p.y <= bottom && top <= q.y <= bottom
    ensures left <= LinePoint(p, q, k).x <= right && top <= LinePoint(p, q, k).y <= bottom
  {
    MinorBounds(Longer(p, q), Shorter(p, q), k);
  }

  /** Every pixel lies within half a pixel of the ideal line, measured along the shorter axis:
      the cross product with the direction is at most half the longer side. */
  lemma LineWithinHalfPixel(p: Pt, q: Pt, r: Pt)
    requires OnLine(p, q, r)
    ensures 2 * Abs((r.x - p.x) * (q.y - p.y) - (r.y - p.y) * (q.x - p.x)) <= Longer(p, q)
  {
    hide LinePoint, Longer, Abs;
    var k: nat :| k < Longer(p, q) + 1 && r == LinePoint(p, q, k);
    PointWithinHalfPixel(p, q, k);
  }

  lemma PointWithinHalfPixel(p: Pt, q: Pt, k: nat)
    ensures var r := LinePoint(p, q, k);
      2 * Abs((r.x - p.x) * (q.y - p.y) - (r.y - p.y) * (q.x - p.x)) <= Longer(p, q)
  {
    var den, add, r := Longer(p, q), Shorter(p, q), LinePoint(p, q, k);
    var sx, sy, m := Sign(p.x, q.x), Sign(p.y, q.y), Minor(den, add, k);
    if den > 0 {
      MinorWithinHalf(den, add, k);
      hide Minor, Sign, Towards;
      TowardsOffset(p.x, q.x, if XMajor(p, q) then k else m);
      TowardsOffset(p.y, q.y, if XMajor(p, q) then m else k);
      if XMajor(p, q) {
        OffsetsWithinHalf(r.x - p.x, r.y - p.y, q.x - p.x, q.y - p.y, sx, sy, k, m, den, add);
      } else {
        OffsetsWithinHalf(r.y - p.y, r.x - p.x, q.y - p.y, q.x - p.x, sy, sx, k, m, den, add);
        AbsSwap((r.x - p.x) * (q.y - p.y), (r.y - p.y) * (q.x - p.x));
      }
    }
  }

  lemma OffsetsWithinHalf(a: int, b: int, u: int, v: int, s: int, t: int, k: int, m: int, den: int, add: int)
    requires (s == 1 || s == -1) && (t == 1 || t == -1) && 2 * Abs(m * den - k * add) <= den
    requires a == s * k && b == t * m && u == s * den && v == t * add
    ensures 2 * Abs(a * v - b * u) <= den
  {
    CrossProduct(s, t, k, m, den, add);
    hide Abs;
  }

  lemma TowardsOffset(a: int, b: int, k: int)
    ensures Towards(a, b, k) - a == Sign(a, b) * k && b - a == Sign(a, b) * Abs(b - a)
    ensures Sign(a, b) == 1 || Sign(a, b) == -1
  {
  }

  lemma AbsSwap(a: int, b: int)
    ensures Abs(a - b) == Abs(b - a)
  {
  }

  lemma CrossProduct(s: int, t: int, k: int, m: int, den: int, add: int)
    requires (s == 1 || s == -1) && (t == 1 || t == -1)
    ensures Abs((s * k) * (t * add) - (t * m) * (s * den)) == Abs(m * den - k * add)
  {
    if s == t {
      assert (s * k) * (t * add) == k * add && (t * m) * (s * den) == m * den;
    } else {
      assert (s * k) * (t * add) == -(k * add) && (t * m) * (s * den) == -(m * den);
    }
  }

  /** The line without the loop: one pixel in each column (row, when it is steep) from end to end,
      in the row (column) nearest to the ideal line, ties going forward. */
  lemma LineIsRounded(p: Pt, q: Pt, r: Pt)
    ensures var steep, n, add := Abs(q.x - p.x) < Abs(q.y - p.y), Max(Abs(q.x - p.x), Abs(q.y - p.y)),
                                 Min(Abs(q.x - p.x), Abs(q.y - p.y));
      var k, m := if steep then Abs(r.y - p.y) else Abs(r.x - p.x), if steep then Abs(r.x - p.x) else Abs(r.y - p.y);
      OnLine(p, q, r)
      <==> (k <= n && m <= add && 0 <= n / 2 + k * add - m * n < Max(1, n)
            && r == (if steep then Pt(Towards(p.x, q.x, m), Towards(p.y, q.y, k))
                     else Pt(Towards(p.x, q.x, k), Towards(p.y, q.y, m))))
  {
    var n, add := Longer(p, q), Shorter(p, q);
    var k := if XMajor(p, q) then Abs(r.x - p.x) else Abs(r.y - p.y);
    var m := if XMajor(p, q) then Abs(r.y - p.y) else Abs(r.x - p.x);
    hide Minor;
    if j: nat :| j < n + 1 && r == LinePoint(p, q, j) {
      MinorBounds(n, add, j);
      assert j == k && Minor(n, add, k) == m;
      MinorIsQuotient(n, add, k, m);
    }
    if k <= n {
      MinorIsQuotient(n, add, k, m);
      assert OnLine(p, q, LinePoint(p, q, k));
    }
  }

  lemma MinorIsQuotient(n: nat, add: nat, k: nat, m: int)
    requires add <= n && k <= n
    ensures Minor(n, add, k) == m && n > 0 <==> 0 <= n / 2 + k * add - m * n < n
    ensures n == 0 ==> Minor(n, add, k) == 0 && k * add == 0 && m * n == 0
  {
    if n > 0 {
      var a := n / 2 + k * add;
      assert a == a / n * n + a % n;
      if 0 <= a - m * n < n {
        QuotientIsUnique(a, n, m, a - m * n);
      }
    }
  }

  lemma LinePrefixGrows(p: Pt, q: Pt, n: nat)
    ensures LinePrefix(p, q, n) + iset{LinePoint(p, q, n)} == LinePrefix(p, q, n + 1)
  {
  }
}
