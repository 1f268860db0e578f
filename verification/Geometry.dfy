/** Screen points and the little integer arithmetic the drawing code shares. */
module Geometry {

  datatype Pt = Pt(x: int, y: int)

  /** The rectangle of w by h pixels whose first pixel is (x, y). */
  ghost function Rect(x: int, y: int, w: int, h: int): iset<Pt> {
    iset p: Pt | x <= p.x < x + w && y <= p.y < y + h
  }

  function Abs(v: int): int {
    if v > 0 then v else -v
  }

  function Max(a: int, b: int): int {
    if a < b then b else a
  }

  function Min(a: int, b: int): int {
    if a < b then a else b
  }

  /** The step direction: the C code takes +1 when the coordinates are equal. */
  function Sign(a: int, b: int): int {
    if b >= a then 1 else -1
  }

  /** k steps from a in the direction of b. */
  function Towards(a: int, b: int, k: int): int {
    if b >= a then a + k else a - k
  }

  /** v, or -v when it counts the other way. */
  function Signed(up: bool, v: int): int {
    if up then v else -v
  }

  /** One of the eight symmetries of the square grid. */
  function Reflect(p: Pt, swap: bool, nx: bool, ny: bool): Pt {
    var q := if swap then Pt(p.y, p.x) else p;
    Pt(if nx then -q.x else q.x, if ny then -q.y else q.y)
  }

  lemma QuotientIsUnique(a: int, d: int, q: int, r: int)
    requires d > 0 && a == q * d + r && 0 <= r < d
    ensures a / d == q
  {
    var q' := a / d;
    assert a == q' * d + a % d;
    if q' < q {
      MulMono(q' + 1, q, d);
    } else if q < q' {
      MulMono(q + 1, q', d);
    }
  }

  lemma MulMono(a: int, b: int, c: int)
    requires a <= b && 0 <= c
    ensures a * c <= b * c
  {
  }

  lemma Distribute(a: int, x: int, y: int, z: int)
    ensures a * (x + y + z) == a * x + a * y + a * z
  {
  }

  lemma Reassociate(a: int, b: int, c: int)
    ensures a * (b * c) == a * b * c && a * (b * c) == b * (a * c)
  {
  }

  lemma QuotientMono(a: int, b: int, d: int)
    requires d > 0 && a <= b
    ensures a / d <= b / d
  {
    var p, q := a / d, b / d;
    assert a == p * d + a % d && b == q * d + b % d;
    if q < p {
      MulMono(q + 1, p, d);
    }
  }

  /** a < b in absolute value exactly when the squares are ordered that way. */
  lemma SquareOrder(a: int, b: int)
    requires 0 <= a && 0 <= b
    ensures a < b <==> a * a < b * b
    ensures a <= b <==> a * a <= b * b
  {
    if a < b {
      assert a * a <= a * b < b * b;
    } else {
      assert b * b <= a * b <= a * a;
    }
  }
}
