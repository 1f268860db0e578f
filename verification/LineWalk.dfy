/** The integer state that DrawLine and FillTriangle both step along a line: the local
    variables of either function, every one of them 16 bits wide. */
module LineWalk {
  import opened CInt
  import opened Geometry
  import opened LineGeometry

  datatype Walk = Walk(
    x: int, y: int, num: int,
    xinc1: int, xinc2: int, yinc1: int, yinc2: int,
    den: int, numAdd: int, numPixels: int)

  function Setup(x1: int, y1: int, x2: int, y2: int): Walk {
    var deltax, deltay := ToInt16(Abs(x2 - x1)), ToInt16(Abs(y2 - y1));
    var sx := if x2 >= x1 then 1 else -1;
    var sy := if y2 >= y1 then 1 else -1;
    if deltax >= deltay then
      Walk(ToInt16(x1), ToInt16(y1), deltax / 2, 0, sx, sy, 0, deltax, deltay, deltax)
    else
      Walk(ToInt16(x1), ToInt16(y1), deltay / 2, sx, 0, 0, sy, deltay, deltax, deltay)
  }

  function Step(w: Walk): Walk {
    var num := ToInt16(w.num + w.numAdd);
    if num >= w.den then
      w.(num := ToInt16(num - w.den),
         x := ToInt16(ToInt16(w.x + w.xinc1) + w.xinc2), y := ToInt16(ToInt16(w.y + w.yinc1) + w.yinc2))
    else
      w.(num := num, x := ToInt16(w.x + w.xinc2), y := ToInt16(w.y + w.yinc2))
  }

  /** Both ends fit the 16-bit variables and so does the numerator: the longer side is at
      most 16384. */
  predicate Fits(p: Pt, q: Pt) {
    0 <= p.x < 16384 && 0 <= p.y < 16384 && 0 <= q.x < 16384 && 0 <= q.y < 16384
  }

  /** The numerator after k passes, m of them with a minor step. */
  predicate Counts(den: nat, add: nat, k: nat, m: int, num: int) {
    0 <= num < den && m * den + num == den / 2 + k * add
  }

  /** The walk has made k passes on the line from p to q, m of them with a minor step. */
  ghost predicate OnCourse(p: Pt, q: Pt, k: nat, m: int, w: Walk) {
    var den, add := Longer(p, q), Shorter(p, q);
    var sx, sy := Sign(p.x, q.x), Sign(p.y, q.y);
    && w.den == w.numPixels == den && w.numAdd == add
    && w.xinc1 == (if XMajor(p, q) then 0 else sx) && w.xinc2 == (if XMajor(p, q) then sx else 0)
    && w.yinc1 == (if XMajor(p, q) then sy else 0) && w.yinc2 == (if XMajor(p, q) then 0 else sy)
    && (den == 0 ==> w.num == 0 && (k == 0 ==> m == 0))
    && (den > 0 ==> Counts(den, add, k, m, w.num))
    && w.x == Towards(p.x, q.x, if XMajor(p, q) then k else m)
    && w.y == Towards(p.y, q.y, if XMajor(p, q) then m else k)
  }

  lemma SetupOnCourse(p: Pt, q: Pt)
    requires Fits(p, q)
    ensures OnCourse(p, q, 0, 0, Setup(p.x, p.y, q.x, q.y))
  {
  }

  /** The walk is where the closed form says, and 0 <= num < den at every loop head. */
  lemma OnCoursePoint(p: Pt, q: Pt, k: nat, m: int, w: Walk)
    requires OnCourse(p, q, k, m, w) && k <= w.numPixels
    ensures w.numPixels == Longer(p, q)
    ensures Pt(w.x, w.y) == LinePoint(p, q, k)
    ensures w.den > 0 ==> 0 <= w.num < w.den
  {
    if w.den > 0 {
      MinorFromRemainder(w.den, w.numAdd, k, m, w.num);
    }
  }

  /** The same pass in unbounded integers. */
  function PlainStep(w: Walk): Walk {
    var num := w.num + w.numAdd;
    if num >= w.den then
      w.(num := num - w.den, x := w.x + w.xinc1 + w.xinc2, y := w.y + w.yinc1 + w.yinc2)
    else
      w.(num := num, x := w.x + w.xinc2, y := w.y + w.yinc2)
  }

  /** No 16-bit variable of the loop ever overflows. */
  lemma StepDoesNotWrap(p: Pt, q: Pt, k: nat, m: int, w: Walk)
    requires Fits(p, q) && OnCourse(p, q, k, m, w) && k <= w.numPixels
    ensures Step(w) == PlainStep(w)
  {
    OnCoursePoint(p, q, k, m, w);
    hide LinePoint, Counts, Towards, Step, PlainStep;
    LineInBox(p, q, k, 0, 16383, 0, 16383);
    SmallStep(w);
  }

  lemma SmallStep(w: Walk)
    requires 0 <= w.x < 16384 && 0 <= w.y < 16384 && 0 <= w.num + w.numAdd < 0x8000 && 0 <= w.den < 0x8000
    requires -1 <= w.xinc1 <= 1 && -1 <= w.xinc2 <= 1 && -1 <= w.yinc1 <= 1 && -1 <= w.yinc2 <= 1
    ensures Step(w) == PlainStep(w)
  {
    hide ToInt16;
  }

  lemma StepOnCourse(p: Pt, q: Pt, k: nat, m: int, w: Walk)
    requires Fits(p, q) && OnCourse(p, q, k, m, w) && k <= w.numPixels
    ensures OnCourse(p, q, k + 1, if w.num + w.numAdd >= w.den then m + 1 else m, Step(w))
  {
    StepDoesNotWrap(p, q, k, m, w);
    PlainStepOnCourse(p, q, k, m, w);
  }

  lemma PlainStepOnCourse(p: Pt, q: Pt, k: nat, m: int, w: Walk)
    requires OnCourse(p, q, k, m, w)
    ensures OnCourse(p, q, k + 1, if w.num + w.numAdd >= w.den then m + 1 else m, PlainStep(w))
  {
    if w.den > 0 {
      CountStep(w.den, w.numAdd, k, m, w.num);
    }
    hide Counts, XMajor, Sign;
  }

  lemma CountStep(den: nat, add: nat, k: nat, m: int, num: int)
    requires Counts(den, add, k, m, num) && add <= den
    ensures if num + add >= den then Counts(den, add, k + 1, m + 1, num + add - den)
            else Counts(den, add, k + 1, m, num + add)
  {
    assert (k + 1) * add == k * add + add && (m + 1) * den == m * den + den;
  }
}
