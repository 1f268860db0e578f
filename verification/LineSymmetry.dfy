/** Lines move and turn with their end points. */
module LineSymmetry {
  import opened Geometry
  import opened LineGeometry

  const ORIGIN := Pt(0, 0)

  function Minus(p: Pt, o: Pt): Pt { Pt(p.x - o.x, p.y - o.y) }
  function Mirror(p: Pt, nx: bool, ny: bool): Pt { Reflect(p, false, nx, ny) }
  function Swap(p: Pt): Pt { Reflect(p, true, false, false) }

  lemma LineMoves(p: Pt, q: Pt, o: Pt, k: nat)
    ensures LinePoint(Minus(p, o), Minus(q, o), k) == Minus(LinePoint(p, q, k), o)
    ensures Longer(Minus(p, o), Minus(q, o)) == Longer(p, q)
  {
    hide Minor;
  }

  lemma MinorAtExtremes(den: nat, k: nat)
    requires k <= den
    ensures Minor(den, 0, k) == 0
    ensures Minor(den, den, k) == k
  {
    if den > 0 {
      QuotientIsUnique(den / 2 + k * 0, den, 0, den / 2);
      QuotientIsUnique(den / 2 + k * den, den, k, den / 2);
    }
  }

  lemma LineMirrors(p: Pt, q: Pt, nx: bool, ny: bool, k: nat)
    requires k <= Longer(p, q)
    ensures LinePoint(Mirror(p, nx, ny), Mirror(q, nx, ny), k) == Mirror(LinePoint(p, q, k), nx, ny)
    ensures Longer(Mirror(p, nx, ny), Mirror(q, nx, ny)) == Longer(p, q)
  {
    MinorAtExtremes(Longer(p, q), k);
    hide Minor;
  }

  lemma LineSwaps(p: Pt, q: Pt, k: nat)
    requires k <= Longer(p, q)
    ensures LinePoint(Swap(p), Swap(q), k) == Swap(LinePoint(p, q, k))
    ensures Longer(Swap(p), Swap(q)) == Longer(p, q)
  {
    MinorAtExtremes(Longer(p, q), k);
    hide Minor;
  }

  /** The line from some pixel of the edge u-v to the origin passes through w. */
  ghost predicate Swept(u: Pt, v: Pt, w: Pt) {
    exists k: nat :: k <= Longer(u, v) && OnLine(LinePoint(u, v, k), ORIGIN, w)
  }

  lemma OnLineMirrors(f: Pt, w: Pt, nx: bool, ny: bool)
    requires OnLine(Mirror(f, nx, ny), ORIGIN, Mirror(w, nx, ny))
    ensures OnLine(f, ORIGIN, w)
  {
    hide LinePoint, Longer;
    var g := Mirror(f, nx, ny);
    LineMirrors(f, ORIGIN, nx, ny, 0);
    var k: nat :| k < Longer(g, ORIGIN) + 1 && Mirror(w, nx, ny) == LinePoint(g, ORIGIN, k);
    LineMirrors(f, ORIGIN, nx, ny, k);
    assert w == LinePoint(f, ORIGIN, k);
  }

  lemma OnLineSwaps(f: Pt, w: Pt)
    requires OnLine(Swap(f), ORIGIN, Swap(w))
    ensures OnLine(f, ORIGIN, w)
  {
    hide LinePoint, Longer;
    LineSwaps(f, ORIGIN, 0);
    var k: nat :| k < Longer(Swap(f), ORIGIN) + 1 && Swap(w) == LinePoint(Swap(f), ORIGIN, k);
    LineSwaps(f, ORIGIN, k);
    assert w == LinePoint(f, ORIGIN, k);
  }

  lemma SweptMirrors(u: Pt, v: Pt, w: Pt, nx: bool, ny: bool)
    requires Swept(Mirror(u, nx, ny), Mirror(v, nx, ny), Mirror(w, nx, ny))
    ensures Swept(u, v, w)
  {
    hide LinePoint, Longer, OnLine, Mirror;
    var s, t, r := Mirror(u, nx, ny), Mirror(v, nx, ny), Mirror(w, nx, ny);
    LineMirrors(u, v, nx, ny, 0);
    var k: nat :| k <= Longer(s, t) && OnLine(LinePoint(s, t, k), ORIGIN, r);
    LineMirrors(u, v, nx, ny, k);
    OnLineMirrors(LinePoint(u, v, k), w, nx, ny);
  }

  lemma SweptSwaps(u: Pt, v: Pt, w: Pt)
    requires Swept(Swap(u), Swap(v), Swap(w))
    ensures Swept(u, v, w)
  {
    hide LinePoint, Longer, OnLine, Swap;
    LineSwaps(u, v, 0);
    var k: nat :| k <= Longer(Swap(u), Swap(v)) && OnLine(LinePoint(Swap(u), Swap(v), k), ORIGIN, Swap(w));
    LineSwaps(u, v, k);
    OnLineSwaps(LinePoint(u, v, k), w);
  }

  lemma OnLineMoves(f: Pt, c: Pt, p: Pt)
    requires OnLine(Minus(f, c), ORIGIN, Minus(p, c))
    ensures OnLine(f, c, p)
  {
    hide LinePoint, Longer;
    LineMoves(f, c, c, 0);
    var j: nat :| j < Longer(Minus(f, c), ORIGIN) + 1 && Minus(p, c) == LinePoint(Minus(f, c), ORIGIN, j);
    LineMoves(f, c, c, j);
    assert p == LinePoint(f, c, j);
  }
}
