/** When does a line paint the same pixels drawn from either end?
    Exactly when no pixel falls on a rounding tie, which a caller can tell from the
    two side lengths by cancelling their common factors of two. */
module LineDirection {
  import opened Geometry
  import opened LineGeometry

  /** The longer side with all factors of two it shares with the shorter side cancelled. */
  function Stripped(den: nat, add: nat): nat
    requires den > 0
  {
    if den % 2 == 0 && add % 2 == 0 then Stripped(den / 2, add / 2) else den
  }

  predicate DirectionFree(p: Pt, q: Pt) {
    Longer(p, q) == 0 || Stripped(Longer(p, q), Shorter(p, q)) % 2 == 1
  }

  /** The ideal line passes exactly half way between two pixels at step k. */
  ghost predicate Tie(den: nat, add: nat, k: nat)
    requires den > 0
  {
    den % 2 == 0 && (den / 2 + k * add) % den == 0
  }

  lemma RemainderIsUnique(a: int, d: int, q: int, r: int)
    requires d > 0 && a == q * d + r && 0 <= r < d
    ensures a % d == r && a / d == q
  {
    QuotientIsUnique(a, d, q, r);
    assert a == (a / d) * d + a % d;
  }

  /** Counted from the other end, step k rounds the same way except at a tie. */
  lemma MinorFromOtherEnd(den: nat, add: nat, k: nat)
    requires den > 0 && add <= den && k <= den
    ensures add - Minor(den, add, den - k) == Minor(den, add, k) - (if Tie(den, add, k) then 1 else 0)
  {
    var h := den / 2;
    var a := h + k * add;
    var b := h + (den - k) * add;
    var q, r := a / den, a % den;
    assert a == q * den + r;
    assert (den - k) * add == den * add - k * add;
    assert b == 2 * h + add * den - q * den - r;
    assert (add - q) * den == add * den - q * den;
    if den % 2 == 1 {
      QuotientIsUnique(b, den, add - q, den - 1 - r);
    } else if r == 0 {
      assert (add + 1 - q) * den == (add - q) * den + den;
      QuotientIsUnique(b, den, add + 1 - q, 0);
    } else {
      QuotientIsUnique(b, den, add - q, den - r);
    }
  }

  lemma ReversedPoint(p: Pt, q: Pt, k: nat)
    requires 0 < Longer(p, q) && k <= Longer(p, q)
    ensures !Tie(Longer(p, q), Shorter(p, q), k) ==> LinePoint(q, p, Longer(p, q) - k) == LinePoint(p, q, k)
    ensures Tie(Longer(p, q), Shorter(p, q), k) ==> LinePoint(p, q, k) !in LinePixels(q, p)
  {
    var den, add := Longer(p, q), Shorter(p, q);
    assert Longer(q, p) == den && Shorter(q, p) == add && XMajor(q, p) == XMajor(p, q);
    MinorFromOtherEnd(den, add, k);
    var back := LinePoint(q, p, den - k);
    LineMembers(q, p, LinePoint(p, q, k));
    if Tie(den, add, k) {
      assert add > 0;
      forall j: nat | j < den + 1
        ensures LinePoint(q, p, j) != LinePoint(p, q, k)
      {
        if j == den - k {
          assert back != LinePoint(p, q, k);
        }
      }
    } else if add == 0 {
      MinorBounds(den, add, k);
      MinorBounds(den, add, den - k);
    }
  }

  /** With no tie both directions paint the same pixels; with one they do not. */
  lemma DirectionFreeIffNoTie(p: Pt, q: Pt)
    requires 0 < Longer(p, q)
    ensures LinePixels(p, q) == LinePixels(q, p)
      <==> forall k: nat :: k <= Longer(p, q) ==> !Tie(Longer(p, q), Shorter(p, q), k)
  {
    var den, add := Longer(p, q), Shorter(p, q);
    if k: nat :| k <= den && Tie(den, add, k) {
      ReversedPoint(p, q, k);
      LineMembers(p, q, LinePoint(p, q, k));
      assert OnLine(p, q, LinePoint(p, q, k));
    } else {
      NoTieCovers(p, q);
      assert forall k: nat :: k <= den ==> !Tie(den, add, k);
      forall k: nat | k <= den
        ensures !Tie(Longer(q, p), Shorter(q, p), k)
      {
        assert !Tie(den, add, k);
      }
      NoTieCovers(q, p);
    }
  }

  lemma NoTieCovers(p: Pt, q: Pt)
    requires 0 < Longer(p, q)
    requires forall k: nat :: k <= Longer(p, q) ==> !Tie(Longer(p, q), Shorter(p, q), k)
    ensures forall r :: r in LinePixels(p, q) ==> r in LinePixels(q, p)
  {
    forall r | r in LinePixels(p, q)
      ensures r in LinePixels(q, p)
    {
      LineMembers(p, q, r);
      LineMembers(q, p, r);
      var k: nat :| k < Longer(p, q) + 1 && r == LinePoint(p, q, k);
      ReversedPoint(p, q, k);
      var j: nat := Longer(p, q) - k;
      assert r == LinePoint(q, p, j) && j < Longer(q, p) + 1;
    }
  }

  /** A tie exists exactly when the longer side stays even after stripping. */
  lemma {:induction false} TieNeedsEven(den: nat, add: nat, k: nat)
    requires den > 0 && Tie(den, add, k)
    ensures Stripped(den, add) % 2 == 0
    decreases den
  {
    if add % 2 == 0 {
      var d1, a1 := den / 2, add / 2;
      var z := (d1 + k * add) / den;
      assert d1 + k * add == z * den;
      Doubled(k, a1, z, d1);
      // d1 + 2ka1 is a multiple of 2 d1, so d1 is even and halves again to a tie
      assert d1 == 2 * (z * d1 - k * a1);
      var h := d1 / 2;
      assert h + k * a1 == z * d1;
      RemainderIsUnique(h + k * a1, d1, z, 0);
      TieNeedsEven(d1, a1, k);
    }
  }

  lemma Doubled(k: int, a: int, z: int, d: int)
    ensures k * (2 * a) == 2 * (k * a) && z * (2 * d) == 2 * (z * d)
  {
  }

  lemma OddTimes(k: int, b: int)
    ensures k * (2 * b + 1) + k == (b + 1) * (2 * k)
  {
  }

  lemma {:induction false} EvenGivesTie(den: nat, add: nat) returns (k: nat)
    requires den > 0 && Stripped(den, add) % 2 == 0
    ensures k <= den && Tie(den, add, k)
    decreases den
  {
    if add % 2 == 0 {
      var d1, a1 := den / 2, add / 2;
      k := EvenGivesTie(d1, a1);
      var z := (d1 / 2 + k * a1) / d1;
      assert d1 / 2 + k * a1 == z * d1;
      Doubled(k, a1, z, d1);
      RemainderIsUnique(d1 + k * add, den, z, 0);
    } else {
      k := den / 2;
      var b := add / 2;
      OddTimes(k, b);
      RemainderIsUnique(k + k * add, den, b + 1, 0);
    }
  }

  /** A line paints the same pixels from either end if and only if its longer side,
      with the factors of two shared with the shorter side cancelled, is odd (or the
      line is a single pixel).  In particular every line with an odd longer side does. */
  lemma LineDirection(p: Pt, q: Pt)
    ensures LinePixels(p, q) == LinePixels(q, p) <==> DirectionFree(p, q)
    ensures Longer(p, q) % 2 == 1 ==> LinePixels(p, q) == LinePixels(q, p)
  {
    var den, add := Longer(p, q), Shorter(p, q);
    if den == 0 {
      assert p == q;
    } else {
      DirectionFreeIffNoTie(p, q);
      if Stripped(den, add) % 2 == 0 {
        var k := EvenGivesTie(den, add);
      } else {
        forall k: nat | k <= den
          ensures !Tie(den, add, k)
        {
          if Tie(den, add, k) {
            TieNeedsEven(den, add, k);
          }
        }
      }
    }
  }

  /** The shortest line that depends on its direction, anywhere on the screen. */
  lemma DirectionMatters(p: Pt, q: Pt)
    requires Longer(p, q) == 2 && Shorter(p, q) == 1
    ensures LinePixels(p, q) != LinePixels(q, p)
  {
    LineDirection(p, q);
    assert Stripped(2, 1) == 2;
  }
}
