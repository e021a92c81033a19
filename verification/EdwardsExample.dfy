/** A curve that meets every hypothesis of the scalar multiplication theorem:
    y^2 - x^2 = 1 + 2 x^2 y^2 over the field of five elements. */
module EdwardsExample {
  import opened Congruence
  import opened Edwards
  import opened EdwardsLaw
  import opened EdwardsLadder
  import opened Wrappers

  const TINY: Curve := Curve(5, 2)

  // The four points, in the order in which (2, 0) generates them.
  function Point(n: nat): Affine
    requires n < 4
  {
    if n == 0 then (0, 1) else if n == 1 then (2, 0) else if n == 2 then (0, 4) else (3, 0)
  }

  lemma TwoHasNoRoot(s: int)
    ensures !IsRoot(s, 2, 5)
  {
    hide Cong;
    if IsRoot(s, 2, 5) {
      var r := s % 5;
      CongMod(s, 5);
      CongProduct(r, s, r, s, 5);
      CongTransitive(r * r, s * s, 2, 5);
      var k := CongQuotient(r * r, 2, 5);
    }
  }

  lemma TinyIsComplete()
    ensures IsComplete(TINY)
  {
    CongBy(2 * 2, -1, 1, 5);
    assert IsRoot(2, -1, 5);
    forall s
      ensures !IsRoot(s, 2, 5)
    {
      TwoHasNoRoot(s);
    }
  }

  lemma PointsAreOnCurve(n: nat)
    requires n < 4
    ensures OnCurve(TINY, Point(n))
  {
    hide Cong;
    var x, y := Point(n).0, Point(n).1;
    assert CurveDefect(TINY, (0, 1)) == 0 && CurveDefect(TINY, (2, 0)) == -5;
    assert CurveDefect(TINY, (0, 4)) == 15 && CurveDefect(TINY, (3, 0)) == -10;
    CongBy(0, 0, 0, 5);
    CongBy(-5, 0, -1, 5);
    CongBy(15, 0, 3, 5);
    CongBy(-10, 0, -2, 5);
  }

  lemma DefectMultiple(x: int, y: int) returns (k: int)
    requires OnCurve(TINY, (x, y))
    ensures 0 <= x < 5 && 0 <= y < 5 && (y * y - x * x) - (1 + 2 * ((x * y) * (x * y))) == 5 * k
  {
    k := CongQuotient(CurveDefect(TINY, (x, y)), 0, 5);
  }

  // There are no other points.
  lemma OnlyPoints(a: Affine) returns (n: nat)
    requires OnCurve(TINY, a)
    ensures n < 4 && a == Point(n)
  {
    var k := DefectMultiple(a.0, a.1);
    n := FindPoint(a.0, a.1, k);
  }

  lemma FindPoint(x: int, y: int, k: int) returns (n: nat)
    requires 0 <= x < 5 && 0 <= y < 5 && (y * y - x * x) - (1 + 2 * ((x * y) * (x * y))) == 5 * k
    ensures n < 4 && (x, y) == Point(n)
  {
    n := if x == 0 then (if y == 1 then 0 else 2) else if x == 2 then 1 else 3;
  }

  lemma OneToTheThird()
    ensures PowMod(1, 3, 5) == 1
  {
    assert PowMod(1, 0, 5) == 1 && PowMod(1, 1, 5) == 1 && PowMod(1, 2, 5) == 1;
  }

  lemma SlopeIsZero(m: nat, n: nat)
    requires m < 4 && n < 4
    ensures Slope(TINY, Point(m), Point(n)) == 0
  {
    assert Point(m).0 * Point(m).1 == 0;
  }

  lemma AddWithoutSlope(a: Affine, b: Affine)
    requires Slope(TINY, a, b) == 0
    ensures AffineAdd(TINY, a, b) == ((a.0 * b.1 + b.0 * a.1) % 5, (a.1 * b.1 + a.0 * b.0) % 5)
  {
    hide Slope, PowMod;
    OneToTheThird();
  }

  // Adding points adds their indices modulo 4: one coordinate of each is zero.
  lemma TinyAdd(m: nat, n: nat)
    requires m < 4 && n < 4
    ensures AffineAdd(TINY, Point(m), Point(n)) == Point((m + n) % 4)
  {
    hide AffineAdd, Slope;
    SlopeIsZero(m, n);
    AddWithoutSlope(Point(m), Point(n));
    assert m == 0 || m == 1 || m == 2 || m == 3;
    assert n == 0 || n == 1 || n == 2 || n == 3;
  }

  lemma ModuloFour(i: nat, j: nat, k: nat)
    ensures ((i + j) % 4 + k) % 4 == (i + (j + k) % 4) % 4
  {
  }

  lemma TinyAssociates(i: nat, j: nat, k: nat)
    requires i < 4 && j < 4 && k < 4
    ensures var x, y, z := Point(i), Point(j), Point(k);
      AffineAdd(TINY, AffineAdd(TINY, x, y), z) == AffineAdd(TINY, x, AffineAdd(TINY, y, z))
  {
    hide AffineAdd, Point;
    TinyAdd(i, j);
    TinyAdd((i + j) % 4, k);
    TinyAdd(j, k);
    TinyAdd(i, (j + k) % 4);
    ModuloFour(i, j, k);
  }

  lemma TinyIsAssociative()
    ensures IsAssociative(TINY)
  {
    hide AffineAdd, OnCurve, Point;
    forall x, y, z | OnCurve(TINY, x) && OnCurve(TINY, y) && OnCurve(TINY, z)
      ensures AffineAdd(TINY, AffineAdd(TINY, x, y), z) == AffineAdd(TINY, x, AffineAdd(TINY, y, z))
    {
      var i := OnlyPoints(x);
      var j := OnlyPoints(y);
      var k := OnlyPoints(z);
      TinyAssociates(i, j, k);
    }
  }

  // The hypotheses of LadderIsNFold hold together, so multiplication by any
  // number is the n-fold sum there.
  lemma HypothesesHoldTogether(n: nat)
    ensures IsComplete(TINY) && IsAssociative(TINY) && OnCurve(TINY, (2, 0))
    ensures FromExtended(TINY, Ladder(TINY, n, ToExtended(TINY, IDENTITY), ToExtended(TINY, (2, 0))))
         == Ok(NFold(TINY, n, (2, 0)))
  {
    TinyIsComplete();
    TinyIsAssociative();
    PointsAreOnCurve(1);
    LadderIsNFold(TINY, n, (2, 0));
  }
}
