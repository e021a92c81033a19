/** The affine addition law of the curve: on a complete curve its denominators
    never vanish, it stays on the curve, and it has an identity. */
module EdwardsLaw {
  import opened Congruence
  import opened Edwards
  import opened EdwardsAlgebra

  // The source's root of -1, computed there as pow(2, (P - 1) // 4, P).
  const SQRT_MINUS_ONE := 19681161376707505956807079304988542015446066515923890162744021073123829784752

  // The source's curve: p is 2^255 - 19, d is -121665/121666, and -1 is a square.
  lemma Ed25519Constants()
    ensures ED25519.p == 0x7FFFFFFF_FFFFFFFF_FFFFFFFF_FFFFFFFF_FFFFFFFF_FFFFFFFF_FFFFFFFF_FFFFFFED
    ensures 0 <= ED25519.d < ED25519.p && 0 <= SQRT_MINUS_ONE < ED25519.p
    ensures Cong(ED25519.d * 121666, -121665, ED25519.p) && IsRoot(SQRT_MINUS_ONE, -1, ED25519.p)
  {
    hide Cong;
    CongBy(ED25519.d * 121666, -121665, 77955, ED25519.p);
    CongBy(SQRT_MINUS_ONE * SQRT_MINUS_ONE, -1,
           6690407189080634018507799843845558368979872843924222843531373839242004886245, ED25519.p);
  }

  ghost predicate IsRoot(s: int, v: int, p: int)
    requires p > 0
  {
    Cong(s * s, v, p)
  }

  // An odd prime field in which -1 is a square and d is not.
  ghost predicate IsComplete(c: Curve) {
    && IsPrime(c.p) && c.p > 2
    && (exists i :: IsRoot(i, -1, c.p))
    && (forall s :: !IsRoot(s, c.d, c.p))
  }

  function CurveDefect(c: Curve, a: Affine): int {
    (a.1 * a.1 - a.0 * a.0) - (1 + c.d * ((a.0 * a.1) * (a.0 * a.1)))
  }

  // A canonical point of the curve y^2 - x^2 = 1 + d x^2 y^2.
  ghost predicate OnCurve(c: Curve, a: Affine)
    requires c.p > 0
  {
    0 <= a.0 < c.p && 0 <= a.1 < c.p && Cong(CurveDefect(c, a), 0, c.p)
  }

  lemma MatchSquares(c: Curve, a: Affine, b: Affine, i: int, k: int, alpha: int)
    requires k == Slope(c, a, b) && alpha == c.d * ((a.0 * a.1) * (a.0 * a.1))
    ensures var s, t := i * a.0 + k * a.1, (a.0 * a.1) * (i * b.0 + b.1);
            s * s - c.d * (t * t) == (i * i) * (a.0 * a.0) + (k * k) * (a.1 * a.1)
                                     - alpha * ((i * i) * (b.0 * b.0) + b.1 * b.1)
  {
    SquareOfSum(i, k, a.0, a.1);
    MatchRight(c.d, i, b.0, b.1, a.0 * a.1, k);
    CrossTerm(i, k, a.0, a.1);
  }

  lemma MatchDefects(c: Curve, a: Affine, b: Affine, i: int, k: int, alpha: int)
    requires k == Slope(c, a, b) && alpha == c.d * ((a.0 * a.1) * (a.0 * a.1))
    ensures var s, t := i * a.0 + k * a.1, (a.0 * a.1) * (i * b.0 + b.1);
            s * s - c.d * (t * t) == (i * i + 1) * (a.0 * a.0 - alpha * (b.0 * b.0)) + (k * k - 1) * (a.1 * a.1 - 1)
                                     + CurveDefect(c, a) * 1 + CurveDefect(c, b) * (-alpha)
  {
    MatchSquares(c, a, b, i, k, alpha);
    SlopeSquare(c.d, a.0 * a.1, b.0 * b.1);
    MatchCombine(i * i, a.0 * a.0, a.1 * a.1, b.0 * b.0, b.1 * b.1, k * k, alpha,
                 c.d * ((b.0 * b.1) * (b.0 * b.1)));
    assert CurveDefect(c, b) * (-alpha) == -(alpha * CurveDefect(c, b));
  }

  // For a square root i of -1 and a slope whose square is 1, a curve equation
  // makes d a quotient of squares.
  lemma SlopeMatch(c: Curve, a: Affine, b: Affine, i: int)
    requires c.p > 0 && OnCurve(c, a) && OnCurve(c, b) && IsRoot(i, -1, c.p)
    requires Cong(Slope(c, a, b) * Slope(c, a, b), 1, c.p)
    ensures var s, t := i * a.0 + Slope(c, a, b) * a.1, (a.0 * a.1) * (i * b.0 + b.1);
            Cong(s * s, c.d * (t * t), c.p)
  {
    hide Cong, OnCurve, CurveDefect, Slope;
    var p, d, k := c.p, c.d, Slope(c, a, b);
    var alpha := d * ((a.0 * a.1) * (a.0 * a.1));
    var s, t := i * a.0 + k * a.1, (a.0 * a.1) * (i * b.0 + b.1);
    MatchDefects(c, a, b, i, k, alpha);
    OnCurveDefect(c, a);
    OnCurveDefect(c, b);
    ShiftCong(i * i, -1, i * i + 1, p);
    ShiftCong(k * k, 1, k * k - 1, p);
    Combine4(i * i + 1, a.0 * a.0 - alpha * (b.0 * b.0), k * k - 1, a.1 * a.1 - 1,
             CurveDefect(c, a), 1, CurveDefect(c, b), -alpha, p);
    ShiftCong(s * s, d * (t * t), s * s - d * (t * t), p);
  }

  lemma OnCurveDefect(c: Curve, a: Affine)
    requires c.p > 0 && OnCurve(c, a)
    ensures Cong(CurveDefect(c, a), 0, c.p)
  {
  }

  // A quotient of squares has a root.
  lemma RootOfQuotient(s: int, d: int, t: int, p: int)
    requires IsPrime(p) && !Cong(t, 0, p) && Cong(s * s, d * (t * t), p)
    ensures IsRoot(s * PowMod(t, p - 2, p), d, p)
  {
    hide Cong;
    var r := PowMod(t, p - 2, p);
    InverseWorks(t, p);
    CongSelf(r * r, p);
    CongSelf(d, p);
    CongProduct(s * s, d * (t * t), r * r, r * r, p);
    CongProduct(t * r, 1, t * r, 1, p);
    CongProduct(d, d, (t * r) * (t * r), 1, p);
    SquareOfProduct(s, r);
    SquareOfProduct(t, r);
    Reassociate(d, t * t, r * r);
    CongTransitive((s * r) * (s * r), d * ((t * r) * (t * r)), d, p);
  }

  // d is no quotient of squares either.
  lemma NonSquareQuotient(c: Curve, s: int, t: int)
    requires IsComplete(c) && Cong(s * s, c.d * (t * t), c.p)
    ensures Cong(t, 0, c.p)
  {
    hide Cong, IsRoot;
    if !Cong(t, 0, c.p) {
      RootOfQuotient(s, c.d, t, c.p);
    }
  }

  lemma BothVanish(P: int, x: int, y: int, i: int, p: int)
    requires IsPrime(p) && p > 2 && Cong(P * (i * x + y), 0, p) && Cong(P * (-i * x + y), 0, p)
    ensures Cong(P * y, 0, p)
  {
    hide Cong;
    CongSum(P * (i * x + y), 0, P * (-i * x + y), 0, p);
    var f := i * x;
    assert -i * x == -f;
    assert P * (f + y) + P * (-f + y) == 2 * (P * y);
    NoZeroDivisors(2, P * y, p);
    SmallNonZero(2, p);
  }

  lemma RootNegated(i: int, v: int, p: int)
    requires p > 0 && IsRoot(i, v, p)
    ensures IsRoot(-i, v, p)
  {
    assert (-i) * (-i) == i * i;
  }

  lemma SlopeThrough(c: Curve, a: Affine, b: Affine)
    ensures Slope(c, a, b) == ((a.0 * a.1) * b.1) * (c.d * b.0)
  {
    var m := a.0 * a.1;
    assert m * (b.0 * b.1) == (m * b.1) * b.0;
    assert c.d * ((m * b.1) * b.0) == (m * b.1) * (c.d * b.0);
  }

  // A slope whose square is 1 would have to vanish.
  lemma UnitSlopeVanishes(c: Curve, a: Affine, b: Affine)
    requires IsComplete(c) && OnCurve(c, a) && OnCurve(c, b)
    requires Cong(Slope(c, a, b) * Slope(c, a, b), 1, c.p)
    ensures Cong(Slope(c, a, b), 0, c.p)
  {
    hide Cong, Slope, OnCurve, IsRoot;
    var p, k, P1 := c.p, Slope(c, a, b), a.0 * a.1;
    var i :| IsRoot(i, -1, p);
    RootNegated(i, -1, p);
    SlopeMatch(c, a, b, i);
    SlopeMatch(c, a, b, -i);
    NonSquareQuotient(c, i * a.0 + k * a.1, P1 * (i * b.0 + b.1));
    NonSquareQuotient(c, -i * a.0 + k * a.1, P1 * (-i * b.0 + b.1));
    BothVanish(P1, b.0, b.1, i, p);
    SlopeThrough(c, a, b);
    CongZeroTimes(P1 * b.1, c.d * b.0, p);
  }

  // No two points have a slope whose square is 1.
  lemma SlopeSquareIsNotOne(c: Curve, a: Affine, b: Affine)
    requires IsComplete(c) && OnCurve(c, a) && OnCurve(c, b)
    ensures !Cong(Slope(c, a, b) * Slope(c, a, b), 1, c.p)
  {
    hide Cong, Slope, OnCurve;
    var k := Slope(c, a, b);
    if Cong(k * k, 1, c.p) {
      UnitSlopeVanishes(c, a, b);
      CongZeroTimes(k, k, c.p);
      ZeroIsNotOne(k * k, c.p);
    }
  }

  // The addition law is complete: no pair of points has a vanishing denominator.
  lemma DenominatorsNeverVanish(c: Curve, a: Affine, b: Affine)
    requires IsComplete(c) && OnCurve(c, a) && OnCurve(c, b)
    ensures !Cong(1 + Slope(c, a, b), 0, c.p) && !Cong(1 - Slope(c, a, b), 0, c.p)
  {
    hide Cong, Slope, OnCurve;
    var p, k := c.p, Slope(c, a, b);
    SlopeSquareIsNotOne(c, a, b);
    DifferenceOfSquares(k);
    ShiftCong(k * k, 1, k * k - 1, p);
    if Cong(1 + k, 0, p) { CongZeroTimes(1 + k, k - 1, p); }
    if Cong(1 - k, 0, p) { CongZeroTimes(1 - k, -1 - k, p); }
  }

  function AffineAdd(c: Curve, a: Affine, b: Affine): Affine
    requires c.p >= 2
  {
    var k := Slope(c, a, b);
    (((a.0 * b.1 + b.0 * a.1) * PowMod(1 + k, c.p - 2, c.p)) % c.p,
     ((a.1 * b.1 + a.0 * b.0) * PowMod(1 - k, c.p - 2, c.p)) % c.p)
  }

  lemma QuotientTimes(u: int, z: int, p: int)
    requires IsPrime(p) && !Cong(z, 0, p)
    ensures Cong(((u * PowMod(z, p - 2, p)) % p) * z, u, p)
  {
    hide Cong;
    var r := PowMod(z, p - 2, p);
    CongMod(u * r, p);
    CongProduct((u * r) % p, u * r, z, z, p) by { CongSelf(z, p); }
    InverseWorks(z, p);
    CongProduct(u, u, z * r, 1, p) by { CongSelf(u, p); }
    assert u * (z * r) == (u * r) * z;
    CongTransitive(((u * r) % p) * z, (u * r) * z, u, p);
  }

  lemma AffineAddIsSum(c: Curve, a: Affine, b: Affine)
    requires IsComplete(c) && OnCurve(c, a) && OnCurve(c, b)
    ensures IsSum(c, a, b, AffineAdd(c, a, b))
  {
    DenominatorsNeverVanish(c, a, b);
    QuotientTimes(a.0 * b.1 + b.0 * a.1, 1 + Slope(c, a, b), c.p);
    QuotientTimes(a.1 * b.1 + a.0 * b.0, 1 - Slope(c, a, b), c.p);
  }

  predicate Canonical(c: Curve, a: Affine) {
    0 <= a.0 < c.p && 0 <= a.1 < c.p
  }

  lemma Cancel(x: int, y: int, m: int, v: int, p: int)
    requires IsPrime(p) && !Cong(m, 0, p) && Cong(x * m, v, p) && Cong(y * m, v, p)
    ensures Cong(x, y, p)
  {
    hide Cong;
    CongSymmetric(y * m, v, p);
    CongTransitive(x * m, v, y * m, p);
    assert x * m - y * m == (x - y) * m;
    ShiftCong(x * m, y * m, (x - y) * m, p);
    NoZeroDivisors(x - y, m, p);
    ShiftCong(x, y, x - y, p);
  }

  lemma SumUnique(c: Curve, a: Affine, b: Affine, s: Affine, t: Affine)
    requires IsPrime(c.p) && IsSum(c, a, b, s) && IsSum(c, a, b, t) && Canonical(c, s) && Canonical(c, t)
    ensures s == t
  {
    hide Cong;
    var p, k := c.p, Slope(c, a, b);
    Cancel(s.0, t.0, 1 + k, a.0 * b.1 + b.0 * a.1, p);
    Cancel(s.1, t.1, 1 - k, a.1 * b.1 + a.0 * b.0, p);
    CongSameResidue(s.0, t.0, p);
    CongSameResidue(s.1, t.1, p);
  }

  lemma IdentityOnCurve(c: Curve)
    requires c.p > 1
    ensures OnCurve(c, IDENTITY)
  {
    hide Cong;
    assert CurveDefect(c, IDENTITY) == 0;
    CongSelf(0, c.p);
  }

  lemma SlopeOfIdentity(c: Curve, a: Affine)
    ensures Slope(c, a, IDENTITY) == 0 && Slope(c, IDENTITY, a) == 0
  {
  }

  lemma SumWithIdentity(c: Curve, a: Affine)
    requires c.p > 1
    ensures IsSum(c, a, IDENTITY, a) && IsSum(c, IDENTITY, a, a)
  {
    hide Cong, Slope;
    SlopeOfIdentity(c, a);
    SmallNonZero(1, c.p);
    CongSelf(a.0, c.p);
    CongSelf(a.1, c.p);
  }

  lemma AddIdentity(c: Curve, a: Affine)
    requires IsComplete(c) && OnCurve(c, a)
    ensures OnCurve(c, IDENTITY) && AffineAdd(c, a, IDENTITY) == a && AffineAdd(c, IDENTITY, a) == a
  {
    hide Cong, Slope, IsSum;
    IdentityOnCurve(c);
    SumWithIdentity(c, a);
    AffineAddIsSum(c, a, IDENTITY);
    AffineAddIsSum(c, IDENTITY, a);
    SumUnique(c, a, IDENTITY, AffineAdd(c, a, IDENTITY), a);
    SumUnique(c, IDENTITY, a, AffineAdd(c, IDENTITY, a), a);
  }

  // ---------------------------------------------------------------------
  // Sums stay on the curve
  // ---------------------------------------------------------------------

  // The curve equation of (x / (1 + k), y / (1 - k)), cleared of denominators.
  function Cleared(d: int, k: int, x: int, y: int): int {
    (y * y) * ((1 + k) * (1 + k)) - (x * x) * ((1 - k) * (1 - k)) - d * ((x * x) * (y * y))
  }

  lemma ClearedCong(d: int, k: int, x: int, u: int, y: int, v: int, p: int)
    requires p > 0 && Cong(x, u, p) && Cong(y, v, p)
    ensures Cong(Cleared(d, k, x, y), Cleared(d, k, u, v), p)
  {
    hide Cong;
    var m, n := (1 + k) * (1 + k), (1 - k) * (1 - k);
    CongSelf(m, p);
    CongSelf(n, p);
    CongSelf(d, p);
    CongProduct(x, u, x, u, p);
    CongProduct(y, v, y, v, p);
    CongProduct(y * y, v * v, m, m, p);
    CongProduct(x * x, u * u, n, n, p);
    CongProduct(x * x, u * u, y * y, v * v, p);
    CongProduct(d, d, (x * x) * (y * y), (u * u) * (v * v), p);
    CongSum((y * y) * m, (v * v) * m, (x * x) * n, (u * u) * n, p);
    CongSum((y * y) * m - (x * x) * n, (v * v) * m - (u * u) * n, d * ((x * x) * (y * y)), d * ((u * u) * (v * v)), p);
  }

  lemma ClearDenominators(c: Curve, s: Affine, k: int)
    ensures var D := (1 - k * k) * (1 - k * k);
            D * CurveDefect(c, s) == Cleared(c.d, k, s.0 * (1 + k), s.1 * (1 - k)) - D
  {
    var X, Y, m, n := s.0, s.1, 1 + k, 1 - k;
    var D, XX, YY, mm, nn := (1 - k * k) * (1 - k * k), X * X, Y * Y, m * m, n * n;
    DifferenceOfSquares(k);
    SquareOfProduct(m, n);
    SquareOfProduct(X, m);
    SquareOfProduct(Y, n);
    SquareOfProduct(X, Y);
    ClearTerms(c.d, XX, YY, mm, nn);
  }

  lemma ClearedShape(d: int, x1: int, y1: int, x2: int, y2: int)
    ensures var k, x, y, m, n := d * ((x1 * y1) * (x2 * y2)), x1 * x1, y1 * y1, x2 * x2, y2 * y2;
            var A, B, alpha, beta := y - x, n - m, d * (x * y), d * (m * n);
            Cleared(d, k, x1 * y2 + x2 * y1, y1 * y2 + x1 * x2)
            == (A * B) * (1 + k * k) - alpha * (B * B) - beta * (A * A)
  {
    var P := (x1 * y1) * (x2 * y2);
    var x, y, m, n := x1 * x1, y1 * y1, x2 * x2, y2 * y2;
    assert P * P == (x * y) * (m * n) by {
      SquareOfProduct(x1 * y1, x2 * y2);
      SquareOfProduct(x1, y1);
      SquareOfProduct(x2, y2);
    }
    SumSquare(x1, y1, x2, y2);
    SumSquare(y1, x1, x2, y2);
    assert y1 * x1 == x1 * y1 && x2 * x1 == x1 * x2 && m * x == x * m;
    ClosureIdentity(d, x, y, m, n, P);
  }

  lemma SlopeSquareProduct(c: Curve, a: Affine, b: Affine)
    ensures Slope(c, a, b) * Slope(c, a, b)
         == (c.d * ((a.0 * a.0) * (a.1 * a.1))) * (c.d * ((b.0 * b.0) * (b.1 * b.1)))
  {
    SlopeSquare(c.d, a.0 * a.1, b.0 * b.1);
    SquareOfProduct(a.0, a.1);
    SquareOfProduct(b.0, b.1);
  }

  lemma ClosureZero(F: int, A: int, B: int, alpha: int, beta: int, kk: int, p: int)
    requires p > 0 && kk == alpha * beta && F == (A * B) * (1 + kk) - alpha * (B * B) - beta * (A * A)
    requires Cong(A - (1 + alpha), 0, p) && Cong(B - (1 + beta), 0, p)
    ensures Cong(F - (1 - kk) * (1 - kk), 0, p)
  {
    hide Cong;
    var q := (1 + kk) * B - beta * (A + 1 + alpha);
    var r := (1 + kk) * (1 + alpha) - alpha * (B + 1 + beta);
    ClosureCombine(A, B, alpha, beta);
    CongZeroTimes(A - (1 + alpha), q, p);
    CongZeroTimes(B - (1 + beta), r, p);
    CongSum((A - (1 + alpha)) * q, 0, (B - (1 + beta)) * r, 0, p);
    assert (A * B) * (1 + kk) == (1 + kk) * (A * B);
  }

  // The cleared equation of a sum follows from the equations of its arguments.
  lemma ClearedSum(c: Curve, a: Affine, b: Affine)
    requires c.p > 0 && Cong(CurveDefect(c, a), 0, c.p) && Cong(CurveDefect(c, b), 0, c.p)
    ensures var k := Slope(c, a, b);
            Cong(Cleared(c.d, k, a.0 * b.1 + b.0 * a.1, a.1 * b.1 + a.0 * b.0) - (1 - k * k) * (1 - k * k), 0, c.p)
  {
    hide CurveDefect, Cleared, Cong;
    var d, k := c.d, Slope(c, a, b);
    var x, y, m, n := a.0 * a.0, a.1 * a.1, b.0 * b.0, b.1 * b.1;
    ClearedShape(d, a.0, a.1, b.0, b.1);
    SlopeSquareProduct(c, a, b);
    DefectShape(c, a);
    DefectShape(c, b);
    ClosureZero(Cleared(d, k, a.0 * b.1 + b.0 * a.1, a.1 * b.1 + a.0 * b.0),
                y - x, n - m, d * (x * y), d * (m * n), k * k, c.p);
  }

  lemma DefectShape(c: Curve, a: Affine)
    ensures CurveDefect(c, a) == (a.1 * a.1 - a.0 * a.0) - (1 + c.d * ((a.0 * a.0) * (a.1 * a.1)))
  {
    SquareOfProduct(a.0, a.1);
  }

  lemma SumOnCurve(c: Curve, a: Affine, b: Affine, s: Affine)
    requires IsComplete(c) && OnCurve(c, a) && OnCurve(c, b) && IsSum(c, a, b, s)
    ensures Cong(CurveDefect(c, s), 0, c.p)
  {
    hide CurveDefect, Cleared, Cong, Slope;
    var p, k := c.p, Slope(c, a, b);
    var u, v := a.0 * b.1 + b.0 * a.1, a.1 * b.1 + a.0 * b.0;
    var D := (1 - k * k) * (1 - k * k);
    OnCurveDefect(c, a);
    OnCurveDefect(c, b);
    ClearedSum(c, a, b);
    ClearedCong(c.d, k, s.0 * (1 + k), u, s.1 * (1 - k), v, p);
    ClearDenominators(c, s, k);
    ShiftCong(Cleared(c.d, k, u, v), D, Cleared(c.d, k, u, v) - D, p);
    CongTransitive(Cleared(c.d, k, s.0 * (1 + k), s.1 * (1 - k)), Cleared(c.d, k, u, v), D, p);
    ShiftCong(Cleared(c.d, k, s.0 * (1 + k), s.1 * (1 - k)), D, D * CurveDefect(c, s), p);
    ProductNonZero(1 + k, 1 - k, p);
    assert (1 + k) * (1 - k) == 1 - k * k;
    ProductNonZero(1 - k * k, 1 - k * k, p);
    NoZeroDivisors(D, CurveDefect(c, s), p);
  }

  // The affine law is a total operation on the curve.
  lemma AffineAddCloses(c: Curve, a: Affine, b: Affine)
    requires IsComplete(c) && OnCurve(c, a) && OnCurve(c, b)
    ensures OnCurve(c, AffineAdd(c, a, b)) && IsSum(c, a, b, AffineAdd(c, a, b))
  {
    AffineAddIsSum(c, a, b);
    SumOnCurve(c, a, b, AffineAdd(c, a, b));
  }
}
