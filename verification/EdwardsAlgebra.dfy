/** The integer identities behind the affine addition law.

    The first group expands and regroups products; the second serves the proof
    that denominators do not vanish, the third the proof that sums stay on the
    curve. */
module EdwardsAlgebra {

  lemma SquareSum(f: int, g: int)
    ensures (f + g) * (f + g) == f * f + g * g + 2 * (f * g)
  {
  }

  lemma Reassociate(d: int, x: int, y: int)
    ensures d * (x * y) == (d * x) * y
  {
  }

  lemma SwapInner(w: int, x: int, y: int, z: int)
    ensures (w * x) * (y * z) == (w * y) * (x * z)
  {
    Reassociate(w, x, y * z);
    Reassociate(w, y, x * z);
    assert x * (y * z) == y * (x * z);
  }

  lemma SquareOfProduct(x: int, m: int)
    ensures (x * m) * (x * m) == (x * x) * (m * m)
  {
  }

  lemma DistributeOne(e: int, x: int, y: int)
    ensures e * (x + y) == e * x + e * y
  {
  }

  lemma DistributeBoth(w: int, x: int, y: int, z: int)
    ensures (w + x) * (y + z) == w * y + w * z + x * y + x * z
  {
  }

  lemma Distribute(e: int, x: int, y: int)
    ensures e * (x + 2 * y) == e * x + 2 * (e * y)
  {
  }

  lemma DifferenceOfSquares(k: int)
    ensures k * k - 1 == (1 + k) * (k - 1) && k * k - 1 == (1 - k) * (-1 - k) && 1 - k * k == (1 + k) * (1 - k)
  {
  }

  lemma SquareOfSum(m: int, n: int, x: int, y: int)
    ensures (m * x + n * y) * (m * x + n * y) == (m * m) * (x * x) + 2 * ((m * x) * (n * y)) + (n * n) * (y * y)
  {
    var f, g := m * x, n * y;
    SquareSum(f, g);
    SquareOfProduct(m, x);
    SquareOfProduct(n, y);
  }

  lemma CrossTerm(i: int, k: int, x: int, y: int)
    ensures (i * x) * (k * y) == i * (k * (x * y))
  {
    SwapInner(i, x, k, y);
    Reassociate(i, k, x * y);
  }

  lemma CrossMatch(d: int, i: int, m: int, n: int, k: int, alpha: int)
    requires k == d * (m * n) && alpha == d * (m * m)
    ensures alpha * (i * n) == i * (k * m)
  {
    assert alpha * n == k * m;
    assert alpha * (i * n) == i * (alpha * n);
  }

  lemma ScaledSquare(d: int, m: int, f: int, g: int)
    ensures d * ((m * (f + g)) * (m * (f + g))) == (d * (m * m)) * (f * f + g * g) + 2 * ((d * (m * m)) * (f * g))
  {
    var u := f + g;
    assert (m * u) * (m * u) == (m * m) * (u * u);
    assert d * ((m * m) * (u * u)) == (d * (m * m)) * (u * u);
    assert u * u == (f * f + g * g) + 2 * (f * g);
    Distribute(d * (m * m), f * f + g * g, f * g);
  }

  lemma MatchRight(d: int, i: int, x2: int, y2: int, m: int, k: int)
    requires k == d * (m * (x2 * y2))
    ensures var t, alpha := m * (i * x2 + y2), d * (m * m);
            d * (t * t) == alpha * ((i * i) * (x2 * x2) + y2 * y2) + 2 * (i * (k * m))
  {
    ScaledSquare(d, m, i * x2, y2);
    CrossMatch(d, i, m, x2 * y2, k, d * (m * m));
    Reassociate(i, x2, y2);
    SquareOfProduct(i, x2);
  }

  lemma SlopeSquare(d: int, m: int, n: int)
    ensures (d * (m * n)) * (d * (m * n)) == (d * (m * m)) * (d * (n * n))
  {
    assert (m * n) * (m * n) == (m * m) * (n * n);
  }

  lemma MatchCombine(I: int, X1: int, Y1: int, X2: int, Y2: int, K: int, alpha: int, beta: int)
    requires K == alpha * beta
    ensures I * X1 + K * Y1 - alpha * (I * X2 + Y2)
         == (I + 1) * (X1 - alpha * X2) + (K - 1) * (Y1 - 1)
            + (Y1 - X1 - (1 + alpha)) - alpha * (Y2 - X2 - (1 + beta))
  {
    assert (I + 1) * (X1 - alpha * X2) == I * X1 - alpha * (I * X2) + X1 - alpha * X2;
    assert (K - 1) * (Y1 - 1) == K * Y1 - K - Y1 + 1;
    assert alpha * (Y2 - X2 - (1 + beta)) == alpha * Y2 - alpha * X2 - alpha - alpha * beta;
    assert alpha * (I * X2 + Y2) == alpha * (I * X2) + alpha * Y2;
  }

  lemma SplitDifference(q: int, x: int, y: int)
    ensures q * (x - y) == q * x - q * y
  {
  }

  lemma ProductDifference(e: int, A: int, m: int, B: int, n: int)
    ensures (A - m) * (e * B) + (B - n) * (e * m) == e * (A * B) - e * (m * n)
  {
  }

  lemma SquareDifference(e: int, A: int, m: int)
    ensures (A - m) * (e * (A + m)) == e * (A * A) - e * (m * m)
  {
  }

  lemma ClosureAtCurve(alpha: int, beta: int)
    ensures (1 + alpha * beta) * ((1 + alpha) * (1 + beta)) - (1 - alpha * beta) * (1 - alpha * beta)
         == alpha * ((1 + beta) * (1 + beta)) + beta * ((1 + alpha) * (1 + alpha))
  {
  }

  // The curve equation of the sum, cleared of denominators: a combination of
  // the equations of the arguments, A == 1 + alpha and B == 1 + beta.
  lemma ClosureCombine(A: int, B: int, alpha: int, beta: int)
    ensures (1 + alpha * beta) * (A * B) - (1 - alpha * beta) * (1 - alpha * beta) - alpha * (B * B) - beta * (A * A)
         == (A - (1 + alpha)) * ((1 + alpha * beta) * B - beta * (A + 1 + alpha))
            + (B - (1 + beta)) * ((1 + alpha * beta) * (1 + alpha) - alpha * (B + 1 + beta))
  {
    var g, m, n := alpha * beta, 1 + alpha, 1 + beta;
    SplitDifference(A - m, (1 + g) * B, beta * (A + 1 + alpha));
    SplitDifference(B - n, (1 + g) * m, alpha * (B + 1 + beta));
    ProductDifference(1 + g, A, m, B, n);
    SquareDifference(beta, A, m);
    SquareDifference(alpha, B, n);
    ClosureAtCurve(alpha, beta);
  }

  lemma SumSquare(x1: int, y1: int, x2: int, y2: int)
    ensures (x1 * y2 + x2 * y1) * (x1 * y2 + x2 * y1)
         == (x1 * x1) * (y2 * y2) + (x2 * x2) * (y1 * y1) + 2 * ((x1 * y1) * (x2 * y2))
  {
    SquareSum(x1 * y2, x2 * y1);
    SquareOfProduct(x1, y2);
    SquareOfProduct(x2, y1);
    assert x2 * y1 == y1 * x2 && y2 * x2 == x2 * y2;
    SwapInner(x1, y2, y1, x2);
  }

  lemma ShiftedProduct(f: int, g: int, P: int)
    ensures (f + 2 * P) * (g + 2 * P) == f * g + 2 * (P * (f + g)) + 4 * (P * P)
  {
  }

  lemma CrossSum(a: int, b: int, m: int, n: int)
    ensures (a * n + m * b) + (b * n + a * m) == (a + b) * (m + n)
    ensures (b * n + a * m) - (a * n + m * b) == (b - a) * (n - m)
  {
  }

  lemma CrossProduct(a: int, b: int, m: int, n: int)
    ensures (a * n + m * b) * (b * n + a * m) == (a * b) * (m * m + n * n) + (m * n) * (a * a + b * b)
  {
    DistributeBoth(a * n, m * b, b * n, a * m);
    SwapInner(a, n, b, n);
    SwapInner(n, a, m, a);
    SwapInner(m, b, n, b);
    SwapInner(b, m, a, m);
    DistributeOne(a * b, m * m, n * n);
    DistributeOne(m * n, a * a, b * b);
    assert a * n == n * a && m * b == b * m && b * n == n * b && a * m == m * a && b * a == a * b && n * m == m * n;
  }

  // The product of the two squares, for squares a, b, m, n of the coordinates.
  lemma ProductOfSquares(a: int, b: int, m: int, n: int, P: int)
    requires P * P == (a * b) * (m * n)
    ensures (a * n + m * b + 2 * P) * (b * n + a * m + 2 * P)
         == (a * b) * (m * m + n * n) + (m * n) * (a * a + b * b) + 2 * (P * ((a + b) * (m + n))) + 4 * (P * P)
  {
    ShiftedProduct(a * n + m * b, b * n + a * m, P);
    CrossSum(a, b, m, n);
    CrossProduct(a, b, m, n);
  }

  lemma TimesFour(d: int, w: int, x: int, y: int, z: int)
    ensures d * (w + x + 2 * y + 4 * z) == d * w + d * x + 2 * (d * y) + 4 * (d * z)
  {
  }

  lemma WeightedDifference(U: int, V: int, k: int)
    ensures V * ((1 + k) * (1 + k)) - U * ((1 - k) * (1 - k)) == (V - U) * (1 + k * k) + 2 * (k * (U + V))
  {
    assert (1 + k) * (1 + k) == 1 + 2 * k + k * k && (1 - k) * (1 - k) == 1 - 2 * k + k * k;
    assert V * (1 + 2 * k + k * k) == V + 2 * (k * V) + V * (k * k);
    assert U * (1 - 2 * k + k * k) == U - 2 * (k * U) + U * (k * k);
  }

  lemma SlopeFactors(d: int, P: int, w: int)
    ensures d * (P * w) == (d * P) * w && d * (P * P) == (d * P) * P
  {
  }

  lemma FourFold(k: int, S: int, P: int)
    ensures k * (S + (S + 4 * P)) == 2 * (k * S) + 4 * (k * P) && k * (S + 4 * P) == k * S + 4 * (k * P)
  {
  }

  lemma SquareSpread(e: int, m: int, n: int)
    ensures e * ((n - m) * (n - m)) == e * (m * m + n * n) - 2 * (e * (m * n))
  {
    assert (n - m) * (n - m) == m * m + n * n - 2 * (m * n);
  }

  lemma ClosureSquares(d: int, a: int, b: int, m: int, n: int, P: int)
    requires P * P == (a * b) * (m * n)
    ensures var alpha, beta := d * (a * b), d * (m * n);
            && alpha * ((n - m) * (n - m)) == alpha * (m * m + n * n) - 2 * ((d * P) * P)
            && beta * ((b - a) * (b - a)) == beta * (a * a + b * b) - 2 * ((d * P) * P)
  {
    Reassociate(d, a * b, m * n);
    Reassociate(d, m * n, a * b);
    Reassociate(d, P, P);
    assert (a * b) * (m * n) == (m * n) * (a * b);
    SquareSpread(d * (a * b), m, n);
    SquareSpread(d * (m * n), a, b);
  }

  lemma ClosureIdentity(d: int, a: int, b: int, m: int, n: int, P: int)
    requires P * P == (a * b) * (m * n)
    ensures var U, V, k := a * n + m * b + 2 * P, b * n + a * m + 2 * P, d * P;
            var A, B, alpha, beta := b - a, n - m, d * (a * b), d * (m * n);
            V * ((1 + k) * (1 + k)) - U * ((1 - k) * (1 - k)) - d * (U * V)
            == (A * B) * (1 + k * k) - alpha * (B * B) - beta * (A * A)
  {
    var U, V, k := a * n + m * b + 2 * P, b * n + a * m + 2 * P, d * P;
    var S := (a + b) * (m + n);
    var w, x := (a * b) * (m * m + n * n), (m * n) * (a * a + b * b);
    ProductOfSquares(a, b, m, n, P);
    TimesFour(d, w, x, P * S, P * P);
    WeightedDifference(U, V, k);
    CrossSum(a, b, m, n);
    FourFold(k, S, P);
    ClosureSquares(d, a, b, m, n, P);
    SlopeFactors(d, P, S);
    Reassociate(d, a * b, m * m + n * n);
    Reassociate(d, m * n, a * a + b * b);
  }

  lemma ClearTerms(d: int, XX: int, YY: int, mm: int, nn: int)
    ensures (mm * nn) * ((YY - XX) - (1 + d * (XX * YY)))
         == (YY * nn) * mm - (XX * mm) * nn - d * ((XX * mm) * (YY * nn)) - mm * nn
  {
    var D := mm * nn;
    assert D * ((YY - XX) - (1 + d * (XX * YY))) == D * YY - D * XX - D - D * (d * (XX * YY));
    assert D * (d * (XX * YY)) == d * ((XX * mm) * (YY * nn)) by {
      assert (XX * mm) * (YY * nn) == D * (XX * YY);
    }
  }
}
