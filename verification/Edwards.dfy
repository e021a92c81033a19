/** Twisted Edwards arithmetic with a = -1 (src/makoto/dsse.py).

    The field and the curve constant are parameters; ED25519 is the source's. */
module Edwards {
  import opened Congruence
  import opened Wrappers

  datatype Curve = Curve(p: int, d: int)

  const ED25519: Curve := Curve(
    57896044618658097711785492504343953926634992332820282019728792003956564819949,
    37095705934669439343138083508754565189542113879843219016388785533085940283555)

  type Affine = (int, int)

  type Extended = (int, int, int, int)

  const IDENTITY: Affine := (0, 1)

  // ---------------------------------------------------------------------
  // The source's functions
  // ---------------------------------------------------------------------

  function ToExtended(c: Curve, a: Affine): Extended
    requires c.p > 0
  {
    (a.0, a.1, 1, (a.0 * a.1) % c.p)
  }

  function ExtendedAdd(c: Curve, l: Extended, r: Extended): Extended
    requires c.p > 0
  {
    var a := ((l.1 - l.0) * (r.1 - r.0)) % c.p;
    var b := ((l.1 + l.0) * (r.1 + r.0)) % c.p;
    var t := (2 * c.d * l.3 * r.3) % c.p;
    var z := (2 * l.2 * r.2) % c.p;
    var e, f, g, h := b - a, z - t, z + t, b + a;
    ((e * f) % c.p, (g * h) % c.p, (f * g) % c.p, (e * h) % c.p)
  }

  datatype DenominatorError = InvalidDenominator

  function FromExtended(c: Curve, e: Extended): Result<Affine, DenominatorError>
    requires c.p >= 2
  {
    if e.2 % c.p == 0 then Err(InvalidDenominator)
    else
      var inverse := PowMod(e.2, c.p - 2, c.p);
      Ok(((e.0 * inverse) % c.p, (e.1 * inverse) % c.p))
  }

  // ---------------------------------------------------------------------
  // Extended points stand for affine ones
  // ---------------------------------------------------------------------

  ghost predicate Represents(c: Curve, e: Extended, a: Affine)
    requires c.p > 0
  {
    && !Cong(e.2, 0, c.p)
    && Cong(e.0, a.0 * e.2, c.p) && Cong(e.1, a.1 * e.2, c.p) && Cong(e.3, (a.0 * a.1) * e.2, c.p)
  }

  function Slope(c: Curve, a: Affine, b: Affine): int {
    c.d * ((a.0 * a.1) * (b.0 * b.1))
  }

  // s is the affine sum of a and b, whose denominators do not vanish
  // (section 5.1.4 of RFC 8032).
  ghost predicate IsSum(c: Curve, a: Affine, b: Affine, s: Affine)
    requires c.p > 0
  {
    && !Cong(1 + Slope(c, a, b), 0, c.p) && !Cong(1 - Slope(c, a, b), 0, c.p)
    && Cong(s.0 * (1 + Slope(c, a, b)), a.0 * b.1 + b.0 * a.1, c.p)
    && Cong(s.1 * (1 - Slope(c, a, b)), a.1 * b.1 + a.0 * b.0, c.p)
  }

  // U stands for u at the scale Z.
  ghost predicate Scaled(U: int, u: int, Z: int, p: int)
    requires p > 0
  {
    Cong(U, u * Z, p)
  }

  lemma ScaledSum(U: int, u: int, V: int, v: int, Z: int, p: int)
    requires p > 0 && Scaled(U, u, Z, p) && Scaled(V, v, Z, p)
    ensures Scaled(U + V, u + v, Z, p) && Scaled(U - V, u - v, Z, p)
  {
    hide Cong;
    CongSum(U, u * Z, V, v * Z, p);
    assert u * Z + v * Z == (u + v) * Z && u * Z - v * Z == (u - v) * Z;
  }

  lemma ScaledProduct(U: int, u: int, Y: int, V: int, v: int, Z: int, p: int)
    requires p > 0 && Scaled(U, u, Y, p) && Scaled(V, v, Z, p)
    ensures Scaled(U * V, u * v, Y * Z, p) && Scaled((U * V) % p, u * v, Y * Z, p)
  {
    hide Cong;
    CongProduct(U, u * Y, V, v * Z, p);
    assert (u * Y) * (v * Z) == (u * v) * (Y * Z);
    CongMod(U * V, p);
    CongTransitive((U * V) % p, U * V, (u * v) * (Y * Z), p);
  }

  lemma ScaledTimes(k: int, U: int, u: int, Z: int, p: int)
    requires p > 0 && Scaled(U, u, Z, p)
    ensures Scaled(k * U, k * u, Z, p) && Scaled((k * U) % p, k * u, Z, p)
  {
    hide Cong;
    CongProduct(k, k, U, u * Z, p) by { CongSelf(k, p); }
    assert k * (u * Z) == (k * u) * Z;
    CongMod(k * U, p);
    CongTransitive((k * U) % p, k * U, (k * u) * Z, p);
  }

  lemma ScaledChange(U: int, u: int, v: int, Z: int, p: int)
    requires p > 0 && Scaled(U, u, Z, p) && Cong(u, v, p)
    ensures Scaled(U, v, Z, p)
  {
    hide Cong;
    CongProduct(u, v, Z, Z, p) by { CongSelf(Z, p); }
    CongTransitive(U, u * Z, v * Z, p);
  }

  // If X is u and Z is v at one scale, and u is x times v, then X is x times Z.
  lemma ScaledRatio(X: int, u: int, Z: int, v: int, W: int, x: int, p: int)
    requires p > 0 && Scaled(X, u, W, p) && Scaled(Z, v, W, p) && Cong(u, x * v, p)
    ensures Cong(X, x * Z, p)
  {
    hide Cong;
    ScaledChange(X, u, x * v, W, p);
    CongProduct(x, x, Z, v * W, p) by { CongSelf(x, p); }
    assert x * (v * W) == (x * v) * W;
    CongSymmetric(x * Z, (x * v) * W, p);
    CongTransitive(X, (x * v) * W, x * Z, p);
  }

  // ---------------------------------------------------------------------
  // Extended addition refines the affine sum
  // ---------------------------------------------------------------------

  // The four intermediate values of the addition at the scale of both denominators.
  lemma AddParts(c: Curve, l: Extended, a: Affine, r: Extended, b: Affine)
    requires c.p > 0 && Represents(c, l, a) && Represents(c, r, b)
    ensures var W := l.2 * r.2;
            && Scaled(((l.1 - l.0) * (r.1 - r.0)) % c.p, (a.1 - a.0) * (b.1 - b.0), W, c.p)
            && Scaled(((l.1 + l.0) * (r.1 + r.0)) % c.p, (a.1 + a.0) * (b.1 + b.0), W, c.p)
            && Scaled((2 * c.d * l.3 * r.3) % c.p, 2 * Slope(c, a, b), W, c.p)
            && Scaled((2 * l.2 * r.2) % c.p, 2, W, c.p)
  {
    hide Cong;
    var p := c.p;
    ScaledSum(l.1, a.1, l.0, a.0, l.2, p);
    ScaledSum(r.1, b.1, r.0, b.0, r.2, p);
    ScaledProduct(l.1 - l.0, a.1 - a.0, l.2, r.1 - r.0, b.1 - b.0, r.2, p);
    ScaledProduct(l.1 + l.0, a.1 + a.0, l.2, r.1 + r.0, b.1 + b.0, r.2, p);
    ScaledTimes(2 * c.d, l.3, a.0 * a.1, l.2, p);
    ScaledProduct(2 * c.d * l.3, 2 * c.d * (a.0 * a.1), l.2, r.3, b.0 * b.1, r.2, p);
    SlopeShape(c.d, a.0 * a.1, b.0 * b.1);
    CongMod(2 * l.2 * r.2, p);
    assert 2 * l.2 * r.2 == 2 * (l.2 * r.2);
  }

  lemma SlopeShape(d: int, m: int, n: int)
    ensures 2 * d * m * n == 2 * (d * (m * n))
  {
  }

  // e, f, g, h of the source at that scale.
  lemma AddFactors(c: Curve, l: Extended, a: Affine, r: Extended, b: Affine)
      returns (e: int, f: int, g: int, h: int)
    requires c.p > 0 && Represents(c, l, a) && Represents(c, r, b)
    ensures ExtendedAdd(c, l, r) == ((e * f) % c.p, (g * h) % c.p, (f * g) % c.p, (e * h) % c.p)
    ensures var W, k := l.2 * r.2, Slope(c, a, b);
            && Scaled(e, 2 * (a.0 * b.1 + b.0 * a.1), W, c.p) && Scaled(f, 2 * (1 - k), W, c.p)
            && Scaled(g, 2 * (1 + k), W, c.p) && Scaled(h, 2 * (a.1 * b.1 + a.0 * b.0), W, c.p)
  {
    var p, W, k := c.p, l.2 * r.2, Slope(c, a, b);
    var A := ((l.1 - l.0) * (r.1 - r.0)) % p;
    var B := ((l.1 + l.0) * (r.1 + r.0)) % p;
    var t := (2 * c.d * l.3 * r.3) % p;
    var z := (2 * l.2 * r.2) % p;
    e, f, g, h := B - A, z - t, z + t, B + A;
    AddParts(c, l, a, r, b);
    ScaledSum(B, (a.1 + a.0) * (b.1 + b.0), A, (a.1 - a.0) * (b.1 - b.0), W, p);
    ScaledSum(z, 2, t, 2 * k, W, p);
    CrossTerms(a.0, a.1, b.0, b.1);
    assert 2 - 2 * k == 2 * (1 - k) && 2 + 2 * k == 2 * (1 + k);
  }

  lemma CrossTerms(x1: int, y1: int, x2: int, y2: int)
    ensures (y1 + x1) * (y2 + x2) - (y1 - x1) * (y2 - x2) == 2 * (x1 * y2 + x2 * y1)
    ensures (y1 + x1) * (y2 + x2) + (y1 - x1) * (y2 - x2) == 2 * (y1 * y2 + x1 * x2)
  {
  }

  // u == x (1 + k) and v == y (1 - k) give the three ratios of the result.
  lemma Ratios(u: int, v: int, x: int, y: int, k: int, p: int)
    requires p > 0 && Cong(x * (1 + k), u, p) && Cong(y * (1 - k), v, p)
    ensures Cong((2 * u) * (2 * (1 - k)), x * ((2 * (1 - k)) * (2 * (1 + k))), p)
    ensures Cong((2 * (1 + k)) * (2 * v), y * ((2 * (1 - k)) * (2 * (1 + k))), p)
    ensures Cong((2 * u) * (2 * v), (x * y) * ((2 * (1 - k)) * (2 * (1 + k))), p)
  {
    hide Cong;
    var m, n := 1 + k, 1 - k;
    CongSymmetric(x * m, u, p);
    CongSymmetric(y * n, v, p);
    CongSelf(4 * n, p);
    CongSelf(4 * m, p);
    CongSelf(4, p);
    CongProduct(u, x * m, 4 * n, 4 * n, p);
    CongProduct(v, y * n, 4 * m, 4 * m, p);
    CongProduct(u, x * m, v, y * n, p);
    CongProduct(u * v, (x * m) * (y * n), 4, 4, p);
    Regroup(u, v, x, y, m, n);
  }

  lemma Regroup(u: int, v: int, x: int, y: int, m: int, n: int)
    ensures (2 * u) * (2 * n) == u * (4 * n) && (2 * m) * (2 * v) == v * (4 * m) && (2 * u) * (2 * v) == (u * v) * 4
    ensures x * ((2 * n) * (2 * m)) == (x * m) * (4 * n)
    ensures y * ((2 * n) * (2 * m)) == (y * n) * (4 * m)
    ensures (x * y) * ((2 * n) * (2 * m)) == ((x * m) * (y * n)) * 4
  {
    assert (2 * n) * (2 * m) == 4 * (n * m);
    assert x * (4 * (n * m)) == (x * m) * (4 * n);
    assert y * (4 * (n * m)) == (y * n) * (4 * m);
    assert (x * y) * (4 * (n * m)) == ((x * m) * (y * n)) * 4;
  }

  lemma DenominatorNonZero(k: int, Z1: int, Z2: int, p: int)
    requires IsPrime(p) && p > 2 && !Cong(1 + k, 0, p) && !Cong(1 - k, 0, p) && !Cong(Z1, 0, p) && !Cong(Z2, 0, p)
    ensures !Cong(((2 * (1 - k)) * (2 * (1 + k))) * ((Z1 * Z2) * (Z1 * Z2)), 0, p)
  {
    hide Cong;
    SmallNonZero(2, p);
    ProductNonZero(2, 1 - k, p);
    ProductNonZero(2, 1 + k, p);
    ProductNonZero(2 * (1 - k), 2 * (1 + k), p);
    ProductNonZero(Z1, Z2, p);
    ProductNonZero(Z1 * Z2, Z1 * Z2, p);
    ProductNonZero((2 * (1 - k)) * (2 * (1 + k)), (Z1 * Z2) * (Z1 * Z2), p);
  }

  // Extended addition stands for the affine sum (section 5.1.4 of RFC 8032).
  lemma AddRepresents(c: Curve, l: Extended, a: Affine, r: Extended, b: Affine, s: Affine)
    requires IsPrime(c.p) && c.p > 2
    requires Represents(c, l, a) && Represents(c, r, b) && IsSum(c, a, b, s)
    ensures Represents(c, ExtendedAdd(c, l, r), s)
  {
    hide Cong, Scaled, ExtendedAdd, IsPrime, Slope;
    var p, W, k := c.p, l.2 * r.2, Slope(c, a, b);
    var u, v := a.0 * b.1 + b.0 * a.1, a.1 * b.1 + a.0 * b.0;
    var e, f, g, h := AddFactors(c, l, a, r, b);
    ScaledProduct(e, 2 * u, W, f, 2 * (1 - k), W, p);
    ScaledProduct(g, 2 * (1 + k), W, h, 2 * v, W, p);
    ScaledProduct(f, 2 * (1 - k), W, g, 2 * (1 + k), W, p);
    ScaledProduct(e, 2 * u, W, h, 2 * v, W, p);
    Ratios(u, v, s.0, s.1, k, p);
    var z := (f * g) % p;
    var q := (2 * (1 - k)) * (2 * (1 + k));
    ScaledRatio((e * f) % p, (2 * u) * (2 * (1 - k)), z, q, W * W, s.0, p);
    ScaledRatio((g * h) % p, (2 * (1 + k)) * (2 * v), z, q, W * W, s.1, p);
    ScaledRatio((e * h) % p, (2 * u) * (2 * v), z, q, W * W, s.0 * s.1, p);
    DenominatorNonZero(k, l.2, r.2, p);
    ScaledUnfold(z, q, W * W, p);
    CongNonZero(z, q * (W * W), p);
  }

  lemma ScaledUnfold(U: int, u: int, Z: int, p: int)
    requires p > 0 && Scaled(U, u, Z, p)
    ensures Cong(U, u * Z, p)
  {
  }
}
