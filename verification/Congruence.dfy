/** Arithmetic modulo a prime: no zero divisors, and the inverse that the
    source computes with pow(value, P - 2, P). */
module Congruence {

  predicate IsMultiple(x: int, k: int, p: int) {
    x == k * p
  }

  ghost predicate Divides(p: int, x: int) {
    exists k :: IsMultiple(x, k, p)
  }

  ghost predicate Cong(a: int, b: int, p: int)
    requires p > 0
  {
    Divides(p, a - b)
  }

  // The only multiple of p of size below p is zero.
  lemma SmallMultiple(m: int, p: int)
    requires p > 0 && -p < m * p < p
    ensures m == 0
  {
    MultipleGrows(m, p);
    MultipleGrows(-m, p);
    assert (-m) * p == -(m * p);
  }

  lemma MultipleGrows(m: int, p: int)
    requires p > 0
    ensures m >= 1 ==> m * p >= p
  {
    assert m * p == (m - 1) * p + p;
  }

  lemma CongBy(a: int, b: int, k: int, p: int)
    requires p > 0 && a - b == k * p
    ensures Cong(a, b, p)
  {
    assert IsMultiple(a - b, k, p);
  }

  lemma CongQuotient(a: int, b: int, p: int) returns (k: int)
    requires p > 0 && Cong(a, b, p)
    ensures a - b == k * p
  {
    k :| IsMultiple(a - b, k, p);
  }

  lemma CongMod(a: int, p: int)
    requires p > 0
    ensures Cong(a % p, a, p)
  {
    assert a % p - a == -(a / p) * p;
    CongBy(a % p, a, -(a / p), p);
  }

  lemma CongSymmetric(a: int, b: int, p: int)
    requires p > 0 && Cong(a, b, p)
    ensures Cong(b, a, p)
  {
    hide Cong;
    var k := CongQuotient(a, b, p);
    assert b - a == (-k) * p;
    CongBy(b, a, -k, p);
  }

  lemma CongTransitive(a: int, b: int, c: int, p: int)
    requires p > 0 && Cong(a, b, p) && Cong(b, c, p)
    ensures Cong(a, c, p)
  {
    hide Cong;
    var k := CongQuotient(a, b, p);
    var l := CongQuotient(b, c, p);
    assert a - c == (k + l) * p;
    CongBy(a, c, k + l, p);
  }

  lemma CongSum(a: int, b: int, x: int, y: int, p: int)
    requires p > 0 && Cong(a, b, p) && Cong(x, y, p)
    ensures Cong(a + x, b + y, p) && Cong(a - x, b - y, p)
  {
    hide Cong;
    var k := CongQuotient(a, b, p);
    var l := CongQuotient(x, y, p);
    assert (a + x) - (b + y) == (k + l) * p && (a - x) - (b - y) == (k - l) * p;
    CongBy(a + x, b + y, k + l, p);
    CongBy(a - x, b - y, k - l, p);
  }

  lemma CongProduct(a: int, b: int, x: int, y: int, p: int)
    requires p > 0 && Cong(a, b, p) && Cong(x, y, p)
    ensures Cong(a * x, b * y, p)
  {
    hide Cong;
    var k := CongQuotient(a, b, p);
    var l := CongQuotient(x, y, p);
    calc {
      a * x - b * y;
      a * (x - y) + (a - b) * y;
      a * (l * p) + (k * p) * y;
      (a * l + k * y) * p;
    }
    CongBy(a * x, b * y, a * l + k * y, p);
  }

  lemma CongZeroTimes(a: int, m: int, p: int)
    requires p > 0 && Cong(a, 0, p)
    ensures Cong(a * m, 0, p) && Cong(m * a, 0, p)
  {
    hide Cong;
    CongProduct(a, 0, m, m, p) by { CongSelf(m, p); }
  }

  lemma Combine4(a: int, i: int, b: int, j: int, c: int, k: int, d: int, l: int, p: int)
    requires p > 0 && Cong(a, 0, p) && Cong(b, 0, p) && Cong(c, 0, p) && Cong(d, 0, p)
    ensures Cong(a * i + b * j + c * k + d * l, 0, p)
  {
    hide Cong;
    CongZeroTimes(a, i, p);
    CongZeroTimes(b, j, p);
    CongZeroTimes(c, k, p);
    CongZeroTimes(d, l, p);
    CongSum(a * i, 0, b * j, 0, p);
    CongSum(a * i + b * j, 0, c * k, 0, p);
    CongSum(a * i + b * j + c * k, 0, d * l, 0, p);
  }

  // The canonical residues of congruent numbers are equal.
  lemma CongSameResidue(a: int, b: int, p: int)
    requires p > 0 && Cong(a, b, p) && 0 <= a < p && 0 <= b < p
    ensures a == b
  {
    hide Cong;
    var k := CongQuotient(a, b, p);
    SmallMultiple(k, p);
  }

  lemma SmallNonZero(a: int, p: int)
    requires 0 < a < p
    ensures !Cong(a, 0, p)
  {
    hide Cong;
    if Cong(a, 0, p) {
      CongSameResidue(a, 0, p);
    }
  }

  lemma ZeroIsNotOne(a: int, p: int)
    requires p > 1 && Cong(a, 0, p)
    ensures !Cong(a, 1, p)
  {
    hide Cong;
    if Cong(a, 1, p) {
      CongSymmetric(a, 1, p);
      CongTransitive(1, a, 0, p);
      CongSameResidue(1, 0, p);
    }
  }

  // ---------------------------------------------------------------------
  // Prime moduli have no zero divisors
  // ---------------------------------------------------------------------

  predicate IsPrime(p: int) {
    p >= 2 && forall d | 1 < d < p :: p % d != 0
  }

  lemma {:induction false} EuclidDescent(m: int, b: int, p: int)
    requires IsPrime(p) && 0 < m < p && Cong(m * b, 0, p)
    ensures Cong(b, 0, p)
    decreases m
  {
    hide Cong;
    if m > 1 {
      var q, r := p / m, p % m;
      assert p == q * m + r && 0 < r < m;
      var k := CongQuotient(m * b, 0, p);
      assert r * b == (b - q * k) * p by {
        assert r * b == p * b - q * (m * b);
        assert q * (k * p) == (q * k) * p;
      }
      CongBy(r * b, 0, b - q * k, p);
      EuclidDescent(r, b, p);
    }
  }

  lemma {:induction false} NoZeroDivisors(a: int, b: int, p: int)
    requires IsPrime(p) && Cong(a * b, 0, p)
    ensures Cong(a, 0, p) || Cong(b, 0, p)
  {
    hide Cong;
    if !Cong(a, 0, p) {
      CongSelf(b, p);
      CongMod(a, p);
      CongProduct(a % p, a, b, b, p);
      CongTransitive((a % p) * b, a * b, 0, p);
      ResidueNonZero(a, p);
      EuclidDescent(a % p, b, p);
    }
  }

  lemma ResidueNonZero(a: int, p: int)
    requires p > 0 && !Cong(a, 0, p)
    ensures 0 < a % p < p
  {
    hide Cong;
    if a % p == 0 {
      CongBy(a, 0, a / p, p);
    }
  }

  lemma ProductNonZero(a: int, b: int, p: int)
    requires IsPrime(p) && !Cong(a, 0, p) && !Cong(b, 0, p)
    ensures !Cong(a * b, 0, p)
  {
    hide Cong;
    if Cong(a * b, 0, p) { NoZeroDivisors(a, b, p); }
  }

  lemma CongNonZero(a: int, b: int, p: int)
    requires p > 0 && Cong(a, b, p) && !Cong(b, 0, p)
    ensures !Cong(a, 0, p)
  {
    hide Cong;
    if Cong(a, 0, p) {
      CongSymmetric(a, b, p);
      CongTransitive(b, a, 0, p);
    }
  }

  // ---------------------------------------------------------------------
  // Fermat's little theorem
  // ---------------------------------------------------------------------

  function Pow(z: int, n: nat): int {
    if n == 0 then 1 else z * Pow(z, n - 1)
  }

  // pow(z, n, p)
  function PowMod(z: int, n: nat, p: int): int
    requires p > 0
  {
    if n == 0 then 1 % p else (z * PowMod(z, n - 1, p)) % p
  }

  lemma {:induction false} PowModIsPow(z: int, n: nat, p: int)
    requires p > 0
    ensures Cong(PowMod(z, n, p), Pow(z, n), p)
  {
    hide Cong;
    if n == 0 {
      CongMod(1, p);
    } else {
      PowModIsPow(z, n - 1, p);
      CongProduct(z, z, PowMod(z, n - 1, p), Pow(z, n - 1), p) by { CongSelf(z, p); }
      CongMod(z * PowMod(z, n - 1, p), p);
      CongTransitive(PowMod(z, n, p), z * PowMod(z, n - 1, p), Pow(z, n), p);
    }
  }

  lemma CongSelf(a: int, p: int)
    requires p > 0
    ensures Cong(a, a, p)
  {
    CongBy(a, a, 0, p);
  }

  lemma {:induction false} CongPow(a: int, b: int, n: nat, p: int)
    requires p > 0 && Cong(a, b, p)
    ensures Cong(Pow(a, n), Pow(b, n), p)
  {
    hide Cong;
    if n == 0 {
      CongSelf(1, p);
    } else {
      CongPow(a, b, n - 1, p);
      CongProduct(a, b, Pow(a, n - 1), Pow(b, n - 1), p);
    }
  }

  function Choose(n: nat, k: nat): nat {
    if k == 0 then 1 else if n == 0 then 0 else Choose(n - 1, k) + Choose(n - 1, k - 1)
  }

  lemma {:induction false} ChooseEnds(n: nat)
    ensures Choose(n, n) == 1 && Choose(n, n + 1) == 0
  {
    if n > 0 {
      ChooseEnds(n - 1);
      ChooseBeyond(n - 1, n + 1);
    }
  }

  lemma {:induction false} ChooseBeyond(n: nat, k: nat)
    requires k > n
    ensures Choose(n, k) == 0
  {
    if n > 0 {
      ChooseBeyond(n - 1, k);
      ChooseBeyond(n - 1, k - 1);
    }
  }

  lemma {:induction false} ChooseAbsorbs(n: nat, k: nat)
    requires n > 0 && k > 0
    ensures k * Choose(n, k) == n * Choose(n - 1, k - 1)
  {
    if n == 1 {
      if k > 1 { ChooseBeyond(n, k); }
    } else if k == 1 {
      ChooseAbsorbs(n - 1, 1);
    } else {
      ChooseAbsorbs(n - 1, k);
      ChooseAbsorbs(n - 1, k - 1);
      Absorb(n, k, Choose(n - 1, k), Choose(n - 1, k - 1), Choose(n - 2, k - 1), Choose(n - 2, k - 2));
    }
  }

  lemma Absorb(n: int, k: int, top: int, side: int, x: int, y: int)
    requires k * top == (n - 1) * x && (k - 1) * side == (n - 1) * y && side == x + y
    ensures k * (top + side) == n * side
  {
    assert (n - 1) * (x + y) == (n - 1) * x + (n - 1) * y;
    assert k * (top + side) == k * top + ((k - 1) * side + side);
  }

  lemma PrimeDividesChoose(p: int, k: nat)
    requires IsPrime(p) && 0 < k < p
    ensures Cong(Choose(p, k), 0, p)
  {
    hide Cong;
    ChooseAbsorbs(p, k);
    CongBy(k * Choose(p, k), 0, Choose(p - 1, k - 1), p);
    NoZeroDivisors(k, Choose(p, k), p);
    if Cong(k, 0, p) { CongSameResidue(k, 0, p); }
  }

  // The sum of Choose(n, k) z^k over k < m.
  function BinomialSum(n: nat, m: nat, z: int): int {
    if m == 0 then 0 else BinomialSum(n, m - 1, z) + Choose(n, m - 1) * Pow(z, m - 1)
  }

  lemma BinomialFirst(n: nat, z: int)
    ensures BinomialSum(n, 1, z) == 1
  {
    assert BinomialSum(n, 0, z) == 0;
    assert Choose(n, 0) * Pow(z, 0) == 1;
  }

  lemma BinomialNext(n: nat, m: nat, z: int)
    ensures BinomialSum(n, m + 1, z) == BinomialSum(n, m, z) + Choose(n, m) * Pow(z, m)
  {
  }

  lemma PowNone(z: int)
    ensures Pow(z, 0) == 1
  {
  }

  lemma OneMoreTime(z: int, w: int)
    ensures (z + 1) * w == z * w + w
  {
  }

  lemma PowNext(z: int, n: nat)
    ensures Pow(z, n + 1) == z * Pow(z, n)
  {
  }

  lemma ChooseNext(n: nat, k: nat)
    ensures Choose(n + 1, k + 1) == Choose(n, k + 1) + Choose(n, k)
  {
  }

  lemma {:induction false} BinomialStep(n: nat, m: nat, z: int)
    ensures BinomialSum(n + 1, m + 1, z) == BinomialSum(n, m + 1, z) + z * BinomialSum(n, m, z)
  {
    hide BinomialSum, Choose, Pow;
    if m == 0 {
      BinomialFirst(n + 1, z);
      BinomialFirst(n, z);
      BinomialNone(n, z);
    } else {
      BinomialStep(n, m - 1, z);
      BinomialNext(n + 1, m, z);
      BinomialNext(n, m, z);
      BinomialNext(n, m - 1, z);
      ChooseNext(n, m - 1);
      PowNext(z, m - 1);
      BinomialRegroup(BinomialSum(n, m, z), BinomialSum(n, m - 1, z),
                      Choose(n, m), Choose(n, m - 1), z, Pow(z, m - 1));
    }
  }

  lemma BinomialNone(n: nat, z: int)
    ensures BinomialSum(n, 0, z) == 0
  {
  }

  lemma BinomialRegroup(s: int, t: int, a: int, b: int, z: int, w: int)
    ensures (s + z * t) + (a + b) * (z * w) == (s + a * (z * w)) + z * (t + b * w)
  {
    var v := z * w;
    assert (a + b) * v == a * v + b * v;
    var u := b * w;
    assert z * (t + u) == z * t + z * u;
    assert b * (z * w) == z * (b * w);
  }

  lemma {:induction false} BinomialTheorem(n: nat, z: int)
    ensures BinomialSum(n, n + 1, z) == Pow(z + 1, n)
  {
    hide BinomialSum, Choose, Pow;
    if n == 0 {
      BinomialFirst(0, z);
      PowNone(z + 1);
    } else {
      BinomialTheorem(n - 1, z);
      BinomialStep(n - 1, n, z);
      ChooseEnds(n - 1);
      BinomialNext(n - 1, n, z);
      PowNext(z + 1, n - 1);
      OneMoreTime(z, Pow(z + 1, n - 1));
    }
  }

  lemma {:induction false} BinomialModPrime(p: int, m: nat, z: int)
    requires IsPrime(p) && 0 < m <= p
    ensures Cong(BinomialSum(p, m, z), 1, p)
  {
    hide Cong, BinomialSum, Choose, Pow;
    if m == 1 {
      BinomialFirst(p, z);
      CongSelf(1, p);
    } else {
      BinomialModPrime(p, m - 1, z);
      PrimeDividesChoose(p, m - 1);
      CongZeroTimes(Choose(p, m - 1), Pow(z, m - 1), p);
      CongSum(BinomialSum(p, m - 1, z), 1, Choose(p, m - 1) * Pow(z, m - 1), 0, p);
      BinomialNext(p, m - 1, z);
    }
  }

  lemma {:induction false} FermatNat(z: nat, p: int)
    requires IsPrime(p)
    ensures Cong(Pow(z, p), z, p)
  {
    hide Cong, BinomialSum, Choose, Pow;
    if z == 0 {
      PowNext(0, p - 1);
      CongSelf(0, p);
    } else {
      FermatNat(z - 1, p);
      BinomialTheorem(p, z - 1);
      BinomialModPrime(p, p, z - 1);
      ChooseEnds(p);
      BinomialNext(p, p, z - 1);
      CongSum(BinomialSum(p, p, z - 1), 1, Pow(z - 1, p), z - 1, p);
    }
  }

  // The source's inverse is one, for every value that is not a multiple of p.
  lemma InverseWorks(z: int, p: int)
    requires IsPrime(p) && !Cong(z, 0, p)
    ensures Cong(z * PowMod(z, p - 2, p), 1, p)
  {
    hide Cong, Pow;
    var r: nat := z % p;
    FermatNat(r, p);
    CongMod(z, p);
    CongPow(r, z, p, p);
    CongSymmetric(Pow(r, p), Pow(z, p), p);
    CongTransitive(Pow(z, p), Pow(r, p), r, p);
    CongTransitive(Pow(z, p), r, z, p);
    var w := Pow(z, p - 2);
    PowNext(z, p - 1);
    PowNext(z, p - 2);
    assert z * (z * w) - z == z * (z * w - 1);
    ShiftCong(Pow(z, p), z, z * (z * w - 1), p);
    NoZeroDivisors(z, z * w - 1, p);
    ShiftCong(z * w, 1, z * w - 1, p);
    PowModIsPow(z, p - 2, p);
    CongProduct(z, z, PowMod(z, p - 2, p), w, p) by { CongSelf(z, p); }
    CongTransitive(z * PowMod(z, p - 2, p), z * w, 1, p);
  }

  lemma ShiftCong(a: int, b: int, difference: int, p: int)
    requires p > 0 && a - b == difference
    ensures Cong(a, b, p) <==> Cong(difference, 0, p)
  {
  }
}
