/** The source's addition and scalar multiplication are the affine law and
    its n-fold sum (src/makoto/dsse.py). */
module EdwardsLadder {
  import opened Congruence
  import opened Edwards
  import opened EdwardsLaw
  import opened Wrappers

  // ---------------------------------------------------------------------
  // Leaving extended coordinates
  // ---------------------------------------------------------------------

  lemma ToExtendedRepresents(c: Curve, a: Affine)
    requires c.p >= 2
    ensures Represents(c, ToExtended(c, a), a)
  {
    hide Cong;
    SmallNonZero(1, c.p);
    CongSelf(a.0, c.p);
    CongSelf(a.1, c.p);
    CongMod(a.0 * a.1, c.p);
  }

  lemma DivideOut(X: int, x: int, Z: int, p: int)
    requires IsPrime(p) && !Cong(Z, 0, p) && Cong(X, x * Z, p) && 0 <= x < p
    ensures (X * PowMod(Z, p - 2, p)) % p == x
  {
    hide Cong;
    var r := PowMod(Z, p - 2, p);
    InverseWorks(Z, p);
    CongProduct(X, x * Z, r, r, p) by { CongSelf(r, p); }
    CongProduct(x, x, Z * r, 1, p) by { CongSelf(x, p); }
    assert (x * Z) * r == x * (Z * r);
    CongTransitive(X * r, x * (Z * r), x, p);
    CongMod(X * r, p);
    CongTransitive((X * r) % p, X * r, x, p);
    CongSameResidue((X * r) % p, x, p);
  }

  lemma FromExtendedRepresents(c: Curve, e: Extended, a: Affine)
    requires IsPrime(c.p) && Represents(c, e, a) && Canonical(c, a)
    ensures FromExtended(c, e) == Ok(a)
  {
    hide Cong;
    ResidueNonZero(e.2, c.p);
    DivideOut(e.0, a.0, e.2, c.p);
    DivideOut(e.1, a.1, e.2, c.p);
  }

  function Add(c: Curve, a: Affine, b: Affine): Result<Affine, DenominatorError>
    requires c.p >= 2
  {
    FromExtended(c, ExtendedAdd(c, ToExtended(c, a), ToExtended(c, b)))
  }

  // The source's addition is the affine law, on every pair of curve points.
  lemma AddIsAffine(c: Curve, a: Affine, b: Affine)
    requires IsComplete(c) && OnCurve(c, a) && OnCurve(c, b)
    ensures Add(c, a, b) == Ok(AffineAdd(c, a, b)) && OnCurve(c, AffineAdd(c, a, b))
  {
    AffineAddCloses(c, a, b);
    ToExtendedRepresents(c, a);
    ToExtendedRepresents(c, b);
    AddRepresents(c, ToExtended(c, a), a, ToExtended(c, b), b, AffineAdd(c, a, b));
    FromExtendedRepresents(c, ExtendedAdd(c, ToExtended(c, a), ToExtended(c, b)), AffineAdd(c, a, b));
  }

  // ---------------------------------------------------------------------
  // Double and add
  // ---------------------------------------------------------------------

  // What the loop still has to do with a scalar, an accumulator and an addend.
  function Ladder(c: Curve, scalar: nat, result: Extended, addend: Extended): Extended
    requires c.p > 0
  {
    if scalar == 0 then result
    else Ladder(c, scalar / 2, if scalar % 2 == 1 then ExtendedAdd(c, result, addend) else result,
                ExtendedAdd(c, addend, addend))
  }

  // point + (point + ... + (point + identity)), n times
  function NFold(c: Curve, n: nat, point: Affine): Affine
    requires c.p >= 2
  {
    if n == 0 then IDENTITY else AffineAdd(c, point, NFold(c, n - 1, point))
  }

  // The group law that is not derived here.
  ghost predicate IsAssociative(c: Curve)
    requires c.p >= 2
  {
    forall x, y, z | OnCurve(c, x) && OnCurve(c, y) && OnCurve(c, z) ::
      AffineAdd(c, AffineAdd(c, x, y), z) == AffineAdd(c, x, AffineAdd(c, y, z))
  }

  lemma {:induction false} NFoldOnCurve(c: Curve, n: nat, point: Affine)
    requires IsComplete(c) && OnCurve(c, point)
    ensures OnCurve(c, NFold(c, n, point))
  {
    if n == 0 {
      AddIdentity(c, point);
    } else {
      NFoldOnCurve(c, n - 1, point);
      AffineAddCloses(c, point, NFold(c, n - 1, point));
    }
  }

  lemma {:induction false} NFoldDoubles(c: Curve, n: nat, point: Affine)
    requires IsComplete(c) && IsAssociative(c) && OnCurve(c, point)
    ensures NFold(c, 2 * n, point) == NFold(c, n, AffineAdd(c, point, point))
  {
    if n > 0 {
      NFoldDoubles(c, n - 1, point);
      NFoldOnCurve(c, 2 * n - 2, point);
      var rest := NFold(c, 2 * n - 2, point);
      assert NFold(c, 2 * n - 1, point) == AffineAdd(c, point, rest);
      assert AffineAdd(c, AffineAdd(c, point, point), rest) == AffineAdd(c, point, AffineAdd(c, point, rest));
    }
  }

  // The ladder adds the n-fold sum of what its addend stands for to its result.
  lemma {:induction false} LadderRepresents(c: Curve, n: nat, result: Extended, s: Affine, addend: Extended, q: Affine)
    requires IsComplete(c) && IsAssociative(c) && OnCurve(c, s) && OnCurve(c, q)
    requires Represents(c, result, s) && Represents(c, addend, q)
    ensures Represents(c, Ladder(c, n, result, addend), AffineAdd(c, s, NFold(c, n, q)))
    decreases n
  {
    hide OnCurve, Represents, AffineAdd, IsSum, ExtendedAdd;
    if n == 0 {
      AddIdentity(c, s);
    } else {
      var m, q2 := n / 2, AffineAdd(c, q, q);
      AffineAddCloses(c, q, q);
      AddRepresents(c, addend, q, addend, q, q2);
      NFoldDoubles(c, m, q);
      if n % 2 == 1 {
        AffineAddCloses(c, s, q);
        AddRepresents(c, result, s, addend, q, AffineAdd(c, s, q));
        LadderRepresents(c, m, ExtendedAdd(c, result, addend), AffineAdd(c, s, q), ExtendedAdd(c, addend, addend), q2);
        NFoldOnCurve(c, 2 * m, q);
        assert n == 2 * m + 1 && NFold(c, n, q) == AffineAdd(c, q, NFold(c, 2 * m, q));
      } else {
        LadderRepresents(c, m, result, s, ExtendedAdd(c, addend, addend), q2);
        assert n == 2 * m;
      }
    }
  }

  // Double-and-add computes the n-fold sum.
  lemma LadderIsNFold(c: Curve, n: nat, point: Affine)
    requires IsComplete(c) && IsAssociative(c) && OnCurve(c, point)
    ensures FromExtended(c, Ladder(c, n, ToExtended(c, IDENTITY), ToExtended(c, point))) == Ok(NFold(c, n, point))
  {
    AddIdentity(c, point);
    NFoldOnCurve(c, n, point);
    AddIdentity(c, NFold(c, n, point));
    ToExtendedRepresents(c, IDENTITY);
    ToExtendedRepresents(c, point);
    LadderRepresents(c, n, ToExtended(c, IDENTITY), IDENTITY, ToExtended(c, point), point);
    FromExtendedRepresents(c, Ladder(c, n, ToExtended(c, IDENTITY), ToExtended(c, point)), NFold(c, n, point));
  }

  // `_scalar_multiply`
  method ScalarMultiply(c: Curve, n: nat, point: Affine) returns (r: Result<Affine, DenominatorError>)
    requires c.p >= 2
    ensures r == FromExtended(c, Ladder(c, n, ToExtended(c, IDENTITY), ToExtended(c, point)))
    ensures IsComplete(c) && IsAssociative(c) && OnCurve(c, point) ==> r == Ok(NFold(c, n, point))
  {
    hide IsComplete, IsAssociative, OnCurve;
    var result, addend, scalar := ToExtended(c, IDENTITY), ToExtended(c, point), n;
    while scalar != 0
      invariant Ladder(c, scalar, result, addend) == Ladder(c, n, ToExtended(c, IDENTITY), ToExtended(c, point))
    {
      if scalar % 2 == 1 {
        result := ExtendedAdd(c, result, addend);
      }
      addend := ExtendedAdd(c, addend, addend);
      scalar := scalar / 2;
    }
    r := FromExtended(c, result);
    if IsComplete(c) && IsAssociative(c) && OnCurve(c, point) {
      LadderIsNFold(c, n, point);
    }
  }
}
