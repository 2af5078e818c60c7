/** ECDSA verification (SEC 1 v2.0, section 4.1.4) and when an honestly computed signature passes it. */
module Ecdsa {
  import opened Arithmetic
  import opened Euclid
  import opened Primes
  import opened Group

  /** `s.invert().unwrap_or(Scalar::zero())`. */
  function InvertOrZero(s: nat, q: pos): nat {
    if s % q == 0 then 0 else Inverse(s, q)
  }

  /** `verify_signature`; byte strings are given as the integers they encode. */
  predicate VerifySignature(cv: Curve, publicKey: Point, digest: nat, rBytes: nat, sBytes: nat) {
    var r, s, z := rBytes % cv.q, sBytes % cv.q, digest % cv.q;
    var sInv := InvertOrZero(s, cv.q);
    var u1, u2 := (z * sInv) % cv.q, (r * sInv) % cv.q;
    r == cv.XCoord(AddPoints(MulG(u1, cv.q), MulPoint(publicKey, u2, cv.q), cv.q))
  }

  /** The signing equation (SEC 1 v2.0, section 4.1.3): s = k^-1 (z + r x). */
  function SignatureScalar(kInv: nat, digest: nat, r: nat, x: int, q: pos): nat {
    (kInv * (digest + r * x)) % q
  }

  lemma VerificationPoint(z: int, sInv: int, r: int, x: int, q: pos)
    ensures AddPoints(MulG((z * sInv) % q, q), MulPoint(MulG(x, q), (r * sInv) % q, q), q)
         == MulG(sInv * (z + r * x), q)
  {
    MulPointOfG(x, (r * sInv) % q, q);
    MulMod(x, r * sInv, q);
    ModMod(z * sInv, q);
    ModMod(x * (r * sInv), q);
    AddMod(z * sInv, x * (r * sInv), q);
    FactorInverse(z, sInv, r, x);
  }

  lemma FactorInverse(z: int, sInv: int, r: int, x: int)
    ensures z * sInv + x * (r * sInv) == sInv * (z + r * x)
  {
    assert x * (r * sInv) == sInv * (r * x);
  }

  /** s^-1 (z + r x) = k when s = k^-1 (z + r x) is not zero. */
  lemma NonceRecovered(k: int, kInv: int, s: int, sInv: int, v: int, q: pos)
    requires IsPrime(q) && (k * kInv) % q == 1 && (s * sInv) % q == 1 && s % q == (kInv * v) % q
    ensures (sInv * v) % q == k % q
  {
    ModSmall(1, q);
    // v = k (kInv v) = k s, so sInv v = k (s sInv) = k
    MulCong(k, k, s, kInv * v, q);
    MulCong(k * kInv, 1, v, v, q);
    assert k * (kInv * v) == (k * kInv) * v;
    MulCong(sInv, sInv, v, k * s, q);
    MulCong(k, k, s * sInv, 1, q);
    assert sInv * (k * s) == k * (s * sInv);
  }

  /** r is the x-coordinate of s^-1 (z + r x) G, with 0 standing for the inverse of 0. */
  ghost predicate SignatureHolds(cv: Curve, x: int, digest: nat, r: nat, s: nat) {
    r % cv.q == cv.XCoord(MulG(InvertOrZero(s, cv.q) * (digest + r * x), cv.q))
  }

  /**
   * What acceptance means for arbitrary r and s: r is the x-coordinate of s^-1 (z + r x) G, with
   * 0 standing for the inverse of 0. Only the residues of r and s matter: the ranges [1, q - 1]
   * that SEC 1 v2.0, section 4.1.4, tests first are not tested.
   */
  lemma AcceptedIff(cv: Curve, x: int, digest: nat, rBytes: nat, sBytes: nat)
    ensures VerifySignature(cv, MulG(x, cv.q), digest, rBytes, sBytes)
       <==> SignatureHolds(cv, x, digest, rBytes, sBytes)
  {
    var q := cv.q;
    var r, z := rBytes % q, digest % q;
    var sInv := InvertOrZero(sBytes % q, q);
    ModMod(sBytes, q);
    InverseOfResidue(sBytes, q);
    VerificationPoint(z, sInv, r, x, q);
    ReducedEquation(sInv, digest, rBytes, x, q);
  }

  lemma InverseOfResidue(s: nat, q: pos)
    ensures InvertOrZero(s % q, q) == InvertOrZero(s, q)
  {
    ModMod(s, q);
  }

  lemma ReducedEquation(sInv: int, d: int, r: int, x: int, q: pos)
    ensures (sInv * (d % q + (r % q) * x)) % q == (sInv * (d + r * x)) % q
  {
    ModMod(d, q);
    MulMod(r, x, q);
    AddCong(d % q, d, (r % q) * x, r * x, q);
    MulCong(sInv, sInv, d % q + (r % q) * x, d + r * x, q);
  }

  /** Any signature whose s is 0 modulo q is accepted exactly when r is the identity's x-coordinate. */
  lemma ZeroSAcceptedIff(cv: Curve, x: int, digest: nat, rBytes: nat, sBytes: nat)
    requires sBytes % cv.q == 0
    ensures VerifySignature(cv, MulG(x, cv.q), digest, rBytes, sBytes) <==> rBytes % cv.q == cv.XCoord(IDENTITY)
  {
    AcceptedIff(cv, x, digest, rBytes, sBytes);
    assert 0 * (digest + rBytes * x) == 0;
    ModSmall(0, cv.q);
  }

  /** Adding q to r or to s changes no verdict, so accepted pairs outside the ranges of SEC 1 exist. */
  lemma RangesNotTested(cv: Curve, x: int, digest: nat, r: nat, s: nat, i: nat, j: nat)
    ensures VerifySignature(cv, MulG(x, cv.q), digest, r + i * cv.q, s + j * cv.q)
       <==> VerifySignature(cv, MulG(x, cv.q), digest, r, s)
  {
    ModShift(r, i, cv.q);
    ModShift(s, j, cv.q);
  }

  /**
   * A signature computed with the signing equation is accepted exactly when s is not 0, or r
   * happens to be the x-coordinate reported for the identity.
   */
  lemma HonestSignatureAcceptedIff(cv: Curve, x: int, k: nat, digest: nat)
    requires cv.Valid() && k % cv.q != 0
    ensures var r := cv.XCoord(MulG(k, cv.q));
      var s := SignatureScalar(Inverse(k, cv.q), digest, r, x, cv.q);
      VerifySignature(cv, MulG(x, cv.q), digest, r, s) <==> s != 0 || r == cv.XCoord(IDENTITY)
  {
    var q := cv.q;
    var r := cv.XCoord(MulG(k, q));
    var kInv := Inverse(k, q);
    var s := SignatureScalar(kInv, digest, r, x, q);
    var z := digest % q;
    var sInv := InvertOrZero(s, q);
    ModMod(cv.xOf(MulG(k, q)), q);
    ModMod(kInv * (digest + r * x), q);
    VerificationPoint(z, sInv, r, x, q);
    PrimeInverse(q, k);
    if s != 0 {
      PrimeInverse(q, s);
      AddMod(digest, r * x, q);
      MulCong(kInv, kInv, digest + r * x, z + r * x, q);
      NonceRecovered(k, kInv, s, sInv, z + r * x, q);
    } else {
      assert sInv * (z + r * x) == 0;
      ModSmall(0, q);
    }
  }
}
