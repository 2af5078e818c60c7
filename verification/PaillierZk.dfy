/** The sigma protocols over Paillier ciphertexts: range, multiplication, consistency, log, Schnorr. */
module PaillierZk {
  import opened Arithmetic
  import opened Primes
  import opened Paillier
  import opened Group

  const TWO_256: nat := 0x1_0000000000000000_0000000000000000_0000000000000000_0000000000000000

  /** A SHA-256 digest read as an integer. */
  type Hash = x: nat | x < TWO_256 witness 0

  function Bits(n: nat): nat {
    if n == 0 then 0 else 1 + Bits(n / 2)
  }

  lemma {:induction false} BitsBound(n: nat)
    ensures n < Pow(2, Bits(n))
    ensures n > 0 ==> Pow(2, Bits(n)) <= 2 * n
  {
    if n > 0 { BitsBound(n / 2); }
  }

  lemma DoubleExponent(e: nat, v: nat)
    requires Pow(2, e) == v
    ensures Pow(2, e + e) == v * v
  {
    PowAdd(2, e, e);
  }

  /** The exponent is a variable so that the verifier does not unroll the power. */
  lemma TwoTo256(e: nat)
    requires e == 256
    ensures Pow(2, e) == TWO_256
  {
    var b := e / 32;
    assert Pow(2, 8) == 0x100 && b == 8;
    DoubleExponent(b, 0x100);
    DoubleExponent(b * 2, 0x10000);
    DoubleExponent(b * 4, 0x1_0000_0000);
    DoubleExponent(b * 8, 0x1_0000000000000000);
    DoubleExponent(b * 16, 0x1_0000000000000000_0000000000000000);
  }

  /** `g_pow`: the short form of g^m modulo n^2 when g = n + 1. */
  function GPow(m: nat, n: pos, nSq: pos): nat {
    (1 + m * n) % nSq
  }

  /** The short form refines modular exponentiation for every exponent. */
  lemma GPowIsModPow(m: nat, n: pos)
    ensures GPow(m, n, PublicKeyOf(n).nSq) == ModPow(PublicKeyOf(n).g, m, PublicKeyOf(n).nSq)
  {
    OnePlusPower(1, n, m);
  }

  /** The randomness response of every proof: gamma * rho^e reduced modulo n. */
  function Response(gamma: nat, rho: int, e: nat, n: pos): nat {
    (gamma * ModPow(rho, e, n)) % n
  }

  /** The commitment base^alpha gamma^n. */
  ghost predicate Masked(c: int, base: int, x: nat, rho: int, n: pos, nSq: pos) {
    c % nSq == (Pow(base, x) * Pow(rho, n)) % nSq
  }

  lemma MaskedFromReduced(base: int, x: nat, rho: int, n: pos, nSq: pos)
    ensures Masked((ModPow(base, x, nSq) * ModPow(rho, n, nSq)) % nSq, base, x, rho, n, nSq)
  {
    MulMod(Pow(base, x), Pow(rho, n), nSq);
    ModMod(Pow(base, x) * Pow(rho, n), nSq);
  }

  lemma ResponseLift(gamma: nat, rho: int, e: nat, n: pos)
    ensures n * n > 0
    ensures Pow(Response(gamma, rho, e, n), n) % (n * n) == (Pow(gamma, n) * Pow(Pow(rho, n), e)) % (n * n)
  {
    MulMod(gamma, Pow(rho, e), n);
    ModMod(gamma * ModPow(rho, e, n), n);
    NthPowerLift(Response(gamma, rho, e, n), gamma * Pow(rho, e), n);
    PowDistributes(gamma, Pow(rho, e), n);
    PowCommute(rho, e, n);
  }

  /**
   * The verification equation of all four Paillier proofs, for every base and every witness:
   * reducing the response modulo n before raising it to n changes nothing modulo n^2.
   */
  lemma SigmaEquation(base: int, x: nat, rho: int, c: int, alpha: nat, gamma: nat, a: int, e: nat, n: pos, nSq: pos)
    requires nSq == n * n
    requires Masked(c, base, x, rho, n, nSq) && Masked(a, base, alpha, gamma, n, nSq)
    ensures (a * ModPow(c, e, nSq)) % nSq
         == (ModPow(base, alpha + e * x, nSq) * ModPow(Response(gamma, rho, e, n), n, nSq)) % nSq
  {
    var u, v := Pow(base, x), Pow(rho, n);
    var s := Response(gamma, rho, e, n);
    PowCong(c, u * v, e, nSq);
    PowDistributes(u, v, e);
    ModMod(Pow(c, e), nSq);
    MulCong(a, Pow(base, alpha) * Pow(gamma, n), ModPow(c, e, nSq), Pow(u, e) * Pow(v, e), nSq);
    MulSwap(Pow(base, alpha), Pow(gamma, n), Pow(u, e), Pow(v, e));
    PowMul(base, x, e);
    PowAdd(base, alpha, x * e);
    assert x * e == e * x;
    ResponseLift(gamma, rho, e, n);
    MulMod(Pow(base, alpha + e * x), Pow(s, n), nSq);
    MulCong(Pow(base, alpha + e * x), Pow(base, alpha + e * x), Pow(s, n), Pow(gamma, n) * Pow(v, e), nSq);
  }

  // ---------------------------------------------------------------- range proof

  datatype RangeProof = RangeProof(cAlpha: int, z: int, s: int)
  datatype RangeTranscript = RangeTranscript(n: nat, g: nat, ell: nat, c: int, cAlpha: int)

  function ProveRange(pk: PublicKey, c: int, m: nat, rho: int, ell: nat, h: RangeTranscript -> Hash,
                      alpha: nat, gamma: nat): RangeProof {
    var cAlpha := (GPow(alpha, pk.n, pk.nSq) * ModPow(gamma, pk.n, pk.nSq)) % pk.nSq;
    var e := h(RangeTranscript(pk.n, pk.g, ell, c, cAlpha));
    RangeProof(cAlpha, alpha + e * m, Response(gamma, rho, e, pk.n))
  }

  function RangeBound(ell: nat, n: nat): nat {
    PowPositive(2, ell + 256 + Bits(n) + 1);
    Pow(2, ell + 256 + Bits(n) + 1)
  }

  predicate VerifyRange(pk: PublicKey, c: int, ell: nat, h: RangeTranscript -> Hash, proof: RangeProof) {
    if proof.z >= RangeBound(ell, pk.n) || proof.z < 0 then false
    else
      var e := h(RangeTranscript(pk.n, pk.g, ell, c, proof.cAlpha));
      var lhs := Rem(proof.cAlpha * ModPow(c, e, pk.nSq), pk.nSq);
      var rhs := (GPow(proof.z, pk.n, pk.nSq) * ModPow(proof.s, pk.n, pk.nSq)) % pk.nSq;
      lhs == rhs
  }

  /** Both sides of the range verifier's equation, for an honest response to the challenge e. */
  lemma RangeEquation(n: pos, m: nat, rho: int, alpha: nat, gamma: nat, e: nat)
    ensures var pk := PublicKeyOf(n);
      var cAlpha := (GPow(alpha, n, pk.nSq) * ModPow(gamma, n, pk.nSq)) % pk.nSq;
      Rem(cAlpha * ModPow(EncryptWithRho(pk, m, rho), e, pk.nSq), pk.nSq)
        == (GPow(alpha + e * m, n, pk.nSq) * ModPow(Response(gamma, rho, e, n), n, pk.nSq)) % pk.nSq
  {
    var pk := PublicKeyOf(n);
    GPowIsModPow(alpha, n);
    GPowIsModPow(alpha + e * m, n);
    MaskedFromReduced(pk.g, m, rho, n, pk.nSq);
    MaskedFromReduced(pk.g, alpha, gamma, n, pk.nSq);
    SigmaEquation(pk.g, m, rho, EncryptWithRho(pk, m, rho), alpha, gamma,
      (ModPow(pk.g, alpha, pk.nSq) * ModPow(gamma, n, pk.nSq)) % pk.nSq, e, n, pk.nSq);
  }

  /** An honest range proof is accepted exactly when its response stays below the bound. */
  lemma RangeAcceptsIff(n: pos, m: nat, rho: int, ell: nat, h: RangeTranscript -> Hash, alpha: nat, gamma: nat)
    ensures var pk := PublicKeyOf(n);
      var c := EncryptWithRho(pk, m, rho);
      var proof := ProveRange(pk, c, m, rho, ell, h, alpha, gamma);
      VerifyRange(pk, c, ell, h, proof) <==> proof.z < RangeBound(ell, n)
  {
    var pk := PublicKeyOf(n);
    var c := EncryptWithRho(pk, m, rho);
    var proof := ProveRange(pk, c, m, rho, ell, h, alpha, gamma);
    RangeEquation(n, m, rho, alpha, gamma, h(RangeTranscript(n, pk.g, ell, c, proof.cAlpha)));
  }

  /** alpha + e x is below twice the masking range when both summands are below it. */
  lemma ResponseBelowBound(ell: nat, bits: nat, alpha: nat, e: Hash, x: nat)
    requires alpha < Pow(2, ell + 256 + bits) && x <= Pow(2, ell + bits)
    ensures alpha + e * x < Pow(2, ell + 256 + bits + 1)
  {
    var sec: nat :| sec == 256;
    TwoTo256(sec);
    PowAdd(2, sec, ell + bits);
    assert sec + (ell + bits) == ell + 256 + bits;
    MonotoneProduct(e, TWO_256, x, Pow(2, ell + bits));
  }

  lemma MonotoneProduct(a: nat, b: nat, x: nat, y: nat)
    requires a <= b && x <= y
    ensures a * x <= b * y
  {
    assert a * x <= a * y;
    assert a * y <= b * y;
  }

  /**
   * Completeness. The documentation promises |m| < 2^ell; the bound the code tests leaves room
   * for every m up to 2^(ell + bits(n)), so honest proofs pass for all of those.
   */
  lemma RangeComplete(n: pos, m: nat, rho: int, ell: nat, h: RangeTranscript -> Hash, alpha: nat, gamma: nat)
    requires alpha < Pow(2, ell + 256 + Bits(n)) && m <= Pow(2, ell + Bits(n))
    ensures var pk := PublicKeyOf(n);
      var c := EncryptWithRho(pk, m, rho);
      VerifyRange(pk, c, ell, h, ProveRange(pk, c, m, rho, ell, h, alpha, gamma))
  {
    var pk := PublicKeyOf(n);
    var c := EncryptWithRho(pk, m, rho);
    var proof := ProveRange(pk, c, m, rho, ell, h, alpha, gamma);
    RangeAcceptsIff(n, m, rho, ell, h, alpha, gamma);
    ResponseBelowBound(ell, Bits(n), alpha, h(RangeTranscript(n, pk.g, ell, c, proof.cAlpha)), m);
  }

  ghost predicate RangeAlwaysAccepted(n: pos, m: nat, rho: int, ell: nat, gamma: nat) {
    forall h: RangeTranscript -> Hash, alpha: nat :: alpha < Pow(2, ell + 256 + Bits(n)) ==>
      var pk := PublicKeyOf(n);
      var c := EncryptWithRho(pk, m, rho);
      VerifyRange(pk, c, ell, h, ProveRange(pk, c, m, rho, ell, h, alpha, gamma))
  }

  /**
   * The exact bound: honest proofs for m pass for every mask and challenge exactly when
   * (2^256 - 1) m <= 2^(ell + 256 + bits(n)).
   */
  lemma RangeAlwaysAcceptedIff(n: pos, m: nat, rho: int, ell: nat, gamma: nat)
    ensures RangeAlwaysAccepted(n, m, rho, ell, gamma) <==> (TWO_256 - 1) * m <= Pow(2, ell + 256 + Bits(n))
  {
    var pk := PublicKeyOf(n);
    var c := EncryptWithRho(pk, m, rho);
    var masks := Pow(2, ell + 256 + Bits(n));
    BoundIsTwiceMasks(ell, n);
    if RangeAlwaysAccepted(n, m, rho, ell, gamma) {
      var h: RangeTranscript -> Hash := _ => TWO_256 - 1;
      RangeAcceptsIff(n, m, rho, ell, h, masks - 1, gamma);
      assert VerifyRange(pk, c, ell, h, ProveRange(pk, c, m, rho, ell, h, masks - 1, gamma));
    }
    if (TWO_256 - 1) * m <= masks {
      forall h: RangeTranscript -> Hash, alpha: nat | alpha < masks
        ensures VerifyRange(pk, c, ell, h, ProveRange(pk, c, m, rho, ell, h, alpha, gamma))
      {
        var proof := ProveRange(pk, c, m, rho, ell, h, alpha, gamma);
        RangeAcceptsIff(n, m, rho, ell, h, alpha, gamma);
        MonotoneProduct(h(RangeTranscript(n, pk.g, ell, c, proof.cAlpha)), TWO_256 - 1, m, m);
      }
    }
  }

  lemma BoundIsTwiceMasks(ell: nat, n: pos)
    ensures RangeBound(ell, n) == 2 * Pow(2, ell + 256 + Bits(n)) && Pow(2, ell + 256 + Bits(n)) > 0
  {
    PowPositive(2, ell + 256 + Bits(n));
  }

  /** Every residue modulo n passes, whatever ell is: the test does not separate |m| < 2^ell from the rest. */
  lemma RangeAcceptsEveryResidue(n: pos, m: nat, rho: int, ell: nat, h: RangeTranscript -> Hash, alpha: nat, gamma: nat)
    requires alpha < Pow(2, ell + 256 + Bits(n)) && m < n
    ensures var pk := PublicKeyOf(n);
      var c := EncryptWithRho(pk, m, rho);
      VerifyRange(pk, c, ell, h, ProveRange(pk, c, m, rho, ell, h, alpha, gamma))
  {
    BitsBound(n);
    TwoPowMonotone(Bits(n), ell + Bits(n));
    RangeComplete(n, m, rho, ell, h, alpha, gamma);
  }

  // ---------------------------------------------------------------- multiplication proof

  datatype MulProof = MulProof(cT: int, z: int, s: int)
  datatype MulTranscript = MulTranscript(n: nat, g: nat, cIn: int, cOut: int, cT: int)

  function ProveMul(pk: PublicKey, cIn: int, cOut: int, scalar: nat, rhoOut: int, h: MulTranscript -> Hash,
                    t: nat, rhoT: nat): MulProof {
    var cT := (ModPow(cIn, t, pk.nSq) * ModPow(rhoT, pk.n, pk.nSq)) % pk.nSq;
    var e := h(MulTranscript(pk.n, pk.g, cIn, cOut, cT));
    MulProof(cT, t + e * scalar, Response(rhoT, rhoOut, e, pk.n))
  }

  predicate VerifyMul(pk: PublicKey, cIn: int, cOut: int, boundBits: nat, h: MulTranscript -> Hash, proof: MulProof) {
    if proof.z >= RangeBound(boundBits, pk.n) || proof.z < 0 then false
    else
      var e := h(MulTranscript(pk.n, pk.g, cIn, cOut, proof.cT));
      var lhs := Rem(proof.cT * ModPow(cOut, e, pk.nSq), pk.nSq);
      var rhs := (ModPow(cIn, proof.z, pk.nSq) * ModPow(proof.s, pk.n, pk.nSq)) % pk.nSq;
      lhs == rhs
  }

  /** The ciphertext a scalar multiplication plus re-randomisation produces. */
  function MulCipher(pk: PublicKey, cIn: int, scalar: nat, rhoOut: int): nat {
    (ModPow(cIn, scalar, pk.nSq) * EncryptWithRho(pk, 0, rhoOut)) % pk.nSq
  }

  lemma MulCipherMasked(n: pos, cIn: int, scalar: nat, rhoOut: int)
    ensures Masked(MulCipher(PublicKeyOf(n), cIn, scalar, rhoOut), cIn, scalar, rhoOut, n, PublicKeyOf(n).nSq)
  {
    var pk := PublicKeyOf(n);
    var nSq := pk.nSq;
    MulMod(1, Pow(rhoOut, n), nSq);
    MulMod(1, ModPow(rhoOut, n, nSq), nSq);
    ModMod(Pow(rhoOut, n), nSq);
    assert EncryptWithRho(pk, 0, rhoOut) == ModPow(rhoOut, n, nSq);
    MaskedFromReduced(cIn, scalar, rhoOut, n, nSq);
  }

  lemma MulAcceptsIff(n: pos, cIn: int, scalar: nat, rhoOut: int, boundBits: nat, h: MulTranscript -> Hash, t: nat,
      rhoT: nat)
    ensures var pk := PublicKeyOf(n);
      var cOut := MulCipher(pk, cIn, scalar, rhoOut);
      var proof := ProveMul(pk, cIn, cOut, scalar, rhoOut, h, t, rhoT);
      VerifyMul(pk, cIn, cOut, boundBits, h, proof) <==> proof.z < RangeBound(boundBits, n)
  {
    var pk := PublicKeyOf(n);
    var cOut := MulCipher(pk, cIn, scalar, rhoOut);
    var proof := ProveMul(pk, cIn, cOut, scalar, rhoOut, h, t, rhoT);
    var e := h(MulTranscript(n, pk.g, cIn, cOut, proof.cT));
    MulCipherMasked(n, cIn, scalar, rhoOut);
    MaskedFromReduced(cIn, t, rhoT, n, pk.nSq);
    SigmaEquation(cIn, scalar, rhoOut, cOut, t, rhoT, proof.cT, e, n, pk.nSq);
  }

  lemma MulComplete(n: pos, cIn: int, scalar: nat, rhoOut: int, boundBits: nat, h: MulTranscript -> Hash, t: nat,
      rhoT: nat)
    requires t < Pow(2, boundBits + 256) && scalar <= Pow(2, boundBits + Bits(n))
    ensures var pk := PublicKeyOf(n);
      var cOut := MulCipher(pk, cIn, scalar, rhoOut);
      VerifyMul(pk, cIn, cOut, boundBits, h, ProveMul(pk, cIn, cOut, scalar, rhoOut, h, t, rhoT))
  {
    var pk := PublicKeyOf(n);
    var cOut := MulCipher(pk, cIn, scalar, rhoOut);
    var proof := ProveMul(pk, cIn, cOut, scalar, rhoOut, h, t, rhoT);
    MulAcceptsIff(n, cIn, scalar, rhoOut, boundBits, h, t, rhoT);
    TwoPowMonotone(boundBits + 256, boundBits + 256 + Bits(n));
    ResponseBelowBound(boundBits, Bits(n), t, h(MulTranscript(n, pk.g, cIn, cOut, proof.cT)), scalar);
  }

  // ---------------------------------------------------------------- proofs that also involve the curve

  /** Shared shape of the consistency and log proofs. */
  datatype PointProof = PointProof(cAlpha: int, a: Point, z: nat, s: int)
  datatype PointTranscript = PointTranscript(n: nat, g: nat, c: int, point: Point, a: Point, cAlpha: int)

  /** The Paillier half of `verify_consistency` and `verify_log`. */
  predicate PaillierHalf(pk: PublicKey, c: int, e: nat, proof: PointProof) {
    Rem(proof.cAlpha * ModPow(c, e, pk.nSq), pk.nSq)
      == (ModPow(pk.g, proof.z, pk.nSq) * ModPow(proof.s, pk.n, pk.nSq)) % pk.nSq
  }

  function ProvePoint(pk: PublicKey, m: nat, rho: int, c: int, point: Point, a: Point, h: PointTranscript -> Hash,
                      alpha: nat, gamma: nat): PointProof {
    var cAlpha := (GPow(alpha, pk.n, pk.nSq) * ModPow(gamma, pk.n, pk.nSq)) % pk.nSq;
    var e := h(PointTranscript(pk.n, pk.g, c, point, a, cAlpha));
    PointProof(cAlpha, a, alpha + e * m, Response(gamma, rho, e, pk.n))
  }

  lemma PaillierHalfHolds(n: pos, m: nat, rho: int, point: Point, a: Point, h: PointTranscript -> Hash, alpha: nat,
      gamma: nat)
    ensures var pk := PublicKeyOf(n);
      var c := EncryptWithRho(pk, m, rho);
      var proof := ProvePoint(pk, m, rho, c, point, a, h, alpha, gamma);
      PaillierHalf(pk, c, h(PointTranscript(n, pk.g, c, point, a, proof.cAlpha)), proof)
  {
    var pk := PublicKeyOf(n);
    var c := EncryptWithRho(pk, m, rho);
    var proof := ProvePoint(pk, m, rho, c, point, a, h, alpha, gamma);
    GPowIsModPow(alpha, n);
    MaskedFromReduced(pk.g, m, rho, n, pk.nSq);
    MaskedFromReduced(pk.g, alpha, gamma, n, pk.nSq);
    SigmaEquation(pk.g, m, rho, c, alpha, gamma, proof.cAlpha,
      h(PointTranscript(n, pk.g, c, point, a, proof.cAlpha)), n, pk.nSq);
  }

  /** `prove_consistency`: c encrypts m and m R = G. */
  function ProveConsistency(pk: PublicKey, m: nat, rho: int, c: int, r: Point, h: PointTranscript -> Hash,
                            alpha: nat, gamma: nat, q: pos): PointProof {
    ProvePoint(pk, m, rho, c, r, MulPoint(r, alpha, q), h, alpha, gamma)
  }

  predicate VerifyConsistency(pk: PublicKey, c: int, r: Point, h: PointTranscript -> Hash, proof: PointProof, q: pos) {
    var e := h(PointTranscript(pk.n, pk.g, c, r, proof.a, proof.cAlpha));
    && MulPoint(r, proof.z % q, q) == AddPoints(proof.a, MulG(e % q, q), q)
    && PaillierHalf(pk, c, e, proof)
  }

  /** `prove_log`: c encrypts x and X = x G. */
  function ProveLog(pk: PublicKey, c: int, x: nat, rho: int, public: Point, h: PointTranscript -> Hash,
                    alpha: nat, gamma: nat, q: pos): PointProof {
    ProvePoint(pk, x, rho, c, public, MulG(alpha, q), h, alpha, gamma)
  }

  predicate VerifyLog(pk: PublicKey, c: int, public: Point, h: PointTranscript -> Hash, proof: PointProof, q: pos) {
    var e := h(PointTranscript(pk.n, pk.g, c, public, proof.a, proof.cAlpha));
    && MulG(proof.z % q, q) == AddPoints(proof.a, MulPoint(public, e % q, q), q)
    && PaillierHalf(pk, c, e, proof)
  }

  /** e (u - v) = 0 modulo a prime exactly when e = 0 or u = v. */
  lemma ScaledDifference(e: int, u: int, v: int, q: pos)
    requires IsPrime(q)
    ensures (e * u) % q == (e * v) % q <==> e % q == 0 || u % q == v % q
  {
    if (e * u) % q == (e * v) % q && e % q != 0 { CancelFactor(q, e, u, v); }
    if u % q == v % q { MulCong(e, e, u, v, q); }
    if e % q == 0 {
      ModSmall(0, q);
      MulCong(e, 0, u, u, q);
      MulCong(e, 0, v, v, q);
    }
  }

  lemma AddLeftCancel(a: int, u: int, v: int, q: pos)
    ensures (a + u) % q == (a + v) % q <==> u % q == v % q
  {
    if u % q == v % q { AddCong(a, a, u, v, q); }
    if (a + u) % q == (a + v) % q { SubCong(a + u, a + v, a, a, q); }
  }

  /**
   * A consistency proof made honestly for m passes against R exactly when m R = G,
   * up to the one challenge value that hides the point.
   */
  lemma ConsistencyAcceptsIff(n: pos, m: nat, rho: int, r: Point, h: PointTranscript -> Hash, alpha: nat, gamma: nat,
      q: pos)
    requires IsPrime(q)
    ensures var pk := PublicKeyOf(n);
      var c := EncryptWithRho(pk, m, rho);
      var proof := ProveConsistency(pk, m, rho, c, r, h, alpha, gamma, q);
      var e := h(PointTranscript(n, pk.g, c, r, proof.a, proof.cAlpha));
      VerifyConsistency(pk, c, r, h, proof, q) <==> e % q == 0 || MulPoint(r, m, q) == MulG(1, q)
  {
    var pk := PublicKeyOf(n);
    var c := EncryptWithRho(pk, m, rho);
    var proof := ProveConsistency(pk, m, rho, c, r, h, alpha, gamma, q);
    var e := h(PointTranscript(n, pk.g, c, r, proof.a, proof.cAlpha));
    PaillierHalfHolds(n, m, rho, r, MulPoint(r, alpha, q), h, alpha, gamma);
    var k := r.log;
    MulMod(k, proof.z, q);
    ModMod(e, q);
    AddMod(k * alpha, e, q);
    AddMod(k * alpha, e % q, q);
    assert k * (alpha + e * m) == k * alpha + e * (k * m) by { SpreadResponse(k, alpha, e, m); }
    AddLeftCancel(k * alpha, e * (k * m), e, q);
    ScaledDifference(e, k * m, 1, q);
  }

  lemma SpreadResponse(k: int, alpha: int, e: int, m: int)
    ensures k * (alpha + e * m) == k * alpha + e * (k * m)
  {
    assert k * (e * m) == e * (k * m);
  }

  /** A log proof made honestly for x passes against X exactly when X = x G, up to a zero challenge. */
  lemma LogAcceptsIff(n: pos, x: nat, rho: int, public: Point, h: PointTranscript -> Hash, alpha: nat, gamma: nat,
      q: pos)
    requires IsPrime(q) && public.log < q
    ensures var pk := PublicKeyOf(n);
      var c := EncryptWithRho(pk, x, rho);
      var proof := ProveLog(pk, c, x, rho, public, h, alpha, gamma, q);
      var e := h(PointTranscript(n, pk.g, c, public, proof.a, proof.cAlpha));
      VerifyLog(pk, c, public, h, proof, q) <==> e % q == 0 || public == MulG(x, q)
  {
    var pk := PublicKeyOf(n);
    var c := EncryptWithRho(pk, x, rho);
    var proof := ProveLog(pk, c, x, rho, public, h, alpha, gamma, q);
    var e := h(PointTranscript(n, pk.g, c, public, proof.a, proof.cAlpha));
    PaillierHalfHolds(n, x, rho, public, MulG(alpha, q), h, alpha, gamma);
    var l := public.log;
    ModMod(proof.z, q);
    MulMod(l, e, q);
    AddMod(alpha, l * e, q);
    ModMod(l * e, q);
    AddLeftCancel(alpha, e * x, e * l, q);
    assert l * e == e * l;
    ScaledDifference(e, x, l, q);
    ModSmall(l, q);
  }

  // ---------------------------------------------------------------- Schnorr proof

  datatype SchnorrProof = SchnorrProof(a: Point, z: nat)
  datatype SchnorrTranscript = SchnorrTranscript(a: Point, public: Point)

  function ProveSchnorr(secret: nat, public: Point, h: SchnorrTranscript -> Hash, alpha: nat, q: pos): SchnorrProof {
    var a := MulG(alpha, q);
    var e := h(SchnorrTranscript(a, public)) % q;
    SchnorrProof(a, (alpha + e * secret) % q)
  }

  predicate VerifySchnorr(public: Point, h: SchnorrTranscript -> Hash, proof: SchnorrProof, q: pos) {
    var e := h(SchnorrTranscript(proof.a, public)) % q;
    MulG(proof.z, q) == AddPoints(proof.a, MulPoint(public, e, q), q)
  }

  lemma SchnorrAcceptsIff(secret: nat, public: Point, h: SchnorrTranscript -> Hash, alpha: nat, q: pos)
    requires IsPrime(q) && public.log < q
    ensures var proof := ProveSchnorr(secret, public, h, alpha, q);
      VerifySchnorr(public, h, proof, q) <==>
        h(SchnorrTranscript(proof.a, public)) % q == 0 || public == MulG(secret, q)
  {
    var a := MulG(alpha, q);
    var e := h(SchnorrTranscript(a, public)) % q;
    var l := public.log;
    ModMod(h(SchnorrTranscript(a, public)), q);
    ModMod(alpha + e * secret, q);
    AddMod(alpha, l * e, q);
    AddLeftCancel(alpha, e * secret, e * l, q);
    assert l * e == e * l;
    ScaledDifference(e, secret, l, q);
    ModSmall(l, q);
  }
}
