/**
 * What acceptance of a Paillier proof forces, for arbitrary proofs: the plaintexts behind the
 * ciphertexts satisfy the proof's linear equation modulo n, and the points satisfy theirs modulo q.
 */
module ProofMeaning {
  import opened Arithmetic
  import opened Euclid
  import opened Primes
  import opened Group
  import opened Paillier
  import opened PaillierZk

  // ---------------------------------------------------------------- plaintexts

  /** Congruent ciphertexts encode one plaintext modulo n. */
  lemma EncodingUnique(kp: Keypair, c: int, m: nat, c': int, m': nat)
    requires ValidKey(kp) && Encodes(kp, c, m) && Encodes(kp, c', m')
    requires c % kp.pk.nSq == c' % kp.pk.nSq
    ensures m % kp.pk.n == m' % kp.pk.n
  {
    DecryptEncoding(kp, c, m);
    DecryptEncoding(kp, c', m');
    PowCong(c, c', kp.sk.lambda, kp.pk.nSq);
  }

  /** A challenge times a committed ciphertext, as all four verifiers compute it. */
  lemma CommitmentSideEncodes(kp: Keypair, cAlpha: int, a: nat, c: int, m: nat, e: nat)
    requires ValidKey(kp) && Encodes(kp, cAlpha, a) && Encodes(kp, c, m)
    ensures Encodes(kp, Rem(cAlpha * ModPow(c, e, kp.pk.nSq), kp.pk.nSq), a + m * e)
  {
    KeyFacts(kp);
    var power := ModPow(c, e, kp.pk.nSq);
    ModMod(Pow(c, e), kp.pk.nSq);
    PowEncodings(kp, c, m, e, power);
    RemCong(cAlpha * power, kp.pk.nSq);
    MulEncodings(kp, cAlpha, a, power, m * e, Rem(cAlpha * power, kp.pk.nSq));
  }

  /** A power of a ciphertext times an n-th power. */
  lemma ResponseSideEncodes(kp: Keypair, base: int, m: nat, z: nat, s: int)
    requires ValidKey(kp) && Encodes(kp, base, m) && Unit(kp, s)
    ensures Encodes(kp, (ModPow(base, z, kp.pk.nSq) * ModPow(s, kp.pk.n, kp.pk.nSq)) % kp.pk.nSq, m * z)
  {
    KeyFacts(kp);
    var nSq := kp.pk.nSq;
    var bz, sn := ModPow(base, z, nSq), ModPow(s, kp.pk.n, nSq);
    ModMod(Pow(base, z), nSq);
    ModMod(Pow(s, kp.pk.n), nSq);
    PowEncodings(kp, base, m, z, bz);
    NthPowersEncodeZero(kp, s, sn);
    ModMod(bz * sn, nSq);
    MulEncodings(kp, bz, m * z, sn, 0, (bz * sn) % nSq);
  }

  /**
   * The equation all four verifiers test binds the plaintexts: if c encodes m, the commitment
   * encodes a and the base encodes b, then a + e m = b z modulo n.
   */
  lemma EquationBinds(kp: Keypair, cAlpha: int, a: nat, c: int, m: nat, e: nat, base: int, b: nat, z: nat, s: int)
    requires ValidKey(kp) && Encodes(kp, cAlpha, a) && Encodes(kp, c, m) && Encodes(kp, base, b) && Unit(kp, s)
    requires Rem(cAlpha * ModPow(c, e, kp.pk.nSq), kp.pk.nSq)
          == (ModPow(base, z, kp.pk.nSq) * ModPow(s, kp.pk.n, kp.pk.nSq)) % kp.pk.nSq
    ensures (a + e * m) % kp.pk.n == (b * z) % kp.pk.n
  {
    var left := Rem(cAlpha * ModPow(c, e, kp.pk.nSq), kp.pk.nSq);
    CommitmentSideEncodes(kp, cAlpha, a, c, m, e);
    ResponseSideEncodes(kp, base, b, z, s);
    EncodingUnique(kp, left, a + m * e, left, b * z);
    assert m * e == e * m;
  }

  /** The Paillier half of `verify_log` and `verify_consistency`. */
  lemma PaillierHalfBinds(kp: Keypair, c: int, m: nat, e: nat, proof: PointProof, a: nat)
    requires ValidKey(kp) && Encodes(kp, c, m) && Encodes(kp, proof.cAlpha, a) && Unit(kp, proof.s)
    requires PaillierHalf(kp.pk, c, e, proof)
    ensures (a + e * m) % kp.pk.n == proof.z % kp.pk.n
  {
    GeneratorEncodesOne(kp);
    EquationBinds(kp, proof.cAlpha, a, c, m, e, kp.pk.g, 1, proof.z, proof.s);
    assert 1 * proof.z == proof.z;
  }

  /** What an accepted range proof forces: z in its bound, and a + e m = z modulo n. */
  lemma RangeMeans(kp: Keypair, c: int, m: nat, ell: nat, h: RangeTranscript -> Hash, proof: RangeProof, a: nat)
    requires ValidKey(kp) && Encodes(kp, c, m) && Encodes(kp, proof.cAlpha, a) && Unit(kp, proof.s)
    requires VerifyRange(kp.pk, c, ell, h, proof)
    ensures 0 <= proof.z < Pow(2, ell + 256 + Bits(kp.pk.n) + 1)
    ensures var e := h(RangeTranscript(kp.pk.n, kp.pk.g, ell, c, proof.cAlpha));
      (a + e * m) % kp.pk.n == proof.z % kp.pk.n
  {
    var e := h(RangeTranscript(kp.pk.n, kp.pk.g, ell, c, proof.cAlpha));
    GPowIsModPow(proof.z, kp.pk.n);
    GeneratorEncodesOne(kp);
    EquationBinds(kp, proof.cAlpha, a, c, m, e, kp.pk.g, 1, proof.z, proof.s);
    assert 1 * proof.z == proof.z;
  }

  /** What an accepted multiplication proof forces: t + e mOut = mIn z modulo n. */
  lemma MulMeans(kp: Keypair, cIn: int, mIn: nat, cOut: int, mOut: nat, boundBits: nat, h: MulTranscript -> Hash,
      proof: MulProof, t: nat)
    requires ValidKey(kp) && Encodes(kp, cIn, mIn) && Encodes(kp, cOut, mOut)
    requires Encodes(kp, proof.cT, t) && Unit(kp, proof.s)
    requires VerifyMul(kp.pk, cIn, cOut, boundBits, h, proof)
    ensures 0 <= proof.z < Pow(2, boundBits + 256 + Bits(kp.pk.n) + 1)
    ensures var e := h(MulTranscript(kp.pk.n, kp.pk.g, cIn, cOut, proof.cT));
      (t + e * mOut) % kp.pk.n == (mIn * proof.z) % kp.pk.n
  {
    var e := h(MulTranscript(kp.pk.n, kp.pk.g, cIn, cOut, proof.cT));
    EquationBinds(kp, proof.cT, t, cOut, mOut, e, cIn, mIn, proof.z, proof.s);
  }

  /** What an accepted log proof forces on the plaintext and on the point. */
  lemma LogMeans(kp: Keypair, c: int, m: nat, public: Point, h: PointTranscript -> Hash, proof: PointProof, a: nat,
      q: pos)
    requires ValidKey(kp) && Encodes(kp, c, m) && Encodes(kp, proof.cAlpha, a) && Unit(kp, proof.s)
    requires VerifyLog(kp.pk, c, public, h, proof, q)
    ensures var e := h(PointTranscript(kp.pk.n, kp.pk.g, c, public, proof.a, proof.cAlpha));
      && (a + e * m) % kp.pk.n == proof.z % kp.pk.n
      && proof.z % q == (proof.a.log + e * public.log) % q
  {
    var e := h(PointTranscript(kp.pk.n, kp.pk.g, c, public, proof.a, proof.cAlpha));
    PaillierHalfBinds(kp, c, m, e, proof, a);
    LogPointHalf(public, e, proof, q);
  }

  lemma LogPointHalf(public: Point, e: nat, proof: PointProof, q: pos)
    ensures MulG(proof.z % q, q) == AddPoints(proof.a, MulPoint(public, e % q, q), q)
       <==> proof.z % q == (proof.a.log + e * public.log) % q
  {
    ModMod(proof.z, q);
    MulMod(public.log, e, q);
    AddMod(proof.a.log, public.log * e, q);
    ModMod(public.log * e, q);
    assert public.log * e == e * public.log;
  }

  /** What an accepted consistency proof forces on the plaintext and on the nonce point. */
  lemma ConsistencyMeans(kp: Keypair, c: int, m: nat, r: Point, h: PointTranscript -> Hash, proof: PointProof, a: nat,
      q: pos)
    requires ValidKey(kp) && Encodes(kp, c, m) && Encodes(kp, proof.cAlpha, a) && Unit(kp, proof.s)
    requires VerifyConsistency(kp.pk, c, r, h, proof, q)
    ensures var e := h(PointTranscript(kp.pk.n, kp.pk.g, c, r, proof.a, proof.cAlpha));
      && (a + e * m) % kp.pk.n == proof.z % kp.pk.n
      && (r.log * proof.z) % q == (proof.a.log + e) % q
  {
    var e := h(PointTranscript(kp.pk.n, kp.pk.g, c, r, proof.a, proof.cAlpha));
    PaillierHalfBinds(kp, c, m, e, proof, a);
    MulMod(r.log, proof.z, q);
    ModMod(e, q);
    AddMod(proof.a.log, e, q);
  }

  /** A Schnorr proof is accepted exactly when z = a + e x for the discrete logarithms. */
  lemma SchnorrMeans(public: Point, h: SchnorrTranscript -> Hash, proof: SchnorrProof, q: pos)
    ensures VerifySchnorr(public, h, proof, q) <==>
      proof.z % q == (proof.a.log + h(SchnorrTranscript(proof.a, public)) * public.log) % q
  {
    var e := h(SchnorrTranscript(proof.a, public));
    MulMod(public.log, e, q);
    AddMod(proof.a.log, public.log * e, q);
    assert public.log * e == e * public.log;
  }

  // ---------------------------------------------------------------- where a log proof binds the point

  /**
   * Where an accepted log proof binds the point to the plaintext: when the commitment point is
   * a G for the committed a, neither side wraps modulo n, and the challenge is not 0 modulo q.
   */
  lemma LogBinds(kp: Keypair, c: int, m: nat, public: Point, h: PointTranscript -> Hash, proof: PointProof, a: nat,
      q: pos)
    requires ValidKey(kp) && Encodes(kp, c, m) && Encodes(kp, proof.cAlpha, a) && Unit(kp, proof.s)
    requires VerifyLog(kp.pk, c, public, h, proof, q) && IsPrime(q) && public.log < q
    requires var e := h(PointTranscript(kp.pk.n, kp.pk.g, c, public, proof.a, proof.cAlpha));
      proof.a == MulG(a, q) && e % q != 0 && a + e * m < kp.pk.n && proof.z < kp.pk.n
    ensures public == MulG(m, q)
  {
    var e := h(PointTranscript(kp.pk.n, kp.pk.g, c, public, proof.a, proof.cAlpha));
    LogMeans(kp, c, m, public, h, proof, a, q);
    SameInteger(a, e, m, proof.z, kp.pk.n, public.log, q);
  }

  /** Equal modulo n and below n, the response is the integer a + e m, so its residue modulo q decides l. */
  lemma SameInteger(a: nat, e: nat, m: nat, z: nat, n: pos, l: nat, q: pos)
    requires (a + e * m) % n == z % n && a + e * m < n && z < n
    requires z % q == (a % q + e * l) % q && IsPrime(q) && e % q != 0 && l < q
    ensures l == m % q
  {
    ModSmall(a + e * m, n);
    ModSmall(z, n);
    AddMod(a, e * l, q);
    AddLeftCancel(a, e * m, e * l, q);
    ScaledDifference(e, m, l, q);
    ModSmall(l, q);
  }

  // ---------------------------------------------------------------- honest proofs

  lemma UnitProduct(kp: Keypair, a: int, b: int)
    requires ValidKey(kp) && Unit(kp, a) && Unit(kp, b)
    ensures Unit(kp, a * b)
  {
    UnitIff(kp.p, kp.q, a);
    UnitIff(kp.p, kp.q, b);
    UnitIff(kp.p, kp.q, a * b);
    if (a * b) % kp.p == 0 { NoZeroDivisors(kp.p, a, b); }
    if (a * b) % kp.q == 0 { NoZeroDivisors(kp.q, a, b); }
  }

  lemma UnitPower(kp: Keypair, a: int, e: nat)
    requires ValidKey(kp) && Unit(kp, a)
    ensures Unit(kp, Pow(a, e))
  {
    UnitIff(kp.p, kp.q, a);
    UnitIff(kp.p, kp.q, Pow(a, e));
    PowNonzero(kp.p, a, e);
    PowNonzero(kp.q, a, e);
  }

  /** The response of every proof is gamma rho^e modulo n, a unit for units gamma and rho. */
  lemma ResponseIs(kp: Keypair, gamma: nat, rho: int, e: nat)
    requires ValidKey(kp) && Unit(kp, gamma) && Unit(kp, rho)
    ensures Response(gamma, rho, e, kp.pk.n) % kp.pk.n == (gamma * Pow(rho, e)) % kp.pk.n
    ensures Unit(kp, Response(gamma, rho, e, kp.pk.n))
  {
    UnitPower(kp, rho, e);
    UnitProduct(kp, gamma, Pow(rho, e));
    MulMod(gamma, Pow(rho, e), kp.pk.n);
    ModMod(gamma * ModPow(rho, e, kp.pk.n), kp.pk.n);
  }

  /** What an honest log or consistency proof consists of: an encryption of alpha, and alpha + e m. */
  lemma PointProofIs(kp: Keypair, m: nat, rho: int, c: int, point: Point, a: Point, h: PointTranscript -> Hash,
      alpha: nat, gamma: nat)
    requires ValidKey(kp) && Unit(kp, gamma) && Unit(kp, rho)
    ensures var proof := ProvePoint(kp.pk, m, rho, c, point, a, h, alpha, gamma);
      var e := h(PointTranscript(kp.pk.n, kp.pk.g, c, point, a, proof.cAlpha));
      && Encodes(kp, proof.cAlpha, alpha) && proof.a == a && proof.z == alpha + e * m && Unit(kp, proof.s)
  {
    var proof := ProvePoint(kp.pk, m, rho, c, point, a, h, alpha, gamma);
    GPowIsModPow(alpha, kp.pk.n);
    EncryptEncodes(kp, alpha, gamma);
    ResponseIs(kp, gamma, rho, h(PointTranscript(kp.pk.n, kp.pk.g, c, point, a, proof.cAlpha)));
  }

  /** What an honest range proof consists of. */
  lemma RangeProofIs(kp: Keypair, c: int, m: nat, rho: int, ell: nat, h: RangeTranscript -> Hash, alpha: nat,
      gamma: nat)
    requires ValidKey(kp) && Unit(kp, gamma) && Unit(kp, rho)
    ensures var proof := ProveRange(kp.pk, c, m, rho, ell, h, alpha, gamma);
      var e := h(RangeTranscript(kp.pk.n, kp.pk.g, ell, c, proof.cAlpha));
      && Encodes(kp, proof.cAlpha, alpha) && proof.z == alpha + e * m && Unit(kp, proof.s)
  {
    var proof := ProveRange(kp.pk, c, m, rho, ell, h, alpha, gamma);
    GPowIsModPow(alpha, kp.pk.n);
    EncryptEncodes(kp, alpha, gamma);
    ResponseIs(kp, gamma, rho, h(RangeTranscript(kp.pk.n, kp.pk.g, ell, c, proof.cAlpha)));
  }

  /** What an honest multiplication proof consists of. */
  lemma MulProofIs(kp: Keypair, cIn: int, mIn: nat, cOut: int, scalar: nat, rhoOut: int, h: MulTranscript -> Hash,
      t: nat, rhoT: nat)
    requires ValidKey(kp) && Encodes(kp, cIn, mIn) && Unit(kp, rhoT) && Unit(kp, rhoOut)
    ensures var proof := ProveMul(kp.pk, cIn, cOut, scalar, rhoOut, h, t, rhoT);
      var e := h(MulTranscript(kp.pk.n, kp.pk.g, cIn, cOut, proof.cT));
      && Encodes(kp, proof.cT, mIn * t) && proof.z == t + e * scalar && Unit(kp, proof.s)
  {
    var proof := ProveMul(kp.pk, cIn, cOut, scalar, rhoOut, h, t, rhoT);
    ResponseSideEncodes(kp, cIn, mIn, t, rhoT);
    ResponseIs(kp, rhoT, rhoOut, h(MulTranscript(kp.pk.n, kp.pk.g, cIn, cOut, proof.cT)));
  }

  // ---------------------------------------------------------------- honest proofs against other ciphertexts

  ghost predicate HonestPoint(kp: Keypair, proof: PointProof, alpha: nat, v: nat) {
    Encodes(kp, proof.cAlpha, alpha) && Unit(kp, proof.s) && proof.z == alpha + v
  }

  ghost predicate HonestRange(kp: Keypair, proof: RangeProof, alpha: nat, v: nat) {
    Encodes(kp, proof.cAlpha, alpha) && Unit(kp, proof.s) && proof.z == alpha + v
  }

  ghost predicate HonestMul(kp: Keypair, proof: MulProof, masked: nat, t: nat, v: nat) {
    Encodes(kp, proof.cT, masked) && Unit(kp, proof.s) && proof.z == t + v
  }

  /** A response alpha + v under the challenge e fits a plaintext m only if u = e m equals v modulo n. */
  lemma ResponseFits(kp: Keypair, c: int, m: nat, e: nat, proof: PointProof, alpha: nat, u: nat, v: nat)
    requires ValidKey(kp) && Encodes(kp, c, m) && HonestPoint(kp, proof, alpha, v)
    requires PaillierHalf(kp.pk, c, e, proof) && u == e * m
    ensures u % kp.pk.n == v % kp.pk.n
  {
    PaillierHalfBinds(kp, c, m, e, proof, alpha);
    AddLeftCancel(alpha, u, v, kp.pk.n);
  }

  lemma RangeResponseFits(kp: Keypair, c: int, m: nat, e: nat, ell: nat, h: RangeTranscript -> Hash,
      proof: RangeProof, alpha: nat, u: nat, v: nat)
    requires ValidKey(kp) && Encodes(kp, c, m) && HonestRange(kp, proof, alpha, v)
    requires VerifyRange(kp.pk, c, ell, h, proof) && u == e * m
    requires e == h(RangeTranscript(kp.pk.n, kp.pk.g, ell, c, proof.cAlpha))
    ensures u % kp.pk.n == v % kp.pk.n
  {
    RangeMeans(kp, c, m, ell, h, proof, alpha);
    AddLeftCancel(alpha, u, v, kp.pk.n);
  }

  lemma MulResponseFits(kp: Keypair, cIn: int, mIn: nat, cOut: int, mOut: nat, e: nat, boundBits: nat,
      h: MulTranscript -> Hash, proof: MulProof, masked: nat, u: nat, b: nat, w: nat)
    requires ValidKey(kp) && Encodes(kp, cIn, mIn) && Encodes(kp, cOut, mOut)
    requires Encodes(kp, proof.cT, masked) && Unit(kp, proof.s)
    requires VerifyMul(kp.pk, cIn, cOut, boundBits, h, proof)
    requires e == h(MulTranscript(kp.pk.n, kp.pk.g, cIn, cOut, proof.cT))
    requires u == e * mOut && b == mIn * proof.z && b == masked + w
    ensures u % kp.pk.n == w % kp.pk.n
  {
    MulMeans(kp, cIn, mIn, cOut, mOut, boundBits, h, proof, masked);
    CancelSummand(masked, u, b, w, kp.pk.n);
  }

  lemma CancelSummand(a: nat, u: nat, b: nat, w: nat, n: pos)
    requires (a + u) % n == b % n && b == a + w
    ensures u % n == w % n
  {
    AddLeftCancel(a, u, w, n);
  }

  lemma Distribute(a: int, b: int, c: int)
    ensures a * (b + c) == a * b + a * c
  {
  }

  /**
   * An honest log proof for x, checked against any ciphertext that encodes x', is accepted only
   * if e' x' = e x modulo n, where e is the prover's challenge and e' the verifier's. Under one
   * challenge it is therefore rejected whenever n does not divide e (x' - x).
   */
  lemma LogAgainstOther(kp: Keypair, x: nat, rho: int, c: int, c': int, x': nat, public: Point,
      h: PointTranscript -> Hash, alpha: nat, gamma: nat, q: pos, proof: PointProof, e: nat, e': nat,
      u: nat, v: nat)
    requires ValidKey(kp) && Unit(kp, gamma) && Unit(kp, rho) && Encodes(kp, c', x')
    requires proof == ProveLog(kp.pk, c, x, rho, public, h, alpha, gamma, q)
    requires e == h(PointTranscript(kp.pk.n, kp.pk.g, c, public, proof.a, proof.cAlpha))
    requires e' == h(PointTranscript(kp.pk.n, kp.pk.g, c', public, proof.a, proof.cAlpha))
    requires VerifyLog(kp.pk, c', public, h, proof, q)
    requires u == e' * x' && v == e * x
    ensures u % kp.pk.n == v % kp.pk.n
  {
    assert HonestPoint(kp, proof, alpha, v) by {
      PointProofIs(kp, x, rho, c, public, MulG(alpha, q), h, alpha, gamma);
    }
    ResponseFits(kp, c', x', e', proof, alpha, u, v);
  }

  /** The same for consistency proofs. */
  lemma ConsistencyAgainstOther(kp: Keypair, m: nat, rho: int, c: int, c': int, m': nat, r: Point,
      h: PointTranscript -> Hash, alpha: nat, gamma: nat, q: pos, proof: PointProof, e: nat, e': nat,
      u: nat, v: nat)
    requires ValidKey(kp) && Unit(kp, gamma) && Unit(kp, rho) && Encodes(kp, c', m')
    requires proof == ProveConsistency(kp.pk, m, rho, c, r, h, alpha, gamma, q)
    requires e == h(PointTranscript(kp.pk.n, kp.pk.g, c, r, proof.a, proof.cAlpha))
    requires e' == h(PointTranscript(kp.pk.n, kp.pk.g, c', r, proof.a, proof.cAlpha))
    requires VerifyConsistency(kp.pk, c', r, h, proof, q)
    requires u == e' * m' && v == e * m
    ensures u % kp.pk.n == v % kp.pk.n
  {
    assert HonestPoint(kp, proof, alpha, v) by {
      PointProofIs(kp, m, rho, c, r, MulPoint(r, alpha, q), h, alpha, gamma);
    }
    ResponseFits(kp, c', m', e', proof, alpha, u, v);
  }

  /** An honest range proof for m against any ciphertext that encodes m'. */
  lemma RangeAgainstOther(kp: Keypair, m: nat, rho: int, c: int, c': int, m': nat, ell: nat,
      h: RangeTranscript -> Hash, alpha: nat, gamma: nat, proof: RangeProof, e: nat, e': nat,
      u: nat, v: nat)
    requires ValidKey(kp) && Unit(kp, gamma) && Unit(kp, rho) && Encodes(kp, c', m')
    requires proof == ProveRange(kp.pk, c, m, rho, ell, h, alpha, gamma)
    requires e == h(RangeTranscript(kp.pk.n, kp.pk.g, ell, c, proof.cAlpha))
    requires e' == h(RangeTranscript(kp.pk.n, kp.pk.g, ell, c', proof.cAlpha))
    requires VerifyRange(kp.pk, c', ell, h, proof)
    requires u == e' * m' && v == e * m
    ensures u % kp.pk.n == v % kp.pk.n
  {
    assert HonestRange(kp, proof, alpha, v) by { RangeProofIs(kp, c, m, rho, ell, h, alpha, gamma); }
    RangeResponseFits(kp, c', m', e', ell, h, proof, alpha, u, v);
  }

  /** An honest multiplication proof for a scalar against any output ciphertext that encodes mOut. */
  lemma MulAgainstOther(kp: Keypair, cIn: int, mIn: nat, cOut: int, scalar: nat, rhoOut: int, cOther: int, mOut: nat,
      boundBits: nat, h: MulTranscript -> Hash, t: nat, rhoT: nat, proof: MulProof, e: nat, e': nat,
      u: nat, v: nat, w: nat)
    requires ValidKey(kp) && Encodes(kp, cIn, mIn) && Unit(kp, rhoT) && Unit(kp, rhoOut) && Encodes(kp, cOther, mOut)
    requires proof == ProveMul(kp.pk, cIn, cOut, scalar, rhoOut, h, t, rhoT)
    requires e == h(MulTranscript(kp.pk.n, kp.pk.g, cIn, cOut, proof.cT))
    requires e' == h(MulTranscript(kp.pk.n, kp.pk.g, cIn, cOther, proof.cT))
    requires VerifyMul(kp.pk, cIn, cOther, boundBits, h, proof)
    requires u == e' * mOut && v == e * scalar && w == mIn * v
    ensures u % kp.pk.n == w % kp.pk.n
  {
    assert HonestMul(kp, proof, mIn * t, t, v) by { MulProofIs(kp, cIn, mIn, cOut, scalar, rhoOut, h, t, rhoT); }
    Distribute(mIn, t, v);
    MulResponseFits(kp, cIn, mIn, cOther, mOut, e', boundBits, h, proof, mIn * t, u, mIn * proof.z, w);
  }
}
