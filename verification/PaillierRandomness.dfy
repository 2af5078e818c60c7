/** `encrypt` draws rho from [1, n) without testing that it is coprime to n: when that matters. */
module PaillierRandomness {
  import opened Arithmetic
  import opened Euclid
  import opened Primes
  import opened Paillier

  lemma PowDivisibleBySquare(p: pos, rho: int, e: nat)
    requires rho % p == 0 && e >= 2
    ensures p * p > 0 && Pow(rho, e) % (p * p) == 0
  {
    MulPos(p, p);
    var k := DividesElim(p, rho);
    PowAdd(rho, 2, e - 2);
    PowTwo(rho);
    SquareFactor(k, p, Pow(rho, e - 2));
    DividesIntro(p * p, Pow(rho, e), k * k * Pow(rho, e - 2));
  }

  lemma PowTwo(a: int)
    ensures Pow(a, 2) == a * a
  {
    assert Pow(a, 1) == a * Pow(a, 0);
  }

  lemma SquareFactor(k: int, p: int, w: int)
    ensures ((k * p) * (k * p)) * w == (k * k * w) * (p * p)
  {
    MulSwap(k, p, k, p);
    MulSwap(k * k, p * p, w, 1);
  }

  /** A number that is 0 modulo p^2 and 1 modulo q^2 exceeds p q. */
  lemma IdempotentIsLarge(p: pos, q: pos, x: int, i: int, j: int)
    requires p >= 2 && q >= 2 && p != q
    requires x == i * (p * p) && x == 1 + j * (q * q) && x >= 1
    ensures x > p * q
  {
    MulPos(p, p);
    MulPos(q, q);
    MulSign(i, p * p);
    assert x >= p * p >= p;
    if x <= p * q {
      CompareSquare(p, q);
      SmallQuotient(p, q, j);
      NonPositiveMultiple(j, q * q);
    }
  }

  lemma CompareSquare(p: pos, q: pos)
    requires p * p <= p * q
    ensures p <= q
  {
    MulSign(q - p, p);
    assert (q - p) * p == p * q - p * p;
  }

  lemma NonPositiveMultiple(j: int, n: pos)
    requires j <= 0
    ensures j * n <= 0
  {
    MulSign(j, n);
  }

  lemma SmallQuotient(p: pos, q: pos, j: int)
    requires p < q && j * (q * q) < p * q
    ensures j <= 0
  {
    MulPos(q, q);
    MulSign(j, q * q);
    MulSign(q - p, q);
    assert (q - p) * q == q * q - p * q;
  }

  /** The two residues of rho^(n lambda) when p divides rho and q does not. */
  lemma SplitResidues(p: pos, q: pos, rho: int, exponent: nat)
    requires IsPrime(p) && IsPrime(q) && exponent > 0 && Divides(q - 1, exponent)
    requires rho % p == 0 && rho % q != 0
    ensures p * p > 0 && q * q > 0
    ensures Pow(rho, exponent * (p * q)) % (p * p) == 0
    ensures Pow(rho, exponent * (p * q)) % (q * q) == 1
  {
    AtLeastFactor(p, q, exponent);
    PowDivisibleBySquare(p, rho, exponent * (p * q));
    UnitPowerSquare(p, q, rho, exponent);
  }

  lemma AtLeastFactor(p: pos, q: pos, exponent: pos)
    ensures exponent * (p * q) >= p
  {
    MulPos(p, q);
    MulPos(exponent, p * q);
  }

  lemma UnitPowerSquare(p: pos, q: pos, rho: int, exponent: nat)
    requires IsPrime(q) && Divides(q - 1, exponent) && rho % q != 0
    ensures p * q > 0 && q * q > 0
    ensures Pow(rho, exponent * (p * q)) % (q * q) == 1
  {
    MulPos(p, q);
    FermatMultiple(q, rho, exponent);
    UnitPowerLift(Pow(rho, exponent), q, p);
    PowMul(rho, exponent, p * q);
    Commute(p, q);
  }

  lemma Commute(a: int, b: int)
    ensures a * b == b * a
  {
  }

  /** A natural number that is 0 modulo p^2 and 1 modulo q^2 exceeds p q. */
  lemma SplitResiduesLarge(p: pos, q: pos, x: nat)
    requires p >= 2 && q >= 2 && p != q
    requires p * p > 0 && q * q > 0
    requires x % (p * p) == 0 && x % (q * q) == 1
    ensures x > p * q
  {
    var i := DividesElim(p * p, x);
    var j := x / (q * q);
    assert x == j * (q * q) + x % (q * q);
    ModSmall(0, q * q);
    IdempotentIsLarge(p, q, x, i, j);
  }

  /** Reducing modulo (p q)^2 keeps the residues modulo p^2 and q^2. */
  lemma ReduceKeepsResidues(p: pos, q: pos, w: int, nSq: pos)
    requires nSq == (p * q) * (p * q)
    requires p * p > 0 && q * q > 0
    ensures (w % nSq) % (p * p) == w % (p * p) && (w % nSq) % (q * q) == w % (q * q)
  {
    MulSwap(p, q, p, q);
    ModMod(w, nSq);
    ModFactor(w % nSq, w, p * p, q * q);
    assert nSq == (q * q) * (p * p);
    ModFactor(w % nSq, w, q * q, p * p);
  }

  /** A ciphertext that n divides decrypts to 0: the division of -1 by n truncates. */
  lemma MultipleDecryptsToZero(kp: Keypair, c: int)
    requires ValidKey(kp) && c % kp.pk.n == 0
    ensures Decrypt(kp.sk, kp.pk, c) == 0
  {
    KeyFacts(kp);
    LambdaAtLeastTwo(kp);
    PowDivisibleBySquare(kp.pk.n, c, kp.sk.lambda);
    LOfZero(kp.pk.n);
    ModSmall(0, kp.pk.n);
  }

  lemma LambdaAtLeastTwo(kp: Keypair)
    requires ValidKey(kp)
    ensures kp.sk.lambda >= 2
  {
    KeyFacts(kp);
    DividesLe(kp.p - 1, kp.sk.lambda);
    DividesLe(kp.q - 1, kp.sk.lambda);
  }

  lemma LOfZero(n: pos)
    requires n > 1
    ensures LFunction(0, n) == 0
  {
    ModUnique(1, 0, 1, n);
  }

  /** Zero is not recovered when exactly one prime divides the randomness. */
  lemma OnePrimeBreaksZero(kp: Keypair, p: pos, q: pos, rho: int)
    requires ValidKey(kp) && ((p == kp.p && q == kp.q) || (p == kp.q && q == kp.p))
    requires rho % p == 0 && rho % q != 0
    ensures Decrypt(kp.sk, kp.pk, EncryptWithRho(kp.pk, 0, rho)) != 0
  {
    FactorFacts(kp, p, q);
    CipherOfZero(kp, rho);
    PowerIsLarge(p, q, rho, kp.sk.lambda, kp.pk.n, kp.pk.nSq);
    LargePowerNotZero(kp, EncryptWithRho(kp.pk, 0, rho), Pow(rho, kp.sk.lambda * kp.pk.n) % kp.pk.nSq);
  }

  lemma FactorFacts(kp: Keypair, p: pos, q: pos)
    requires ValidKey(kp) && ((p == kp.p && q == kp.q) || (p == kp.q && q == kp.p))
    ensures IsPrime(p) && IsPrime(q) && p != q && kp.pk.n == p * q && kp.pk.nSq == kp.pk.n * kp.pk.n
    ensures kp.sk.lambda > 0 && Divides(q - 1, kp.sk.lambda)
  {
    KeyFacts(kp);
    Commute(p, q);
  }

  lemma LargePowerNotZero(kp: Keypair, c: int, x: nat)
    requires ValidKey(kp) && kp.pk.n < x < kp.pk.nSq && Pow(c, kp.sk.lambda) % kp.pk.nSq == x
    ensures Decrypt(kp.sk, kp.pk, c) != 0
  {
    LargeValueNotZero(kp, x);
  }

  /** rho^(n lambda) modulo n^2 exceeds n when exactly the prime p divides rho. */
  lemma PowerIsLarge(p: pos, q: pos, rho: int, exponent: nat, n: pos, nSq: pos)
    requires IsPrime(p) && IsPrime(q) && p != q && exponent > 0 && Divides(q - 1, exponent)
    requires rho % p == 0 && rho % q != 0
    requires n == p * q && nSq == n * n
    ensures Pow(rho, exponent * n) % nSq > n
  {
    SplitResidues(p, q, rho, exponent);
    var w := Pow(rho, exponent * n);
    ReduceKeepsResidues(p, q, w, nSq);
    SplitResiduesLarge(p, q, w % nSq);
  }

  lemma CipherOfZero(kp: Keypair, rho: int)
    requires ValidKey(kp)
    ensures Pow(EncryptWithRho(kp.pk, 0, rho), kp.sk.lambda) % kp.pk.nSq == Pow(rho, kp.sk.lambda * kp.pk.n) % kp.pk.nSq
  {
    KeyFacts(kp);
    var n, nSq, exponent := kp.pk.n, kp.pk.nSq, kp.sk.lambda;
    MulPos(n, n);
    ModSmall(1, nSq);
    var rn := Pow(rho, n);
    ModMod(rn, nSq);
    assert ModPow(kp.pk.g, 0, nSq) == 1;
    assert EncryptWithRho(kp.pk, 0, rho) == rn % nSq;
    PowCong(rn % nSq, rn, exponent, nSq);
    PowMul(rho, n, exponent);
    assert n * exponent == exponent * n;
  }

  lemma LargeValueNotZero(kp: Keypair, x: nat)
    requires ValidKey(kp) && kp.pk.n < x < kp.pk.nSq
    ensures (LFunction(x, kp.pk.n) * kp.sk.mu) % kp.pk.n != 0
  {
    KeyFacts(kp);
    QuotientRange(x - 1, kp.pk.n);
    UnitFactorNotZero(LFunction(x, kp.pk.n), kp.sk.lambda, kp.sk.mu, kp.pk.n);
  }

  /** Multiplying by an invertible number does not make a non-zero residue zero. */
  lemma UnitFactorNotZero(l: nat, exponent: int, mu: int, n: pos)
    requires 0 < l < n && (exponent * mu) % n == 1
    ensures (l * mu) % n != 0
  {
    ModSmall(l, n);
    ModSmall(0, n);
    ModSmall(1, n);
    MulCong(l, l, exponent * mu, 1, n);
    RotateFactors(l, exponent, mu);
    if (l * mu) % n == 0 { MulCong(exponent, exponent, l * mu, 0, n); }
  }

  lemma RotateFactors(l: int, exponent: int, mu: int)
    ensures l * (exponent * mu) == exponent * (l * mu)
  {
  }

  lemma QuotientRange(y: nat, n: pos)
    requires n <= y < n * n
    ensures 1 <= y / n < n
  {
    var k := y / n;
    assert k * n <= y < k * n + n;
    assert (k - n) * n == k * n - n * n;
    MulSign(k - n, n);
    MulSign(k, n);
  }

  /**
   * For randomness in the range the code draws from, encryption with rho round-trips for
   * every message exactly when rho is coprime to n.
   */
  lemma RoundTripIffUnit(kp: Keypair, rho: nat)
    requires ValidKey(kp) && 0 < rho < kp.pk.n
    ensures (forall m: nat :: Decrypt(kp.sk, kp.pk, EncryptWithRho(kp.pk, m, rho)) == m % kp.pk.n)
       <==> Coprime(kp.pk.n, rho)
  {
    ModSmall(rho, kp.pk.n);
    if Coprime(kp.pk.n, rho) {
      forall m: nat
        ensures Decrypt(kp.sk, kp.pk, EncryptWithRho(kp.pk, m, rho)) == m % kp.pk.n
      {
        DecryptEncrypt(kp, m, rho);
      }
    } else {
      KeyFacts(kp);
      var p: pos, q: pos := kp.p, kp.q;
      UnitIff(p, q, rho);
      if rho % p == 0 && rho % q == 0 {
        CoprimeDivideTogether(p, q, rho);
      }
      if rho % p == 0 {
        OnePrimeBreaksZero(kp, p, q, rho);
      } else {
        OnePrimeBreaksZero(kp, q, p, rho);
      }
      ModSmall(0, kp.pk.n);
    }
  }
}
