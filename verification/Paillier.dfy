/** Paillier encryption: key generation, encryption, decryption and the homomorphic operations. */
module Paillier {
  import opened Arithmetic
  import opened Euclid
  import opened Primes
  import opened Wrappers

  datatype PublicKey = PublicKey(n: pos, nSq: pos, g: nat)
  datatype PrivateKey = PrivateKey(lambda: nat, mu: nat)
  datatype Keypair = Keypair(p: pos, q: pos, pk: PublicKey, sk: PrivateKey)

  /** The key a peer rebuilds from a modulus: n, n^2 and g = n + 1. */
  function PublicKeyOf(n: pos): PublicKey {
    MulPos(n, n);
    PublicKey(n, n * n, n + 1)
  }

  function EncryptWithRho(pk: PublicKey, m: nat, rho: int): nat {
    (ModPow(pk.g, m, pk.nSq) * ModPow(rho, pk.n, pk.nSq)) % pk.nSq
  }

  function Add(pk: PublicKey, c1: int, c2: int): int {
    Rem(c1 * c2, pk.nSq)
  }

  function ScalarMul(pk: PublicKey, c: int, k: nat): nat {
    ModPow(c, k, pk.nSq)
  }

  /** Big-integer division truncates toward zero. */
  function TruncDiv(a: int, b: pos): int {
    if a >= 0 then a / b else -((-a) / b)
  }

  /** Quotient and remainder of a truncating division. */
  lemma TruncDivMeans(a: int, b: pos)
    ensures TruncDiv(a, b) * b + Rem(a, b) == a
  {
    if a < 0 {
      assert -a == ((-a) / b) * b + (-a) % b;
      assert TruncDiv(a, b) * b == 0 - ((-a) / b) * b;
    }
  }

  function LFunction(x: int, n: pos): int {
    TruncDiv(x - 1, n)
  }

  function Decrypt(sk: PrivateKey, pk: PublicKey, c: int): nat {
    (LFunction(ModPow(c, sk.lambda, pk.nSq), pk.n) * sk.mu) % pk.n
  }

  // ---------------------------------------------------------------- first-order expansion

  /** The formal derivative m * b^(m-1) of b^m. */
  function Derivative(b: int, m: nat): int {
    if m == 0 then 0 else b * Derivative(b, m - 1) + Pow(b, m - 1)
  }

  lemma {:induction false} DerivativeForm(b: int, m: pos)
    ensures Derivative(b, m) == m * Pow(b, m - 1)
  {
    if m > 1 {
      DerivativeForm(b, m - 1);
      DerivativeStep(b, m, Pow(b, m - 2));
    }
  }

  lemma DerivativeStep(b: int, m: int, w: int)
    ensures b * ((m - 1) * w) + b * w == m * (b * w)
  {
    assert b * ((m - 1) * w) == (m - 1) * (b * w);
  }

  lemma ExpandStep(b: int, k: int, n: int, w: int, d: int)
    ensures (b + k * n) * (w + d * k * n) == (b * w + (b * d + w) * k * n) + (k * k * d) * (n * n)
  {
    var kn := k * n;
    assert d * k * n == d * kn;
    assert (b * d + w) * k * n == (b * d + w) * kn;
    ExpandProduct(b, kn, w, d * kn);
    assert b * (d * kn) == (b * d) * kn && kn * w == w * kn;
    FactorOut(b * d, w, 0, kn);
    assert kn * (d * kn) == d * (kn * kn);
    MulSwap(k, n, k, n);
    assert d * ((k * k) * (n * n)) == (k * k * d) * (n * n);
  }

  /** (b + k n)^m = b^m + m b^(m-1) k n modulo n^2. */
  lemma {:induction false} FirstOrder(b: int, k: int, n: pos, m: nat)
    ensures n * n > 0
    ensures Pow(b + k * n, m) % (n * n) == (Pow(b, m) + Derivative(b, m) * k * n) % (n * n)
  {
    MulPos(n, n);
    if m == 0 {
      assert Derivative(b, 0) * k * n == 0;
    } else {
      FirstOrder(b, k, n, m - 1);
      var w, d := Pow(b, m - 1), Derivative(b, m - 1);
      MulCong(b + k * n, b + k * n, Pow(b + k * n, m - 1), w + d * k * n, n * n);
      ExpandStep(b, k, n, w, d);
      ModShift(b * w + (b * d + w) * k * n, k * k * d, n * n);
    }
  }

  lemma {:induction false} DerivativeOfOne(m: nat)
    ensures Derivative(1, m) == m
  {
    if m != 0 {
      DerivativeOfOne(m - 1);
      PowOne(m - 1);
    }
  }

  /** Powers of 1 + k n modulo n^2; with k = 1 this is why `g_pow` may replace `modpow`. */
  lemma OnePlusPower(k: int, n: pos, m: nat)
    ensures n * n > 0
    ensures Pow(1 + k * n, m) % (n * n) == (1 + (m * k) * n) % (n * n)
  {
    FirstOrder(1, k, n, m);
    DerivativeOfOne(m);
    PowOne(m);
  }

  /** n-th powers modulo n^2 depend only on the base modulo n. */
  lemma NthPowerLift(a: int, b: int, n: pos)
    requires a % n == b % n
    ensures n * n > 0
    ensures Pow(a, n) % (n * n) == Pow(b, n) % (n * n)
  {
    var k := ModWitness(a, b, n);
    FirstOrder(b, k, n, n);
    DerivativeForm(b, n);
    var w := Pow(b, n - 1);
    SquareOut(n, w, k);
    ModShift(Pow(b, n), w * k, n * n);
  }

  lemma SquareOut(n: int, w: int, k: int)
    ensures (n * w) * k * n == (w * k) * (n * n)
  {
    assert (n * w) * k == n * (w * k);
  }

  // ---------------------------------------------------------------- keys

  /** What every key leaving `generate_keypair_ext` satisfies. */
  ghost predicate ValidKey(kp: Keypair) {
    && IsPrime(kp.p) && IsPrime(kp.q) && kp.p != kp.q
    && kp.pk.n == kp.p * kp.q
    && kp.pk == PublicKeyOf(kp.pk.n)
    && kp.sk.lambda == Lcm(kp.p - 1, kp.q - 1)
    && (kp.sk.lambda * kp.sk.mu) % kp.pk.n == 1
    && 0 < kp.sk.mu < kp.pk.n
  }

  /** The body of the generation loop after both primes were drawn. */
  function KeyFrom(p: pos, q: pos): Keypair
    requires p > 1 && q > 1
  {
    MulPos(p, q);
    var pk := PublicKeyOf(p * q);
    var exponent := Lcm(p - 1, q - 1);
    var l := LFunction(ModPow(pk.g, exponent, pk.nSq), pk.n);
    Keypair(p, q, pk, PrivateKey(exponent, Inverse(l, pk.n)))
  }

  lemma LFunctionExact(y: nat, n: pos)
    requires n > 1
    ensures n * n > 0
    ensures LFunction((1 + y * n) % (n * n), n) == y % n
  {
    MulPos(n, n);
    var r := y % n;
    var k := y / n;
    assert y == k * n + r;
    SplitMultiple(y, k, r, n);
    ModUnique(1 + y * n, k, 1 + r * n, n * n);
    ModUnique(r * n, r, 0, n);
  }

  lemma SplitMultiple(y: nat, k: int, r: nat, n: pos)
    requires y == k * n + r && r < n && n > 1
    ensures 1 + y * n == k * (n * n) + (1 + r * n)
    ensures 0 <= r * n < n * n - 1
  {
    var kn := k * n;
    assert (kn + r) * n == kn * n + r * n;
    assert kn * n == k * (n * n);
    MulSign(n - 1 - r, n);
    assert (n - 1 - r) * n == n * n - n - r * n;
    if r == n - 1 {
      assert (n - 1 - r) * n == 0;
    }
  }

  lemma KeyFromL(p: pos, q: pos)
    requires p > 1 && q > 1
    ensures var kp := KeyFrom(p, q);
      LFunction(ModPow(kp.pk.g, kp.sk.lambda, kp.pk.nSq), kp.pk.n) == kp.sk.lambda % kp.pk.n
  {
    var kp := KeyFrom(p, q);
    var n := kp.pk.n;
    assert n > 1 by { MulPos(p, q); }
    OnePlusPower(1, n, kp.sk.lambda);
    LFunctionExact(kp.sk.lambda, n);
  }

  /** p divides lcm(p-1, q-1) exactly when it divides q-1. */
  lemma PrimeDividesLcm(p: pos, q: pos)
    requires IsPrime(p) && q > 1
    ensures Lcm(p - 1, q - 1) > 0
    ensures Lcm(p - 1, q - 1) % p == 0 <==> (q - 1) % p == 0
  {
    LcmIsLeast(p - 1, q - 1);
    var exponent: pos := Lcm(p - 1, q - 1);
    if exponent % p == 0 {
      var k, l := LcmFactors(p - 1, q - 1);
      DividesIntro(exponent, (p - 1) * (q - 1), Gcd(p - 1, q - 1));
      DividesTrans(p, exponent, (p - 1) * (q - 1));
      ModSmall(p - 1, p);
      NoZeroDivisors(p, p - 1, q - 1);
    }
    if (q - 1) % p == 0 {
      DividesTrans(p, q - 1, exponent);
    }
  }

  lemma UnitIff(p: pos, q: pos, a: int)
    requires IsPrime(p) && IsPrime(q)
    ensures p * q > 0
    ensures Coprime(p * q, a % (p * q)) <==> a % p != 0 && a % q != 0
  {
    MulPos(p, q);
    var n: pos := p * q;
    ModMod(a, n);
    ModFactor(a % n, a, p, q);
    assert n == q * p;
    ModFactor(a % n, a, q, p);
    if a % p != 0 && a % q != 0 {
      PrimeCoprime(p, a % n);
      PrimeCoprime(q, a % n);
      CoprimeOfReduced(p, a % n);
      CoprimeOfReduced(q, a % n);
      CoprimeProduct(a % n, p, q);
      CoprimeSymmetric(a % n, n);
    }
    if Coprime(n, a % n) {
      CoprimeSymmetric(n, a % n);
      CoprimeOfFactor(a % n, p, q);
      CoprimeOfFactor(a % n, q, p);
      CoprimeSymmetric(a % n, p);
      CoprimeSymmetric(a % n, q);
      if a % p == 0 { PrimeNotCoprime(p, a % n); }
      if a % q == 0 { PrimeNotCoprime(q, a % n); }
    }
  }

  lemma CoprimeOfReduced(p: pos, a: nat)
    requires Coprime(p, a % p)
    ensures Coprime(a, p)
  {
  }

  /** The retry test `mu == 0` fires exactly when one prime divides the other minus one. */
  lemma RetryIff(p: pos, q: pos)
    requires IsPrime(p) && IsPrime(q)
    ensures KeyFrom(p, q).sk.mu == 0 <==> (q - 1) % p == 0 || (p - 1) % q == 0
  {
    var kp := KeyFrom(p, q);
    var n := kp.pk.n;
    var exponent := kp.sk.lambda;
    assert n > 1 by { MulPos(p, q); }
    KeyFromL(p, q);
    ModMod(exponent, n);
    PrimeDividesLcm(p, q);
    PrimeDividesLcm(q, p);
    LcmSymmetric(p - 1, q - 1);
    UnitIff(p, q, exponent);
    if Coprime(n, exponent % n) {
      InverseCorrect(exponent % n, n);
      ModSmall(0, n);
      ModSmall(1, n);
    }
  }

  lemma LcmSymmetric(a: pos, b: pos)
    ensures Lcm(a, b) == Lcm(b, a)
  {
    GcdDivides(a, b);
    GcdDivides(b, a);
    GcdGreatest(a, b, Gcd(b, a));
    GcdGreatest(b, a, Gcd(a, b));
    DividesLe(Gcd(a, b), Gcd(b, a));
    DividesLe(Gcd(b, a), Gcd(a, b));
    assert a * b == b * a;
  }

  lemma DividesLe(d: pos, a: pos)
    requires Divides(d, a)
    ensures d <= a
  {
    if a < d { ModSmall(a, d); }
  }

  /** Primes of the same bit length never trigger the retry, so `mu == 0` is dead code for them. */
  lemma EqualBitLengthNeverRetries(p: pos, q: pos, b: nat)
    requires IsPrime(p) && IsPrime(q) && p != q && p % 2 == 1 && q % 2 == 1
    requires Pow(2, b) <= p < Pow(2, b + 1) && Pow(2, b) <= q < Pow(2, b + 1)
    ensures KeyFrom(p, q).sk.mu != 0
  {
    RetryIff(p, q);
    assert Pow(2, b + 1) == 2 * Pow(2, b);
    NoSmallMultiple(p, q);
    NoSmallMultiple(q, p);
  }

  lemma NoSmallMultiple(p: pos, q: pos)
    requires p % 2 == 1 && q % 2 == 1 && 1 < q < 2 * p
    ensures (q - 1) % p != 0
  {
    if (q - 1) % p == 0 {
      var k := DividesElim(p, q - 1);
      QuotientIsOne(k, p, q - 1);
    }
  }

  lemma QuotientIsOne(k: int, p: pos, d: int)
    requires d == k * p && 0 < d < 2 * p
    ensures k == 1
  {
    assert (k - 1) * p == k * p - p;
    MulSign(k - 1, p);
  }

  lemma KeyFromValid(p: pos, q: pos)
    requires IsPrime(p) && IsPrime(q) && p != q
    requires KeyFrom(p, q).sk.mu != 0
    ensures ValidKey(KeyFrom(p, q))
  {
    var kp := KeyFrom(p, q);
    var n := kp.pk.n;
    assert n > 1 by { MulPos(p, q); }
    KeyFromL(p, q);
    ModMod(kp.sk.lambda, n);
    InverseCorrect(kp.sk.lambda % n, n);
    MulMod(kp.sk.lambda, kp.sk.mu, n);
    ModSmall(1, n);
  }

  method KeyFromPrimes(p: pos, q: pos) returns (kp: Keypair)
    requires p > 1 && q > 1
    ensures kp == KeyFrom(p, q)
  {
    MulPos(p, q);
    var n: pos := p * q;
    var pk := PublicKeyOf(n);
    var exponent := Lcm(p - 1, q - 1);
    var gLambda := ModPow(pk.g, exponent, pk.nSq);
    var l := LFunction(gLambda, n);
    var mu := ModInv(l, n);
    kp := Keypair(p, q, pk, PrivateKey(exponent, mu));
  }

  ghost predicate AllPrime(draws: seq<nat>) {
    forall i {:trigger draws[i]} :: 0 <= i < |draws| ==> IsPrime(draws[i])
  }

  /** The first key the retry loop of `generate_keypair_ext` returns on a stream of prime draws. */
  function FirstKey(draws: seq<nat>): Option<Keypair>
    requires forall i :: 0 <= i < |draws| ==> draws[i] > 1
  {
    if |draws| == 0 then None
    else if draws[0] % 4 != 3 then FirstKey(draws[1..])
    else if |draws| == 1 then None
    else if draws[1] % 4 != 3 || draws[0] == draws[1] then FirstKey(draws[2..])
    else if KeyFrom(draws[0], draws[1]).sk.mu == 0 then FirstKey(draws[2..])
    else Some(KeyFrom(draws[0], draws[1]))
  }

  /** Every key the loop can return satisfies the key invariant, with both primes 3 mod 4. */
  lemma {:induction false} GeneratedKeysAreValid(draws: seq<nat>)
    requires AllPrime(draws)
    ensures FirstKey(draws).Some? ==>
      var kp := FirstKey(draws).value;
      ValidKey(kp) && kp.p % 4 == 3 && kp.q % 4 == 3 && kp.p in draws && kp.q in draws
  {
    if |draws| == 0 {
    } else if draws[0] % 4 != 3 {
      GeneratedKeysAreValid(draws[1..]);
    } else if |draws| > 1 {
      if draws[1] % 4 != 3 || draws[0] == draws[1] || KeyFrom(draws[0], draws[1]).sk.mu == 0 {
        GeneratedKeysAreValid(draws[2..]);
      } else {
        KeyFromValid(draws[0], draws[1]);
      }
    }
  }

  /** Two draws the loop keeps: both 3 modulo 4, distinct, and neither dividing the other minus one. */
  ghost predicate AcceptablePair(p: pos, q: pos) {
    p % 4 == 3 && q % 4 == 3 && p != q && (q - 1) % p != 0 && (p - 1) % q != 0
  }

  ghost predicate AcceptableAt(draws: seq<nat>, j: nat) {
    j + 1 < |draws| && draws[j] > 0 && draws[j + 1] > 0 && AcceptablePair(draws[j], draws[j + 1])
  }

  /**
   * The loop, starting an iteration at draw i, starts one at draw j: a rejected first prime
   * costs one draw, a rejected pair two.
   */
  ghost predicate Reaches(draws: seq<nat>, i: nat, j: nat)
    decreases j - i
  {
    i == j ||
    (i < j && i < |draws| && !AcceptableAt(draws, i) &&
     Reaches(draws, if draws[i] % 4 != 3 then i + 1 else i + 2, j))
  }

  lemma ReachesBound(draws: seq<nat>, i: nat, j: nat)
    requires Reaches(draws, i, j)
    ensures i <= j
  {
  }

  /** One iteration on two primes: it returns exactly when the pair is acceptable. */
  lemma PairKeptIff(p: pos, q: pos)
    requires IsPrime(p) && IsPrime(q)
    ensures p % 4 == 3 && q % 4 == 3 && p != q && KeyFrom(p, q).sk.mu != 0 <==> AcceptablePair(p, q)
  {
    RetryIff(p, q);
  }

  lemma FirstKeyStep(draws: seq<nat>)
    requires AllPrime(draws) && |draws| > 0
    ensures AcceptableAt(draws, 0) ==> FirstKey(draws) == Some(KeyFrom(draws[0], draws[1]))
    ensures !AcceptableAt(draws, 0) && draws[0] % 4 != 3 ==> FirstKey(draws) == FirstKey(draws[1..])
    ensures !AcceptableAt(draws, 0) && draws[0] % 4 == 3 ==>
      FirstKey(draws) == if |draws| == 1 then None else FirstKey(draws[2..])
  {
    if |draws| > 1 { PairKeptIff(draws[0], draws[1]); }
  }

  /** An acceptable pair at the head of the draws is returned, whatever follows. */
  lemma HeadPairReturned(p: pos, q: pos, more: seq<nat>)
    requires AllPrime([p, q] + more) && AcceptablePair(p, q)
    ensures FirstKey([p, q] + more) == Some(KeyFrom(p, q))
  {
    var draws := [p, q] + more;
    assert draws[0] == p && draws[1] == q;
    FirstKeyStep(draws);
  }

  /** The key for an acceptable pair the loop reaches is the one it returns. */
  lemma {:induction false} ReachedPairReturned(draws: seq<nat>, i: nat, j: nat)
    requires AllPrime(draws) && i <= |draws| && Reaches(draws, i, j) && AcceptableAt(draws, j)
    ensures FirstKey(draws[i..]) == Some(KeyFrom(draws[j], draws[j + 1]))
    decreases j - i
  {
    var rest := draws[i..];
    if i < j {
      FirstKeyStep(rest);
      var next := if draws[i] % 4 != 3 then i + 1 else i + 2;
      ReachesBound(draws, next, j);
      assert rest[next - i..] == draws[next..];
      ReachedPairReturned(draws, next, j);
    } else {
      FirstKeyStep(rest);
    }
  }

  /** A returned key comes from an acceptable pair the loop reached. */
  lemma {:induction false} ReturnedPairReached(draws: seq<nat>, i: nat) returns (j: nat)
    requires AllPrime(draws) && i <= |draws| && FirstKey(draws[i..]).Some?
    ensures Reaches(draws, i, j) && AcceptableAt(draws, j)
    decreases |draws| - i
  {
    var rest := draws[i..];
    FirstKeyStep(rest);
    if AcceptableAt(draws, i) {
      j := i;
    } else {
      var next := if draws[i] % 4 != 3 then i + 1 else i + 2;
      assert rest[next - i..] == draws[next..];
      j := ReturnedPairReached(draws, next);
    }
  }

  /**
   * Exactly when the loop returns on a stream of primes, and what: it returns the key of the
   * acceptable pair it reaches, and nothing only when it reaches none.
   */
  lemma FirstKeyIff(draws: seq<nat>)
    requires AllPrime(draws)
    ensures FirstKey(draws).Some? <==> exists j: nat :: ReachesPair(draws, j)
    ensures forall j: nat :: ReachesPair(draws, j) ==> KeyAt(draws, j, FirstKey(draws))
  {
    assert draws[0..] == draws;
    if FirstKey(draws).Some? {
      var j := ReturnedPairReached(draws, 0);
      assert ReachesPair(draws, j);
    }
    forall j: nat | ReachesPair(draws, j)
      ensures KeyAt(draws, j, FirstKey(draws))
    {
      ReachedPairReturned(draws, 0, j);
    }
  }

  ghost predicate ReachesPair(draws: seq<nat>, j: nat) {
    Reaches(draws, 0, j) && AcceptableAt(draws, j)
  }

  /** The result is the key of the pair at draw j. */
  ghost predicate KeyAt(draws: seq<nat>, j: nat, r: Option<Keypair>) {
    j + 1 < |draws| && draws[j] > 1 && draws[j + 1] > 1 && r == Some(KeyFrom(draws[j], draws[j + 1]))
  }

  /** The key does not depend on how much of the stream follows, so a finite stream stands for any longer one. */
  lemma {:induction false} LongerStreamSameKey(draws: seq<nat>, more: seq<nat>)
    requires AllPrime(draws + more) && AllPrime(draws) && FirstKey(draws).Some?
    ensures FirstKey(draws + more) == FirstKey(draws)
  {
    if draws[0] % 4 != 3 {
      assert (draws + more)[1..] == draws[1..] + more;
      assert forall k :: 0 <= k < |draws[1..] + more| ==> (draws[1..] + more)[k] == (draws + more)[k + 1];
      LongerStreamSameKey(draws[1..], more);
    } else if draws[1] % 4 != 3 || draws[0] == draws[1] || KeyFrom(draws[0], draws[1]).sk.mu == 0 {
      assert (draws + more)[2..] == draws[2..] + more;
      assert forall k :: 0 <= k < |draws[2..] + more| ==> (draws[2..] + more)[k] == (draws + more)[k + 2];
      LongerStreamSameKey(draws[2..], more);
    }
  }

  /** `generate_keypair_ext`; `None` means the stream ended while the loop was still retrying. */
  method GenerateKeypairExt(draws: seq<nat>) returns (r: Option<Keypair>)
    requires AllPrime(draws)
    ensures r == FirstKey(draws)
    ensures r.Some? ==> ValidKey(r.value)
  {
    GeneratedKeysAreValid(draws);
    var next := 0;
    while next < |draws|
      invariant 0 <= next <= |draws|
      invariant FirstKey(draws) == FirstKey(draws[next..])
      decreases |draws| - next
    {
      ghost var rest := draws[next..];
      var p := draws[next];
      next := next + 1;
      assert rest[1..] == draws[next..];
      if p % 4 != 3 {
        continue;
      }
      if next == |draws| {
        return None;
      }
      var q := draws[next];
      next := next + 1;
      assert rest[1] == q && rest[2..] == draws[next..];
      if q % 4 != 3 {
        continue;
      }
      if p == q {
        continue;
      }
      var kp := KeyFromPrimes(p, q);
      if kp.sk.mu == 0 {
        continue;
      }
      return Some(kp);
    }
    return None;
  }

  // ---------------------------------------------------------------- correctness

  /** c decrypts like an encryption of m: c^lambda = 1 + m lambda n modulo n^2. */
  ghost predicate Encodes(kp: Keypair, c: int, m: nat) {
    Pow(c, kp.sk.lambda) % kp.pk.nSq == (1 + (m * kp.sk.lambda) * kp.pk.n) % kp.pk.nSq
  }

  ghost predicate Unit(kp: Keypair, rho: int) {
    Coprime(kp.pk.n, rho % kp.pk.n)
  }

  lemma KeyFacts(kp: Keypair)
    requires ValidKey(kp)
    ensures kp.pk.n > 1 && kp.pk.nSq == kp.pk.n * kp.pk.n && kp.pk.g == kp.pk.n + 1
    ensures kp.sk.lambda > 0
    ensures Divides(kp.p - 1, kp.sk.lambda) && Divides(kp.q - 1, kp.sk.lambda)
    ensures Coprime(kp.p, kp.q) && Coprime(kp.q, kp.p)
  {
    MulPos(kp.p, kp.q);
    LcmIsLeast(kp.p - 1, kp.q - 1);
    DistinctPrimesCoprime(kp.p, kp.q);
  }

  /** If y = 1 modulo n then y^(n e) = 1 modulo n^2. */
  lemma UnitPowerLift(y: int, n: pos, e: nat)
    requires n > 1 && y % n == 1
    ensures n * n > 0
    ensures Pow(y, n * e) % (n * n) == 1
  {
    MulPos(n, n);
    ModSmall(1, n);
    NthPowerLift(y, 1, n);
    PowOne(n);
    ModSmall(1, n * n);
    PowMul(y, n, e);
    PowCong(Pow(y, n), 1, e, n * n);
    PowOne(e);
  }

  /** rho^(n lambda) = 1 modulo n^2 for every unit rho. */
  lemma UnitOrder(kp: Keypair, rho: int)
    requires ValidKey(kp) && Unit(kp, rho)
    ensures Pow(rho, kp.sk.lambda * kp.pk.n) % kp.pk.nSq == 1
  {
    KeyFacts(kp);
    var n, exponent := kp.pk.n, kp.sk.lambda;
    UnitIff(kp.p, kp.q, rho);
    FermatMultiple(kp.p, rho, exponent);
    FermatMultiple(kp.q, rho, exponent);
    ModSmall(1, kp.p);
    ModSmall(1, kp.q);
    ModSmall(1, n);
    var y := Pow(rho, exponent);
    CoprimeCong(kp.p, kp.q, y, 1);
    UnitPowerLift(y, n, 1);
    assert n * 1 == n;
    PowMul(rho, exponent, n);
  }

  lemma MulEncodings(kp: Keypair, c1: int, m1: nat, c2: int, m2: nat, c: int)
    requires Encodes(kp, c1, m1) && Encodes(kp, c2, m2)
    requires kp.pk.nSq == kp.pk.n * kp.pk.n
    requires c % kp.pk.nSq == (c1 * c2) % kp.pk.nSq
    ensures Encodes(kp, c, m1 + m2)
  {
    var exponent, n, nSq := kp.sk.lambda, kp.pk.n, kp.pk.nSq;
    PowCong(c, c1 * c2, exponent, nSq);
    PowDistributes(c1, c2, exponent);
    var a, b := m1 * exponent, m2 * exponent;
    MulCong(Pow(c1, exponent), 1 + a * n, Pow(c2, exponent), 1 + b * n, nSq);
    assert (1 + a * n) * (1 + b * n) == (1 + (a + b) * n) + (a * b) * nSq by {
      MulSwap(a, n, b, n);
      assert (1 + a * n) * (1 + b * n) == 1 + a * n + b * n + (a * n) * (b * n);
    }
    ModShift(1 + (a + b) * n, a * b, nSq);
    assert (m1 + m2) * exponent == a + b;
  }

  lemma PowEncodings(kp: Keypair, c: int, m: nat, k: nat, d: int)
    requires Encodes(kp, c, m)
    requires kp.pk.nSq == kp.pk.n * kp.pk.n
    requires d % kp.pk.nSq == Pow(c, k) % kp.pk.nSq
    ensures Encodes(kp, d, m * k)
  {
    var exponent, n, nSq := kp.sk.lambda, kp.pk.n, kp.pk.nSq;
    PowCong(d, Pow(c, k), exponent, nSq);
    PowCommute(c, k, exponent);
    PowCong(Pow(c, exponent), 1 + (m * exponent) * n, k, nSq);
    OnePlusPower(m * exponent, n, k);
    Rotate(k, m, exponent);
  }

  lemma PowCommute(c: int, e: nat, f: nat)
    ensures Pow(Pow(c, e), f) == Pow(Pow(c, f), e)
  {
    PowMul(c, e, f);
    PowMul(c, f, e);
    assert e * f == f * e;
  }

  lemma Rotate(k: int, m: int, l: int)
    ensures k * (m * l) == (m * k) * l
  {
  }

  lemma NthPowersEncodeZero(kp: Keypair, rho: int, d: int)
    requires ValidKey(kp) && Unit(kp, rho)
    requires d % kp.pk.nSq == Pow(rho, kp.pk.n) % kp.pk.nSq
    ensures Encodes(kp, d, 0)
  {
    var exponent, n, nSq := kp.sk.lambda, kp.pk.n, kp.pk.nSq;
    KeyFacts(kp);
    PowCong(d, Pow(rho, n), exponent, nSq);
    PowMul(rho, n, exponent);
    assert n * exponent == exponent * n;
    UnitOrder(kp, rho);
    ModMod(Pow(rho, n * exponent), nSq);
    assert (0 * exponent) * n == 0;
    MulPos(n, n);
    ModSmall(1, nSq);
  }

  lemma GeneratorEncodesOne(kp: Keypair)
    requires ValidKey(kp)
    ensures Encodes(kp, kp.pk.g, 1)
  {
    OnePlusPower(1, kp.pk.n, kp.sk.lambda);
  }

  lemma EncryptEncodes(kp: Keypair, m: nat, rho: int)
    requires ValidKey(kp) && Unit(kp, rho)
    ensures Encodes(kp, EncryptWithRho(kp.pk, m, rho), m)
  {
    var nSq := kp.pk.nSq;
    var gm, rn := ModPow(kp.pk.g, m, nSq), ModPow(rho, kp.pk.n, nSq);
    KeyFacts(kp);
    GeneratorEncodesOne(kp);
    ModMod(Pow(kp.pk.g, m), nSq);
    ModMod(Pow(rho, kp.pk.n), nSq);
    PowEncodings(kp, kp.pk.g, 1, m, gm);
    assert 1 * m == m;
    NthPowersEncodeZero(kp, rho, rn);
    ModMod(gm * rn, nSq);
    MulEncodings(kp, gm, m, rn, 0, EncryptWithRho(kp.pk, m, rho));
  }

  /** Decryption inverts every encoding. */
  lemma DecryptEncoding(kp: Keypair, c: int, m: nat)
    requires ValidKey(kp) && Encodes(kp, c, m)
    ensures Decrypt(kp.sk, kp.pk, c) == m % kp.pk.n
  {
    KeyFacts(kp);
    var exponent, mu, n := kp.sk.lambda, kp.sk.mu, kp.pk.n;
    LFunctionExact(m * exponent, n);
    DecryptArithmetic(m, exponent, mu, n);
  }

  lemma DecryptArithmetic(m: nat, exponent: nat, mu: nat, n: pos)
    requires n > 1 && (exponent * mu) % n == 1
    ensures (((m * exponent) % n) * mu) % n == m % n
  {
    MulMod(m * exponent, mu, n);
    ModSmall(1, n);
    MulCong(m, m, exponent * mu, 1, n);
    assert (m * exponent) * mu == m * (exponent * mu);
  }

  /** Encryption followed by decryption, for every key, message and unit randomness. */
  lemma DecryptEncrypt(kp: Keypair, m: nat, rho: int)
    requires ValidKey(kp) && Unit(kp, rho)
    ensures Decrypt(kp.sk, kp.pk, EncryptWithRho(kp.pk, m, rho)) == m % kp.pk.n
  {
    EncryptEncodes(kp, m, rho);
    DecryptEncoding(kp, EncryptWithRho(kp.pk, m, rho), m);
  }

  // ---------------------------------------------------------------- expressions over ciphertexts

  datatype Expr =
    | Enc(m: nat, rho: int)
    | Plus(left: Expr, right: Expr)
    | Scale(arg: Expr, k: nat)

  function Plain(e: Expr): nat {
    match e
    case Enc(m, _) => m
    case Plus(l, r) => Plain(l) + Plain(r)
    case Scale(a, k) => Plain(a) * k
  }

  function Cipher(pk: PublicKey, e: Expr): int {
    match e
    case Enc(m, rho) => EncryptWithRho(pk, m, rho)
    case Plus(l, r) => Add(pk, Cipher(pk, l), Cipher(pk, r))
    case Scale(a, k) => ScalarMul(pk, Cipher(pk, a), k)
  }

  ghost predicate UnitRandomness(kp: Keypair, e: Expr) {
    match e
    case Enc(_, rho) => Unit(kp, rho)
    case Plus(l, r) => UnitRandomness(kp, l) && UnitRandomness(kp, r)
    case Scale(a, _) => UnitRandomness(kp, a)
  }

  lemma {:induction false} CipherEncodesPlain(kp: Keypair, e: Expr)
    requires ValidKey(kp) && UnitRandomness(kp, e)
    ensures Encodes(kp, Cipher(kp.pk, e), Plain(e))
  {
    match e
    case Enc(m, rho) =>
      EncryptEncodes(kp, m, rho);
    case Plus(l, r) =>
      CipherEncodesPlain(kp, l);
      CipherEncodesPlain(kp, r);
      RemCong(Cipher(kp.pk, l) * Cipher(kp.pk, r), kp.pk.nSq);
      MulEncodings(kp, Cipher(kp.pk, l), Plain(l), Cipher(kp.pk, r), Plain(r), Cipher(kp.pk, e));
    case Scale(a, k) =>
      CipherEncodesPlain(kp, a);
      ModMod(Pow(Cipher(kp.pk, a), k), kp.pk.nSq);
      PowEncodings(kp, Cipher(kp.pk, a), Plain(a), k, Cipher(kp.pk, e));
  }

  /** Any expression built with `add` and `scalar_mul` decrypts to its integer value modulo n. */
  lemma HomomorphicEvaluation(kp: Keypair, e: Expr)
    requires ValidKey(kp) && UnitRandomness(kp, e)
    ensures Decrypt(kp.sk, kp.pk, Cipher(kp.pk, e)) == Plain(e) % kp.pk.n
  {
    CipherEncodesPlain(kp, e);
    DecryptEncoding(kp, Cipher(kp.pk, e), Plain(e));
  }
}
