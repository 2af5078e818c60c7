/** Which Paillier moduli make every honest Lindell run right: the exact condition on the key and the curve order. */
module LindellModulus {
  import opened Arithmetic
  import opened Euclid
  import opened Primes
  import opened Group
  import opened Core
  import opened Paillier
  import opened PaillierZk
  import opened LindellSign
  import LindellDkg

  /** In every honest run with this Paillier key P1 sends the target signature. */
  ghost predicate AlwaysRight(kp: Keypair, q: pos) {
    forall run: Run, f: seq<int>, rnd: P1Random, rnd2: P2Random ::
      HonestInputs(run, f) && HonestDraws(run, rnd, rnd2) && run.cv.q == q && rnd.kp == kp ==>
        P1Message(run, rnd, rnd2) == Result.Ok(TargetSignature(run, f, rnd))
  }

  // ---------------------------------------------------------------- the run that wraps most

  /** Two signers whose shares make P2's multiplier q - 1 for the digest 1. */
  function WrappingRun(q: pos): Run {
    Run(Curve(q, (p: Point) => p.log, (p: Point) => p.log % 2), 2, 0, 1, [q - 1, 0], MulG(-2, q), 1,
      Oracles(_ => 0, _ => 0, _ => 0))
  }

  const WRAPPING_POLY: seq<int> := [-2, 1]

  lemma WrappingPolyAt(x: int)
    ensures PolyAt(WRAPPING_POLY, x) == x - 2
  {
    assert WRAPPING_POLY[1..] == [1] && [1][1..] == [];
    assert PolyAt([1], x) == 1 + x * 0;
  }

  lemma WrappingRunIsHonest(q: pos)
    requires IsPrime(q) && 3 <= q <= TWO_256
    ensures HonestInputs(WrappingRun(q), WRAPPING_POLY)
  {
    WrappingPolyAt(0);
    WrappingPolyAt(1);
    WrappingPolyAt(2);
    ModUnique(-1, -1, q - 1, q);
    ModSmall(0, q);
    assert LindellDkg.SharesOn([q - 1, 0], WRAPPING_POLY, 2, q);
  }

  /** Draws for a key and nonce, with all Paillier randomness 1 and all masks 0. */
  lemma PlainDraws(run: Run, kp: Keypair, k: nat) returns (rnd: P1Random, rnd2: P2Random)
    requires ValidKey(kp) && 0 < k < run.cv.q
    ensures rnd.kp == kp && rnd.k == k && HonestDraws(run, rnd, rnd2)
  {
    rnd := P1Random(kp, k, 1, 0, 0, 0, 0);
    rnd2 := P2Random(1, 0, 0);
    OneIsUnit(kp);
    PowPositive(2, CURVE_BITS + 256 + Bits(kp.pk.n));
    PowPositive(2, CURVE_BITS + 256);
  }

  lemma OneIsUnit(kp: Keypair)
    requires ValidKey(kp)
    ensures Unit(kp, 1)
  {
    ModSmall(1, kp.p);
    ModSmall(1, kp.q);
    UnitIff(kp.p, kp.q, 1);
  }

  lemma SecondCoefficient(q: pos)
    requires q >= 2
    ensures LagrangeCoeff(1, [0, 1], q) == q - 1
  {
    assert [0, 1][1..] == [1] && [1][1..] == [];
    assert Numerator(1, [1]) == 1 && Denominator(1, [1]) == 1;
    assert Numerator(1, [0, 1]) == 1 && Denominator(1, [0, 1]) == -1;
    ModShift(1, -1, q);
    InverseUnique(-1, q, q - 1);
    ModSmall(q - 1, q);
  }

  lemma WrappingMultiplier(q: pos, rnd: P1Random)
    requires q >= 2
    ensures Multiplier(WrappingRun(q), rnd) == q - 1
  {
    SecondCoefficient(q);
    ModSmall(1, q);
    ModSmall(q - 1, q);
    assert SignatureR(WrappingRun(q), rnd) * 0 == 0;
    assert (q - 1) * (1 + 0) == q - 1;
  }

  /** q - 1 and 1 are their own inverses. */
  lemma SelfInverses(q: pos)
    requires q >= 2
    ensures Inverse(q - 1, q) == q - 1 && Inverse(1, q) == 1
  {
    assert (q - 1) * (q - 1) == 1 + (q - 2) * q;
    ModShift(1, q - 2, q);
    InverseUnique(q - 1, q, q - 1);
    InverseUnique(1, q, 1);
  }

  /** The nonce whose product with the multiplier wraps: q - 1, or 1 when the modulus is below q. */
  function WrappingNonce(n: nat, q: pos): nat {
    if n < q then 1 else q - 1
  }

  lemma WrapsBelowSquare(n: pos, q: pos, product: nat)
    requires q >= 3 && n <= (q - 1) * (q - 1)
    requires product == WrappingNonce(n, q) * (q - 1)
    ensures (product / n) % q != 0
  {
    ProductRange(n, q, product);
    QuotientBelow(product, n, q);
    ModSmall(product / n, q);
  }

  lemma ProductRange(n: pos, q: pos, product: nat)
    requires q >= 3 && n <= (q - 1) * (q - 1)
    requires product == WrappingNonce(n, q) * (q - 1)
    ensures n <= product < q * n
  {
    if n < q {
      MonotoneProduct(q, q, 1, n);
    } else {
      SquareBelow(q, n);
    }
  }

  /** A concrete honest run that goes wrong for a modulus up to (q-1)^2 that q does not divide. */
  lemma WrappingRunFails(kp: Keypair, q: pos) returns (run: Run, f: seq<int>, rnd: P1Random, rnd2: P2Random)
    requires ValidKey(kp) && IsPrime(q) && 3 <= q <= TWO_256
    requires kp.pk.n % q != 0 && kp.pk.n <= (q - 1) * (q - 1)
    ensures run.cv.q == q && rnd.kp == kp && HonestInputs(run, f) && HonestDraws(run, rnd, rnd2)
    ensures P1Message(run, rnd, rnd2).Ok?
    ensures P1Message(run, rnd, rnd2).value.s != TargetSignature(run, f, rnd).s
  {
    run, f := WrappingRun(q), WRAPPING_POLY;
    WrappingRunIsHonest(q);
    rnd, rnd2 := PlainDraws(run, kp, WrappingNonce(kp.pk.n, q));
    SelfInverses(q);
    WrappingMultiplier(q, rnd);
    WrapsBelowSquare(kp.pk.n, q, Product(run, rnd));
    P1SignatureCorrectIff(run, f, rnd, rnd2);
  }

  lemma RightAboveSquare(kp: Keypair, q: pos, run: Run, f: seq<int>, rnd: P1Random, rnd2: P2Random)
    requires q >= 3 && (kp.pk.n % q == 0 || kp.pk.n > (q - 1) * (q - 1))
    requires HonestInputs(run, f) && HonestDraws(run, rnd, rnd2) && run.cv.q == q && rnd.kp == kp
    ensures P1Message(run, rnd, rnd2) == Result.Ok(TargetSignature(run, f, rnd))
  {
    P1SignatureCorrectIff(run, f, rnd, rnd2);
    FactorBound(Inverse(rnd.k, q), Multiplier(run, rnd), q);
    MonotoneProduct(2, q - 1, q - 1, q - 1);
  }

  /**
   * Every honest run with a given key is right if and only if q divides the modulus or the
   * modulus is above (q-1)^2. Both are things a caller knows before drawing a nonce.
   */
  lemma AlwaysRightIff(kp: Keypair, q: pos)
    requires ValidKey(kp) && IsPrime(q) && 3 <= q <= TWO_256
    ensures AlwaysRight(kp, q) <==> kp.pk.n % q == 0 || kp.pk.n > (q - 1) * (q - 1)
  {
    if kp.pk.n % q == 0 || kp.pk.n > (q - 1) * (q - 1) {
      forall run: Run, f: seq<int>, rnd: P1Random, rnd2: P2Random |
        HonestInputs(run, f) && HonestDraws(run, rnd, rnd2) && run.cv.q == q && rnd.kp == kp
        ensures P1Message(run, rnd, rnd2) == Result.Ok(TargetSignature(run, f, rnd))
      {
        RightAboveSquare(kp, q, run, f, rnd, rnd2);
      }
    } else {
      var run, f, rnd, rnd2 := WrappingRunFails(kp, q);
    }
  }
}
