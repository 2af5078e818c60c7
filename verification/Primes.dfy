/** Prime moduli: no zero divisors, Fermat's little theorem, Euler's criterion for p = 3 mod 4. */
module Primes {
  import opened Arithmetic
  import opened Euclid

  ghost predicate IsPrime(p: int) {
    p >= 2 && forall d :: 2 <= d < p ==> p % d != 0
  }

  lemma PrimeCoprime(p: pos, a: int)
    requires IsPrime(p) && a % p != 0
    ensures Coprime(p, a % p)
  {
    var g: pos := Gcd(p, a % p);
    GcdDivides(p, a % p);
    if g >= p && a % p < g {
      ModSmall(a % p, g);
    }
  }

  lemma PrimeNotCoprime(p: pos, a: nat)
    requires IsPrime(p) && a % p == 0
    ensures !Coprime(p, a)
  {
    DividesIntro(p, p, 1);
    GcdGreatest(p, a, p);
    if Gcd(p, a) == 1 { ModSmall(1, p); }
  }

  lemma PrimeInverse(p: pos, a: int)
    requires IsPrime(p) && a % p != 0
    ensures (a * Inverse(a, p)) % p == 1
  {
    PrimeCoprime(p, a);
    InverseCorrect(a, p);
    ModSmall(1, p);
  }

  /** A prime modulus has no zero divisors. */
  lemma NoZeroDivisors(p: pos, a: int, b: int)
    requires IsPrime(p) && (a * b) % p == 0
    ensures a % p == 0 || b % p == 0
  {
    if a % p != 0 {
      PrimeCoprime(p, a);
      MulMod(a, b, p);
      CoprimeDividesFactor(p, a % p, b);
    }
  }

  lemma CancelFactor(p: pos, a: int, b: int, c: int)
    requires IsPrime(p) && a % p != 0 && (a * b) % p == (a * c) % p
    ensures b % p == c % p
  {
    SubZero(a * b, a * c, p);
    assert a * b - a * c == a * (b - c);
    NoZeroDivisors(p, a, b - c);
    SubZero(b, c, p);
  }

  lemma {:induction false} PowNonzero(p: pos, a: int, e: nat)
    requires IsPrime(p) && a % p != 0
    ensures Pow(a, e) % p != 0
  {
    if e == 0 {
      ModSmall(1, p);
    } else {
      PowNonzero(p, a, e - 1);
      if Pow(a, e) % p == 0 { NoZeroDivisors(p, a, Pow(a, e - 1)); }
    }
  }

  lemma DistinctPrimesCoprime(p: pos, q: pos)
    requires IsPrime(p) && IsPrime(q) && p != q
    ensures Coprime(p, q) && Coprime(q, p)
  {
    if p < q {
      ModSmall(p, q);
      PrimeCoprime(q, p);
      CoprimeSymmetric(q, p);
    } else {
      ModSmall(q, p);
      PrimeCoprime(p, q);
      CoprimeSymmetric(p, q);
    }
  }

  // ---------------------------------------------------------------- Fermat

  function Choose(n: nat, k: nat): nat {
    if k == 0 then 1 else if n == 0 then 0 else Choose(n - 1, k - 1) + Choose(n - 1, k)
  }

  lemma {:induction false} ChooseAbove(n: nat, k: nat)
    requires k > n
    ensures Choose(n, k) == 0
  {
    if n != 0 {
      ChooseAbove(n - 1, k - 1);
      ChooseAbove(n - 1, k);
    }
  }

  lemma {:induction false} ChooseAll(n: nat)
    ensures Choose(n, n) == 1
  {
    if n != 0 {
      ChooseAll(n - 1);
      ChooseAbove(n - 1, n);
    }
  }

  lemma {:induction false} ChooseAbsorption(n: pos, k: pos)
    ensures k * Choose(n, k) == n * Choose(n - 1, k - 1)
  {
    if n == 1 {
      if k > 1 { ChooseAbove(1, k); ChooseAbove(0, k - 1); }
    } else {
      ChooseAbsorption(n - 1, k);
      if k > 1 {
        ChooseAbsorption(n - 1, k - 1);
        AbsorptionStep(n, k, Choose(n - 2, k - 2), Choose(n - 2, k - 1), Choose(n - 1, k));
      }
    }
  }

  lemma AbsorptionStep(n: int, k: int, e: int, f: int, d: int)
    requires (k - 1) * (e + f) == (n - 1) * e && k * d == (n - 1) * f
    ensures k * ((e + f) + d) == n * (e + f)
  {
    assert (n - 1) * e + (n - 1) * f == (n - 1) * (e + f);
  }

  lemma PrimeDividesChoose(p: pos, k: pos)
    requires IsPrime(p) && k < p
    ensures Choose(p, k) % p == 0
  {
    ChooseAbsorption(p, k);
    var c := Choose(p - 1, k - 1);
    assert p * c == c * p;
    DividesIntro(p, k * Choose(p, k), c);
    ModSmall(k, p);
    NoZeroDivisors(p, k, Choose(p, k));
  }

  /** The first m+1 terms of the binomial expansion of (a+1)^n. */
  function BinomialSum(a: int, n: nat, m: nat): int {
    Choose(n, m) * Pow(a, m) + if m == 0 then 0 else BinomialSum(a, n, m - 1)
  }

  lemma {:induction false} BinomialRow(a: int, n: nat, m: nat)
    ensures BinomialSum(a, n + 1, m + 1) == a * BinomialSum(a, n, m) + BinomialSum(a, n, m + 1)
  {
    var c, d, w := Choose(n, m), Choose(n, m + 1), Pow(a, m);
    assert (c + d) * (a * w) == a * (c * w) + d * (a * w);
    if m == 0 {
      assert BinomialSum(a, n + 1, 0) == 1 == BinomialSum(a, n, 0);
    } else {
      BinomialRow(a, n, m - 1);
      assert a * (c * w + BinomialSum(a, n, m - 1)) == a * (c * w) + a * BinomialSum(a, n, m - 1);
    }
  }

  lemma {:induction false} BinomialTheorem(a: int, n: nat)
    ensures Pow(a + 1, n) == BinomialSum(a, n, n)
  {
    if n != 0 {
      BinomialTheorem(a, n - 1);
      BinomialRow(a, n - 1, n - 1);
      ChooseAbove(n - 1, n);
      assert BinomialSum(a, n - 1, n) == BinomialSum(a, n - 1, n - 1);
      assert Pow(a + 1, n) == a * Pow(a + 1, n - 1) + Pow(a + 1, n - 1);
    }
  }

  lemma {:induction false} MiddleTermsVanish(p: pos, a: int, m: nat)
    requires IsPrime(p) && m < p
    ensures BinomialSum(a, p, m) % p == 1
  {
    if m == 0 {
      assert BinomialSum(a, p, 0) == 1;
      ModSmall(1, p);
    } else {
      MiddleTermsVanish(p, a, m - 1);
      PrimeDividesChoose(p, m);
      ModSmall(0, p);
      ModSmall(1, p);
      MulCong(Choose(p, m), 0, Pow(a, m), Pow(a, m), p);
      AddCong(Choose(p, m) * Pow(a, m), 0, BinomialSum(a, p, m - 1), 1, p);
    }
  }

  lemma {:induction false} FermatPower(p: pos, a: nat)
    requires IsPrime(p)
    ensures Pow(a, p) % p == a % p
  {
    if a == 0 {
      assert Pow(0, p) == 0 * Pow(0, p - 1);
    } else {
      FermatPower(p, a - 1);
      BinomialTheorem(a - 1, p);
      MiddleTermsVanish(p, a - 1, p - 1);
      ChooseAll(p);
      ModSmall(1, p);
      AddCong(Pow(a - 1, p), a - 1, BinomialSum(a - 1, p, p - 1), 1, p);
    }
  }

  /** Fermat's little theorem. */
  lemma Fermat(p: pos, a: int)
    requires IsPrime(p) && a % p != 0
    ensures Pow(a, p - 1) % p == 1
  {
    ModMod(a, p);
    PowCong(a, a % p, p - 1, p);
    FermatPower(p, a % p);
    var b := a % p;
    assert Pow(b, p) == b * Pow(b, p - 1);
    CancelFactor(p, b, Pow(b, p - 1), 1);
    ModSmall(1, p);
  }

  lemma FermatMultiple(p: pos, a: int, e: nat)
    requires IsPrime(p) && a % p != 0 && Divides(p - 1, e)
    ensures Pow(a, e) % p == 1
  {
    var k := DividesElim(p - 1, e);
    if k < 0 { MulSign(k, p - 1); }
    assert e == (p - 1) * k;
    PowMul(a, p - 1, k);
    Fermat(p, a);
    ModSmall(1, p);
    PowCong(Pow(a, p - 1), 1, k, p);
    PowOne(k);
  }

  // ---------------------------------------------------------------- Euler's criterion

  lemma SquareRootOfOne(p: pos, x: int)
    requires IsPrime(p) && (x * x) % p == 1
    ensures x % p == 1 || x % p == p - 1
  {
    ModSmall(1, p);
    SubZero(x * x, 1, p);
    assert x * x - 1 == (x - 1) * (x + 1);
    NoZeroDivisors(p, x - 1, x + 1);
    SubZero(x, 1, p);
    SubZero(x, -1, p);
    ModUnique(-1, -1, p - 1, p);
  }

  function EulerExponent(p: pos): nat { (p - 1) / 2 }

  /** For a prime p = 3 mod 4 and a not divisible by p, a^((p-1)/2) is 1 or -1, and negating a flips it. */
  lemma EulerDichotomy(p: pos, a: int)
    requires IsPrime(p) && p % 4 == 3 && a % p != 0
    ensures ModPow(a, EulerExponent(p), p) == 1 || ModPow(a, EulerExponent(p), p) == p - 1
    ensures ModPow(-a, EulerExponent(p), p) == 1 <==> ModPow(a, EulerExponent(p), p) == p - 1
  {
    var h := EulerExponent(p);
    assert p - 1 == h + h && h % 2 == 1;
    PowAdd(a, h, h);
    Fermat(p, a);
    var x := Pow(a, h);
    SquareRootOfOne(p, x);
    PowNegOdd(a, h);
    ModUnique(-1, -1, p - 1, p);
    ModSmall(1, p);
    SubCong(0, 0, x, if x % p == 1 then 1 else -1, p);
  }

  lemma {:induction false} PowNegOdd(a: int, h: nat)
    ensures h % 2 == 1 ==> Pow(-a, h) == -Pow(a, h)
    ensures h % 2 == 0 ==> Pow(-a, h) == Pow(a, h)
  {
    if h != 0 {
      PowNegOdd(a, h - 1);
      assert (-a) * (0 - Pow(a, h - 1)) == a * Pow(a, h - 1);
      assert (-a) * Pow(a, h - 1) == -(a * Pow(a, h - 1));
    }
  }

  /** When the Euler test passes, a^((p+1)/4) squares to a. */
  lemma EulerRoot(p: pos, a: int)
    requires IsPrime(p) && p % 4 == 3 && ModPow(a, EulerExponent(p), p) == 1
    ensures (ModPow(a, (p + 1) / 4, p) * ModPow(a, (p + 1) / 4, p)) % p == a % p
  {
    var e := (p + 1) / 4;
    assert e + e == 1 + EulerExponent(p);
    PowAdd(a, e, e);
    PowAdd(a, 1, EulerExponent(p));
    assert Pow(a, 1) == a * Pow(a, 0) == a;
    MulMod(Pow(a, e), Pow(a, e), p);
    ModSmall(1, p);
    MulCong(a, a, Pow(a, EulerExponent(p)), 1, p);
  }

  lemma EulerOfMultiple(p: pos, a: int)
    requires IsPrime(p) && p % 4 == 3 && a % p == 0
    ensures ModPow(a, EulerExponent(p), p) == 0
  {
    var h := EulerExponent(p);
    PowCong(a, 0, h, p);
    assert Pow(0, h) == 0 * Pow(0, h - 1);
    ModSmall(0, p);
  }
}
