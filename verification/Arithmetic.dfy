/** Integer remainders and powers: the facts every other module reduces to. */
module Arithmetic {

  type pos = n: nat | n > 0 witness 1

  lemma MulSign(d: int, n: pos)
    ensures d >= 1 ==> d * n >= n
    ensures d <= -1 ==> d * n <= 0 - n
  {
  }

  lemma ModUnique(x: int, k: int, r: int, n: pos)
    requires x == k * n + r
    requires 0 <= r < n
    ensures x % n == r && x / n == k
  {
    var d := k - x / n;
    assert d * n == x % n - r by {
      assert x == (x / n) * n + x % n;
    }
    MulSign(d, n);
  }

  lemma ModShift(b: int, k: int, n: pos)
    ensures (b + k * n) % n == b % n
  {
    assert b + k * n == (b / n + k) * n + b % n by {
      assert b == (b / n) * n + b % n;
    }
    ModUnique(b + k * n, b / n + k, b % n, n);
  }

  /** Two integers with the same remainder differ by a multiple of the modulus. */
  lemma ModWitness(a: int, b: int, n: pos) returns (k: int)
    requires a % n == b % n
    ensures a == b + k * n
  {
    k := a / n - b / n;
    assert a == (a / n) * n + a % n;
    assert b == (b / n) * n + b % n;
  }

  lemma ModSmall(a: nat, n: pos)
    requires a < n
    ensures a % n == a
  {
    ModUnique(a, 0, a, n);
  }

  lemma ModMod(a: int, n: pos)
    ensures (a % n) % n == a % n
  {
    ModSmall(a % n, n);
  }

  lemma MulExpand(a: int, k: int, b: int, l: int, n: int)
    ensures (a + k * n) * (b + l * n) == a * b + (k * b + a * l + k * l * n) * n
  {
    var kn, ln := k * n, l * n;
    ExpandProduct(a, kn, b, ln);
    assert a * ln == (a * l) * n && kn * b == (k * b) * n;
    MulSwap(k, n, l, n);
    assert (k * l) * (n * n) == (k * l * n) * n;
    FactorOut(k * b, a * l, k * l * n, n);
  }

  lemma ExpandProduct(a: int, x: int, b: int, y: int)
    ensures (a + x) * (b + y) == a * b + a * y + x * b + x * y
  {
  }

  lemma FactorOut(u: int, v: int, w: int, n: int)
    ensures (u + v + w) * n == u * n + v * n + w * n
  {
  }

  lemma MulSwap(a: int, b: int, c: int, d: int)
    ensures (a * b) * (c * d) == (a * c) * (b * d)
  {
    assert (a * b) * (c * d) == a * (b * (c * d));
    assert b * (c * d) == c * (b * d);
    assert (a * c) * (b * d) == a * (c * (b * d));
  }

  lemma MulCongShifted(a: int, k: int, b: int, l: int, n: pos)
    ensures ((a + k * n) * (b + l * n)) % n == (a * b) % n
  {
    MulExpand(a, k, b, l, n);
    ModShift(a * b, k * b + a * l + k * l * n, n);
  }

  lemma MulCong(a: int, a': int, b: int, b': int, n: pos)
    requires a % n == a' % n && b % n == b' % n
    ensures (a * b) % n == (a' * b') % n
  {
    var k := ModWitness(a, a', n);
    var l := ModWitness(b, b', n);
    MulCongShifted(a', k, b', l, n);
  }

  lemma AddShifted(a: int, k: int, b: int, l: int, n: pos)
    ensures ((a + k * n) + (b + l * n)) % n == (a + b) % n
  {
    assert (k + l) * n == k * n + l * n;
    ModShift(a + b, k + l, n);
  }

  lemma SubShifted(a: int, k: int, b: int, l: int, n: pos)
    ensures ((a + k * n) - (b + l * n)) % n == (a - b) % n
  {
    assert (k - l) * n == k * n - l * n;
    ModShift(a - b, k - l, n);
  }

  lemma AddCong(a: int, a': int, b: int, b': int, n: pos)
    requires a % n == a' % n && b % n == b' % n
    ensures (a + b) % n == (a' + b') % n
  {
    var k := ModWitness(a, a', n);
    var l := ModWitness(b, b', n);
    AddShifted(a', k, b', l, n);
  }

  lemma SubCong(a: int, a': int, b: int, b': int, n: pos)
    requires a % n == a' % n && b % n == b' % n
    ensures (a - b) % n == (a' - b') % n
  {
    var k := ModWitness(a, a', n);
    var l := ModWitness(b, b', n);
    SubShifted(a', k, b', l, n);
  }

  lemma MulMod(a: int, b: int, n: pos)
    ensures ((a % n) * (b % n)) % n == (a * b) % n
    ensures ((a % n) * b) % n == (a * b) % n
    ensures (a * (b % n)) % n == (a * b) % n
  {
    ModMod(a, n);
    ModMod(b, n);
    MulCong(a % n, a, b % n, b, n);
    MulCong(a % n, a, b, b, n);
    MulCong(a, a, b % n, b, n);
  }

  lemma AddMod(a: int, b: int, n: pos)
    ensures (a % n + b % n) % n == (a + b) % n
    ensures (a % n + b) % n == (a + b) % n
    ensures (a + b % n) % n == (a + b) % n
  {
    ModMod(a, n);
    ModMod(b, n);
    AddCong(a % n, a, b % n, b, n);
    AddCong(a % n, a, b, b, n);
    AddCong(a, a, b % n, b, n);
  }

  /** Remainder zero of a difference is equality of remainders. */
  lemma SubZero(a: int, b: int, n: pos)
    ensures (a - b) % n == 0 <==> a % n == b % n
  {
    ModSmall(0, n);
    if a % n == b % n {
      SubCong(a, b, b, b, n);
    }
    if (a - b) % n == 0 {
      AddCong(a - b, 0, b, b, n);
    }
  }

  /** A congruence modulo a multiple holds modulo the factor. */
  lemma ModFactor(a: int, b: int, m: pos, n: pos)
    requires a % (m * n) == b % (m * n)
    ensures a % m == b % m
  {
    var k := ModWitness(a, b, m * n);
    assert a == b + (k * n) * m;
    ModShift(b, k * n, m);
  }

  /** The remainder of big integers as `%` computes it: truncating, with the sign of the dividend. */
  function Rem(a: int, n: pos): int {
    if a >= 0 then a % n else -((-a) % n)
  }

  /** The remainder is smaller than the modulus and never has the sign opposite to the dividend. */
  lemma RemMeans(a: int, n: pos)
    ensures 0 - n < Rem(a, n) < n
    ensures (a >= 0 ==> Rem(a, n) >= 0) && (a <= 0 ==> Rem(a, n) <= 0)
    ensures Rem(a, n) % n == a % n
  {
    RemCong(a, n);
  }

  lemma RemCong(a: int, n: pos)
    ensures Rem(a, n) % n == a % n
  {
    if a >= 0 {
      ModMod(a, n);
    } else {
      ModMod(-a, n);
      SubCong(0, 0, (-a) % n, -a, n);
    }
  }

  lemma MulPos(a: pos, b: pos)
    ensures a * b > 0 && a * b >= a && a * b >= b
  {
  }

  // ---------------------------------------------------------------- divisibility

  ghost predicate Divides(d: pos, a: int) {
    a % d == 0
  }

  lemma DividesElim(d: pos, a: int) returns (k: int)
    requires Divides(d, a)
    ensures a == k * d
  {
    k := a / d;
    assert a == (a / d) * d + a % d;
  }

  lemma DividesIntro(d: pos, a: int, k: int)
    requires a == k * d
    ensures Divides(d, a)
  {
    ModUnique(a, k, 0, d);
  }

  lemma DividesLinear(d: pos, a: int, b: int, x: int, y: int)
    requires Divides(d, a) && Divides(d, b)
    ensures Divides(d, a * x + b * y)
  {
    var k := DividesElim(d, a);
    var l := DividesElim(d, b);
    assert a * x + b * y == (k * x + l * y) * d;
    DividesIntro(d, a * x + b * y, k * x + l * y);
  }

  lemma DividesTrans(d: pos, e: pos, a: int)
    requires Divides(d, e) && Divides(e, a)
    ensures Divides(d, a)
  {
    var k := DividesElim(d, e);
    var l := DividesElim(e, a);
    assert a == (l * k) * d;
    DividesIntro(d, a, l * k);
  }

  // ---------------------------------------------------------------- powers

  function Pow(b: int, e: nat): int
  {
    if e == 0 then 1 else b * Pow(b, e - 1)
  }

  lemma {:induction false} PowAdd(b: int, e: nat, f: nat)
    ensures Pow(b, e + f) == Pow(b, e) * Pow(b, f)
  {
    if e != 0 {
      PowAdd(b, e - 1, f);
      assert Pow(b, e + f) == b * (Pow(b, e - 1) * Pow(b, f));
      assert b * (Pow(b, e - 1) * Pow(b, f)) == Pow(b, e) * Pow(b, f);
    }
  }

  lemma {:induction false} PowMul(b: int, e: nat, f: nat)
    ensures Pow(b, e * f) == Pow(Pow(b, e), f)
  {
    if f == 0 {
      assert e * f == 0;
    } else {
      PowMul(b, e, f - 1);
      assert e * f == e + e * (f - 1);
      PowAdd(b, e, e * (f - 1));
    }
  }

  lemma {:induction false} PowDistributes(a: int, b: int, e: nat)
    ensures Pow(a * b, e) == Pow(a, e) * Pow(b, e)
  {
    if e != 0 {
      PowDistributes(a, b, e - 1);
      MulSwap(a, b, Pow(a, e - 1), Pow(b, e - 1));
    }
  }

  lemma {:induction false} PowOne(e: nat)
    ensures Pow(1, e) == 1
  {
    if e != 0 { PowOne(e - 1); }
  }

  lemma {:induction false} PowPositive(b: pos, e: nat)
    ensures Pow(b, e) > 0
  {
    if e != 0 { PowPositive(b, e - 1); }
  }

  lemma {:induction false} PowCong(a: int, b: int, e: nat, n: pos)
    requires a % n == b % n
    ensures Pow(a, e) % n == Pow(b, e) % n
  {
    if e != 0 {
      PowCong(a, b, e - 1, n);
      MulCong(a, b, Pow(a, e - 1), Pow(b, e - 1), n);
    }
  }

  lemma {:induction false} TwoPowMonotone(e: nat, f: nat)
    requires e <= f
    ensures Pow(2, e) <= Pow(2, f)
  {
    PowAdd(2, e, f - e);
    PowPositive(2, e);
    PowPositive(2, f - e);
    MulPos(Pow(2, e), Pow(2, f - e));
  }

  /** The library's `modpow` for exponents that are not negative. */
  function ModPow(b: int, e: nat, n: pos): nat {
    Pow(b, e) % n
  }
}
