/** Greatest common divisors, Bezout coefficients and the two extended-Euclid loops. */
module Euclid {
  import opened Arithmetic

  /** `biguint_gcd`. */
  function Gcd(a: nat, b: nat): (g: nat)
    ensures a > 0 || b > 0 ==> g > 0
    decreases b
  {
    if b == 0 then a else Gcd(b, a % b)
  }

  function Lcm(a: pos, b: pos): nat {
    (a * b) / Gcd(a, b)
  }

  ghost predicate Coprime(a: nat, b: nat) {
    Gcd(a, b) == 1
  }

  lemma {:induction false} GcdDivides(a: nat, b: nat)
    requires a > 0 || b > 0
    ensures Divides(Gcd(a, b), a) && Divides(Gcd(a, b), b)
    decreases b
  {
    var g: pos := Gcd(a, b);
    if b == 0 {
      DividesIntro(g, a, 1);
      DividesIntro(g, b, 0);
    } else {
      GcdDivides(b, a % b);
      DividesLinear(g, b, a % b, a / b, 1);
      assert b * (a / b) + (a % b) * 1 == a;
    }
  }

  lemma {:induction false} GcdGreatest(a: nat, b: nat, d: pos)
    requires a > 0 || b > 0
    requires Divides(d, a) && Divides(d, b)
    ensures Divides(d, Gcd(a, b))
    decreases b
  {
    if b != 0 {
      DividesLinear(d, a, b, 1, -(a / b));
      assert a * 1 + b * -(a / b) == a % b;
      GcdGreatest(b, a % b, d);
    }
  }

  function Bezout(a: nat, b: nat): (c: (int, int))
    ensures a * c.0 + b * c.1 == Gcd(a, b)
    decreases b
  {
    if b == 0 then (1, 0)
    else
      var (x, y) := Bezout(b, a % b);
      BezoutStep(a, b, x, y);
      (y, x - (a / b) * y)
  }

  lemma BezoutStep(a: nat, b: pos, x: int, y: int)
    ensures a * y + b * (x - (a / b) * y) == b * x + (a % b) * y
  {
    var k := a / b;
    assert a == k * b + a % b;
    assert a * y == (k * b) * y + (a % b) * y;
    assert b * (x - k * y) == b * x - b * (k * y);
    assert b * (k * y) == (k * b) * y;
  }

  lemma CoprimeFromBezout(a: nat, b: nat, x: int, y: int)
    requires a * x + b * y == 1
    ensures Coprime(a, b)
  {
    var g := Gcd(a, b);
    assert a > 0 || b > 0;
    GcdDivides(a, b);
    DividesLinear(g, a, b, x, y);
    DivisorOfOne(g);
  }

  lemma DivisorOfOne(g: pos)
    requires Divides(g, 1)
    ensures g == 1
  {
    if g > 1 { ModSmall(1, g); }
  }

  lemma CoprimeSymmetric(a: nat, b: nat)
    requires Coprime(a, b)
    ensures Coprime(b, a)
  {
    var c := Bezout(a, b);
    CoprimeFromBezout(b, a, c.1, c.0);
  }

  /** If d divides a product and is coprime to one factor, it divides the other. */
  lemma CoprimeDividesFactor(d: pos, a: nat, b: int)
    requires Coprime(d, a) && Divides(d, a * b)
    ensures Divides(d, b)
  {
    var (x, y) := Bezout(d, a);
    var k := DividesElim(d, a * b);
    FactorWitness(d, a, b, x, y, k);
    DividesIntro(d, b, b * x + k * y);
  }

  lemma FactorWitness(d: int, a: int, b: int, x: int, y: int, k: int)
    requires d * x + a * y == 1 && a * b == k * d
    ensures b == (b * x + k * y) * d
  {
    assert b == b * (d * x + a * y) == b * (d * x) + b * (a * y);
    assert b * (d * x) == (b * x) * d;
    assert b * (a * y) == (a * b) * y == (k * d) * y == (k * y) * d;
  }

  /** Two coprime divisors divide together. */
  lemma CoprimeDivideTogether(m: pos, n: pos, a: int)
    requires Coprime(m, n) && Divides(m, a) && Divides(n, a)
    ensures Divides(m * n, a)
  {
    var k := DividesElim(n, a);
    assert a == n * k;
    CoprimeDividesFactor(m, n, k);
    var l := DividesElim(m, k);
    assert a == l * (m * n);
    DividesIntro(m * n, a, l);
  }

  /** The Chinese remainder theorem's uniqueness half, for coprime moduli. */
  lemma CoprimeCong(m: pos, n: pos, a: int, b: int)
    requires Coprime(m, n)
    requires a % m == b % m && a % n == b % n
    ensures a % (m * n) == b % (m * n)
  {
    SubZero(a, b, m);
    SubZero(a, b, n);
    CoprimeDivideTogether(m, n, a - b);
    SubZero(a, b, m * n);
  }

  lemma CoprimeProduct(a: nat, m: nat, n: nat)
    requires Coprime(a, m) && Coprime(a, n)
    ensures Coprime(a, m * n)
  {
    var (x, y) := Bezout(a, m);
    var (u, v) := Bezout(a, n);
    BezoutProduct(a, m, n, x, y, u, v);
    CoprimeFromBezout(a, m * n, a * x * u + x * (n * v) + (m * y) * u, y * v);
  }

  lemma BezoutProduct(a: int, m: int, n: int, x: int, y: int, u: int, v: int)
    requires a * x + m * y == 1 && a * u + n * v == 1
    ensures a * (a * x * u + x * (n * v) + (m * y) * u) + (m * n) * (y * v) == 1
  {
    var ax, my, au, nv := a * x, m * y, a * u, n * v;
    assert (ax + my) * (au + nv) == ax * au + ax * nv + my * au + my * nv;
    assert ax * au == a * (a * x * u);
    assert ax * nv == a * (x * nv);
    assert my * au == a * (my * u);
    MulSwap(m, y, n, v);
  }

  lemma CoprimeOfFactor(a: nat, m: pos, n: pos)
    requires Coprime(a, m * n)
    ensures Coprime(a, m)
  {
    var (x, y) := Bezout(a, m * n);
    assert (m * n) * y == m * (n * y);
    CoprimeFromBezout(a, m, x, n * y);
  }

  // ---------------------------------------------------------------- least common multiple

  /** `lcm` returns a common multiple that divides every common multiple. */
  lemma LcmIsLeast(a: pos, b: pos)
    ensures Lcm(a, b) > 0
    ensures Divides(a, Lcm(a, b)) && Divides(b, Lcm(a, b))
    ensures forall m: nat :: Divides(a, m) && Divides(b, m) ==> Divides(Lcm(a, b), m)
  {
    var k, l := LcmFactors(a, b);
    DividesIntro(b, Lcm(a, b), k);
    DividesIntro(a, Lcm(a, b), l);
    forall m: nat | Divides(a, m) && Divides(b, m)
      ensures Divides(Lcm(a, b), m)
    {
      LcmDividesMultiple(a, b, m);
    }
  }

  lemma LcmFactors(a: pos, b: pos) returns (k: int, l: int)
    ensures a == k * Gcd(a, b) && b == l * Gcd(a, b)
    ensures Lcm(a, b) == k * b == l * a > 0
    ensures a * b == Lcm(a, b) * Gcd(a, b)
  {
    var g: pos := Gcd(a, b);
    GcdDivides(a, b);
    k := DividesElim(g, a);
    l := DividesElim(g, b);
    LcmProducts(a, b, k, l, g);
    ModUnique(a * b, k * b, 0, g);
  }

  lemma LcmProducts(a: pos, b: pos, k: int, l: int, g: pos)
    requires a == k * g && b == l * g
    ensures a * b == (k * b) * g && k * b == l * a > 0
  {
    assert (k * g) * b == (k * b) * g;
    assert k * (l * g) == l * (k * g);
    if k <= 0 { MulSign(k, g); }
    MulPos(k, b);
  }

  lemma LcmDividesMultiple(a: pos, b: pos, m: nat)
    requires Divides(a, m) && Divides(b, m) && Lcm(a, b) > 0
    ensures Divides(Lcm(a, b), m)
  {
    var (x, y) := Bezout(a, b);
    var i := DividesElim(a, m);
    var j := DividesElim(b, m);
    var k, l := LcmFactors(a, b);
    LcmWitness(a, b, Gcd(a, b), Lcm(a, b), x, y, m, i, j);
    DividesIntro(Lcm(a, b), m, j * x + i * y);
  }

  lemma LcmWitness(a: int, b: int, g: pos, lcm: int, x: int, y: int, m: int, i: int, j: int)
    requires a * x + b * y == g && a * b == lcm * g && m == i * a && m == j * b
    ensures m == (j * x + i * y) * lcm
  {
    var t := j * x + i * y;
    CrossMultiple(m, j, b, a, x);
    CrossMultiple(m, i, a, b, y);
    SumOfMultiples(m, a * x, b * y, j * x, i * y, a * b, g);
    assert t * (lcm * g) == (t * lcm) * g;
    CancelRight(m, t * lcm, g);
  }

  lemma CrossMultiple(m: int, j: int, b: int, a: int, x: int)
    requires m == j * b
    ensures m * (a * x) == (j * x) * (a * b) == (j * x) * (b * a)
  {
    MulSwap(j, b, x, a);
    assert a * x == x * a && a * b == b * a;
  }

  lemma SumOfMultiples(m: int, u: int, v: int, c: int, d: int, w: int, g: int)
    requires m * u == c * w && m * v == d * w && u + v == g
    ensures m * g == (c + d) * w
  {
    assert m * (u + v) == m * u + m * v;
  }

  lemma CancelRight(a: int, b: int, g: pos)
    requires a * g == b * g
    ensures a == b
  {
    MulSign(a - b, g);
    assert (a - b) * g == 0;
  }

  // ---------------------------------------------------------------- modular inverse

  /** The inverse of `a` modulo `n` in [0, n), or 0 when there is none. */
  function Inverse(a: int, n: pos): (t: nat)
    ensures t < n
  {
    if Gcd(n, a % n) == 1 then Bezout(n, a % n).1 % n else 0
  }

  lemma InverseCorrect(a: int, n: pos)
    requires Coprime(n, a % n)
    ensures (a * Inverse(a, n)) % n == 1 % n
  {
    var (x, y) := Bezout(n, a % n);
    assert (a % n) * y == 1 + (0 - x) * n;
    ModShift(1, 0 - x, n);
    MulMod(a, y, n);
    MulMod(a, y % n, n);
    MulMod(a % n, y, n);
  }

  lemma InverseExists(a: int, n: pos, t: nat)
    requires (a * t) % n == 1 % n
    ensures Coprime(n, a % n)
  {
    MulMod(a, t, n);
    var k := ModWitness((a % n) * t, 1, n);
    assert n * (0 - k) + (a % n) * t == 1;
    CoprimeFromBezout(n, a % n, 0 - k, t);
  }

  lemma InverseUnique(a: int, n: pos, t: nat)
    requires t < n && (a * t) % n == 1 % n
    ensures Coprime(n, a % n) && t == Inverse(a, n)
  {
    InverseExists(a, n, t);
    InverseCorrect(a, n);
    var u := Inverse(a, n);
    // t = t * (a * u) = (a * t) * u = u
    MulCong(a * u, 1, t, t, n);
    MulCong(a * t, 1, u, u, n);
    SwapTail(a, u, t);
    ModSmall(t, n);
    ModSmall(u, n);
  }

  lemma SwapTail(a: int, u: int, t: int)
    ensures (a * u) * t == (a * t) * u
  {
  }

  /** The cofactor both extended-Euclid loops end with, from the loop variables at hand. */
  function Cofactor(t: int, newT: int, r: nat, newR: nat): int
    decreases newR
  {
    if newR == 0 then t else Cofactor(newT, t - (r / newR) * newT, newR, r % newR)
  }

  /** What `modinv_internal` returns, for coprime arguments or not. */
  function CofactorModulo(a: int, m: pos): int {
    var c := Cofactor(0, 1, m, a % m);
    if c < 0 then c + m else c
  }

  function Abs(x: int): nat {
    if x < 0 then -x else x
  }

  /** The invariant both extended-Euclid loops keep. */
  ghost predicate EuclidState(a: int, n: pos, t: int, newT: int, r: int, newR: int) {
    && 0 <= newR < r <= n
    && (t * a) % n == r % n && (newT * a) % n == newR % n
    && Gcd(r, newR) == Gcd(n, a % n)
    && r * Abs(newT) + newR * Abs(t) == n
    && (t <= 0 <= newT || newT <= 0 <= t)
    && Abs(t) < n
  }

  lemma EuclidInit(a: int, n: pos)
    ensures EuclidState(a, n, 0, 1, n, a % n)
  {
    ModUnique(n, 1, 0, n);
    ModSmall(0, n);
    ModMod(a, n);
  }

  lemma EuclidStep(a: int, n: pos, t: int, newT: int, r: int, newR: int)
    requires EuclidState(a, n, t, newT, r, newR) && newR > 0
    ensures EuclidState(a, n, newT, t - (r / newR) * newT, newR, r - (r / newR) * newR)
  {
    var k := r / newR;
    DivMod(r, newR);
    CofactorStep(a, n, t, newT, r, newR, k);
    AlternatingSigns(t, k, newT);
    DeterminantStep(r, newR, k, Abs(t), Abs(newT), n);
    SmallCofactor(r, Abs(newT), newR, Abs(t), n);
  }

  lemma DivMod(r: nat, s: pos)
    ensures r - (r / s) * s == r % s && 0 <= r % s < s && r / s >= 0
  {
  }

  lemma CofactorStep(a: int, n: pos, t: int, u: int, r: int, s: int, k: int)
    requires (t * a) % n == r % n && (u * a) % n == s % n
    ensures ((t - k * u) * a) % n == (r - k * s) % n
  {
    MulCong(k, k, u * a, s, n);
    SubCong(t * a, r, k * (u * a), k * s, n);
    Distribute(t, k, u, a);
  }

  lemma Distribute(t: int, k: int, u: int, a: int)
    ensures (t - k * u) * a == t * a - k * (u * a)
  {
  }

  lemma AlternatingSigns(t: int, k: nat, u: int)
    requires t <= 0 <= u || u <= 0 <= t
    ensures Abs(t - k * u) == Abs(t) + k * Abs(u)
    ensures u <= 0 <= t - k * u || t - k * u <= 0 <= u
  {
    if u >= 0 {
      assert k * u >= 0;
    } else {
      assert k * (0 - u) >= 0;
      assert k * (0 - u) == 0 - k * u;
    }
  }

  lemma DeterminantStep(r: int, s: int, k: int, t: int, u: int, n: int)
    requires r * u + s * t == n
    ensures s * (t + k * u) + (r - k * s) * u == n
  {
    assert s * (t + k * u) == s * t + s * (k * u);
    assert (r - k * s) * u == r * u - (k * s) * u;
    assert s * (k * u) == (k * s) * u;
  }

  lemma SmallCofactor(r: int, u: nat, s: nat, t: nat, n: pos)
    requires r >= 2 && r * u + s * t == n
    ensures u < n
  {
    assert r * u >= 2 * u;
    assert s * t >= 0;
  }

  /** The recursion follows the loop, so the invariant describes its result. */
  lemma {:induction false} CofactorCorrect(a: int, n: pos, t: int, newT: int, r: int, newR: int)
    requires EuclidState(a, n, t, newT, r, newR)
    ensures var c := Cofactor(t, newT, r, newR);
      (c * a) % n == Gcd(n, a % n) % n && 0 - n < c < n
    decreases newR
  {
    if newR != 0 {
      EuclidStep(a, n, t, newT, r, newR);
      DivMod(r, newR);
      CofactorCorrect(a, n, newT, t - (r / newR) * newT, newR, r - (r / newR) * newR);
    }
  }

  /** The value `modinv_internal` returns is a reduced cofactor of the gcd, and the inverse when there is one. */
  lemma CofactorModuloCorrect(a: int, m: pos)
    ensures var t := CofactorModulo(a, m);
      && 0 <= t < m && (a * t) % m == Gcd(m, a % m) % m
      && (Coprime(m, a % m) ==> t == Inverse(a, m))
  {
    EuclidInit(a, m);
    CofactorCorrect(a, m, 0, 1, m, a % m);
    var c := Cofactor(0, 1, m, a % m);
    var t := CofactorModulo(a, m);
    if c < 0 { CofactorShift(a, m, c); }
    assert a * t == t * a;
    if Coprime(m, a % m) { InverseUnique(a, m, t); }
  }

  /** The loop of `modinv` and `modinv_internal`: on exit `r` is the gcd and `t` its cofactor. */
  method EuclidLoop(a: int, n: pos) returns (r: nat, t: int)
    ensures r == Gcd(n, a % n) > 0
    ensures (t * a) % n == r % n
    ensures 0 - n < t < n
    ensures t == Cofactor(0, 1, n, a % n)
  {
    t := 0;
    var newT := 1;
    r := n;
    var newR := a % n;
    EuclidInit(a, n);
    while newR != 0
      invariant EuclidState(a, n, t, newT, r, newR)
      invariant Cofactor(t, newT, r, newR) == Cofactor(0, 1, n, a % n)
      decreases newR
    {
      DivMod(r, newR);
      EuclidStep(a, n, t, newT, r, newR);
      var quotient := r / newR;
      t := t - quotient * newT;
      t, newT := newT, t;
      r := r - quotient * newR;
      r, newR := newR, r;
    }
  }

  /** `modinv`: the unique inverse in [0, n) when there is one, otherwise 0. */
  method ModInv(a: int, n: pos) returns (t: nat)
    ensures t == Inverse(a, n)
    ensures Coprime(n, a % n) ==> (a * t) % n == 1 % n
    ensures n > 1 ==> (t != 0 <==> Coprime(n, a % n))
  {
    var r, c := EuclidLoop(a, n);
    if r > 1 {
      return 0;
    }
    assert (c * a) % n == 1 % n;
    if c < 0 {
      t := c + n;
      CofactorShift(a, n, c);
    } else {
      t := c;
    }
    assert a * t == t * a;
    InverseUnique(a, n, t);
    if t == 0 { ModSmall(0, n); if n > 1 { ModSmall(1, n); } }
  }

  lemma CofactorShift(a: int, n: pos, c: int)
    ensures ((c + n) * a) % n == (c * a) % n
  {
    assert (c + n) * a == c * a + a * n;
    ModShift(c * a, a, n);
  }

  /** `modinv_internal` skips the gcd test, so it returns a cofactor of the gcd. */
  method ModInvInternal(a: int, m: pos) returns (t: nat)
    ensures t == CofactorModulo(a, m)
    ensures t < m
    ensures (a * t) % m == Gcd(m, a % m) % m
    ensures Coprime(m, a % m) ==> t == Inverse(a, m)
  {
    ModMod(a, m);
    var _, c := EuclidLoop(a % m, m);
    t := if c < 0 then c + m else c;
    CofactorModuloCorrect(a, m);
  }
}
