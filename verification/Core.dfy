/** Shamir sharing: polynomial evaluation, commitments in the exponent, Lagrange reconstruction. */
module Core {
  import opened Arithmetic
  import opened Euclid
  import opened Primes
  import opened Group

  // ---------------------------------------------------------------- polynomials

  /** The polynomial with coefficients c, lowest first, at x. */
  function PolyAt(c: seq<int>, x: int): int {
    if |c| == 0 then 0 else c[0] + x * PolyAt(c[1..], x)
  }

  lemma {:induction false} PolyAppend(c: seq<int>, a: int, x: int)
    ensures PolyAt(c + [a], x) == PolyAt(c, x) + a * Pow(x, |c|)
  {
    if |c| == 0 {
      assert [a][1..] == [];
      assert c + [a] == [a];
      assert PolyAt([a], x) == a + x * 0;
      assert a * Pow(x, 0) == a;
    } else {
      PolyAppend(c[1..], a, x);
      assert (c + [a])[1..] == c[1..] + [a];
      PolyAppendStep(x, PolyAt(c[1..], x), a, Pow(x, |c| - 1));
    }
  }

  lemma PolyAppendStep(x: int, v: int, a: int, w: int)
    ensures x * (v + a * w) == x * v + a * (x * w)
  {
    assert x * (a * w) == a * (x * w);
  }

  lemma PolyAtZero(c: seq<int>)
    ensures PolyAt(c, 0) == if |c| == 0 then 0 else c[0]
  {
  }

  ghost predicate SameModulo(c: seq<int>, d: seq<int>, q: pos) {
    |c| == |d| && forall k :: 0 <= k < |c| ==> c[k] % q == d[k] % q
  }

  lemma {:induction false} PolyCong(c: seq<int>, d: seq<int>, x: int, q: pos)
    requires SameModulo(c, d, q)
    ensures PolyAt(c, x) % q == PolyAt(d, x) % q
  {
    if |c| != 0 {
      PolyCong(c[1..], d[1..], x, q);
      MulCong(x, x, PolyAt(c[1..], x), PolyAt(d[1..], x), q);
      AddCong(c[0], d[0], x * PolyAt(c[1..], x), x * PolyAt(d[1..], x), q);
    }
  }

  function AddPoly(c: seq<int>, d: seq<int>): (r: seq<int>)
    ensures |r| == if |c| >= |d| then |c| else |d|
  {
    if |c| == 0 then d
    else if |d| == 0 then c
    else [c[0] + d[0]] + AddPoly(c[1..], d[1..])
  }

  lemma {:induction false} AddPolyAt(c: seq<int>, d: seq<int>, x: int)
    ensures PolyAt(AddPoly(c, d), x) == PolyAt(c, x) + PolyAt(d, x)
  {
    if |c| != 0 && |d| != 0 {
      AddPolyAt(c[1..], d[1..], x);
      assert AddPoly(c, d)[1..] == AddPoly(c[1..], d[1..]);
      assert x * (PolyAt(c[1..], x) + PolyAt(d[1..], x)) == x * PolyAt(c[1..], x) + x * PolyAt(d[1..], x);
    }
  }

  /** The sum of the parties' polynomials. */
  function CombinedPoly(polys: seq<seq<int>>): seq<int> {
    if |polys| == 0 then [] else AddPoly(polys[0], CombinedPoly(polys[1..]))
  }

  function SumAt(polys: seq<seq<int>>, x: int): int {
    if |polys| == 0 then 0 else PolyAt(polys[0], x) + SumAt(polys[1..], x)
  }

  lemma {:induction false} CombinedAt(polys: seq<seq<int>>, x: int)
    ensures PolyAt(CombinedPoly(polys), x) == SumAt(polys, x)
  {
    if |polys| != 0 {
      CombinedAt(polys[1..], x);
      AddPolyAt(polys[0], CombinedPoly(polys[1..]), x);
    }
  }

  lemma {:induction false} CombinedDegree(polys: seq<seq<int>>, t: nat)
    requires forall j :: 0 <= j < |polys| ==> |polys[j]| <= t
    ensures |CombinedPoly(polys)| <= t
  {
    if |polys| != 0 { CombinedDegree(polys[1..], t); }
  }

  /** The inner loop of `evaluate_polynomial`. */
  method EvaluateAt(coeffs: seq<nat>, x: nat, q: pos) returns (share: nat)
    ensures share == PolyAt(coeffs, x) % q
  {
    share := 0;
    var xPow := 1 % q;
    ModSmall(0, q);
    assert coeffs[..0] == [];
    ModMod(1, q);
    for k := 0 to |coeffs|
      invariant share == PolyAt(coeffs[..k], x) % q
      invariant xPow == Pow(x, k) % q
    {
      assert coeffs[..k + 1] == coeffs[..k] + [coeffs[k]];
      PolyAppend(coeffs[..k], coeffs[k], x);
      MulMod(coeffs[k], Pow(x, k), q);
      AddMod(PolyAt(coeffs[..k], x), coeffs[k] * Pow(x, k), q);
      ModMod(coeffs[k] * xPow, q);
      AddCong(share, PolyAt(coeffs[..k], x), coeffs[k] * xPow, coeffs[k] * Pow(x, k), q)
        by { ModMod(PolyAt(coeffs[..k], x), q); }
      share := (share + coeffs[k] * xPow) % q;
      MulMod(Pow(x, k), x, q);
      assert Pow(x, k) * x == Pow(x, k + 1);
      xPow := (xPow * x) % q;
    }
    assert coeffs[..|coeffs|] == coeffs;
  }

  function Commitments(coeffs: seq<int>, q: pos): (c: seq<Point>)
    ensures |c| == |coeffs|
  {
    seq(|coeffs|, k requires 0 <= k < |coeffs| => MulG(coeffs[k], q))
  }

  function ShareFor(coeffs: seq<int>, party: nat, q: pos): nat {
    PolyAt(coeffs, party + 1) % q
  }

  /** The intercept followed by t - 1 draws; a threshold of 0 is treated like 1. */
  function Coefficients(intercept: nat, t: nat, draws: seq<nat>): (c: seq<nat>)
    requires |draws| >= t - 1
    ensures |c| == if t <= 1 then 1 else t
  {
    [intercept] + if t <= 1 then [] else draws[..t - 1]
  }

  /** `evaluate_polynomial`: t coefficients, one commitment for each, and one share per party. */
  method EvaluatePolynomial(intercept: nat, t: nat, n: nat, draws: seq<nat>, q: pos)
    returns (commitments: seq<Point>, shares: seq<nat>)
    requires |draws| >= t - 1
    ensures commitments == Commitments(Coefficients(intercept, t, draws), q)
    ensures |shares| == n
    ensures forall j :: 0 <= j < n ==> shares[j] == ShareFor(Coefficients(intercept, t, draws), j, q)
  {
    var coeffs := [intercept];
    var drawn := 1;
    while drawn < t
      invariant 1 <= drawn <= if t <= 1 then 1 else t
      invariant coeffs == [intercept] + draws[..drawn - 1]
    {
      coeffs := coeffs + [draws[drawn - 1]];
      drawn := drawn + 1;
    }
    assert coeffs == Coefficients(intercept, t, draws);
    commitments := Commitments(coeffs, q);
    shares := [];
    for j := 0 to n
      invariant |shares| == j
      invariant forall k :: 0 <= k < j ==> shares[k] == ShareFor(coeffs, k, q)
    {
      var share := EvaluateAt(coeffs, j + 1, q);
      shares := shares + [share];
    }
  }

  // ---------------------------------------------------------------- commitments in the exponent

  function Logs(points: seq<Point>): (l: seq<int>)
    ensures |l| == |points|
  {
    seq(|points|, k requires 0 <= k < |points| => points[k].log)
  }

  /** The committed polynomial evaluated at x in the exponent. */
  function ExponentAt(points: seq<Point>, x: int, q: pos): Point {
    MulG(PolyAt(Logs(points), x), q)
  }

  /** The receiver's check loop: sum of coefficient points times powers of x. */
  method EvaluateInExponent(points: seq<Point>, x: nat, q: pos) returns (rhs: Point)
    ensures rhs == ExponentAt(points, x, q)
  {
    rhs := MulG(0, q);
    var xPow := 1 % q;
    assert Logs(points)[..0] == [];
    ModMod(1, q);
    for k := 0 to |points|
      invariant rhs == MulG(PolyAt(Logs(points)[..k], x), q)
      invariant xPow == Pow(x, k) % q
    {
      var c := points[k].log;
      assert Logs(points)[..k + 1] == Logs(points)[..k] + [c];
      PolyAppend(Logs(points)[..k], c, x);
      MulMod(c, Pow(x, k), q);
      AddPointsOfG(PolyAt(Logs(points)[..k], x), c * Pow(x, k), q);
      rhs := AddPoints(rhs, MulPoint(points[k], xPow, q), q);
      MulMod(Pow(x, k), x, q);
      assert Pow(x, k) * x == Pow(x, k + 1);
      xPow := (xPow * x) % q;
    }
    assert Logs(points)[..|points|] == Logs(points);
  }

  /** Feldman's check: the committed polynomial in the exponent is G times the share. */
  lemma CommitmentsDetermineShare(coeffs: seq<int>, x: int, q: pos)
    ensures ExponentAt(Commitments(coeffs, q), x, q) == MulG(PolyAt(coeffs, x), q)
  {
    var l := Logs(Commitments(coeffs, q));
    forall k | 0 <= k < |coeffs|
      ensures l[k] % q == coeffs[k] % q
    {
      ModMod(coeffs[k], q);
    }
    PolyCong(l, coeffs, x, q);
  }

  // ---------------------------------------------------------------- Lagrange coefficients

  /** Product of x_j over the signers other than i, where x_j = j + 1. */
  function Numerator(i: nat, signers: seq<nat>): int {
    if |signers| == 0 then 1
    else (if signers[0] == i then 1 else signers[0] + 1) * Numerator(i, signers[1..])
  }

  /** Product of x_j - x_i over the signers other than i. */
  function Denominator(i: nat, signers: seq<nat>): int {
    if |signers| == 0 then 1
    else (if signers[0] == i then 1 else signers[0] - i) * Denominator(i, signers[1..])
  }

  function LagrangeCoeff(i: nat, signers: seq<nat>, q: pos): nat {
    (Numerator(i, signers) * Inverse(Denominator(i, signers), q)) % q
  }

  ghost predicate Below(signers: seq<nat>, q: nat) {
    forall k :: 0 <= k < |signers| ==> signers[k] < q
  }

  ghost predicate Distinct(signers: seq<nat>) {
    forall a, b :: 0 <= a < b < |signers| ==> signers[a] != signers[b]
  }

  lemma Assoc(a: int, b: int, c: int)
    ensures a * (b * c) == (a * b) * c
  {
  }

  lemma {:induction false} NumeratorAppend(i: nat, a: seq<nat>, b: seq<nat>)
    ensures Numerator(i, a + b) == Numerator(i, a) * Numerator(i, b)
  {
    if |a| == 0 {
      assert a + b == b;
    } else {
      NumeratorAppend(i, a[1..], b);
      assert (a + b)[1..] == a[1..] + b;
      Assoc(if a[0] == i then 1 else a[0] + 1, Numerator(i, a[1..]), Numerator(i, b));
    }
  }

  lemma {:induction false} DenominatorAppend(i: nat, a: seq<nat>, b: seq<nat>)
    ensures Denominator(i, a + b) == Denominator(i, a) * Denominator(i, b)
  {
    if |a| == 0 {
      assert a + b == b;
    } else {
      DenominatorAppend(i, a[1..], b);
      assert (a + b)[1..] == a[1..] + b;
      Assoc(if a[0] == i then 1 else a[0] - i, Denominator(i, a[1..]), Denominator(i, b));
    }
  }

  lemma ProductsAppendOne(i: nat, a: seq<nat>, j: nat)
    ensures Numerator(i, a + [j]) == Numerator(i, a) * (if j == i then 1 else j + 1)
    ensures Denominator(i, a + [j]) == Denominator(i, a) * (if j == i then 1 else j - i)
  {
    NumeratorAppend(i, a, [j]);
    DenominatorAppend(i, a, [j]);
    assert [j][1..] == [];
  }

  lemma DifferenceNonzero(i: nat, j: nat, q: pos)
    requires i < q && j < q && i != j
    ensures (j - i) % q != 0
  {
    SubZero(j, i, q);
    ModSmall(i, q);
    ModSmall(j, q);
  }

  lemma {:induction false} DenominatorNonzero(i: nat, signers: seq<nat>, q: pos)
    requires IsPrime(q) && i < q && Below(signers, q)
    ensures Denominator(i, signers) % q != 0
  {
    if |signers| == 0 {
      ModSmall(1, q);
    } else {
      DenominatorNonzero(i, signers[1..], q);
      var v := if signers[0] == i then 1 else signers[0] - i;
      if signers[0] == i { ModSmall(1, q); } else { DifferenceNonzero(i, signers[0], q); }
      if Denominator(i, signers) % q == 0 { NoZeroDivisors(q, v, Denominator(i, signers[1..])); }
    }
  }

  /** `lagrange_coeff`: its `expect` never fires for distinct residues, and it returns the coefficient. */
  method ComputeLagrangeCoeff(i: nat, signers: seq<nat>, q: pos) returns (c: nat)
    requires IsPrime(q) && i < q && Below(signers, q)
    ensures c == LagrangeCoeff(i, signers, q)
  {
    var num, den := 1 % q, 1 % q;
    assert signers[..0] == [];
    for k := 0 to |signers|
      invariant num == Numerator(i, signers[..k]) % q
      invariant den == Denominator(i, signers[..k]) % q
    {
      var j := signers[k];
      assert signers[..k + 1] == signers[..k] + [j];
      ProductsAppendOne(i, signers[..k], j);
      if j == i {
        continue;
      }
      MulMod(Numerator(i, signers[..k]), j + 1, q);
      MulMod(Denominator(i, signers[..k]), j - i, q);
      num := (num * (j + 1)) % q;
      den := (den * ((j - i) % q)) % q;
    }
    assert signers[..|signers|] == signers;
    DenominatorNonzero(i, signers, q);
    c := QuotientScalar(num, den, Numerator(i, signers), Denominator(i, signers), q);
  }

  /** num * den.invert(), for representatives n and d of the two scalars. */
  method QuotientScalar(num: nat, den: nat, ghost n: int, ghost d: int, q: pos) returns (c: nat)
    requires num == n % q && den == d % q
    ensures c == (n * Inverse(d, q)) % q
  {
    ModMod(d, q);
    var inv := ModInv(den, q);
    assert inv == Inverse(d, q);
    MulMod(n, inv, q);
    c := (num * inv) % q;
  }

  // ---------------------------------------------------------------- reconstruction

  /** Sum over idx of the coefficient for `signers` times the polynomial at that signer. */
  function LagrangeSum(idx: seq<nat>, signers: seq<nat>, c: seq<int>, q: pos): int {
    if |idx| == 0 then 0
    else LagrangeCoeff(idx[0], signers, q) * PolyAt(c, idx[0] + 1) + LagrangeSum(idx[1..], signers, c, q)
  }

  lemma {:induction false} LagrangeSumAppend(a: seq<nat>, b: seq<nat>, signers: seq<nat>, c: seq<int>, q: pos)
    ensures LagrangeSum(a + b, signers, c, q) == LagrangeSum(a, signers, c, q) + LagrangeSum(b, signers, c, q)
  {
    if |a| == 0 {
      assert a + b == b;
    } else {
      LagrangeSumAppend(a[1..], b, signers, c, q);
      assert (a + b)[1..] == a[1..] + b;
    }
  }

  /** The quotient of c(X) - c(a) by X - a. */
  function Quotient(c: seq<int>, a: int): (g: seq<int>)
    ensures |g| == if |c| == 0 then 0 else |c| - 1
  {
    if |c| <= 1 then [] else [PolyAt(c[1..], a)] + Quotient(c[1..], a)
  }

  lemma {:induction false} QuotientAt(c: seq<int>, a: int, x: int)
    ensures PolyAt(c, x) == PolyAt(c, a) + (x - a) * PolyAt(Quotient(c, a), x)
  {
    if |c| == 1 {
      assert c[1..] == [];
      assert x * 0 == 0 && a * 0 == 0 && (x - a) * 0 == 0;
    } else if |c| > 1 {
      QuotientAt(c[1..], a, x);
      assert Quotient(c, a)[1..] == Quotient(c[1..], a);
      QuotientStep(x, a, PolyAt(c[1..], a), PolyAt(Quotient(c[1..], a), x));
    }
  }

  lemma QuotientAtSigner(c: seq<int>, m: nat, i: nat)
    ensures PolyAt(c, i + 1) == PolyAt(c, m + 1) + (i - m) * PolyAt(Quotient(c, m + 1), i + 1)
  {
    QuotientAt(c, m + 1, i + 1);
    var d := (i + 1) - (m + 1);
    assert d == i - m;
  }

  lemma QuotientStep(x: int, a: int, r: int, g: int)
    ensures x * (r + (x - a) * g) == a * r + (x - a) * (r + x * g)
  {
    var d := x - a;
    assert x * (r + d * g) == x * r + x * (d * g);
    assert d * (r + x * g) == d * r + d * (x * g);
    assert x * (d * g) == d * (x * g);
    assert d * r == x * r - a * r;
  }

  /** Dropping signer m changes i's coefficient by the factor -x_m / (x_i - x_m). */
  lemma CoefficientWithout(i: nat, a: seq<nat>, m: nat, b: seq<nat>, q: pos)
    requires IsPrime(q) && i < q && Below(a + [m] + b, q) && i != m
    ensures (LagrangeCoeff(i, a + [m] + b, q) * (i - m)) % q == (-(m + 1) * LagrangeCoeff(i, a + b, q)) % q
  {
    assert Below(a + b, q) && m < q by {
      assert (a + [m] + b)[|a|] == m;
      forall k | 0 <= k < |a + b| ensures (a + b)[k] < q {
        if k < |a| { assert (a + [m] + b)[k] == (a + b)[k]; }
        else { assert (a + [m] + b)[k + 1] == (a + b)[k]; }
      }
    }
    NumeratorAppend(i, a + [m], b);
    DenominatorAppend(i, a + [m], b);
    NumeratorAppend(i, a, b);
    DenominatorAppend(i, a, b);
    ProductsAppendOne(i, a, m);
    var n, d := Numerator(i, a + b), Denominator(i, a + b);
    assert Numerator(i, a + [m] + b) == n * (m + 1) by {
      SwapLast(Numerator(i, a), m + 1, Numerator(i, b));
    }
    assert Denominator(i, a + [m] + b) == d * (m - i) by {
      SwapLast(Denominator(i, a), m - i, Denominator(i, b));
    }
    DenominatorNonzero(i, a + [m] + b, q);
    DenominatorNonzero(i, a + b, q);
    InverseOfProduct(d, m - i, q);
    CoefficientArithmetic(n, m + 1, Inverse(d * (m - i), q), m - i, Inverse(d, q), q);
  }

  lemma SwapLast(a: int, b: int, c: int)
    ensures (a * b) * c == (a * c) * b
  {
  }

  /** Inv(d e) e = Inv(d). */
  lemma InverseOfProduct(d: int, e: int, q: pos)
    requires IsPrime(q) && d % q != 0 && (d * e) % q != 0
    ensures (Inverse(d * e, q) * e) % q == Inverse(d, q) % q
  {
    var u, v := Inverse(d * e, q), Inverse(d, q);
    PrimeInverse(q, d * e);
    PrimeInverse(q, d);
    ModSmall(1, q);
    MulCong(d * v, 1, u * e, u * e, q);
    MulCong((d * e) * u, 1, v, v, q);
    assert (d * v) * (u * e) == ((d * e) * u) * v by {
      MulSwap(d, v, e, u);
      assert (d * v) * (u * e) == (d * v) * (e * u);
      assert ((d * e) * u) * v == (d * e) * (u * v);
      assert u * v == v * u;
    }
  }

  lemma CoefficientArithmetic(n: int, x: int, u: int, e: int, v: int, q: pos)
    requires (u * e) % q == v % q
    ensures ((((n * x) * u) % q) * (0 - e)) % q == (-x * ((n * v) % q)) % q
  {
    var nx := n * x;
    MulMod(nx * u, 0 - e, q);
    MulMod(-x, n * v, q);
    MulCong(-nx, -nx, u * e, v, q);
    NegateProduct(nx, u, e);
    NegateSwapped(n, x, v);
  }

  lemma NegateSwapped(n: int, x: int, v: int)
    ensures -x * (n * v) == -(n * x) * v
  {
    assert x * (n * v) == (n * x) * v;
    assert -x * (n * v) == 0 - x * (n * v);
    assert -(n * x) * v == 0 - (n * x) * v;
  }

  lemma NegateProduct(a: int, u: int, e: int)
    ensures (a * u) * (0 - e) == -a * (u * e)
  {
    assert (a * u) * e == a * (u * e);
    assert -a * (u * e) == 0 - a * (u * e);
  }

  /** Removing one point: the part of the sum that does not see m. */
  lemma {:induction false} RemovePoint(idx: seq<nat>, a: seq<nat>, m: nat, b: seq<nat>, c: seq<int>, q: pos)
    requires IsPrime(q) && Below(idx, q) && Below(a + [m] + b, q)
    requires forall k :: 0 <= k < |idx| ==> idx[k] != m
    ensures (LagrangeSum(idx, a + [m] + b, c, q) - PolyAt(c, m + 1) * LagrangeSum(idx, a + [m] + b, [1], q)) % q
         == (-(m + 1) * LagrangeSum(idx, a + b, Quotient(c, m + 1), q)) % q
  {
    var s, w, x := a + [m] + b, a + b, m + 1;
    var h := Quotient(c, x);
    if |idx| == 0 {
      NothingRemoved(PolyAt(c, x), x);
    } else {
      var i, tail := idx[0], idx[1..];
      RemovePoint(tail, a, m, b, c, q);
      LagrangeSumHead(idx, s, c, q);
      LagrangeSumHead(idx, s, [1], q);
      LagrangeSumHead(idx, w, h, q);
      ConstantOne(i + 1);
      RemoveHead(i, a, m, b, c,
        LagrangeSum(tail, s, c, q), LagrangeSum(tail, s, [1], q), LagrangeSum(tail, w, h, q), q);
    }
  }

  lemma LagrangeSumHead(idx: seq<nat>, signers: seq<nat>, c: seq<int>, q: pos)
    requires |idx| > 0
    ensures LagrangeSum(idx, signers, c, q)
         == LagrangeCoeff(idx[0], signers, q) * PolyAt(c, idx[0] + 1) + LagrangeSum(idx[1..], signers, c, q)
  {
  }

  /** One signer's contribution to `RemovePoint`, on top of the sums u, v, w of the others. */
  lemma RemoveHead(i: nat, a: seq<nat>, m: nat, b: seq<nat>, c: seq<int>, u: int, v: int, w: int, q: pos)
    requires IsPrime(q) && i < q && Below(a + [m] + b, q) && i != m
    requires (u - PolyAt(c, m + 1) * v) % q == (-(m + 1) * w) % q
    ensures ((LagrangeCoeff(i, a + [m] + b, q) * PolyAt(c, i + 1) + u)
             - PolyAt(c, m + 1) * (LagrangeCoeff(i, a + [m] + b, q) * 1 + v)) % q
         == (-(m + 1) * (LagrangeCoeff(i, a + b, q) * PolyAt(Quotient(c, m + 1), i + 1) + w)) % q
  {
    CoefficientWithout(i, a, m, b, q);
    QuotientAtSigner(c, m, i);
    RemoveStep(LagrangeCoeff(i, a + [m] + b, q), PolyAt(c, i + 1), PolyAt(c, m + 1), i - m,
      PolyAt(Quotient(c, m + 1), i + 1), LagrangeCoeff(i, a + b, q), m + 1, u, v, w, q);
  }

  lemma NothingRemoved(f: int, x: int)
    ensures 0 - f * 0 == 0 == -x * 0
  {
  }

  lemma ConstantOne(x: int)
    ensures PolyAt([1], x) == 1
  {
    assert [1][1..] == [];
  }

  lemma RemoveStep(l: int, f: int, fm: int, e: int, g: int, l': int, x: int, u: int, v: int, w: int, q: pos)
    requires f == fm + e * g
    requires (l * e) % q == (-x * l') % q
    requires (u - fm * v) % q == (-x * w) % q
    ensures ((l * f + u) - fm * (l * 1 + v)) % q == (-x * (l' * g + w)) % q
  {
    MulCong(l * e, -x * l', g, g, q);
    AddCong((l * e) * g, (-x * l') * g, u - fm * v, -x * w, q);
    RemoveIdentity(l, fm, e, g, u, v);
    DistributeNegative(x, l', g, w);
  }

  lemma RemoveIdentity(l: int, fm: int, e: int, g: int, u: int, v: int)
    ensures (l * (fm + e * g) + u) - fm * (l * 1 + v) == (l * e) * g + (u - fm * v)
  {
    assert l * (fm + e * g) == l * fm + l * (e * g);
    assert l * (e * g) == (l * e) * g;
    assert fm * (l * 1 + v) == fm * l + fm * v;
  }

  lemma DistributeNegative(x: int, l: int, g: int, w: int)
    ensures -x * (l * g + w) == (-x * l) * g + -x * w
  {
    assert -x * (l * g) == (-x * l) * g;
  }

  /** Removing one point from the full sum. */
  lemma RemoveFromAll(a: seq<nat>, m: nat, b: seq<nat>, c: seq<int>, q: pos)
    requires IsPrime(q) && Below(a + [m] + b, q) && Distinct(a + [m] + b)
    ensures var s := a + [m] + b;
      (LagrangeSum(s, s, c, q) - PolyAt(c, m + 1) * LagrangeSum(s, s, [1], q)) % q
      == (-(m + 1) * LagrangeSum(a + b, a + b, Quotient(c, m + 1), q)) % q
  {
    var s, w := a + [m] + b, a + b;
    assert s[|a|] == m;
    forall k | 0 <= k < |w|
      ensures w[k] < q && w[k] != m
    {
      if k < |a| { assert s[k] == w[k]; } else { assert s[k + 1] == w[k]; }
    }
    RemovePoint(w, a, m, b, c, q);
    MiddleTerm(a, m, b, s, c, q);
    MiddleTerm(a, m, b, s, [1], q);
    ConstantOne(m + 1);
    var l, f := LagrangeCoeff(m, s, q), PolyAt(c, m + 1);
    MiddleCancels(LagrangeSum(w, s, c, q), LagrangeSum(w, s, [1], q), l, f);
  }

  lemma MiddleTerm(a: seq<nat>, m: nat, b: seq<nat>, s: seq<nat>, c: seq<int>, q: pos)
    ensures LagrangeSum(a + [m] + b, s, c, q)
         == LagrangeSum(a + b, s, c, q) + LagrangeCoeff(m, s, q) * PolyAt(c, m + 1)
  {
    LagrangeSumAppend(a + [m], b, s, c, q);
    LagrangeSumAppend(a, [m], s, c, q);
    LagrangeSumAppend(a, b, s, c, q);
    assert [m][1..] == [];
    assert LagrangeSum([m], s, c, q) == LagrangeCoeff(m, s, q) * PolyAt(c, m + 1);
  }

  lemma MiddleCancels(u: int, v: int, l: int, f: int)
    ensures (u + l * f) - f * (v + l * 1) == u - f * v
  {
  }

  /** The coefficients of any non-empty set of distinct signers sum to 1. */
  lemma {:induction false} CoefficientsSumToOne(s: seq<nat>, q: pos)
    requires IsPrime(q) && |s| >= 1 && Below(s, q) && Distinct(s)
    ensures LagrangeSum(s, s, [1], q) % q == 1
    decreases |s|
  {
    ModSmall(1, q);
    if |s| == 1 {
      SingleSigner(s, q);
    } else {
      var first, last := s[0], s[|s| - 1];
      var tail, front := s[1..], s[..|s| - 1];
      CoefficientsSumToOne(tail, q);
      CoefficientsSumToOne(front, q);
      DifferenceNonzero(first, last, q);
      RemoveFirstLinear(s, q);
      RemoveLastLinear(s, q);
      SolveForSum(LagrangeSum(s, s, [0, 1], q), LagrangeSum(s, s, [1], q), first + 1, last + 1,
        LagrangeSum(tail, tail, [1], q), LagrangeSum(front, front, [1], q), q);
    }
  }

  lemma RemoveFirstLinear(s: seq<nat>, q: pos)
    requires IsPrime(q) && |s| >= 2 && Below(s, q) && Distinct(s)
    ensures (LagrangeSum(s, s, [0, 1], q) - (s[0] + 1) * LagrangeSum(s, s, [1], q)) % q
         == (-(s[0] + 1) * LagrangeSum(s[1..], s[1..], [1], q)) % q
  {
    var tail := s[1..];
    assert s == [] + [s[0]] + tail;
    assert [] + tail == tail;
    LinearRemoval([], s[0], tail, q);
  }

  lemma RemoveLastLinear(s: seq<nat>, q: pos)
    requires IsPrime(q) && |s| >= 2 && Below(s, q) && Distinct(s)
    ensures var last, front := s[|s| - 1], s[..|s| - 1];
      (LagrangeSum(s, s, [0, 1], q) - (last + 1) * LagrangeSum(s, s, [1], q)) % q
      == (-(last + 1) * LagrangeSum(front, front, [1], q)) % q
  {
    var last, front := s[|s| - 1], s[..|s| - 1];
    assert s == front + [last] + [];
    assert front + [] == front;
    LinearRemoval(front, last, [], q);
  }

  lemma SingleSigner(s: seq<nat>, q: pos)
    requires IsPrime(q) && |s| == 1
    ensures LagrangeSum(s, s, [1], q) % q == 1
  {
    assert s[1..] == [] && [1][1..] == [];
    ModSmall(1, q);
    assert PolyAt([1], s[0] + 1) == 1;
    PrimeInverse(q, 1);
    ModMod(1 * Inverse(1, q), q);
    assert LagrangeSum(s[1..], s, [1], q) == 0;
    assert Numerator(s[0], s) == 1 && Denominator(s[0], s) == 1;
    assert LagrangeCoeff(s[0], s, q) == (1 * Inverse(1, q)) % q;
  }

  /** The removal lemma for the polynomial X, whose quotient by any linear factor is 1. */
  lemma LinearRemoval(a: seq<nat>, m: nat, b: seq<nat>, q: pos)
    requires IsPrime(q) && Below(a + [m] + b, q) && Distinct(a + [m] + b)
    ensures var s := a + [m] + b;
      (LagrangeSum(s, s, [0, 1], q) - (m + 1) * LagrangeSum(s, s, [1], q)) % q
      == (-(m + 1) * LagrangeSum(a + b, a + b, [1], q)) % q
  {
    RemoveFromAll(a, m, b, [0, 1], q);
    assert [0, 1][1..] == [1] && [1][1..] == [];
    assert PolyAt([1], m + 1) == 1;
    assert PolyAt([0, 1], m + 1) == m + 1;
    assert Quotient([0, 1], m + 1) == [1];
  }

  lemma SolveForSum(u: int, t: int, x: int, y: int, v: int, w: int, q: pos)
    requires IsPrime(q) && (y - x) % q != 0
    requires v % q == 1 && w % q == 1
    requires (u - x * t) % q == (-x * v) % q
    requires (u - y * t) % q == (-y * w) % q
    ensures t % q == 1
  {
    ModSmall(1, q);
    MulCong(-x, -x, v, 1, q);
    MulCong(-y, -y, w, 1, q);
    SubCong(u - x * t, -x * 1, u - y * t, -y * 1, q);
    assert (u - x * t) - (u - y * t) == (y - x) * t;
    CancelFactor(q, y - x, t, 1);
  }

  /**
   * Lagrange reconstruction: any distinct signers, at least as many as the polynomial has
   * coefficients, recover its value at 0.
   */
  lemma {:induction false} Reconstruction(s: seq<nat>, c: seq<int>, q: pos)
    requires IsPrime(q) && Below(s, q) && Distinct(s) && |c| <= |s|
    ensures LagrangeSum(s, s, c, q) % q == PolyAt(c, 0) % q
    decreases |c|
  {
    if |c| == 0 {
      SumOfZero(s, s, q);
    } else {
      var m, b := s[0], s[1..];
      var g := Quotient(c, m + 1);
      Reconstruction(b, g, q);
      CoefficientsSumToOne(s, q);
      RemoveFirst(s, c, q);
      QuotientAt(c, m + 1, 0);
      ReconstructionStep(LagrangeSum(s, s, c, q), PolyAt(c, m + 1), LagrangeSum(s, s, [1], q), m + 1,
        LagrangeSum(b, b, g, q), PolyAt(g, 0), q);
    }
  }

  lemma RemoveFirst(s: seq<nat>, c: seq<int>, q: pos)
    requires IsPrime(q) && |s| >= 1 && Below(s, q) && Distinct(s)
    ensures var x := s[0] + 1;
      (LagrangeSum(s, s, c, q) - PolyAt(c, x) * LagrangeSum(s, s, [1], q)) % q
      == (-x * LagrangeSum(s[1..], s[1..], Quotient(c, x), q)) % q
  {
    assert s == [] + [s[0]] + s[1..] && [] + s[1..] == s[1..];
    RemoveFromAll([], s[0], s[1..], c, q);
  }

  lemma {:induction false} SumOfZero(idx: seq<nat>, s: seq<nat>, q: pos)
    ensures LagrangeSum(idx, s, [], q) == 0
  {
    if |idx| != 0 { SumOfZero(idx[1..], s, q); }
  }

  lemma ReconstructionStep(u: int, f: int, t: int, x: int, v: int, g0: int, q: pos)
    requires q > 1 && t % q == 1 && v % q == g0 % q
    requires (u - f * t) % q == (-x * v) % q
    ensures u % q == (f + (0 - x) * g0) % q
  {
    ModSmall(1, q);
    MulCong(f, f, t, 1, q);
    MulCong(-x, -x, v, g0, q);
    AddCong(u - f * t, -x * g0, f * t, f * 1, q);
  }
}
