/** The Blum-modulus proof: Chinese remaindering, square roots modulo p and q, prover and verifier loops. */
module Blum {
  import opened Arithmetic
  import opened Euclid
  import opened Primes
  import opened Paillier
  import opened PaillierZk
  import opened Wrappers

  // ---------------------------------------------------------------- Chinese remaindering

  function Crt(a: int, p: pos, b: int, q: pos, n: pos): nat {
    var diff := (b - a) % n;
    var t := (diff * CofactorModulo(p, q)) % q;
    (a + p * t) % n
  }

  /** `crt` for any arguments, with its own copy of the extended Euclid loop. */
  method ComputeCrt(a: int, p: pos, b: int, q: pos, n: pos) returns (r: nat)
    ensures r == Crt(a, p, b, q, n)
  {
    var diff := (b - a) % n;
    var pInvQ := ModInvInternal(p, q);
    var t := (diff * pInvQ) % q;
    r := (a + p * t) % n;
  }

  /** `crt` returns a residue modulo p q congruent to a modulo p and to b modulo q. */
  lemma CrtCongruences(a: int, p: pos, b: int, q: pos, n: pos)
    requires n == p * q && Coprime(p, q)
    ensures Crt(a, p, b, q, n) < n
    ensures Crt(a, p, b, q, n) % p == a % p && Crt(a, p, b, q, n) % q == b % q
  {
    var diff := (b - a) % n;
    var inv := Inverse(p, q);
    CoprimeReduced(p, q);
    CofactorModuloCorrect(p, q);
    var t := (diff * inv) % q;
    var x := a + p * t;
    ReduceModuloProduct(x, p, q, n);
    assert p * t == t * p;
    ModShift(a, t, p);
    CrtSecondResidue(a, p, b, q, n, diff, inv, t);
  }

  lemma ReduceModuloProduct(x: int, p: pos, q: pos, n: pos)
    requires n == p * q
    ensures (x % n) % p == x % p && (x % n) % q == x % q
  {
    ModMod(x, n);
    ModFactor(x % n, x, p, q);
    assert n == q * p;
    ModFactor(x % n, x, q, p);
  }

  lemma CrtSecondResidue(a: int, p: pos, b: int, q: pos, n: pos, diff: int, inv: nat, t: nat)
    requires n == p * q && Coprime(p, q)
    requires diff == (b - a) % n && inv == Inverse(p, q) && t == (diff * inv) % q
    ensures (a + p * t) % q == b % q
  {
    CoprimeReduced(p, q);
    InverseCorrect(p, q);
    ReduceModuloProduct(b - a, p, q, n);
    ModMod(diff * inv, q);
    CrtArithmetic(a, p, b, q, diff, inv, t);
  }

  lemma CrtArithmetic(a: int, p: int, b: int, q: pos, diff: int, inv: int, t: int)
    requires (p * inv) % q == 1 % q && diff % q == (b - a) % q && t % q == (diff * inv) % q
    ensures (a + p * t) % q == b % q
  {
    MulCong(p, p, t, diff * inv, q);
    MulCong(p * inv, 1, diff, b - a, q);
    assert p * (diff * inv) == (p * inv) * diff;
    AddCong(a, a, p * t, b - a, q);
  }

  lemma CoprimeReduced(p: pos, q: pos)
    requires Coprime(p, q)
    ensures Coprime(q, p % q)
  {
  }

  /** The residue with those two congruences is unique. */
  lemma CrtUnique(a: int, p: pos, b: int, q: pos, n: pos, r: nat)
    requires n == p * q && Coprime(p, q)
    requires r < n && r % p == a % p && r % q == b % q
    ensures r == Crt(a, p, b, q, n)
  {
    CrtCongruences(a, p, b, q, n);
    CoprimeCong(p, q, r, Crt(a, p, b, q, n));
    ModSmall(r, n);
    ModSmall(Crt(a, p, b, q, n), n);
  }

  // ---------------------------------------------------------------- square roots

  predicate IsResidue(a: int, p: pos) {
    ModPow(a, EulerExponent(p), p) == 1
  }

  function SqrtModPrime(a: int, p: pos): nat {
    ModPow(a, (p + 1) / 4, p)
  }

  function RootModN(a: int, p: pos, q: pos, n: pos): nat {
    Crt(SqrtModPrime(a, p), p, SqrtModPrime(a, q), q, n)
  }

  /** The prime factors a Blum prover knows. */
  ghost predicate BlumFactors(p: pos, q: pos, n: pos) {
    IsPrime(p) && IsPrime(q) && p != q && p % 4 == 3 && q % 4 == 3 && n == p * q
  }

  /** When both Euler tests return 1, combining the two roots gives a square root modulo n. */
  lemma RootSquares(a: int, p: pos, q: pos, n: pos)
    requires BlumFactors(p, q, n) && IsResidue(a, p) && IsResidue(a, q)
    ensures (RootModN(a, p, q, n) * RootModN(a, p, q, n)) % n == a % n
  {
    var r := RootModN(a, p, q, n);
    var u, v := SqrtModPrime(a, p), SqrtModPrime(a, q);
    DistinctPrimesCoprime(p, q);
    CrtCongruences(u, p, v, q, n);
    EulerRoot(p, a);
    EulerRoot(q, a);
    MulCong(r, u, r, u, p);
    MulCong(r, v, r, v, q);
    CoprimeCong(p, q, r * r, a);
  }

  // ---------------------------------------------------------------- the proof

  datatype BlumProof = BlumProof(indices: seq<nat>, bits: seq<bool>, roots: seq<int>)
  datatype Entry = Entry(bit: bool, root: nat)

  /** What one iteration of `prove_blum` records for the challenge c. */
  function EntryFor(c: nat, p: pos, q: pos, n: pos): Option<Entry> {
    var cModN := c % n;
    if IsResidue(cModN, p) && IsResidue(cModN, q) then
      Some(Entry(true, RootModN(cModN, p, q, n)))
    else
      var negC := n - cModN;
      if IsResidue(negC, p) && IsResidue(negC, q) then Some(Entry(false, RootModN(negC, p, q, n))) else None
  }

  function ProofPrefix(p: pos, q: pos, n: pos, h: nat -> Hash, k: nat): BlumProof {
    if k == 0 then BlumProof([], [], [])
    else
      var rest := ProofPrefix(p, q, n, h, k - 1);
      match EntryFor(h(k - 1), p, q, n)
      case None => rest
      case Some(e) => BlumProof(rest.indices + [k - 1], rest.bits + [e.bit], rest.roots + [e.root])
  }

  /** The branches of one iteration. */
  method ComputeEntry(c: nat, p: pos, q: pos, n: pos) returns (e: Option<Entry>)
    ensures e == EntryFor(c, p, q, n)
  {
    var cModN := c % n;
    if IsResidue(cModN, p) && IsResidue(cModN, q) {
      var root := ComputeCrt(SqrtModPrime(cModN, p), p, SqrtModPrime(cModN, q), q, n);
      return Some(Entry(true, root));
    }
    var negC := n - cModN;
    if IsResidue(negC, p) && IsResidue(negC, q) {
      var root := ComputeCrt(SqrtModPrime(negC, p), p, SqrtModPrime(negC, q), q, n);
      return Some(Entry(false, root));
    }
    return None;
  }

  /** `prove_blum`, for the challenge oracle fixed by the session and n; the code runs 128 iterations. */
  method ProveBlum(p: pos, q: pos, n: pos, h: nat -> Hash, iterations: nat) returns (proof: BlumProof)
    ensures proof == ProofPrefix(p, q, n, h, iterations)
  {
    var indices: seq<nat> := [];
    var bits: seq<bool> := [];
    var roots: seq<int> := [];
    for i := 0 to iterations
      invariant BlumProof(indices, bits, roots) == ProofPrefix(p, q, n, h, i)
    {
      var e := ComputeEntry(h(i), p, q, n);
      if e.Some? {
        indices := indices + [i];
        bits := bits + [e.value.bit];
        roots := roots + [e.value.root];
      }
    }
    proof := BlumProof(indices, bits, roots);
  }

  lemma NegatedResidue(c: nat, p: pos, q: pos, n: pos)
    requires BlumFactors(p, q, n) && c < n
    ensures (n - c) % p == (0 - c) % p && IsResidue(n - c, p) == IsResidue(0 - c, p)
  {
    assert n - c == (0 - c) + q * p;
    ModShift(0 - c, q, p);
    PowCong(n - c, 0 - c, EulerExponent(p), p);
  }

  /** The Euler test of -c modulo p, in terms of the test of c. */
  lemma NegationFlips(c: nat, p: pos)
    requires IsPrime(p) && p % 4 == 3
    ensures IsResidue(0 - c, p) <==> c % p != 0 && !IsResidue(c, p)
    ensures IsResidue(c, p) ==> c % p != 0
  {
    if c % p == 0 {
      EulerOfMultiple(p, c);
      ModSmall(0, p);
      SubCong(0, 0, c, 0, p);
      EulerOfMultiple(p, 0 - c);
    } else {
      EulerDichotomy(p, c);
    }
  }

  /** Both tests of one iteration modulo the factor p, in terms of the challenge itself. */
  lemma EntryTest(c: nat, p: pos, q: pos, n: pos)
    requires BlumFactors(p, q, n)
    ensures (c % n) % p == c % p && IsResidue(c % n, p) == IsResidue(c, p)
    ensures IsResidue(n - c % n, p) <==> c % p != 0 && !IsResidue(c, p)
  {
    ReduceModuloProduct(c, p, q, n);
    PowCong(c % n, c, EulerExponent(p), p);
    NegatedResidue(c % n, p, q, n);
    NegationFlips(c % n, p);
  }

  lemma EntryTests(c: nat, p: pos, q: pos, n: pos)
    requires BlumFactors(p, q, n)
    ensures (c % n) % p == c % p && (c % n) % q == c % q
    ensures IsResidue(c % n, p) == IsResidue(c, p) && IsResidue(c % n, q) == IsResidue(c, q)
    ensures IsResidue(n - c % n, p) <==> c % p != 0 && !IsResidue(c, p)
    ensures IsResidue(n - c % n, q) <==> c % q != 0 && !IsResidue(c, q)
  {
    EntryTest(c, p, q, n);
    assert n == q * p;
    EntryTest(c, q, p, n);
  }

  /** The challenge is a unit and the two Euler tests agree. */
  ghost predicate Recordable(c: nat, p: pos, q: pos, n: pos) {
    Coprime(n, c % n) && (IsResidue(c, p) <==> IsResidue(c, q))
  }

  /** An index is recorded exactly when its challenge is a unit on which the two Euler tests agree. */
  lemma RecordedIff(c: nat, p: pos, q: pos, n: pos)
    requires BlumFactors(p, q, n)
    ensures EntryFor(c, p, q, n).Some? <==> Recordable(c, p, q, n)
    ensures EntryFor(c, p, q, n).Some? ==>
      (EntryFor(c, p, q, n).value.bit <==> IsResidue(c, p))
  {
    EntryTests(c, p, q, n);
    UnitIff(p, q, c);
    NegationFlips(c, p);
    NegationFlips(c, q);
  }

  function Expected(c: nat, bit: bool, n: pos): nat {
    (if bit then c % n else n - c % n) % n
  }

  /** One zipped entry of `verify_blum` counts when its root squares to plus or minus the challenge. */
  predicate EntryHolds(n: pos, h: nat -> Hash, index: nat, bit: bool, root: int) {
    ModPow(root, 2, n) == Expected(h(index), bit, n)
  }

  lemma RecordedEntryHolds(index: nat, p: pos, q: pos, n: pos, h: nat -> Hash)
    requires BlumFactors(p, q, n) && EntryFor(h(index), p, q, n).Some?
    ensures var e := EntryFor(h(index), p, q, n).value; EntryHolds(n, h, index, e.bit, e.root)
  {
    var c: nat := h(index);
    var e := EntryFor(c, p, q, n).value;
    assert Pow(e.root, 2) == e.root * e.root by {
      assert Pow(e.root, 1) == e.root * Pow(e.root, 0);
    }
    RootSquares(if e.bit then c % n else n - c % n, p, q, n);
  }

  predicate EntriesHold(n: pos, h: nat -> Hash, proof: BlumProof, k: nat)
    requires k <= |proof.indices| && k <= |proof.bits| && k <= |proof.roots|
  {
    forall j :: 0 <= j < k ==> EntryHolds(n, h, proof.indices[j], proof.bits[j], proof.roots[j])
  }

  predicate VerifySpec(n: pos, h: nat -> Hash, proof: BlumProof) {
    && n % 4 == 1
    && 0 < |proof.bits| <= |proof.indices| && |proof.bits| <= |proof.roots|
    && EntriesHold(n, h, proof, |proof.bits|)
  }

  /** The loop of `verify_blum`: zipping stops at the shortest list. */
  method CountValid(n: pos, h: nat -> Hash, proof: BlumProof) returns (validCount: nat, zipped: nat)
    ensures zipped <= |proof.indices| && zipped <= |proof.bits| && zipped <= |proof.roots|
    ensures zipped == |proof.indices| || zipped == |proof.bits| || zipped == |proof.roots|
    ensures validCount <= zipped && (validCount == zipped <==> EntriesHold(n, h, proof, zipped))
  {
    zipped := if |proof.indices| <= |proof.bits| then |proof.indices| else |proof.bits|;
    zipped := if zipped <= |proof.roots| then zipped else |proof.roots|;
    validCount := 0;
    for j := 0 to zipped
      invariant validCount <= j && (validCount == j <==> EntriesHold(n, h, proof, j))
    {
      if EntryHolds(n, h, proof.indices[j], proof.bits[j], proof.roots[j]) {
        validCount := validCount + 1;
      }
    }
  }

  lemma OneModFourIsOdd(n: pos)
    ensures n % 4 == 1 ==> n % 2 == 1
  {
  }

  /** `verify_blum`: accepts exactly the proofs in which every bit comes with an index and a valid root. */
  method VerifyBlum(n: pos, h: nat -> Hash, proof: BlumProof) returns (ok: bool)
    ensures ok <==> VerifySpec(n, h, proof)
  {
    OneModFourIsOdd(n);
    if n % 2 != 1 {
      return false;
    }
    if n % 4 != 1 {
      return false;
    }
    var validCount, zipped := CountValid(n, h, proof);
    ok := validCount > 0 && validCount == |proof.bits|;
  }

  lemma EntriesHoldStep(n: pos, h: nat -> Hash, proof: BlumProof, rest: BlumProof, i: nat, e: Entry)
    requires |rest.indices| == |rest.bits| == |rest.roots| && EntriesHold(n, h, rest, |rest.bits|)
    requires proof == BlumProof(rest.indices + [i], rest.bits + [e.bit], rest.roots + [e.root])
    requires EntryHolds(n, h, i, e.bit, e.root)
    ensures EntriesHold(n, h, proof, |proof.bits|)
  {
    forall j | 0 <= j < |proof.bits|
      ensures EntryHolds(n, h, proof.indices[j], proof.bits[j], proof.roots[j])
    {
      if j < |rest.bits| {
        assert EntryHolds(n, h, rest.indices[j], rest.bits[j], rest.roots[j]);
      }
    }
  }

  /** Every entry of an honest proof verifies. */
  lemma {:induction false} HonestEntriesHold(p: pos, q: pos, n: pos, h: nat -> Hash, k: nat)
    requires BlumFactors(p, q, n)
    ensures var proof := ProofPrefix(p, q, n, h, k);
      |proof.indices| == |proof.bits| == |proof.roots| && EntriesHold(n, h, proof, |proof.bits|)
  {
    if k != 0 {
      HonestEntriesHold(p, q, n, h, k - 1);
      var e := EntryFor(h(k - 1), p, q, n);
      if e.Some? {
        RecordedEntryHolds(k - 1, p, q, n, h);
        EntriesHoldStep(n, h, ProofPrefix(p, q, n, h, k), ProofPrefix(p, q, n, h, k - 1), k - 1, e.value);
      }
    }
  }

  /** An honest proof lists exactly the recorded indices, in increasing order. */
  lemma {:induction false} RecordedIndices(p: pos, q: pos, n: pos, h: nat -> Hash, k: nat)
    ensures var indices := ProofPrefix(p, q, n, h, k).indices;
      && (forall i: nat :: i in indices <==> i < k && EntryFor(h(i), p, q, n).Some?)
      && (forall a, b :: 0 <= a < b < |indices| ==> indices[a] < indices[b])
  {
    if k != 0 {
      RecordedIndices(p, q, n, h, k - 1);
      var rest := ProofPrefix(p, q, n, h, k - 1).indices;
      forall a | 0 <= a < |rest| ensures rest[a] < k - 1 { assert rest[a] in rest; }
    }
  }

  lemma BlumModulus(p: pos, q: pos)
    requires p % 4 == 3 && q % 4 == 3
    ensures (p * q) % 4 == 1
  {
    MulCong(p, 3, q, 3, 4);
  }

  /**
   * Completeness: the verifier accepts an honest proof exactly when at least one of the
   * challenges is a unit on which the Euler tests modulo p and q agree.
   */
  lemma BlumComplete(p: pos, q: pos, n: pos, h: nat -> Hash, iterations: nat)
    requires BlumFactors(p, q, n)
    ensures VerifySpec(n, h, ProofPrefix(p, q, n, h, iterations)) <==>
      exists i: nat :: i < iterations && Recordable(h(i), p, q, n)
  {
    var proof := ProofPrefix(p, q, n, h, iterations);
    HonestEntriesHold(p, q, n, h, iterations);
    RecordedIndices(p, q, n, h, iterations);
    BlumModulus(p, q);
    if |proof.bits| > 0 {
      var i := proof.indices[0];
      assert i in proof.indices;
      RecordedIff(h(i), p, q, n);
    }
    forall i: nat | i < iterations && Recordable(h(i), p, q, n)
      ensures i in proof.indices
    {
      RecordedIff(h(i), p, q, n);
    }
  }

  // ---------------------------------------------------------------- what acceptance means

  /** The challenge or its negation is the square of `root` modulo n. */
  ghost predicate SquareUpToSign(n: pos, c: int, root: int) {
    (root * root) % n == c % n || (root * root) % n == (0 - c) % n
  }

  lemma EntryHoldsIff(n: pos, h: nat -> Hash, index: nat, root: int)
    ensures EntryHolds(n, h, index, true, root) || EntryHolds(n, h, index, false, root)
       <==> SquareUpToSign(n, h(index), root)
  {
    var c: nat := h(index);
    assert Pow(root, 2) == root * root by {
      assert Pow(root, 1) == root * Pow(root, 0);
    }
    ModMod(c, n);
    ModShift(0 - c % n, 1, n);
    assert 0 - c % n + 1 * n == n - c % n;
    SubCong(0, 0, c % n, c, n);
  }

  /**
   * Which moduli can pass `verify_blum` at all: those that are 1 modulo 4 and have a square
   * root of some challenge or of its negation. Nothing else about the factors is forced.
   */
  lemma PassableIff(n: pos, h: nat -> Hash)
    ensures (exists proof :: VerifySpec(n, h, proof))
       <==> n % 4 == 1 && exists index: nat, root: int :: SquareUpToSign(n, h(index), root)
  {
    if proof :| VerifySpec(n, h, proof) {
      assert EntryHolds(n, h, proof.indices[0], proof.bits[0], proof.roots[0]);
      EntryHoldsIff(n, h, proof.indices[0], proof.roots[0]);
      assert SquareUpToSign(n, h(proof.indices[0]), proof.roots[0]);
    }
    if n % 4 == 1 {
      forall index: nat, root: int | SquareUpToSign(n, h(index), root)
        ensures exists proof :: VerifySpec(n, h, proof)
      {
        EntryHoldsIff(n, h, index, root);
        var bit := EntryHolds(n, h, index, true, root);
        assert VerifySpec(n, h, BlumProof([index], [bit], [root]));
      }
    }
  }

  /** The square condition of every counted entry, without the verifier's own reductions. */
  lemma VerifySpecMeans(n: pos, h: nat -> Hash, proof: BlumProof)
    ensures VerifySpec(n, h, proof) <==>
      && n % 4 == 1 && 0 < |proof.bits| <= |proof.indices| && |proof.bits| <= |proof.roots|
      && forall j :: 0 <= j < |proof.bits| ==>
           SquareIs(n, h(proof.indices[j]), proof.bits[j], proof.roots[j])
  {
    var m := |proof.bits|;
    if m <= |proof.indices| && m <= |proof.roots| {
      forall j | 0 <= j < m
        ensures EntryHolds(n, h, proof.indices[j], proof.bits[j], proof.roots[j])
           <==> SquareIs(n, h(proof.indices[j]), proof.bits[j], proof.roots[j])
      {
        EntryIs(n, h, proof.indices[j], proof.bits[j], proof.roots[j]);
      }
    }
  }

  /** The root squares to the challenge, or to its negation when the bit is not set. */
  ghost predicate SquareIs(n: pos, c: int, bit: bool, root: int) {
    (root * root) % n == (if bit then c else 0 - c) % n
  }

  lemma EntryIs(n: pos, h: nat -> Hash, index: nat, bit: bool, root: int)
    ensures EntryHolds(n, h, index, bit, root) <==> SquareIs(n, h(index), bit, root)
  {
    var c: nat := h(index);
    assert Pow(root, 2) == root * root by {
      assert Pow(root, 1) == root * Pow(root, 0);
    }
    ModMod(c, n);
    ModShift(0 - c % n, 1, n);
    assert 0 - c % n + 1 * n == n - c % n;
    SubCong(0, 0, c % n, c, n);
  }
}
