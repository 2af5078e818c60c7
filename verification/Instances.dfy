/**
 * Concrete instances: inputs that meet every hypothesis of the end-to-end theorems, and inputs
 * within the ranges the code allows on which a promise of the code fails.
 */
module Instances {
  import opened Arithmetic
  import opened Euclid
  import opened Primes
  import opened Group
  import opened Core
  import opened Paillier
  import opened Wrappers
  import Blum
  import PaillierZk
  import Rounds
  import LindellDkg
  import PaillierRandomness
  import LindellSign
  import LindellModulus
  import LindellOutcome
  import ProofMeaning
  import Ecdsa
  import Keygen = CggmpKeygen
  import Presign = CggmpPresign
  import CggmpSign

  lemma SmallPrimes()
    ensures IsPrime(5) && IsPrime(7) && IsPrime(11)
  {
  }

  lemma KeyFor(p: pos, q: pos) returns (kp: Keypair)
    requires IsPrime(p) && IsPrime(q) && p != q && (q - 1) % p != 0 && (p - 1) % q != 0
    ensures ValidKey(kp) && kp.p == p && kp.q == q && kp.pk.n == p * q && Unit(kp, 1)
  {
    kp := KeyFrom(p, q);
    RetryIff(p, q);
    KeyFromValid(p, q);
    ModSmall(1, p);
    ModSmall(1, q);
    UnitIff(p, q, 1);
  }

  /** The key for the primes 7 and 11, both 3 modulo 4. */
  lemma SmallKey() returns (kp: Keypair)
    ensures ValidKey(kp) && kp.p == 7 && kp.q == 11 && kp.pk.n == 77 && Unit(kp, 1)
  {
    SmallPrimes();
    kp := KeyFor(7, 11);
  }

  /** Two signers over a group of order 5 with the modulus 77 > (5 - 1)^2. */
  lemma LindellHypotheses()
    returns (run: LindellSign.Run, f: seq<int>, rnd: LindellSign.P1Random, rnd2: LindellSign.P2Random)
    ensures LindellSign.HonestInputs(run, f) && LindellSign.HonestDraws(run, rnd, rnd2)
    ensures rnd.kp.pk.n > (run.cv.q - 1) * (run.cv.q - 1)
  {
    var q: pos :| q == 5;
    var kp := SmallKey();
    SmallPrimes();
    run, f := LindellModulus.WrappingRun(q), LindellModulus.WRAPPING_POLY;
    LindellModulus.WrappingRunIsHonest(q);
    rnd, rnd2 := LindellModulus.PlainDraws(run, kp, 2);
  }

  function KeygenInput(kp: Keypair): Keygen.Input {
    Keygen.Input(kp, [3, 1], 0, 0, _ => Keygen.ShareRandom(1, 0, 0))
  }

  lemma OneIsRecordable(kp: Keypair)
    requires ValidKey(kp) && kp.p == 7 && kp.q == 11 && kp.pk.n == 77 && Unit(kp, 1)
    ensures Blum.Recordable(1, 7, 11, 77)
  {
    PowOne(EulerExponent(7));
    PowOne(EulerExponent(11));
  }

  /** Two parties over a group of order q; the Blum challenges of a modulus are all `challenge(n)`. */
  function KeygenConfig(q: pos, iterations: nat, challenge: nat -> PaillierZk.Hash): Keygen.Config {
    Keygen.Config(q, 2, iterations,
      Keygen.Oracles((n: nat) => (_: nat) => challenge(n), (_, _) => 0, (_, _) => 0, _ => 0, _ => 0))
  }

  ghost predicate SmallKeypair(kp: Keypair) {
    ValidKey(kp) && kp.p % 4 == 3 && kp.q % 4 == 3 && Unit(kp, 1)
  }

  lemma KeygenInputsHonest(first: Keypair, second: Keypair, q: pos, iterations: nat, challenge: nat -> PaillierZk.Hash)
    requires SmallKeypair(first) && SmallKeypair(second) && IsPrime(q) && q <= first.pk.n && q <= second.pk.n
    ensures Keygen.HonestInputs(KeygenConfig(q, iterations, challenge), [KeygenInput(first), KeygenInput(second)], 2)
  {
  }

  /** With the one challenge 1 both keys have a recordable challenge. */
  lemma KeygenHypotheses(kp: Keypair, q: pos) returns (kc: Keygen.Config, inputs: seq<Keygen.Input>)
    requires SmallKeypair(kp) && kp.p == 7 && kp.q == 11 && kp.pk.n == 77 && IsPrime(q) && q <= 77
    ensures kc.q == q && kc.n == 2
    ensures Keygen.HonestInputs(kc, inputs, 2) && CggmpSign.AllRecordable(kc, inputs)
  {
    OneIsRecordable(kp);
    kc, inputs := KeygenConfig(q, 1, _ => 1), [KeygenInput(kp), KeygenInput(kp)];
    KeygenInputsHonest(kp, kp, q, 1, _ => 1);
    assert Blum.Recordable(kc.h.blum(kp.pk.n)(0), kp.p, kp.q, kp.pk.n);
  }

  lemma PresignHypotheses(kp: Keypair, q: pos) returns (pc: Presign.Config, inputs: seq<Presign.Input>)
    requires ValidKey(kp) && Unit(kp, 1) && IsPrime(q) && 2 < q <= kp.pk.n
    ensures pc.cv.q == q && |inputs| == 2
    ensures Presign.HonestInputs(pc, inputs) && CggmpSign.Nonce(pc, inputs) != 0
  {
    pc := Presign.Config(Curve(q, (p: Point) => p.log, (p: Point) => p.log % 2), (_, _) => 0, _ => 0);
    var input := Presign.Input(kp, 1, _ => Presign.PeerRandom(1, 0, 0));
    inputs := [input, input];
    assert Presign.Nonces(inputs) == [1, 1];
    TwoOnes();
    ModSmall(2, q);
  }

  lemma TwoOnes()
    ensures Rounds.Sum([1, 1]) == 2
  {
    assert [1, 1][1..] == [1];
    Rounds.SumOne(1);
  }

  /** Both parties can sign, so the hypotheses of `CggmpSign.CggmpEndToEnd` hold together. */
  lemma CggmpHypotheses() returns (kc: Keygen.Config, kInputs: seq<Keygen.Input>, pc: Presign.Config,
      pInputs: seq<Presign.Input>, signers: seq<nat>)
    ensures kc.q == pc.cv.q && Keygen.HonestInputs(kc, kInputs, 2) && CggmpSign.AllRecordable(kc, kInputs)
    ensures LindellDkg.ValidSigners(signers, kc.n, kc.q) && |signers| == 2 == |pInputs|
    ensures Presign.HonestInputs(pc, pInputs) && CggmpSign.Nonce(pc, pInputs) != 0
  {
    var kp := SmallKey();
    SmallPrimes();
    kc, kInputs := KeygenHypotheses(kp, 5);
    pc, pInputs := PresignHypotheses(kp, 5);
    signers := [0, 1];
  }

  // ---------------------------------------------------------------- where a promise fails

  /** 2 is a square modulo 7 and not modulo 11. */
  lemma TwoIsNotRecordable()
    ensures !Blum.Recordable(2, 7, 11, 77)
  {
    Powers();
  }

  lemma Powers()
    ensures Pow(2, 3) == 8 && Pow(2, 5) == 32
  {
    assert Pow(2, 1) == 2 && Pow(2, 2) == 4;
    assert Pow(2, 4) == 16;
  }

  /** Honest parties whose 128 challenges are all 2 reject each other's Blum proof. */
  lemma HonestBlumRejection() returns (kc: Keygen.Config, inputs: seq<Keygen.Input>)
    ensures kc.iterations == 128 && kc.n == 2 == |inputs| && Keygen.HonestInputs(kc, inputs, 2)
    ensures Keygen.HonestKeygen(kc, inputs, 0) == Some(Keygen.Failed(Keygen.BlumProofFailed))
  {
    var kp := SmallKey();
    SmallPrimes();
    TwoIsNotRecordable();
    var iterations: nat :| iterations == 128;
    kc, inputs := KeygenConfig(5, iterations, _ => 2), [KeygenInput(kp), KeygenInput(kp)];
    KeygenInputsHonest(kp, kp, 5, iterations, _ => 2);
    assert !Keygen.HasRecordable(kc, inputs[1]);
    Keygen.HonestKeygenResult(kc, inputs, 2, 0);
  }

  lemma Nineteen()
    ensures IsPrime(19)
  {
  }

  lemma OneIsAlwaysRecordable(kp: Keypair)
    requires SmallKeypair(kp)
    ensures Blum.Recordable(1, kp.p, kp.q, kp.pk.n)
  {
    PowOne(EulerExponent(kp.p));
    PowOne(EulerExponent(kp.q));
    ModSmall(1, kp.p);
    ModSmall(1, kp.q);
  }

  /** When only party 0's challenges are unlucky, its peer stops and party 0 never returns. */
  lemma HonestPartyWaits() returns (kc: Keygen.Config, inputs: seq<Keygen.Input>)
    ensures kc.iterations == 128 && kc.n == 2 == |inputs| && Keygen.HonestInputs(kc, inputs, 2)
    ensures Keygen.HonestKeygen(kc, inputs, 0) == None
    ensures Keygen.HonestKeygen(kc, inputs, 1) == Some(Keygen.Failed(Keygen.BlumProofFailed))
  {
    var unlucky := SmallKey();
    SmallPrimes();
    Nineteen();
    var lucky := KeyFor(7, 19);
    TwoIsNotRecordable();
    OneIsAlwaysRecordable(lucky);
    var iterations: nat :| iterations == 128;
    var challenge: nat -> PaillierZk.Hash := n => if n == 77 then 2 else 1;
    kc, inputs := KeygenConfig(5, iterations, challenge), [KeygenInput(unlucky), KeygenInput(lucky)];
    KeygenInputsHonest(unlucky, lucky, 5, iterations, challenge);
    assert !Keygen.HasRecordable(kc, inputs[0]);
    assert Blum.Recordable(kc.h.blum(lucky.pk.n)(0), lucky.p, lucky.q, lucky.pk.n);
    assert Keygen.HasRecordable(kc, inputs[1]);
    Keygen.HonestKeygenResult(kc, inputs, 2, 0);
    Keygen.HonestKeygenResult(kc, inputs, 2, 1);
  }

  /** A message of six bits passes a range proof for one bit, whatever is drawn. */
  lemma LargeMessagePassesRange(rho: int, h: PaillierZk.RangeTranscript -> PaillierZk.Hash, alpha: nat, gamma: nat)
    requires alpha < Pow(2, 1 + 256 + PaillierZk.Bits(77))
    ensures Pow(2, 1) <= 50 < 77
    ensures var pk := PublicKeyOf(77);
      var c := EncryptWithRho(pk, 50, rho);
      PaillierZk.VerifyRange(pk, c, 1, h, PaillierZk.ProveRange(pk, c, 50, rho, 1, h, alpha, gamma))
  {
    var n: pos :| n == 77;
    var m: nat :| m == 50;
    PaillierZk.RangeAcceptsEveryResidue(n, m, rho, 1, h, alpha, gamma);
  }

  /**
   * A refresh that loses the key: party 0 accepts a peer that reveals the constant term 1, and
   * the share `run_refresh` returns no longer opens the unchanged public key.
   */
  lemma RefreshLosesKey(q: pos, commit: LindellDkg.CommitOracle)
    returns (before: seq<nat>, views: seq<LindellDkg.VssView>, commits: seq<nat>, all: seq<seq<Point>>)
    requires q == 5
    ensures |before| == 2 && LindellDkg.ViewsOf(views, commits, all, 2)
    ensures LindellDkg.SharesOn(before, [3], 1, q)
    ensures LindellDkg.AllAccepted([0], views, commits, all, q, commit)
    ensures var masterPk := MulG(3, q);
      var results := LindellDkg.RefreshResults(before, masterPk, views, commits, all, q, commit);
      MulG(LindellDkg.Reconstructed([0], [0], LindellDkg.SharesAfter(before, results), q), q) != masterPk
  {
    SmallPrimes();
    before, all := [3, 3], [[Point(0)], [Point(1)]];
    views := [LindellDkg.VssView([0], [1]), LindellDkg.VssView([1], [0])];
    commits := [commit(0, all[0]), commit(1, all[1])];
    ConstantPoly(3);
    ConstantPoly(0);
    PeerRevealsOne(q, commit, views, commits, all);
    LindellDkg.RefreshKeepsKeyIff([0], before, [3], views, commits, all, q, commit);
  }

  lemma ConstantPoly(a: int)
    ensures forall x: int :: PolyAt([a], x) == a
  {
    forall x: int
      ensures PolyAt([a], x) == a
    {
      assert [a][1..] == [];
      assert x * 0 == 0;
    }
  }

  lemma PeerRevealsOne(q: pos, commit: LindellDkg.CommitOracle, views: seq<LindellDkg.VssView>, commits: seq<nat>,
      all: seq<seq<Point>>)
    requires q == 5 && all == [[Point(0)], [Point(1)]] && commits == [commit(0, all[0]), commit(1, all[1])]
    requires views == [LindellDkg.VssView([0], [1]), LindellDkg.VssView([1], [0])]
    ensures LindellDkg.AllAccepted([0], views, commits, all, q, commit)
    ensures var r := LindellDkg.ViewedVss(0, views, commits, all, q, commit); r.Accepted? && r.pk == Point(1)
  {
    assert Rounds.Without(all, 0) == [[Point(1)]] && Rounds.Without(commits, 0) == [commits[1]];
    OnePointAccepted(q, commit, [[Point(1)]], [commits[1]]);
  }

  lemma OnePointAccepted(q: pos, commit: LindellDkg.CommitOracle, openings: seq<seq<Point>>, digests: seq<nat>)
    requires q == 5 && openings == [[Point(1)]] && digests == [commit(1, openings[0])]
    ensures var r := LindellDkg.VssSpec(0, [0], q, commit, digests, openings, [1]); r.Accepted? && r.pk == Point(1)
  {
    assert Logs(openings[0]) == [1];
    ConstantPoly(1);
    LindellDkg.VssAcceptsIff(0, [0], q, commit, digests, openings, [1]);
    assert LindellDkg.Heads(openings) == [1];
    Rounds.SumOne(1);
  }

  /** With randomness 7, which `encrypt` may draw for the modulus 77, zero is not recovered. */
  lemma SharedFactorLosesZero() returns (kp: Keypair)
    ensures ValidKey(kp) && 7 < kp.pk.n
    ensures Decrypt(kp.sk, kp.pk, EncryptWithRho(kp.pk, 0, 7)) != 0
  {
    kp := SmallKey();
    PaillierRandomness.OnePrimeBreaksZero(kp, 7, 11, 7);
  }

  /** A prime modulus passes `verify_blum` with one entry: 5, for a challenge that is a square. */
  lemma PrimeModulusPasses(n: pos)
    requires n == 5
    ensures IsPrime(n) && Blum.VerifySpec(n, _ => 1, Blum.BlumProof([0], [true], [1]))
  {
    SmallPrimes();
    PowOne(2);
    assert Blum.EntryHolds(n, _ => 1, 0, true, 1);
  }

  /**
   * A list longer than the threshold: with t = 1 party 0 accepts a peer's list of two points,
   * and its share alone no longer opens the public key it returns.
   */
  lemma LongListBreaksThreshold(q: pos, commit: LindellDkg.CommitOracle)
    returns (commits: seq<nat>, openings: seq<seq<Point>>, share: nat, pk: Point)
    requires q == 5
    ensures |commits| == |openings| == 1
    ensures LindellDkg.VssSpec(0, [0], q, commit, commits, openings, [1]) == LindellDkg.Accepted(share, pk)
    ensures MulG(LindellDkg.Reconstructed([0], [0], [share], q), q) != pk
  {
    openings, share, pk := [[Point(0), Point(1)]], 1, IDENTITY;
    commits := [commit(1, openings[0])];
    PolyOfTwo(openings[0]);
    LindellDkg.VssAcceptsIff(0, [0], q, commit, commits, openings, [1]);
    assert LindellDkg.Heads(openings) == [0];
    Rounds.SumOne(0);
    Rounds.SumOne(1);
    ZeroShare(q);
    SoleSigner(q);
  }

  lemma PolyOfTwo(points: seq<Point>)
    requires points == [Point(0), Point(1)]
    ensures PolyAt(Logs(points), 1) == 1
  {
    assert Logs(points) == [0, 1];
    assert [0, 1][1..] == [1] && [1][1..] == [];
  }

  lemma ZeroShare(q: pos)
    ensures ShareFor([0], 0, q) == 0
  {
    assert [0][1..] == [];
    ModSmall(0, q);
  }

  lemma SoleSigner(q: pos)
    requires q == 5
    ensures LindellDkg.Reconstructed([0], [0], [1], q) == 1
  {
    InverseUnique(1, q, 1);
    assert [0][1..] == [];
    assert Numerator(0, [0]) == 1 && Denominator(0, [0]) == 1;
  }

  /** With the modulus 77, between q and (q - 1)^2 for q = 13, an honest P1 sends a wrong s. */
  lemma SmallModulusBreaksSignature()
    returns (run: LindellSign.Run, f: seq<int>, rnd: LindellSign.P1Random, rnd2: LindellSign.P2Random)
    ensures LindellSign.HonestInputs(run, f) && LindellSign.HonestDraws(run, rnd, rnd2)
    ensures run.cv.q <= rnd.kp.pk.n <= (run.cv.q - 1) * (run.cv.q - 1)
    ensures LindellSign.P1Message(run, rnd, rnd2).Ok?
    ensures LindellSign.P1Message(run, rnd, rnd2).value.s != LindellSign.TargetSignature(run, f, rnd).s
  {
    var q: pos :| q == 13;
    Thirteen();
    var kp := SmallKey();
    run, f, rnd, rnd2 := LindellModulus.WrappingRunFails(kp, q);
  }

  lemma Thirteen()
    ensures IsPrime(13)
  {
  }

  // ---------------------------------------------------------------- checks that must reject

  /** Every party of the run with the modulus 77 rejects the signature that P1 sends. */
  lemma WrongSignatureRejected(i: nat)
    returns (run: LindellSign.Run, f: seq<int>, rnd: LindellSign.P1Random, rnd2: LindellSign.P2Random)
    requires i < 2
    ensures LindellSign.HonestInputs(run, f) && LindellSign.HonestDraws(run, rnd, rnd2) && run.n == 2
    ensures rnd.kp.pk.n == 77 && run.cv.q == 13
    ensures LindellSign.HonestSign(run, rnd, rnd2, i) == LindellSign.Result.Err(LindellSign.InvalidSignature)
  {
    var q: pos :| q == 13;
    Thirteen();
    var kp := SmallKey();
    run, f := LindellModulus.WrappingRun(q), LindellModulus.WRAPPING_POLY;
    LindellModulus.WrappingRunIsHonest(q);
    rnd, rnd2 := LindellModulus.PlainDraws(run, kp, 12);
    LindellOutcome.EveryPartyResult(run, f, rnd, rnd2, i);
    LindellModulus.WrappingPolyAt(0);
    SentWrongSignature(q, rnd);
  }

  /** P1 sends (12, 11), and 11^-1 (1 + 12 * 11) G has the x-coordinate 5 on this curve. */
  lemma SentWrongSignature(q: pos, rnd: LindellSign.P1Random)
    requires q == 13 && rnd.k == 12 && rnd.kp.pk.n == 77
    ensures var run := LindellModulus.WrappingRun(q);
      var sig := LindellOutcome.SentSignature(run, rnd);
      sig.r == 12 && sig.s == 11 && !Ecdsa.SignatureHolds(run.cv, -2, run.digest, sig.r, sig.s)
  {
    var run := LindellModulus.WrappingRun(q);
    WrappedProduct(q, rnd, rnd.kp.pk.n);
    SentSum(q, rnd, LindellSign.Product(run, rnd) % rnd.kp.pk.n);
    PointTwelve(q, run.cv);
    FailsEquation(q, run.cv);
  }

  lemma SentSum(q: pos, rnd: LindellSign.P1Random, s2: nat)
    requires q == 13 && rnd.k == 12 && s2 == 67
    ensures LindellSign.SumFor(LindellModulus.WrappingRun(q), rnd, s2) == 11
  {
    OwnPart(q, rnd);
  }

  lemma WrappedProduct(q: pos, rnd: LindellSign.P1Random, n: pos)
    requires q == 13 && rnd.k == 12 && n == 77
    ensures LindellSign.Product(LindellModulus.WrappingRun(q), rnd) % n == 67
  {
    LindellModulus.SelfInverses(q);
    LindellModulus.WrappingMultiplier(q, rnd);
    ModUnique(144, 1, 67, n);
  }

  lemma PointTwelve(q: pos, cv: Curve)
    requires q == 13 && cv.q == q && cv.xOf == LindellModulus.WrappingRun(q).cv.xOf
    ensures cv.XCoord(MulG(12, q)) == 12
  {
  }

  lemma OwnPart(q: pos, rnd: LindellSign.P1Random)
    requires q == 13 && rnd.k == 12
    ensures LindellSign.Partial(LindellModulus.WrappingRun(q), rnd) == 9
  {
    var run := LindellModulus.WrappingRun(q);
    LindellModulus.SelfInverses(q);
    FirstCoefficient(q);
    PointTwelve(q, run.cv);
    assert LindellSign.Partial(run, rnd) == (2 * 12 * (1 % q + 12 * 12)) % q;
  }

  lemma FailsEquation(q: pos, cv: Curve)
    requires q == 13 && cv.q == q && cv.xOf == LindellModulus.WrappingRun(q).cv.xOf
    ensures !Ecdsa.SignatureHolds(cv, -2, 1, 12, 11)
  {
    InverseUnique(11, q, 6);
    assert 6 * (1 + 12 * -2) == -138;
    ModUnique(-138, -11, 5, q);
  }

  lemma FirstCoefficient(q: pos)
    requires q == 13
    ensures LagrangeCoeff(0, [0, 1], q) == 2
  {
    assert [0, 1][1..] == [1] && [1][1..] == [];
    assert Numerator(0, [1]) == 2 && Denominator(0, [1]) == 1;
    assert Numerator(0, [0, 1]) == 2 && Denominator(0, [0, 1]) == 1;
    InverseUnique(1, q, 1);
  }

  /** One signer of a threshold-2 key: its own share of s does not verify, and it says so. */
  lemma TooFewSigners(q: pos) returns (job: CggmpSign.Job, presig: Presign.Presignature)
    requires q == 13
    ensures job.cv.Valid() && job.cv.q == q && job.signers == [0] && job.publicKey == MulG(-2, q)
    ensures LindellDkg.SharesOn([q - 1, 0], LindellModulus.WRAPPING_POLY, 2, q)
    ensures presig.k == 12 && presig.kInv == Inverse(12, q) && presig.rPoint == MulG(12, q)
    ensures CggmpSign.HonestSign(job, [q - 1, 0], presig, 0) == CggmpSign.InvalidSignature
  {
    Thirteen();
    job := CggmpSign.Job(LindellModulus.WrappingRun(q).cv, [0], MulG(-2, q), 1);
    presig := Presign.Presignature(12, Inverse(12, q), 12, MulG(12, q));
    LindellModulus.SelfInverses(q);
    LindellModulus.WrappingRunIsHonest(q);
    OnlySigner(q);
    FailsEquation(q, job.cv);
    assert Ecdsa.SignatureScalar(presig.kInv, 1, 12, 12, q) == (12 * (1 + 12 * 12)) % q == 11;
    CggmpSign.AnySignersResult(job, -2, [q - 1, 0], presig, 0);
  }

  lemma OnlySigner(q: pos)
    requires q == 13
    ensures LindellDkg.Reconstructed([0], [0], [q - 1, 0], q) == 12
  {
    InverseUnique(1, q, 1);
    assert [0][1..] == [];
    assert Numerator(0, [0]) == 1 && Denominator(0, [0]) == 1;
    assert LagrangeCoeff(0, [0], q) == 1;
  }

  /** An honest log proof for 2 does not pass against an encryption of 3, when every challenge is 1. */
  lemma OtherPlaintextRejected(q: pos) returns (kp: Keypair, proof: PaillierZk.PointProof)
    requires q == 5
    ensures ValidKey(kp) && kp.pk.n == 77
    ensures proof == PaillierZk.ProveLog(kp.pk, EncryptWithRho(kp.pk, 2, 1), 2, 1, MulG(2, q), _ => 1, 0, 1, q)
    ensures !PaillierZk.VerifyLog(kp.pk, EncryptWithRho(kp.pk, 3, 1), MulG(2, q), _ => 1, proof, q)
  {
    kp := SmallKey();
    var h: PaillierZk.PointTranscript -> PaillierZk.Hash := _ => 1;
    var c, c' := EncryptWithRho(kp.pk, 2, 1), EncryptWithRho(kp.pk, 3, 1);
    proof := PaillierZk.ProveLog(kp.pk, c, 2, 1, MulG(2, q), h, 0, 1, q);
    EncryptEncodes(kp, 3, 1);
    if PaillierZk.VerifyLog(kp.pk, c', MulG(2, q), h, proof, q) {
      ProofMeaning.LogAgainstOther(kp, 2, 1, c, c', 3, MulG(2, q), h, 0, 1, q, proof, 1, 1, 3, 2);
    }
  }

  /** The first two primes 3 modulo 4 that do not divide each other minus one give a key. */
  lemma SevenAndElevenGiveAKey(more: seq<nat>)
    requires AllPrime([7, 11] + more)
    ensures var r := FirstKey([7, 11] + more); r.Some? && r.value.p == 7 && r.value.q == 11
  {
    HeadPairReturned(7, 11, more);
  }
}
