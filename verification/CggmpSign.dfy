/** CGGMP21 online signing (`run_online_sign`) and the end-to-end theorem over all three phases. */
module CggmpSign {
  import opened Arithmetic
  import opened Euclid
  import opened Wrappers
  import opened Group
  import opened Core
  import opened Rounds
  import opened Ecdsa
  import LindellDkg
  import Presign = CggmpPresign
  import Keygen = CggmpKeygen

  /** `recovery_id` panics on the identity, hence the last result. */
  datatype SignResult = Signed(r: nat, s: nat, recId: nat) | NotASigner | InvalidSignature | Panicked

  /** The inputs all signers share. */
  datatype Job = Job(cv: Curve, signers: seq<nat>, publicKey: Point, digest: nat)

  /** s_i = k^-1 lambda_i (z + r x_i). */
  function SignatureShare(job: Job, i: nat, share: nat, presig: Presign.Presignature): nat {
    var q := job.cv.q;
    (presig.kInv * LagrangeCoeff(i, job.signers, q) * (job.digest % q + presig.r * share)) % q
  }

  /** The result of a signer with own share `own` on the shares it receives. */
  function SignSpec(job: Job, presig: Presign.Presignature, own: nat, received: seq<nat>): SignResult {
    Verdict(job, presig, SumMod(own, received, job.cv.q))
  }

  function Verdict(job: Job, presig: Presign.Presignature, s: nat): SignResult {
    if !VerifySignature(job.cv, job.publicKey, job.digest, presig.r, s) then InvalidSignature
    else if presig.rPoint.log % job.cv.q == 0 then Panicked
    else Signed(presig.r, s, job.cv.recOf(presig.rPoint))
  }

  /** `run_online_sign`: sends its share to every other signer and adds up what it receives. */
  method RunOnlineSign(job: Job, i: nat, share: nat, presig: Presign.Presignature, received: seq<nat>)
    returns (sent: seq<(nat, nat)>, result: SignResult)
    requires job.cv.Valid() && i < job.cv.q && Below(job.signers, job.cv.q)
    ensures result == if Presign.Position(job.signers, i).None? then NotASigner
      else SignSpec(job, presig, SignatureShare(job, i, share, presig), received)
    ensures Presign.Position(job.signers, i).None? ==> sent == []
    ensures Presign.Position(job.signers, i).Some? ==>
      |sent| == |job.signers| - 1 &&
      forall l :: 0 <= l < |sent| ==>
        sent[l] == (Peer(Presign.Position(job.signers, i).value, l), SignatureShare(job, i, share, presig))
  {
    var q := job.cv.q;
    var position := Presign.FindPosition(job.signers, i);
    if position.None? {
      return [], NotASigner;
    }
    var a := position.value;
    Presign.PositionMeaning(job.signers, i);
    var coefficient := ComputeLagrangeCoeff(i, job.signers, q);
    var own := (presig.kInv * coefficient * (job.digest % q + presig.r * share)) % q;
    sent := [];
    for peer := 0 to |job.signers|
      invariant |sent| == if peer <= a then peer else peer - 1
      invariant forall l :: 0 <= l < |sent| ==> sent[l] == (Peer(a, l), own)
    {
      if peer == a {
        continue;
      }
      sent := sent + [(peer, own)];
    }
    var total := AddReceived(own, received, q);
    if !VerifySignature(job.cv, job.publicKey, job.digest, presig.r, total) {
      return sent, InvalidSignature;
    }
    if presig.rPoint.log % q == 0 {
      return sent, Panicked;
    }
    result := Signed(presig.r, total, job.cv.recOf(presig.rPoint));
  }

  /** The receiving loop; received byte strings are reduced modulo q as they are read. */
  method AddReceived(own: nat, received: seq<nat>, q: pos) returns (total: nat)
    requires own < q
    ensures total == SumMod(own, received, q)
  {
    total := own;
    ModSmall(own, q);
    assert received[..0] == [];
    for l := 0 to |received|
      invariant total == SumMod(own, received[..l], q)
    {
      SumStep(own, received, l, q);
      AddMod(total, received[l], q);
      total := (total + received[l] % q) % q;
    }
    assert received[..|received|] == received;
  }

  // ---------------------------------------------------------------- honest runs

  /** Every signer's share of s, for one presignature. */
  function AllShares(job: Job, idx: seq<nat>, shares: seq<nat>, presig: Presign.Presignature): (r: seq<nat>)
    requires forall k :: 0 <= k < |idx| ==> idx[k] < |shares|
    ensures |r| == |idx|
  {
    seq(|idx|, k requires 0 <= k < |idx| => SignatureShare(job, idx[k], shares[idx[k]], presig))
  }

  /** The signer with local index a in an honest run. */
  function HonestSign(job: Job, shares: seq<nat>, presig: Presign.Presignature, a: nat): SignResult
    requires a < |job.signers| && forall k :: 0 <= k < |job.signers| ==> job.signers[k] < |shares|
  {
    var all := AllShares(job, job.signers, shares, presig);
    SignSpec(job, presig, all[a], Without(all, a))
  }

  /** The sum of all shares of s, as an integer expression in the two Lagrange sums. */
  lemma {:induction false} SharesSum(job: Job, idx: seq<nat>, shares: seq<nat>, presig: Presign.Presignature)
    requires forall k :: 0 <= k < |idx| ==> idx[k] < |shares|
    ensures var q := job.cv.q;
      Sum(AllShares(job, idx, shares, presig)) % q
      == (presig.kInv * (job.digest * LagrangeSum(idx, job.signers, [1], q)
                         + presig.r * LindellDkg.Reconstructed(idx, job.signers, shares, q))) % q
  {
    var q, kInv, d, r := job.cv.q, presig.kInv, job.digest, presig.r;
    if |idx| == 0 {
      assert kInv * (d * 0 + r * 0) == 0;
    } else {
      var i, tail := idx[0], idx[1..];
      var all := AllShares(job, idx, shares, presig);
      assert all[1..] == AllShares(job, tail, shares, presig);
      SharesSum(job, tail, shares, presig);
      ConstantOne(i + 1);
      ShareStep(kInv, d, r, LagrangeCoeff(i, job.signers, q), shares[i],
        LagrangeSum(tail, job.signers, [1], q), LindellDkg.Reconstructed(tail, job.signers, shares, q),
        Sum(all[1..]), q);
    }
  }

  lemma ShareStep(kInv: int, d: int, r: int, l: int, x: int, t: int, u: int, rest: int, q: pos)
    requires rest % q == (kInv * (d * t + r * u)) % q
    ensures ((kInv * l * (d % q + r * x)) % q + rest) % q == (kInv * (d * (l * 1 + t) + r * (l * x + u))) % q
  {
    AddMod(d, r * x, q);
    MulCong(kInv * l, kInv * l, d % q + r * x, d + r * x, q);
    ModMod(kInv * l * (d % q + r * x), q);
    AddCong((kInv * l * (d % q + r * x)) % q, kInv * l * (d + r * x), rest, kInv * (d * t + r * u), q);
    CollectTerms(kInv, d, r, l, x, t, u);
  }

  lemma CollectTerms(kInv: int, d: int, r: int, l: int, x: int, t: int, u: int)
    ensures kInv * l * (d + r * x) + kInv * (d * t + r * u) == kInv * (d * (l * 1 + t) + r * (l * x + u))
  {
    var a, b := l * (d + r * x), d * t + r * u;
    assert kInv * l * (d + r * x) == kInv * a;
    assert a == d * l + r * (l * x) by {
      assert l * (r * x) == r * (l * x);
    }
    assert d * (l + t) == d * l + d * t;
    assert r * (l * x + u) == r * (l * x) + r * u;
    assert kInv * (a + b) == kInv * a + kInv * b;
  }

  /**
   * The result of testing s: a signature exactly when s satisfies the ECDSA equation for the
   * public key x G, and an invalid-signature error exactly when it does not.
   */
  ghost predicate ResultFor(job: Job, x: int, presig: Presign.Presignature, s: nat, result: SignResult) {
    var holds := SignatureHolds(job.cv, x, job.digest, presig.r, s);
    && (result == InvalidSignature <==> !holds)
    && (result == Panicked <==> holds && presig.rPoint.log % job.cv.q == 0)
    && (holds && presig.rPoint.log % job.cv.q != 0 ==>
          result == Signed(presig.r, s, job.cv.recOf(presig.rPoint)))
  }

  lemma VerdictIs(job: Job, x: int, presig: Presign.Presignature, s: nat)
    requires job.publicKey == MulG(x, job.cv.q)
    ensures ResultFor(job, x, presig, s, Verdict(job, presig, s))
  {
    AcceptedIff(job.cv, x, job.digest, presig.r, s);
  }

  /** The result on arbitrary shares is that for their sum. */
  lemma OnlineSignResultIff(job: Job, x: int, presig: Presign.Presignature, own: nat, received: seq<nat>)
    requires job.publicKey == MulG(x, job.cv.q)
    ensures ResultFor(job, x, presig, (own + Sum(received)) % job.cv.q, SignSpec(job, presig, own, received))
  {
    VerdictIs(job, x, presig, (own + Sum(received)) % job.cv.q);
  }

  /**
   * Any number of signers with any shares, too few signers and altered shares included: they
   * all test the s of the value their shares reconstruct, whatever that is.
   */
  lemma AnySignersResult(job: Job, x: int, shares: seq<nat>, presig: Presign.Presignature, a: nat)
    requires job.cv.Valid() && LindellDkg.ValidSigners(job.signers, |shares|, job.cv.q) && a < |job.signers|
    requires job.publicKey == MulG(x, job.cv.q)
    ensures var y := LindellDkg.Reconstructed(job.signers, job.signers, shares, job.cv.q);
      ResultFor(job, x, presig, SignatureScalar(presig.kInv, job.digest, presig.r, y, job.cv.q),
        HonestSign(job, shares, presig, a))
  {
    var y := LindellDkg.Reconstructed(job.signers, job.signers, shares, job.cv.q);
    AnySharesAddUp(job, shares, presig);
    SumModWithout(AllShares(job, job.signers, shares, presig), a, job.cv.q);
    VerdictIs(job, x, presig, SignatureScalar(presig.kInv, job.digest, presig.r, y, job.cv.q));
  }

  /** Whatever the shares, the signers' shares of s add up to the s of the reconstructed value. */
  lemma AnySharesAddUp(job: Job, shares: seq<nat>, presig: Presign.Presignature)
    requires job.cv.Valid() && LindellDkg.ValidSigners(job.signers, |shares|, job.cv.q) && |job.signers| >= 1
    ensures Sum(AllShares(job, job.signers, shares, presig)) % job.cv.q
         == SignatureScalar(presig.kInv, job.digest, presig.r,
              LindellDkg.Reconstructed(job.signers, job.signers, shares, job.cv.q), job.cv.q)
  {
    var q := job.cv.q;
    var y := LindellDkg.Reconstructed(job.signers, job.signers, shares, q);
    SharesSum(job, job.signers, shares, presig);
    CoefficientsSumToOne(job.signers, q);
    SubstituteSums(presig.kInv, job.digest, presig.r, LagrangeSum(job.signers, job.signers, [1], q), y, y, q);
  }

  /** With interpolating coefficients the shares of s add up to k^-1 (z + r x). */
  lemma SharesAddUp(job: Job, shares: seq<nat>, f: seq<int>, t: nat, presig: Presign.Presignature)
    requires job.cv.Valid() && LindellDkg.ValidSigners(job.signers, |shares|, job.cv.q)
    requires |job.signers| >= t && |job.signers| >= 1 && LindellDkg.SharesOn(shares, f, t, job.cv.q)
    ensures Sum(AllShares(job, job.signers, shares, presig)) % job.cv.q
         == SignatureScalar(presig.kInv, job.digest, presig.r, PolyAt(f, 0), job.cv.q)
  {
    var q := job.cv.q;
    SharesSum(job, job.signers, shares, presig);
    CoefficientsSumToOne(job.signers, q);
    LindellDkg.SharesReconstruct(job.signers, shares, f, t, q);
    SubstituteSums(presig.kInv, job.digest, presig.r,
      LagrangeSum(job.signers, job.signers, [1], q),
      LindellDkg.Reconstructed(job.signers, job.signers, shares, q), PolyAt(f, 0), q);
  }

  lemma SubstituteSums(kInv: int, d: int, r: int, t: int, u: int, x: int, q: pos)
    requires q > 1 && t % q == 1 && u % q == x % q
    ensures (kInv * (d * t + r * u)) % q == (kInv * (d + r * x)) % q
  {
    ModSmall(1, q);
    MulCong(d, d, t, 1, q);
    MulCong(r, r, u, x, q);
    AddCong(d * t, d, r * u, r * x, q);
    MulCong(kInv, kInv, d * t + r * u, d + r * x, q);
  }

  /** All signers add the same total, so they all return the same verdict. */
  lemma EverySignerAgrees(job: Job, shares: seq<nat>, f: seq<int>, t: nat, presig: Presign.Presignature, a: nat)
    requires job.cv.Valid() && LindellDkg.ValidSigners(job.signers, |shares|, job.cv.q)
    requires |job.signers| >= t && a < |job.signers| && LindellDkg.SharesOn(shares, f, t, job.cv.q)
    ensures HonestSign(job, shares, presig, a)
         == Verdict(job, presig, SignatureScalar(presig.kInv, job.digest, presig.r, PolyAt(f, 0), job.cv.q))
  {
    SumModWithout(AllShares(job, job.signers, shares, presig), a, job.cv.q);
    SharesAddUp(job, shares, f, t, presig);
  }

  /** Online signing over a presignature of nonce k: everyone signs (r, k^-1 (z + r x)), accepted unless s is 0. */
  lemma OnlineSignCorrect(job: Job, shares: seq<nat>, f: seq<int>, t: nat, k: nat, a: nat)
    requires job.cv.Valid() && LindellDkg.ValidSigners(job.signers, |shares|, job.cv.q)
    requires |job.signers| >= t && a < |job.signers| && LindellDkg.SharesOn(shares, f, t, job.cv.q)
    requires k % job.cv.q != 0 && job.publicKey == MulG(PolyAt(f, 0), job.cv.q)
    ensures var q := job.cv.q;
      var r := job.cv.XCoord(MulG(k, q));
      var s := SignatureScalar(Inverse(k, q), job.digest, r, PolyAt(f, 0), q);
      HonestSign(job, shares, Presign.Presignature(k, Inverse(k, q), r, MulG(k, q)), a)
        == if s != 0 || r == job.cv.XCoord(IDENTITY) then Signed(r, s, job.cv.recOf(MulG(k, q))) else InvalidSignature
  {
    var q := job.cv.q;
    var r := job.cv.XCoord(MulG(k, q));
    EverySignerAgrees(job, shares, f, t, Presign.Presignature(k, Inverse(k, q), r, MulG(k, q)), a);
    HonestSignatureAcceptedIff(job.cv, PolyAt(f, 0), k, job.digest);
    ModMod(k, q);
  }

  // ---------------------------------------------------------------- keygen, presign and sign together

  /** What an honest key generation produces, for the polynomials drawn. */
  function KeyShares(kc: Keygen.Config, inputs: seq<Keygen.Input>): (r: seq<nat>)
    ensures |r| == kc.n
  {
    LindellDkg.DkgShares(Keygen.Polys(inputs), kc.n, kc.q)
  }

  function Secret(inputs: seq<Keygen.Input>): int {
    SumAt(Keygen.Polys(inputs), 0)
  }

  /** What an honest presigning run produces, for the nonce shares drawn. */
  function Nonce(pc: Presign.Config, inputs: seq<Presign.Input>): nat {
    Sum(Presign.Nonces(inputs)) % pc.cv.q
  }

  function SharedPresignature(pc: Presign.Config, inputs: seq<Presign.Input>): Presign.Presignature {
    var k, q := Nonce(pc, inputs), pc.cv.q;
    Presign.Presignature(k, Inverse(k, q), pc.cv.XCoord(MulG(k, q)), MulG(k, q))
  }

  ghost predicate AllRecordable(kc: Keygen.Config, inputs: seq<Keygen.Input>) {
    forall j :: 0 <= j < |inputs| ==> Keygen.HasRecordable(kc, inputs[j])
  }

  lemma KeygenPhase(kc: Keygen.Config, inputs: seq<Keygen.Input>, t: nat, i: nat)
    requires Keygen.HonestInputs(kc, inputs, t) && AllRecordable(kc, inputs) && i < kc.n
    ensures Keygen.HonestKeygen(kc, inputs, i)
         == Some(Keygen.Generated(KeyShares(kc, inputs)[i], MulG(Secret(inputs), kc.q), Keygen.Keys(inputs)))
  {
    Keygen.HonestKeygenResult(kc, inputs, t, i);
  }

  lemma PresignPhase(pc: Presign.Config, inputs: seq<Presign.Input>, b: nat)
    requires Presign.HonestInputs(pc, inputs) && b < |inputs| && Nonce(pc, inputs) != 0
    ensures Presign.HonestPresign(pc, inputs, b) == Presign.Presigned(SharedPresignature(pc, inputs))
  {
    Presign.NonceAgreement(pc, inputs, b);
  }

  lemma SignPhase(kc: Keygen.Config, kInputs: seq<Keygen.Input>, t: nat, pc: Presign.Config,
      pInputs: seq<Presign.Input>,
                  signers: seq<nat>, digest: nat, a: nat)
    requires pc.cv.Valid() && kc.q == pc.cv.q && Keygen.HonestInputs(kc, kInputs, t)
    requires LindellDkg.ValidSigners(signers, kc.n, kc.q) && |signers| >= t && a < |signers|
    requires Nonce(pc, pInputs) != 0
    ensures var cv := pc.cv;
      var presig := SharedPresignature(pc, pInputs);
      var s := SignatureScalar(presig.kInv, digest, presig.r, Secret(kInputs), cv.q);
      HonestSign(Job(cv, signers, MulG(Secret(kInputs), cv.q), digest), KeyShares(kc, kInputs), presig, a)
        == if s != 0 || presig.r == cv.XCoord(IDENTITY)
           then Signed(presig.r, s, cv.recOf(presig.rPoint)) else InvalidSignature
  {
    var polys := Keygen.Polys(kInputs);
    LindellDkg.DkgSharesOnPolynomial(polys, kc.n, t, kc.q);
    CombinedAt(polys, 0);
    ModMod(Sum(Presign.Nonces(pInputs)), kc.q);
    OnlineSignCorrect(Job(pc.cv, signers, MulG(Secret(kInputs), kc.q), digest), KeyShares(kc, kInputs),
        CombinedPoly(polys),
      if t <= 1 then 1 else t, Nonce(pc, pInputs), a);
  }

  /**
   * End to end, for any n parties, threshold t, any t or more distinct signers, digest and
   * draws: every party generates its share of one key, every signer presigns the same nonce,
   * and every signer returns the same signature (r, k^-1 (z + r x)), accepted exactly when s is
   * not 0 (or r is the x-coordinate reported for the identity).
   */
  lemma CggmpEndToEnd(kc: Keygen.Config, kInputs: seq<Keygen.Input>, t: nat, pc: Presign.Config,
      pInputs: seq<Presign.Input>,
                      signers: seq<nat>, digest: nat, i: nat, a: nat)
    requires kc.q == pc.cv.q && i < kc.n
    requires Keygen.HonestInputs(kc, kInputs, t) && AllRecordable(kc, kInputs)
    requires LindellDkg.ValidSigners(signers, kc.n, kc.q) && |signers| >= t && a < |signers| == |pInputs|
    requires Presign.HonestInputs(pc, pInputs) && Nonce(pc, pInputs) != 0
    ensures var cv, key, shares := pc.cv, MulG(Secret(kInputs), kc.q), KeyShares(kc, kInputs);
      var presig := SharedPresignature(pc, pInputs);
      var s := SignatureScalar(presig.kInv, digest, presig.r, Secret(kInputs), cv.q);
      && Keygen.HonestKeygen(kc, kInputs, i) == Some(Keygen.Generated(shares[i], key, Keygen.Keys(kInputs)))
      && Presign.HonestPresign(pc, pInputs, a) == Presign.Presigned(presig)
      && HonestSign(Job(cv, signers, key, digest), shares, presig, a)
           == if s != 0 || presig.r == cv.XCoord(IDENTITY)
              then Signed(presig.r, s, cv.recOf(presig.rPoint)) else InvalidSignature
  {
    KeygenPhase(kc, kInputs, t, i);
    PresignPhase(pc, pInputs, a);
    SignPhase(kc, kInputs, t, pc, pInputs, signers, digest, a);
  }
}
