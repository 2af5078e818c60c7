/**
 * What `run_sign` returns on arbitrary messages: every check is shown to reject exactly what it
 * must, and the result of every party of an honest run is given for any Paillier modulus.
 */
module LindellOutcome {
  import opened Arithmetic
  import opened Euclid
  import opened Primes
  import opened Wrappers
  import opened Group
  import opened Core
  import opened Rounds
  import opened Paillier
  import opened PaillierZk
  import opened Ecdsa
  import opened LindellSign
  import ProofMeaning

  /** A message is found for a sender exactly when it stands at that sender's place. */
  lemma FromSenderMeans<T>(i: nat, msgs: seq<T>, sender: nat, v: T)
    requires i <= |msgs|
    ensures FromSender(i, msgs, sender) == Some(v) <==>
      exists k: nat :: k < |msgs| && Peer(i, k) == sender && msgs[k] == v
    ensures FromSender(i, msgs, sender) == None <==> forall k: nat :: k < |msgs| ==> Peer(i, k) != sender
  {
    var place := if sender < i then sender else sender - 1;
    if sender != i && sender <= |msgs| {
      assert Peer(i, place) == sender;
    }
  }

  // ---------------------------------------------------------------- P2's round

  /** P2 stops with the first check that fails, and answers exactly when both hold. */
  lemma P2Outcome(e: Session, rnd: P2Random, msgs1: seq<Round1Msg>, m: Round1Msg, pk: PublicKey)
    requires FromSender(e.i, msgs1, e.p1) == Some(m)
    requires m.P1Data? ==> pk.n == m.pkN && pk.nSq == m.pkN * m.pkN && pk.g == m.pkG
    ensures P2Round2(e, rnd, msgs1) == Result.Err(P1SentAck) <==> m.Ack1?
    ensures m.P1Data? ==>
      var range := VerifyRange(pk, m.cKInv, CURVE_BITS, e.h.range, m.rangeProof);
      var consistent := VerifyConsistency(pk, m.cKInv, m.point, e.h.consistency, m.consistencyProof, e.cv.q);
      && (P2Round2(e, rnd, msgs1) == Result.Err(RangeProofFailed) <==> !range)
      && (P2Round2(e, rnd, msgs1) == Result.Err(ConsistencyProofFailed) <==> range && !consistent)
      && (P2Round2(e, rnd, msgs1).Ok? <==> range && consistent)
  {
  }

  /** The errors of round 2 name its own checks only. */
  lemma P2Errors(e: Session, rnd: P2Random, msgs1: seq<Round1Msg>)
    ensures P2Round2(e, rnd, msgs1).Err? ==>
      P2Round2(e, rnd, msgs1).error in {NoP1Data, P1SentAck, RangeProofFailed, ConsistencyProofFailed}
    ensures P2Round2(e, rnd, msgs1) == Result.Err(NoP1Data) <==> FromSender(e.i, msgs1, e.p1).None?
  {
  }

  /**
   * What an answer of P2 means for any sender with a valid key: the two proof equations bind
   * the plaintext m, and the answer encodes m times P2's multiplier.
   */
  lemma P2AnswerMeans(e: Session, rnd: P2Random, msgs1: seq<Round1Msg>, msg: Round1Msg, kp: Keypair, m: nat, a: nat,
      b: nat)
    requires FromSender(e.i, msgs1, e.p1) == Some(msg) && msg.P1Data? && P2Round2(e, rnd, msgs1).Ok?
    requires ValidKey(kp) && kp.pk.n == msg.pkN && kp.pk.g == msg.pkG && Encodes(kp, msg.cKInv, m) && Unit(kp, rnd.rho)
    requires Encodes(kp, msg.rangeProof.cAlpha, a) && Unit(kp, msg.rangeProof.s)
    requires Encodes(kp, msg.consistencyProof.cAlpha, b) && Unit(kp, msg.consistencyProof.s)
    ensures var eR := e.h.range(RangeTranscript(kp.pk.n, kp.pk.g, CURVE_BITS, msg.cKInv, msg.rangeProof.cAlpha));
      (a + eR * m) % kp.pk.n == msg.rangeProof.z % kp.pk.n
    ensures var proof := msg.consistencyProof;
      var eC := e.h.consistency(PointTranscript(kp.pk.n, kp.pk.g, msg.cKInv, msg.point, proof.a, proof.cAlpha));
      && (b + eC * m) % kp.pk.n == proof.z % kp.pk.n
      && (msg.point.log * proof.z) % e.cv.q == (proof.a.log + eC) % e.cv.q
    ensures var answer := P2Round2(e, rnd, msgs1).value;
      answer.P2Data? && Encodes(kp, answer.cS2, m * MulScalar(e, e.cv.XCoord(msg.point)))
  {
    KeyFacts(kp);
    P2Outcome(e, rnd, msgs1, msg, kp.pk);
    ProofMeaning.RangeMeans(kp, msg.cKInv, m, CURVE_BITS, e.h.range, msg.rangeProof, a);
    ProofMeaning.ConsistencyMeans(kp, msg.cKInv, m, msg.point, e.h.consistency, msg.consistencyProof, b, e.cv.q);
    AnswerEncodes(e, rnd, msgs1, msg, kp, m);
  }

  lemma AnswerEncodes(e: Session, rnd: P2Random, msgs1: seq<Round1Msg>, msg: Round1Msg, kp: Keypair, m: nat)
    requires FromSender(e.i, msgs1, e.p1) == Some(msg) && msg.P1Data? && P2Round2(e, rnd, msgs1).Ok?
    requires ValidKey(kp) && kp.pk.n == msg.pkN && kp.pk.g == msg.pkG && Unit(kp, rnd.rho)
    requires Encodes(kp, msg.cKInv, m)
    ensures var answer := P2Round2(e, rnd, msgs1).value;
      answer.P2Data? && Encodes(kp, answer.cS2, m * MulScalar(e, e.cv.XCoord(msg.point)))
  {
    MulCipherOf(kp, msg.cKInv, m, MulScalar(e, e.cv.XCoord(msg.point)), rnd.rho);
  }

  lemma MulCipherOf(kp: Keypair, c: int, m: nat, scalar: nat, rho: nat)
    requires ValidKey(kp) && Encodes(kp, c, m) && Unit(kp, rho)
    ensures Encodes(kp, MulCipher(kp.pk, c, scalar, rho), m * scalar)
  {
    MulCipherEncodes(kp, c, m, scalar, rho);
  }

  // ---------------------------------------------------------------- P1's round

  lemma P1Outcome(e: Session, st: P1State, msgs2: seq<Round2Msg>)
    ensures P1Round3(e, None, msgs2) == Result.Err(NoState)
    ensures P1Round3(e, Some(st), msgs2) == Result.Err(NoP2Data) <==> FromSender(e.i, msgs2, e.p2).None?
    ensures P1Round3(e, Some(st), msgs2) == Result.Err(P2SentAck) <==> FromSender(e.i, msgs2, e.p2) == Some(Ack2)
    ensures P1Round3(e, Some(st), msgs2) == Result.Err(MulProofFailed) <==>
      var found: Option<Round2Msg> := FromSender(e.i, msgs2, e.p2);
      found.Some? && found.value.P2Data? &&
      !VerifyMul(st.pk, st.cKInv, found.value.cS2, CURVE_BITS, e.h.mul, found.value.mulProof)
    ensures P1Round3(e, Some(st), msgs2).Err? ==>
      P1Round3(e, Some(st), msgs2).error in {NoP2Data, P2SentAck, MulProofFailed}
  {
  }

  /**
   * What P1 sends for an arbitrary answer that encodes m: the multiplication proof's equation
   * binds m, and s is P1's own part plus m modulo n.
   */
  lemma P1SendsMeans(e: Session, kp: Keypair, st: P1State, msgs2: seq<Round2Msg>, cS2: int, proof: MulProof, kInv: nat,
      m: nat, t: nat)
    requires ValidKey(kp) && st.pk == kp.pk && st.sk == kp.sk && Encodes(kp, st.cKInv, kInv)
    requires FromSender(e.i, msgs2, e.p2) == Some(P2Data(cS2, proof)) && P1Round3(e, Some(st), msgs2).Ok?
    requires Encodes(kp, cS2, m) && Encodes(kp, proof.cT, t) && Unit(kp, proof.s)
    ensures var eM := e.h.mul(MulTranscript(kp.pk.n, kp.pk.g, st.cKInv, cS2, proof.cT));
      (t + eM * m) % kp.pk.n == (kInv * proof.z) % kp.pk.n
    ensures var sig, point := P1Round3(e, Some(st), msgs2).value, MulG(st.k, e.cv.q);
      && sig.r == e.cv.XCoord(point) && sig.recId == e.cv.recOf(point)
      && sig.s == (e.Lambda() * st.kInv * (e.digest % e.cv.q + sig.r * e.share) + m % kp.pk.n) % e.cv.q
  {
    ProofMeaning.MulMeans(kp, st.cKInv, kInv, cS2, m, CURVE_BITS, e.h.mul, proof, t);
    CombinedFor(e, kp, st, cS2, m);
  }

  lemma CombinedFor(e: Session, kp: Keypair, st: P1State, cS2: int, m: nat)
    requires ValidKey(kp) && st.pk == kp.pk && st.sk == kp.sk && Encodes(kp, cS2, m)
    ensures var sig, point := P1Combine(e, st, cS2), MulG(st.k, e.cv.q);
      && sig.r == e.cv.XCoord(point) && sig.recId == e.cv.recOf(point)
      && sig.s == (e.Lambda() * st.kInv * (e.digest % e.cv.q + sig.r * e.share) + m % kp.pk.n) % e.cv.q
  {
    DecryptEncoding(kp, cS2, m);
    var sig := P1Combine(e, st, cS2);
    AddMod(e.Lambda() * st.kInv * (e.digest % e.cv.q + sig.r * e.share), m % kp.pk.n, e.cv.q);
  }

  // ---------------------------------------------------------------- the signature under test

  /** The signature party i verifies at the end, when its own rounds did not fail and it has one. */
  function Tested(e: Session, rnd: P1Random, rnd2: P2Random, msgs1: seq<Round1Msg>, msgs2: seq<Round2Msg>,
      msgs3: seq<Round3Msg>): Option<Round3Msg>
  {
    if OwnRound2(e, rnd2, msgs1).Err? || OwnRound3(e, rnd, msgs2).Err? then None
    else if e.i == e.p1 then Some(OwnRound3(e, rnd, msgs2).value)
    else FromSender(e.i, msgs3, e.p1)
  }

  /**
   * The result of `run_sign` on arbitrary messages: a party returns a signature exactly when it
   * has one and it satisfies the ECDSA equation for the public key, and reports an invalid
   * signature exactly when it has one that does not.
   */
  lemma SignResultIff(e: Session, x: int, rnd: P1Random, rnd2: P2Random, msgs1: seq<Round1Msg>, msgs2: seq<Round2Msg>,
      msgs3: seq<Round3Msg>)
    requires e.publicKey == MulG(x, e.cv.q)
    ensures var tested := Tested(e, rnd, rnd2, msgs1, msgs2, msgs3);
      var result := SignSpec(e, rnd, rnd2, msgs1, msgs2, msgs3);
      && (result.Ok? <==> tested.Some? && SignatureHolds(e.cv, x, e.digest, tested.value.r, tested.value.s))
      && (result.Ok? ==> result.value == tested.value)
      && (result == Result.Err(InvalidSignature) <==>
            tested.Some? && !SignatureHolds(e.cv, x, e.digest, tested.value.r, tested.value.s))
  {
    P2Errors(e, rnd2, msgs1);
    P1Outcome(e, P1Start(e, rnd), msgs2);
    var tested := Tested(e, rnd, rnd2, msgs1, msgs2, msgs3);
    if tested.Some? { CheckIff(e, x, tested.value); }
  }

  lemma CheckIff(e: Session, x: int, sig: Round3Msg)
    requires e.publicKey == MulG(x, e.cv.q)
    ensures CheckSignature(e, sig)
         == if SignatureHolds(e.cv, x, e.digest, sig.r, sig.s) then Result.Ok(sig) else Result.Err(InvalidSignature)
  {
    AcceptedIff(e.cv, x, e.digest, sig.r, sig.s);
  }

  /** A party that is neither P1 nor P2 acknowledges both rounds and tests what P1 sends. */
  lemma BystanderTests(e: Session, rnd: P1Random, rnd2: P2Random, msgs1: seq<Round1Msg>, msgs2: seq<Round2Msg>,
      msgs3: seq<Round3Msg>)
    requires e.i != e.p1 && e.i != e.p2
    ensures OwnRound2(e, rnd2, msgs1) == Result.Ok(Ack2) && OwnRound3(e, rnd, msgs2) == Result.Ok(Signature(0, 0, 0))
    ensures Tested(e, rnd, rnd2, msgs1, msgs2, msgs3) == FromSender(e.i, msgs3, e.p1)
    ensures SignSpec(e, rnd, rnd2, msgs1, msgs2, msgs3) == Result.Err(NoSignature) <==>
      FromSender(e.i, msgs3, e.p1).None?
  {
  }

  /** What P1 sends: its own part plus the product modulo n. */
  function SentSignature(run: Run, rnd: P1Random): Round3Msg
    requires run.p1 < |run.shares| && run.p2 < |run.shares|
  {
    Signature(SignatureR(run, rnd), SumFor(run, rnd, Product(run, rnd) % rnd.kp.pk.n), RecoveryId(run, rnd))
  }

  /**
   * Every party's result in an honest run with any Paillier key: P1's combination of its part
   * with the product modulo n, if that satisfies the ECDSA equation, and an error otherwise.
   */
  lemma EveryPartyResult(run: Run, f: seq<int>, rnd: P1Random, rnd2: P2Random, i: nat)
    requires HonestInputs(run, f) && HonestDraws(run, rnd, rnd2) && i < run.n
    ensures var sig := SentSignature(run, rnd);
      HonestSign(run, rnd, rnd2, i)
        == if SignatureHolds(run.cv, PolyAt(f, 0), run.digest, sig.r, sig.s) then Result.Ok(sig)
           else Result.Err(InvalidSignature)
  {
    var sig := SentSignature(run, rnd);
    P1SignatureIs(run, f, rnd, rnd2);
    HonestSignIs(run, rnd, rnd2, i, sig);
    FromSenderOfWithout(Broadcast3(run, sig), i, run.p1);
    CheckIff(run.For(i), PolyAt(f, 0), sig);
  }
}
