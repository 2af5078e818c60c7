/** Lindell two-party signing: the three rounds of `run_sign`, and its end-to-end correctness. */
module LindellSign {
  import opened Arithmetic
  import opened Euclid
  import opened Primes
  import opened Wrappers
  import opened Group
  import opened Core
  import opened Rounds
  import opened Paillier
  import opened PaillierZk
  import opened Ecdsa
  import opened LindellDkg

  const CURVE_BITS: nat := 256

  datatype Round1Msg =
    | P1Data(point: Point, cKInv: int, pkN: pos, pkG: nat, rangeProof: RangeProof, consistencyProof: PointProof)
    | Ack1

  datatype Round2Msg = P2Data(cS2: int, mulProof: MulProof) | Ack2

  /** Round 3 carries the signature; parties other than P1 send empty byte strings. */
  datatype Round3Msg = Signature(r: nat, s: nat, recId: nat)

  datatype SignError =
    | NoP1Data | P1SentAck | RangeProofFailed | ConsistencyProofFailed
    | NoState | NoP2Data | P2SentAck | MulProofFailed
    | NoSignature | InvalidSignature

  datatype Result<+T> = Ok(value: T) | Err(error: SignError)

  datatype Oracles = Oracles(range: RangeTranscript -> Hash, consistency: PointTranscript -> Hash,
      mul: MulTranscript -> Hash)

  /** The arguments of `run_sign` for one party. */
  datatype Session = Session(cv: Curve, i: nat, n: nat, p1: nat, p2: nat, share: nat, publicKey: Point, digest: nat,
      h: Oracles) {
    function Signers(): seq<nat> { [p1, p2] }
    function Lambda(): nat { LagrangeCoeff(i, Signers(), cv.q) }
    ghost predicate Valid() { cv.Valid() && n >= 2 && i < n < cv.q && p1 < cv.q && p2 < cv.q }
  }

  /** What P1 draws: a Paillier key, the nonce and the randomness of its two proofs. */
  datatype P1Random = P1Random(kp: Keypair, k: nat, rho: nat, rangeAlpha: nat, rangeGamma: nat, consAlpha: nat,
      consGamma: nat)
  datatype P2Random = P2Random(rho: nat, mulT: nat, mulRho: nat)
  datatype P1State = P1State(sk: PrivateKey, pk: PublicKey, k: nat, kInv: nat, cKInv: nat)

  // ---------------------------------------------------------------- received messages

  /** `into_iter_indexed().find(..)`: a party's list has no entry for itself. */
  function FromSender<T>(i: nat, msgs: seq<T>, sender: nat): Option<T> {
    if sender == i || sender > |msgs| then None
    else if sender < i then (if sender < |msgs| then Some(msgs[sender]) else None)
    else Some(msgs[sender - 1])
  }

  method FindFromSender<T>(i: nat, msgs: seq<T>, sender: nat) returns (r: Option<T>)
    requires i <= |msgs|
    ensures r == FromSender(i, msgs, sender)
  {
    for k := 0 to |msgs|
      invariant forall l :: 0 <= l < k ==> Peer(i, l) != sender
    {
      if Peer(i, k) == sender {
        return Some(msgs[k]);
      }
    }
    assert sender != i && sender <= |msgs| ==> Peer(i, if sender < i then sender else sender - 1) == sender;
    return None;
  }

  lemma FromSenderOfWithout<T>(all: seq<T>, i: nat, sender: nat)
    requires i < |all| && sender < |all|
    ensures FromSender(i, Without(all, i), sender) == if sender == i then None else Some(all[sender])
  {
  }

  // ---------------------------------------------------------------- the rounds

  function P1Start(e: Session, rnd: P1Random): P1State {
    var kInv := Inverse(rnd.k, e.cv.q);
    P1State(rnd.kp.sk, rnd.kp.pk, rnd.k, kInv, EncryptWithRho(rnd.kp.pk, kInv, rnd.rho))
  }

  function P1Round1(e: Session, rnd: P1Random): Round1Msg {
    var st := P1Start(e, rnd);
    var point := MulG(rnd.k, e.cv.q);
    P1Data(point, st.cKInv, st.pk.n, st.pk.g,
      ProveRange(st.pk, st.cKInv, st.kInv, rnd.rho, CURVE_BITS, e.h.range, rnd.rangeAlpha, rnd.rangeGamma),
      ProveConsistency(st.pk, st.kInv, rnd.rho, st.cKInv, point, e.h.consistency, rnd.consAlpha, rnd.consGamma, e.cv.q))
  }

  /** P2's multiplier: its coefficient times (z + r share). */
  function MulScalar(e: Session, r: nat): nat {
    (e.Lambda() * (e.digest % e.cv.q + r * e.share)) % e.cv.q
  }

  function P2Round2(e: Session, rnd: P2Random, msgs1: seq<Round1Msg>): Result<Round2Msg> {
    var found: Option<Round1Msg> := FromSender(e.i, msgs1, e.p1);
    match found
    case None => Err(NoP1Data)
    case Some(Ack1) => Err(P1SentAck)
    case Some(P1Data(point, cKInv, pkN, pkG, rangeProof, consistencyProof)) =>
      MulPos(pkN, pkN);
      var pk := PublicKey(pkN, pkN * pkN, pkG);
      if !VerifyRange(pk, cKInv, CURVE_BITS, e.h.range, rangeProof) then Err(RangeProofFailed)
      else if !VerifyConsistency(pk, cKInv, point, e.h.consistency, consistencyProof, e.cv.q)
      then Err(ConsistencyProofFailed)
      else
        var scalar := MulScalar(e, e.cv.XCoord(point));
        var cS2 := MulCipher(pk, cKInv, scalar, rnd.rho);
        Ok(P2Data(cS2, ProveMul(pk, cKInv, cS2, scalar, rnd.rho, e.h.mul, rnd.mulT, rnd.mulRho)))
  }

  /** P1 decrypts P2's contribution and adds its own. */
  function P1Combine(e: Session, st: P1State, cS2: int): Round3Msg {
    var q := e.cv.q;
    var s2 := Decrypt(st.sk, st.pk, cS2) % q;
    var point := MulG(st.k, q);
    var r := e.cv.XCoord(point);
    var partial := (e.Lambda() * st.kInv * (e.digest % q + r * e.share)) % q;
    Signature(r, (partial + s2) % q, e.cv.recOf(point))
  }

  function P1Round3(e: Session, state: Option<P1State>, msgs2: seq<Round2Msg>): Result<Round3Msg> {
    match state
    case None => Err(NoState)
    case Some(st) =>
      var found: Option<Round2Msg> := FromSender(e.i, msgs2, e.p2);
      match found
      case None => Err(NoP2Data)
      case Some(Ack2) => Err(P2SentAck)
      case Some(P2Data(cS2, mulProof)) =>
        if !VerifyMul(st.pk, st.cKInv, cS2, CURVE_BITS, e.h.mul, mulProof) then Err(MulProofFailed)
        else Ok(P1Combine(e, st, cS2))
  }

  function CheckSignature(e: Session, sig: Round3Msg): Result<Round3Msg> {
    if VerifySignature(e.cv, e.publicKey, e.digest, sig.r, sig.s) then Ok(sig) else Err(InvalidSignature)
  }

  function ReceiveSignature(e: Session, msgs3: seq<Round3Msg>): Result<Round3Msg> {
    match FromSender(e.i, msgs3, e.p1)
    case None => Err(NoSignature)
    case Some(sig) => CheckSignature(e, sig)
  }

  /** One party of `run_sign`; `p1State` is the only state carried from round 1 to round 3. */
  class SignParty {
    const e: Session
    var p1State: Option<P1State>
    var signature: Option<Round3Msg>

    constructor (e: Session)
      ensures this.e == e && p1State == None && signature == None
    {
      this.e := e;
      p1State := None;
      signature := None;
    }

    method Round1(rnd: P1Random) returns (msg: Round1Msg)
      requires e.Valid() && p1State == None && IsPrime(e.cv.q) && 0 < rnd.k < e.cv.q
      modifies this`p1State
      ensures e.i == e.p1 ==> msg == P1Round1(e, rnd) && p1State == Some(P1Start(e, rnd))
      ensures e.i != e.p1 ==> msg == Ack1 && p1State == None
    {
      if e.i != e.p1 {
        return Ack1;
      }
      var kInv := ModInv(rnd.k, e.cv.q);
      var point := MulG(rnd.k, e.cv.q);
      var pk := rnd.kp.pk;
      var cKInv := EncryptWithRho(pk, kInv, rnd.rho);
      var rangeProof := ProveRange(pk, cKInv, kInv, rnd.rho, CURVE_BITS, e.h.range, rnd.rangeAlpha, rnd.rangeGamma);
      var consistencyProof :=
        ProveConsistency(pk, kInv, rnd.rho, cKInv, point, e.h.consistency, rnd.consAlpha, rnd.consGamma, e.cv.q);
      p1State := Some(P1State(rnd.kp.sk, pk, rnd.k, kInv, cKInv));
      msg := P1Data(point, cKInv, pk.n, pk.g, rangeProof, consistencyProof);
    }

    method Round2(rnd: P2Random, msgs1: seq<Round1Msg>) returns (r: Result<Round2Msg>)
      requires e.Valid() && |msgs1| == e.n - 1
      ensures r == if e.i == e.p2 then P2Round2(e, rnd, msgs1) else Ok(Ack2)
    {
      if e.i != e.p2 {
        return Ok(Ack2);
      }
      var found := FindFromSender(e.i, msgs1, e.p1);
      match found {
        case None => return Err(NoP1Data);
        case Some(Ack1) => return Err(P1SentAck);
        case Some(P1Data(point, cKInv, pkN, pkG, rangeProof, consistencyProof)) =>
          MulPos(pkN, pkN);
          var pk := PublicKey(pkN, pkN * pkN, pkG);
          if !VerifyRange(pk, cKInv, CURVE_BITS, e.h.range, rangeProof) {
            return Err(RangeProofFailed);
          }
          if !VerifyConsistency(pk, cKInv, point, e.h.consistency, consistencyProof, e.cv.q) {
            return Err(ConsistencyProofFailed);
          }
          var coefficient := ComputeLagrangeCoeff(e.i, e.Signers(), e.cv.q);
          var x := e.cv.XCoord(point);
          var scalar := (coefficient * (e.digest % e.cv.q + x * e.share)) % e.cv.q;
          var cS2 := MulCipher(pk, cKInv, scalar, rnd.rho);
          return Ok(P2Data(cS2, ProveMul(pk, cKInv, cS2, scalar, rnd.rho, e.h.mul, rnd.mulT, rnd.mulRho)));
      }
    }

    /** P1 broadcasts the signature before checking it; the others broadcast an empty one. */
    method Round3(msgs2: seq<Round2Msg>) returns (r: Result<Round3Msg>)
      requires e.Valid() && |msgs2| == e.n - 1
      modifies this`signature
      ensures r == if e.i == e.p1 then P1Round3(e, p1State, msgs2) else Ok(Signature(0, 0, 0))
      ensures signature == if e.i == e.p1 && r.Ok? then Some(r.value) else old(signature)
    {
      if e.i != e.p1 {
        return Ok(Signature(0, 0, 0));
      }
      if p1State == None {
        return Err(NoState);
      }
      var st := p1State.value;
      var found := FindFromSender(e.i, msgs2, e.p2);
      match found {
        case None => return Err(NoP2Data);
        case Some(Ack2) => return Err(P2SentAck);
        case Some(P2Data(cS2, mulProof)) =>
          if !VerifyMul(st.pk, st.cKInv, cS2, CURVE_BITS, e.h.mul, mulProof) {
            return Err(MulProofFailed);
          }
          var q := e.cv.q;
          var s2 := Decrypt(st.sk, st.pk, cS2) % q;
          var lambda1 := ComputeLagrangeCoeff(e.i, e.Signers(), q);
          var point := MulG(st.k, q);
          var x := e.cv.XCoord(point);
          var partial := (lambda1 * st.kInv * (e.digest % q + x * e.share)) % q;
          signature := Some(Signature(x, (partial + s2) % q, e.cv.recOf(point)));
          return Ok(signature.value);
      }
    }

    method Finish(msgs3: seq<Round3Msg>) returns (r: Result<Round3Msg>)
      requires e.Valid() && |msgs3| == e.n - 1
      requires e.i == e.p1 ==> signature.Some?
      ensures r == if e.i == e.p1 then CheckSignature(e, signature.value) else ReceiveSignature(e, msgs3)
    {
      if e.i == e.p1 {
        if !VerifySignature(e.cv, e.publicKey, e.digest, signature.value.r, signature.value.s) {
          return Err(InvalidSignature);
        }
        return Ok(signature.value);
      }
      var found := FindFromSender(e.i, msgs3, e.p1);
      match found {
        case None => return Err(NoSignature);
        case Some(sig) =>
          if !VerifySignature(e.cv, e.publicKey, e.digest, sig.r, sig.s) {
            return Err(InvalidSignature);
          }
          return Ok(sig);
      }
    }
  }

  /** What party i broadcasts in round 2, or the error it stops with. */
  function OwnRound2(e: Session, rnd2: P2Random, msgs1: seq<Round1Msg>): Result<Round2Msg> {
    if e.i == e.p2 then P2Round2(e, rnd2, msgs1) else Ok(Ack2)
  }

  /** What party i broadcasts in round 3, or the error it stops with. */
  function OwnRound3(e: Session, rnd: P1Random, msgs2: seq<Round2Msg>): Result<Round3Msg> {
    if e.i == e.p1 then P1Round3(e, Some(P1Start(e, rnd)), msgs2) else Ok(Signature(0, 0, 0))
  }

  /** The result of `run_sign` for one party on the messages its three rounds deliver. */
  function SignSpec(e: Session, rnd: P1Random, rnd2: P2Random, msgs1: seq<Round1Msg>, msgs2: seq<Round2Msg>,
      msgs3: seq<Round3Msg>): Result<Round3Msg> {
    match OwnRound2(e, rnd2, msgs1)
    case Err(error) => Err(error)
    case Ok(_) =>
      match OwnRound3(e, rnd, msgs2)
      case Err(error) => Err(error)
      case Ok(sig) => if e.i == e.p1 then CheckSignature(e, sig) else ReceiveSignature(e, msgs3)
  }

  /** `run_sign`: the rounds in order; a party that errs sends nothing more. */
  method RunSign(e: Session, rnd: P1Random, rnd2: P2Random, msgs1: seq<Round1Msg>, msgs2: seq<Round2Msg>,
      msgs3: seq<Round3Msg>)
    returns (sent1: Round1Msg, sent2: Option<Round2Msg>, sent3: Option<Round3Msg>, result: Result<Round3Msg>)
    requires e.Valid() && 0 < rnd.k < e.cv.q
    requires |msgs1| == |msgs2| == |msgs3| == e.n - 1
    ensures sent1 == if e.i == e.p1 then P1Round1(e, rnd) else Ack1
    ensures sent2 == match OwnRound2(e, rnd2, msgs1) case Ok(m) => Some(m) case Err(_) => None
    ensures sent3 == if sent2.None? then None
      else match OwnRound3(e, rnd, msgs2) case Ok(m) => Some(m) case Err(_) => None
    ensures result == SignSpec(e, rnd, rnd2, msgs1, msgs2, msgs3)
  {
    var party := new SignParty(e);
    sent1 := party.Round1(rnd);
    sent2, sent3 := None, None;
    var r2 := party.Round2(rnd2, msgs1);
    if r2.Err? {
      return sent1, sent2, sent3, Err(r2.error);
    }
    sent2 := Some(r2.value);
    var r3 := party.Round3(msgs2);
    if r3.Err? {
      return sent1, sent2, sent3, r3;
    }
    sent3 := Some(r3.value);
    result := party.Finish(msgs3);
  }

  // ---------------------------------------------------------------- honest runs

  /** The common inputs of all parties: every party i has the session `For(i)`. */
  datatype Run = Run(cv: Curve, n: nat, p1: nat, p2: nat, shares: seq<nat>, publicKey: Point, digest: nat, h: Oracles) {
    function For(i: nat): Session
      requires i < |shares|
    {
      Session(cv, i, n, p1, p2, shares[i], publicKey, digest, h)
    }
  }

  /** What the honest parties broadcast in each round; a party that failed earlier sends nothing. */
  function Broadcast1(run: Run, rnd: P1Random): (r: seq<Round1Msg>)
    requires run.p1 < run.n == |run.shares|
    ensures |r| == run.n
  {
    seq(run.n, j => if j == run.p1 then P1Round1(run.For(run.p1), rnd) else Ack1)
  }

  function P2Message(run: Run, rnd: P1Random, rnd2: P2Random): Result<Round2Msg>
    requires run.p1 < run.n == |run.shares| && run.p2 < run.n
  {
    P2Round2(run.For(run.p2), rnd2, Without(Broadcast1(run, rnd), run.p2))
  }

  function Broadcast2(run: Run, p2msg: Round2Msg): (r: seq<Round2Msg>)
    ensures |r| == run.n
  {
    seq(run.n, j => if j == run.p2 then p2msg else Ack2)
  }

  function P1Message(run: Run, rnd: P1Random, rnd2: P2Random): Result<Round3Msg>
    requires run.p1 < run.n == |run.shares| && run.p2 < run.n
  {
    match P2Message(run, rnd, rnd2)
    case Err(error) => Err(error)
    case Ok(m2) =>
      var e := run.For(run.p1);
      P1Round3(e, Some(P1Start(e, rnd)), Without(Broadcast2(run, m2), run.p1))
  }

  function Broadcast3(run: Run, sig: Round3Msg): (r: seq<Round3Msg>)
    ensures |r| == run.n
  {
    seq(run.n, j => if j == run.p1 then sig else Signature(0, 0, 0))
  }

  /** The result of party i in an honest run: `run_sign` on exactly the others' broadcasts. */
  function HonestSign(run: Run, rnd: P1Random, rnd2: P2Random, i: nat): Result<Round3Msg>
    requires run.p1 < run.n == |run.shares| && run.p2 < run.n && i < run.n
  {
    match P2Message(run, rnd, rnd2)
    case Err(error) => Err(error)
    case Ok(m2) =>
      match P1Message(run, rnd, rnd2)
      case Err(error) => Err(error)
      case Ok(sig) =>
        SignSpec(run.For(i), rnd, rnd2,
          Without(Broadcast1(run, rnd), i), Without(Broadcast2(run, m2), i), Without(Broadcast3(run, sig), i))
  }

  /** Once P1 sends sig, party i's result is its check of sig. */
  lemma HonestSignIs(run: Run, rnd: P1Random, rnd2: P2Random, i: nat, sig: Round3Msg)
    requires run.p1 < run.n == |run.shares| && run.p2 < run.n && run.p1 != run.p2 && i < run.n
    requires P1Message(run, rnd, rnd2) == Ok(sig)
    ensures HonestSign(run, rnd, rnd2, i)
         == if i == run.p1 then CheckSignature(run.For(i), sig)
            else ReceiveSignature(run.For(i), Without(Broadcast3(run, sig), i))
  {
  }

  /** The inputs of an honest run: distinct signers and shares of x on a polynomial with at most two coefficients. */
  ghost predicate HonestInputs(run: Run, f: seq<int>) {
    && run.cv.Valid() && run.cv.q <= TWO_256
    && 2 <= run.n == |run.shares| && run.n < run.cv.q
    && run.p1 < run.n && run.p2 < run.n && run.p1 != run.p2
    && SharesOn(run.shares, f, 2, run.cv.q)
    && run.publicKey == MulG(PolyAt(f, 0), run.cv.q)
  }

  /** The draws stay in the ranges the code uses, and the Paillier randomness is invertible. */
  ghost predicate HonestDraws(run: Run, rnd: P1Random, rnd2: P2Random) {
    && ValidKey(rnd.kp) && 0 < rnd.k < run.cv.q
    && Unit(rnd.kp, rnd.rho) && Unit(rnd.kp, rnd2.rho)
    && rnd.rangeAlpha < Pow(2, CURVE_BITS + 256 + Bits(rnd.kp.pk.n))
    && rnd2.mulT < Pow(2, CURVE_BITS + 256)
  }

  lemma ScalarFitsBound(v: nat, q: pos, n: nat)
    requires v < q <= TWO_256
    ensures v <= Pow(2, CURVE_BITS + Bits(n))
  {
    var b: nat :| b == CURVE_BITS;
    TwoTo256(b);
    TwoPowMonotone(b, b + Bits(n));
  }

  lemma HonestNonceInverse(run: Run, f: seq<int>, rnd: P1Random, rnd2: P2Random)
    requires HonestInputs(run, f) && HonestDraws(run, rnd, rnd2)
    ensures var kInv := Inverse(rnd.k, run.cv.q);
      (rnd.k * kInv) % run.cv.q == 1 && MulPoint(MulG(rnd.k, run.cv.q), kInv, run.cv.q) == MulG(1, run.cv.q)
  {
    var q := run.cv.q;
    ModSmall(rnd.k, q);
    PrimeInverse(q, rnd.k);
    MulPointOfG(rnd.k, Inverse(rnd.k, q), q);
    ModSmall(1, q);
  }

  /** Both of P1's proofs pass P2's checks. */
  lemma P1ProofsPass(run: Run, f: seq<int>, rnd: P1Random, rnd2: P2Random)
    requires HonestInputs(run, f) && HonestDraws(run, rnd, rnd2)
    ensures var m := P1Round1(run.For(run.p1), rnd);
      && VerifyRange(rnd.kp.pk, m.cKInv, CURVE_BITS, run.h.range, m.rangeProof)
      && VerifyConsistency(rnd.kp.pk, m.cKInv, m.point, run.h.consistency, m.consistencyProof, run.cv.q)
  {
    var n := rnd.kp.pk.n;
    var kInv := Inverse(rnd.k, run.cv.q);
    ScalarFitsBound(kInv, run.cv.q, n);
    HonestNonceInverse(run, f, rnd, rnd2);
    RangeComplete(n, kInv, rnd.rho, CURVE_BITS, run.h.range, rnd.rangeAlpha, rnd.rangeGamma);
    ConsistencyAcceptsIff(n, kInv, rnd.rho, MulG(rnd.k, run.cv.q), run.h.consistency, rnd.consAlpha, rnd.consGamma,
        run.cv.q);
  }

  /** The r of the signature, P2's multiplier and the ciphertext P2 answers with. */
  function SignatureR(run: Run, rnd: P1Random): nat {
    run.cv.XCoord(MulG(rnd.k, run.cv.q))
  }

  function RecoveryId(run: Run, rnd: P1Random): nat {
    run.cv.recOf(MulG(rnd.k, run.cv.q))
  }

  function Multiplier(run: Run, rnd: P1Random): nat
    requires run.p2 < |run.shares|
  {
    MulScalar(run.For(run.p2), SignatureR(run, rnd))
  }

  function NonceCipher(run: Run, rnd: P1Random): nat {
    EncryptWithRho(rnd.kp.pk, Inverse(rnd.k, run.cv.q), rnd.rho)
  }

  function Answer(run: Run, rnd: P1Random, rnd2: P2Random): nat
    requires run.p2 < |run.shares|
  {
    MulCipher(rnd.kp.pk, NonceCipher(run, rnd), Multiplier(run, rnd), rnd2.rho)
  }

  function AnswerProof(run: Run, rnd: P1Random, rnd2: P2Random): MulProof
    requires run.p2 < |run.shares|
  {
    ProveMul(rnd.kp.pk, NonceCipher(run, rnd), Answer(run, rnd, rnd2), Multiplier(run, rnd), rnd2.rho, run.h.mul,
        rnd2.mulT, rnd2.mulRho)
  }

  /** P2's round-2 message in an honest run. */
  lemma P2MessageIs(run: Run, f: seq<int>, rnd: P1Random, rnd2: P2Random)
    requires HonestInputs(run, f) && HonestDraws(run, rnd, rnd2)
    ensures P2Message(run, rnd, rnd2) == Ok(P2Data(Answer(run, rnd, rnd2), AnswerProof(run, rnd, rnd2)))
  {
    KeyFacts(rnd.kp);
    P1ProofsPass(run, f, rnd, rnd2);
    FromSenderOfWithout(Broadcast1(run, rnd), run.p2, run.p1);
  }

  lemma AnswerProofPasses(run: Run, f: seq<int>, rnd: P1Random, rnd2: P2Random)
    requires HonestInputs(run, f) && HonestDraws(run, rnd, rnd2)
    ensures VerifyMul(rnd.kp.pk, NonceCipher(run, rnd), Answer(run, rnd, rnd2), CURVE_BITS, run.h.mul,
        AnswerProof(run, rnd, rnd2))
  {
    ScalarFitsBound(Multiplier(run, rnd), run.cv.q, rnd.kp.pk.n);
    MulComplete(rnd.kp.pk.n, NonceCipher(run, rnd), Multiplier(run, rnd), rnd2.rho, CURVE_BITS, run.h.mul, rnd2.mulT,
        rnd2.mulRho);
  }

  /** P1 gets past every check of round 3 and sends its combination. */
  lemma P1MessageIs(run: Run, f: seq<int>, rnd: P1Random, rnd2: P2Random)
    requires HonestInputs(run, f) && HonestDraws(run, rnd, rnd2)
    ensures P1Message(run, rnd, rnd2)
         == Ok(P1Combine(run.For(run.p1), P1Start(run.For(run.p1), rnd), Answer(run, rnd, rnd2)))
  {
    var m2 := P2Data(Answer(run, rnd, rnd2), AnswerProof(run, rnd, rnd2));
    P2MessageIs(run, f, rnd, rnd2);
    FromSenderOfWithout(Broadcast2(run, m2), run.p1, run.p2);
    AnswerProofPasses(run, f, rnd, rnd2);
  }

  lemma MulCipherEncodes(kp: Keypair, c: int, m: nat, scalar: nat, rho: nat)
    requires ValidKey(kp) && Encodes(kp, c, m) && Unit(kp, rho)
    ensures Encodes(kp, MulCipher(kp.pk, c, scalar, rho), m * scalar)
  {
    KeyFacts(kp);
    var cs, z := ModPow(c, scalar, kp.pk.nSq), EncryptWithRho(kp.pk, 0, rho);
    EncryptEncodes(kp, 0, rho);
    ModMod(Pow(c, scalar), kp.pk.nSq);
    PowEncodings(kp, c, m, scalar, cs);
    ModMod(cs * z, kp.pk.nSq);
    MulEncodings(kp, cs, m * scalar, z, 0, MulCipher(kp.pk, c, scalar, rho));
  }

  /** The integer P1 decrypts is the product of the nonce inverse and P2's multiplier, modulo n. */
  lemma DecryptedProduct(run: Run, rnd: P1Random, rnd2: P2Random)
    requires run.p2 < |run.shares| && HonestDraws(run, rnd, rnd2)
    ensures Decrypt(rnd.kp.sk, rnd.kp.pk, Answer(run, rnd, rnd2))
         == (Inverse(rnd.k, run.cv.q) * Multiplier(run, rnd)) % rnd.kp.pk.n
  {
    var kInv := Inverse(rnd.k, run.cv.q);
    EncryptEncodes(rnd.kp, kInv, rnd.rho);
    MulCipherEncodes(rnd.kp, NonceCipher(run, rnd), kInv, Multiplier(run, rnd), rnd2.rho);
    DecryptEncoding(rnd.kp, Answer(run, rnd, rnd2), kInv * Multiplier(run, rnd));
  }

  /** a b (z + r x) with the digest reduced. */
  lemma ReducedDigest(l: int, d: int, w: int, q: pos)
    ensures (l * (d % q + w)) % q == (l * (d + w)) % q
  {
    AddMod(d, w, q);
    MulCong(l, l, d % q + w, d + w, q);
  }

  /** The two parties' contributions add up to k^-1 (z + r x) because the coefficients interpolate. */
  lemma ContributionsAddUp(kInv: int, z: int, r: int, l1: int, x1: int, l2: int, x2: int, x: int, q: pos)
    requires q > 1 && (l1 + l2) % q == 1 && (l1 * x1 + l2 * x2) % q == x % q
    ensures (l1 * kInv * (z + r * x1) + kInv * (l2 * (z + r * x2))) % q == (kInv * (z + r * x)) % q
  {
    var a, b := l1 + l2, l1 * x1 + l2 * x2;
    ModSmall(1, q);
    MulCong(z, z, a, 1, q);
    MulCong(r, r, b, x, q);
    AddCong(z * a, z, r * b, r * x, q);
    MulCong(kInv, kInv, z * a + r * b, z + r * x, q);
    CollectContributions(kInv, z, r, l1, x1, l2, x2);
  }

  lemma CollectContributions(kInv: int, z: int, r: int, l1: int, x1: int, l2: int, x2: int)
    ensures l1 * kInv * (z + r * x1) + kInv * (l2 * (z + r * x2)) == kInv * (z * (l1 + l2) + r * (l1 * x1 + l2 * x2))
  {
    Spread(l1, z, r, x1);
    Spread(l2, z, r, x2);
    assert l1 * kInv * (z + r * x1) == kInv * (l1 * (z + r * x1));
    assert z * (l1 + l2) == z * l1 + z * l2;
    assert r * (l1 * x1 + l2 * x2) == r * (l1 * x1) + r * (l2 * x2);
    var a, b := l1 * (z + r * x1), l2 * (z + r * x2);
    assert kInv * a + kInv * b == kInv * (a + b);
  }

  lemma Spread(l: int, z: int, r: int, x: int)
    ensures l * (z + r * x) == z * l + r * (l * x)
  {
    assert l * (r * x) == r * (l * x);
  }

  lemma PairInterpolates(run: Run, f: seq<int>)
    requires HonestInputs(run, f)
    ensures var q, s := run.cv.q, [run.p1, run.p2];
      var l1, l2 := LagrangeCoeff(run.p1, s, q), LagrangeCoeff(run.p2, s, q);
      && (l1 + l2) % q == 1
      && (l1 * run.shares[run.p1] + l2 * run.shares[run.p2]) % q == PolyAt(f, 0) % q
  {
    var q, s := run.cv.q, [run.p1, run.p2];
    CoefficientsSumToOne(s, q);
    SharesReconstruct(s, run.shares, f, 2, q);
    PairSum(run.p1, run.p2, q);
    PairReconstructed(run.p1, run.p2, run.shares, q);
  }

  lemma PairSum(a: nat, b: nat, q: pos)
    ensures LagrangeSum([a, b], [a, b], [1], q) == LagrangeCoeff(a, [a, b], q) + LagrangeCoeff(b, [a, b], q)
  {
    var s := [a, b];
    assert s[1..] == [b] && [b][1..] == [];
    ConstantOne(a + 1);
    ConstantOne(b + 1);
    assert LagrangeSum([], s, [1], q) == 0;
    assert LagrangeSum([b], s, [1], q) == LagrangeCoeff(b, s, q);
  }

  lemma PairReconstructed(a: nat, b: nat, shares: seq<nat>, q: pos)
    requires a < |shares| && b < |shares|
    ensures Reconstructed([a, b], [a, b], shares, q)
         == LagrangeCoeff(a, [a, b], q) * shares[a] + LagrangeCoeff(b, [a, b], q) * shares[b]
  {
    var s := [a, b];
    assert s[1..] == [b] && [b][1..] == [];
    assert Reconstructed([], s, shares, q) == 0;
    assert Reconstructed([b], s, shares, q) == LagrangeCoeff(b, s, q) * shares[b];
  }

  /** The s that P1 adds up, for a value s2 decrypted from P2's answer. */
  function SumFor(run: Run, rnd: P1Random, s2: int): nat
    requires run.p1 < |run.shares|
  {
    (Partial(run, rnd) + s2) % run.cv.q
  }

  /** P1's own contribution. */
  function Partial(run: Run, rnd: P1Random): nat
    requires run.p1 < |run.shares|
  {
    var e := run.For(run.p1);
    (e.Lambda() * Inverse(rnd.k, run.cv.q) * (run.digest % run.cv.q + SignatureR(run, rnd) * e.share)) % run.cv.q
  }

  function Product(run: Run, rnd: P1Random): nat
    requires run.p2 < |run.shares|
  {
    Inverse(rnd.k, run.cv.q) * Multiplier(run, rnd)
  }

  lemma CombineIs(run: Run, rnd: P1Random, c: int)
    requires run.p1 < |run.shares|
    ensures P1Combine(run.For(run.p1), P1Start(run.For(run.p1), rnd), c)
         == Signature(SignatureR(run, rnd),
              (Partial(run, rnd) + Decrypt(rnd.kp.sk, rnd.kp.pk, c) % run.cv.q) % run.cv.q,
              RecoveryId(run, rnd))
  {
  }

  /** The signature P1 sends in an honest run. */
  lemma P1SignatureIs(run: Run, f: seq<int>, rnd: P1Random, rnd2: P2Random)
    requires HonestInputs(run, f) && HonestDraws(run, rnd, rnd2)
    ensures P1Message(run, rnd, rnd2)
         == Ok(Signature(SignatureR(run, rnd), SumFor(run, rnd, Product(run, rnd) % rnd.kp.pk.n), RecoveryId(run, rnd)))
  {
    P1MessageIs(run, f, rnd, rnd2);
    CombineIs(run, rnd, Answer(run, rnd, rnd2));
    DecryptedProduct(run, rnd, rnd2);
    AddMod(Partial(run, rnd), Product(run, rnd) % rnd.kp.pk.n, run.cv.q);
  }

  /** The signing equation holds for the sum when s2 is the unreduced product. */
  lemma SumOfProduct(run: Run, f: seq<int>, rnd: P1Random)
    requires HonestInputs(run, f)
    ensures SumFor(run, rnd, Product(run, rnd))
         == SignatureScalar(Inverse(rnd.k, run.cv.q), run.digest, SignatureR(run, rnd), PolyAt(f, 0), run.cv.q)
  {
    var q, kInv, d, r := run.cv.q, Inverse(rnd.k, run.cv.q), run.digest, SignatureR(run, rnd);
    var x1, x2 := run.shares[run.p1], run.shares[run.p2];
    var l1, l2 := run.For(run.p1).Lambda(), run.For(run.p2).Lambda();
    PairInterpolates(run, f);
    SumOfParts(kInv, d, r, l1, x1, l2, x2, PolyAt(f, 0), q);
  }

  /** The same with every value a variable: P1 reduces its part, P2 its multiplier. */
  lemma SumOfParts(kInv: int, d: int, r: int, l1: int, x1: int, l2: int, x2: int, x: int, q: pos)
    requires q > 1 && (l1 + l2) % q == 1 && (l1 * x1 + l2 * x2) % q == x % q
    ensures ((l1 * kInv * (d % q + r * x1)) % q + kInv * ((l2 * (d % q + r * x2)) % q)) % q == (kInv * (d + r * x)) % q
  {
    var multiplier := (l2 * (d % q + r * x2)) % q;
    ReducedDigest(l1 * kInv, d, r * x1, q);
    AddMod(l1 * kInv * (d + r * x1), kInv * multiplier, q);
    ReducedDigest(l2, d, r * x2, q);
    ModMod(l2 * (d % q + r * x2), q);
    MulCong(kInv, kInv, multiplier, l2 * (d + r * x2), q);
    AddCong(l1 * kInv * (d + r * x1), l1 * kInv * (d + r * x1), kInv * multiplier, kInv * (l2 * (d + r * x2)), q);
    ContributionsAddUp(kInv, d, r, l1, x1, l2, x2, x, q);
  }

  /** Reducing modulo n first is harmless modulo q exactly when q divides n or the number of wraps. */
  lemma WrapIff(product: nat, n: pos, q: pos)
    requires IsPrime(q)
    ensures (product % n) % q == product % q <==> n % q == 0 || (product / n) % q == 0
  {
    var w := product / n;
    assert product == product % n + w * n;
    SubZero(product, product % n, q);
    assert product - product % n == w * n;
    if (w * n) % q == 0 { NoZeroDivisors(q, w, n); }
    ModSmall(0, q);
    if n % q == 0 { MulCong(w, w, n, 0, q); }
    if w % q == 0 { MulCong(w, 0, n, n, q); }
  }

  lemma NoWrapIff(product: nat, n: pos, q: pos)
    requires n >= q && product < q * n
    ensures (product / n) % q == 0 <==> product < n
  {
    if product >= n {
      QuotientBelow(product, n, q);
      ModSmall(product / n, q);
    } else {
      ModUnique(product, 0, product, n);
      ModSmall(0, q);
    }
  }

  lemma QuotientBelow(product: nat, n: pos, q: pos)
    requires n <= product < q * n
    ensures 1 <= product / n < q
  {
    var w := product / n;
    assert w * n <= product < w * n + n;
    assert (w - q) * n == w * n - q * n;
    MulSign(w - q, n);
    MulSign(w, n);
  }

  lemma FactorBound(a: nat, b: nat, q: pos)
    requires a < q && b < q
    ensures a * b <= (q - 1) * (q - 1)
  {
    MonotoneProduct(a, q - 1, b, q - 1);
  }

  /**
   * What P1 sends, for every Paillier key: always the nonce's x-coordinate, and the signing
   * equation's s exactly when q divides n or the number of times the product of nonce inverse
   * and multiplier wrapped modulo n. For n >= q and not a multiple of q: when it did not wrap.
   */
  lemma P1SignatureCorrectIff(run: Run, f: seq<int>, rnd: P1Random, rnd2: P2Random)
    requires HonestInputs(run, f) && HonestDraws(run, rnd, rnd2)
    ensures P1Message(run, rnd, rnd2).Ok?
    ensures var sig, target := P1Message(run, rnd, rnd2).value, TargetSignature(run, f, rnd);
      var q, n, product := run.cv.q, rnd.kp.pk.n, Product(run, rnd);
      && sig.r == target.r && sig.recId == target.recId
      && (sig.s == target.s <==> n % q == 0 || (product / n) % q == 0)
      && (n >= q && n % q != 0 ==> (sig.s == target.s <==> product < n))
  {
    P1SignatureIs(run, f, rnd, rnd2);
    SumOfProduct(run, f, rnd);
    SumUnwrappedIff(run, rnd);
  }

  lemma SumUnwrappedIff(run: Run, rnd: P1Random)
    requires IsPrime(run.cv.q) && run.p1 < |run.shares| && run.p2 < |run.shares|
    ensures var q, n, product := run.cv.q, rnd.kp.pk.n, Product(run, rnd);
      && (SumFor(run, rnd, product % n) == SumFor(run, rnd, product) <==> n % q == 0 || (product / n) % q == 0)
      && (n >= q && n % q != 0 ==>
           (SumFor(run, rnd, product % n) == SumFor(run, rnd, product) <==> product < n))
  {
    var q, n, product := run.cv.q, rnd.kp.pk.n, Product(run, rnd);
    WrapIff(product, n, q);
    AddLeftCancel(Partial(run, rnd), product % n, product, q);
    if n >= q {
      FactorBound(Inverse(rnd.k, q), Multiplier(run, rnd), q);
      SquareBelow(q, n);
      NoWrapIff(product, n, q);
    }
  }

  lemma SquareBelow(q: pos, n: pos)
    requires n >= q
    ensures (q - 1) * (q - 1) < q * n
  {
    MonotoneProduct(q - 1, q, q - 1, n);
    assert q * n == q * (n - 1) + q;
    MonotoneProduct(q - 1, q, q - 1, n - 1);
  }

  /** The signature an honest run aims at. */
  function TargetSignature(run: Run, f: seq<int>, rnd: P1Random): Round3Msg {
    Signature(SignatureR(run, rnd),
      SignatureScalar(Inverse(rnd.k, run.cv.q), run.digest, SignatureR(run, rnd), PolyAt(f, 0), run.cv.q),
      RecoveryId(run, rnd))
  }

  /**
   * End to end: in every honest run with a Paillier modulus above (q-1)^2 no check fails, and
   * every party returns the signature (r, k^-1 (z + r x)), accepted exactly when s is not 0
   * (or r is the x-coordinate reported for the identity).
   */
  lemma LindellEndToEnd(run: Run, f: seq<int>, rnd: P1Random, rnd2: P2Random, i: nat)
    requires HonestInputs(run, f) && HonestDraws(run, rnd, rnd2) && i < run.n
    requires rnd.kp.pk.n > (run.cv.q - 1) * (run.cv.q - 1)
    ensures var sig := TargetSignature(run, f, rnd);
      HonestSign(run, rnd, rnd2, i)
        == if sig.s != 0 || sig.r == run.cv.XCoord(IDENTITY) then Ok(sig) else Err(InvalidSignature)
  {
    var sig := TargetSignature(run, f, rnd);
    P1SignatureIs(run, f, rnd, rnd2);
    FactorBound(Inverse(rnd.k, run.cv.q), Multiplier(run, rnd), run.cv.q);
    ModSmall(Product(run, rnd), rnd.kp.pk.n);
    SumOfProduct(run, f, rnd);
    EveryoneReturns(run, f, rnd, rnd2, i, sig);
  }

  /** Once P1 sends sig, every party returns the verdict of `verify_signature` on it. */
  lemma EveryoneReturns(run: Run, f: seq<int>, rnd: P1Random, rnd2: P2Random, i: nat, sig: Round3Msg)
    requires HonestInputs(run, f) && HonestDraws(run, rnd, rnd2) && i < run.n
    requires P1Message(run, rnd, rnd2) == Ok(sig) && sig == TargetSignature(run, f, rnd)
    ensures HonestSign(run, rnd, rnd2, i)
         == if sig.s != 0 || sig.r == run.cv.XCoord(IDENTITY) then Ok(sig) else Err(InvalidSignature)
  {
    ModSmall(rnd.k, run.cv.q);
    HonestSignatureAcceptedIff(run.cv, PolyAt(f, 0), rnd.k, run.digest);
    FromSenderOfWithout(Broadcast3(run, sig), i, run.p1);
    HonestSignIs(run, rnd, rnd2, i, sig);
  }

  /** The same over keys from an honest `run_dkg` with threshold at most 2. */
  lemma DkgThenSign(run: Run, polys: seq<seq<nat>>, t: nat, rnd: P1Random, rnd2: P2Random, i: nat)
    requires run.cv.Valid() && run.cv.q <= TWO_256 && 2 <= run.n < run.cv.q && t <= 2
    requires run.p1 < run.n && run.p2 < run.n && run.p1 != run.p2 && i < run.n
    requires HonestPolys(polys, run.n, t)
    requires run.shares == DkgShares(polys, run.n, run.cv.q) && run.publicKey == MulG(SumAt(polys, 0), run.cv.q)
    requires HonestDraws(run, rnd, rnd2) && rnd.kp.pk.n > (run.cv.q - 1) * (run.cv.q - 1)
    ensures var sig := TargetSignature(run, CombinedPoly(polys), rnd);
      HonestSign(run, rnd, rnd2, i)
        == if sig.s != 0 || sig.r == run.cv.XCoord(IDENTITY) then Ok(sig) else Err(InvalidSignature)
  {
    DkgSharesOnPolynomial(polys, run.n, t, run.cv.q);
    LindellEndToEnd(run, CombinedPoly(polys), rnd, rnd2, i);
  }

  /** The target depends on the shared secret only, not on the polynomial the shares lie on. */
  lemma TargetDependsOnSecret(run: Run, f: seq<int>, other: seq<nat>, g: seq<int>, rnd: P1Random)
    requires PolyAt(g, 0) == PolyAt(f, 0)
    ensures TargetSignature(run.(shares := other), g, rnd) == TargetSignature(run, f, rnd)
  {
  }

  /**
   * Refreshing changes no signature: after any number of honest refreshes of a key with
   * threshold at most 2, every party returns what `DkgThenSign` gives for the old shares.
   */
  lemma RefreshThenSign(run: Run, polys: seq<seq<nat>>, t: nat, runs: seq<seq<seq<nat>>>, commit: CommitOracle,
                        rnd: P1Random, rnd2: P2Random, i: nat)
    requires run.cv.Valid() && run.cv.q <= TWO_256 && 2 <= run.n < run.cv.q && 1 <= t <= 2
    requires run.p1 < run.n && run.p2 < run.n && run.p1 != run.p2 && i < run.n
    requires HonestPolys(polys, run.n, t) && HonestRefreshes(runs, run.n, t)
    requires run.shares == DkgShares(polys, run.n, run.cv.q) && run.publicKey == MulG(SumAt(polys, 0), run.cv.q)
    requires HonestDraws(run, rnd, rnd2) && rnd.kp.pk.n > (run.cv.q - 1) * (run.cv.q - 1)
    ensures var refreshed := RefreshRuns(run.shares, runs, run.publicKey, run.cv.q, commit);
      var sig := TargetSignature(run, CombinedPoly(polys), rnd);
      refreshed.Some? && HonestSign(run.(shares := refreshed.value), rnd, rnd2, i)
        == if sig.s != 0 || sig.r == run.cv.XCoord(IDENTITY) then Ok(sig) else Err(InvalidSignature)
  {
    var f := CombinedPoly(polys);
    DkgSharesOnPolynomial(polys, run.n, t, run.cv.q);
    var g := RefreshKeepsSecret(run.shares, f, runs, t, run.publicKey, run.cv.q, commit);
    var refreshed := RefreshRuns(run.shares, runs, run.publicKey, run.cv.q, commit).value;
    LindellEndToEnd(run.(shares := refreshed), g, rnd, rnd2, i);
    TargetDependsOnSecret(run, f, refreshed, g, rnd);
  }
}
