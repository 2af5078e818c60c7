/** CGGMP21 key generation (`run_keygen`): Blum proofs, committed polynomials, encrypted shares. */
module CggmpKeygen {
  import opened Arithmetic
  import opened Primes
  import opened Wrappers
  import opened Group
  import opened Core
  import opened Rounds
  import opened Paillier
  import opened PaillierZk
  import opened Blum
  import opened LindellDkg
  import ProofMeaning

  datatype Round1Msg = Round1Msg(paillierN: nat, blumProof: BlumProof)
  datatype Round3Msg = Round3Msg(nonce: nat, points: seq<Point>, encryptedShares: seq<(int, PointProof)>,
      schnorrProof: SchnorrProof)

  /** The hash functions of one session. */
  datatype Oracles = Oracles(
    blum: nat -> (nat -> Hash),
    commit: CommitOracle,
    withNonce: (Digest, nat) -> Digest,
    schnorr: SchnorrTranscript -> Hash,
    log: PointTranscript -> Hash)

  /** Curve order, number of parties, number of Blum challenges (128 in the code) and hashes. */
  datatype Config = Config(q: pos, n: nat, iterations: nat, h: Oracles)

  datatype ShareRandom = ShareRandom(rho: nat, alpha: nat, gamma: nat)

  /** What one party draws. */
  datatype Input = Input(kp: Keypair, coeffs: seq<nat>, nonce: nat, schnorrAlpha: nat,
      shareRandom: nat -> ShareRandom) {
    ghost predicate Valid() {
      ValidKey(kp) && kp.p % 4 == 3 && kp.q % 4 == 3 && |coeffs| > 0
    }
  }

  datatype KeygenError = BlumProofFailed | VssCommitmentMismatch | SchnorrProofFailed | LogProofFailed | KeygenPanicked

  datatype KeygenResult =
    | Generated(ecShare: nat, publicKey: Point, peerPks: seq<PublicKey>)
    | Failed(error: KeygenError)

  // ---------------------------------------------------------------- what a party sends

  function Round1(c: Config, input: Input): Round1Msg {
    var n := input.kp.pk.n;
    Round1Msg(n, ProofPrefix(input.kp.p, input.kp.q, n, c.h.blum(n), c.iterations))
  }

  function Round2(c: Config, i: nat, input: Input): Digest {
    c.h.withNonce(c.h.commit(i, Commitments(input.coeffs, c.q)), input.nonce)
  }

  /** The share for `peer`, encrypted to the peer's key, with its log proof. */
  function EncryptShare(c: Config, input: Input, peer: nat, pk: PublicKey): (int, PointProof) {
    var rnd := input.shareRandom(peer);
    var share := ShareFor(input.coeffs, peer, c.q);
    var point := ExponentAt(Commitments(input.coeffs, c.q), peer + 1, c.q);
    var cipher := EncryptWithRho(pk, share, rnd.rho);
    (cipher, ProveLog(pk, cipher, share, rnd.rho, point, c.h.log, rnd.alpha, rnd.gamma, c.q))
  }

  /** The skip-self list of encrypted shares: entry k is for `Peer(i, k)`. */
  function EncryptedShares(c: Config, i: nat, input: Input, peerPks: seq<PublicKey>): (r: seq<(int, PointProof)>)
    requires |peerPks| == c.n > 0
    ensures |r| == c.n - 1
  {
    seq(c.n - 1, k requires 0 <= k < c.n - 1 => EncryptShare(c, input, Peer(i, k), peerPks[Peer(i, k)]))
  }

  function Round3(c: Config, i: nat, input: Input, peerPks: seq<PublicKey>): Round3Msg
    requires |peerPks| == c.n > 0
  {
    var secret := Constant(input.coeffs);
    Round3Msg(input.nonce, Commitments(input.coeffs, c.q), EncryptedShares(c, i, input, peerPks),
      ProveSchnorr(secret, MulG(secret, c.q), c.h.schnorr, input.schnorrAlpha, c.q))
  }

  // ---------------------------------------------------------------- what a party checks

  /** `verify_blum` on a decoded modulus; an even modulus, zero included, fails its first test. */
  predicate BlumAccepted(c: Config, msg: Round1Msg) {
    msg.paillierN > 0 && VerifySpec(msg.paillierN, c.h.blum(msg.paillierN), msg.blumProof)
  }

  predicate AllBlumAccepted(c: Config, msgs1: seq<Round1Msg>) {
    forall k :: 0 <= k < |msgs1| ==> BlumAccepted(c, msgs1[k])
  }

  function KeyAt(c: Config, i: nat, own: PublicKey, msgs1: seq<Round1Msg>, j: nat): PublicKey
    requires |msgs1| == c.n - 1 && i < c.n && j < c.n && AllBlumAccepted(c, msgs1)
  {
    if j == i then own
    else
      var k := if j < i then j else j - 1;
      assert BlumAccepted(c, msgs1[k]);
      PublicKeyOf(msgs1[k].paillierN)
  }

  /** `peer_paillier_pks` after round 1. */
  function PeerKeys(c: Config, i: nat, own: PublicKey, msgs1: seq<Round1Msg>): (r: seq<PublicKey>)
    requires |msgs1| == c.n - 1 && i < c.n && AllBlumAccepted(c, msgs1)
    ensures |r| == c.n
  {
    seq(c.n, j requires 0 <= j < c.n => KeyAt(c, i, own, msgs1, j))
  }

  /** The receiver's index rule for the sender's skip-self list. */
  function EncIndex(i: nat, sender: nat): nat
    requires i != sender
  {
    if sender < i then i - 1 else i
  }

  /** The index rule inverts the sender's skip-self loop: it selects the entry made for party i. */
  lemma EncIndexSelectsOwnEntry(i: nat, sender: nat, n: nat)
    requires i < n && sender < n && i != sender
    ensures EncIndex(i, sender) < n - 1 && Peer(sender, EncIndex(i, sender)) == i
    ensures forall k: nat :: k < n - 1 && Peer(sender, k) == i ==> k == EncIndex(i, sender)
  {
  }

  /** The checks of one round-3 message, in the order the loop makes them. */
  function CheckMessage(c: Config, i: nat, pk: PublicKey, sender: nat, digest: Digest,
      msg: Round3Msg): Option<KeygenError>
    requires i != sender
  {
    if c.h.withNonce(c.h.commit(sender, msg.points), msg.nonce) != digest then Some(VssCommitmentMismatch)
    else if |msg.points| == 0 then Some(KeygenPanicked)
    else if !VerifySchnorr(msg.points[0], c.h.schnorr, msg.schnorrProof, c.q) then Some(SchnorrProofFailed)
    else if EncIndex(i, sender) >= |msg.encryptedShares| then Some(KeygenPanicked)
    else
      var (cipher, proof) := msg.encryptedShares[EncIndex(i, sender)];
      if !VerifyLog(pk, cipher, ExponentAt(msg.points, i + 1, c.q), c.h.log, proof, c.q) then Some(LogProofFailed)
      else None
  }

  /** The outcome of every round-3 message, in the order party i visits them. */
  function Outcomes(c: Config, i: nat, pk: PublicKey, digests: seq<Digest>,
      msgs3: seq<Round3Msg>): (r: seq<Option<KeygenError>>)
    requires |digests| == |msgs3|
    ensures |r| == |msgs3|
  {
    seq(|msgs3|, k requires 0 <= k < |msgs3| => CheckMessage(c, i, pk, Peer(i, k), digests[k], msgs3[k]))
  }

  function DecryptedShare(c: Config, i: nat, kp: Keypair, sender: nat, msg: Round3Msg): nat
    requires i != sender
  {
    if EncIndex(i, sender) < |msg.encryptedShares| then
      Decrypt(kp.sk, kp.pk, msg.encryptedShares[EncIndex(i, sender)].0) % c.q
    else 0
  }

  function DecryptedShares(c: Config, i: nat, kp: Keypair, msgs3: seq<Round3Msg>): (r: seq<nat>)
    ensures |r| == |msgs3|
  {
    seq(|msgs3|, k requires 0 <= k < |msgs3| => DecryptedShare(c, i, kp, Peer(i, k), msgs3[k]))
  }

  function PointLists(msgs3: seq<Round3Msg>): (r: seq<seq<Point>>)
    ensures |r| == |msgs3|
  {
    seq(|msgs3|, k requires 0 <= k < |msgs3| => msgs3[k].points)
  }

  function KeygenSpec(c: Config, i: nat, input: Input, msgs1: seq<Round1Msg>, digests: seq<Digest>,
      msgs3: seq<Round3Msg>): KeygenResult
    requires i < c.n && |msgs1| == |digests| == |msgs3| == c.n - 1
  {
    if !AllBlumAccepted(c, msgs1) then Failed(BlumProofFailed)
    else CombineSpec(c, i, input, PeerKeys(c, i, input.kp.pk, msgs1), digests, msgs3)
  }

  function CombineSpec(c: Config, i: nat, input: Input, peerPks: seq<PublicKey>, digests: seq<Digest>,
      msgs3: seq<Round3Msg>): KeygenResult
    requires |digests| == |msgs3|
  {
    Verdict(c, i, input.coeffs, peerPks, Outcomes(c, i, input.kp.pk, digests, msgs3),
      DecryptedShares(c, i, input.kp, msgs3), Heads(PointLists(msgs3)))
  }

  /** The result from the messages' outcomes, the decrypted shares and the peers' constant terms. */
  function Verdict(c: Config, i: nat, coeffs: seq<nat>, peerPks: seq<PublicKey>,
                   outcomes: seq<Option<KeygenError>>, shares: seq<nat>, heads: seq<int>): KeygenResult {
    var error := FirstSome(outcomes, |outcomes|);
    if error.Some? then Failed(error.value)
    else Generated(SumMod(ShareFor(coeffs, i, c.q), shares, c.q), Point(SumMod(Constant(coeffs), heads, c.q)), peerPks)
  }

  /** The round-1 loop: every Blum proof is verified and every key stored under its sender. */
  method CheckBlumProofs(c: Config, i: nat, own: PublicKey, msgs1: seq<Round1Msg>)
    returns (ok: bool, peerPks: seq<Option<PublicKey>>)
    requires i < c.n && |msgs1| == c.n - 1
    ensures ok <==> AllBlumAccepted(c, msgs1)
    ensures ok ==> |peerPks| == c.n && forall j :: 0 <= j < c.n ==> peerPks[j] == Some(KeyAt(c, i, own, msgs1, j))
  {
    peerPks := seq(c.n, _ => None);
    peerPks := peerPks[i := Some(own)];
    for k := 0 to |msgs1|
      invariant |peerPks| == c.n && peerPks[i] == Some(own)
      invariant forall l :: 0 <= l < k ==> BlumAccepted(c, msgs1[l])
      invariant forall l :: 0 <= l < k ==> peerPks[Peer(i, l)] == Some(PublicKeyOf(msgs1[l].paillierN))
    {
      var sender := Peer(i, k);
      var n := msgs1[k].paillierN;
      if n == 0 {
        return false, peerPks;
      }
      var verified := VerifyBlum(n, c.h.blum(n), msgs1[k].blumProof);
      if !verified {
        return false, peerPks;
      }
      peerPks := peerPks[sender := Some(PublicKeyOf(n))];
    }
    ok := true;
    forall j | 0 <= j < c.n
      ensures peerPks[j] == Some(KeyAt(c, i, own, msgs1, j))
    {
      if j != i { assert j == Peer(i, if j < i then j else j - 1); }
    }
  }

  /** The loop that encrypts one share per peer, skipping the party itself. */
  method EncryptAllShares(c: Config, i: nat, input: Input, shares: seq<nat>, peerPks: seq<PublicKey>)
    returns (encrypted: seq<(int, PointProof)>)
    requires i < c.n == |shares| == |peerPks|
    requires forall j :: 0 <= j < c.n ==> shares[j] == ShareFor(input.coeffs, j, c.q)
    ensures encrypted == EncryptedShares(c, i, input, peerPks)
  {
    encrypted := [];
    var commitments := Commitments(input.coeffs, c.q);
    for peer := 0 to c.n
      invariant |encrypted| == if peer <= i then peer else peer - 1
      invariant forall k :: 0 <= k < |encrypted| ==>
        encrypted[k] == EncryptShare(c, input, Peer(i, k), peerPks[Peer(i, k)])
    {
      if peer == i {
        continue;
      }
      var pk := peerPks[peer];
      var rnd := input.shareRandom(peer);
      var point := EvaluateInExponent(commitments, peer + 1, c.q);
      var cipher := EncryptWithRho(pk, shares[peer], rnd.rho);
      encrypted := encrypted +
        [(cipher, ProveLog(pk, cipher, shares[peer], rnd.rho, point, c.h.log, rnd.alpha, rnd.gamma, c.q))];
    }
  }

  /** The round-3 loop: checks each message, adds its constant term and its decrypted share. */
  method Combine(c: Config, i: nat, kp: Keypair, ownShare: nat, ownPoint: Point, digests: seq<Digest>,
      msgs3: seq<Round3Msg>)
    returns (error: Option<KeygenError>, combinedShare: nat, publicKey: Point)
    requires |digests| == |msgs3| && ownShare < c.q && ownPoint.log < c.q
    ensures error == FirstSome(Outcomes(c, i, kp.pk, digests, msgs3), |msgs3|)
    ensures error.None? ==> combinedShare == SumMod(ownShare, DecryptedShares(c, i, kp, msgs3), c.q)
    ensures error.None? ==> publicKey == Point(SumMod(ownPoint.log, Heads(PointLists(msgs3)), c.q))
  {
    combinedShare, publicKey := ownShare, ownPoint;
    ghost var outcomes := Outcomes(c, i, kp.pk, digests, msgs3);
    NothingAccumulated(c, i, kp, ownShare, ownPoint, msgs3);
    for k := 0 to |msgs3|
      invariant FirstSome(outcomes, k) == None
      invariant Accumulated(c, i, kp, ownShare, ownPoint, msgs3, k, combinedShare, publicKey)
    {
      error := CheckAt(c, i, kp.pk, digests, msgs3, k);
      FirstSomeStep(outcomes, k);
      if error.Some? {
        return;
      }
      combinedShare, publicKey := AddContribution(c, i, kp, ownShare, ownPoint, msgs3, k, combinedShare, publicKey);
    }
    AllAccumulated(c, i, kp, ownShare, ownPoint, msgs3, combinedShare, publicKey);
    error := None;
  }

  lemma NothingAccumulated(c: Config, i: nat, kp: Keypair, ownShare: nat, ownPoint: Point, msgs3: seq<Round3Msg>)
    requires ownShare < c.q && ownPoint.log < c.q
    ensures Accumulated(c, i, kp, ownShare, ownPoint, msgs3, 0, ownShare, ownPoint)
  {
    ModSmall(ownShare, c.q);
    ModSmall(ownPoint.log, c.q);
    assert DecryptedShares(c, i, kp, msgs3)[..0] == [] && Heads(PointLists(msgs3))[..0] == [];
  }

  lemma AllAccumulated(c: Config, i: nat, kp: Keypair, ownShare: nat, ownPoint: Point, msgs3: seq<Round3Msg>,
      share: nat, point: Point)
    requires Accumulated(c, i, kp, ownShare, ownPoint, msgs3, |msgs3|, share, point)
    ensures share == SumMod(ownShare, DecryptedShares(c, i, kp, msgs3), c.q)
    ensures point == Point(SumMod(ownPoint.log, Heads(PointLists(msgs3)), c.q))
  {
    assert DecryptedShares(c, i, kp, msgs3)[..|msgs3|] == DecryptedShares(c, i, kp, msgs3);
    assert Heads(PointLists(msgs3))[..|msgs3|] == Heads(PointLists(msgs3));
  }

  method CheckAt(c: Config, i: nat, pk: PublicKey, digests: seq<Digest>, msgs3: seq<Round3Msg>, k: nat)
    returns (error: Option<KeygenError>)
    requires k < |digests| == |msgs3|
    ensures error == Outcomes(c, i, pk, digests, msgs3)[k]
    ensures error.None? ==> |msgs3[k].points| > 0 && EncIndex(i, Peer(i, k)) < |msgs3[k].encryptedShares|
  {
    error := CheckOne(c, i, pk, Peer(i, k), digests[k], msgs3[k]);
  }

  /** The running sums after k messages. */
  ghost predicate Accumulated(c: Config, i: nat, kp: Keypair, ownShare: nat, ownPoint: Point, msgs3: seq<Round3Msg>,
      k: nat, share: nat, point: Point)
    requires k <= |msgs3|
  {
    && share == SumMod(ownShare, DecryptedShares(c, i, kp, msgs3)[..k], c.q)
    && point == Point(SumMod(ownPoint.log, Heads(PointLists(msgs3))[..k], c.q))
  }

  /** The body of the round-3 loop after its checks. */
  method AddContribution(c: Config, i: nat, kp: Keypair, ghost ownShare: nat, ghost ownPoint: Point,
      msgs3: seq<Round3Msg>, k: nat, share: nat, point: Point)
    returns (share': nat, point': Point)
    requires k < |msgs3| && Accumulated(c, i, kp, ownShare, ownPoint, msgs3, k, share, point)
    requires |msgs3[k].points| > 0 && EncIndex(i, Peer(i, k)) < |msgs3[k].encryptedShares|
    ensures Accumulated(c, i, kp, ownShare, ownPoint, msgs3, k + 1, share', point')
  {
    point' := AddPoints(point, msgs3[k].points[0], c.q);
    SumStep(ownPoint.log, Heads(PointLists(msgs3)), k, c.q);
    var cipher := msgs3[k].encryptedShares[EncIndex(i, Peer(i, k))].0;
    share' := (share + Decrypt(kp.sk, kp.pk, cipher) % c.q) % c.q;
    SumStep(ownShare, DecryptedShares(c, i, kp, msgs3), k, c.q);
  }

  method CheckOne(c: Config, i: nat, pk: PublicKey, sender: nat, digest: Digest, msg: Round3Msg)
    returns (error: Option<KeygenError>)
    requires i != sender
    ensures error == CheckMessage(c, i, pk, sender, digest, msg)
    ensures error.None? ==> |msg.points| > 0 && EncIndex(i, sender) < |msg.encryptedShares|
  {
    if c.h.withNonce(c.h.commit(sender, msg.points), msg.nonce) != digest {
      return Some(VssCommitmentMismatch);
    }
    if |msg.points| == 0 {
      return Some(KeygenPanicked);
    }
    if !VerifySchnorr(msg.points[0], c.h.schnorr, msg.schnorrProof, c.q) {
      return Some(SchnorrProofFailed);
    }
    var encIdx := EncIndex(i, sender);
    if encIdx >= |msg.encryptedShares| {
      return Some(KeygenPanicked);
    }
    var (cipher, proof) := msg.encryptedShares[encIdx];
    var sharePoint := EvaluateInExponent(msg.points, i + 1, c.q);
    if !VerifyLog(pk, cipher, sharePoint, c.h.log, proof, c.q) {
      return Some(LogProofFailed);
    }
    return None;
  }

  /**
   * `run_keygen` for party i on the messages its three rounds deliver. `sent1`, `sent2` and
   * `sent3` are its broadcasts; the last two are missing when the Blum checks fail.
   */
  method RunKeygen(c: Config, i: nat, input: Input, msgs1: seq<Round1Msg>, digests: seq<Digest>, msgs3: seq<Round3Msg>)
    returns (sent1: Round1Msg, sent2: Option<Digest>, sent3: Option<Round3Msg>, result: KeygenResult)
    requires input.Valid() && i < c.n && |msgs1| == |digests| == |msgs3| == c.n - 1
    ensures sent1 == Round1(c, input)
    ensures AllBlumAccepted(c, msgs1) ==>
      sent2 == Some(Round2(c, i, input)) && sent3 == Some(Round3(c, i, input, PeerKeys(c, i, input.kp.pk, msgs1)))
    ensures !AllBlumAccepted(c, msgs1) ==> sent2 == None && sent3 == None
    ensures result == KeygenSpec(c, i, input, msgs1, digests, msgs3)
  {
    var kp := input.kp;
    var blumProof := ProveBlum(kp.p, kp.q, kp.pk.n, c.h.blum(kp.pk.n), c.iterations);
    sent1, sent2, sent3 := Round1Msg(kp.pk.n, blumProof), None, None;
    var ok, maybePks := CheckBlumProofs(c, i, kp.pk, msgs1);
    if !ok {
      return sent1, sent2, sent3, Failed(BlumProofFailed);
    }
    var peerPks := seq(c.n, j requires 0 <= j < c.n && maybePks[j].Some? => maybePks[j].value);
    assert peerPks == PeerKeys(c, i, kp.pk, msgs1);
    var commitment, msg3;
    commitment, msg3, result := RoundsTwoAndThree(c, i, input, peerPks, digests, msgs3);
    sent2, sent3 := Some(commitment), Some(msg3);
  }

  /** `run_keygen` after the Blum checks. */
  method RoundsTwoAndThree(c: Config, i: nat, input: Input, peerPks: seq<PublicKey>, digests: seq<Digest>,
      msgs3: seq<Round3Msg>)
    returns (commitment: Digest, msg3: Round3Msg, result: KeygenResult)
    requires input.Valid() && i < c.n == |peerPks| && |digests| == |msgs3| == c.n - 1
    ensures commitment == Round2(c, i, input) && msg3 == Round3(c, i, input, peerPks)
    ensures result == CombineSpec(c, i, input, peerPks, digests, msgs3)
  {
    var shares: seq<nat>;
    commitment, msg3, shares := OwnMessages(c, i, input, peerPks);
    result := CombineAll(c, i, input, shares[i], peerPks, digests, msgs3);
  }

  method OwnMessages(c: Config, i: nat, input: Input, peerPks: seq<PublicKey>)
    returns (commitment: Digest, msg3: Round3Msg, shares: seq<nat>)
    requires input.Valid() && i < c.n == |peerPks|
    ensures commitment == Round2(c, i, input) && msg3 == Round3(c, i, input, peerPks)
    ensures |shares| == c.n && shares[i] == ShareFor(input.coeffs, i, c.q)
  {
    var commitments;
    var intercept, draws := input.coeffs[0], input.coeffs[1..];
    assert Coefficients(intercept, |input.coeffs|, draws) == input.coeffs;
    commitments, shares := EvaluatePolynomial(intercept, |input.coeffs|, c.n, draws, c.q);
    commitment := c.h.withNonce(c.h.commit(i, commitments), input.nonce);
    var encrypted := EncryptAllShares(c, i, input, shares, peerPks);
    var schnorrProof := ProveSchnorr(input.coeffs[0], commitments[0], c.h.schnorr, input.schnorrAlpha, c.q);
    msg3 := Round3Msg(input.nonce, commitments, encrypted, schnorrProof);
  }

  method CombineAll(c: Config, i: nat, input: Input, ownShare: nat, peerPks: seq<PublicKey>, digests: seq<Digest>,
      msgs3: seq<Round3Msg>)
    returns (result: KeygenResult)
    requires |input.coeffs| > 0 && ownShare == ShareFor(input.coeffs, i, c.q) && |digests| == |msgs3|
    ensures result == CombineSpec(c, i, input, peerPks, digests, msgs3)
  {
    ghost var heads := Heads(PointLists(msgs3));
    ModMod(input.coeffs[0], c.q);
    SumModCong(input.coeffs[0] % c.q, input.coeffs[0], heads, heads, c.q);
    var ownPoint := MulG(input.coeffs[0], c.q);
    var error, combinedShare, publicKey := Combine(c, i, input.kp, ownShare, ownPoint, digests, msgs3);
    result := if error.Some? then Failed(error.value) else Generated(combinedShare, publicKey, peerPks);
  }

  // ---------------------------------------------------------------- arbitrary peers

  /** Whatever the peers sent, a generated key is the sum of all revealed constant terms. */
  lemma GeneratedKeyIs(c: Config, i: nat, input: Input, msgs1: seq<Round1Msg>, digests: seq<Digest>,
      msgs3: seq<Round3Msg>, all: seq<seq<Point>>)
    requires i < c.n == |all| && |msgs1| == |digests| == |msgs3| == c.n - 1
    requires all[i] == Commitments(input.coeffs, c.q) && PointLists(msgs3) == Without(all, i)
    requires KeygenSpec(c, i, input, msgs1, digests, msgs3).Generated?
    ensures KeygenSpec(c, i, input, msgs1, digests, msgs3).publicKey == MulG(Sum(Heads(all)), c.q)
  {
    HeadsSum(i, input.coeffs, c.q, all);
  }

  /** What party i receives in round 3 when the senders' messages were reliably broadcast. */
  function ReceivedRound3(sent3: seq<Round3Msg>, i: nat): (r: seq<Round3Msg>)
    requires i < |sent3|
    ensures |r| == |sent3| - 1
  {
    Without(sent3, i)
  }

  /**
   * Key agreement against arbitrary peers: two parties that follow the protocol and both
   * generate a key, over the same reliably broadcast round-3 messages, hold the same key.
   */
  lemma KeyAgreement(c: Config, i: nat, j: nat, input: Input, input': Input, msgs1: seq<Round1Msg>,
      msgs1': seq<Round1Msg>, digests: seq<Digest>, digests': seq<Digest>, sent3: seq<Round3Msg>)
    requires i < c.n && j < c.n && |sent3| == c.n
    requires |msgs1| == |msgs1'| == |digests| == |digests'| == c.n - 1
    requires sent3[i].points == Commitments(input.coeffs, c.q) && sent3[j].points == Commitments(input'.coeffs, c.q)
    requires KeygenSpec(c, i, input, msgs1, digests, ReceivedRound3(sent3, i)).Generated?
    requires KeygenSpec(c, j, input', msgs1', digests', ReceivedRound3(sent3, j)).Generated?
    ensures KeygenSpec(c, i, input, msgs1, digests, ReceivedRound3(sent3, i)).publicKey
         == KeygenSpec(c, j, input', msgs1', digests', ReceivedRound3(sent3, j)).publicKey
  {
    var all := PointLists(sent3);
    ReceivedLists(sent3, i);
    ReceivedLists(sent3, j);
    GeneratedKeyIs(c, i, input, msgs1, digests, ReceivedRound3(sent3, i), all);
    GeneratedKeyIs(c, j, input', msgs1', digests', ReceivedRound3(sent3, j), all);
  }

  lemma ReceivedLists(sent3: seq<Round3Msg>, i: nat)
    requires i < |sent3|
    ensures PointLists(ReceivedRound3(sent3, i)) == Without(PointLists(sent3), i)
  {
  }

  /** The Schnorr equation of a message, on discrete logarithms. */
  ghost predicate SchnorrHolds(c: Config, msg: Round3Msg)
    requires |msg.points| > 0
  {
    var e := c.h.schnorr(SchnorrTranscript(msg.schnorrProof.a, msg.points[0]));
    msg.schnorrProof.z % c.q == (msg.schnorrProof.a.log + e * msg.points[0].log) % c.q
  }

  /** Which error one round-3 message causes, in terms of the hashes and equations themselves. */
  lemma CheckMessageIs(c: Config, i: nat, pk: PublicKey, sender: nat, digest: Digest, msg: Round3Msg)
    requires i != sender
    ensures var result := CheckMessage(c, i, pk, sender, digest, msg);
      var matching := c.h.withNonce(c.h.commit(sender, msg.points), msg.nonce) == digest;
      var proved := |msg.points| > 0 && SchnorrHolds(c, msg);
      var addressed := EncIndex(i, sender) < |msg.encryptedShares|;
      var logged := addressed &&
        var (cipher, proof) := msg.encryptedShares[EncIndex(i, sender)];
        VerifyLog(pk, cipher, ExponentAt(msg.points, i + 1, c.q), c.h.log, proof, c.q);
      && (result == Some(VssCommitmentMismatch) <==> !matching)
      && (result == Some(SchnorrProofFailed) <==> matching && |msg.points| > 0 && !proved)
      && (result == Some(KeygenPanicked) <==> matching && (|msg.points| == 0 || (proved && !addressed)))
      && (result == Some(LogProofFailed) <==> matching && proved && addressed && !logged)
      && (result == None <==> matching && proved && logged)
      && result != Some(BlumProofFailed)
  {
    if |msg.points| > 0 { ProofMeaning.SchnorrMeans(msg.points[0], c.h.schnorr, msg.schnorrProof, c.q); }
  }

  /**
   * When party i generates a key, for arbitrary peers: exactly when every Blum proof verifies
   * and every round-3 message passes all its checks; a rejected Blum proof has its own error.
   */
  lemma GeneratedIff(c: Config, i: nat, input: Input, msgs1: seq<Round1Msg>, digests: seq<Digest>,
      msgs3: seq<Round3Msg>)
    requires i < c.n && |msgs1| == |digests| == |msgs3| == c.n - 1
    ensures var result := KeygenSpec(c, i, input, msgs1, digests, msgs3);
      && (result.Generated? <==> AllBlumAccepted(c, msgs1) && forall k :: 0 <= k < c.n - 1 ==>
            CheckMessage(c, i, input.kp.pk, Peer(i, k), digests[k], msgs3[k]) == None)
      && (result == Failed(BlumProofFailed) <==> !AllBlumAccepted(c, msgs1))
  {
    var outcomes := Outcomes(c, i, input.kp.pk, digests, msgs3);
    FirstSomeNone(outcomes, |outcomes|);
    forall k | 0 <= k < c.n - 1
      ensures outcomes[k] == CheckMessage(c, i, input.kp.pk, Peer(i, k), digests[k], msgs3[k])
      ensures outcomes[k] != Some(BlumProofFailed)
    {
      CheckMessageIs(c, i, input.kp.pk, Peer(i, k), digests[k], msgs3[k]);
    }
    NoBlumError(outcomes, |outcomes|);
  }

  lemma {:induction false} NoBlumError(outcomes: seq<Option<KeygenError>>, k: nat)
    requires k <= |outcomes| && forall l :: 0 <= l < |outcomes| ==> outcomes[l] != Some(BlumProofFailed)
    ensures FirstSome(outcomes, k) != Some(BlumProofFailed)
  {
    if k != 0 { NoBlumError(outcomes, k - 1); }
  }

  /** Every peer's message holds an entry for party i, and values lists what these entries decrypt to. */
  ghost predicate DecryptTo(i: nat, kp: Keypair, msgs3: seq<Round3Msg>, values: seq<nat>) {
    && |values| == |msgs3|
    && forall k :: 0 <= k < |msgs3| ==> EntryDecryptsTo(EncIndex(i, Peer(i, k)), kp, msgs3[k], values[k])
  }

  ghost predicate EntryDecryptsTo(index: nat, kp: Keypair, msg: Round3Msg, value: nat) {
    index < |msg.encryptedShares| && value == Decrypt(kp.sk, kp.pk, msg.encryptedShares[index].0)
  }

  lemma DecryptedSharesAre(c: Config, i: nat, kp: Keypair, msgs3: seq<Round3Msg>, values: seq<nat>)
    requires DecryptTo(i, kp, msgs3, values)
    ensures ReducedTo(DecryptedShares(c, i, kp, msgs3), values, c.q)
  {
    forall k | 0 <= k < |msgs3|
      ensures DecryptedShares(c, i, kp, msgs3)[k] == values[k] % c.q
    {
      assert EntryDecryptsTo(EncIndex(i, Peer(i, k)), kp, msgs3[k], values[k]);
    }
  }

  /** For arbitrary peers: the generated share is the own share plus what the addressed ciphertexts decrypt to. */
  lemma GeneratedShareIs(c: Config, i: nat, input: Input, msgs1: seq<Round1Msg>, digests: seq<Digest>,
      msgs3: seq<Round3Msg>, values: seq<nat>)
    requires i < c.n && |msgs1| == |digests| == |msgs3| == c.n - 1
    requires KeygenSpec(c, i, input, msgs1, digests, msgs3).Generated?
    requires DecryptTo(i, input.kp, msgs3, values)
    ensures KeygenSpec(c, i, input, msgs1, digests, msgs3).ecShare
         == (ShareFor(input.coeffs, i, c.q) + Sum(values)) % c.q
  {
    DecryptedSharesAre(c, i, input.kp, msgs3, values);
    ReducedSum(ShareFor(input.coeffs, i, c.q), DecryptedShares(c, i, input.kp, msgs3), values, c.q);
  }

  /** The log proof of a message binds the plaintext m of its ciphertext, committed to as a. */
  ghost predicate Binding(c: Config, i: nat, kp: Keypair, sender: nat, msg: Round3Msg, m: nat, a: nat)
    requires i != sender
  {
    && EncIndex(i, sender) < |msg.encryptedShares|
    && var (cipher, proof) := msg.encryptedShares[EncIndex(i, sender)];
       var public := ExponentAt(msg.points, i + 1, c.q);
       var e := c.h.log(PointTranscript(kp.pk.n, kp.pk.g, cipher, public, proof.a, proof.cAlpha));
       && Encodes(kp, cipher, m) && Encodes(kp, proof.cAlpha, a) && Unit(kp, proof.s)
       && proof.a == MulG(a, c.q) && e % c.q != 0 && a + e * m < kp.pk.n && proof.z < kp.pk.n
  }

  /** Where the log proof binds, an accepted message's decrypted share matches its committed polynomial. */
  lemma BoundShareMatches(c: Config, i: nat, kp: Keypair, sender: nat, digest: Digest, msg: Round3Msg, m: nat, a: nat)
    requires i != sender && IsPrime(c.q) && ValidKey(kp)
    requires CheckMessage(c, i, kp.pk, sender, digest, msg) == None && Binding(c, i, kp, sender, msg, m, a)
    ensures ShareMatches(i, msg.points, DecryptedShare(c, i, kp, sender, msg), c.q)
  {
    var (cipher, proof) := msg.encryptedShares[EncIndex(i, sender)];
    var public := ExponentAt(msg.points, i + 1, c.q);
    ProofMeaning.LogBinds(kp, cipher, m, public, c.h.log, proof, a, c.q);
    var e := c.h.log(PointTranscript(kp.pk.n, kp.pk.g, cipher, public, proof.a, proof.cAlpha));
    BelowSummand(a, e, m, kp.pk.n, c.q);
    DecryptEncoding(kp, cipher, m);
    ModSmall(m, kp.pk.n);
    ModMod(m, c.q);
  }

  lemma BelowSummand(a: nat, e: nat, m: nat, n: pos, q: pos)
    requires e % q != 0 && a + e * m < n
    ensures m < n
  {
    if e == 0 {
      ModSmall(0, q);
    } else {
      assert e * m >= m;
    }
  }

  /** When every peer's log proof binds, a generated share opens the sum of all committed polynomials. */
  lemma BoundShareIsConsistent(c: Config, i: nat, input: Input, msgs1: seq<Round1Msg>, digests: seq<Digest>,
      msgs3: seq<Round3Msg>, all: seq<seq<Point>>)
    requires i < c.n == |all| && |msgs1| == |digests| == |msgs3| == c.n - 1 && IsPrime(c.q) && input.Valid()
    requires all[i] == Commitments(input.coeffs, c.q) && PointLists(msgs3) == Without(all, i)
    requires KeygenSpec(c, i, input, msgs1, digests, msgs3).Generated?
    requires forall k {:trigger msgs3[k]} :: 0 <= k < c.n - 1 ==>
      exists m: nat, a: nat :: Binding(c, i, input.kp, Peer(i, k), msgs3[k], m, a)
    ensures MulG(KeygenSpec(c, i, input, msgs1, digests, msgs3).ecShare, c.q) == MulG(Sum(CommittedAt(all, i + 1)), c.q)
  {
    var shares := DecryptedShares(c, i, input.kp, msgs3);
    GeneratedIff(c, i, input, msgs1, digests, msgs3);
    forall k | 0 <= k < |shares|
      ensures ShareMatches(i, Without(all, i)[k], shares[k], c.q)
    {
      var m: nat, a: nat :| Binding(c, i, input.kp, Peer(i, k), msgs3[k], m, a);
      BoundShareMatches(c, i, input.kp, Peer(i, k), digests[k], msgs3[k], m, a);
      assert PointLists(msgs3)[k] == msgs3[k].points;
    }
    CheckedSharesSum(i, input.coeffs, c.q, all, shares);
    ModMod(Sum(CommittedAt(all, i + 1)), c.q);
  }

  // ---------------------------------------------------------------- honest runs

  ghost predicate HonestInputs(c: Config, inputs: seq<Input>, t: nat) {
    && IsPrime(c.q) && |inputs| == c.n
    && HonestPolys(Polys(inputs), c.n, t)
    && (forall j {:trigger inputs[j]} :: 0 <= j < c.n ==> inputs[j].Valid() && inputs[j].kp.pk.n >= c.q)
    && (forall j, i {:trigger inputs[j].shareRandom(i)} :: 0 <= j < c.n && 0 <= i < c.n ==>
          Unit(inputs[i].kp, inputs[j].shareRandom(i).rho))
  }

  function Polys(inputs: seq<Input>): (r: seq<seq<nat>>)
    ensures |r| == |inputs|
  {
    seq(|inputs|, j requires 0 <= j < |inputs| => inputs[j].coeffs)
  }

  function Keys(inputs: seq<Input>): (r: seq<PublicKey>)
    ensures |r| == |inputs|
  {
    seq(|inputs|, j requires 0 <= j < |inputs| => inputs[j].kp.pk)
  }

  function Sent1(c: Config, inputs: seq<Input>): (r: seq<Round1Msg>)
    ensures |r| == |inputs|
  {
    seq(|inputs|, j requires 0 <= j < |inputs| => Round1(c, inputs[j]))
  }

  /** Party j accepts every peer's Blum proof; otherwise it stops after round 1. */
  predicate Continues(c: Config, inputs: seq<Input>, j: nat)
    requires j < |inputs| == c.n
  {
    AllBlumAccepted(c, Without(Sent1(c, inputs), j))
  }

  /** The round-2 broadcasts; a stopped party sends nothing. */
  function Sent2(c: Config, inputs: seq<Input>): (r: seq<Option<Digest>>)
    requires |inputs| == c.n
    ensures |r| == |inputs|
  {
    seq(|inputs|, j requires 0 <= j < |inputs| =>
      if Continues(c, inputs, j) then Some(Round2(c, j, inputs[j])) else None)
  }

  /** The round-3 broadcasts; a party whose round 2 never completes sends nothing. */
  function Sent3(c: Config, inputs: seq<Input>): (r: seq<Option<Round3Msg>>)
    requires |inputs| == c.n
    ensures |r| == |inputs|
  {
    seq(|inputs|, j requires 0 <= j < |inputs| =>
      if Continues(c, inputs, j) && AllPresent(Without(Sent2(c, inputs), j))
      then Some(Round3(c, j, inputs[j], PeerKeys(c, j, inputs[j].kp.pk, Without(Sent1(c, inputs), j))))
      else None)
  }

  /** The result of party i when every party follows the protocol; None when i waits for a stopped party. */
  function HonestKeygen(c: Config, inputs: seq<Input>, i: nat): Option<KeygenResult>
    requires i < |inputs| == c.n
  {
    var msgs2, msgs3 := Without(Sent2(c, inputs), i), Without(Sent3(c, inputs), i);
    if !Continues(c, inputs, i) then Some(Failed(BlumProofFailed))
    else if !AllPresent(msgs2) || !AllPresent(msgs3) then None
    else Some(KeygenSpec(c, i, inputs[i], Without(Sent1(c, inputs), i), Values(msgs2), Values(msgs3)))
  }

  /** The broadcasts of rounds 2 and 3 when no party stops. */
  function FullRound2(c: Config, inputs: seq<Input>): (r: seq<Digest>)
    ensures |r| == |inputs|
  {
    seq(|inputs|, j requires 0 <= j < |inputs| => Round2(c, j, inputs[j]))
  }

  function FullRound3(c: Config, inputs: seq<Input>): (r: seq<Round3Msg>)
    requires |inputs| == c.n
    ensures |r| == |inputs|
  {
    seq(|inputs|, j requires 0 <= j < |inputs| => Round3(c, j, inputs[j], Keys(inputs)))
  }

  /** Some Blum challenge of this key can be recorded. */
  ghost predicate HasRecordable(c: Config, input: Input) {
    exists l: nat :: l < c.iterations && Recordable(c.h.blum(input.kp.pk.n)(l), input.kp.p, input.kp.q, input.kp.pk.n)
  }

  lemma HonestBlumIff(c: Config, input: Input)
    requires input.Valid()
    ensures BlumAccepted(c, Round1(c, input)) <==> HasRecordable(c, input)
  {
    BlumComplete(input.kp.p, input.kp.q, input.kp.pk.n, c.h.blum(input.kp.pk.n), c.iterations);
  }

  lemma HonestKeyAt(c: Config, inputs: seq<Input>, i: nat, j: nat)
    requires i < |inputs| == c.n && j < c.n && inputs[j].Valid()
    requires AllBlumAccepted(c, Without(Sent1(c, inputs), i))
    ensures KeyAt(c, i, inputs[i].kp.pk, Without(Sent1(c, inputs), i), j) == Keys(inputs)[j]
  {
    if j != i { WithoutAt(Sent1(c, inputs), i, j); }
  }

  /** The keys every party stores are the parties' own keys. */
  lemma HonestPeerKeys(c: Config, inputs: seq<Input>, i: nat)
    requires |inputs| == c.n && i < c.n
    requires forall j {:trigger inputs[j]} :: 0 <= j < c.n ==> inputs[j].Valid()
    requires AllBlumAccepted(c, Without(Sent1(c, inputs), i))
    ensures PeerKeys(c, i, inputs[i].kp.pk, Without(Sent1(c, inputs), i)) == Keys(inputs)
  {
    forall j | 0 <= j < c.n
      ensures KeyAt(c, i, inputs[i].kp.pk, Without(Sent1(c, inputs), i), j) == Keys(inputs)[j]
    {
      HonestKeyAt(c, inputs, i, j);
    }
  }

  /** Share delivery: party i finds the ciphertext made for it, its log proof passes, and it decrypts to f_j(i+1). */
  lemma ShareDelivered(c: Config, inputs: seq<Input>, t: nat, i: nat, j: nat)
    requires HonestInputs(c, inputs, t) && i < c.n && j < c.n && i != j
    ensures var msg := Round3(c, j, inputs[j], Keys(inputs));
      && EncIndex(i, j) < |msg.encryptedShares|
      && var (cipher, proof) := msg.encryptedShares[EncIndex(i, j)];
      && VerifyLog(inputs[i].kp.pk, cipher, ExponentAt(msg.points, i + 1, c.q), c.h.log, proof, c.q)
      && DecryptedShare(c, i, inputs[i].kp, j, msg) == ShareFor(inputs[j].coeffs, i, c.q)
  {
    var kp := inputs[i].kp;
    var coeffs := inputs[j].coeffs;
    var share := ShareFor(coeffs, i, c.q);
    var rnd := inputs[j].shareRandom(i);
    var point := ExponentAt(Commitments(coeffs, c.q), i + 1, c.q);
    EncIndexSelectsOwnEntry(i, j, c.n);
    KeyFacts(kp);
    CommitmentsDetermineShare(coeffs, i + 1, c.q);
    ModMod(PolyAt(coeffs, i + 1), c.q);
    LogAcceptsIff(kp.pk.n, share, rnd.rho, point, c.h.log, rnd.alpha, rnd.gamma, c.q);
    DecryptEncrypt(kp, share, rnd.rho);
    ModSmall(share, kp.pk.n);
    ModSmall(share, c.q);
  }

  lemma HonestSchnorr(c: Config, inputs: seq<Input>, t: nat, j: nat)
    requires HonestInputs(c, inputs, t) && j < c.n
    ensures var msg := Round3(c, j, inputs[j], Keys(inputs));
      |msg.points| > 0 && VerifySchnorr(msg.points[0], c.h.schnorr, msg.schnorrProof, c.q)
  {
    var input := inputs[j];
    assert input.Valid();
    SchnorrAcceptsIff(input.coeffs[0], MulG(input.coeffs[0], c.q), c.h.schnorr, input.schnorrAlpha, c.q);
  }

  lemma HonestMessagePasses(c: Config, inputs: seq<Input>, t: nat, i: nat, k: nat)
    requires HonestInputs(c, inputs, t) && i < c.n && k < c.n - 1
    ensures Outcomes(c, i, inputs[i].kp.pk, Without(FullRound2(c, inputs), i),
        Without(FullRound3(c, inputs), i))[k].None?
  {
    ShareDelivered(c, inputs, t, i, Peer(i, k));
    HonestSchnorr(c, inputs, t, Peer(i, k));
  }

  lemma HonestSums(c: Config, inputs: seq<Input>, t: nat, i: nat)
    requires HonestInputs(c, inputs, t) && i < c.n
    ensures DecryptedShares(c, i, inputs[i].kp, Without(FullRound3(c, inputs), i))
         == Without(SharesOf(Polys(inputs), i, c.q), i)
    ensures PointLists(Without(FullRound3(c, inputs), i)) == Without(Openings(Polys(inputs), c.q), i)
  {
    forall k | 0 <= k < c.n - 1
      ensures DecryptedShares(c, i, inputs[i].kp, Without(FullRound3(c, inputs), i))[k]
           == Without(SharesOf(Polys(inputs), i, c.q), i)[k]
    {
      ShareDelivered(c, inputs, t, i, Peer(i, k));
    }
  }

  lemma HonestMessagesPass(c: Config, inputs: seq<Input>, t: nat, i: nat)
    requires HonestInputs(c, inputs, t) && i < c.n
    ensures forall k :: 0 <= k < c.n - 1 ==>
      Outcomes(c, i, inputs[i].kp.pk, Without(FullRound2(c, inputs), i), Without(FullRound3(c, inputs), i))[k].None?
  {
    forall k | 0 <= k < c.n - 1
      ensures Outcomes(c, i, inputs[i].kp.pk, Without(FullRound2(c, inputs), i),
          Without(FullRound3(c, inputs), i))[k].None?
    {
      HonestMessagePasses(c, inputs, t, i, k);
    }
  }

  lemma HonestCombine(c: Config, inputs: seq<Input>, t: nat, i: nat)
    requires HonestInputs(c, inputs, t) && i < c.n
    ensures CombineSpec(c, i, inputs[i], Keys(inputs), Without(FullRound2(c, inputs), i),
        Without(FullRound3(c, inputs), i))
         == Generated(SumAt(Polys(inputs), i + 1) % c.q, MulG(SumAt(Polys(inputs), 0), c.q), Keys(inputs))
  {
    var digests, msgs3 := Without(FullRound2(c, inputs), i), Without(FullRound3(c, inputs), i);
    HonestMessagesPass(c, inputs, t, i);
    HonestSums(c, inputs, t, i);
    HonestVerdict(c, i, Polys(inputs), t, Keys(inputs), Outcomes(c, i, inputs[i].kp.pk, digests, msgs3));
  }

  /** The verdict on outcomes without errors, for the honest shares and commitments. */
  lemma HonestVerdict(c: Config, i: nat, polys: seq<seq<nat>>, t: nat, peerPks: seq<PublicKey>,
      outcomes: seq<Option<KeygenError>>)
    requires HonestPolys(polys, c.n, t) && i < c.n && forall k :: 0 <= k < |outcomes| ==> outcomes[k].None?
    ensures Verdict(c, i, polys[i], peerPks, outcomes, Without(SharesOf(polys, i, c.q), i),
        Heads(Without(Openings(polys, c.q), i)))
         == Generated(SumAt(polys, i + 1) % c.q, MulG(SumAt(polys, 0), c.q), peerPks)
  {
    FirstSomeNone(outcomes, |outcomes|);
    HonestShareSum(i, polys, c.q);
    HonestKeySum(i, polys, c.n, t, c.q);
  }

  /** Party j goes on to round 2 exactly when every other party's key has a recordable challenge. */
  lemma ContinuesIff(c: Config, inputs: seq<Input>, t: nat, j: nat)
    requires HonestInputs(c, inputs, t) && j < c.n
    ensures Continues(c, inputs, j) <==> forall k :: 0 <= k < c.n && k != j ==> HasRecordable(c, inputs[k])
  {
    var peers := Without(Sent1(c, inputs), j);
    forall k | 0 <= k < c.n - 1
      ensures BlumAccepted(c, peers[k]) <==> HasRecordable(c, inputs[Peer(j, k)])
    {
      HonestBlumIff(c, inputs[Peer(j, k)]);
    }
    forall k | 0 <= k < c.n && k != j && Continues(c, inputs, j)
      ensures HasRecordable(c, inputs[k])
    {
      var l := if k < j then k else k - 1;
      assert BlumAccepted(c, peers[l]) && Peer(j, l) == k;
    }
  }

  /** A stopped peer leaves party i waiting in round 2. */
  lemma StoppedPeer(c: Config, inputs: seq<Input>, i: nat, j: nat)
    requires i < |inputs| == c.n && j < c.n && i != j && !Continues(c, inputs, j)
    ensures !AllPresent(Without(Sent2(c, inputs), i))
  {
    assert Sent2(c, inputs)[j] == None;
    MissingSender(Sent2(c, inputs), i, j);
  }

  ghost predicate AllContinue(c: Config, inputs: seq<Input>)
    requires |inputs| == c.n
  {
    forall j :: 0 <= j < c.n ==> Continues(c, inputs, j)
  }

  lemma FullDigests(c: Config, inputs: seq<Input>, i: nat)
    requires i < |inputs| == c.n && AllContinue(c, inputs)
    ensures var msgs2 := Without(Sent2(c, inputs), i);
      AllPresent(msgs2) && Values(msgs2) == Without(FullRound2(c, inputs), i)
  {
    forall j | 0 <= j < c.n
      ensures Sent2(c, inputs)[j] == Some(FullRound2(c, inputs)[j])
    {
      assert Continues(c, inputs, j);
    }
  }

  lemma FullMessage(c: Config, inputs: seq<Input>, t: nat, j: nat)
    requires HonestInputs(c, inputs, t) && j < c.n && AllContinue(c, inputs)
    ensures Sent3(c, inputs)[j] == Some(FullRound3(c, inputs)[j])
  {
    assert Continues(c, inputs, j);
    FullDigests(c, inputs, j);
    HonestPeerKeys(c, inputs, j);
  }

  lemma FullMessages(c: Config, inputs: seq<Input>, t: nat, i: nat)
    requires HonestInputs(c, inputs, t) && i < c.n && AllContinue(c, inputs)
    ensures var msgs3 := Without(Sent3(c, inputs), i);
      AllPresent(msgs3) && Values(msgs3) == Without(FullRound3(c, inputs), i)
  {
    forall j | 0 <= j < c.n
      ensures Sent3(c, inputs)[j] == Some(FullRound3(c, inputs)[j])
    {
      FullMessage(c, inputs, t, j);
    }
  }

  /** When nobody stops, party i ends with its share, the common key and all Paillier keys. */
  lemma FullRun(c: Config, inputs: seq<Input>, t: nat, i: nat)
    requires HonestInputs(c, inputs, t) && i < c.n && AllContinue(c, inputs)
    ensures HonestKeygen(c, inputs, i)
         == Some(Generated(SumAt(Polys(inputs), i + 1) % c.q, MulG(SumAt(Polys(inputs), 0), c.q), Keys(inputs)))
  {
    assert Continues(c, inputs, i);
    FullDigests(c, inputs, i);
    FullMessages(c, inputs, t, i);
    HonestPeerKeys(c, inputs, i);
    HonestCombine(c, inputs, t, i);
  }

  /** When only party i's key has no recordable challenge, i waits for peers that stopped. */
  lemma OwnProofFails(c: Config, inputs: seq<Input>, t: nat, i: nat)
    requires HonestInputs(c, inputs, t) && i < c.n && c.n > 1
    requires Continues(c, inputs, i) && !HasRecordable(c, inputs[i])
    ensures HonestKeygen(c, inputs, i) == None
  {
    var j := Peer(i, 0);
    ContinuesIff(c, inputs, t, j);
    StoppedPeer(c, inputs, i, j);
  }

  lemma EveryoneContinues(c: Config, inputs: seq<Input>, t: nat, i: nat)
    requires HonestInputs(c, inputs, t) && i < c.n && Continues(c, inputs, i)
    requires c.n == 1 || HasRecordable(c, inputs[i])
    ensures AllContinue(c, inputs)
  {
    ContinuesIff(c, inputs, t, i);
    forall j | 0 <= j < c.n
      ensures Continues(c, inputs, j)
    {
      ContinuesIff(c, inputs, t, j);
    }
  }

  /**
   * Honest key generation, for every number of parties: party i reports a failed Blum proof
   * exactly when some peer's key has no recordable challenge; when only its own has none, its
   * peers stop and it never returns; otherwise it gets the share sum_j f_j(i+1), the common
   * public key and everyone's Paillier key.
   */
  lemma HonestKeygenResult(c: Config, inputs: seq<Input>, t: nat, i: nat)
    requires HonestInputs(c, inputs, t) && i < c.n
    ensures HonestKeygen(c, inputs, i) ==
      if exists k :: 0 <= k < c.n && k != i && !HasRecordable(c, inputs[k]) then Some(Failed(BlumProofFailed))
      else if c.n > 1 && !HasRecordable(c, inputs[i]) then None
      else Some(Generated(SumAt(Polys(inputs), i + 1) % c.q, MulG(SumAt(Polys(inputs), 0), c.q), Keys(inputs)))
  {
    ContinuesIff(c, inputs, t, i);
    if Continues(c, inputs, i) {
      if c.n > 1 && !HasRecordable(c, inputs[i]) {
        OwnProofFails(c, inputs, t, i);
      } else {
        EveryoneContinues(c, inputs, t, i);
        FullRun(c, inputs, t, i);
      }
    }
  }
}
