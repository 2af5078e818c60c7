/** CGGMP21 presigning (`run_presign`): a nonce shared additively and decrypted by every signer. */
module CggmpPresign {
  import opened Arithmetic
  import opened Euclid
  import opened Primes
  import opened Wrappers
  import opened Group
  import opened Core
  import opened Rounds
  import opened Paillier
  import opened PaillierZk

  type Digest = nat

  datatype KeyMsg = KeyMsg(n: pos, g: nat)

  /** Both fields are optional on the wire; the range proof is sent but the receiver never reads it. */
  datatype EncryptedKMsg = EncryptedKMsg(cKShare: Option<int>, rangeProof: Option<RangeProof>)

  /** The curve, the commitment hash of (local index, point), and the range-proof hash. */
  datatype Config = Config(cv: Curve, commit: (nat, Point) -> Digest, range: RangeTranscript -> Hash)

  datatype PeerRandom = PeerRandom(rho: nat, alpha: nat, gamma: nat)

  /** What one signer draws: its Paillier key, nonce share, and randomness for every peer. */
  datatype Input = Input(kp: Keypair, k: nat, peerRandom: nat -> PeerRandom)

  datatype Presignature = Presignature(k: nat, kInv: nat, r: nat, rPoint: Point)

  datatype PresignResult = Presigned(presig: Presignature) | NotASigner | CommitmentMismatch | ZeroNonce

  /** `signers.iter().position(..)`. */
  function Position(signers: seq<nat>, i: nat): Option<nat> {
    if |signers| == 0 then None
    else if signers[0] == i then Some(0)
    else
      match Position(signers[1..], i)
      case None => None
      case Some(k) => Some(k + 1)
  }

  lemma {:induction false} PositionOfDistinct(signers: seq<nat>, a: nat)
    requires a < |signers| && Distinct(signers)
    ensures Position(signers, signers[a]) == Some(a)
  {
    if a != 0 {
      PositionOfDistinct(signers[1..], a - 1);
    }
  }

  lemma {:induction false} PositionMeaning(signers: seq<nat>, i: nat)
    ensures Position(signers, i).None? <==> i !in signers
    ensures Position(signers, i).Some? ==>
      Position(signers, i).value < |signers| && signers[Position(signers, i).value] == i
  {
    if |signers| != 0 && signers[0] != i { PositionMeaning(signers[1..], i); }
  }

  method FindPosition(signers: seq<nat>, i: nat) returns (r: Option<nat>)
    ensures r == Position(signers, i)
  {
    for k := 0 to |signers|
      invariant forall l :: 0 <= l < k ==> signers[l] != i
    {
      if signers[k] == i {
        FirstPosition(signers, i, k);
        return Some(k);
      }
    }
    PositionMeaning(signers, i);
    return None;
  }

  lemma {:induction false} FirstPosition(signers: seq<nat>, i: nat, k: nat)
    requires k < |signers| && signers[k] == i && forall l :: 0 <= l < k ==> signers[l] != i
    ensures Position(signers, i) == Some(k)
  {
    if k != 0 { FirstPosition(signers[1..], i, k - 1); }
  }

  // ---------------------------------------------------------------- what a signer sends

  function NoncePoint(c: Config, input: Input): Point {
    MulG(input.k, c.cv.q)
  }

  function NonceDigest(c: Config, a: nat, input: Input): Digest {
    c.commit(a, NoncePoint(c, input))
  }

  /** The nonce share encrypted to one peer, with its range proof. */
  function EncryptNonce(c: Config, input: Input, peer: nat, key: KeyMsg): EncryptedKMsg {
    MulPos(key.n, key.n);
    var pk := PublicKey(key.n, key.n * key.n, key.g);
    var rnd := input.peerRandom(peer);
    var cipher := EncryptWithRho(pk, input.k, rnd.rho);
    EncryptedKMsg(Some(cipher), Some(ProveRange(pk, cipher, input.k, rnd.rho, 256, c.range, rnd.alpha, rnd.gamma)))
  }

  // ---------------------------------------------------------------- what a signer computes

  predicate OpensTo(c: Config, sender: nat, digest: Digest, point: Point) {
    c.commit(sender, point) == digest
  }

  predicate AllOpen(c: Config, a: nat, digests: seq<Digest>, points: seq<Point>, k: nat)
    requires k <= |digests| == |points|
  {
    forall l :: 0 <= l < k ==> OpensTo(c, Peer(a, l), digests[l], points[l])
  }

  /** A missing ciphertext adds nothing. */
  function NonceShareOf(kp: Keypair, msg: EncryptedKMsg): nat {
    match msg.cKShare
    case None => 0
    case Some(cipher) => Decrypt(kp.sk, kp.pk, cipher)
  }

  function NonceShares(kp: Keypair, msgs3: seq<EncryptedKMsg>): (r: seq<nat>)
    ensures |r| == |msgs3|
  {
    seq(|msgs3|, k requires 0 <= k < |msgs3| => NonceShareOf(kp, msgs3[k]))
  }

  /** The result of the signer with local index a. */
  function PresignSpec(c: Config, a: nat, input: Input, digests: seq<Digest>, points: seq<Point>,
      msgs3: seq<EncryptedKMsg>): PresignResult
    requires |digests| == |points| == |msgs3|
  {
    if !AllOpen(c, a, digests, points, |points|) then CommitmentMismatch
    else Conclude(c, SumMod(input.k, Logs(points), c.cv.q), SumMod(input.k, NonceShares(input.kp, msgs3), c.cv.q))
  }

  /** The presignature from the sum of the revealed points and the sum of the nonce shares. */
  function Conclude(c: Config, pointLog: nat, k: nat): PresignResult {
    if k % c.cv.q == 0 then ZeroNonce
    else Presigned(Presignature(k, Inverse(k, c.cv.q), c.cv.XCoord(Point(pointLog)), Point(pointLog)))
  }

  /** The reveal loop: every point must open its commitment. */
  method SumPoints(c: Config, a: nat, own: Point, digests: seq<Digest>, points: seq<Point>)
    returns (ok: bool, total: Point)
    requires |digests| == |points| && own.log < c.cv.q
    ensures ok <==> AllOpen(c, a, digests, points, |points|)
    ensures ok ==> total == Point(SumMod(own.log, Logs(points), c.cv.q))
  {
    total := own;
    ModSmall(own.log, c.cv.q);
    assert Logs(points)[..0] == [];
    for k := 0 to |points|
      invariant AllOpen(c, a, digests, points, k)
      invariant total == Point(SumMod(own.log, Logs(points)[..k], c.cv.q))
    {
      if c.commit(Peer(a, k), points[k]) != digests[k] {
        assert !OpensTo(c, Peer(a, k), digests[k], points[k]);
        return false, total;
      }
      SumStep(own.log, Logs(points), k, c.cv.q);
      total := AddPoints(total, points[k], c.cv.q);
    }
    assert Logs(points)[..|points|] == Logs(points);
    ok := true;
  }

  /** The sending loop of round 3, skipping the signer itself. */
  method EncryptToPeers(c: Config, a: nat, input: Input, keys: seq<KeyMsg>) returns (sent: seq<(nat, EncryptedKMsg)>)
    requires a <= |keys|
    ensures |sent| == |keys|
    ensures forall l :: 0 <= l < |keys| ==> sent[l] == (Peer(a, l), EncryptNonce(c, input, Peer(a, l), keys[l]))
  {
    sent := [];
    for peer := 0 to |keys| + 1
      invariant |sent| == if peer <= a then peer else peer - 1
      invariant forall l :: 0 <= l < |sent| ==> sent[l] == (Peer(a, l), EncryptNonce(c, input, Peer(a, l), keys[l]))
    {
      if peer == a {
        continue;
      }
      var key := keys[if peer < a then peer else peer - 1];
      sent := sent + [(peer, EncryptNonce(c, input, peer, key))];
    }
  }

  /** The decryption loop: the running total is reduced modulo the curve order after each peer. */
  method SumNonces(c: Config, input: Input, msgs3: seq<EncryptedKMsg>) returns (k: nat)
    requires input.k < c.cv.q
    ensures k == SumMod(input.k, NonceShares(input.kp, msgs3), c.cv.q)
  {
    var kTotal := input.k;
    ghost var shares := NonceShares(input.kp, msgs3);
    ModSmall(input.k, c.cv.q);
    assert shares[..0] == [];
    for l := 0 to |msgs3|
      invariant kTotal == SumMod(input.k, shares[..l], c.cv.q)
    {
      SumStep(input.k, shares, l, c.cv.q);
      if msgs3[l].cKShare.Some? {
        var plaintext := Decrypt(input.kp.sk, input.kp.pk, msgs3[l].cKShare.value);
        kTotal := (kTotal + plaintext) % c.cv.q;
      } else {
        ModSmall(kTotal, c.cv.q);
      }
    }
    assert shares[..|msgs3|] == shares;
    k := kTotal;
  }

  /** `run_presign` for party i on the messages of rounds 0 to 3, each without its own entry. */
  method RunPresign(c: Config, i: nat, signers: seq<nat>, input: Input,
                    keys: seq<KeyMsg>, digests: seq<Digest>, points: seq<Point>, msgs3: seq<EncryptedKMsg>)
    returns (digest: Option<Digest>, sent: seq<(nat, EncryptedKMsg)>, result: PresignResult)
    requires c.cv.Valid() && input.k < c.cv.q
    requires |keys| == |digests| == |points| == |msgs3| == if |signers| == 0 then 0 else |signers| - 1
    ensures result == match Position(signers, i)
      case None => NotASigner
      case Some(a) => PresignSpec(c, a, input, digests, points, msgs3)
    ensures match Position(signers, i)
      case None => digest == None && sent == []
      case Some(a) =>
        digest == Some(NonceDigest(c, a, input)) &&
        if AllOpen(c, a, digests, points, |points|)
        then |sent| == |keys| && forall l :: 0 <= l < |keys| ==>
          sent[l] == (Peer(a, l), EncryptNonce(c, input, Peer(a, l), keys[l]))
        else sent == []
  {
    var position := FindPosition(signers, i);
    if position.None? {
      return None, [], NotASigner;
    }
    var a := position.value;
    PositionMeaning(signers, i);
    var own := MulG(input.k, c.cv.q);
    ModSmall(input.k, c.cv.q);
    digest := Some(c.commit(a, own));
    var ok, rPoint := SumPoints(c, a, own, digests, points);
    if !ok {
      return digest, [], CommitmentMismatch;
    }
    sent := EncryptToPeers(c, a, input, keys);
    var k := SumNonces(c, input, msgs3);
    if k % c.cv.q == 0 {
      return digest, sent, ZeroNonce;
    }
    var kInv := ModInv(k, c.cv.q);
    result := Presigned(Presignature(k, kInv, c.cv.XCoord(rPoint), rPoint));
  }

  // ---------------------------------------------------------------- arbitrary peers

  /** A missing ciphertext counts 0, any other what it decrypts to. */
  lemma NonceShareIs(kp: Keypair, msg: EncryptedKMsg)
    ensures msg.cKShare == None ==> NonceShareOf(kp, msg) == 0
    ensures msg.cKShare.Some? ==> NonceShareOf(kp, msg) == Decrypt(kp.sk, kp.pk, msg.cKShare.value)
  {
  }

  /**
   * The result for arbitrary peers: a mismatch exactly when some revealed point does not open
   * its sender's commitment; otherwise the sum of the revealed points, the sum of the nonce
   * shares, and its inverse, unless that sum is 0.
   */
  lemma PresignResultIff(c: Config, a: nat, input: Input, digests: seq<Digest>, points: seq<Point>,
      msgs3: seq<EncryptedKMsg>)
    requires c.cv.Valid() && |digests| == |points| == |msgs3|
    ensures var q := c.cv.q;
      var result := PresignSpec(c, a, input, digests, points, msgs3);
      var k := (input.k + Sum(NonceShares(input.kp, msgs3))) % q;
      var matching := forall l :: 0 <= l < |points| ==> c.commit(Peer(a, l), points[l]) == digests[l];
      && (result == CommitmentMismatch <==> !matching)
      && (result == ZeroNonce <==> matching && k == 0)
      && (result.Presigned? <==> matching && k != 0)
      && (result.Presigned? ==>
            && result.presig.rPoint == Point((input.k + Sum(Logs(points))) % q)
            && result.presig.r == c.cv.XCoord(result.presig.rPoint)
            && result.presig.k == k && (k * result.presig.kInv) % q == 1)
  {
    var q := c.cv.q;
    var k := (input.k + Sum(NonceShares(input.kp, msgs3))) % q;
    OpenedIff(c, a, digests, points);
    ModMod(input.k + Sum(NonceShares(input.kp, msgs3)), q);
    if k != 0 { PrimeInverse(q, k); }
  }

  lemma OpenedIff(c: Config, a: nat, digests: seq<Digest>, points: seq<Point>)
    requires |digests| == |points|
    ensures AllOpen(c, a, digests, points, |points|) <==>
      forall l :: 0 <= l < |points| ==> c.commit(Peer(a, l), points[l]) == digests[l]
  {
    if AllOpen(c, a, digests, points, |points|) {
      forall l | 0 <= l < |points|
        ensures c.commit(Peer(a, l), points[l]) == digests[l]
      {
        assert OpensTo(c, Peer(a, l), digests[l], points[l]);
      }
    }
  }

  /** The range proof a signer sends would be accepted, although its receiver never checks it. */
  lemma SentRangeProofPasses(c: Config, input: Input, peer: nat, n: pos)
    requires input.k < c.cv.q <= TWO_256 && input.peerRandom(peer).alpha < Pow(2, 256 + 256 + Bits(n))
    ensures var pk := PublicKeyOf(n);
      var msg := EncryptNonce(c, input, peer, KeyMsg(n, pk.g));
      && msg.cKShare == Some(EncryptWithRho(pk, input.k, input.peerRandom(peer).rho))
      && msg.rangeProof.Some? && VerifyRange(pk, msg.cKShare.value, 256, c.range, msg.rangeProof.value)
  {
    var rnd := input.peerRandom(peer);
    var ell: nat :| ell == 256;
    TwoTo256(ell);
    TwoPowMonotone(ell, ell + Bits(n));
    RangeComplete(n, input.k, rnd.rho, ell, c.range, rnd.alpha, rnd.gamma);
  }

  // ---------------------------------------------------------------- honest runs

  ghost predicate HonestInputs(c: Config, inputs: seq<Input>) {
    && c.cv.Valid()
    && (forall a {:trigger inputs[a]} :: 0 <= a < |inputs| ==>
          ValidKey(inputs[a].kp) && inputs[a].kp.pk.n >= c.cv.q && inputs[a].k < c.cv.q)
    && (forall b, a {:trigger inputs[b].peerRandom(a)} :: 0 <= b < |inputs| && 0 <= a < |inputs| ==>
          Unit(inputs[a].kp, inputs[b].peerRandom(a).rho))
  }

  function Nonces(inputs: seq<Input>): (r: seq<nat>)
    ensures |r| == |inputs|
  {
    seq(|inputs|, a requires 0 <= a < |inputs| => inputs[a].k)
  }

  function NoncePoints(c: Config, inputs: seq<Input>): (r: seq<Point>)
    ensures |r| == |inputs|
  {
    seq(|inputs|, a requires 0 <= a < |inputs| => NoncePoint(c, inputs[a]))
  }

  function NonceDigests(c: Config, inputs: seq<Input>): (r: seq<Digest>)
    ensures |r| == |inputs|
  {
    seq(|inputs|, a requires 0 <= a < |inputs| => NonceDigest(c, a, inputs[a]))
  }

  /** What the signers send to the one with local index a. */
  function SentTo(c: Config, inputs: seq<Input>, a: nat): (r: seq<EncryptedKMsg>)
    requires a < |inputs|
    ensures |r| == |inputs|
  {
    var pk := inputs[a].kp.pk;
    seq(|inputs|, b requires 0 <= b < |inputs| => EncryptNonce(c, inputs[b], a, KeyMsg(pk.n, pk.g)))
  }

  function HonestPresign(c: Config, inputs: seq<Input>, a: nat): PresignResult
    requires a < |inputs|
  {
    PresignSpec(c, a, inputs[a], Without(NonceDigests(c, inputs), a), Without(NoncePoints(c, inputs), a),
        Without(SentTo(c, inputs, a), a))
  }

  /** Signer a decrypts exactly the nonce share signer b drew, because a's modulus is at least q. */
  lemma NonceShareDelivered(c: Config, inputs: seq<Input>, a: nat, b: nat)
    requires HonestInputs(c, inputs) && a < |inputs| && b < |inputs|
    ensures NonceShareOf(inputs[a].kp, SentTo(c, inputs, a)[b]) == inputs[b].k
  {
    var kp := inputs[a].kp;
    KeyFacts(kp);
    DecryptEncrypt(kp, inputs[b].k, inputs[b].peerRandom(a).rho);
    ModSmall(inputs[b].k, kp.pk.n);
  }

  ghost predicate NonceArrives(kp: Keypair, rho: nat, k: nat) {
    Decrypt(kp.sk, kp.pk, EncryptWithRho(kp.pk, k, rho)) == k
  }

  lemma NonceArrivesIff(kp: Keypair, rho: nat, k: nat)
    requires ValidKey(kp) && Unit(kp, rho)
    ensures NonceArrives(kp, rho, k) <==> k < kp.pk.n
  {
    DecryptEncrypt(kp, k, rho);
    if k < kp.pk.n { ModSmall(k, kp.pk.n); }
  }

  /** The modulus bound is exact: every nonce share below q arrives exactly when n is at least q. */
  lemma EveryNonceArrivesIff(kp: Keypair, rho: nat, q: pos)
    requires ValidKey(kp) && Unit(kp, rho)
    ensures (forall k: nat :: k < q ==> NonceArrives(kp, rho, k)) <==> kp.pk.n >= q
  {
    forall k: nat
      ensures NonceArrives(kp, rho, k) <==> k < kp.pk.n
    {
      NonceArrivesIff(kp, rho, k);
    }
    if kp.pk.n < q { assert !NonceArrives(kp, rho, kp.pk.n); }
  }

  lemma NonceSharesDelivered(c: Config, inputs: seq<Input>, a: nat)
    requires HonestInputs(c, inputs) && a < |inputs|
    ensures NonceShares(inputs[a].kp, Without(SentTo(c, inputs, a), a)) == Without(Nonces(inputs), a)
  {
    forall k | 0 <= k < |inputs| - 1
      ensures NonceShares(inputs[a].kp, Without(SentTo(c, inputs, a), a))[k] == Without(Nonces(inputs), a)[k]
    {
      NonceShareDelivered(c, inputs, a, Peer(a, k));
    }
  }

  lemma PointsAreNonces(c: Config, inputs: seq<Input>, a: nat)
    requires HonestInputs(c, inputs) && a < |inputs|
    ensures Logs(Without(NoncePoints(c, inputs), a)) == Without(Nonces(inputs), a)
  {
    forall k | 0 <= k < |inputs| - 1
      ensures Logs(Without(NoncePoints(c, inputs), a))[k] == Without(Nonces(inputs), a)[k]
    {
      assert inputs[Peer(a, k)].k < c.cv.q;
      ModSmall(inputs[Peer(a, k)].k, c.cv.q);
    }
  }

  /**
   * Nonce agreement: in an honest run every signer concludes from the same nonce
   * k = sum of the k_j modulo q, and the sum of the revealed points is k G.
   */
  lemma NonceAgreement(c: Config, inputs: seq<Input>, a: nat)
    requires HonestInputs(c, inputs) && a < |inputs|
    ensures var k := Sum(Nonces(inputs)) % c.cv.q;
      HonestPresign(c, inputs, a) ==
        if k == 0 then ZeroNonce
        else Presigned(Presignature(k, Inverse(k, c.cv.q), c.cv.XCoord(MulG(k, c.cv.q)), MulG(k, c.cv.q)))
  {
    var k := Sum(Nonces(inputs)) % c.cv.q;
    NonceSharesDelivered(c, inputs, a);
    PointsAreNonces(c, inputs, a);
    SumModWithout(Nonces(inputs), a, c.cv.q);
    ModMod(Sum(Nonces(inputs)), c.cv.q);
  }

  /** The inverse in the presignature is a true inverse whenever presigning succeeds. */
  lemma PresignedInverse(c: Config, inputs: seq<Input>, a: nat)
    requires HonestInputs(c, inputs) && a < |inputs| && HonestPresign(c, inputs, a).Presigned?
    ensures var p := HonestPresign(c, inputs, a).presig;
      (p.k * p.kInv) % c.cv.q == 1 && p.rPoint == MulG(p.k, c.cv.q) && p.r == c.cv.XCoord(p.rPoint)
  {
    NonceAgreement(c, inputs, a);
    ModMod(Sum(Nonces(inputs)), c.cv.q);
    PrimeInverse(c.cv.q, Sum(Nonces(inputs)) % c.cv.q);
  }
}
