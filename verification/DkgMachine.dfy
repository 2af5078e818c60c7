/**
 * Key generation as a step machine: n parties, some of them arbitrary, reliable broadcast in
 * rounds 1 and 2, tagged point-to-point messages in round 3, deliveries in any order.
 */
module DkgMachine {
  import opened Arithmetic
  import opened Primes
  import opened Group
  import opened Core
  import opened Rounds
  import opened Wrappers
  import opened LindellDkg
  import opened ShareThreshold

  /** What stays fixed over a run; `polys[j]` is the polynomial of party j when j is honest. */
  datatype Config = Config(n: nat, t: nat, q: pos, polys: seq<seq<nat>>, honest: set<nat>, commit: CommitOracle) {
    ghost predicate Valid() {
      |polys| == n && forall j :: j in honest ==> j < n
    }
  }

  /** A party's receive buffers and result. */
  datatype Party = Party(digestBox: map<nat, Digest>, openingBox: map<nat, seq<Point>>, shareBox: map<nat, nat>,
      result: Option<VssResult>)

  /** The broadcast logs, the point-to-point messages sent so far, and every party. */
  datatype State = State(digests: map<nat, Digest>, openings: map<nat, seq<Point>>, sent: map<(nat, nat), nat>,
      parties: seq<Party>)

  datatype Step =
    | BroadcastDigest(j: nat, digest: Digest)
    | BroadcastOpening(j: nat, opening: seq<Point>)
    | SendShare(j: nat, to: nat, share: nat)
    | DeliverDigest(j: nat, to: nat)
    | DeliverOpening(j: nat, to: nat)
    | DeliverShare(j: nat, to: nat)
    | Finish(i: nat)

  ghost predicate Init(c: Config, s: State) {
    && s.digests == map[] && s.openings == map[] && s.sent == map[]
    && |s.parties| == c.n
    && forall i :: 0 <= i < c.n ==> s.parties[i] == Party(map[], map[], map[], None)
  }

  /** The buffer holds a message from every party but i. */
  ghost predicate Complete<T>(box: map<nat, T>, i: nat, n: nat) {
    forall k {:trigger Peer(i, k)} :: 0 <= k < n - 1 ==> Peer(i, k) in box
  }

  /** The round's messages in the order `into_iter_indexed` yields them. */
  ghost function Collect<T>(box: map<nat, T>, i: nat, n: nat): (r: seq<T>)
    requires i < n && Complete(box, i, n)
    ensures |r| == n - 1 && forall k :: 0 <= k < n - 1 ==> r[k] == box[Peer(i, k)]
  {
    seq(n - 1, k requires 0 <= k < n - 1 => box[Peer(i, k)])
  }

  /** The commitment loop's outcome once rounds 1 and 2 are complete. */
  ghost function OpeningOutcome(c: Config, p: Party, i: nat): Option<VssResult>
    requires i < c.n && Complete(p.digestBox, i, c.n) && Complete(p.openingBox, i, c.n)
  {
    OpeningError(i, c.commit, Collect(p.digestBox, i, c.n), Collect(p.openingBox, i, c.n), c.n - 1)
  }

  ghost predicate RoundTwoDone(c: Config, s: State, i: nat)
    requires i < c.n == |s.parties|
  {
    var p := s.parties[i];
    i in s.openings && Complete(p.digestBox, i, c.n) && Complete(p.openingBox, i, c.n)
  }

  /** Party i has sent every share. */
  ghost predicate AllSent(s: State, i: nat, n: nat) {
    forall to :: 0 <= to < n && to != i ==> (i, to) in s.sent
  }

  /** Party i can return: either the commitment loop failed, or it sent its shares and round 3 is complete. */
  ghost predicate CanFinish(c: Config, s: State, i: nat)
    requires i < c.n == |s.parties|
  {
    var p := s.parties[i];
    && RoundTwoDone(c, s, i) && p.result.None?
    && (OpeningOutcome(c, p, i).Some? || (AllSent(s, i, c.n) && Complete(p.shareBox, i, c.n)))
  }

  ghost function Outcome(c: Config, p: Party, i: nat): VssResult
    requires c.Valid() && i < c.n && Complete(p.digestBox, i, c.n) && Complete(p.openingBox, i, c.n)
    requires OpeningOutcome(c, p, i).Some? || Complete(p.shareBox, i, c.n)
  {
    if OpeningOutcome(c, p, i).Some? then OpeningOutcome(c, p, i).value
    else VssSpec(i, c.polys[i], c.q, c.commit, Collect(p.digestBox, i, c.n), Collect(p.openingBox, i, c.n),
        Collect(p.shareBox, i, c.n))
  }

  /** Honest parties broadcast and send what `run_vss` computes, in round order; others send anything. */
  ghost predicate Next(c: Config, s: State, step: Step, s': State) {
    && c.Valid() && |s.parties| == c.n
    && match step
       case BroadcastDigest(j, digest) =>
         && j < c.n && j !in s.digests
         && (j in c.honest ==> digest == c.commit(j, Commitments(c.polys[j], c.q)))
         && s' == s.(digests := s.digests[j := digest])
       case BroadcastOpening(j, opening) =>
         && j < c.n && j !in s.openings
         && (j in c.honest ==>
              && opening == Commitments(c.polys[j], c.q)
              && j in s.digests && Complete(s.parties[j].digestBox, j, c.n))
         && s' == s.(openings := s.openings[j := opening])
       case SendShare(j, to, share) =>
         && j < c.n && to < c.n && j != to && (j, to) !in s.sent
         && (j in c.honest ==>
              && share == ShareFor(c.polys[j], to, c.q)
              && RoundTwoDone(c, s, j) && OpeningOutcome(c, s.parties[j], j).None?)
         && s' == s.(sent := s.sent[(j, to) := share])
       case DeliverDigest(j, to) =>
         && to < c.n && j != to && j in s.digests
         && var p := s.parties[to];
            s' == s.(parties := s.parties[to := p.(digestBox := p.digestBox[j := s.digests[j]])])
       case DeliverOpening(j, to) =>
         && to < c.n && j != to && j in s.openings
         && var p := s.parties[to];
            s' == s.(parties := s.parties[to := p.(openingBox := p.openingBox[j := s.openings[j]])])
       case DeliverShare(j, to) =>
         && to < c.n && (j, to) in s.sent
         && var p := s.parties[to];
            s' == s.(parties := s.parties[to := p.(shareBox := p.shareBox[j := s.sent[(j, to)]])])
       case Finish(i) =>
         && i in c.honest && CanFinish(c, s, i)
         && s' == s.(parties := s.parties[i := s.parties[i].(result := Some(Outcome(c, s.parties[i], i)))])
  }

  ghost predicate IsRun(c: Config, trace: seq<State>, steps: seq<Step>) {
    && |trace| == |steps| + 1
    && Init(c, trace[0])
    && forall k :: 0 <= k < |steps| ==> Next(c, trace[k], steps[k], trace[k + 1])
  }

  // ---------------------------------------------------------------- the invariant

  ghost predicate AllOpened(c: Config, s: State) {
    forall j {:trigger j in s.openings} :: 0 <= j < c.n ==> j in s.openings
  }

  ghost function AllOpenings(c: Config, s: State): (r: seq<seq<Point>>)
    requires AllOpened(c, s)
    ensures |r| == c.n && forall j :: 0 <= j < c.n ==> r[j] == s.openings[j]
  {
    seq(c.n, j requires 0 <= j < c.n => s.openings[j])
  }

  ghost predicate AllHonest(c: Config) {
    (forall j :: 0 <= j < c.n ==> j in c.honest) && HonestPolys(c.polys, c.n, c.t)
  }

  /** What a returned result must satisfy. */
  ghost predicate ResultSound(c: Config, s: State, i: nat, r: VssResult) {
    && (r.Accepted? ==>
          && AllOpened(c, s)
          && r.pk == MulG(Sum(Heads(AllOpenings(c, s))), c.q)
          && MulG(r.share, c.q) == MulG(Sum(CommittedAt(AllOpenings(c, s), i + 1)), c.q))
    && (AllHonest(c) ==> r == Accepted(SumAt(c.polys, i + 1) % c.q, MulG(SumAt(c.polys, 0), c.q)))
  }

  /** The broadcast log and the honest parties' messages. */
  ghost predicate LogInv(c: Config, s: State)
    requires c.Valid()
  {
    && (forall j :: j in s.digests ==> j < c.n)
    && (forall j :: j in s.openings ==> j < c.n)
    && (forall j, i :: (j, i) in s.sent ==> j < c.n && i < c.n)
    && (forall j :: j in s.digests && j in c.honest ==> s.digests[j] == c.commit(j, Commitments(c.polys[j], c.q)))
    && (forall j :: j in s.openings && j in c.honest ==> s.openings[j] == Commitments(c.polys[j], c.q))
    && (forall j, i :: (j, i) in s.sent && j in c.honest ==> s.sent[(j, i)] == ShareFor(c.polys[j], i, c.q))
  }

  /** Buffers hold what was sent, and a returned result is sound. */
  ghost predicate PartyInv(c: Config, s: State, p: Party, i: nat) {
    && (forall j :: j in p.digestBox ==> j in s.digests && s.digests[j] == p.digestBox[j])
    && (forall j :: j in p.openingBox ==> j in s.openings && s.openings[j] == p.openingBox[j])
    && (forall j :: j in p.shareBox ==> (j, i) in s.sent && s.sent[(j, i)] == p.shareBox[j])
    && (p.result.Some? ==> ResultSound(c, s, i, p.result.value))
  }

  ghost predicate Inv(c: Config, s: State) {
    && c.Valid() && |s.parties| == c.n && LogInv(c, s)
    && forall i {:trigger s.parties[i]} :: 0 <= i < c.n ==> PartyInv(c, s, s.parties[i], i)
  }

  /** The logs only grow. */
  ghost predicate Extends(s: State, s': State) {
    && (forall j :: j in s.digests ==> j in s'.digests && s'.digests[j] == s.digests[j])
    && (forall j :: j in s.openings ==> j in s'.openings && s'.openings[j] == s.openings[j])
    && (forall m :: m in s.sent ==> m in s'.sent && s'.sent[m] == s.sent[m])
  }

  lemma PartyInvMonotone(c: Config, s: State, s': State, p: Party, i: nat)
    requires Extends(s, s') && PartyInv(c, s, p, i)
    ensures PartyInv(c, s', p, i)
  {
    if p.result.Some? && p.result.value.Accepted? {
      assert AllOpenings(c, s') == AllOpenings(c, s);
    }
  }

  lemma ExtendsMonotone(c: Config, s: State, s': State)
    requires Extends(s, s') && |s.parties| == c.n == |s'.parties|
    requires forall i {:trigger s.parties[i]} :: 0 <= i < c.n ==> PartyInv(c, s, s.parties[i], i)
    ensures forall i {:trigger s.parties[i]} :: 0 <= i < c.n ==> PartyInv(c, s', s.parties[i], i)
  {
    forall i | 0 <= i < c.n
      ensures PartyInv(c, s', s.parties[i], i)
    {
      PartyInvMonotone(c, s, s', s.parties[i], i);
    }
  }

  lemma BroadcastKeepsInv(c: Config, s: State, step: Step, s': State)
    requires Inv(c, s) && Next(c, s, step, s')
    requires step.BroadcastDigest? || step.BroadcastOpening? || step.SendShare?
    ensures Inv(c, s')
  {
    assert Extends(s, s');
    ExtendsMonotone(c, s, s');
  }

  /** Deliveries and returns change one party; the invariant must be shown for that party only. */
  lemma OnePartyKeepsInv(c: Config, s: State, s': State, i: nat, p: Party)
    requires Inv(c, s) && i < c.n && s' == s.(parties := s.parties[i := p])
    requires PartyInv(c, s, p, i)
    ensures Inv(c, s')
  {
    assert Extends(s, s');
    forall l | 0 <= l < c.n
      ensures PartyInv(c, s', s'.parties[l], l)
    {
      PartyInvMonotone(c, s, s', if l == i then p else s.parties[l], l);
    }
  }

  lemma DeliverKeepsInv(c: Config, s: State, step: Step, s': State)
    requires Inv(c, s) && Next(c, s, step, s')
    requires step.DeliverDigest? || step.DeliverOpening? || step.DeliverShare?
    ensures Inv(c, s')
  {
    assert PartyInv(c, s, s.parties[step.to], step.to);
    OnePartyKeepsInv(c, s, s', step.to, s'.parties[step.to]);
  }

  /** The buffered openings are everyone else's broadcast openings. */
  lemma BufferedOpenings(c: Config, s: State, i: nat)
    requires Inv(c, s) && i in c.honest && RoundTwoDone(c, s, i)
    ensures AllOpened(c, s)
    ensures Collect(s.parties[i].openingBox, i, c.n) == Without(AllOpenings(c, s), i)
    ensures AllOpenings(c, s)[i] == Commitments(c.polys[i], c.q)
  {
    var p := s.parties[i];
    assert PartyInv(c, s, p, i);
    forall j | 0 <= j < c.n
      ensures j in s.openings
    {
      if j != i { assert j == Peer(i, if j < i then j else j - 1); }
    }
    assert Collect(p.openingBox, i, c.n) == Without(AllOpenings(c, s), i);
  }

  /** An accepted outcome comes from the share loop. */
  lemma AcceptedOutcome(c: Config, p: Party, i: nat)
    requires c.Valid() && i < c.n && Complete(p.digestBox, i, c.n) && Complete(p.openingBox, i, c.n)
    requires OpeningOutcome(c, p, i).Some? || Complete(p.shareBox, i, c.n)
    requires Outcome(c, p, i).Accepted?
    ensures OpeningOutcome(c, p, i).None? && Complete(p.shareBox, i, c.n)
  {
    var digests, openings := Collect(p.digestBox, i, c.n), Collect(p.openingBox, i, c.n);
    var dummy := seq(c.n - 1, _ => 0);
    ErrorsAreNotAccepted(i, c.commit, digests, openings, dummy, c.q, c.n - 1);
  }

  lemma AcceptedResultSound(c: Config, s: State, i: nat)
    requires Inv(c, s) && i in c.honest && CanFinish(c, s, i) && Outcome(c, s.parties[i], i).Accepted?
    ensures var r := Outcome(c, s.parties[i], i);
      && AllOpened(c, s)
      && r.pk == MulG(Sum(Heads(AllOpenings(c, s))), c.q)
      && MulG(r.share, c.q) == MulG(Sum(CommittedAt(AllOpenings(c, s), i + 1)), c.q)
  {
    var p := s.parties[i];
    BufferedOpenings(c, s, i);
    var digests := Collect(p.digestBox, i, c.n);
    AcceptedOutcome(c, p, i);
    AcceptedShareIsConsistent(i, c.polys[i], c.q, c.commit, digests, AllOpenings(c, s), Collect(p.shareBox, i, c.n));
  }

  lemma HonestDigestBuffer(c: Config, s: State, i: nat)
    requires Inv(c, s) && AllHonest(c) && i < c.n && Complete(s.parties[i].digestBox, i, c.n)
    ensures Collect(s.parties[i].digestBox, i, c.n) == Without(Digests(Openings(c.polys, c.q), c.commit), i)
  {
    assert PartyInv(c, s, s.parties[i], i);
  }

  lemma HonestOpeningBuffer(c: Config, s: State, i: nat)
    requires Inv(c, s) && AllHonest(c) && i < c.n && Complete(s.parties[i].openingBox, i, c.n)
    ensures Collect(s.parties[i].openingBox, i, c.n) == Without(Openings(c.polys, c.q), i)
  {
    assert PartyInv(c, s, s.parties[i], i);
  }

  lemma HonestShareBuffer(c: Config, s: State, i: nat)
    requires Inv(c, s) && AllHonest(c) && i < c.n && Complete(s.parties[i].shareBox, i, c.n)
    ensures Collect(s.parties[i].shareBox, i, c.n) == Without(SharesOf(c.polys, i, c.q), i)
  {
    assert PartyInv(c, s, s.parties[i], i);
  }

  lemma HonestOpeningsPass(c: Config, s: State, i: nat)
    requires Inv(c, s) && AllHonest(c) && i < c.n && RoundTwoDone(c, s, i)
    ensures OpeningOutcome(c, s.parties[i], i).None?
  {
    var all := Openings(c.polys, c.q);
    HonestDigestBuffer(c, s, i);
    HonestOpeningBuffer(c, s, i);
    HonestOpeningsUnopposed(c, i);
    OutcomeOfBuffers(c, s.parties[i], i, Without(Digests(all, c.commit), i), Without(all, i));
  }

  lemma OutcomeOfBuffers(c: Config, p: Party, i: nat, digests: seq<Digest>, openings: seq<seq<Point>>)
    requires i < c.n && Complete(p.digestBox, i, c.n) && Complete(p.openingBox, i, c.n)
    requires Collect(p.digestBox, i, c.n) == digests && Collect(p.openingBox, i, c.n) == openings
    ensures OpeningOutcome(c, p, i) == OpeningError(i, c.commit, digests, openings, c.n - 1)
  {
  }

  lemma HonestOpeningsUnopposed(c: Config, i: nat)
    requires c.Valid() && AllHonest(c) && i < c.n
    ensures var all := Openings(c.polys, c.q);
      OpeningError(i, c.commit, Without(Digests(all, c.commit), i), Without(all, i), c.n - 1).None?
  {
    var all := Openings(c.polys, c.q);
    HonestChecksPass(i, c.polys, c.n, c.q, c.commit);
    OpeningErrorNone(i, c.commit, Without(Digests(all, c.commit), i), Without(all, i), c.n - 1);
  }

  lemma HonestOutcome(c: Config, s: State, i: nat)
    requires Inv(c, s) && i in c.honest && CanFinish(c, s, i) && AllHonest(c)
    ensures Outcome(c, s.parties[i], i) == HonestVss(i, c.polys, c.q, c.commit)
  {
    HonestOpeningsPass(c, s, i);
    HonestDigestBuffer(c, s, i);
    HonestOpeningBuffer(c, s, i);
    HonestShareBuffer(c, s, i);
  }

  lemma FinishKeepsInv(c: Config, s: State, step: Step, s': State)
    requires Inv(c, s) && Next(c, s, step, s') && step.Finish?
    ensures Inv(c, s')
  {
    var i := step.i;
    var r := Outcome(c, s.parties[i], i);
    if r.Accepted? { AcceptedResultSound(c, s, i); }
    if AllHonest(c) {
      HonestOutcome(c, s, i);
      HonestVssResult(i, c.polys, c.n, c.t, c.q, c.commit);
    }
    assert PartyInv(c, s, s.parties[i], i);
    OnePartyKeepsInv(c, s, s', i, s'.parties[i]);
  }

  /** Every step keeps the invariant. */
  lemma NextKeepsInv(c: Config, s: State, step: Step, s': State)
    requires Inv(c, s) && Next(c, s, step, s')
    ensures Inv(c, s')
  {
    match step
    case BroadcastDigest(_, _) => BroadcastKeepsInv(c, s, step, s');
    case BroadcastOpening(_, _) => BroadcastKeepsInv(c, s, step, s');
    case SendShare(_, _, _) => BroadcastKeepsInv(c, s, step, s');
    case DeliverDigest(_, _) => DeliverKeepsInv(c, s, step, s');
    case DeliverOpening(_, _) => DeliverKeepsInv(c, s, step, s');
    case DeliverShare(_, _) => DeliverKeepsInv(c, s, step, s');
    case Finish(_) => FinishKeepsInv(c, s, step, s');
  }

  lemma {:induction false} RunKeepsInv(c: Config, trace: seq<State>, steps: seq<Step>)
    requires c.Valid() && IsRun(c, trace, steps)
    ensures Inv(c, trace[|steps|])
  {
    if |steps| != 0 {
      var k := |steps| - 1;
      assert IsRun(c, trace[..k + 1], steps[..k]);
      RunKeepsInv(c, trace[..k + 1], steps[..k]);
      assert Next(c, trace[k], steps[k], trace[k + 1]);
      NextKeepsInv(c, trace[k], steps[k], trace[k + 1]);
    }
  }

  /**
   * Agreement over whole runs, whatever the dishonest parties send and in whatever order
   * messages arrive: all honest parties that accept hold the same public key, and each one's
   * share opens the sum of all broadcast polynomials at its own point.
   */
  lemma Agreement(c: Config, trace: seq<State>, steps: seq<Step>, i: nat, j: nat)
    requires c.Valid() && IsRun(c, trace, steps) && i < c.n && j < c.n
    requires var s := trace[|steps|];
      |s.parties| == c.n && forall l :: l == i || l == j ==>
        s.parties[l].result.Some? && s.parties[l].result.value.Accepted?
    ensures var s := trace[|steps|];
      var a, b := s.parties[i].result.value, s.parties[j].result.value;
      && a.pk == b.pk
      && AllOpened(c, s)
      && MulG(a.share, c.q) == MulG(Sum(CommittedAt(AllOpenings(c, s), i + 1)), c.q)
  {
    RunKeepsInv(c, trace, steps);
    var s := trace[|steps|];
    assert PartyInv(c, s, s.parties[i], i) && PartyInv(c, s, s.parties[j], j);
  }

  /** When all parties are honest, no delivery order makes any of them return anything else. */
  lemma HonestRuns(c: Config, trace: seq<State>, steps: seq<Step>, i: nat)
    requires c.Valid() && IsRun(c, trace, steps) && i < c.n && AllHonest(c)
    ensures var s := trace[|steps|];
      |s.parties| == c.n &&
      (s.parties[i].result.Some? ==>
        s.parties[i].result.value == Accepted(SumAt(c.polys, i + 1) % c.q, MulG(SumAt(c.polys, 0), c.q)))
  {
    RunKeepsInv(c, trace, steps);
    var s := trace[|steps|];
    assert PartyInv(c, s, s.parties[i], i);
  }

  ghost predicate AcceptedAt(s: State, i: nat) {
    i < |s.parties| && s.parties[i].result.Some? && s.parties[i].result.value.Accepted?
  }

  /** Every party's share; parties without one count as 0. */
  ghost function ShareTable(s: State): (r: seq<nat>)
    ensures |r| == |s.parties|
  {
    seq(|s.parties|, i requires 0 <= i < |s.parties| =>
      if AcceptedAt(s, i) then s.parties[i].result.value.share else 0)
  }

  ghost predicate AllAccept(s: State, signers: seq<nat>) {
    forall k :: 0 <= k < |signers| ==> AcceptedAt(s, signers[k])
  }

  /** The secret the signers' shares reconstruct is the one behind the public key each of them holds. */
  ghost predicate OpenTheirKey(s: State, signers: seq<nat>, q: pos)
    requires AllAccept(s, signers)
  {
    var key := MulG(Reconstructed(signers, signers, ShareTable(s), q), q);
    forall k :: 0 <= k < |signers| ==> s.parties[signers[k]].result.value.pk == key
  }

  /**
   * Reconstruction over whole runs, against arbitrary dishonest parties: distinct honest parties
   * that accepted, at least as many as the longest broadcast list, reconstruct the secret behind
   * the public key they all hold.
   */
  lemma AcceptingPartiesReconstruct(c: Config, trace: seq<State>, steps: seq<Step>, signers: seq<nat>)
    requires c.Valid() && IsRun(c, trace, steps) && IsPrime(c.q) && c.n <= c.q
    requires Distinct(signers) && |signers| > 0
    requires AllAccept(trace[|steps|], signers)
    requires AllOpened(c, trace[|steps|]) ==> ListsAtMost(AllOpenings(c, trace[|steps|]), |signers|)
    ensures OpenTheirKey(trace[|steps|], signers, c.q)
  {
    RunKeepsInv(c, trace, steps);
    var s := trace[|steps|];
    AcceptedAreSound(c, s, signers);
    assert ResultSound(c, s, signers[0], s.parties[signers[0]].result.value);
    ConsistentSharesReconstruct(signers, ShareTable(s), AllOpenings(c, s), c.q);
  }

  /** The exact condition for one run, without any bound on the broadcast lists. */
  lemma AcceptingPartiesReconstructIff(c: Config, trace: seq<State>, steps: seq<Step>, signers: seq<nat>)
    requires c.Valid() && IsRun(c, trace, steps) && IsPrime(c.q) && c.n < c.q
    requires Distinct(signers) && |signers| > 0
    requires AllAccept(trace[|steps|], signers)
    ensures AllOpened(c, trace[|steps|])
    ensures OpenTheirKey(trace[|steps|], signers, c.q) <==>
      PolyAt(QuotientAll(CombinedPoly(LogLists(AllOpenings(c, trace[|steps|]))), signers), 0) % c.q == 0
  {
    var s := trace[|steps|];
    RunKeepsInv(c, trace, steps);
    AcceptedAreSound(c, s, signers);
    assert ResultSound(c, s, signers[0], s.parties[signers[0]].result.value);
    ConsistentReconstructIff(signers, ShareTable(s), AllOpenings(c, s), c.q);
  }

  lemma AcceptedAreSound(c: Config, s: State, signers: seq<nat>)
    requires Inv(c, s) && AllAccept(s, signers)
    ensures forall k :: 0 <= k < |signers| ==>
      ResultSound(c, s, signers[k], s.parties[signers[k]].result.value)
  {
    forall k | 0 <= k < |signers|
      ensures ResultSound(c, s, signers[k], s.parties[signers[k]].result.value)
    {
      assert PartyInv(c, s, s.parties[signers[k]], signers[k]);
    }
  }

  // ---------------------------------------------------------------- progress and termination

  datatype Kind = DigestSent | OpeningSent | ShareSent | DigestGot | OpeningGot | ShareGot | Returned

  /** Something that can happen once: a message between j and `to`, or, with j == to, a broadcast or return of j. */
  datatype Event = Event(kind: Kind, j: nat, to: nat)

  ghost function EventOf(step: Step): Event {
    match step
    case BroadcastDigest(j, _) => Event(DigestSent, j, j)
    case BroadcastOpening(j, _) => Event(OpeningSent, j, j)
    case SendShare(j, to, _) => Event(ShareSent, j, to)
    case DeliverDigest(j, to) => Event(DigestGot, j, to)
    case DeliverOpening(j, to) => Event(OpeningGot, j, to)
    case DeliverShare(j, to) => Event(ShareGot, j, to)
    case Finish(i) => Event(Returned, i, i)
  }

  ghost predicate Happened(s: State, e: Event) {
    match e.kind
    case DigestSent => e.j in s.digests
    case OpeningSent => e.j in s.openings
    case ShareSent => (e.j, e.to) in s.sent
    case DigestGot => e.to < |s.parties| && e.j in s.parties[e.to].digestBox
    case OpeningGot => e.to < |s.parties| && e.j in s.parties[e.to].openingBox
    case ShareGot => e.to < |s.parties| && e.j in s.parties[e.to].shareBox
    case Returned => e.j < |s.parties| && s.parties[e.j].result.Some?
  }

  /** The step can be taken and does not repeat a delivery. */
  ghost predicate Enabled(c: Config, s: State, step: Step) {
    !Happened(s, EventOf(step)) && exists s' :: Next(c, s, step, s')
  }

  ghost predicate SomeEnabled(c: Config, s: State) {
    exists step :: Enabled(c, s, step)
  }

  lemma EnabledBy(c: Config, s: State, step: Step, s': State)
    requires Next(c, s, step, s') && !Happened(s, EventOf(step))
    ensures SomeEnabled(c, s)
  {
    assert Enabled(c, s, step);
  }

  lemma BroadcastDigestProgress(c: Config, s: State, j: nat)
    requires Inv(c, s) && AllHonest(c) && j < c.n && j !in s.digests
    ensures SomeEnabled(c, s)
  {
    var d := c.commit(j, Commitments(c.polys[j], c.q));
    EnabledBy(c, s, BroadcastDigest(j, d), s.(digests := s.digests[j := d]));
  }

  lemma DeliverDigestProgress(c: Config, s: State, j: nat, to: nat)
    requires Inv(c, s) && to < c.n && j != to && j in s.digests && j !in s.parties[to].digestBox
    ensures SomeEnabled(c, s)
  {
    var p := s.parties[to].(digestBox := s.parties[to].digestBox[j := s.digests[j]]);
    EnabledBy(c, s, DeliverDigest(j, to), s.(parties := s.parties[to := p]));
  }

  lemma BroadcastOpeningProgress(c: Config, s: State, j: nat)
    requires Inv(c, s) && AllHonest(c) && j < c.n && j !in s.openings
    requires j in s.digests && Complete(s.parties[j].digestBox, j, c.n)
    ensures SomeEnabled(c, s)
  {
    var o := Commitments(c.polys[j], c.q);
    EnabledBy(c, s, BroadcastOpening(j, o), s.(openings := s.openings[j := o]));
  }

  lemma DeliverOpeningProgress(c: Config, s: State, j: nat, to: nat)
    requires Inv(c, s) && to < c.n && j != to && j in s.openings && j !in s.parties[to].openingBox
    ensures SomeEnabled(c, s)
  {
    var p := s.parties[to].(openingBox := s.parties[to].openingBox[j := s.openings[j]]);
    EnabledBy(c, s, DeliverOpening(j, to), s.(parties := s.parties[to := p]));
  }

  lemma SendShareProgress(c: Config, s: State, j: nat, to: nat)
    requires Inv(c, s) && AllHonest(c) && j < c.n && to < c.n && j != to && (j, to) !in s.sent
    requires RoundTwoDone(c, s, j)
    ensures SomeEnabled(c, s)
  {
    HonestOpeningsPass(c, s, j);
    var v := ShareFor(c.polys[j], to, c.q);
    EnabledBy(c, s, SendShare(j, to, v), s.(sent := s.sent[(j, to) := v]));
  }

  lemma DeliverShareProgress(c: Config, s: State, j: nat, to: nat)
    requires Inv(c, s) && to < c.n && j != to && (j, to) in s.sent && j !in s.parties[to].shareBox
    ensures SomeEnabled(c, s)
  {
    var p := s.parties[to].(shareBox := s.parties[to].shareBox[j := s.sent[(j, to)]]);
    EnabledBy(c, s, DeliverShare(j, to), s.(parties := s.parties[to := p]));
  }

  lemma PeerIsOther(i: nat, k: nat, n: nat)
    requires i < n && k < n - 1
    ensures Peer(i, k) < n && Peer(i, k) != i
  {
  }

  /** All digests are broadcast and received. */
  ghost predicate RoundOneOver(c: Config, s: State)
    requires |s.parties| == c.n
  {
    forall j {:trigger s.parties[j]} :: 0 <= j < c.n ==> j in s.digests && Complete(s.parties[j].digestBox, j, c.n)
  }

  ghost predicate RoundTwoOver(c: Config, s: State)
    requires |s.parties| == c.n
  {
    forall j {:trigger s.parties[j]} :: 0 <= j < c.n ==> RoundTwoDone(c, s, j)
  }

  ghost predicate RoundThreeOver(c: Config, s: State)
    requires |s.parties| == c.n
  {
    forall j {:trigger s.parties[j]} :: 0 <= j < c.n ==> AllSent(s, j, c.n) && Complete(s.parties[j].shareBox, j, c.n)
  }

  lemma RoundTwoAt(c: Config, s: State, j: nat)
    requires |s.parties| == c.n && RoundTwoOver(c, s) && j < c.n
    ensures RoundTwoDone(c, s, j)
  {
  }

  lemma RoundOneProgress(c: Config, s: State)
    requires Inv(c, s) && AllHonest(c) && !RoundOneOver(c, s)
    ensures SomeEnabled(c, s)
  {
    if j: nat :| j < c.n && j !in s.digests {
      BroadcastDigestProgress(c, s, j);
    } else {
      var j :| 0 <= j < c.n && !Complete(s.parties[j].digestBox, j, c.n);
      var k: nat :| k < c.n - 1 && Peer(j, k) !in s.parties[j].digestBox;
      PeerIsOther(j, k, c.n);
      DeliverDigestProgress(c, s, Peer(j, k), j);
    }
  }

  lemma RoundTwoProgress(c: Config, s: State)
    requires Inv(c, s) && AllHonest(c) && RoundOneOver(c, s) && !RoundTwoOver(c, s)
    ensures SomeEnabled(c, s)
  {
    if j: nat :| j < c.n && j !in s.openings {
      assert Complete(s.parties[j].digestBox, j, c.n);
      BroadcastOpeningProgress(c, s, j);
    } else {
      var j :| 0 <= j < c.n && !RoundTwoDone(c, s, j);
      assert Complete(s.parties[j].digestBox, j, c.n);
      var k: nat :| k < c.n - 1 && Peer(j, k) !in s.parties[j].openingBox;
      PeerIsOther(j, k, c.n);
      DeliverOpeningProgress(c, s, Peer(j, k), j);
    }
  }

  lemma RoundThreeProgress(c: Config, s: State)
    requires Inv(c, s) && AllHonest(c) && RoundTwoOver(c, s) && !RoundThreeOver(c, s)
    ensures SomeEnabled(c, s)
  {
    if j: nat :| j < c.n && !AllSent(s, j, c.n) {
      var to: nat :| to < c.n && to != j && (j, to) !in s.sent;
      RoundTwoAt(c, s, j);
      SendShareProgress(c, s, j, to);
    } else {
      var j :| 0 <= j < c.n && !Complete(s.parties[j].shareBox, j, c.n);
      MissingShareProgress(c, s, j);
    }
  }

  lemma MissingShareProgress(c: Config, s: State, i: nat)
    requires Inv(c, s) && i < c.n && !Complete(s.parties[i].shareBox, i, c.n)
    requires forall j :: 0 <= j < c.n ==> AllSent(s, j, c.n)
    ensures SomeEnabled(c, s)
  {
    var k: nat :| k < c.n - 1 && Peer(i, k) !in s.parties[i].shareBox;
    PeerIsOther(i, k, c.n);
    assert AllSent(s, Peer(i, k), c.n);
    DeliverShareProgress(c, s, Peer(i, k), i);
  }

  lemma FinishProgress(c: Config, s: State, i: nat)
    requires Inv(c, s) && AllHonest(c) && i < c.n && s.parties[i].result.None?
    requires RoundTwoOver(c, s) && RoundThreeOver(c, s)
    ensures SomeEnabled(c, s)
  {
    var p := s.parties[i];
    EnabledBy(c, s, Finish(i), s.(parties := s.parties[i := p.(result := Some(Outcome(c, p, i)))]));
  }

  /** No deadlock when all parties are honest: while one has not returned, some new step can be taken. */
  lemma Progress(c: Config, s: State, i: nat)
    requires Inv(c, s) && AllHonest(c) && i < c.n && s.parties[i].result.None?
    ensures SomeEnabled(c, s)
  {
    if !RoundOneOver(c, s) {
      RoundOneProgress(c, s);
    } else if !RoundTwoOver(c, s) {
      RoundTwoProgress(c, s);
    } else if !RoundThreeOver(c, s) {
      RoundThreeProgress(c, s);
    } else {
      FinishProgress(c, s, i);
    }
  }

  ghost function Universe(n: nat): set<Event> {
    set kind: Kind, j, to | 0 <= j < n && 0 <= to < n :: Event(kind, j, to)
  }

  /** The events that have not happened yet: the termination measure. */
  ghost function Pending(c: Config, s: State): set<Event> {
    set e | e in Universe(c.n) && !Happened(s, e)
  }

  lemma EventInUniverse(c: Config, s: State, step: Step, s': State)
    requires Inv(c, s) && Next(c, s, step, s')
    ensures EventOf(step) in Universe(c.n) && Happened(s', EventOf(step))
  {
  }

  ghost predicate PartyGrows(p: Party, p': Party) {
    && p.digestBox.Keys <= p'.digestBox.Keys
    && p.openingBox.Keys <= p'.openingBox.Keys
    && p.shareBox.Keys <= p'.shareBox.Keys
    && (p.result.Some? ==> p'.result.Some?)
  }

  /** Logs, buffers and results only grow. */
  ghost predicate Grows(s: State, s': State) {
    && Extends(s, s') && |s.parties| == |s'.parties|
    && forall i :: 0 <= i < |s.parties| ==> PartyGrows(s.parties[i], s'.parties[i])
  }

  lemma OnePartyGrows(s: State, s': State, i: nat, p: Party)
    requires i < |s.parties| && s' == s.(parties := s.parties[i := p]) && PartyGrows(s.parties[i], p)
    ensures Grows(s, s')
  {
  }

  lemma SendGrows(c: Config, s: State, step: Step, s': State)
    requires Next(c, s, step, s') && (step.BroadcastDigest? || step.BroadcastOpening? || step.SendShare?)
    ensures Grows(s, s')
  {
    assert s'.parties == s.parties;
  }

  lemma DeliverGrows(c: Config, s: State, step: Step, s': State)
    requires Next(c, s, step, s') && (step.DeliverDigest? || step.DeliverOpening? || step.DeliverShare?)
    ensures Grows(s, s')
  {
    OnePartyGrows(s, s', step.to, s'.parties[step.to]);
  }

  lemma NextGrows(c: Config, s: State, step: Step, s': State)
    requires Next(c, s, step, s')
    ensures Grows(s, s')
  {
    match step
    case BroadcastDigest(_, _) => SendGrows(c, s, step, s');
    case BroadcastOpening(_, _) => SendGrows(c, s, step, s');
    case SendShare(_, _, _) => SendGrows(c, s, step, s');
    case DeliverDigest(_, _) => DeliverGrows(c, s, step, s');
    case DeliverOpening(_, _) => DeliverGrows(c, s, step, s');
    case DeliverShare(_, _) => DeliverGrows(c, s, step, s');
    case Finish(i) => OnePartyGrows(s, s', i, s'.parties[i]);
  }

  lemma HappenedStays(s: State, s': State, e: Event)
    requires Grows(s, s') && Happened(s, e)
    ensures Happened(s', e)
  {
  }

  lemma SubsetSize<T>(a: set<T>, b: set<T>)
    requires a < b
    ensures |a| < |b|
  {
    assert b == a + (b - a);
    assert |b| == |a| + |b - a|;
    assert b - a != {};
  }

  /** Every step but a repeated delivery shrinks the measure. */
  lemma StepShrinksPending(c: Config, s: State, step: Step, s': State)
    requires Inv(c, s) && Next(c, s, step, s') && !Happened(s, EventOf(step))
    ensures |Pending(c, s')| < |Pending(c, s)|
  {
    EventInUniverse(c, s, step, s');
    NextGrows(c, s, step, s');
    forall e | e in Pending(c, s')
      ensures e in Pending(c, s)
    {
      if Happened(s, e) { HappenedStays(s, s', e); }
    }
    assert EventOf(step) in Pending(c, s) && EventOf(step) !in Pending(c, s');
    SubsetSize(Pending(c, s'), Pending(c, s));
  }

  /** No step of the run repeats a delivery. */
  ghost predicate NoRepeats(trace: seq<State>, steps: seq<Step>)
    requires |trace| == |steps| + 1
  {
    forall k :: 0 <= k < |steps| ==> !Happened(trace[k], EventOf(steps[k]))
  }

  /** Runs without repeated deliveries are short, whatever the dishonest parties do. */
  lemma {:induction false} RunsAreFinite(c: Config, trace: seq<State>, steps: seq<Step>)
    requires c.Valid() && IsRun(c, trace, steps) && NoRepeats(trace, steps)
    ensures |steps| + |Pending(c, trace[|steps|])| <= |Universe(c.n)|
  {
    if |steps| == 0 {
      assert Pending(c, trace[0]) <= Universe(c.n);
      if Pending(c, trace[0]) != Universe(c.n) { SubsetSize(Pending(c, trace[0]), Universe(c.n)); }
    } else {
      var k := |steps| - 1;
      assert IsRun(c, trace[..k + 1], steps[..k]);
      RunsAreFinite(c, trace[..k + 1], steps[..k]);
      RunKeepsInv(c, trace[..k + 1], steps[..k]);
      assert Next(c, trace[k], steps[k], trace[k + 1]);
      StepShrinksPending(c, trace[k], steps[k], trace[k + 1]);
    }
  }

  /**
   * Termination: when all parties are honest, a run without repeated deliveries has at most as
   * many steps as there are events, and once no new step is possible every party has returned
   * its share of the common key.
   */
  lemma MaximalRunsReturn(c: Config, trace: seq<State>, steps: seq<Step>)
    requires c.Valid() && IsRun(c, trace, steps) && NoRepeats(trace, steps) && AllHonest(c)
    ensures |steps| <= |Universe(c.n)|
    ensures !SomeEnabled(c, trace[|steps|]) ==>
      |trace[|steps|].parties| == c.n && forall i {:trigger trace[|steps|].parties[i]} :: 0 <= i < c.n ==>
        trace[|steps|].parties[i].result == Some(Accepted(SumAt(c.polys, i + 1) % c.q, MulG(SumAt(c.polys, 0), c.q)))
  {
    RunsAreFinite(c, trace, steps);
    RunKeepsInv(c, trace, steps);
    var s := trace[|steps|];
    if !SomeEnabled(c, s) {
      forall i | 0 <= i < c.n
        ensures s.parties[i].result == Some(Accepted(SumAt(c.polys, i + 1) % c.q, MulG(SumAt(c.polys, 0), c.q)))
      {
        if s.parties[i].result.None? { Progress(c, s, i); }
        HonestRuns(c, trace, steps, i);
      }
    }
  }
}
