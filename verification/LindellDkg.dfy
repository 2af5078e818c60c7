/** Lindell key generation: commit-and-reveal Feldman sharing (`run_vss`), `run_dkg` and `run_refresh`. */
module LindellDkg {
  import opened Arithmetic
  import opened Primes
  import opened Group
  import opened Core
  import opened Rounds
  import opened Wrappers

  type Digest = nat

  /** `compute_commitment` for the session in use: party index and coefficient points to a digest. */
  type CommitOracle = (nat, seq<Point>) -> Digest

  datatype VssResult =
    | Accepted(share: nat, pk: Point)
    | CommitmentMismatch(party: nat)
    | ShareVerificationFailed(party: nat)
    | Panicked

  // ---------------------------------------------------------------- the specification of run_vss

  /** The discrete logarithm of the constant term of a revealed list. */
  function Head(points: seq<Point>): nat {
    if |points| == 0 then 0 else points[0].log
  }

  function Heads(openings: seq<seq<Point>>): (h: seq<int>)
    ensures |h| == |openings|
  {
    seq(|openings|, k requires 0 <= k < |openings| => Head(openings[k]))
  }

  /** The first error the commitment loop meets among the first k messages. */
  function OpeningError(i: nat, commit: CommitOracle, commits: seq<Digest>, openings: seq<seq<Point>>,
      k: nat): Option<VssResult>
    requires k <= |commits| == |openings|
  {
    if k == 0 then None
    else
      var before := OpeningError(i, commit, commits, openings, k - 1);
      if before.Some? then before
      else if commit(Peer(i, k - 1), openings[k - 1]) != commits[k - 1] then Some(CommitmentMismatch(Peer(i, k - 1)))
      else if |openings[k - 1]| == 0 then Some(Panicked)
      else None
  }

  predicate ShareMatches(i: nat, opening: seq<Point>, share: nat, q: pos) {
    MulG(share, q) == ExponentAt(opening, i + 1, q)
  }

  function ShareError(i: nat, openings: seq<seq<Point>>, shares: seq<nat>, q: pos, k: nat): Option<VssResult>
    requires k <= |shares| == |openings|
  {
    if k == 0 then None
    else
      var before := ShareError(i, openings, shares, q, k - 1);
      if before.Some? then before
      else if !ShareMatches(i, openings[k - 1], shares[k - 1], q) then Some(ShareVerificationFailed(Peer(i, k - 1)))
      else None
  }

  function Constant(coeffs: seq<int>): int {
    if |coeffs| == 0 then 0 else coeffs[0]
  }

  function VssSpec(i: nat, coeffs: seq<nat>, q: pos, commit: CommitOracle,
                   commits: seq<Digest>, openings: seq<seq<Point>>, shares: seq<nat>): VssResult
    requires |commits| == |openings| == |shares|
  {
    match OpeningError(i, commit, commits, openings, |openings|)
    case Some(e) => e
    case None =>
      match ShareError(i, openings, shares, q, |shares|)
      case Some(e) => e
      case None => Accepted(SumMod(ShareFor(coeffs, i, q), shares, q),
          Point(SumMod(Constant(coeffs), Heads(openings), q)))
  }

  /** `reveals_by_sender.iter().find(..)`. */
  method FindOpening(list: seq<(nat, seq<Point>)>, sender: nat) returns (r: Option<seq<Point>>)
    ensures r.None? ==> forall k :: 0 <= k < |list| ==> list[k].0 != sender
    ensures r.Some? ==> exists k :: (
      0 <= k < |list| && list[k] == (sender, r.value) && forall l :: 0 <= l < k ==> list[l].0 != sender)
  {
    for k := 0 to |list|
      invariant forall l :: 0 <= l < k ==> list[l].0 != sender
    {
      if list[k].0 == sender {
        return Some(list[k].1);
      }
    }
    return None;
  }

  /** The commitment loop of `run_vss`. */
  method CheckOpenings(i: nat, first: Point, q: pos, commit: CommitOracle, commits: seq<Digest>,
      openings: seq<seq<Point>>)
    returns (error: Option<VssResult>, combinedPk: Point, openingsBySender: seq<(nat, seq<Point>)>)
    requires |commits| == |openings| && first.log < q
    ensures error == OpeningError(i, commit, commits, openings, |openings|)
    ensures error.None? ==> combinedPk == Point(SumMod(first.log, Heads(openings), q))
    ensures error.None? ==>
      |openingsBySender| == |openings| &&
      forall k :: 0 <= k < |openings| ==> openingsBySender[k] == (Peer(i, k), openings[k])
  {
    combinedPk := first;
    openingsBySender := [];
    ModSmall(first.log, q);
    assert Heads(openings)[..0] == [];
    for k := 0 to |openings|
      invariant OpeningError(i, commit, commits, openings, k) == None
      invariant combinedPk == Point(SumMod(first.log, Heads(openings)[..k], q))
      invariant |openingsBySender| == k
      invariant forall l :: 0 <= l < k ==> openingsBySender[l] == (Peer(i, l), openings[l])
    {
      var sender := Peer(i, k);
      var opening := openings[k];
      if commit(sender, opening) != commits[k] {
        OpeningErrorSticks(i, commit, commits, openings, k + 1);
        return Some(CommitmentMismatch(sender)), combinedPk, openingsBySender;
      }
      if |opening| == 0 {
        OpeningErrorSticks(i, commit, commits, openings, k + 1);
        return Some(Panicked), combinedPk, openingsBySender;
      }
      SumStep(first.log, Heads(openings), k, q);
      combinedPk := AddPoints(combinedPk, opening[0], q);
      openingsBySender := openingsBySender + [(sender, opening)];
    }
    assert Heads(openings)[..|openings|] == Heads(openings);
    error := None;
  }

  lemma {:induction false} OpeningErrorSticks(i: nat, commit: CommitOracle, commits: seq<Digest>,
      openings: seq<seq<Point>>, k: nat)
    requires k <= |commits| == |openings|
    requires OpeningError(i, commit, commits, openings, k).Some?
    ensures OpeningError(i, commit, commits, openings, |openings|) == OpeningError(i, commit, commits, openings, k)
    decreases |openings| - k
  {
    if k < |openings| { OpeningErrorSticks(i, commit, commits, openings, k + 1); }
  }

  lemma {:induction false} ShareErrorSticks(i: nat, openings: seq<seq<Point>>, shares: seq<nat>, q: pos, k: nat)
    requires k <= |shares| == |openings|
    requires ShareError(i, openings, shares, q, k).Some?
    ensures ShareError(i, openings, shares, q, |shares|) == ShareError(i, openings, shares, q, k)
    decreases |shares| - k
  {
    if k < |shares| { ShareErrorSticks(i, openings, shares, q, k + 1); }
  }

  /** The share loop of `run_vss`. */
  method CheckShares(i: nat, own: nat, q: pos, openings: seq<seq<Point>>, openingsBySender: seq<(nat, seq<Point>)>,
      shares: seq<nat>)
    returns (error: Option<VssResult>, finalShare: nat)
    requires |openings| == |openingsBySender| == |shares| && own < q
    requires forall k :: 0 <= k < |openings| ==> openingsBySender[k] == (Peer(i, k), openings[k])
    ensures error == ShareError(i, openings, shares, q, |shares|)
    ensures error.None? ==> finalShare == SumMod(own, shares, q)
  {
    finalShare := own;
    ModSmall(own, q);
    assert shares[..0] == [];
    for k := 0 to |shares|
      invariant ShareError(i, openings, shares, q, k) == None
      invariant finalShare == SumMod(own, shares[..k], q)
    {
      var sender := Peer(i, k);
      assert openingsBySender[k] == (sender, openings[k]);
      var opening := FindOpening(openingsBySender, sender);
      assert opening == Some(openings[k]);
      var lhs := MulG(shares[k], q);
      var rhs := EvaluateInExponent(opening.value, i + 1, q);
      if lhs != rhs {
        ShareErrorSticks(i, openings, shares, q, k + 1);
        return Some(ShareVerificationFailed(sender)), finalShare;
      }
      SumStep(own, shares, k, q);
      finalShare := (finalShare + shares[k]) % q;
    }
    assert shares[..|shares|] == shares;
    error := None;
  }

  /**
   * `run_vss` for party i, given the coefficients it draws and the messages the three rounds
   * deliver. It returns what it broadcasts in rounds 1 and 2, what it sends in round 3
   * (nothing when the commitment loop fails), and its result.
   */
  method RunVss(i: nat, n: nat, t: nat, intercept: nat, draws: seq<nat>, q: pos, commit: CommitOracle,
                commits: seq<Digest>, openings: seq<seq<Point>>, shares: seq<nat>)
    returns (commitment: Digest, opening: seq<Point>, sent: seq<(nat, nat)>, result: VssResult)
    requires i < n && |draws| >= t - 1 && |commits| == |openings| == |shares| == n - 1
    ensures opening == Commitments(Coefficients(intercept, t, draws), q) && commitment == commit(i, opening)
    ensures OpeningError(i, commit, commits, openings, n - 1).None? ==>
      |sent| == n - 1 && forall k :: 0 <= k < n - 1 ==>
        sent[k] == (Peer(i, k), ShareFor(Coefficients(intercept, t, draws), Peer(i, k), q))
    ensures OpeningError(i, commit, commits, openings, n - 1).Some? ==> sent == []
    ensures result == VssSpec(i, Coefficients(intercept, t, draws), q, commit, commits, openings, shares)
  {
    ghost var coeffs := Coefficients(intercept, t, draws);
    var secretShares: seq<nat>;
    opening, secretShares := EvaluatePolynomial(intercept, t, n, draws, q);
    commitment := commit(i, opening);
    sent := [];
    ModMod(coeffs[0], q);
    var error, combinedPk, openingsBySender := CheckOpenings(i, opening[0], q, commit, commits, openings);
    if error.Some? {
      return commitment, opening, sent, error.value;
    }
    SumModCong(coeffs[0] % q, coeffs[0], Heads(openings), Heads(openings), q);
    for j := 0 to n
      invariant |sent| == if j <= i then j else j - 1
      invariant forall k :: 0 <= k < |sent| ==> sent[k] == (Peer(i, k), ShareFor(coeffs, Peer(i, k), q))
    {
      if j == i {
        continue;
      }
      sent := sent + [(j, secretShares[j])];
    }
    var finalShare;
    error, finalShare := CheckShares(i, secretShares[i], q, openings, openingsBySender, shares);
    if error.Some? {
      return commitment, opening, sent, error.value;
    }
    result := Accepted(finalShare, combinedPk);
  }

  // ---------------------------------------------------------------- what acceptance forces

  /** The sum of the committed polynomials of all parties, evaluated at x, as a discrete logarithm. */
  function CommittedAt(openings: seq<seq<Point>>, x: int): seq<int> {
    seq(|openings|, k requires 0 <= k < |openings| => PolyAt(Logs(openings[k]), x))
  }

  lemma {:induction false} OpeningErrorNone(i: nat, commit: CommitOracle, commits: seq<Digest>,
      openings: seq<seq<Point>>, k: nat)
    requires k <= |commits| == |openings|
    ensures OpeningError(i, commit, commits, openings, k).None? <==>
      forall l :: 0 <= l < k ==> commit(Peer(i, l), openings[l]) == commits[l] && |openings[l]| > 0
  {
    if k != 0 { OpeningErrorNone(i, commit, commits, openings, k - 1); }
  }

  lemma {:induction false} ShareErrorNone(i: nat, openings: seq<seq<Point>>, shares: seq<nat>, q: pos, k: nat)
    requires k <= |shares| == |openings|
    ensures ShareError(i, openings, shares, q, k).None? <==>
      forall l :: 0 <= l < k ==> ShareMatches(i, openings[l], shares[l], q)
  {
    if k != 0 { ShareErrorNone(i, openings, shares, q, k - 1); }
  }

  /** `run_vss` accepts exactly when every commitment opens, no list is empty and every share checks. */
  lemma VssAcceptsIff(i: nat, coeffs: seq<nat>, q: pos, commit: CommitOracle,
                 commits: seq<Digest>, openings: seq<seq<Point>>, shares: seq<nat>)
    requires |commits| == |openings| == |shares|
    ensures VssSpec(i, coeffs, q, commit, commits, openings, shares).Accepted? <==>
      forall k :: 0 <= k < |openings| ==>
        commit(Peer(i, k), openings[k]) == commits[k] && |openings[k]| > 0 && ShareMatches(i, openings[k], shares[k], q)
    ensures VssSpec(i, coeffs, q, commit, commits, openings, shares).Accepted? ==>
      VssSpec(i, coeffs, q, commit, commits, openings, shares)
        == Accepted(SumMod(ShareFor(coeffs, i, q), shares, q), Point(SumMod(Constant(coeffs), Heads(openings), q)))
  {
    OpeningErrorNone(i, commit, commits, openings, |openings|);
    ShareErrorNone(i, openings, shares, q, |shares|);
    ErrorsAreNotAccepted(i, commit, commits, openings, shares, q, |openings|);
  }

  lemma {:induction false} ErrorsAreNotAccepted(i: nat, commit: CommitOracle, commits: seq<Digest>,
      openings: seq<seq<Point>>, shares: seq<nat>, q: pos, k: nat)
    requires k <= |commits| == |openings| == |shares|
    ensures OpeningError(i, commit, commits, openings, k).Some? ==>
      !OpeningError(i, commit, commits, openings, k).value.Accepted?
    ensures ShareError(i, openings, shares, q, k).Some? ==> !ShareError(i, openings, shares, q, k).value.Accepted?
  {
    if k != 0 { ErrorsAreNotAccepted(i, commit, commits, openings, shares, q, k - 1); }
  }

  /** Message k is the first whose list does not open its commitment or is empty. */
  ghost predicate FirstBadOpening(i: nat, commit: CommitOracle, commits: seq<Digest>, openings: seq<seq<Point>>,
      k: nat)
    requires |commits| == |openings|
  {
    && k < |openings|
    && (commit(Peer(i, k), openings[k]) != commits[k] || |openings[k]| == 0)
    && forall l :: 0 <= l < k ==> commit(Peer(i, l), openings[l]) == commits[l] && |openings[l]| > 0
  }

  /** All lists open their commitments, and share k is the first that fails its check. */
  ghost predicate FirstBadShare(i: nat, q: pos, commit: CommitOracle, commits: seq<Digest>, openings: seq<seq<Point>>,
      shares: seq<nat>, k: nat)
    requires |commits| == |openings| == |shares|
  {
    && (forall l :: 0 <= l < |openings| ==> commit(Peer(i, l), openings[l]) == commits[l] && |openings[l]| > 0)
    && k < |shares| && !ShareMatches(i, openings[k], shares[k], q)
    && forall l :: 0 <= l < k ==> ShareMatches(i, openings[l], shares[l], q)
  }

  /** Which error `run_vss` reports: the first bad opening, and otherwise the first share that fails its check. */
  lemma VssErrorIs(i: nat, coeffs: seq<nat>, q: pos, commit: CommitOracle,
                   commits: seq<Digest>, openings: seq<seq<Point>>, shares: seq<nat>, k: nat)
    requires |commits| == |openings| == |shares|
    ensures FirstBadOpening(i, commit, commits, openings, k) ==>
      VssSpec(i, coeffs, q, commit, commits, openings, shares)
        == if commit(Peer(i, k), openings[k]) != commits[k] then CommitmentMismatch(Peer(i, k)) else Panicked
    ensures FirstBadShare(i, q, commit, commits, openings, shares, k) ==>
      VssSpec(i, coeffs, q, commit, commits, openings, shares) == ShareVerificationFailed(Peer(i, k))
  {
    OpeningErrorNone(i, commit, commits, openings, |openings|);
    if FirstBadOpening(i, commit, commits, openings, k) {
      OpeningErrorNone(i, commit, commits, openings, k);
      OpeningErrorSticks(i, commit, commits, openings, k + 1);
    } else if FirstBadShare(i, q, commit, commits, openings, shares, k) {
      ShareErrorNone(i, openings, shares, q, k);
      ShareErrorSticks(i, openings, shares, q, k + 1);
    }
  }

  /**
   * For arbitrary peer messages of any list lengths: when party i accepts, G times its final
   * share is the sum of all committed polynomials at i + 1, and its public key is the sum of
   * their constant terms. `all` is what was revealed by every party, i's own list included.
   */
  lemma AcceptedShareIsConsistent(i: nat, coeffs: seq<nat>, q: pos, commit: CommitOracle,
                                  commits: seq<Digest>, all: seq<seq<Point>>, shares: seq<nat>)
    requires i < |all| && all[i] == Commitments(coeffs, q)
    requires |commits| == |shares| == |all| - 1
    requires VssSpec(i, coeffs, q, commit, commits, Without(all, i), shares).Accepted?
    ensures var r := VssSpec(i, coeffs, q, commit, commits, Without(all, i), shares);
      MulG(r.share, q) == MulG(Sum(CommittedAt(all, i + 1)), q) && r.pk == MulG(Sum(Heads(all)), q)
  {
    var openings := Without(all, i);
    VssAcceptsIff(i, coeffs, q, commit, commits, openings, shares);
    CheckedSharesSum(i, coeffs, q, all, shares);
    HeadsSum(i, coeffs, q, all);
    ModMod(Sum(CommittedAt(all, i + 1)), q);
  }

  lemma CheckedSharesSum(i: nat, coeffs: seq<nat>, q: pos, all: seq<seq<Point>>, shares: seq<nat>)
    requires i < |all| && all[i] == Commitments(coeffs, q) && |shares| == |all| - 1
    requires forall k :: 0 <= k < |shares| ==> ShareMatches(i, Without(all, i)[k], shares[k], q)
    ensures SumMod(ShareFor(coeffs, i, q), shares, q) == Sum(CommittedAt(all, i + 1)) % q
  {
    var at := CommittedAt(all, i + 1);
    var peers := Without(at, i);
    CommitmentsDetermineShare(coeffs, i + 1, q);
    CheckedSharesCongruent(i, q, all, shares);
    SumCong(shares, peers, q);
    SumModWithout(at, i, q);
    ModMod(PolyAt(coeffs, i + 1), q);
    SumModCong(ShareFor(coeffs, i, q), at[i], shares, peers, q);
  }

  lemma CheckedSharesCongruent(i: nat, q: pos, all: seq<seq<Point>>, shares: seq<nat>)
    requires i < |all| && |shares| == |all| - 1
    requires forall k :: 0 <= k < |shares| ==> ShareMatches(i, Without(all, i)[k], shares[k], q)
    ensures SameModulo(shares, Without(CommittedAt(all, i + 1), i), q)
  {
    forall k | 0 <= k < |shares|
      ensures shares[k] % q == Without(CommittedAt(all, i + 1), i)[k] % q
    {
      assert ShareMatches(i, Without(all, i)[k], shares[k], q);
    }
  }

  lemma HeadsSum(i: nat, coeffs: seq<nat>, q: pos, all: seq<seq<Point>>)
    requires i < |all| && all[i] == Commitments(coeffs, q)
    ensures SumMod(Constant(coeffs), Heads(Without(all, i)), q) == Sum(Heads(all)) % q
  {
    assert Heads(Without(all, i)) == Without(Heads(all), i);
    SumModWithout(Heads(all), i, q);
    if |coeffs| > 0 { ModMod(coeffs[0], q); }
    SumModCong(Constant(coeffs), Heads(all)[i], Heads(Without(all, i)), Heads(Without(all, i)), q);
  }

  // ---------------------------------------------------------------- honest runs

  /** One polynomial per party; `evaluate_polynomial` draws max(t, 1) coefficients. */
  ghost predicate HonestPolys(polys: seq<seq<nat>>, n: nat, t: nat) {
    |polys| == n && forall j :: 0 <= j < n ==> |polys[j]| == if t <= 1 then 1 else t
  }

  function Openings(polys: seq<seq<nat>>, q: pos): (r: seq<seq<Point>>)
    ensures |r| == |polys|
  {
    seq(|polys|, j requires 0 <= j < |polys| => Commitments(polys[j], q))
  }

  function Digests(openings: seq<seq<Point>>, commit: CommitOracle): (r: seq<Digest>)
    ensures |r| == |openings|
  {
    seq(|openings|, j requires 0 <= j < |openings| => commit(j, openings[j]))
  }

  /** The shares every party computes for party i. */
  function SharesOf(polys: seq<seq<nat>>, i: nat, q: pos): (r: seq<nat>)
    ensures |r| == |polys|
  {
    seq(|polys|, j requires 0 <= j < |polys| => ShareFor(polys[j], i, q))
  }

  /** The result of party i when every party follows the protocol. */
  function HonestVss(i: nat, polys: seq<seq<nat>>, q: pos, commit: CommitOracle): VssResult
    requires i < |polys|
  {
    var all := Openings(polys, q);
    VssSpec(i, polys[i], q, commit, Without(Digests(all, commit), i), Without(all, i),
        Without(SharesOf(polys, i, q), i))
  }

  lemma {:induction false} SumAtIsSum(polys: seq<seq<int>>, x: int, values: seq<int>)
    requires |values| == |polys| && forall j :: 0 <= j < |polys| ==> values[j] == PolyAt(polys[j], x)
    ensures Sum(values) == SumAt(polys, x)
  {
    if |polys| != 0 { SumAtIsSum(polys[1..], x, values[1..]); }
  }

  /** An honest run never errs; party i holds the sum polynomial at i + 1 and everyone the same key. */
  lemma HonestVssResult(i: nat, polys: seq<seq<nat>>, n: nat, t: nat, q: pos, commit: CommitOracle)
    requires i < n && HonestPolys(polys, n, t)
    ensures HonestVss(i, polys, q, commit) == Accepted(SumAt(polys, i + 1) % q, MulG(SumAt(polys, 0), q))
  {
    var all := Openings(polys, q);
    var commits, openings := Without(Digests(all, commit), i), Without(all, i);
    var shares := Without(SharesOf(polys, i, q), i);
    HonestChecksPass(i, polys, n, q, commit);
    VssAcceptsIff(i, polys[i], q, commit, commits, openings, shares);
    HonestShareSum(i, polys, q);
    HonestKeySum(i, polys, n, t, q);
  }

  /** The public key an honest party adds up. */
  lemma HonestKeySum(i: nat, polys: seq<seq<nat>>, n: nat, t: nat, q: pos)
    requires i < n && HonestPolys(polys, n, t)
    ensures SumMod(Constant(polys[i]), Heads(Without(Openings(polys, q), i)), q) == SumAt(polys, 0) % q
  {
    HeadsSum(i, polys[i], q, Openings(polys, q));
    HonestHeads(polys, n, t, q);
  }

  /** Parties that follow the protocol pass all checks, whatever the lengths of their polynomials. */
  lemma HonestChecksPass(i: nat, polys: seq<seq<nat>>, n: nat, q: pos, commit: CommitOracle)
    requires i < n == |polys| && forall j :: 0 <= j < n ==> |polys[j]| > 0
    ensures var all := Openings(polys, q);
      forall k :: 0 <= k < n - 1 ==>
        && commit(Peer(i, k), Without(all, i)[k]) == Without(Digests(all, commit), i)[k]
        && |Without(all, i)[k]| > 0
        && ShareMatches(i, Without(all, i)[k], Without(SharesOf(polys, i, q), i)[k], q)
  {
    forall k | 0 <= k < n - 1
      ensures ShareMatches(i, Without(Openings(polys, q), i)[k], Without(SharesOf(polys, i, q), i)[k], q)
    {
      var j := Peer(i, k);
      CommitmentsDetermineShare(polys[j], i + 1, q);
      ModMod(PolyAt(polys[j], i + 1), q);
    }
  }

  lemma HonestShareSum(i: nat, polys: seq<seq<nat>>, q: pos)
    requires i < |polys|
    ensures SumMod(ShareFor(polys[i], i, q), Without(SharesOf(polys, i, q), i), q) == SumAt(polys, i + 1) % q
  {
    var shares := SharesOf(polys, i, q);
    var values := seq(|polys|, j requires 0 <= j < |polys| => PolyAt(polys[j], i + 1));
    SumModWithout(shares, i, q);
    forall j | 0 <= j < |polys| ensures shares[j] % q == values[j] % q { ModMod(values[j], q); }
    SumCong(shares, values, q);
    SumAtIsSum(polys, i + 1, values);
  }

  lemma HonestHeads(polys: seq<seq<nat>>, n: nat, t: nat, q: pos)
    requires HonestPolys(polys, n, t)
    ensures Sum(Heads(Openings(polys, q))) % q == SumAt(polys, 0) % q
  {
    var heads := Heads(Openings(polys, q));
    var values := seq(|polys|, j requires 0 <= j < |polys| => PolyAt(polys[j], 0));
    forall j | 0 <= j < |polys|
      ensures heads[j] % q == values[j] % q
    {
      PolyAtZero(polys[j]);
      ModMod(polys[j][0], q);
    }
    SumCong(heads, values, q);
    SumAtIsSum(polys, 0, values);
  }

  // ---------------------------------------------------------------- shares of a secret

  /** The shares lie on the polynomial f, which has at most t coefficients. */
  ghost predicate SharesOn(shares: seq<nat>, f: seq<int>, t: nat, q: pos) {
    |f| <= t && forall i :: 0 <= i < |shares| ==> shares[i] == PolyAt(f, i + 1) % q
  }

  /** Sum over the signers of coefficient times share. */
  function Reconstructed(idx: seq<nat>, signers: seq<nat>, shares: seq<nat>, q: pos): int
    requires forall k :: 0 <= k < |idx| ==> idx[k] < |shares|
  {
    if |idx| == 0 then 0
    else LagrangeCoeff(idx[0], signers, q) * shares[idx[0]] + Reconstructed(idx[1..], signers, shares, q)
  }

  ghost predicate ValidSigners(signers: seq<nat>, n: nat, q: pos) {
    Distinct(signers) && (forall k :: 0 <= k < |signers| ==> signers[k] < n) && n < q
  }

  /** The named parties' shares lie on f, up to multiples of q. */
  ghost predicate SomeSharesOn(idx: seq<nat>, shares: seq<nat>, f: seq<int>, q: pos) {
    forall k :: 0 <= k < |idx| ==> idx[k] < |shares| && shares[idx[k]] % q == PolyAt(f, idx[k] + 1) % q
  }

  lemma {:induction false} ReconstructedIsLagrange(idx: seq<nat>, signers: seq<nat>, shares: seq<nat>, f: seq<int>,
      q: pos)
    requires SomeSharesOn(idx, shares, f, q)
    ensures Reconstructed(idx, signers, shares, q) % q == LagrangeSum(idx, signers, f, q) % q
  {
    if |idx| != 0 {
      var i := idx[0];
      ReconstructedIsLagrange(idx[1..], signers, shares, f, q);
      var l := LagrangeCoeff(i, signers, q);
      MulCong(l, l, shares[i], PolyAt(f, i + 1), q);
      AddCong(l * shares[i], l * PolyAt(f, i + 1),
        Reconstructed(idx[1..], signers, shares, q), LagrangeSum(idx[1..], signers, f, q), q);
    }
  }

  /** Enough distinct parties whose own shares lie on f reconstruct its constant term, whatever the others hold. */
  lemma SomeSharesReconstruct(signers: seq<nat>, shares: seq<nat>, f: seq<int>, q: pos)
    requires IsPrime(q) && Distinct(signers) && Below(signers, q) && |f| <= |signers|
    requires SomeSharesOn(signers, shares, f, q)
    ensures Reconstructed(signers, signers, shares, q) % q == PolyAt(f, 0) % q
  {
    ReconstructedIsLagrange(signers, signers, shares, f, q);
    Reconstruction(signers, f, q);
  }

  /** Any t or more distinct parties reconstruct the constant term from their shares. */
  lemma SharesReconstruct(signers: seq<nat>, shares: seq<nat>, f: seq<int>, t: nat, q: pos)
    requires IsPrime(q) && ValidSigners(signers, |shares|, q) && |signers| >= t && SharesOn(shares, f, t, q)
    ensures Reconstructed(signers, signers, shares, q) % q == PolyAt(f, 0) % q
  {
    forall k | 0 <= k < |signers|
      ensures shares[signers[k]] % q == PolyAt(f, signers[k] + 1) % q
    {
      ModMod(PolyAt(f, signers[k] + 1), q);
    }
    SomeSharesReconstruct(signers, shares, f, q);
  }

  // ---------------------------------------------------------------- accepted shares of arbitrary peers

  function LogLists(all: seq<seq<Point>>): (r: seq<seq<int>>)
    ensures |r| == |all|
  {
    seq(|all|, j requires 0 <= j < |all| => Logs(all[j]))
  }

  /** The committed polynomials add up to one polynomial, whose constant term is the sum of the list heads. */
  lemma CommittedPolynomial(all: seq<seq<Point>>, x: int)
    ensures Sum(CommittedAt(all, x)) == PolyAt(CombinedPoly(LogLists(all)), x)
    ensures Sum(Heads(all)) == PolyAt(CombinedPoly(LogLists(all)), 0)
  {
    var lists := LogLists(all);
    SumAtIsSum(lists, x, CommittedAt(all, x));
    CombinedAt(lists, x);
    forall j | 0 <= j < |all|
      ensures Heads(all)[j] == PolyAt(lists[j], 0)
    {
      PolyAtZero(lists[j]);
    }
    SumAtIsSum(lists, 0, Heads(all));
    CombinedAt(lists, 0);
  }

  /** G times the named parties' shares is what the revealed lists commit to. */
  ghost predicate Consistent(idx: seq<nat>, shares: seq<nat>, all: seq<seq<Point>>, q: pos) {
    forall k :: 0 <= k < |idx| ==>
      idx[k] < |shares| && MulG(shares[idx[k]], q) == MulG(Sum(CommittedAt(all, idx[k] + 1)), q)
  }

  /** Consistent shares lie on the sum of the committed polynomials. */
  lemma ConsistentSharesOn(idx: seq<nat>, shares: seq<nat>, all: seq<seq<Point>>, q: pos)
    requires Consistent(idx, shares, all, q)
    ensures SomeSharesOn(idx, shares, CombinedPoly(LogLists(all)), q)
  {
    forall k | 0 <= k < |idx|
      ensures shares[idx[k]] % q == PolyAt(CombinedPoly(LogLists(all)), idx[k] + 1) % q
    {
      CommittedPolynomial(all, idx[k] + 1);
    }
  }

  ghost predicate ListsAtMost(all: seq<seq<Point>>, m: nat) {
    forall j :: 0 <= j < |all| ==> |all[j]| <= m
  }

  /**
   * Whatever the peers sent: distinct parties holding consistent shares, at least as many as
   * the longest revealed list, reconstruct the sum of the revealed constant terms.
   */
  lemma ConsistentSharesReconstruct(signers: seq<nat>, shares: seq<nat>, all: seq<seq<Point>>, q: pos)
    requires IsPrime(q) && Distinct(signers) && Below(signers, q) && ListsAtMost(all, |signers|)
    requires Consistent(signers, shares, all, q)
    ensures MulG(Reconstructed(signers, signers, shares, q), q) == MulG(Sum(Heads(all)), q)
  {
    var f := CombinedPoly(LogLists(all));
    CombinedDegree(LogLists(all), |signers|);
    CommittedPolynomial(all, 0);
    ConsistentSharesOn(signers, shares, all, q);
    SomeSharesReconstruct(signers, shares, f, q);
  }

  // ---------------------------------------------------------------- key generation and refresh

  /** `run_dkg` in an honest run: party i's share and the public key all parties output. */
  function DkgShares(polys: seq<seq<nat>>, n: nat, q: pos): (r: seq<nat>)
    ensures |r| == n
  {
    seq(n, i => SumAt(polys, i + 1) % q)
  }

  /** Honest key generation leaves shares of one secret on a polynomial of degree below max(t, 1). */
  lemma DkgSharesOnPolynomial(polys: seq<seq<nat>>, n: nat, t: nat, q: pos)
    requires HonestPolys(polys, n, t)
    ensures SharesOn(DkgShares(polys, n, q), CombinedPoly(polys), if t <= 1 then 1 else t, q)
    ensures MulG(PolyAt(CombinedPoly(polys), 0), q) == MulG(SumAt(polys, 0), q)
  {
    CombinedDegree(polys, if t <= 1 then 1 else t);
    CombinedAt(polys, 0);
    forall i | 0 <= i < n
      ensures DkgShares(polys, n, q)[i] == PolyAt(CombinedPoly(polys), i + 1) % q
    {
      CombinedAt(polys, i + 1);
    }
  }

  datatype RefreshResult = Refreshed(share: nat, pk: Point) | RefreshFailed(error: VssResult)

  /** `run_refresh`: `run_vss` with intercept 0, then the offset is added to the old share. */
  function RefreshSpec(oldShare: nat, masterPk: Point, vss: VssResult, q: pos): RefreshResult {
    match vss
    case Accepted(offset, _) => Refreshed((oldShare + offset) % q, masterPk)
    case _ => RefreshFailed(vss)
  }

  method RunRefresh(i: nat, n: nat, t: nat, draws: seq<nat>, q: pos, commit: CommitOracle,
                    commits: seq<Digest>, openings: seq<seq<Point>>, shares: seq<nat>, oldShare: nat, masterPk: Point)
    returns (result: RefreshResult)
    requires i < n && |draws| >= t - 1 && |commits| == |openings| == |shares| == n - 1
    ensures result == RefreshSpec(oldShare, masterPk,
      VssSpec(i, Coefficients(0, t, draws), q, commit, commits, openings, shares), q)
    ensures match VssSpec(i, Coefficients(0, t, draws), q, commit, commits, openings, shares)
      case Accepted(offset, _) => result == Refreshed((oldShare + offset) % q, masterPk)
      case error => result == RefreshFailed(error)
  {
    var _, _, _, vss := RunVss(i, n, t, 0, draws, q, commit, commits, openings, shares);
    match vss {
      case Accepted(offset, _) =>
        result := Refreshed((oldShare + offset) % q, masterPk);
      case _ =>
        result := RefreshFailed(vss);
    }
  }

  ghost predicate ZeroIntercepts(polys: seq<seq<nat>>) {
    forall j :: 0 <= j < |polys| ==> |polys[j]| > 0 && polys[j][0] == 0
  }

  /** One refresh of all n parties. */
  function RefreshAll(shares: seq<nat>, polys: seq<seq<nat>>, masterPk: Point, q: pos,
      commit: CommitOracle): (r: seq<RefreshResult>)
    requires |polys| == |shares|
    ensures |r| == |shares|
  {
    seq(|shares|, i requires 0 <= i < |shares| =>
      RefreshSpec(shares[i], masterPk, HonestVss(i, polys, q, commit), q))
  }

  predicate AllRefreshed(results: seq<RefreshResult>, masterPk: Point) {
    forall i :: 0 <= i < |results| ==> results[i].Refreshed? && results[i].pk == masterPk
  }

  function NewShares(results: seq<RefreshResult>, masterPk: Point): (r: seq<nat>)
    requires AllRefreshed(results, masterPk)
    ensures |r| == |results|
  {
    seq(|results|, i requires 0 <= i < |results| => results[i].share)
  }

  lemma {:induction false} ZeroSum(polys: seq<seq<nat>>)
    requires ZeroIntercepts(polys)
    ensures SumAt(polys, 0) == 0
  {
    if |polys| != 0 {
      ZeroSum(polys[1..]);
      PolyAtZero(polys[0]);
    }
  }

  predicate RunsFor(runs: seq<seq<seq<nat>>>, n: nat) {
    forall k :: 0 <= k < |runs| ==> |runs[k]| == n
  }

  /** Refresh over whole runs: the shares after a list of refreshes, or None once a party failed. */
  function RefreshRuns(shares: seq<nat>, runs: seq<seq<seq<nat>>>, masterPk: Point, q: pos,
      commit: CommitOracle): (r: Option<seq<nat>>)
    requires RunsFor(runs, |shares|)
    ensures r.Some? ==> |r.value| == |shares|
    decreases |runs|
  {
    if |runs| == 0 then Some(shares)
    else
      assert |runs[0]| == |shares|;
      var results := RefreshAll(shares, runs[0], masterPk, q, commit);
      if AllRefreshed(results, masterPk) then
        RefreshRuns(NewShares(results, masterPk), runs[1..], masterPk, q, commit)
      else None
  }

  ghost predicate HonestRefreshes(runs: seq<seq<seq<nat>>>, n: nat, t: nat) {
    RunsFor(runs, n) && forall k :: 0 <= k < |runs| ==> HonestPolys(runs[k], n, t) && ZeroIntercepts(runs[k])
  }

  lemma RefreshStep(shares: seq<nat>, f: seq<int>, polys: seq<seq<nat>>, t: nat, masterPk: Point, q: pos,
      commit: CommitOracle)
    requires t >= 1 && SharesOn(shares, f, t, q) && HonestPolys(polys, |shares|, t) && ZeroIntercepts(polys)
    ensures var g := AddPoly(f, CombinedPoly(polys));
      var results := RefreshAll(shares, polys, masterPk, q, commit);
      && AllRefreshed(results, masterPk) && SharesOn(NewShares(results, masterPk), g, t, q)
      && PolyAt(g, 0) == PolyAt(f, 0)
  {
    var c := CombinedPoly(polys);
    CombinedDegree(polys, t);
    CombinedAt(polys, 0);
    ZeroSum(polys);
    AddPolyAt(f, c, 0);
    forall i | 0 <= i < |shares|
      ensures RefreshAll(shares, polys, masterPk, q, commit)[i] == Refreshed(PolyAt(AddPoly(f, c), i + 1) % q, masterPk)
    {
      RefreshedShare(i, shares, f, polys, t, masterPk, q, commit);
    }
  }

  lemma RefreshedShare(i: nat, shares: seq<nat>, f: seq<int>, polys: seq<seq<nat>>, t: nat, masterPk: Point, q: pos,
      commit: CommitOracle)
    requires i < |shares| && SharesOn(shares, f, t, q) && HonestPolys(polys, |shares|, t)
    ensures RefreshSpec(shares[i], masterPk, HonestVss(i, polys, q, commit), q)
         == Refreshed(PolyAt(AddPoly(f, CombinedPoly(polys)), i + 1) % q, masterPk)
  {
    var c := CombinedPoly(polys);
    HonestVssResult(i, polys, |shares|, t, q, commit);
    CombinedAt(polys, i + 1);
    AddPolyAt(f, c, i + 1);
    AddMod(PolyAt(f, i + 1), PolyAt(c, i + 1), q);
  }

  /**
   * After any number of honest refreshes no party has failed, the shares again lie on a
   * polynomial with at most t coefficients, and its constant term is unchanged.
   */
  lemma {:induction false} RefreshKeepsSecret(shares: seq<nat>, f: seq<int>, runs: seq<seq<seq<nat>>>, t: nat,
      masterPk: Point, q: pos, commit: CommitOracle)
    returns (g: seq<int>)
    requires t >= 1 && SharesOn(shares, f, t, q)
    requires HonestRefreshes(runs, |shares|, t)
    ensures var r := RefreshRuns(shares, runs, masterPk, q, commit);
      r.Some? && |r.value| == |shares| && SharesOn(r.value, g, t, q) && PolyAt(g, 0) == PolyAt(f, 0)
    decreases |runs|
  {
    if |runs| == 0 {
      g := f;
    } else {
      RefreshStep(shares, f, runs[0], t, masterPk, q, commit);
      var next := AddPoly(f, CombinedPoly(runs[0]));
      var results := RefreshAll(shares, runs[0], masterPk, q, commit);
      g := RefreshKeepsSecret(NewShares(results, masterPk), next, runs[1..], t, masterPk, q, commit);
    }
  }

  /** Every set of t or more distinct signers still reconstructs the key behind the unchanged public key. */
  lemma RefreshedSharesReconstruct(polys: seq<seq<nat>>, n: nat, t: nat, runs: seq<seq<seq<nat>>>, signers: seq<nat>,
      q: pos, commit: CommitOracle)
    requires IsPrime(q) && t >= 1 && HonestPolys(polys, n, t) && ValidSigners(signers, n, q) && |signers| >= t
    requires HonestRefreshes(runs, n, t)
    ensures var pk := MulG(SumAt(polys, 0), q);
      var r := RefreshRuns(DkgShares(polys, n, q), runs, pk, q, commit);
      r.Some? && MulG(Reconstructed(signers, signers, r.value, q), q) == pk
  {
    DkgSharesOnPolynomial(polys, n, t, q);
    var pk := MulG(SumAt(polys, 0), q);
    var g := RefreshKeepsSecret(DkgShares(polys, n, q), CombinedPoly(polys), runs, t, pk, q, commit);
    SharesReconstruct(signers, RefreshRuns(DkgShares(polys, n, q), runs, pk, q, commit).value, g, t, q);
  }

  // ---------------------------------------------------------------- refresh with arbitrary peers

  /** One party's view of `run_vss`: what it drew, and the messages it got from arbitrary peers. */
  datatype VssView = VssView(coeffs: seq<nat>, received: seq<nat>)

  ghost predicate ViewsOf(views: seq<VssView>, commits: seq<Digest>, all: seq<seq<Point>>, n: nat) {
    |views| == |commits| == |all| == n && forall i :: 0 <= i < n ==> |views[i].received| == n - 1
  }

  /** `run_vss` at party i; commitments and lists were broadcast, so all parties see the same ones. */
  function ViewedVss(i: nat, views: seq<VssView>, commits: seq<Digest>, all: seq<seq<Point>>, q: pos,
      commit: CommitOracle): VssResult
    requires i < |views| == |commits| == |all| && |views[i].received| == |all| - 1
  {
    VssSpec(i, views[i].coeffs, q, commit, Without(commits, i), Without(all, i), views[i].received)
  }

  /** The shares `run_vss` returns at the parties that accept; 0 stands for the others. */
  function VssShares(views: seq<VssView>, commits: seq<Digest>, all: seq<seq<Point>>, q: pos,
      commit: CommitOracle): (r: seq<nat>)
    requires |views| == |commits| == |all|
    requires forall i :: 0 <= i < |views| ==> |views[i].received| == |all| - 1
    ensures |r| == |views|
  {
    seq(|views|, i requires 0 <= i < |views| =>
      match ViewedVss(i, views, commits, all, q, commit)
      case Accepted(offset, _) => offset
      case _ => 0)
  }

  /** What `run_refresh` returns at every party. */
  function RefreshResults(before: seq<nat>, masterPk: Point, views: seq<VssView>, commits: seq<Digest>,
      all: seq<seq<Point>>, q: pos, commit: CommitOracle): (r: seq<RefreshResult>)
    requires |before| == |views| == |commits| == |all|
    requires forall i :: 0 <= i < |views| ==> |views[i].received| == |all| - 1
    ensures |r| == |before|
  {
    seq(|before|, i requires 0 <= i < |before| =>
      RefreshSpec(before[i], masterPk, ViewedVss(i, views, commits, all, q, commit), q))
  }

  /** The shares held after a refresh; a party whose refresh failed keeps its old one. */
  function SharesAfter(before: seq<nat>, results: seq<RefreshResult>): (r: seq<nat>)
    requires |before| == |results|
    ensures |r| == |before|
  {
    seq(|before|, i requires 0 <= i < |before| =>
      match results[i]
      case Refreshed(share, _) => share
      case RefreshFailed(_) => before[i])
  }

  /** The named parties added their offset to their share. */
  ghost predicate Added(idx: seq<nat>, before: seq<nat>, offsets: seq<nat>, after: seq<nat>, q: pos) {
    forall k :: 0 <= k < |idx| ==>
      && idx[k] < |before| && idx[k] < |offsets| && idx[k] < |after|
      && after[idx[k]] == (before[idx[k]] + offsets[idx[k]]) % q
  }

  lemma {:induction false} ReconstructedAdds(idx: seq<nat>, signers: seq<nat>, before: seq<nat>, offsets: seq<nat>,
      after: seq<nat>, q: pos)
    requires Added(idx, before, offsets, after, q)
    ensures Reconstructed(idx, signers, after, q) % q
         == (Reconstructed(idx, signers, before, q) + Reconstructed(idx, signers, offsets, q)) % q
  {
    if |idx| != 0 {
      var i, tail := idx[0], idx[1..];
      ReconstructedAdds(tail, signers, before, offsets, after, q);
      AddOneTerm(LagrangeCoeff(i, signers, q), before[i], offsets[i], Reconstructed(tail, signers, after, q),
        Reconstructed(tail, signers, before, q), Reconstructed(tail, signers, offsets, q), q);
    }
  }

  lemma AddOneTerm(l: int, x: int, y: int, rest: int, u: int, v: int, q: pos)
    requires rest % q == (u + v) % q
    ensures (l * ((x + y) % q) + rest) % q == ((l * x + u) + (l * y + v)) % q
  {
    MulMod(l, x + y, q);
    AddCong(l * ((x + y) % q), l * (x + y), rest, u + v, q);
    assert l * (x + y) == l * x + l * y;
  }

  lemma AddedTermVanishesIff(w: int, u: int, v: int, x: int, y: int, q: pos)
    requires w % q == (u + v) % q && u % q == x % q && v % q == y % q
    ensures w % q == x % q <==> y % q == 0
  {
    AddCong(u, x, v, y, q);
    SubZero(x + y, x, q);
    assert (x + y) - x == y;
  }

  /** The named parties followed the protocol and accepted. */
  ghost predicate AllAccepted(signers: seq<nat>, views: seq<VssView>, commits: seq<Digest>, all: seq<seq<Point>>,
      q: pos, commit: CommitOracle)
    requires ViewsOf(views, commits, all, |all|)
  {
    forall k :: 0 <= k < |signers| ==>
      && signers[k] < |all|
      && all[signers[k]] == Commitments(views[signers[k]].coeffs, q)
      && ViewedVss(signers[k], views, commits, all, q, commit).Accepted?
  }

  lemma OffsetsConsistent(signers: seq<nat>, views: seq<VssView>, commits: seq<Digest>, all: seq<seq<Point>>,
      q: pos, commit: CommitOracle)
    requires ViewsOf(views, commits, all, |all|) && AllAccepted(signers, views, commits, all, q, commit)
    ensures Consistent(signers, VssShares(views, commits, all, q, commit), all, q)
    ensures forall k :: 0 <= k < |signers| ==>
      ViewedVss(signers[k], views, commits, all, q, commit).pk == MulG(Sum(Heads(all)), q)
  {
    forall k | 0 <= k < |signers|
      ensures var r := ViewedVss(signers[k], views, commits, all, q, commit);
        r.pk == MulG(Sum(Heads(all)), q) && MulG(r.share, q) == MulG(Sum(CommittedAt(all, signers[k] + 1)), q)
    {
      var i := signers[k];
      AcceptedShareIsConsistent(i, views[i].coeffs, q, commit, Without(commits, i), all, views[i].received);
    }
  }

  /** Adding consistent offsets keeps the reconstructed key exactly when the revealed constant terms cancel. */
  lemma OffsetsKeepKeyIff(signers: seq<nat>, before: seq<nat>, offsets: seq<nat>, after: seq<nat>, f: seq<int>,
      all: seq<seq<Point>>, q: pos)
    requires IsPrime(q) && Distinct(signers) && Below(signers, q) && Added(signers, before, offsets, after, q)
    requires |f| <= |signers| && ListsAtMost(all, |signers|)
    requires SomeSharesOn(signers, before, f, q) && Consistent(signers, offsets, all, q)
    ensures MulG(Reconstructed(signers, signers, after, q), q) == MulG(PolyAt(f, 0), q)
       <==> MulG(Sum(Heads(all)), q) == IDENTITY
  {
    ConsistentSharesReconstruct(signers, offsets, all, q);
    SomeSharesReconstruct(signers, before, f, q);
    ReconstructedAdds(signers, signers, before, offsets, after, q);
    AddedTermVanishesIff(Reconstructed(signers, signers, after, q),
      Reconstructed(signers, signers, before, q), Reconstructed(signers, signers, offsets, q),
      PolyAt(f, 0), Sum(Heads(all)), q);
  }

  lemma OffsetsAdded(signers: seq<nat>, before: seq<nat>, masterPk: Point, views: seq<VssView>,
      commits: seq<Digest>, all: seq<seq<Point>>, q: pos, commit: CommitOracle)
    requires |before| == |all| && ViewsOf(views, commits, all, |all|)
    requires AllAccepted(signers, views, commits, all, q, commit)
    ensures Added(signers, before, VssShares(views, commits, all, q, commit),
      SharesAfter(before, RefreshResults(before, masterPk, views, commits, all, q, commit)), q)
  {
  }

  /**
   * Refresh against arbitrary peers. Distinct parties that all accepted, at least as many as
   * the longest revealed list and the old polynomial, still reconstruct the key behind the
   * unchanged public key from the shares `run_refresh` returned exactly when the sum of all
   * revealed constant terms is the identity. `run_vss` returns that sum to each of them, and
   * `run_refresh` discards it.
   */
  lemma RefreshKeepsKeyIff(signers: seq<nat>, before: seq<nat>, f: seq<int>, views: seq<VssView>,
      commits: seq<Digest>, all: seq<seq<Point>>, q: pos, commit: CommitOracle)
    requires IsPrime(q) && Distinct(signers) && Below(signers, q) && |signers| > 0
    requires |before| == |all| && |f| <= |signers| && ListsAtMost(all, |signers|)
    requires SomeSharesOn(signers, before, f, q)
    requires ViewsOf(views, commits, all, |all|) && AllAccepted(signers, views, commits, all, q, commit)
    ensures var masterPk := MulG(PolyAt(f, 0), q);
      var after := SharesAfter(before, RefreshResults(before, masterPk, views, commits, all, q, commit));
      MulG(Reconstructed(signers, signers, after, q), q) == masterPk
      <==> ViewedVss(signers[0], views, commits, all, q, commit).pk == IDENTITY
  {
    var masterPk := MulG(PolyAt(f, 0), q);
    var after := SharesAfter(before, RefreshResults(before, masterPk, views, commits, all, q, commit));
    OffsetsConsistent(signers, views, commits, all, q, commit);
    OffsetsAdded(signers, before, masterPk, views, commits, all, q, commit);
    OffsetsKeepKeyIff(signers, before, VssShares(views, commits, all, q, commit), after, f, all, q);
  }
}
