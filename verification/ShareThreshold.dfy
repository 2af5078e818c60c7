/**
 * How many parties reconstruct the key when `run_vss` does not compare the length of a revealed
 * list with the threshold: the exact condition for a given run, and the one a caller can check.
 */
module ShareThreshold {
  import opened Arithmetic
  import opened Primes
  import opened Group
  import opened Core
  import opened Rounds
  import opened LindellDkg

  // ---------------------------------------------------------------- interpolation with too few points

  /** The quotient of c by X - (i + 1) for every signer i in turn. */
  function QuotientAll(c: seq<int>, s: seq<nat>): seq<int>
    decreases |s|
  {
    if |s| == 0 then c else QuotientAll(Quotient(c, s[0] + 1), s[1..])
  }

  /** The product of -(i + 1) over the signers. */
  function NegatedPoints(s: seq<nat>): int {
    if |s| == 0 then 1 else (0 - (s[0] + 1)) * NegatedPoints(s[1..])
  }

  /** What interpolation at 0 returns for every polynomial, however long. */
  lemma {:induction false} InterpolationAtZero(s: seq<nat>, c: seq<int>, q: pos)
    requires IsPrime(q) && Below(s, q) && Distinct(s)
    ensures LagrangeSum(s, s, c, q) % q
         == (PolyAt(c, 0) - NegatedPoints(s) * PolyAt(QuotientAll(c, s), 0)) % q
    decreases |s|
  {
    if |s| == 0 {
      assert PolyAt(c, 0) - 1 * PolyAt(c, 0) == 0;
    } else {
      var b, x := s[1..], s[0] + 1;
      var g := Quotient(c, x);
      InterpolationAtZero(b, g, q);
      CoefficientsSumToOne(s, q);
      RemoveFirst(s, c, q);
      QuotientAt(c, x, 0);
      var z, p := PolyAt(QuotientAll(g, b), 0), NegatedPoints(b);
      ReconstructionStep(LagrangeSum(s, s, c, q), PolyAt(c, x), LagrangeSum(s, s, [1], q), x,
        LagrangeSum(b, b, g, q), PolyAt(g, 0) - p * z, q);
      CollectRemainder(PolyAt(c, x), x, PolyAt(g, 0), p, z);
    }
  }

  lemma CollectRemainder(f: int, x: int, g: int, p: int, z: int)
    ensures f + (0 - x) * (g - p * z) == (f + (0 - x) * g) - ((0 - x) * p) * z
  {
    assert (0 - x) * (g - p * z) == (0 - x) * g - (0 - x) * (p * z);
    assert (0 - x) * (p * z) == ((0 - x) * p) * z;
  }

  lemma {:induction false} NegatedPointsNonzero(s: seq<nat>, q: pos)
    requires IsPrime(q) && forall k :: 0 <= k < |s| ==> s[k] + 1 < q
    ensures NegatedPoints(s) % q != 0
  {
    if |s| == 0 {
      ModSmall(1, q);
    } else {
      NegatedPointsNonzero(s[1..], q);
      var x: int := s[0] + 1;
      ModSmall(x, q);
      SubZero(0, x, q);
      ModSmall(0, q);
      if NegatedPoints(s) % q == 0 { NoZeroDivisors(q, 0 - x, NegatedPoints(s[1..])); }
    }
  }

  lemma ScaledRemainderIff(c: int, p: int, z: int, q: pos)
    requires IsPrime(q) && p % q != 0
    ensures (c - p * z) % q == c % q <==> z % q == 0
  {
    SubZero(c, c - p * z, q);
    assert c - (c - p * z) == p * z;
    ModSmall(0, q);
    if (p * z) % q == 0 { NoZeroDivisors(q, p, z); }
    if z % q == 0 { MulCong(p, p, z, 0, q); }
  }

  /** Interpolation recovers the constant term exactly when the last quotient vanishes at 0. */
  lemma InterpolatesIff(s: seq<nat>, c: seq<int>, q: pos)
    requires IsPrime(q) && Distinct(s) && forall k :: 0 <= k < |s| ==> s[k] + 1 < q
    ensures LagrangeSum(s, s, c, q) % q == PolyAt(c, 0) % q <==> PolyAt(QuotientAll(c, s), 0) % q == 0
  {
    InterpolationAtZero(s, c, q);
    NegatedPointsNonzero(s, q);
    ScaledRemainderIff(PolyAt(c, 0), NegatedPoints(s), PolyAt(QuotientAll(c, s), 0), q);
  }

  /**
   * For one run with arbitrary peers and lists of any lengths: parties with consistent shares
   * reconstruct the sum of the revealed constant terms exactly when the committed polynomial,
   * divided by all their points, vanishes at 0.
   */
  lemma ConsistentReconstructIff(s: seq<nat>, shares: seq<nat>, all: seq<seq<Point>>, q: pos)
    requires IsPrime(q) && Distinct(s) && (forall k :: 0 <= k < |s| ==> s[k] + 1 < q)
    requires Consistent(s, shares, all, q)
    ensures MulG(Reconstructed(s, s, shares, q), q) == MulG(Sum(Heads(all)), q)
       <==> PolyAt(QuotientAll(CombinedPoly(LogLists(all)), s), 0) % q == 0
  {
    var f := CombinedPoly(LogLists(all));
    ConsistentSharesOn(s, shares, all, q);
    ReconstructedIsLagrange(s, s, shares, f, q);
    CommittedPolynomial(all, 0);
    InterpolatesIff(s, f, q);
  }

  // ---------------------------------------------------------------- a list that is one too long

  ghost predicate Monic(c: seq<int>, d: nat) {
    |c| == d + 1 && c[d] == 1
  }

  lemma {:induction false} MonicQuotient(c: seq<int>, d: pos, a: int)
    requires Monic(c, d)
    ensures Monic(Quotient(c, a), d - 1)
    decreases d
  {
    if d == 1 {
      assert c[1..] == [1] && [1][1..] == [];
    } else {
      MonicQuotient(c[1..], d - 1, a);
    }
  }

  lemma {:induction false} MonicQuotientAll(c: seq<int>, s: seq<nat>)
    requires Monic(c, |s|)
    ensures QuotientAll(c, s) == [1]
    decreases |s|
  {
    if |s| != 0 {
      MonicQuotient(c, |s|, s[0] + 1);
      MonicQuotientAll(Quotient(c, s[0] + 1), s[1..]);
    }
  }

  /** Party 0 draws X^m, the others draw 0. */
  function LongPolys(n: nat, m: nat): (r: seq<seq<nat>>)
    ensures |r| == n
  {
    seq(n, j => if j == 0 then seq(m, _ => 0) + [1] else [0])
  }

  lemma {:induction false} AddZero(c: seq<int>)
    ensures AddPoly(c, []) == c
    ensures |c| > 0 ==> AddPoly(c, [0]) == c
  {
    if |c| > 0 {
      assert [0][1..] == [];
      assert AddPoly(c[1..], []) == c[1..];
    }
  }

  lemma {:induction false} ZeroListsAdd(lists: seq<seq<int>>)
    requires forall j :: 0 <= j < |lists| ==> lists[j] == [0]
    ensures CombinedPoly(lists) == [] || CombinedPoly(lists) == [0]
  {
    if |lists| != 0 {
      ZeroListsAdd(lists[1..]);
      AddZero([0]);
    }
  }

  lemma LongListLogs(n: pos, m: nat, q: pos)
    requires q >= 2
    ensures CombinedPoly(LogLists(Openings(LongPolys(n, m), q))) == seq(m, _ => 0) + [1]
  {
    var lists := LogLists(Openings(LongPolys(n, m), q));
    ModSmall(1, q);
    ModSmall(0, q);
    assert lists[0] == seq(m, _ => 0) + [1];
    forall j | 0 <= j < n - 1
      ensures lists[1..][j] == [0]
    {
      assert lists[j + 1] == [0];
    }
    ZeroListsAdd(lists[1..]);
    AddZero(lists[0]);
  }

  /** Every party's view when all follow the protocol with those polynomials. */
  function LongViews(n: nat, m: nat, q: pos): (r: seq<VssView>)
    ensures |r| == n
  {
    var polys := LongPolys(n, m);
    seq(n, i requires 0 <= i < n => VssView(polys[i], Without(SharesOf(polys, i, q), i)))
  }

  lemma LongViewsAccepted(s: seq<nat>, n: pos, m: nat, q: pos, commit: CommitOracle)
    requires forall k :: 0 <= k < |s| ==> s[k] < n
    ensures var all := Openings(LongPolys(n, m), q);
      && ViewsOf(LongViews(n, m, q), Digests(all, commit), all, |all|)
      && AllAccepted(s, LongViews(n, m, q), Digests(all, commit), all, q, commit)
  {
    var polys := LongPolys(n, m);
    var all := Openings(polys, q);
    var views, commits := LongViews(n, m, q), Digests(all, commit);
    forall k | 0 <= k < |s|
      ensures ViewedVss(s[k], views, commits, all, q, commit).Accepted?
    {
      HonestChecksPass(s[k], polys, n, q, commit);
      VssAcceptsIff(s[k], polys[s[k]], q, commit, Without(commits, s[k]), Without(all, s[k]), views[s[k]].received);
    }
  }

  /** With a list one longer than the signers, `run_vss` may accept at all of them and their shares miss the key. */
  lemma LongListMisses(s: seq<nat>, n: pos, q: pos, commit: CommitOracle)
    returns (views: seq<VssView>, commits: seq<Digest>, all: seq<seq<Point>>)
    requires IsPrime(q) && n < q && Distinct(s) && forall k :: 0 <= k < |s| ==> s[k] < n
    ensures ViewsOf(views, commits, all, n) && AllAccepted(s, views, commits, all, q, commit)
    ensures ListsAtMost(all, |s| + 1) && Consistent(s, VssShares(views, commits, all, q, commit), all, q)
    ensures MulG(Reconstructed(s, s, VssShares(views, commits, all, q, commit), q), q) != MulG(Sum(Heads(all)), q)
  {
    var m := |s|;
    all := Openings(LongPolys(n, m), q);
    views, commits := LongViews(n, m, q), Digests(all, commit);
    LongViewsAccepted(s, n, m, q, commit);
    OffsetsConsistent(s, views, commits, all, q, commit);
    ConsistentReconstructIff(s, VssShares(views, commits, all, q, commit), all, q);
    LongListLogs(n, m, q);
    MonicQuotientAll(seq(m, _ => 0) + [1], s);
    ConstantOne(0);
    ModSmall(1, q);
  }

  // ---------------------------------------------------------------- what a caller can check

  /** Consistent shares of any lists up to a length open the sum of the constant terms. */
  ghost predicate SharesOpen(s: seq<nat>, n: nat, longest: nat, q: pos) {
    forall all: seq<seq<Point>>, shares: seq<nat> ::
      |all| == n && ListsAtMost(all, longest) && Consistent(s, shares, all, q) ==>
        MulG(Reconstructed(s, s, shares, q), q) == MulG(Sum(Heads(all)), q)
  }

  /** The same for the shares and lists of every run in which `run_vss` accepts at all signers. */
  ghost predicate AcceptedSharesOpen(s: seq<nat>, n: nat, longest: nat, q: pos, commit: CommitOracle) {
    forall views: seq<VssView>, commits: seq<Digest>, all: seq<seq<Point>> ::
      ViewsOf(views, commits, all, n) && ListsAtMost(all, longest) && AllAccepted(s, views, commits, all, q, commit) ==>
        MulG(Reconstructed(s, s, VssShares(views, commits, all, q, commit), q), q) == MulG(Sum(Heads(all)), q)
  }

  /**
   * The signers always reconstruct the key if and only if they are at least as many as the
   * longest list that may be revealed. The code compares no list length with anything.
   */
  lemma SharesOpenIff(s: seq<nat>, n: pos, longest: nat, q: pos)
    requires IsPrime(q) && n < q && Distinct(s) && forall k :: 0 <= k < |s| ==> s[k] < n
    ensures SharesOpen(s, n, longest, q) <==> longest <= |s|
  {
    if longest <= |s| {
      forall all: seq<seq<Point>>, shares: seq<nat> |
        |all| == n && ListsAtMost(all, longest) && Consistent(s, shares, all, q)
        ensures MulG(Reconstructed(s, s, shares, q), q) == MulG(Sum(Heads(all)), q)
      {
        ConsistentSharesReconstruct(s, shares, all, q);
      }
    } else {
      var views, commits, all := LongListMisses(s, n, q, (_, _) => 0);
    }
  }

  /** The same condition for what `run_vss` accepts, whatever the commitment hash. */
  lemma AcceptedSharesOpenIff(s: seq<nat>, n: pos, longest: nat, q: pos, commit: CommitOracle)
    requires IsPrime(q) && n < q && Distinct(s) && forall k :: 0 <= k < |s| ==> s[k] < n
    ensures AcceptedSharesOpen(s, n, longest, q, commit) <==> longest <= |s|
  {
    if longest <= |s| {
      forall views: seq<VssView>, commits: seq<Digest>, all: seq<seq<Point>> |
        ViewsOf(views, commits, all, n) && ListsAtMost(all, longest) && AllAccepted(s, views, commits, all, q, commit)
        ensures MulG(Reconstructed(s, s, VssShares(views, commits, all, q, commit), q), q) == MulG(Sum(Heads(all)), q)
      {
        OffsetsConsistent(s, views, commits, all, q, commit);
        ConsistentSharesReconstruct(s, VssShares(views, commits, all, q, commit), all, q);
      }
    } else {
      var views, commits, all := LongListMisses(s, n, q, commit);
    }
  }

  /** Adding shares of any polynomial g keeps the key exactly when interpolating g at 0 gives 0. */
  lemma AddedSharesKeepKeyIff(signers: seq<nat>, before: seq<nat>, offsets: seq<nat>, after: seq<nat>,
      f: seq<int>, g: seq<int>, q: pos)
    requires IsPrime(q) && Distinct(signers) && Below(signers, q) && Added(signers, before, offsets, after, q)
    requires |f| <= |signers| && SomeSharesOn(signers, before, f, q) && SomeSharesOn(signers, offsets, g, q)
    ensures MulG(Reconstructed(signers, signers, after, q), q) == MulG(PolyAt(f, 0), q)
       <==> (PolyAt(g, 0) - NegatedPoints(signers) * PolyAt(QuotientAll(g, signers), 0)) % q == 0
  {
    var value := PolyAt(g, 0) - NegatedPoints(signers) * PolyAt(QuotientAll(g, signers), 0);
    ReconstructedIsLagrange(signers, signers, offsets, g, q);
    InterpolationAtZero(signers, g, q);
    SomeSharesReconstruct(signers, before, f, q);
    ReconstructedAdds(signers, signers, before, offsets, after, q);
    AddedTermVanishesIff(Reconstructed(signers, signers, after, q), Reconstructed(signers, signers, before, q),
      Reconstructed(signers, signers, offsets, q), PolyAt(f, 0), value, q);
  }

  /** The exact condition for one refresh with arbitrary peers, without any bound on the revealed lists. */
  lemma RefreshKeepsKeyExactly(signers: seq<nat>, before: seq<nat>, f: seq<int>, views: seq<VssView>,
      commits: seq<Digest>, all: seq<seq<Point>>, q: pos, commit: CommitOracle)
    requires IsPrime(q) && Distinct(signers) && Below(signers, q) && |before| == |all| && |f| <= |signers|
    requires SomeSharesOn(signers, before, f, q)
    requires ViewsOf(views, commits, all, |all|) && AllAccepted(signers, views, commits, all, q, commit)
    ensures var masterPk := MulG(PolyAt(f, 0), q);
      var after := SharesAfter(before, RefreshResults(before, masterPk, views, commits, all, q, commit));
      var g := CombinedPoly(LogLists(all));
      MulG(Reconstructed(signers, signers, after, q), q) == masterPk
      <==> (PolyAt(g, 0) - NegatedPoints(signers) * PolyAt(QuotientAll(g, signers), 0)) % q == 0
  {
    var masterPk := MulG(PolyAt(f, 0), q);
    var after := SharesAfter(before, RefreshResults(before, masterPk, views, commits, all, q, commit));
    var offsets := VssShares(views, commits, all, q, commit);
    OffsetsConsistent(signers, views, commits, all, q, commit);
    OffsetsAdded(signers, before, masterPk, views, commits, all, q, commit);
    ConsistentSharesOn(signers, offsets, all, q);
    AddedSharesKeepKeyIff(signers, before, offsets, after, f, CombinedPoly(LogLists(all)), q);
  }
}
