/** One round's received messages, and sums over the parties. */
module Rounds {
  import opened Arithmetic
  import opened Core
  import opened Wrappers

  /** The sender of the k-th message of a round as party i iterates over it: everyone but i, in order. */
  function Peer(i: nat, k: nat): nat {
    if k < i then k else k + 1
  }

  function Without<T>(s: seq<T>, i: nat): (r: seq<T>)
    requires i < |s|
    ensures |r| == |s| - 1
    ensures forall k :: 0 <= k < |r| ==> r[k] == s[Peer(i, k)]
  {
    s[..i] + s[i + 1..]
  }

  /** Every sender of the round sent something; otherwise the round never completes. */
  predicate AllPresent<T>(msgs: seq<Option<T>>) {
    forall k :: 0 <= k < |msgs| ==> msgs[k].Some?
  }

  function Values<T>(msgs: seq<Option<T>>): (r: seq<T>)
    requires AllPresent(msgs)
    ensures |r| == |msgs| && forall k :: 0 <= k < |r| ==> r[k] == msgs[k].value
  {
    seq(|msgs|, k requires 0 <= k < |msgs| => msgs[k].value)
  }

  /** Where the message of another party j stands in what party i receives. */
  lemma WithoutAt<T>(s: seq<T>, i: nat, j: nat)
    requires i < |s| && j < |s| && i != j
    ensures var k := if j < i then j else j - 1; Peer(i, k) == j && Without(s, i)[k] == s[j]
  {
  }

  lemma MissingSender<T>(msgs: seq<Option<T>>, i: nat, j: nat)
    requires i < |msgs| && j < |msgs| && i != j && msgs[j].None?
    ensures !AllPresent(Without(msgs, i))
  {
    WithoutAt(msgs, i, j);
  }

  /** The first error among the outcomes of the first k messages, for loops that return on an error. */
  function FirstSome<E>(outcomes: seq<Option<E>>, k: nat): Option<E>
    requires k <= |outcomes|
  {
    if k == 0 then None
    else
      var before := FirstSome(outcomes, k - 1);
      if before.Some? then before else outcomes[k - 1]
  }

  lemma {:induction false} FirstSomeSticks<E>(outcomes: seq<Option<E>>, k: nat)
    requires k <= |outcomes| && FirstSome(outcomes, k).Some?
    ensures FirstSome(outcomes, |outcomes|) == FirstSome(outcomes, k)
    decreases |outcomes| - k
  {
    if k < |outcomes| { FirstSomeSticks(outcomes, k + 1); }
  }

  /** One more message, while none has failed yet. */
  lemma FirstSomeStep<E>(outcomes: seq<Option<E>>, k: nat)
    requires k < |outcomes| && FirstSome(outcomes, k).None?
    ensures FirstSome(outcomes, k + 1) == outcomes[k]
    ensures outcomes[k].Some? ==> FirstSome(outcomes, |outcomes|) == outcomes[k]
  {
    if outcomes[k].Some? { FirstSomeSticks(outcomes, k + 1); }
  }

  lemma {:induction false} FirstSomeNone<E>(outcomes: seq<Option<E>>, k: nat)
    requires k <= |outcomes|
    ensures FirstSome(outcomes, k).None? <==> forall l :: 0 <= l < k ==> outcomes[l].None?
  {
    if k != 0 { FirstSomeNone(outcomes, k - 1); }
  }

  function Sum(s: seq<int>): int {
    if |s| == 0 then 0 else s[0] + Sum(s[1..])
  }

  /** An accumulator started at `start`, after adding every summand modulo q. */
  function SumMod(start: int, s: seq<int>, q: pos): nat {
    (start + Sum(s)) % q
  }

  lemma SumModCong(start: int, start': int, s: seq<int>, t: seq<int>, q: pos)
    requires start % q == start' % q && Sum(s) % q == Sum(t) % q
    ensures SumMod(start, s, q) == SumMod(start', t, q)
  {
    AddCong(start, start', Sum(s), Sum(t), q);
  }

  /** The sum over all parties, split into party i's own summand and the others'. */
  lemma SumModWithout(s: seq<int>, i: nat, q: pos)
    requires i < |s|
    ensures SumMod(s[i], Without(s, i), q) == Sum(s) % q
  {
    var others := Sum(Without(s, i));
    SumWithout(s, i);
    assert s[i] + others == Sum(s);
  }

  lemma {:induction false} SumAppend(a: seq<int>, b: seq<int>)
    ensures Sum(a + b) == Sum(a) + Sum(b)
  {
    if |a| == 0 {
      assert a + b == b;
    } else {
      SumAppend(a[1..], b);
      assert (a + b)[1..] == a[1..] + b;
    }
  }

  lemma SumOne(x: int)
    ensures Sum([x]) == x
  {
    assert [x][1..] == [];
  }

  lemma SumSnoc(s: seq<int>, k: nat)
    requires k < |s|
    ensures Sum(s[..k + 1]) == Sum(s[..k]) + s[k]
  {
    assert s[..k + 1] == s[..k] + [s[k]];
    SumAppend(s[..k], [s[k]]);
    SumOne(s[k]);
  }

  /** One step of an accumulating loop: adding the k-th summand modulo q. */
  lemma SumStep(start: int, s: seq<int>, k: nat, q: pos)
    requires k < |s|
    ensures (SumMod(start, s[..k], q) + s[k]) % q == SumMod(start, s[..k + 1], q)
  {
    SumSnoc(s, k);
    var before := start + Sum(s[..k]);
    AddMod(before, s[k], q);
    assert start + Sum(s[..k + 1]) == before + s[k];
  }

  lemma SumInsert(a: seq<int>, x: int, b: seq<int>)
    ensures Sum(a + [x] + b) == x + Sum(a + b)
  {
    SumAppend(a + [x], b);
    SumAppend(a, [x]);
    SumAppend(a, b);
    SumOne(x);
  }

  lemma SumWithout(s: seq<int>, i: nat)
    requires i < |s|
    ensures s[i] + Sum(Without(s, i)) == Sum(s)
  {
    SplitAt(s, i);
    SumInsert(s[..i], s[i], s[i + 1..]);
  }

  lemma SplitAt<T>(s: seq<T>, i: nat)
    requires i < |s|
    ensures s == s[..i] + [s[i]] + s[i + 1..]
  {
  }

  lemma {:induction false} SumCong(s: seq<int>, t: seq<int>, q: pos)
    requires SameModulo(s, t, q)
    ensures Sum(s) % q == Sum(t) % q
  {
    if |s| != 0 {
      SumCong(s[1..], t[1..], q);
      AddCong(s[0], t[0], Sum(s[1..]), Sum(t[1..]), q);
    }
  }

  ghost predicate ReducedTo(reduced: seq<int>, s: seq<int>, q: pos) {
    |reduced| == |s| && forall k :: 0 <= k < |s| ==> reduced[k] == s[k] % q
  }

  /** Reducing every summand first leaves the running sum unchanged. */
  lemma ReducedSum(start: int, reduced: seq<int>, s: seq<int>, q: pos)
    requires ReducedTo(reduced, s, q)
    ensures SumMod(start, reduced, q) == (start + Sum(s)) % q
  {
    forall k | 0 <= k < |s|
      ensures reduced[k] % q == s[k] % q
    {
      ModMod(s[k], q);
    }
    SumCong(reduced, s, q);
    SumModCong(start, start, reduced, s, q);
  }
}
