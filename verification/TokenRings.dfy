/** Members of the cluster, and how their tokens may be spread over the ring. */
module TokenRings {
  /** `held` are the partition replicas a node holds, as pairs of partition and replica number. */
  datatype NodeConfig = NodeConfig(id: nat, capacity: nat, tokens: set<nat>, held: set<(nat, nat)>)

  type Ring = seq<nat>

  function Ceil(p: nat, n: nat): nat
    requires n > 0
  {
    p / n + (if p % n != 0 then 1 else 0)
  }

  /**
    Every token is on a live node, and every live node has at least the rounded down share
    and at most that plus the remainder.
   */
  ghost predicate Spread(live: set<nat>, ring: Ring) {
    && live != {}
    && (forall t :: 0 <= t < |ring| ==> ring[t] in live)
    && (forall n :: n in live ==>
          |ring| / |live| <= multiset(ring)[n] <= |ring| / |live| + |ring| % |live|)
  }

  /** The tokens of a node. */
  ghost function TokensOf(ring: Ring, n: nat): set<nat> {
    set t | 0 <= t < |ring| && ring[t] == n
  }

  // ----- Counting -------------------------------------------------------------------------

  lemma {:induction false} AtMostEach(live: set<nat>, m: multiset<nat>, f: nat)
    requires forall x :: x in m ==> x in live
    requires forall x :: x in live ==> m[x] <= f
    ensures |m| <= f * |live|
    decreases live
  {
    if live == {} {
      assert m == multiset{};
    } else {
      var x :| x in live;
      AtMostEach(live - {x}, m[x := 0], f);
      assert |m[x := 0]| == |m| - m[x];
      assert f * |live| == f * |live - {x}| + f;
    }
  }

  lemma {:induction false} AtLeastEach(live: set<nat>, m: multiset<nat>, f: nat)
    requires forall x :: x in live ==> m[x] >= f
    ensures |m| >= f * |live|
    decreases live
  {
    if live != {} {
      var x :| x in live;
      AtLeastEach(live - {x}, m[x := 0], f);
      assert |m[x := 0]| == |m| - m[x];
      assert f * |live| == f * |live - {x}| + f;
    }
  }

  /** `x` has what the others leave. */
  lemma OthersLeave(live: set<nat>, m: multiset<nat>, f: nat, x: nat)
    requires x in live && forall y :: y in live ==> m[y] >= f
    ensures m[x] <= f + |m| - f * |live|
  {
    AtLeastEach(live - {x}, m[x := 0], f);
    assert |m[x := 0]| == |m| - m[x];
    assert f * |live| == f * |live - {x}| + f;
  }

  lemma OneBelow(live: set<nat>, m: multiset<nat>, f: nat, i: nat)
    requires i in live && m[i] < f
    requires (forall x :: x in m ==> x in live) && forall x :: x in live ==> m[x] <= f
    ensures |m| < f * |live|
  {
    AtMostEach(live - {i}, m[i := 0], f);
    assert |m[i := 0]| == |m| - m[i];
    assert f * |live| == f * |live - {i}| + f;
  }

  lemma AllAtCeiling(live: set<nat>, m: multiset<nat>, c: nat)
    requires 0 !in live && m[0] > 0 && forall x :: x in live ==> m[x] >= c
    ensures |m| > c * |live|
  {
    AtLeastEach(live, m[0 := 0], c);
    assert |m[0 := 0]| == |m| - m[0];
  }

  lemma Division(p: nat, n: nat)
    requires n > 0
    ensures p == p / n * n + p % n && p <= Ceil(p, n) * n
  {
    assert Ceil(p, n) * n == p / n * n + (if p % n != 0 then n else 0);
  }

  /** A node below the share means that another one is above it. */
  lemma NeedMeansSurplus(live: set<nat>, ring: Ring, f: nat, i: nat)
    requires i in live && multiset(ring)[i] < f && f * |live| <= |ring|
    requires forall t :: 0 <= t < |ring| ==> ring[t] in live
    ensures exists j :: j in live && multiset(ring)[j] > f
  {
    forall x | x in multiset(ring) ensures x in live { assert x in ring; }
    if forall j :: j in live ==> multiset(ring)[j] <= f {
      OneBelow(live, multiset(ring), f, i);
    }
  }

  /** When everyone has the share, nobody has more than the share and the remainder. */
  lemma SharesLeaveRemainder(live: set<nat>, ring: Ring, x: nat)
    requires x in live && forall y :: y in live ==> multiset(ring)[y] >= |ring| / |live|
    ensures multiset(ring)[x] <= |ring| / |live| + |ring| % |live|
  {
    OthersLeave(live, multiset(ring), |ring| / |live|, x);
    Division(|ring|, |live|);
  }

  /** While a token is unassigned some live node is below the rounded up share. */
  lemma UnassignedMeansRoom(live: set<nat>, ring: Ring, t: nat)
    requires 0 !in live && live != {} && t < |ring| && ring[t] == 0
    ensures exists j :: j in live && multiset(ring)[j] < Ceil(|ring|, |live|)
  {
    assert ring[t] in multiset(ring);
    Division(|ring|, |live|);
    if forall j :: j in live ==> multiset(ring)[j] >= Ceil(|ring|, |live|) {
      AllAtCeiling(live, multiset(ring), Ceil(|ring|, |live|));
    }
  }
}
