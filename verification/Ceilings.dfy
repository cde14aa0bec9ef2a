/**
  When the strategy of cluster/partitioner.go keeps every node within the rounded up share,
  as the comment on its main loop says: for which numbers of tokens and nodes this is certain.
 */
module Ceilings {
  import opened TokenRings
  import opened Partitioners

  /** Whatever the assignment was before, nobody ends above the rounded up share. */
  ghost predicate CeilingIsCertain(tokens: nat, live: nat) {
    forall nodes, current, ring :: Outcome(tokens, live, nodes, current, ring) ==> WithinCeiling(LiveIds(nodes), ring)
  }

  /** A call of `AssignTokens` for so many tokens and live nodes, and a ring it may return. */
  ghost predicate Outcome(tokens: nat, live: nat, nodes: seq<NodeConfig>, current: Ring, ring: Ring) {
    && Preconditions(nodes, current, tokens) && Agree(nodes, current) && |nodes| <= tokens
    && LiveIds(nodes) != {} && |LiveIds(nodes)| == live && Assigned(nodes, current, ring)
  }

  /** The rounded up share is an upper bound for certain if and only if the remainder is at most one. */
  lemma CeilingExactly(tokens: nat, live: nat)
    requires 0 < live <= tokens
    ensures CeilingIsCertain(tokens, live) <==> tokens % live <= 1
  {
    if tokens % live > 1 {
      var ring, nodes := Lopsided(tokens, live), Members(tokens, live);
      LopsidedIsKept(tokens, live);
      assert Outcome(tokens, live, nodes, ring, ring);
    }
  }

  // ----- A ring that is spread, but not within the rounded up share -----------------------

  function Same(n: nat, count: nat): (ring: Ring)
    ensures |ring| == count
  {
    seq(count, _ => n)
  }

  function Blocks(nodes: nat, each: nat): Ring {
    if nodes == 0 then [] else Blocks(nodes - 1, each) + Same(nodes, each)
  }

  /** Node 1 holds the whole remainder. */
  function Lopsided(tokens: nat, live: nat): Ring
    requires live > 0
  {
    Blocks(live, tokens / live) + Same(1, tokens % live)
  }

  ghost function Members(tokens: nat, live: nat): seq<NodeConfig>
    requires live > 0
  {
    seq(live, i requires 0 <= i => NodeConfig(i + 1, 1, TokensOf(Lopsided(tokens, live), i + 1), {}))
  }

  lemma {:induction false} SameCounts(n: nat, count: nat, x: nat)
    ensures multiset(Same(n, count))[x] == if x == n then count else 0
  {
    if count > 0 {
      SameCounts(n, count - 1, x);
      assert Same(n, count) == Same(n, count - 1) + [n];
    }
  }

  lemma {:induction false} BlocksCounts(nodes: nat, each: nat, x: nat)
    ensures multiset(Blocks(nodes, each))[x] == if 1 <= x <= nodes then each else 0
    ensures |Blocks(nodes, each)| == each * nodes
  {
    if nodes > 0 {
      BlocksCounts(nodes - 1, each, x);
      SameCounts(nodes, each, x);
      assert each * nodes == each * (nodes - 1) + each;
    }
  }

  function FirstIds(live: nat): (ids: set<nat>)
    ensures |ids| == live && forall n :: n in ids <==> 1 <= n <= live
  {
    if live == 0 then {} else FirstIds(live - 1) + {live}
  }

  lemma MembersMeaning(tokens: nat, live: nat)
    requires 0 < live
    ensures var nodes := Members(tokens, live);
            && SortedAndUnique(nodes) && Agree(nodes, Lopsided(tokens, live))
            && LiveIds(nodes) == FirstIds(live)
            && forall n :: n in FirstIds(live) ==> Known(nodes, n)
  {
    var nodes := Members(tokens, live);
    forall n | n in FirstIds(live) ensures n in LiveIds(nodes) && Known(nodes, n) {
      assert nodes[n - 1].id == n && nodes[n - 1].capacity != 0;
    }
  }

  lemma LopsidedCounts(tokens: nat, live: nat, x: nat)
    requires 0 < live
    ensures |Lopsided(tokens, live)| == tokens
    ensures multiset(Lopsided(tokens, live))[x] ==
            (if 1 <= x <= live then tokens / live else 0) + (if x == 1 then tokens % live else 0)
  {
    BlocksCounts(live, tokens / live, x);
    SameCounts(1, tokens % live, x);
    Division(tokens, live);
  }

  lemma LopsidedOwners(tokens: nat, live: nat)
    requires 0 < live
    ensures forall t :: 0 <= t < |Lopsided(tokens, live)| ==> Lopsided(tokens, live)[t] in FirstIds(live)
  {
    var ring := Lopsided(tokens, live);
    forall t | 0 <= t < |ring| ensures ring[t] in FirstIds(live) {
      LopsidedCounts(tokens, live, ring[t]);
      assert multiset(ring)[ring[t]] > 0;
    }
  }

  /** Everyone has the share, and node 1 the remainder on top of it. */
  ghost predicate Uneven(ids: set<nat>, ring: Ring) {
    && 1 in ids && (forall t :: 0 <= t < |ring| ==> ring[t] in ids)
    && forall n :: n in ids ==> multiset(ring)[n] == |ring| / |ids| + (if n == 1 then |ring| % |ids| else 0)
  }

  lemma UnevenIsSpread(ids: set<nat>, ring: Ring)
    requires Uneven(ids, ring) && |ring| % |ids| > 1
    ensures Spread(ids, ring) && !WithinCeiling(ids, ring)
    ensures |ring| / |ids| == 1 ==> LeavesOnes(ids, ring, ring)
  {
    assert multiset(ring)[1] > Ceil(|ring|, |ids|);
  }

  lemma LopsidedIsUneven(tokens: nat, live: nat)
    requires 0 < live
    ensures Uneven(FirstIds(live), Lopsided(tokens, live)) && |Lopsided(tokens, live)| == tokens
  {
    var ring, ids := Lopsided(tokens, live), FirstIds(live);
    LopsidedCounts(tokens, live, 1);
    LopsidedOwners(tokens, live);
    forall n | n in ids ensures multiset(ring)[n] == tokens / live + (if n == 1 then tokens % live else 0) {
      LopsidedCounts(tokens, live, n);
    }
  }

  /** The strategy leaves it alone, because every node has the share. */
  lemma LopsidedIsKept(tokens: nat, live: nat)
    requires 0 < live <= tokens && tokens % live > 1
    ensures var nodes, ring := Members(tokens, live), Lopsided(tokens, live);
            Outcome(tokens, live, nodes, ring, ring) && !WithinCeiling(LiveIds(nodes), ring)
  {
    MembersMeaning(tokens, live);
    LopsidedIsUneven(tokens, live);
    UnevenRingStays(tokens, Members(tokens, live), Lopsided(tokens, live), FirstIds(live));
  }

  lemma UnevenRingStays(tokens: nat, nodes: seq<NodeConfig>, ring: Ring, ids: set<nat>)
    requires SortedAndUnique(nodes) && Agree(nodes, ring) && LiveIds(nodes) == ids && |nodes| == |ids| <= tokens
    requires (forall n :: n in ids ==> Known(nodes, n)) && Uneven(ids, ring) && |ring| == tokens && |ring| % |ids| > 1
    ensures Outcome(tokens, |ids|, nodes, ring, ring) && !WithinCeiling(LiveIds(nodes), ring)
  {
    UnevenIsSpread(ids, ring);
    forall t | 0 <= t < |ring| ensures Known(nodes, ring[t]) {
      assert ring[t] in ids;
    }
  }
}
