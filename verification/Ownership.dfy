/** The owners of a partition, read off the token ring (cluster/partitioner.go). */
module Ownership {
  import opened TokenRings

  /** The `i`-th token met when going round from the partition. */
  function At(ring: Ring, partition: nat, i: nat): nat
    requires partition < |ring|
  {
    ring[(i + partition) % |ring|]
  }

  /** The different owners among the first `count` tokens, in the order they are met. */
  function Distinct(ring: Ring, partition: nat, count: nat): seq<nat>
    requires partition < |ring|
  {
    if count == 0 then []
    else
      var before := Distinct(ring, partition, count - 1);
      var owner := At(ring, partition, count - 1);
      if owner in before then before else before + [owner]
  }

  /** A list extended to `n` entries by starting over. */
  function Cycle(list: seq<nat>, n: nat): (r: seq<nat>)
    requires list != []
    ensures |r| == n
  {
    if n <= |list| then list[..n]
    else
      var before := Cycle(list, n - 1);
      before + [before[n - 1 - |list|]]
  }

  /** The different owners, repeated in turn when there are fewer of them than replicas. */
  function Owners(ring: Ring, partition: nat, replicationFactor: nat): (owners: seq<nat>)
    ensures |owners| == if partition < |ring| then replicationFactor else 0
  {
    if partition >= |ring| then []
    else
      DistinctIsNotEmpty(ring, partition, |ring|);
      Cycle(Distinct(ring, partition, |ring|), replicationFactor)
  }

  lemma {:induction false} CycleAt(list: seq<nat>, n: nat, i: nat)
    requires list != [] && i < n
    ensures Cycle(list, n)[i] == if i < |list| then list[i] else Cycle(list, n)[i - |list|]
  {
    if n > |list| && i < n - 1 { CycleAt(list, n - 1, i); }
  }

  lemma {:induction false} DistinctIsNotEmpty(ring: Ring, partition: nat, count: nat)
    requires partition < |ring| && count > 0
    ensures Distinct(ring, partition, count) != []
  {
    if count > 1 { DistinctIsNotEmpty(ring, partition, count - 1); }
  }

  lemma {:induction false} DistinctGrows(ring: Ring, partition: nat, i: nat, j: nat)
    requires partition < |ring| && i <= j
    ensures Distinct(ring, partition, i) <= Distinct(ring, partition, j)
    decreases j
  {
    if i < j { DistinctGrows(ring, partition, i, j - 1); }
  }

  /** The node is the owner of one of the first `count` tokens met. */
  ghost predicate Met(ring: Ring, partition: nat, count: nat, n: nat)
    requires partition < |ring|
  {
    exists i :: 0 <= i < count && At(ring, partition, i) == n
  }

  lemma MetOneMore(ring: Ring, partition: nat, count: nat, n: nat)
    requires partition < |ring|
    ensures Met(ring, partition, count + 1, n) <==> Met(ring, partition, count, n) || At(ring, partition, count) == n
  {
    if Met(ring, partition, count + 1, n) {
      var i :| 0 <= i < count + 1 && At(ring, partition, i) == n;
      assert i < count ==> Met(ring, partition, count, n);
    }
  }

  ghost predicate NoDuplicates(s: seq<nat>) {
    forall a, b :: 0 <= a < b < |s| ==> s[a] != s[b]
  }

  lemma NoDuplicatesOneMore(s: seq<nat>, n: nat)
    requires NoDuplicates(s) && n !in s
    ensures NoDuplicates(s + [n])
  {
  }

  /** Each owner is listed once, and exactly the owners met are listed. */
  lemma {:induction false} DistinctMeaning(ring: Ring, partition: nat, count: nat)
    requires partition < |ring|
    ensures NoDuplicates(Distinct(ring, partition, count))
    ensures forall n :: n in Distinct(ring, partition, count) <==> Met(ring, partition, count, n)
  {
    if count > 0 {
      DistinctMeaning(ring, partition, count - 1);
      var before, owner := Distinct(ring, partition, count - 1), At(ring, partition, count - 1);
      if owner !in before { NoDuplicatesOneMore(before, owner); }
      forall n ensures n in Distinct(ring, partition, count) <==> Met(ring, partition, count, n) {
        MetOneMore(ring, partition, count - 1, n);
      }
    }
  }

  /** An owner listed earlier is met earlier. */
  lemma DistinctInOrder(ring: Ring, partition: nat, count: nat, a: nat, b: nat, i: nat)
    requires partition < |ring| && a < b < |Distinct(ring, partition, count)| && i < count
    requires At(ring, partition, i) == Distinct(ring, partition, count)[b]
    ensures Met(ring, partition, i, Distinct(ring, partition, count)[a])
  {
    var d, met := Distinct(ring, partition, count), Distinct(ring, partition, i + 1);
    DistinctMeaning(ring, partition, i);
    DistinctMeaning(ring, partition, i + 1);
    DistinctMeaning(ring, partition, count);
    DistinctGrows(ring, partition, i, count);
    DistinctGrows(ring, partition, i + 1, count);
    assert Met(ring, partition, i + 1, d[b]);
    var k :| 0 <= k < |met| && met[k] == d[b];
    assert d[k] == d[b] && k == b;
    assert Distinct(ring, partition, i)[a] == d[a];
  }

  lemma WrapAround(x: nat, n: nat)
    requires 0 < n && x < 2 * n
    ensures x % n == if x < n then x else x - n
  {
  }

  /** Going round once meets every token of the ring. */
  lemma WholeRing(ring: Ring, partition: nat, n: nat)
    requires partition < |ring|
    ensures n in ring <==> n in Distinct(ring, partition, |ring|)
  {
    DistinctMeaning(ring, partition, |ring|);
    if n in ring {
      var t :| 0 <= t < |ring| && ring[t] == n;
      var i := if t >= partition then t - partition else t + |ring| - partition;
      WrapAround(i + partition, |ring|);
      assert At(ring, partition, i) == n;
    }
  }

  ghost function Members(s: seq<nat>): set<nat> {
    set n | n in s
  }

  lemma MembersOneMore(s: seq<nat>, n: nat)
    ensures Members(s + [n]) == Members(s) + {n}
  {
  }

  lemma {:induction false} AllDifferent(s: seq<nat>)
    requires NoDuplicates(s)
    ensures |Members(s)| == |s|
  {
    if s != [] {
      var front, last := s[..|s| - 1], s[|s| - 1];
      AllDifferent(front);
      assert s == front + [last];
      MembersOneMore(front, last);
    }
  }

  /** The owner of each replica: a new node while there is one, then the nodes again in turn. */
  lemma OwnerAt(ring: Ring, partition: nat, replicationFactor: nat, i: nat)
    requires partition < |ring| && i < replicationFactor
    ensures var owners, distinct := Owners(ring, partition, replicationFactor), Distinct(ring, partition, |ring|);
            owners[i] == if i < |distinct| then distinct[i] else owners[i - |distinct|]
  {
    DistinctIsNotEmpty(ring, partition, |ring|);
    CycleAt(Distinct(ring, partition, |ring|), replicationFactor, i);
  }

  /**
    A partition of the ring has exactly as many owners as replicas.  As many of them as
    possible are different nodes of the ring, in ring order.
   */
  lemma OwnersMeaning(ring: Ring, partition: nat, replicationFactor: nat)
    requires partition < |ring|
    ensures var owners, distinct := Owners(ring, partition, replicationFactor), Distinct(ring, partition, |ring|);
            && |owners| == replicationFactor
            && Members(distinct) == Members(ring) && |distinct| == |Members(ring)| && NoDuplicates(distinct)
            && (if replicationFactor <= |distinct| then owners <= distinct else distinct <= owners)
  {
    var owners, distinct := Owners(ring, partition, replicationFactor), Distinct(ring, partition, |ring|);
    DistinctMeaning(ring, partition, |ring|);
    forall n ensures n in ring <==> n in distinct { WholeRing(ring, partition, n); }
    AllDifferent(distinct);
    forall i | 0 <= i < replicationFactor && i < |distinct| ensures owners[i] == distinct[i] {
      OwnerAt(ring, partition, replicationFactor, i);
    }
  }

  lemma {:induction false} FirstMet(ring: Ring, partition: nat, count: nat, n: nat) returns (i: nat)
    requires partition < |ring| && Met(ring, partition, count, n)
    ensures i < count && At(ring, partition, i) == n && !Met(ring, partition, i, n)
  {
    if Met(ring, partition, count - 1, n) {
      i := FirstMet(ring, partition, count - 1, n);
    } else {
      i := count - 1;
      MetOneMore(ring, partition, count - 1, n);
    }
  }

  /** The walk meets the `a`-th different owner right after those listed before it. */
  lemma ListedWhenMet(ring: Ring, partition: nat, a: nat) returns (i: nat)
    requires partition < |ring| && a < |Distinct(ring, partition, |ring|)|
    ensures var d := Distinct(ring, partition, |ring|);
            i < |ring| && At(ring, partition, i) == d[a] && Distinct(ring, partition, i) == d[..a] && d[a] !in d[..a]
  {
    var d := Distinct(ring, partition, |ring|);
    DistinctMeaning(ring, partition, |ring|);
    i := FirstMet(ring, partition, |ring|, d[a]);
    DistinctMeaning(ring, partition, i);
    DistinctGrows(ring, partition, i, |ring|);
    DistinctGrows(ring, partition, i + 1, |ring|);
    var before := Distinct(ring, partition, i);
    assert Distinct(ring, partition, i + 1) == before + [d[a]];
    assert d[|before|] == d[a];
  }

  /** The tokens from the partition on, once round. */
  function Walk(ring: Ring, partition: nat): Ring
    requires partition < |ring|
  {
    ring[partition..] + ring[..partition]
  }

  lemma WalkMeets(ring: Ring, partition: nat, i: nat)
    requires partition < |ring| && i < |ring|
    ensures At(ring, partition, i) == Walk(ring, partition)[i]
  {
    WrapAround(i + partition, |ring|);
  }

  /** The `a`-th owner is the `i`-th node met, not listed yet, behind listed ones only. */
  ghost predicate IsNewOwner(walk: Ring, owners: seq<nat>, a: nat, i: nat)
    requires a < |owners| && i < |walk|
  {
    owners[a] == walk[i] && owners[a] !in owners[..a] && forall n :: n in walk[..i] ==> n in owners[..a]
  }

  /**
    Walking the ring from the partition: the next owner is the first node met that is not listed
    yet, and when every node of the ring is listed the list starts over.
   */
  lemma NextOwner(ring: Ring, partition: nat, replicationFactor: nat, a: nat)
    requires partition < |ring| && a < replicationFactor
    ensures var owners, count := Owners(ring, partition, replicationFactor), |set n | n in ring|;
            if a < count then exists i: nat :: i < |ring| && IsNewOwner(Walk(ring, partition), owners, a, i)
            else owners[a] == owners[a - count]
  {
    var owners, d := Owners(ring, partition, replicationFactor), Distinct(ring, partition, |ring|);
    OwnersMeaning(ring, partition, replicationFactor);
    assert Members(ring) == set n | n in ring;
    OwnerAt(ring, partition, replicationFactor, a);
    if a < |d| {
      var i := ListedWhenMet(ring, partition, a);
      assert owners[..a] == d[..a];
      WalkMeets(ring, partition, i);
      MetIsListed(ring, partition, i);
      assert IsNewOwner(Walk(ring, partition), owners, a, i);
    }
  }

  lemma MetIsListed(ring: Ring, partition: nat, i: nat)
    requires partition < |ring| && i <= |ring|
    ensures forall n :: n in Walk(ring, partition)[..i] ==> n in Distinct(ring, partition, i)
  {
    DistinctMeaning(ring, partition, i);
    forall n | n in Walk(ring, partition)[..i] ensures Met(ring, partition, i, n) {
      var j :| 0 <= j < i && Walk(ring, partition)[j] == n;
      WalkMeets(ring, partition, j);
    }
  }

  method ComputeOwners(ring: Ring, partition: nat, replicationFactor: nat) returns (owners: seq<nat>)
    ensures owners == Owners(ring, partition, replicationFactor)
  {
    if partition >= |ring| {
      return [];
    }
    var ownersSet: set<nat> := {};
    owners := [];
    var i: nat := 0;
    while i < |ring| && |ownersSet| < replicationFactor
      invariant i <= |ring| && owners == Distinct(ring, partition, i)
      invariant ownersSet == Members(owners) && |ownersSet| == |owners| <= replicationFactor
    {
      var realIndex := (i + partition) % |ring|;
      if ring[realIndex] !in ownersSet {
        MembersOneMore(owners, ring[realIndex]);
        ownersSet := ownersSet + {ring[realIndex]};
        owners := owners + [ring[realIndex]];
      }
      i := i + 1;
    }
    DistinctGrows(ring, partition, i, |ring|);
    DistinctIsNotEmpty(ring, partition, |ring|);
    if |owners| > 0 && replicationFactor > |owners| {
      owners := Repeat(owners, replicationFactor);
    }
  }

  /** The final loop of the source: appends the first owners again, in turn. */
  method Repeat(originalOwnersList: seq<nat>, replicationFactor: nat) returns (owners: seq<nat>)
    requires 0 < |originalOwnersList| < replicationFactor
    ensures owners == Cycle(originalOwnersList, replicationFactor)
  {
    var n := |originalOwnersList|;
    owners := originalOwnersList;
    for k := 0 to replicationFactor - n
      invariant owners == Cycle(originalOwnersList, n + k)
      invariant forall j :: 0 <= j < |owners| ==> owners[j] == originalOwnersList[Position(j, n)]
    {
      SamePosition(n + k, n);
      owners := owners + [originalOwnersList[k % n]];
    }
  }

  function Position(j: nat, n: nat): (p: nat)
    requires n > 0
    ensures p < n && (j < n ==> p == j)
  {
    j % n
  }

  lemma SamePosition(j: nat, n: nat)
    requires 0 < n <= j
    ensures Position(j, n) == Position(j - n, n)
  {
    QuotientIsUnique(j, (j - n) / n + 1, (j - n) % n, n);
  }

  lemma QuotientIsUnique(x: nat, q: nat, r: nat, n: nat)
    requires r < n && x == q * n + r
    ensures x / n == q && x % n == r
  {
    if x / n > q {
      MultiplyBoth(q + 1, x / n, n);
    } else if x / n < q {
      MultiplyBoth(x / n + 1, q, n);
    }
  }

  lemma MultiplyBoth(a: nat, b: nat, n: nat)
    requires a <= b
    ensures a * n <= b * n
  {
  }
}
