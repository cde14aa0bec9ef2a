/**
  The simple partitioning strategy (cluster/partitioner.go): assigning tokens to the nodes of
  the cluster, and reading the owners of a partition off the ring.
 */
module Partitioners {
  import opened Wrappers
  import opened TokenRings

  datatype Error = EPreconditionFailed

  // ----- Preconditions --------------------------------------------------------------------

  ghost predicate SortedAndUnique(nodes: seq<NodeConfig>) {
    && (forall i :: 0 <= i < |nodes| ==> nodes[i].id > 0)
    && (forall i, j :: 0 <= i < j < |nodes| ==> nodes[i].id < nodes[j].id)
  }

  ghost predicate Known(nodes: seq<NodeConfig>, n: nat) {
    exists k :: 0 <= k < |nodes| && nodes[k].id == n
  }

  ghost predicate Preconditions(nodes: seq<NodeConfig>, current: Ring, partitions: nat) {
    && SortedAndUnique(nodes) && |current| == partitions && partitions != 0
    && (forall t :: 0 <= t < |current| ==> current[t] == 0 || Known(nodes, current[t]))
  }

  /** Each node lists the tokens the ring gives it. */
  ghost predicate Agree(nodes: seq<NodeConfig>, current: Ring) {
    forall k :: 0 <= k < |nodes| ==> nodes[k].tokens == TokensOf(current, nodes[k].id)
  }

  method NodesAreSortedAndUnique(nodes: seq<NodeConfig>) returns (ok: bool)
    ensures ok <==> SortedAndUnique(nodes)
  {
    var lastNodeID := 0;
    for i := 0 to |nodes|
      invariant SortedAndUnique(nodes[..i])
      invariant lastNodeID == if i == 0 then 0 else nodes[i - 1].id
    {
      if lastNodeID >= nodes[i].id {
        return false;
      }
      lastNodeID := nodes[i].id;
    }
    assert nodes[..|nodes|] == nodes;
    return true;
  }

  method OwnerExists(nodes: seq<NodeConfig>, owner: nat) returns (ok: bool)
    ensures ok <==> Known(nodes, owner)
  {
    for k := 0 to |nodes|
      invariant forall j :: 0 <= j < k ==> nodes[j].id != owner
    {
      if nodes[k].id == owner {
        return true;
      }
    }
    return false;
  }

  method CheckPreconditions(nodes: seq<NodeConfig>, current: Ring, partitions: nat) returns (ok: bool)
    ensures ok <==> Preconditions(nodes, current, partitions)
  {
    var sorted := NodesAreSortedAndUnique(nodes);
    if !sorted || |current| != partitions || partitions == 0 {
      return false;
    }
    for t := 0 to |current|
      invariant forall s :: 0 <= s < t ==> current[s] == 0 || Known(nodes, current[s])
    {
      if current[t] == 0 {
        continue;
      }
      var known := OwnerExists(nodes, current[t]);
      if !known {
        return false;
      }
    }
    return true;
  }

  // ----- The state of the loops -----------------------------------------------------------

  function LiveIds(nodes: seq<NodeConfig>): set<nat> {
    set k | 0 <= k < |nodes| && nodes[k].capacity != 0 :: nodes[k].id
  }

  /** The counter of each node is the number of tokens it has on the ring. */
  ghost predicate Counted(nodes: seq<NodeConfig>, ring: Ring, counts: seq<nat>) {
    && SortedAndUnique(nodes) && |counts| == |nodes|
    && (forall k :: 0 <= k < |nodes| ==> counts[k] == multiset(ring)[nodes[k].id])
  }

  /** Every token is on a live node. */
  ghost predicate Placed(nodes: seq<NodeConfig>, ring: Ring) {
    forall t :: 0 <= t < |ring| ==> ring[t] in LiveIds(nodes)
  }

  lemma MovedToken(nodes: seq<NodeConfig>, ring: Ring, counts: seq<nat>, t: nat, from: nat, to: nat)
    requires Counted(nodes, ring, counts) && t < |ring| && from < |nodes| && to < |nodes| && from != to
    requires ring[t] == nodes[from].id && counts[from] > 0
    ensures Counted(nodes, ring[t := nodes[to].id], counts[to := counts[to] + 1][from := counts[from] - 1])
  {
  }

  lemma PlacedToken(nodes: seq<NodeConfig>, ring: Ring, counts: seq<nat>, t: nat, to: nat)
    requires Counted(nodes, ring, counts) && t < |ring| && to < |nodes| && ring[t] == 0
    ensures Counted(nodes, ring[t := nodes[to].id], counts[to := counts[to] + 1])
  {
  }

  lemma ReleasedToken(nodes: seq<NodeConfig>, ring: Ring, counts: seq<nat>, t: nat, from: nat)
    requires Counted(nodes, ring, counts) && t < |ring| && from < |nodes| && ring[t] == nodes[from].id
    ensures counts[from] > 0 && Counted(nodes, ring[t := 0], counts[from := counts[from] - 1])
  {
    assert ring[t] in multiset(ring);
  }

  lemma {:induction false} CardinalityOfTokens(ring: Ring, n: nat)
    ensures |TokensOf(ring, n)| == multiset(ring)[n]
  {
    if ring != [] {
      var front, last := ring[..|ring| - 1], ring[|ring| - 1];
      CardinalityOfTokens(front, n);
      assert ring == front + [last];
      assert TokensOf(ring, n) == TokensOf(front, n) + (if last == n then {|front|} else {});
    }
  }

  method CountAvailableNodes(nodes: seq<NodeConfig>) returns (available: nat)
    requires SortedAndUnique(nodes)
    ensures available == |LiveIds(nodes)| <= |nodes|
  {
    available := 0;
    for i := 0 to |nodes|
      invariant available == |LiveIds(nodes[..i])| <= i
    {
      LiveIdsOneMore(nodes, i);
      if nodes[i].capacity == 0 {
        continue;
      }
      available := available + 1;
    }
    assert nodes[..|nodes|] == nodes;
  }

  lemma LiveIdsOneMore(nodes: seq<NodeConfig>, i: nat)
    requires SortedAndUnique(nodes) && i < |nodes|
    ensures LiveIds(nodes[..i + 1]) == LiveIds(nodes[..i]) + (if nodes[i].capacity != 0 then {nodes[i].id} else {})
    ensures nodes[i].id !in LiveIds(nodes[..i])
  {
    var before, after := nodes[..i], nodes[..i + 1];
    forall n | n in LiveIds(before) ensures n in LiveIds(after) {
      var k :| 0 <= k < i && before[k].capacity != 0 && before[k].id == n;
      assert after[k] == before[k];
    }
    if nodes[i].capacity != 0 { assert after[i].id in LiveIds(after); }
  }

  method CountTokens(nodes: seq<NodeConfig>) returns (counts: seq<nat>)
    ensures |counts| == |nodes| && forall k :: 0 <= k < |nodes| ==> counts[k] == |nodes[k].tokens|
  {
    counts := [];
    for i := 0 to |nodes|
      invariant |counts| == i && forall k :: 0 <= k < i ==> counts[k] == |nodes[k].tokens|
    {
      counts := counts + [|nodes[i].tokens|];
    }
  }

  // ----- Releasing the tokens of decommissioned nodes -------------------------------------

  ghost predicate Retired(nodes: seq<NodeConfig>, n: nat) {
    exists k :: 0 <= k < |nodes| && nodes[k].id == n && nodes[k].capacity == 0
  }

  /** `after` is `before` without the tokens of retired nodes. */
  ghost predicate WithoutRetired(nodes: seq<NodeConfig>, before: Ring, after: Ring) {
    |after| == |before| &&
    forall t :: 0 <= t < |before| ==> after[t] == if Retired(nodes, before[t]) then 0 else before[t]
  }

  /** The inner loop over the tokens of one decommissioned node. */
  method ReleaseNode(nodes: seq<NodeConfig>, i: nat, assignments: Ring, tokenCounts: seq<nat>)
    returns (ring: Ring, counts: seq<nat>)
    requires i < |nodes| && Counted(nodes, assignments, tokenCounts)
    requires forall t :: t in nodes[i].tokens <==> 0 <= t < |assignments| && assignments[t] == nodes[i].id
    ensures Counted(nodes, ring, counts) && |ring| == |assignments|
    ensures forall t :: 0 <= t < |ring| ==> ring[t] == if assignments[t] == nodes[i].id then 0 else assignments[t]
  {
    ring, counts := assignments, tokenCounts;
    var todo := nodes[i].tokens;
    while todo != {}
      invariant todo <= nodes[i].tokens && |ring| == |assignments| && Counted(nodes, ring, counts)
      invariant forall t :: 0 <= t < |ring| ==>
        ring[t] == if assignments[t] == nodes[i].id && t !in todo then 0 else assignments[t]
      decreases todo
    {
      var token :| token in todo;
      todo := todo - {token};
      ReleasedToken(nodes, ring, counts, token, i);
      ring := ring[token := 0];
      counts := counts[i := counts[i] - 1];
    }
  }

  method ReleaseDecommissioned(nodes: seq<NodeConfig>, assignments: Ring, tokenCounts: seq<nat>)
    returns (ring: Ring, counts: seq<nat>)
    requires Counted(nodes, assignments, tokenCounts) && Agree(nodes, assignments)
    ensures Counted(nodes, ring, counts) && WithoutRetired(nodes, assignments, ring)
  {
    ring, counts := assignments, tokenCounts;
    for i := 0 to |nodes|
      invariant Counted(nodes, ring, counts) && WithoutRetired(nodes[..i], assignments, ring)
    {
      RetiredOneMore(nodes, i);
      if nodes[i].capacity != 0 {
        continue;
      }
      forall t | 0 <= t < |ring| ensures t in nodes[i].tokens <==> ring[t] == nodes[i].id { }
      ring, counts := ReleaseNode(nodes, i, ring, counts);
    }
    assert nodes[..|nodes|] == nodes;
  }

  lemma RetiredOneMore(nodes: seq<NodeConfig>, i: nat)
    requires SortedAndUnique(nodes) && i < |nodes|
    ensures forall n :: Retired(nodes[..i + 1], n) <==>
        Retired(nodes[..i], n) || (n == nodes[i].id && nodes[i].capacity == 0)
    ensures !Retired(nodes[..i], nodes[i].id)
  {
    forall n ensures Retired(nodes[..i + 1], n) <==>
        Retired(nodes[..i], n) || (n == nodes[i].id && nodes[i].capacity == 0) {
      var before, after := nodes[..i], nodes[..i + 1];
      if Retired(before, n) {
        var k :| 0 <= k < i && before[k].id == n && before[k].capacity == 0;
        assert after[k] == before[k];
      }
      assert after[i] == nodes[i];
    }
  }

  // ----- Placing unassigned tokens --------------------------------------------------------

  predicate HasRoom(nodes: seq<NodeConfig>, counts: seq<nat>, k: nat, tokenCountCeil: nat)
    requires k < |nodes| == |counts|
  {
    nodes[k].capacity != 0 && counts[k] < tokenCountCeil
  }

  /** `j` is one of the `count` indices met when going round from `start`. */
  predicate Met(start: nat, count: nat, n: nat, j: nat) {
    if start + count <= n then start <= j < start + count else j >= start || j < start + count - n
  }

  /** The first node with room, going round from `nextNode`. */
  method FindRoom(nodes: seq<NodeConfig>, counts: seq<nat>, nextNode: nat, tokenCountCeil: nat)
    returns (found: Option<nat>, ghost steps: nat)
    requires |nodes| == |counts| && nextNode < |nodes|
    ensures forall k :: 0 <= k < |nodes| && Met(nextNode, steps, |nodes|, k) ==>
        !HasRoom(nodes, counts, k, tokenCountCeil)
    ensures found.None? ==> steps == |nodes|
    ensures found.Some? ==> steps < |nodes| && found.value == (nextNode + steps) % |nodes|
    ensures found.Some? ==> HasRoom(nodes, counts, found.value, tokenCountCeil)
  {
    var i := 0;
    while i < |nodes|
      invariant i <= |nodes|
      invariant forall k :: 0 <= k < |nodes| && Met(nextNode, i, |nodes|, k) ==>
          !HasRoom(nodes, counts, k, tokenCountCeil)
    {
      WrapAround(nextNode, i, |nodes|);
      var nodeIndex := (nextNode + i) % |nodes|;
      if nodes[nodeIndex].capacity == 0 {
        i := i + 1;
        continue;
      }
      if counts[nodeIndex] < tokenCountCeil {
        return Some(nodeIndex), i;
      }
      i := i + 1;
    }
    return None, |nodes|;
  }

  lemma WrapAround(start: nat, i: nat, n: nat)
    requires start < n && i < n
    ensures (start + i) % n == if start + i < n then start + i else start + i - n
  {
  }

  /** Tokens that have an owner keep it; a node gains tokens only up to the rounded up share. */
  ghost predicate OnlyFilled(nodes: seq<NodeConfig>, before: Ring, was: seq<nat>, ring: Ring, counts: seq<nat>, c: nat)
    requires |was| == |counts|
  {
    && |ring| == |before|
    && (forall t :: 0 <= t < |ring| && before[t] != 0 ==> ring[t] == before[t])
    && (forall k :: 0 <= k < |counts| ==> was[k] <= counts[k] && (was[k] < counts[k] ==> counts[k] <= c))
  }

  method PlaceUnassigned(nodes: seq<NodeConfig>, assignments: Ring, tokenCounts: seq<nat>, tokenCountCeil: nat)
    returns (ring: Ring, counts: seq<nat>)
    requires Counted(nodes, assignments, tokenCounts) && LiveIds(nodes) != {}
    requires tokenCountCeil == Ceil(|assignments|, |LiveIds(nodes)|)
    ensures Counted(nodes, ring, counts) && OnlyFilled(nodes, assignments, tokenCounts, ring, counts, tokenCountCeil)
    ensures forall t :: 0 <= t < |ring| ==> ring[t] == assignments[t] != 0 || ring[t] in LiveIds(nodes)
    ensures (forall t :: 0 <= t < |ring| ==> assignments[t] == 0 || assignments[t] in LiveIds(nodes)) ==>
        Placed(nodes, ring)
    ensures (forall t :: 0 <= t < |assignments| ==> assignments[t] != 0) ==> counts == tokenCounts
  {
    ring, counts := assignments, tokenCounts;
    var nextNode: nat := 0;
    assert |nodes| > 0 by { var n :| n in LiveIds(nodes); }
    for token := 0 to |ring|
      invariant nextNode < |nodes|
      invariant Counted(nodes, ring, counts)
          && OnlyFilled(nodes, assignments, tokenCounts, ring, counts, tokenCountCeil)
      invariant forall t :: token <= t < |ring| ==> ring[t] == assignments[t]
      invariant forall t :: 0 <= t < token ==> ring[t] == assignments[t] != 0 || ring[t] in LiveIds(nodes)
      invariant (forall t :: 0 <= t < |assignments| ==> assignments[t] != 0) ==> counts == tokenCounts
    {
      if ring[token] != 0 {
        continue;
      }
      var found, steps := FindRoom(nodes, counts, nextNode, tokenCountCeil);
      RoomIsFound(nodes, ring, counts, token, tokenCountCeil);
      var nodeIndex := found.value;
      PlacedToken(nodes, ring, counts, token, nodeIndex);
      ring := ring[token := nodes[nodeIndex].id];
      counts := counts[nodeIndex := counts[nodeIndex] + 1];
      nextNode := (nodeIndex + 1) % |nodes|;
    }
  }

  lemma RoomIsFound(nodes: seq<NodeConfig>, ring: Ring, counts: seq<nat>, token: nat, tokenCountCeil: nat)
    requires Counted(nodes, ring, counts) && token < |ring| && ring[token] == 0 && LiveIds(nodes) != {}
    requires tokenCountCeil == Ceil(|ring|, |LiveIds(nodes)|)
    ensures exists k :: 0 <= k < |nodes| && HasRoom(nodes, counts, k, tokenCountCeil)
  {
    UnassignedMeansRoom(LiveIds(nodes), ring, token);
    var n :| n in LiveIds(nodes) && multiset(ring)[n] < tokenCountCeil;
    var k :| 0 <= k < |nodes| && nodes[k].capacity != 0 && nodes[k].id == n;
    assert HasRoom(nodes, counts, k, tokenCountCeil);
  }

  /** A token keeps its owner or goes to a live node. */
  ghost predicate OnlyToLive(nodes: seq<NodeConfig>, before: Ring, after: Ring) {
    |after| == |before| && forall t :: 0 <= t < |before| ==> after[t] == before[t] || after[t] in LiveIds(nodes)
  }

  // ----- Filling a node up to its share ---------------------------------------------------

  ghost predicate Exact(nodes: seq<NodeConfig>, ring: Ring, counts: seq<nat>) {
    Counted(nodes, ring, counts) && Placed(nodes, ring)
  }

  /** Tokens moved to node `i` from nodes above the share, which stay at or above it. */
  ghost predicate MovedTo(i: nat, floor: nat, was: seq<nat>, counts: seq<nat>) {
    && i < |counts| == |was| && was[i] <= counts[i]
    && (forall k :: 0 <= k < |counts| && k != i ==> counts[k] <= was[k])
    && (forall k :: 0 <= k < |counts| && counts[k] < was[k] ==> counts[k] >= floor)
  }

  /** Nobody is above `cap`. */
  ghost predicate Within(cap: nat, counts: seq<nat>) {
    forall k :: 0 <= k < |counts| ==> counts[k] <= cap
  }

  /** The position of the owner, and 0 when it is not among the nodes. */
  method OwnerIndex(nodes: seq<NodeConfig>, owner: nat) returns (ownerIndex: nat)
    requires |nodes| > 0
    ensures ownerIndex < |nodes|
    ensures if Known(nodes, owner) then nodes[ownerIndex].id == owner else ownerIndex == 0
  {
    for j := 0 to |nodes|
      invariant forall k :: 0 <= k < j ==> nodes[k].id != owner
    {
      if nodes[j].id == owner {
        return j;
      }
    }
    return 0;
  }

  /** Owners of the tokens up to `token` have nothing to spare. */
  ghost predicate NothingToTake(ring: Ring, floor: nat, token: nat) {
    forall t :: 0 <= t < token && t < |ring| ==> multiset(ring)[ring[t]] <= floor
  }

  lemma LiveOwner(nodes: seq<NodeConfig>, ring: Ring, counts: seq<nat>, t: nat, k: nat)
    requires Exact(nodes, ring, counts) && t < |ring| && k < |nodes|
    requires Known(nodes, ring[t]) ==> nodes[k].id == ring[t]
    ensures nodes[k].id == ring[t] && counts[k] == multiset(ring)[ring[t]]
  {
    assert ring[t] in LiveIds(nodes);
  }

  lemma MoveKeepsExact(nodes: seq<NodeConfig>, ring: Ring, counts: seq<nat>, t: nat, from: nat, to: nat)
    requires Exact(nodes, ring, counts) && t < |ring| && from < |nodes| && to < |nodes| && from != to
    requires ring[t] == nodes[from].id && counts[from] > 0 && nodes[to].capacity != 0
    ensures Exact(nodes, ring[t := nodes[to].id], counts[to := counts[to] + 1][from := counts[from] - 1])
  {
    MovedToken(nodes, ring, counts, t, from, to);
  }

  /** A live node below its share can take a token from somewhere. */
  lemma SomethingToTake(nodes: seq<NodeConfig>, ring: Ring, counts: seq<nat>, floor: nat, i: nat)
    requires Exact(nodes, ring, counts) && i < |nodes| && nodes[i].capacity != 0 && counts[i] < floor
    requires floor * |LiveIds(nodes)| <= |ring|
    ensures exists k :: 0 <= k < |counts| && counts[k] > floor
    ensures !NothingToTake(ring, floor, |ring|)
  {
    NeedMeansSurplus(LiveIds(nodes), ring, floor, nodes[i].id);
    var n :| n in LiveIds(nodes) && multiset(ring)[n] > floor;
    var k :| 0 <= k < |nodes| && nodes[k].capacity != 0 && nodes[k].id == n;
    assert counts[k] > floor;
    assert n in multiset(ring);
    var t :| 0 <= t < |ring| && ring[t] == n;
  }

  lemma MovedToIsTransitive(i: nat, floor: nat, a: seq<nat>, b: seq<nat>, c: seq<nat>)
    requires MovedTo(i, floor, a, b) && MovedTo(i, floor, b, c)
    ensures MovedTo(i, floor, a, c)
  {
  }

  /** Takes the token for node `i` when its owner is above the share. */
  method TakeToken(nodes: seq<NodeConfig>, i: nat, assignments: Ring, tokenCounts: seq<nat>, tokenCountFloor: nat,
                   token: nat)
    returns (ring: Ring, counts: seq<nat>, taken: bool)
    requires |tokenCounts| == |nodes| && i < |nodes| && nodes[i].capacity != 0 && token < |assignments|
    requires tokenCounts[i] < tokenCountFloor
    ensures OnlyToLive(nodes, assignments, ring) && |counts| == |nodes|
    ensures counts[i] == tokenCounts[i] + (if taken then 1 else 0)
    ensures !taken ==> ring == assignments && counts == tokenCounts
    ensures Within(tokenCountFloor, tokenCounts) ==> !taken
    ensures Exact(nodes, assignments, tokenCounts) ==>
              Exact(nodes, ring, counts) && MovedTo(i, tokenCountFloor, tokenCounts, counts)
    ensures Exact(nodes, assignments, tokenCounts) ==>
              (taken <==> multiset(assignments)[assignments[token]] > tokenCountFloor)
  {
    ring, counts, taken := assignments, tokenCounts, false;
    ghost var exact := Exact(nodes, assignments, tokenCounts);
    var ownerIndex := OwnerIndex(nodes, assignments[token]);
    if exact { LiveOwner(nodes, ring, counts, token, ownerIndex); }
    if counts[ownerIndex] > tokenCountFloor {
      if exact { MoveKeepsExact(nodes, ring, counts, token, ownerIndex, i); }
      ring := ring[token := nodes[i].id];
      counts := counts[i := counts[i] + 1];
      counts := counts[ownerIndex := counts[ownerIndex] - 1];
      taken := true;
    }
  }

  /** The gap left after a taken token, so that a share of them goes round the ring at most once. */
  method SkipAmount(tokens: nat, tokenCountFloor: nat) returns (skipAmount: nat)
    requires tokenCountFloor > 0
    ensures skipAmount <= tokens / tokenCountFloor <= skipAmount + 1
  {
    skipAmount := tokens / tokenCountFloor;
    if skipAmount > 1 {
      skipAmount := skipAmount - 1;
    }
  }

  /** First pass: takes tokens from nodes above the share, leaving gaps between them. */
  method TakeSpaced(nodes: seq<NodeConfig>, i: nat, assignments: Ring, tokenCounts: seq<nat>, tokenCountFloor: nat)
    returns (ring: Ring, counts: seq<nat>)
    requires |tokenCounts| == |nodes| && i < |nodes| && nodes[i].capacity != 0
    requires 0 < tokenCountFloor
    ensures OnlyToLive(nodes, assignments, ring) && |counts| == |nodes|
    ensures tokenCounts[i] >= tokenCountFloor || Within(tokenCountFloor, tokenCounts) ==>
              ring == assignments && counts == tokenCounts
    ensures Exact(nodes, assignments, tokenCounts) ==>
              Exact(nodes, ring, counts) && MovedTo(i, tokenCountFloor, tokenCounts, counts)
    ensures Exact(nodes, assignments, tokenCounts) && tokenCounts[i] < tokenCountFloor ==>
              || tokenCounts[i] < counts[i] <= tokenCountFloor
              || (ring == assignments && counts == tokenCounts && NothingToTake(ring, tokenCountFloor, |ring|))
  {
    ring, counts := assignments, tokenCounts;
    ghost var exact := Exact(nodes, assignments, tokenCounts);
    var skipAmount := SkipAmount(|assignments|, tokenCountFloor);
    var token: nat := 0;
    while token < |ring| && counts[i] < tokenCountFloor
      invariant OnlyToLive(nodes, assignments, ring) && |counts| == |nodes|
      invariant exact ==> Exact(nodes, ring, counts) && MovedTo(i, tokenCountFloor, tokenCounts, counts)
      invariant tokenCounts[i] >= tokenCountFloor ==> ring == assignments && counts == tokenCounts
      invariant Within(tokenCountFloor, tokenCounts) ==> ring == assignments && counts == tokenCounts
      invariant tokenCounts[i] < tokenCountFloor ==> tokenCounts[i] <= counts[i] <= tokenCountFloor
      invariant tokenCounts[i] == counts[i] ==> ring == assignments && counts == tokenCounts
      invariant tokenCounts[i] == counts[i] && exact ==> NothingToTake(ring, tokenCountFloor, token)
      decreases |ring| - token
    {
      ghost var was := counts;
      var taken;
      ring, counts, taken := TakeToken(nodes, i, ring, counts, tokenCountFloor, token);
      if exact { MovedToIsTransitive(i, tokenCountFloor, tokenCounts, was, counts); }
      if taken {
        token := token + skipAmount;
      }
      token := token + 1;
    }
  }

  lemma HasToken(nodes: seq<NodeConfig>, ring: Ring, counts: seq<nat>, k: nat)
    requires Counted(nodes, ring, counts) && k < |nodes|
    ensures counts[k] > 0 ==> exists t :: 0 <= t < |ring| && ring[t] == nodes[k].id
  {
    assert counts[k] > 0 ==> nodes[k].id in multiset(ring);
  }

  /** Tokens went from node `j` to node `i` and nowhere else. */
  ghost predicate Shifted(i: nat, j: nat, was: seq<nat>, counts: seq<nat>) {
    && |was| == |counts| && i < |was| && j < |was| && counts[j] <= was[j] && counts[i] + counts[j] == was[i] + was[j]
    && (forall k :: 0 <= k < |was| && k != i && k != j ==> counts[k] == was[k])
  }

  lemma StolenToken(nodes: seq<NodeConfig>, i: nat, j: nat, assignments: Ring, was: seq<nat>, ring: Ring,
                    counts: seq<nat>, t: nat)
    requires i < |nodes| && j < |nodes| && i != j && nodes[i].capacity != 0 && |counts| == |nodes|
    requires OnlyToLive(nodes, assignments, ring) && Shifted(i, j, was, counts)
    requires t < |ring| && ring[t] == nodes[j].id && counts[j] > 0
    ensures var after, now := ring[t := nodes[i].id], counts[i := counts[i] + 1][j := counts[j] - 1];
            && OnlyToLive(nodes, assignments, after) && Shifted(i, j, was, now)
            && (Exact(nodes, ring, counts) ==> Exact(nodes, after, now))
  {
    if Exact(nodes, ring, counts) { MoveKeepsExact(nodes, ring, counts, t, j, i); }
    assert nodes[i].id in LiveIds(nodes);
  }

  /** The sweep of the second pass: takes everything that node `j` has above the share. */
  method StealFrom(nodes: seq<NodeConfig>, i: nat, j: nat, assignments: Ring, tokenCounts: seq<nat>,
                   tokenCountFloor: nat)
    returns (ring: Ring, counts: seq<nat>)
    requires |tokenCounts| == |nodes| && i < |nodes| && j < |nodes| && i != j && nodes[i].capacity != 0
    requires tokenCounts[j] > tokenCountFloor
    ensures OnlyToLive(nodes, assignments, ring) && |counts| == |nodes|
    ensures Exact(nodes, assignments, tokenCounts) ==>
              Exact(nodes, ring, counts) && Shifted(i, j, tokenCounts, counts) && counts[j] == tokenCountFloor
  {
    ring, counts := assignments, tokenCounts;
    ghost var exact := Exact(nodes, assignments, tokenCounts);
    assert exact ==> nodes[i].id != nodes[j].id;
    for token := 0 to |assignments|
      invariant OnlyToLive(nodes, assignments, ring) && |counts| == |nodes|
      invariant tokenCountFloor < counts[j] <= tokenCounts[j]
      invariant exact ==> Exact(nodes, ring, counts)
      invariant Shifted(i, j, tokenCounts, counts)
      invariant exact ==> forall t :: 0 <= t < token ==> ring[t] != nodes[j].id
    {
      if ring[token] == nodes[j].id {
        StolenToken(nodes, i, j, assignments, tokenCounts, ring, counts, token);
        ring := ring[token := nodes[i].id];
        counts := counts[i := counts[i] + 1];
        counts := counts[j := counts[j] - 1];
        if counts[j] == tokenCountFloor {
          return;
        }
      }
    }
    if exact { HasToken(nodes, ring, counts, j); }
  }

  lemma SurplusTaken(i: nat, j: nat, floor: nat, was: seq<nat>, counts: seq<nat>)
    requires i < |was| && j < |was| && i != j && was[i] < floor < was[j]
    requires Shifted(i, j, was, counts) && counts[j] == floor
    ensures MovedTo(i, floor, was, counts)
    ensures Within(floor + 1, was) ==> Within(floor + 1, counts)
  {
  }

  /** Second pass: sweeps the nodes above the share until node `i` has its share. */
  method TakeRest(nodes: seq<NodeConfig>, i: nat, assignments: Ring, tokenCounts: seq<nat>, tokenCountFloor: nat)
    returns (ring: Ring, counts: seq<nat>)
    requires |tokenCounts| == |nodes| && i < |nodes| && nodes[i].capacity != 0
    ensures OnlyToLive(nodes, assignments, ring) && |counts| == |nodes|
    ensures tokenCounts[i] >= tokenCountFloor || Within(tokenCountFloor, tokenCounts) ==>
              ring == assignments && counts == tokenCounts
    ensures Exact(nodes, assignments, tokenCounts) ==>
              && Exact(nodes, ring, counts) && MovedTo(i, tokenCountFloor, tokenCounts, counts)
              && (counts[i] >= tokenCountFloor || Within(tokenCountFloor, counts))
    ensures Exact(nodes, assignments, tokenCounts) && Within(tokenCountFloor + 1, tokenCounts) ==>
              Within(tokenCountFloor + 1, counts)
  {
    ring, counts := assignments, tokenCounts;
    ghost var exact := Exact(nodes, assignments, tokenCounts);
    var j := 0;
    while counts[i] < tokenCountFloor && j < |counts|
      invariant 0 <= j <= |counts| && OnlyToLive(nodes, assignments, ring) && |counts| == |nodes|
      invariant tokenCounts[i] >= tokenCountFloor || Within(tokenCountFloor, tokenCounts) ==>
        ring == assignments && counts == tokenCounts
      invariant exact ==> Exact(nodes, ring, counts) && MovedTo(i, tokenCountFloor, tokenCounts, counts)
      invariant exact && Within(tokenCountFloor + 1, tokenCounts) ==> Within(tokenCountFloor + 1, counts)
      invariant exact ==> forall k :: 0 <= k < j && k != i ==> counts[k] <= tokenCountFloor
      decreases |counts| - j
    {
      if j == i || counts[j] <= tokenCountFloor {
        j := j + 1;
        continue;
      }
      ghost var was := counts;
      ring, counts := StealFrom(nodes, i, j, ring, counts, tokenCountFloor);
      if exact {
        SurplusTaken(i, j, tokenCountFloor, was, counts);
        MovedToIsTransitive(i, tokenCountFloor, tokenCounts, was, counts);
      }
      j := j + 1;
    }
  }

  // ----- The whole assignment -------------------------------------------------------------

  /** What filling one node does to an exact state: nobody falls below the share, node `i` reaches it. */
  ghost predicate Filled(nodes: seq<NodeConfig>, i: nat, floor: nat, was: seq<nat>, ring: Ring, counts: seq<nat>) {
    && Exact(nodes, ring, counts) && MovedTo(i, floor, was, counts) && counts[i] >= floor
    && (Within(floor + 1, was) ==> Within(floor + 1, counts))
    && (floor == 1 && was[i] <= 1 ==> counts[i] == 1)
  }

  /** Both passes for one node. */
  method FillNode(nodes: seq<NodeConfig>, i: nat, assignments: Ring, tokenCounts: seq<nat>, tokenCountFloor: nat)
    returns (ring: Ring, counts: seq<nat>)
    requires |tokenCounts| == |nodes| && i < |nodes| && nodes[i].capacity != 0
    requires 0 < tokenCountFloor && tokenCountFloor * |LiveIds(nodes)| <= |assignments|
    ensures OnlyToLive(nodes, assignments, ring) && |counts| == |nodes|
    ensures tokenCounts[i] >= tokenCountFloor || Within(tokenCountFloor, tokenCounts) ==>
              ring == assignments && counts == tokenCounts
    ensures Exact(nodes, assignments, tokenCounts) ==> Filled(nodes, i, tokenCountFloor, tokenCounts, ring, counts)
  {
    ring, counts := TakeSpaced(nodes, i, assignments, tokenCounts, tokenCountFloor);
    ghost var was := counts;
    if Exact(nodes, assignments, tokenCounts) && tokenCounts[i] < tokenCountFloor {
      SomethingToTake(nodes, assignments, tokenCounts, tokenCountFloor, i);
    }
    ring, counts := TakeRest(nodes, i, ring, counts, tokenCountFloor);
    if Exact(nodes, assignments, tokenCounts) && counts[i] < tokenCountFloor {
      SomethingToTake(nodes, ring, counts, tokenCountFloor, i);
    }
    if Exact(nodes, assignments, tokenCounts) {
      MovedToIsTransitive(i, tokenCountFloor, tokenCounts, was, counts);
    }
  }

  /** Filling the nodes one after the other; those already treated keep their share. */
  ghost predicate FilledUpTo(nodes: seq<NodeConfig>, i: nat, floor: nat, was: seq<nat>, ring: Ring, counts: seq<nat>) {
    && Exact(nodes, ring, counts) && |was| == |counts|
    && (forall k :: 0 <= k < |nodes| && nodes[k].capacity != 0 && (k < i || was[k] >= floor) ==> counts[k] >= floor)
    && (Within(floor + 1, was) ==> Within(floor + 1, counts))
    && (floor == 1 ==> forall k :: 0 <= k < |nodes| && was[k] <= 1 ==> counts[k] <= 1)
  }

  lemma FilledOneMore(nodes: seq<NodeConfig>, i: nat, floor: nat, was: seq<nat>, ring: Ring, counts: seq<nat>,
                      after: Ring, now: seq<nat>)
    requires i < |nodes| && FilledUpTo(nodes, i, floor, was, ring, counts)
    requires if nodes[i].capacity == 0 then after == ring && now == counts
             else Filled(nodes, i, floor, counts, after, now)
    ensures FilledUpTo(nodes, i + 1, floor, was, after, now)
  {
  }

  method FillNodes(nodes: seq<NodeConfig>, assignments: Ring, tokenCounts: seq<nat>, tokenCountFloor: nat)
    returns (ring: Ring, counts: seq<nat>)
    requires |tokenCounts| == |nodes|
    requires 0 < tokenCountFloor && tokenCountFloor * |LiveIds(nodes)| <= |assignments|
    ensures OnlyToLive(nodes, assignments, ring)
    ensures (forall k :: 0 <= k < |nodes| && nodes[k].capacity != 0 ==> tokenCounts[k] >= tokenCountFloor) ==>
              ring == assignments
    ensures Within(tokenCountFloor, tokenCounts) ==> ring == assignments
    ensures Exact(nodes, assignments, tokenCounts) ==>
              FilledUpTo(nodes, |nodes|, tokenCountFloor, tokenCounts, ring, counts)
  {
    ring, counts := assignments, tokenCounts;
    ghost var exact := Exact(nodes, assignments, tokenCounts);
    ghost var full := forall k :: 0 <= k < |nodes| && nodes[k].capacity != 0 ==> tokenCounts[k] >= tokenCountFloor;
    for i := 0 to |nodes|
      invariant OnlyToLive(nodes, assignments, ring) && |counts| == |nodes|
      invariant full || Within(tokenCountFloor, tokenCounts) ==> ring == assignments && counts == tokenCounts
      invariant exact ==> FilledUpTo(nodes, i, tokenCountFloor, tokenCounts, ring, counts)
    {
      ghost var before, was := ring, counts;
      if nodes[i].capacity == 0 {
        if exact { FilledOneMore(nodes, i, tokenCountFloor, tokenCounts, before, was, ring, counts); }
        continue;
      }
      ring, counts := FillNode(nodes, i, ring, counts, tokenCountFloor);
      if exact { FilledOneMore(nodes, i, tokenCountFloor, tokenCounts, before, was, ring, counts); }
    }
  }

  /** No live node has more than the rounded up share. */
  ghost predicate WithinCeiling(live: set<nat>, ring: Ring) {
    live != {} && forall n :: n in live ==> multiset(ring)[n] <= Ceil(|ring|, |live|)
  }

  /** Every token is unassigned or on a known node. */
  ghost predicate WellOwned(nodes: seq<NodeConfig>, ring: Ring) {
    forall t :: 0 <= t < |ring| ==> ring[t] == 0 || Known(nodes, ring[t])
  }

  lemma RetiredOrLive(nodes: seq<NodeConfig>, n: nat)
    requires SortedAndUnique(nodes) && Known(nodes, n)
    ensures Retired(nodes, n) <==> n !in LiveIds(nodes)
  {
  }

  /** Releasing leaves the tokens of live nodes alone and everything else unassigned. */
  lemma AfterRelease(nodes: seq<NodeConfig>, current: Ring, ring: Ring)
    requires SortedAndUnique(nodes) && WithoutRetired(nodes, current, ring)
    ensures forall n :: n in LiveIds(nodes) ==> multiset(ring)[n] == multiset(current)[n]
    ensures forall n :: Retired(nodes, n) ==> multiset(ring)[n] == 0
    ensures WellOwned(nodes, current) ==> forall t :: 0 <= t < |ring| ==> ring[t] == 0 || ring[t] in LiveIds(nodes)
    ensures Placed(nodes, current) ==> ring == current
  {
    forall n | n in LiveIds(nodes) ensures multiset(ring)[n] == multiset(current)[n] {
      RetiredOrLive(nodes, n);
      assert TokensOf(ring, n) == TokensOf(current, n);
      CardinalityOfTokens(ring, n);
      CardinalityOfTokens(current, n);
    }
    forall n | Retired(nodes, n) ensures multiset(ring)[n] == 0 {
      assert n > 0;
      assert TokensOf(ring, n) == {};
      CardinalityOfTokens(ring, n);
    }
    forall t | 0 <= t < |ring| && Known(nodes, current[t]) ensures ring[t] == 0 || ring[t] in LiveIds(nodes) {
      RetiredOrLive(nodes, current[t]);
    }
    forall t | 0 <= t < |ring| && current[t] in LiveIds(nodes) ensures ring[t] == current[t] {
      RetiredOrLive(nodes, current[t]);
    }
  }

  lemma SharesAreSpread(nodes: seq<NodeConfig>, ring: Ring, counts: seq<nat>)
    requires Exact(nodes, ring, counts) && LiveIds(nodes) != {}
    requires forall k :: 0 <= k < |nodes| && nodes[k].capacity != 0 ==> counts[k] >= |ring| / |LiveIds(nodes)|
    ensures Spread(LiveIds(nodes), ring)
    ensures Within(|ring| / |LiveIds(nodes)| + 1, counts) ==> WithinCeiling(LiveIds(nodes), ring)
  {
    var live := LiveIds(nodes);
    forall n | n in live ensures multiset(ring)[n] >= |ring| / |live| {
      var k :| 0 <= k < |nodes| && nodes[k].capacity != 0 && nodes[k].id == n;
    }
    forall n | n in live ensures multiset(ring)[n] <= |ring| / |live| + |ring| % |live| {
      SharesLeaveRemainder(live, ring, n);
    }
  }

  /** A node that had at most one token ends with exactly one. */
  ghost predicate LeavesOnes(live: set<nat>, current: Ring, ring: Ring) {
    forall n :: n in live && multiset(current)[n] <= 1 ==> multiset(ring)[n] == 1
  }

  /** Nobody starts above the rounded up share, so nobody is above it after placing. */
  lemma PlacedWithin(nodes: seq<NodeConfig>, current: Ring, released: Ring, was: seq<nat>, placed: Ring,
                     counts: seq<nat>, c: nat)
    requires Counted(nodes, released, was) && Counted(nodes, placed, counts) && WithoutRetired(nodes, current, released)
    requires OnlyFilled(nodes, released, was, placed, counts, c)
    requires forall n :: n in LiveIds(nodes) ==> multiset(current)[n] <= c
    ensures Within(c, counts)
  {
    AfterRelease(nodes, current, released);
    forall k | 0 <= k < |nodes| ensures was[k] <= c {
      if nodes[k].capacity != 0 { assert nodes[k].id in LiveIds(nodes); } else { assert Retired(nodes, nodes[k].id); }
    }
  }

  /** A ring whose tokens are all on live nodes is neither released nor placed. */
  lemma PlacedIsUntouched(nodes: seq<NodeConfig>, current: Ring, released: Ring, was: seq<nat>, placed: Ring,
                          counts: seq<nat>, c: nat)
    requires Counted(nodes, released, was) && Counted(nodes, placed, counts) && WithoutRetired(nodes, current, released)
    requires OnlyFilled(nodes, released, was, placed, counts, c) && Placed(nodes, current)
    ensures released == current && placed == current
  {
    AfterRelease(nodes, current, released);
    forall t | 0 <= t < |current| ensures current[t] != 0 { assert current[t] in LiveIds(nodes); }
  }

  lemma EveryTokenAssigned(nodes: seq<NodeConfig>, current: Ring, released: Ring, placed: Ring, ring: Ring)
    requires SortedAndUnique(nodes) && WithoutRetired(nodes, current, released) && |placed| == |released|
    requires forall t :: 0 <= t < |placed| ==> placed[t] == released[t] != 0 || placed[t] in LiveIds(nodes)
    requires OnlyToLive(nodes, placed, ring)
    ensures OnlyToLive(nodes, current, ring) && forall t :: 0 <= t < |ring| ==> ring[t] != 0
  {
  }

  lemma FilledLeavesOnes(nodes: seq<NodeConfig>, was: seq<nat>, placed: Ring, ring: Ring, counts: seq<nat>)
    requires Counted(nodes, placed, was) && FilledUpTo(nodes, |nodes|, 1, was, ring, counts)
    ensures LeavesOnes(LiveIds(nodes), placed, ring)
  {
    forall n | n in LiveIds(nodes) && multiset(placed)[n] <= 1 ensures multiset(ring)[n] == 1 {
      var k :| 0 <= k < |nodes| && nodes[k].capacity != 0 && nodes[k].id == n;
    }
  }

  /** The assignment when some node has capacity. */
  method AssignLive(nodes: seq<NodeConfig>, current: Ring) returns (ring: Ring)
    requires SortedAndUnique(nodes) && Agree(nodes, current) && LiveIds(nodes) != {} && |nodes| <= |current|
    ensures OnlyToLive(nodes, current, ring) && forall t :: 0 <= t < |ring| ==> ring[t] != 0
    ensures forall t :: 0 <= t < |ring| ==> !Retired(nodes, ring[t])
    ensures (forall t :: 0 <= t < |current| ==> current[t] != 0 && !Known(nodes, current[t])) ==> ring == current
    ensures WellOwned(nodes, current) ==> Spread(LiveIds(nodes), ring)
    ensures WellOwned(nodes, current) && WithinCeiling(LiveIds(nodes), current) ==> WithinCeiling(LiveIds(nodes), ring)
    ensures Spread(LiveIds(nodes), current) ==> ring == current
    ensures |current| / |LiveIds(nodes)| == 1 && Placed(nodes, current) ==> LeavesOnes(LiveIds(nodes), current, ring)
  {
    ghost var live := LiveIds(nodes);
    var tokenCounts := CountTokens(nodes);
    var availableNodes := CountAvailableNodes(nodes);
    var tokenCountFloor := |current| / availableNodes;
    var tokenCountCeil := tokenCountFloor;
    if |current| % availableNodes != 0 {
      tokenCountCeil := tokenCountCeil + 1;
    }
    Division(|current|, availableNodes);
    AtLeastOneEach(|current|, availableNodes);
    TokensAreCounted(nodes, current, tokenCounts);
    var released, counts := ReleaseDecommissioned(nodes, current, tokenCounts);
    ghost var was := counts;
    var placed;
    placed, counts := PlaceUnassigned(nodes, released, counts, tokenCountCeil);
    ghost var placedCounts := counts;
    ring, counts := FillNodes(nodes, placed, counts, tokenCountFloor);
    EveryTokenAssigned(nodes, current, released, placed, ring);
    NobodyRetired(nodes, current, released, placed, ring);
    OutsidersStay(nodes, current, released, was, placed, placedCounts, tokenCountFloor);
    AssignedMeaning(nodes, current, released, was, placed, placedCounts, ring, counts);
  }

  lemma NobodyRetired(nodes: seq<NodeConfig>, current: Ring, released: Ring, placed: Ring, ring: Ring)
    requires SortedAndUnique(nodes) && WithoutRetired(nodes, current, released) && |placed| == |released|
    requires forall t :: 0 <= t < |placed| ==> placed[t] == released[t] != 0 || placed[t] in LiveIds(nodes)
    requires OnlyToLive(nodes, placed, ring)
    ensures forall t :: 0 <= t < |ring| ==> !Retired(nodes, ring[t])
  {
    forall n | n in LiveIds(nodes) ensures !Retired(nodes, n) { RetiredOrLive(nodes, n); }
  }

  /** Tokens of nodes that are not among these give nobody anything to take from. */
  lemma OutsidersStay(nodes: seq<NodeConfig>, current: Ring, released: Ring, was: seq<nat>, placed: Ring,
                      placedCounts: seq<nat>, floor: nat)
    requires WithoutRetired(nodes, current, released) && Counted(nodes, released, was)
    requires |placed| == |released| && |placedCounts| == |nodes|
    requires forall t :: 0 <= t < |placed| && released[t] != 0 ==> placed[t] == released[t]
    requires (forall t :: 0 <= t < |released| ==> released[t] != 0) ==> placedCounts == was
    ensures (forall t :: 0 <= t < |current| ==> current[t] != 0 && !Known(nodes, current[t])) ==>
              placed == current && Within(floor, placedCounts)
  {
    if forall t :: 0 <= t < |current| ==> current[t] != 0 && !Known(nodes, current[t]) {
      forall t | 0 <= t < |current| ensures released[t] == current[t] { assert !Known(nodes, current[t]); }
      forall k | 0 <= k < |nodes| ensures was[k] == 0 {
        assert Known(nodes, nodes[k].id) && nodes[k].id !in released;
      }
    }
  }

  /** What the three stages of the assignment amount to. */
  lemma AssignedMeaning(nodes: seq<NodeConfig>, current: Ring, released: Ring, was: seq<nat>, placed: Ring,
                        placedCounts: seq<nat>, ring: Ring, counts: seq<nat>)
    requires LiveIds(nodes) != {} && |ring| == |current| && WithoutRetired(nodes, current, released)
    requires |placed| == |released| && |placedCounts| == |nodes|
    requires Counted(nodes, released, was) && Counted(nodes, placed, placedCounts)
    requires OnlyFilled(nodes, released, was, placed, placedCounts, Ceil(|current|, |LiveIds(nodes)|))
    requires (forall t :: 0 <= t < |placed| ==> released[t] == 0 || released[t] in LiveIds(nodes)) ==>
        Placed(nodes, placed)
    requires var floor := |current| / |LiveIds(nodes)|;
             && (Exact(nodes, placed, placedCounts) ==> FilledUpTo(nodes, |nodes|, floor, placedCounts, ring, counts))
             && ((forall k :: 0 <= k < |nodes| && nodes[k].capacity != 0 ==> placedCounts[k] >= floor) ==>
                 ring == placed)
    ensures WellOwned(nodes, current) ==> Spread(LiveIds(nodes), ring)
    ensures WellOwned(nodes, current) && WithinCeiling(LiveIds(nodes), current) ==> WithinCeiling(LiveIds(nodes), ring)
    ensures Spread(LiveIds(nodes), current) ==> ring == current
    ensures |current| / |LiveIds(nodes)| == 1 && Placed(nodes, current) ==> LeavesOnes(LiveIds(nodes), current, ring)
  {
    var c := Ceil(|current|, |LiveIds(nodes)|);
    if WellOwned(nodes, current) {
      AfterRelease(nodes, current, released);
      SharesAreSpread(nodes, ring, counts);
      if WithinCeiling(LiveIds(nodes), current) {
        PlacedWithin(nodes, current, released, was, placed, placedCounts, c);
      }
    }
    if Placed(nodes, current) {
      PlacedIsUntouched(nodes, current, released, was, placed, placedCounts, c);
      PlacedIsWellOwned(nodes, current);
      if |current| / |LiveIds(nodes)| == 1 { FilledLeavesOnes(nodes, placedCounts, placed, ring, counts); }
      if Spread(LiveIds(nodes), current) { LiveShares(nodes, placed, placedCounts); }
    }
  }

  lemma TokensAreCounted(nodes: seq<NodeConfig>, current: Ring, tokenCounts: seq<nat>)
    requires SortedAndUnique(nodes) && Agree(nodes, current) && |tokenCounts| == |nodes|
    requires forall k :: 0 <= k < |nodes| ==> tokenCounts[k] == |nodes[k].tokens|
    ensures Counted(nodes, current, tokenCounts)
  {
    forall k | 0 <= k < |nodes| ensures tokenCounts[k] == multiset(current)[nodes[k].id] {
      CardinalityOfTokens(current, nodes[k].id);
    }
  }

  lemma PlacedIsWellOwned(nodes: seq<NodeConfig>, ring: Ring)
    requires Placed(nodes, ring)
    ensures WellOwned(nodes, ring)
  {
    forall t | 0 <= t < |ring| ensures Known(nodes, ring[t]) { assert ring[t] in LiveIds(nodes); }
  }

  lemma LiveShares(nodes: seq<NodeConfig>, ring: Ring, counts: seq<nat>)
    requires Counted(nodes, ring, counts) && Spread(LiveIds(nodes), ring)
    ensures forall k :: 0 <= k < |nodes| && nodes[k].capacity != 0 ==> counts[k] >= |ring| / |LiveIds(nodes)|
  {
    forall k | 0 <= k < |nodes| && nodes[k].capacity != 0 ensures counts[k] >= |ring| / |LiveIds(nodes)| {
      assert nodes[k].id in LiveIds(nodes);
    }
  }

  lemma AtLeastOneEach(p: nat, n: nat)
    requires 0 < n <= p
    ensures p / n >= 1
  {
  }

  /** What is promised when some node has capacity and there are no more nodes than tokens. */
  ghost predicate Assigned(nodes: seq<NodeConfig>, current: Ring, ring: Ring)
    requires LiveIds(nodes) != {}
  {
    var live := LiveIds(nodes);
    && |ring| == |current| && Spread(live, ring)
    && (WithinCeiling(live, current) || |ring| % |live| <= 1 ==> WithinCeiling(live, ring))
    && (Spread(live, current) ==> ring == current)
    && (|ring| / |live| == 1 && Placed(nodes, current) ==> LeavesOnes(live, current, ring))
  }

  /**
    Told by the tokens of each node: every one with capacity has at least the rounded down share
    and at most the remainder more; nobody has more than the rounded up share unless the remainder
    is above one and somebody had more before; and a ring that is spread like this is left alone.
   */
  ghost predicate SharedEvenly(nodes: seq<NodeConfig>, current: Ring, ring: Ring) {
    var live := set k | 0 <= k < |nodes| && nodes[k].capacity != 0 :: nodes[k].id;
    && live != {} && |ring| == |current|
    && var low, left := |ring| / |live|, |ring| % |live|;
       var top := if left == 0 then low else low + 1;
       && (forall t :: 0 <= t < |ring| ==> ring[t] in live)
       && (forall n :: n in live ==> low <= |TokensOf(ring, n)| <= low + left)
       && (left <= 1 || (forall n :: n in live ==> |TokensOf(current, n)| <= top) ==>
             forall n :: n in live ==> |TokensOf(ring, n)| <= top)
       && (IsEven(live, current) ==> ring == current)
  }

  /** Every token is on one of the nodes, and each of them has at least the rounded down share. */
  ghost predicate IsEven(live: set<nat>, ring: Ring)
    requires live != {}
  {
    && (forall t :: 0 <= t < |ring| ==> ring[t] in live)
    && (forall n :: n in live ==> |TokensOf(ring, n)| >= |ring| / |live|)
  }

  lemma AssignedIsEven(nodes: seq<NodeConfig>, current: Ring, ring: Ring)
    requires LiveIds(nodes) != {} && Assigned(nodes, current, ring)
    ensures SharedEvenly(nodes, current, ring)
  {
    var live := LiveIds(nodes);
    forall n | n in live
      ensures |TokensOf(ring, n)| == multiset(ring)[n] && |TokensOf(current, n)| == multiset(current)[n]
    {
      CardinalityOfTokens(ring, n);
      CardinalityOfTokens(current, n);
    }
    if forall n :: n in live ==> |TokensOf(current, n)| >= |current| / |live| {
      forall n | n in live ensures multiset(current)[n] <= |current| / |live| + |current| % |live| {
        SharesLeaveRemainder(live, current, n);
      }
    }
    assert live == set k | 0 <= k < |nodes| && nodes[k].capacity != 0 :: nodes[k].id;
    EvenByTokens(live, current, ring);
  }

  lemma EvenByTokens(live: set<nat>, current: Ring, ring: Ring)
    requires live != {} && |ring| == |current| && Spread(live, ring)
    requires WithinCeiling(live, current) || |ring| % |live| <= 1 ==> WithinCeiling(live, ring)
    requires forall n :: n in live ==>
               |TokensOf(ring, n)| == multiset(ring)[n] && |TokensOf(current, n)| == multiset(current)[n]
    ensures var top := Ceil(|ring|, |live|);
            |ring| % |live| <= 1 || (forall n :: n in live ==> |TokensOf(current, n)| <= top) ==>
              forall n :: n in live ==> |TokensOf(ring, n)| <= top
  {
  }

  /** A remainder of at most one leaves nobody above the rounded up share. */
  lemma SmallRemainderFits(live: set<nat>, ring: Ring)
    requires Spread(live, ring) && |ring| % |live| <= 1
    ensures WithinCeiling(live, ring)
  {
  }

  /**
    Assigns every token to a node with capacity.  With at most as many nodes as tokens every
    such node ends with the rounded down share and at most the remainder more; a spread ring
    is left alone; and nobody rises above the rounded up share unless somebody was above it.
   */
  method AssignTokens(nodes: seq<NodeConfig>, currentAssignments: Ring, partitions: nat)
    returns (r: Result<Ring, Error>)
    requires Preconditions(nodes, currentAssignments, partitions) ==> Agree(nodes, currentAssignments)
    ensures r.Ok? <==>
              && partitions > 0 && |currentAssignments| == partitions
              && (forall i :: 0 <= i < |nodes| ==> nodes[i].id > 0)
              && (forall i, j :: 0 <= i < j < |nodes| ==> nodes[i].id < nodes[j].id)
              && (forall t :: 0 <= t < partitions && currentAssignments[t] != 0 ==>
                    exists k :: 0 <= k < |nodes| && nodes[k].id == currentAssignments[t])
    ensures r.Ok? ==> |r.value| == partitions && WellOwned(nodes, r.value) && AllOrNothing(r.value)
    ensures r.Ok? && |nodes| <= partitions && LiveIds(nodes) != {} ==>
              Assigned(nodes, currentAssignments, r.value) && SharedEvenly(nodes, currentAssignments, r.value)
    ensures r.Ok? ==> FirstAreSeated(nodes, currentAssignments, r.value)
  {
    var ok := CheckPreconditions(nodes, currentAssignments, partitions);
    if !ok {
      return Err(EPreconditionFailed);
    }
    var used := nodes;
    if |nodes| > partitions {
      used := nodes[..partitions];
    }
    var availableNodes := CountAvailableNodes(used);
    if availableNodes == 0 {
      NobodyLive(nodes, currentAssignments, used);
      return Ok(seq(partitions, _ => 0));
    }
    var ring := AssignLive(used, currentAssignments);
    AssignedToFirst(nodes, currentAssignments, used, ring);
    OnlyKnown(nodes, currentAssignments, used, ring);
    if |nodes| <= partitions { AssignedToAll(nodes, currentAssignments, ring); }
    return Ok(ring);
  }

  /** What is promised whatever the numbers: only the first nodes, as many as there are tokens, take part. */
  ghost predicate FirstAreSeated(nodes: seq<NodeConfig>, current: Ring, ring: Ring) {
    var first := if |nodes| > |ring| then nodes[..|ring|] else nodes;
    && ((forall k :: 0 <= k < |first| ==> first[k].capacity == 0) ==> forall t :: 0 <= t < |ring| ==> ring[t] == 0)
    && (forall k, t :: 0 <= k < |first| && 0 <= t < |ring| && first[k].capacity == 0 ==> ring[t] != first[k].id)
    && (Unseated(nodes, current) && !(forall k :: 0 <= k < |first| ==> first[k].capacity == 0) ==> ring == current)
  }

  lemma NobodyLive(nodes: seq<NodeConfig>, current: Ring, used: seq<NodeConfig>)
    requires SortedAndUnique(nodes) && used == (if |nodes| > |current| then nodes[..|current|] else nodes)
    requires LiveIds(used) == {}
    ensures FirstAreSeated(nodes, current, seq(|current|, _ => 0))
    ensures |nodes| <= |current| ==> forall k :: 0 <= k < |nodes| ==> nodes[k].capacity == 0
  {
    forall k | 0 <= k < |used| ensures used[k].capacity == 0 {
      if used[k].capacity != 0 { LiveIsListed(used, k); }
    }
  }

  lemma LiveIsListed(nodes: seq<NodeConfig>, k: nat)
    requires k < |nodes| && nodes[k].capacity != 0
    ensures nodes[k].id in LiveIds(nodes)
  {
  }

  lemma AssignedToFirst(nodes: seq<NodeConfig>, current: Ring, used: seq<NodeConfig>, ring: Ring)
    requires used == (if |nodes| > |current| then nodes[..|current|] else nodes) && |ring| == |current|
    requires LiveIds(used) != {} && forall t :: 0 <= t < |ring| ==> !Retired(used, ring[t])
    requires (forall t :: 0 <= t < |current| ==> current[t] != 0 && !Known(used, current[t])) ==> ring == current
    ensures FirstAreSeated(nodes, current, ring)
  {
    forall k, t | 0 <= k < |used| && used[k].capacity == 0 && 0 <= t < |ring| ensures ring[t] != used[k].id {
      assert !Retired(used, ring[t]);
    }
    var n :| n in LiveIds(used);
    var k :| 0 <= k < |used| && used[k].capacity != 0 && used[k].id == n;
    if Unseated(nodes, current) {
      forall t | 0 <= t < |current| ensures !Known(used, current[t]) { }
    }
  }

  lemma AssignedToAll(nodes: seq<NodeConfig>, current: Ring, ring: Ring)
    requires |ring| == |current| && LiveIds(nodes) != {} && Spread(LiveIds(nodes), ring)
    requires WithinCeiling(LiveIds(nodes), current) ==> WithinCeiling(LiveIds(nodes), ring)
    requires Spread(LiveIds(nodes), current) ==> ring == current
    requires |ring| / |LiveIds(nodes)| == 1 && Placed(nodes, current) ==> LeavesOnes(LiveIds(nodes), current, ring)
    ensures Assigned(nodes, current, ring) && SharedEvenly(nodes, current, ring)
  {
    if |ring| % |LiveIds(nodes)| <= 1 { SmallRemainderFits(LiveIds(nodes), ring); }
    AssignedIsEven(nodes, current, ring);
  }

  lemma OnlyKnown(nodes: seq<NodeConfig>, current: Ring, used: seq<NodeConfig>, ring: Ring)
    requires WellOwned(nodes, current) && OnlyToLive(used, current, ring) && |ring| == |current|
    requires used == (if |nodes| > |current| then nodes[..|current|] else nodes)
    ensures WellOwned(nodes, ring)
  {
    forall n | n in LiveIds(used) ensures Known(nodes, n) {
      var k :| 0 <= k < |used| && used[k].capacity != 0 && used[k].id == n;
      assert nodes[k].id == n;
    }
  }

  /** There are more nodes than tokens, and every token is on one of those that are left out. */
  ghost predicate Unseated(nodes: seq<NodeConfig>, ring: Ring) {
    && |nodes| > |ring|
    && forall t, k :: 0 <= t < |ring| && 0 <= k < |ring| ==> ring[t] != 0 && ring[t] != nodes[k].id
  }

  /** Either every token is assigned or none is. */
  ghost predicate AllOrNothing(ring: Ring) {
    || (forall t :: 0 <= t < |ring| ==> ring[t] == 0)
    || (forall t :: 0 <= t < |ring| ==> ring[t] != 0)
  }

  /** Starting from nothing assigned, every node ends within the rounded down and up shares. */
  lemma UnassignedIsWithinCeiling(live: set<nat>, ring: Ring)
    requires live != {} && 0 !in live && forall t :: 0 <= t < |ring| ==> ring[t] == 0
    ensures WithinCeiling(live, ring)
  {
    forall n | n in live ensures multiset(ring)[n] == 0 {
      assert TokensOf(ring, n) == {};
      CardinalityOfTokens(ring, n);
    }
  }

  /**
    The rounded up share is not an upper bound.  When one node holds every token and each of
    the others ends with one, it keeps the whole remainder, which is more than the rounded up
    share exactly when the remainder is more than one.
   */
  method SingleOwnerKeepsRemainder(nodes: seq<NodeConfig>, current: Ring, owner: nat) returns (ring: Ring)
    requires SortedAndUnique(nodes) && Agree(nodes, current) && 0 < |nodes| <= |current|
    requires owner in LiveIds(nodes) && |current| / |LiveIds(nodes)| == 1
    requires forall t :: 0 <= t < |current| ==> current[t] == owner
    ensures |ring| == |current| && Spread(LiveIds(nodes), ring)
    ensures multiset(ring)[owner] == 1 + |current| % |LiveIds(nodes)|
    ensures WithinCeiling(LiveIds(nodes), ring) <==> |current| % |LiveIds(nodes)| <= 1
  {
    ghost var live := LiveIds(nodes);
    assert Known(nodes, owner) && Placed(nodes, current);
    var r := AssignTokens(nodes, current, |current|);
    ring := r.value;
    forall n | n in live && n != owner ensures multiset(ring)[n] == 1 {
      assert TokensOf(current, n) == {};
      CardinalityOfTokens(current, n);
    }
    OwnerHasRest(live, ring, owner);
  }

  lemma OwnerHasRest(live: set<nat>, ring: Ring, owner: nat)
    requires Spread(live, ring) && owner in live && |ring| / |live| == 1
    requires forall n :: n in live && n != owner ==> multiset(ring)[n] == 1
    ensures multiset(ring)[owner] == 1 + |ring| % |live|
    ensures WithinCeiling(live, ring) <==> |ring| % |live| <= 1
  {
    var m := multiset(ring);
    forall x | x in m ensures x in live { assert x in ring; }
    AtMostEach(live - {owner}, m[owner := 0], 1);
    assert |m[owner := 0]| == |m| - m[owner];
    Division(|ring|, |live|);
  }

  method CeilingIsNotKept() returns (ring: Ring)
    ensures |ring| == 5 && multiset(ring)[1] == 3 > Ceil(5, 3)
  {
    var a, b, c := NodeConfig(1, 1, {0, 1, 2, 3, 4}, {}), NodeConfig(2, 1, {}, {}), NodeConfig(3, 1, {}, {});
    var nodes, current := [a, b, c], seq(5, _ => 1);
    assert LiveIds(nodes) == {1, 2, 3} by { assert nodes[0].id == 1 && nodes[1].id == 2 && nodes[2].id == 3; }
    assert |{1, 2, 3}| == 3;
    ring := SingleOwnerKeepsRemainder(nodes, current, 1);
  }
}
