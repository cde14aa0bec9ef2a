/**
  The controller that applies the replicated commands at one node (cluster/controller.go): it
  keeps the state, caches who owns what, and lists the deltas of each command.
 */
module ClusterControllers {
  import opened Wrappers
  import opened TokenRings
  import Strategy = Partitioners
  import opened Ownership
  import Cluster = ClusterStates
  import opened ClusterCommands
  import opened ClusterEffects
  import opened LocalViews

  type State = Cluster.State

  // ----- The nodes in order ---------------------------------------------------------------

  ghost function Ids(list: seq<NodeConfig>): set<nat> {
    set k | 0 <= k < |list| :: list[k].id
  }

  /** The configurations of the members in ascending order of their ids. */
  ghost predicate IsNodeList(nodes: map<nat, NodeConfig>, list: seq<NodeConfig>) {
    && Strategy.SortedAndUnique(list) && |list| == |nodes|
    && Ids(list) == nodes.Keys && (forall k :: 0 <= k < |list| ==> list[k].id in nodes && nodes[list[k].id] == list[k])
  }

  method Smallest(ids: set<nat>) returns (n: nat)
    requires ids != {}
    ensures n in ids && forall m :: m in ids ==> n <= m
  {
    n :| n in ids;
    var todo := ids - {n};
    while todo != {}
      invariant todo <= ids && n in ids && forall m :: m in ids && m !in todo ==> n <= m
      decreases todo
    {
      var m :| m in todo;
      todo := todo - {m};
      if m < n {
        n := m;
      }
    }
  }

  /** The part of the list that is finished: the members in `done`. */
  ghost predicate ListOf(nodes: map<nat, NodeConfig>, done: set<nat>, list: seq<NodeConfig>) {
    && Strategy.SortedAndUnique(list) && Ids(list) == done
    && (forall k :: 0 <= k < |list| ==> list[k].id in nodes && nodes[list[k].id] == list[k])
  }

  lemma ListOneMore(nodes: map<nat, NodeConfig>, done: set<nat>, list: seq<NodeConfig>, n: nat)
    requires ListOf(nodes, done, list) && n in nodes && nodes[n].id == n != 0 && forall m :: m in done ==> m < n
    ensures ListOf(nodes, done + {n}, list + [nodes[n]])
  {
    var after := list + [nodes[n]];
    assert forall k :: 0 <= k < |list| ==> list[k].id in Ids(list);
    IdsOneMore(list, nodes[n]);
  }

  lemma IdsOneMore(list: seq<NodeConfig>, c: NodeConfig)
    ensures Ids(list + [c]) == Ids(list) + {c.id}
  {
    var after := list + [c];
    forall n | n in Ids(list) ensures n in Ids(after) {
      var k :| 0 <= k < |list| && list[k].id == n;
      assert after[k].id == n;
    }
    assert after[|list|].id in Ids(after);
  }

  lemma {:induction false} IdsSize(list: seq<NodeConfig>)
    requires Strategy.SortedAndUnique(list)
    ensures |Ids(list)| == |list|
  {
    if list != [] {
      var front, last := list[..|list| - 1], list[|list| - 1];
      IdsSize(front);
      assert list == front + [last];
      IdsOneMore(front, last);
      assert last.id !in Ids(front);
    }
  }

  lemma ListIsComplete(nodes: map<nat, NodeConfig>, list: seq<NodeConfig>)
    requires ListOf(nodes, nodes.Keys, list)
    ensures IsNodeList(nodes, list)
  {
    IdsSize(list);
  }

  method SortNodes(nodes: map<nat, NodeConfig>) returns (list: seq<NodeConfig>)
    requires forall n :: n in nodes ==> n != 0 && nodes[n].id == n
    ensures IsNodeList(nodes, list)
  {
    list := [];
    var todo := nodes.Keys;
    while todo != {}
      invariant todo <= nodes.Keys && ListOf(nodes, nodes.Keys - todo, list)
      invariant forall m, n :: m in nodes && m !in todo && n in todo ==> m < n
      decreases todo
    {
      var n := Smallest(todo);
      ListOneMore(nodes, nodes.Keys - todo, list, n);
      assert nodes.Keys - (todo - {n}) == nodes.Keys - todo + {n};
      list := list + [nodes[n]];
      todo := todo - {n};
    }
    assert nodes.Keys - todo == nodes.Keys;
    ListIsComplete(nodes, list);
  }

  lemma NodeListMeaning(s: State, list: seq<NodeConfig>)
    requires Cluster.Inv(s) && IsNodeList(s.nodes, list)
    ensures Strategy.LiveIds(list) == Live(s)
    ensures Strategy.Agree(list, s.ring) && Strategy.WellOwned(list, s.ring)
    ensures forall n :: Strategy.Known(list, n) <==> n in s.nodes
  {
    forall n | n in Live(s) ensures n in Strategy.LiveIds(list) {
      assert n in Ids(list);
      var k :| 0 <= k < |list| && list[k].id == n;
      assert list[k].capacity != 0;
    }
    forall n ensures Strategy.Known(list, n) <==> n in s.nodes {
      assert n in s.nodes <==> n in Ids(list);
    }
  }

  /** The position of a member in the list is the number of members with smaller ids. */
  lemma SeatOfNode(s: State, list: seq<NodeConfig>, k: nat)
    requires IsNodeList(s.nodes, list) && k < |list|
    ensures |Smaller(s, list[k].id)| == k
  {
    var front := list[..k];
    forall m ensures m in Smaller(s, list[k].id) <==> m in Ids(front) {
      if m in Smaller(s, list[k].id) {
        assert m in Ids(list);
        var j :| 0 <= j < |list| && list[j].id == m;
        assert front[j].id == m;
      }
      if m in Ids(front) {
        var j :| 0 <= j < |front| && front[j].id == m;
        assert list[j].id in s.nodes;
      }
    }
    assert Smaller(s, list[k].id) == Ids(front);
    IdsSize(front);
  }

  /** The list has every member at the position that its seat says. */
  ghost predicate InSeats(s: State, list: seq<NodeConfig>) {
    IsNodeList(s.nodes, list) && forall k :: 0 <= k < |list| ==> |Smaller(s, list[k].id)| == k
  }

  lemma ListIsInSeats(s: State, list: seq<NodeConfig>)
    requires IsNodeList(s.nodes, list)
    ensures InSeats(s, list)
  {
    forall k | 0 <= k < |list| ensures |Smaller(s, list[k].id)| == k { SeatOfNode(s, list, k); }
  }

  ghost function First(s: State, list: seq<NodeConfig>): seq<NodeConfig> {
    if |list| > s.partitions then list[..s.partitions] else list
  }

  lemma FirstHaveSeats(s: State, list: seq<NodeConfig>)
    requires InSeats(s, list)
    ensures forall k :: 0 <= k < |First(s, list)| ==>
              var c := First(s, list)[k]; Seated(s, c.id) && s.nodes[c.id] == c
  {
  }

  lemma SeatOf(s: State, list: seq<NodeConfig>, n: nat) returns (k: nat)
    requires InSeats(s, list) && Seated(s, n)
    ensures k < |First(s, list)| && First(s, list)[k].id == n
  {
    assert n in Ids(list);
    k :| k < |list| && list[k].id == n;
  }

  lemma SomeoneSeated(s: State, list: seq<NodeConfig>)
    requires InSeats(s, list)
    ensures SeatedLive(s) == {} <==> forall k :: 0 <= k < |First(s, list)| ==> First(s, list)[k].capacity == 0
  {
    FirstHaveSeats(s, list);
    if SeatedLive(s) != {} {
      var n :| n in SeatedLive(s);
      var k := SeatOf(s, list, n);
    }
    forall k | 0 <= k < |First(s, list)| && First(s, list)[k].capacity != 0 ensures SeatedLive(s) != {} {
      assert First(s, list)[k].id in SeatedLive(s);
    }
  }

  /** What the strategy promises about the first nodes of the list holds of the seated members. */
  lemma SeatsMeaning(s: State, list: seq<NodeConfig>, ring: Ring)
    requires Cluster.Inv(s) && InSeats(s, list) && |ring| == |s.ring| == s.partitions > 0
    requires Strategy.FirstAreSeated(list, s.ring, ring)
    ensures SeatedLive(s) == {} ==> forall t :: 0 <= t < |ring| ==> ring[t] == 0
    ensures forall t :: 0 <= t < |ring| && Seated(s, ring[t]) ==> s.nodes[ring[t]].capacity != 0
    ensures SeatedLive(s) != {} && Unseated(s) ==> ring == s.ring
  {
    var first := First(s, list);
    SomeoneSeated(s, list);
    if Unseated(s) { UnseatedMeaning(s, list); }
    forall t | 0 <= t < |ring| && Seated(s, ring[t]) ensures s.nodes[ring[t]].capacity != 0 {
      SeatedIsLive(s, list, ring, t);
    }
  }

  lemma SeatedIsLive(s: State, list: seq<NodeConfig>, ring: Ring, t: nat)
    requires InSeats(s, list) && t < |ring| && Seated(s, ring[t])
    requires forall k :: 0 <= k < |First(s, list)| && First(s, list)[k].capacity == 0 ==>
               ring[t] != First(s, list)[k].id
    ensures s.nodes[ring[t]].capacity != 0
  {
    var k := SeatOf(s, list, ring[t]);
    FirstHaveSeats(s, list);
    assert s.nodes[First(s, list)[k].id] == First(s, list)[k];
  }

  lemma UnseatedMeaning(s: State, list: seq<NodeConfig>)
    requires Cluster.Inv(s) && InSeats(s, list) && |s.ring| == s.partitions > 0 && Unseated(s)
    ensures Strategy.Unseated(list, s.ring)
  {
    assert s.ring[0] in s.nodes && !Seated(s, s.ring[0]);
    assert s.ring[0] in Ids(list);
    var j :| 0 <= j < |list| && list[j].id == s.ring[0];
    forall t, k | 0 <= t < |s.ring| && 0 <= k < |s.ring| ensures s.ring[t] != 0 && s.ring[t] != list[k].id {
      assert Seated(s, list[k].id);
    }
  }

  /** A ring that the strategy promises for the list is one it may choose for the members. */
  lemma ChosenIsRing(s: State, list: seq<NodeConfig>, ring: Ring)
    requires Cluster.Inv(s) && InSeats(s, list) && Cluster.Initialized(s) && |ring| == s.partitions
    requires Strategy.WellOwned(list, ring) && Strategy.AllOrNothing(ring)
    requires forall n :: Strategy.Known(list, n) <==> n in s.nodes
    requires Strategy.LiveIds(list) == Live(s) && |list| == |s.nodes|
    requires |list| <= s.partitions && Strategy.LiveIds(list) != {} ==> Strategy.Assigned(list, s.ring, ring)
    requires Strategy.FirstAreSeated(list, s.ring, ring)
    ensures RingFor(s, ring)
  {
    SeatsMeaning(s, list, ring);
  }

  // ----- The controller -------------------------------------------------------------------

  ghost predicate OwnersAgree(s: State, owners: map<nat, seq<nat>>) {
    forall p :: p in owners ==> owners[p] == Owners(s.ring, p, s.replicationFactor)
  }

  ghost predicate OwnedAgrees(s: State, n: nat, owned: Option<set<(nat, nat)>>) {
    owned.Some? ==> Cluster.Initialized(s) && owned.value == OwnedBy(s, n)
  }

  /** The owner of the replicas below `r` of the partitions up to `p` is `n`. */
  ghost function OwnedUpTo(s: State, n: nat, p: nat, r: nat): set<(nat, nat)> {
    set i: nat, j: nat | i < |s.ring| && j < s.replicationFactor && (i < p || (i == p && j < r)) &&
                         Owners(s.ring, i, s.replicationFactor)[j] == n :: (i, j)
  }

  class ClusterController {
    const localNodeID: nat
    const state: Cluster.ClusterState
    var nextDeltaSet: seq<Delta>
    var localNodeOwnedPartitionReplicaCache: Option<set<(nat, nat)>>
    var partitionOwnersCache: map<nat, seq<nat>>

    constructor (localNodeID: nat)
      requires localNodeID != 0
      ensures Valid() && fresh(state) && this.localNodeID == localNodeID && state.View() == Cluster.NEW_CLUSTER
    {
      this.localNodeID := localNodeID;
      state := new Cluster.ClusterState();
      nextDeltaSet, localNodeOwnedPartitionReplicaCache, partitionOwnersCache := [], None, map[];
      new;
      assert Cluster.HeldBy(state.View(), 0) == {};
    }

    /** Between commands the state is consistent and the caches hold what a recomputation gives. */
    ghost predicate Valid()
      reads this, state
    {
      localNodeID != 0 && Consistent(state.View()) && CachesAgree()
    }

    ghost predicate CachesAgree()
      reads this, state
    {
      && OwnersAgree(state.View(), partitionOwnersCache)
      && OwnedAgrees(state.View(), localNodeID, localNodeOwnedPartitionReplicaCache)
    }

    method PartitionOwners(partition: nat) returns (owners: seq<nat>)
      requires OwnersAgree(state.View(), partitionOwnersCache)
      modifies this`partitionOwnersCache
      ensures owners == Owners(state.tokens, partition, state.replicationFactor)
      ensures OwnersAgree(state.View(), partitionOwnersCache)
    {
      if partition in partitionOwnersCache {
        return partitionOwnersCache[partition];
      }
      owners := ComputeOwners(state.tokens, partition, state.replicationFactor);
      partitionOwnersCache := partitionOwnersCache[partition := owners];
    }

    method ClearCaches()
      modifies this`partitionOwnersCache, this`localNodeOwnedPartitionReplicaCache
      ensures partitionOwnersCache == map[] && localNodeOwnedPartitionReplicaCache == None
    {
      localNodeOwnedPartitionReplicaCache := None;
      partitionOwnersCache := map[];
    }

    method LocalNodeOwnedPartitionReplicas() returns (owned: set<(nat, nat)>)
      requires Cluster.Shaped(state.View()) && CachesAgree()
      modifies this`partitionOwnersCache, this`localNodeOwnedPartitionReplicaCache
      ensures owned == OwnedBy(state.View(), localNodeID) && CachesAgree()
    {
      if state.replicationFactor == 0 || state.partitionCount == 0 {
        return {};
      }
      if localNodeOwnedPartitionReplicaCache.Some? {
        return localNodeOwnedPartitionReplicaCache.value;
      }
      ghost var s := state.View();
      owned := {};
      for i := 0 to |state.tokens|
        invariant owned == OwnedUpTo(s, localNodeID, i, 0) && OwnersAgree(s, partitionOwnersCache)
        modifies this`partitionOwnersCache
      {
        var partitionOwners := PartitionOwners(i);
        var here := ReplicasOf(partitionOwners, i);
        OwnedOneMore(s, localNodeID, i, here);
        owned := owned + here;
      }
      assert owned == OwnedBy(s, localNodeID);
      localNodeOwnedPartitionReplicaCache := Some(owned);
    }

    /** The replicas of one partition that the local node owns. */
    method ReplicasOf(partitionOwners: seq<nat>, partition: nat) returns (here: set<(nat, nat)>)
      ensures here == set r: nat | r < |partitionOwners| && partitionOwners[r] == localNodeID :: (partition, r)
    {
      here := {};
      for replica: nat := 0 to |partitionOwners|
        invariant here == set r: nat | r < replica && partitionOwners[r] == localNodeID :: (partition, r)
      {
        if partitionOwners[replica] == localNodeID {
          here := here + {(partition, replica)};
        }
      }
    }

    /** Lists what was lost and then what was gained, in the order of the map iteration. */
    method DiffAndNotify(before: set<Item>, after: set<Item>)
      modifies this`nextDeltaSet
      ensures old(nextDeltaSet) <= nextDeltaSet
      ensures IsDiff(localNodeID, nextDeltaSet[|old(nextDeltaSet)|..], before, after)
    {
      var losses := ChangesOf(before, after, false);
      var gains := ChangesOf(after, before, true);
      DiffOfChanges(localNodeID, losses, gains, before, after);
      nextDeltaSet := nextDeltaSet + losses + gains;
      assert nextDeltaSet == old(nextDeltaSet) + (losses + gains);
    }

    /** The loop over one snapshot: a delta for each item that the other one does not have. */
    method ChangesOf(items: set<Item>, others: set<Item>, gained: bool) returns (deltas: seq<Delta>)
      ensures Enumerates(localNodeID, deltas, items - others, gained)
    {
      deltas := [];
      var todo := items;
      while todo != {}
        invariant todo <= items && Enumerates(localNodeID, deltas, items - todo - others, gained)
        decreases todo
      {
        var item :| item in todo;
        EnumeratesOneMore(localNodeID, deltas, items - todo - others, gained, item);
        assert items - (todo - {item}) - others == items - todo - others + (if item in others then {} else {item});
        todo := todo - {item};
        if item !in others {
          deltas := deltas + [if gained then Gain(localNodeID, item) else Lose(localNodeID, item)];
        }
      }
      assert items - todo == items;
    }

    // ----- Tokens -------------------------------------------------------------------------

    method LocalNodeTokenSnapshot() returns (tokens: set<nat>)
      ensures tokens == TokensAt(state.View(), localNodeID)
    {
      if localNodeID !in state.nodes {
        return {};
      }
      return state.nodes[localNodeID].tokens;
    }

    /** Nothing is reported to a node that is not a member. */
    method LocalDiffTokensAndNotify(snapshot: set<nat>)
      requires localNodeID !in state.nodes ==> snapshot == {}
      modifies this`nextDeltaSet
      ensures Extends(localNodeID, old(nextDeltaSet), nextDeltaSet, TokenItems(snapshot),
                      TokenItems(TokensAt(state.View(), localNodeID)))
    {
      if localNodeID !in state.nodes {
        assert nextDeltaSet[|nextDeltaSet|..] == [];
        return;
      }
      DiffAndNotify(TokenItems(snapshot), TokenItems(state.nodes[localNodeID].tokens));
    }

    method LocalDiffOwnedPartitionReplicasAndNotify(snapshot: set<(nat, nat)>)
      requires Cluster.Shaped(state.View()) && CachesAgree()
      modifies this`nextDeltaSet, this`partitionOwnersCache, this`localNodeOwnedPartitionReplicaCache
      ensures CachesAgree()
      ensures Extends(localNodeID, old(nextDeltaSet), nextDeltaSet, OwnedItems(snapshot),
                      OwnedItems(OwnedBy(state.View(), localNodeID)))
    {
      var current := LocalNodeOwnedPartitionReplicas();
      DiffAndNotify(OwnedItems(snapshot), OwnedItems(current));
    }

    /** The loop that moves every token to the owner the strategy chose. */
    method ApplyAssignment(assignment: Ring)
      requires Cluster.Inv(state.View()) && |assignment| == |state.tokens|
      requires forall t :: 0 <= t < |assignment| ==> assignment[t] == 0 || assignment[t] in state.nodes
      modifies state
      ensures state.View() == WithRing(old(state.View()), assignment)
    {
      ghost var s := state.View();
      RingOfItself(s);
      for token := 0 to |assignment|
        invariant Cluster.Inv(state.View()) && state.View() == WithRing(s, Mixed(assignment, s.ring, token))
      {
        AppliedOneMore(s, assignment, token, state.View());
        var error := state.AssignToken(assignment[token], token);
      }
      assert Mixed(assignment, s.ring, |assignment|) == assignment;
    }

    /** Redistributes the tokens over the members and reports what changed for the local node. */
    method AssignTokens()
      requires localNodeID != 0 && Cluster.Inv(state.View()) && Cluster.Initialized(state.View())
      modifies this, state
      ensures Rebalanced(old(state.View()), state.View()) && Consistent(state.View()) && CachesAgree()
      ensures Extends(localNodeID, old(nextDeltaSet), nextDeltaSet, Items(old(state.View()), localNodeID),
                      Items(state.View(), localNodeID))
    {
      ghost var s := state.View();
      var newTokenAssignment := ChooseTokens();
      var ownedSnapshot, tokenSnapshot := TakeSnapshots();
      RebalancedKeepsInv(s, WithRing(s, newTokenAssignment));
      ApplyAssignment(newTokenAssignment);
      NotifyDiffs(s, tokenSnapshot, ownedSnapshot);
    }

    /** The ring the strategy chooses for the members. */
    method ChooseTokens() returns (ring: Ring)
      requires Cluster.Inv(state.View()) && Cluster.Initialized(state.View())
      ensures RingFor(state.View(), ring)
    {
      var nodes := SortNodes(state.nodes);
      NodeListMeaning(state.View(), nodes);
      var r := Strategy.AssignTokens(nodes, state.tokens, state.partitionCount);
      assert Strategy.Preconditions(nodes, state.tokens, state.partitionCount);
      ListIsInSeats(state.View(), nodes);
      ChosenIsRing(state.View(), nodes, r.value);
      return r.value;
    }

    method TakeSnapshots() returns (owned: set<(nat, nat)>, tokens: set<nat>)
      requires Cluster.Shaped(state.View())
      modifies this`partitionOwnersCache, this`localNodeOwnedPartitionReplicaCache
      ensures owned == OwnedBy(state.View(), localNodeID) && tokens == TokensAt(state.View(), localNodeID)
      ensures partitionOwnersCache == map[] && localNodeOwnedPartitionReplicaCache == None
    {
      ClearCaches();
      owned := LocalNodeOwnedPartitionReplicas();
      tokens := LocalNodeTokenSnapshot();
      ClearCaches();
    }

    /** Both diffs against the snapshots taken in state `s`. */
    method NotifyDiffs(ghost s: State, tokenSnapshot: set<nat>, ownedSnapshot: set<(nat, nat)>)
      requires localNodeID != 0 && Cluster.Inv(state.View()) && CachesAgree() && s.nodes.Keys == state.nodes.Keys
      requires tokenSnapshot == TokensAt(s, localNodeID) && ownedSnapshot == OwnedBy(s, localNodeID)
      requires HeldAt(s, localNodeID) == HeldAt(state.View(), localNodeID)
      modifies this`nextDeltaSet, this`partitionOwnersCache, this`localNodeOwnedPartitionReplicaCache
      ensures CachesAgree()
      ensures Extends(localNodeID, old(nextDeltaSet), nextDeltaSet, Items(s, localNodeID),
          Items(state.View(), localNodeID))
    {
      ghost var before := nextDeltaSet;
      LocalDiffTokensAndNotify(tokenSnapshot);
      ghost var between := nextDeltaSet;
      LocalDiffOwnedPartitionReplicasAndNotify(ownedSnapshot);
      TwoDiffs(s, state.View(), localNodeID, before, between, nextDeltaSet);
    }

    // ----- The commands -------------------------------------------------------------------

    method UpdateNodeConfig(node: nat, capacity: nat)
      requires Valid()
      modifies this, state
      ensures Valid() && NextUpdateNode(old(state.View()), node, capacity, state.View())
      ensures node in old(state.nodes) ==> node in state.nodes && state.nodes[node].capacity == capacity
      ensures Reported(localNodeID, old(nextDeltaSet), nextDeltaSet, old(state.View()), state.View())
    {
      ghost var s := state.View();
      NothingReported(localNodeID, nextDeltaSet, s);
      if node !in state.nodes {
        return;
      }
      if capacity != state.nodes[node].capacity {
        state.nodes := state.nodes[node := state.nodes[node].(capacity := capacity)];
        WithCapacityKeepsInv(s, node, capacity);
        SameView(s, state.View(), localNodeID);
        if state.replicationFactor != 0 && state.partitionCount != 0 {
          AssignTokens();
          DiffReports(localNodeID, old(nextDeltaSet), nextDeltaSet, s, WithCapacity(s, node, capacity), state.View());
        }
      }
    }

    method AddNode(node: nat, capacity: nat) returns (error: Option<StepError>)
      requires Valid()
      modifies this, state
      ensures Valid() && NextAddNode(old(state.View()), node, capacity, state.View(), error)
      ensures Reported(localNodeID, old(nextDeltaSet), nextDeltaSet, old(state.View()), state.View())
    {
      ghost var s := state.View();
      NothingReported(localNodeID, nextDeltaSet, s);
      if node in state.nodes {
        return Some(ECancelConfChange);
      }
      if node in state.removedNodes {
        return Some(ECancelConfChange);
      }
      var nodeConfig := NodeConfig(node, capacity, {}, {});
      state.AddNode(nodeConfig);
      ghost var u := state.View();
      Cluster.WithNodeKeepsInv(s, node, capacity);
      AddedView(s, node, capacity, localNodeID);
      SameCaches(s, u, localNodeID);
      if node == localNodeID {
        nextDeltaSet := nextDeltaSet + [NodeAdd(localNodeID)];
      }
      ghost var between := nextDeltaSet;
      NothingExtends(localNodeID, nextDeltaSet, Items(u, localNodeID));
      if state.replicationFactor != 0 && state.partitionCount != 0 {
        AssignTokens();
      }
      AdditionReported(localNodeID, node, old(nextDeltaSet), between, nextDeltaSet, s, u, state.View());
      return None;
    }

    /** Moves the tokens of a node that is to be removed to its replacement. */
    method ReassignTokens(oldOwnerID: nat, newOwnerID: nat)
      requires localNodeID != 0 && Consistent(state.View())
      requires oldOwnerID in state.nodes && newOwnerID in state.nodes && oldOwnerID != newOwnerID
      modifies this, state
      ensures state.View() == Handover(old(state.View()), oldOwnerID, newOwnerID)
      ensures Consistent(state.View()) && CachesAgree()
      ensures Extends(localNodeID, old(nextDeltaSet), nextDeltaSet, Items(old(state.View()), localNodeID),
                      Items(state.View(), localNodeID))
    {
      ghost var s := state.View();
      var ownedSnapshot, tokenSnapshot := TakeSnapshots();
      state.nodes := state.nodes[newOwnerID := state.nodes[newOwnerID].(capacity := state.nodes[oldOwnerID].capacity)];
      WithCapacityKeepsInv(s, newOwnerID, s.nodes[oldOwnerID].capacity);
      MoveTokens(oldOwnerID, newOwnerID);
      HandoverKeepsInv(s, oldOwnerID, newOwnerID);
      HandoverKeepsHeld(s, oldOwnerID, newOwnerID, localNodeID);
      NotifyDiffs(s, tokenSnapshot, ownedSnapshot);
    }

    /** The loop over the tokens of the old owner. */
    method MoveTokens(oldOwnerID: nat, newOwnerID: nat)
      requires Cluster.Inv(state.View())
      requires oldOwnerID in state.nodes && newOwnerID in state.nodes && oldOwnerID != newOwnerID
      modifies state
      ensures state.View() == WithRing(old(state.View()), Renamed(old(state.tokens), oldOwnerID, newOwnerID))
    {
      ghost var s := state.View();
      RingOfItself(s);
      assert HandedOver(s.ring, oldOwnerID, newOwnerID, TokensOf(s.ring, oldOwnerID)) == Mixed(s.ring, s.ring, 0);
      var todo := state.nodes[oldOwnerID].tokens;
      while todo != {}
        invariant Cluster.Inv(state.View()) && todo <= TokensOf(s.ring, oldOwnerID)
        invariant state.View() == WithRing(s, HandedOver(s.ring, oldOwnerID, newOwnerID, todo))
        decreases todo
      {
        var token :| token in todo;
        HandedOverOneMore(s, oldOwnerID, newOwnerID, todo, token);
        var error := state.AssignToken(newOwnerID, token);
        todo := todo - {token};
      }
      assert HandedOver(s.ring, oldOwnerID, newOwnerID, {}) == Renamed(s.ring, oldOwnerID, newOwnerID);
    }

    method RemoveNode(node: nat, replacement: nat) returns (error: Option<StepError>)
      requires Valid()
      modifies this, state
      ensures Valid() && NextRemoveNode(old(state.View()), node, replacement, state.View(), error)
      ensures Reported(localNodeID, old(nextDeltaSet), nextDeltaSet, old(state.View()), state.View())
    {
      ghost var s := state.View();
      NothingReported(localNodeID, nextDeltaSet, s);
      if (replacement !in state.nodes && replacement != 0) ||
         (replacement in state.nodes && |state.nodes[replacement].tokens| != 0) || replacement == node {
        return Some(ECancelConfChange);
      }
      if node in state.nodes {
        if replacement != 0 {
          RemoveInFavour(node, replacement);
        } else {
          RemoveAndRedistribute(node);
        }
        ghost var between := nextDeltaSet;
        if node == localNodeID {
          nextDeltaSet := nextDeltaSet + [NodeRemove(localNodeID)];
        }
        RemovalReported(localNodeID, node, old(nextDeltaSet), between, nextDeltaSet, s, state.View());
      }
      return None;
    }

    /** The replacement takes over everything before the node leaves. */
    method RemoveInFavour(node: nat, replacement: nat)
      requires Valid() && node in state.nodes && replacement in state.nodes && node != replacement
      modifies this, state
      ensures Valid() && state.View() == Cluster.WithoutNode(Handover(old(state.View()), node, replacement), node)
      ensures node != localNodeID ==>
                Reported(localNodeID, old(nextDeltaSet), nextDeltaSet, old(state.View()), state.View())
      ensures old(nextDeltaSet) <= nextDeltaSet
    {
      ghost var s := state.View();
      ReassignTokens(node, replacement);
      ghost var u := state.View();
      Cluster.WithoutNodeKeepsInv(u, node);
      NothingLeft(s, node, replacement);
      state.RemoveNode(node);
      SameCaches(u, state.View(), localNodeID);
      if node != localNodeID {
        ViewAfterRemoval(u, node, localNodeID);
        DiffReports(localNodeID, old(nextDeltaSet), nextDeltaSet, s, s, u);
      }
    }

    method RemoveAndRedistribute(node: nat)
      requires Valid() && node in state.nodes
      modifies this, state
      ensures Valid() && Rebalanced(Cluster.WithoutNode(old(state.View()), node), state.View())
      ensures node != localNodeID ==>
                Reported(localNodeID, old(nextDeltaSet), nextDeltaSet, old(state.View()), state.View())
      ensures old(nextDeltaSet) <= nextDeltaSet
    {
      ghost var s := state.View();
      Cluster.WithoutNodeKeepsInv(s, node);
      if node != localNodeID { ViewAfterRemoval(s, node, localNodeID); }
      state.RemoveNode(node);
      ghost var u := state.View();
      if state.replicationFactor != 0 && state.partitionCount != 0 {
        AssignTokens();
        if node != localNodeID { DiffReports(localNodeID, old(nextDeltaSet), nextDeltaSet, s, u, state.View()); }
      } else {
        SameCaches(s, u, localNodeID);
        NothingReported(localNodeID, nextDeltaSet, u);
      }
    }

    method TakePartitionReplica(partition: nat, replica: nat, node: nat) returns (error: Option<StepError>)
      requires Valid()
      modifies this, state
      ensures Valid() && NextTake(old(state.View()), partition, replica, node, state.View(), error)
      ensures Reported(localNodeID, old(nextDeltaSet), nextDeltaSet, old(state.View()), state.View())
    {
      ghost var s := state.View();
      NothingReported(localNodeID, nextDeltaSet, s);
      var heldSnapshot := LocalNodePartitionReplicaSnapshot();
      var partitionOwners := PartitionOwners(partition);
      if replica >= |partitionOwners| || |partitionOwners| == 0 {
        return Some(EReplicaNumberInvalid);
      }
      if partitionOwners[replica] != node {
        return Some(ENodeDoesNotOwnReplica);
      }
      assert Cluster.IsReplica(s, partition, replica);
      var failure := state.AssignPartitionReplica(partition, replica, node);
      if failure.Some? {
        return Some(EState(failure.value));
      }
      Cluster.WithHolderKeepsInv(s, partition, replica, node);
      HolderChanged(s, partition, replica, node, localNodeID);
      SameCaches(s, state.View(), localNodeID);
      LocalDiffPartitionReplicasAndNotify(heldSnapshot);
      HeldDiff(localNodeID, old(nextDeltaSet), nextDeltaSet, s, state.View());
      return None;
    }

    method LocalNodePartitionReplicaSnapshot() returns (held: set<(nat, nat)>)
      ensures held == HeldAt(state.View(), localNodeID)
    {
      if localNodeID !in state.nodes {
        return {};
      }
      return state.nodes[localNodeID].held;
    }

    method LocalDiffPartitionReplicasAndNotify(snapshot: set<(nat, nat)>)
      requires localNodeID !in state.nodes ==> snapshot == {}
      modifies this`nextDeltaSet
      ensures Extends(localNodeID, old(nextDeltaSet), nextDeltaSet, HeldItems(snapshot),
                      HeldItems(HeldAt(state.View(), localNodeID)))
    {
      if localNodeID !in state.nodes {
        assert nextDeltaSet[|nextDeltaSet|..] == [];
        return;
      }
      DiffAndNotify(HeldItems(snapshot), HeldItems(state.nodes[localNodeID].held));
    }

    method SetReplicationFactor(replicationFactor: nat)
      requires Valid()
      modifies this, state
      ensures Valid() && Next(old(state.View()), ClusterCommands.SetReplicationFactor(replicationFactor),
          state.View(), None)
      ensures Reported(localNodeID, old(nextDeltaSet), nextDeltaSet, old(state.View()), state.View())
    {
      NothingReported(localNodeID, nextDeltaSet, state.View());
      if state.replicationFactor != 0 {
        return;
      }
      ghost var s := state.View();
      state.replicationFactor := replicationFactor;
      InitializeClusterIfReady(s);
    }

    method SetPartitionCount(partitions: nat)
      requires Valid()
      modifies this, state
      ensures Valid() && Next(old(state.View()), ClusterCommands.SetPartitionCount(partitions), state.View(), None)
      ensures Reported(localNodeID, old(nextDeltaSet), nextDeltaSet, old(state.View()), state.View())
    {
      NothingReported(localNodeID, nextDeltaSet, state.View());
      if state.partitionCount != 0 {
        return;
      }
      ghost var s := state.View();
      state.partitionCount := partitions;
      InitializeClusterIfReady(s);
    }

    /** A setting was changed in the state `s`, which had no token ring yet. */
    method InitializeClusterIfReady(ghost s: State)
      requires localNodeID != 0 && Consistent(s) && !Cluster.Initialized(s)
      requires state.View() == s.(replicationFactor := state.replicationFactor, partitions := state.partitionCount)
      requires OwnersAgree(s, partitionOwnersCache) && OwnedAgrees(s, localNodeID, localNodeOwnedPartitionReplicaCache)
      modifies this, state
      ensures Valid() && NextSettings(old(state.View()), state.View())
      ensures Reported(localNodeID, old(nextDeltaSet), nextDeltaSet, s, state.View())
    {
      ghost var u := state.View();
      if state.replicationFactor == 0 || state.partitionCount == 0 {
        SettingsUnready(s, u, localNodeID, nextDeltaSet);
        return;
      }
      SettingsReady(s, u, localNodeID);
      state.Initialize();
      AssignTokens();
      DiffReports(localNodeID, old(nextDeltaSet), nextDeltaSet, s, Cluster.Fresh(u), state.View());
    }

    method StepRegistry(command: Command) returns (error: Option<StepError>)
      requires Valid() && IsRegistryCommand(command)
      modifies this, state
      ensures Valid() && Next(old(state.View()), command, state.View(), error)
      ensures nextDeltaSet == old(nextDeltaSet) + RegistryDeltas(old(state.View()), command)
    {
      ghost var s := state.View();
      error := None;
      match command {
        case AddSite(site) => AddSite(site);
        case RemoveSite(site) => RemoveSite(site);
        case AddRelay(relay) => AddRelay(relay);
        case RemoveRelay(relay) => RemoveRelay(relay);
        case MoveRelay(relay, site) => error := MoveRelay(relay, site);
      }
      RegistryKeepsInv(s, command, state.View(), error);
      SameCaches(s, state.View(), localNodeID);
    }

    method AddSite(site: string)
      modifies this`nextDeltaSet, state
      ensures state.View() == old(state.View()).(sites := old(state.sites) + {site})
      ensures nextDeltaSet == old(nextDeltaSet) + RegistryDeltas(old(state.View()), ClusterCommands.AddSite(site))
    {
      if state.SiteExists(site) {
        assert state.sites + {site} == state.sites;
        return;
      }
      state.AddSite(site);
      nextDeltaSet := nextDeltaSet + [SiteAdded(site)];
    }

    method RemoveSite(site: string)
      modifies this`nextDeltaSet, state
      ensures state.View() ==
              if site in old(state.sites) then Cluster.WithoutSite(old(state.View()), site) else old(state.View())
      ensures nextDeltaSet == old(nextDeltaSet) + RegistryDeltas(old(state.View()), ClusterCommands.RemoveSite(site))
    {
      if !state.SiteExists(site) {
        return;
      }
      state.RemoveSite(site);
      nextDeltaSet := nextDeltaSet + [SiteRemoved(site)];
    }

    method AddRelay(relay: string)
      modifies this`nextDeltaSet, state
      ensures state.View() ==
              if relay in old(state.relays) then old(state.View())
              else old(state.View()).(relays := old(state.relays)[relay := ""])
      ensures nextDeltaSet == old(nextDeltaSet) + RegistryDeltas(old(state.View()), ClusterCommands.AddRelay(relay))
    {
      if relay in state.relays {
        return;
      }
      state.AddRelay(relay);
      nextDeltaSet := nextDeltaSet + [RelayAdded(relay)];
    }

    method RemoveRelay(relay: string)
      modifies this`nextDeltaSet, state
      ensures state.View() == old(state.View()).(relays := old(state.relays) - {relay})
      ensures nextDeltaSet == old(nextDeltaSet) + RegistryDeltas(old(state.View()), ClusterCommands.RemoveRelay(relay))
    {
      if relay !in state.relays {
        assert state.relays - {relay} == state.relays;
        return;
      }
      state.RemoveRelay(relay);
      nextDeltaSet := nextDeltaSet + [RelayRemoved(relay)];
    }

    method MoveRelay(relay: string, site: string) returns (error: Option<StepError>)
      modifies this`nextDeltaSet, state
      ensures error == if site !in old(state.sites) && site != "" then Some(ENoSuchSite)
                       else if relay !in old(state.relays) then Some(ENoSuchRelay) else None
      ensures state.View() == Cluster.WithMovedRelay(old(state.View()), relay, site)
      ensures nextDeltaSet ==
          old(nextDeltaSet) + RegistryDeltas(old(state.View()), ClusterCommands.MoveRelay(relay, site))
    {
      if !state.SiteExists(site) && site != "" {
        return Some(ENoSuchSite);
      }
      if relay !in state.relays {
        return Some(ENoSuchRelay);
      }
      if state.relays[relay] == site {
        assert state.relays[relay := site] == state.relays;
        return None;
      }
      state.MoveRelay(relay, site);
      nextDeltaSet := nextDeltaSet + [RelayMoved(relay, site)];
      return None;
    }

    /**
      Applies one command of the replicated log.  The state changes as the command says, stays
      consistent, the caches agree with it, and replaying the deltas brings the view of the
      local node up to date.
     */
    method Step(command: Command) returns (deltas: seq<Delta>, error: Option<StepError>)
      requires Valid()
      modifies this, state
      ensures Valid() && Next(old(state.View()), command, state.View(), error)
      ensures HasEffect(old(state.View()), command, state.View(), error)
      ensures if IsRegistryCommand(command) then RegistryIsTold(command, deltas, old(state.View()), state.View())
              else MemberIsTold(localNodeID, deltas, old(state.View()), state.View())
      ensures Replay(LocalView(old(state.View()), localNodeID), deltas) == LocalView(state.View(), localNodeID)
      ensures deltas == nextDeltaSet
    {
      ghost var s := state.View();
      nextDeltaSet := [];
      error := None;
      if IsRegistryCommand(command) {
        error := StepRegistry(command);
      } else {
        error := StepMembers(command);
      }
      StepMeaning(localNodeID, s, command, nextDeltaSet, state.View(), error);
      deltas := nextDeltaSet;
    }

    method StepMembers(command: Command) returns (error: Option<StepError>)
      requires Valid() && !IsRegistryCommand(command)
      modifies this, state
      ensures Valid() && Next(old(state.View()), command, state.View(), error)
      ensures Reported(localNodeID, old(nextDeltaSet), nextDeltaSet, old(state.View()), state.View())
    {
      error := None;
      match command {
        case UpdateNode(node, capacity) => UpdateNodeConfig(node, capacity);
        case AddNode(node, capacity) => error := AddNode(node, capacity);
        case RemoveNode(node, replacement) => error := RemoveNode(node, replacement);
        case TakePartitionReplica(partition, replica, node) => error := TakePartitionReplica(partition, replica, node);
        case SetReplicationFactor(replicationFactor) => SetReplicationFactor(replicationFactor);
        case SetPartitionCount(partitions) => SetPartitionCount(partitions);
        case Snapshot => NothingReported(localNodeID, nextDeltaSet, state.View());
      }
    }
  }

  /** The list grew by a diff. */
  ghost predicate Extends(n: nat, before: seq<Delta>, after: seq<Delta>, was: set<Item>, now: set<Item>) {
    before <= after && IsDiff(n, after[|before|..], was, now)
  }

  /** Replaying what was added to the list takes the local view from one state to the other. */
  ghost predicate Reported(n: nat, before: seq<Delta>, after: seq<Delta>, s: State, t: State) {
    && before <= after && Replay(LocalView(s, n), after[|before|..]) == LocalView(t, n)
    && Tells(n, after[|before|..], LocalView(s, n), LocalView(t, n))
  }

  lemma NothingExtends(n: nat, deltas: seq<Delta>, items: set<Item>)
    ensures Extends(n, deltas, deltas, items, items)
  {
    assert deltas[|deltas|..] == [];
  }

  lemma NothingReported(n: nat, deltas: seq<Delta>, s: State)
    ensures Reported(n, deltas, deltas, s, s)
  {
    assert deltas[|deltas|..] == [];
  }

  /** States that differ in nothing the node follows have the same view and the same caches. */
  lemma SameView(s: State, t: State, n: nat)
    requires t.ring == s.ring && t.replicationFactor == s.replicationFactor && t.partitions == s.partitions
    requires TokensAt(t, n) == TokensAt(s, n) && HeldAt(t, n) == HeldAt(s, n) && (n in t.nodes <==> n in s.nodes)
    ensures LocalView(t, n) == LocalView(s, n) && OwnedBy(t, n) == OwnedBy(s, n)
    ensures forall owners :: OwnersAgree(s, owners) <==> OwnersAgree(t, owners)
    ensures forall owned :: OwnedAgrees(s, n, owned) <==> OwnedAgrees(t, n, owned)
  {
    assert OwnedBy(t, n) == OwnedBy(s, n);
  }

  /** A diff after a step that the node did not notice. */
  lemma DiffReports(n: nat, before: seq<Delta>, after: seq<Delta>, s: State, u: State, t: State)
    requires LocalView(u, n) == LocalView(s, n) && Extends(n, before, after, Items(u, n), Items(t, n))
    requires n in u.nodes <==> n in t.nodes
    ensures Reported(n, before, after, s, t)
  {
    ReplayDiff(n, n in u.nodes, after[|before|..], Items(u, n), Items(t, n));
  }

  /** The caches depend on the ring and the settings only. */
  lemma SameCaches(s: State, t: State, n: nat)
    requires t.ring == s.ring && t.replicationFactor == s.replicationFactor && t.partitions == s.partitions
    ensures OwnedBy(t, n) == OwnedBy(s, n)
    ensures forall owners :: OwnersAgree(s, owners) <==> OwnersAgree(t, owners)
    ensures forall owned :: OwnedAgrees(s, n, owned) <==> OwnedAgrees(t, n, owned)
  {
    assert OwnedBy(t, n) == OwnedBy(s, n);
  }

  /** A member that joins starts with nothing; the others do not notice. */
  lemma AddedView(s: State, node: nat, capacity: nat, n: nat)
    requires Consistent(s) && node !in s.nodes && n != 0
    ensures var u := Cluster.WithNode(s, NodeConfig(node, capacity, {}, {}));
            LocalView(u, n) == if node == n then View(true, {}) else LocalView(s, n)
  {
    var u := Cluster.WithNode(s, NodeConfig(node, capacity, {}, {}));
    SameCaches(s, u, n);
    if node == n { OutsiderHasNothing(s, n); }
  }

  lemma SameIsReported(n: nat, before: seq<Delta>, s: State, t: State)
    requires LocalView(s, n) == LocalView(t, n)
    ensures Reported(n, before, before, s, t)
  {
    assert before[|before|..] == [];
  }

  /** A new member is told that it is one and then what it gained, the others what changed for them. */
  lemma AdditionReported(n: nat, node: nat, before: seq<Delta>, between: seq<Delta>, after: seq<Delta>, s: State,
                         u: State, t: State)
    requires n in u.nodes <==> n in t.nodes
    requires LocalView(u, n) == if node == n then View(true, {}) else LocalView(s, n)
    requires node == n ==> n !in s.nodes
    requires between == if node == n then before + [NodeAdd(n)] else before
    requires Extends(n, between, after, Items(u, n), Items(t, n))
    ensures Reported(n, before, after, s, t)
  {
    if node == n {
      var gains := after[|between|..];
      assert after[|before|..] == [NodeAdd(n)] + gains && ([NodeAdd(n)] + gains)[1..] == gains;
      ReplayAppends(LocalView(s, n), [NodeAdd(n)], gains);
      assert [NodeAdd(n)][..0] == [];
      ReplayDiff(n, true, gains, Items(u, n), Items(t, n));
    } else {
      DiffReports(n, before, after, s, u, t);
    }
  }

  /** A removed node clears its view, the others saw the removal as a diff. */
  lemma RemovalReported(n: nat, node: nat, before: seq<Delta>, between: seq<Delta>, after: seq<Delta>, s: State,
                        t: State)
    requires Consistent(t) && n != 0 && before <= between && node in s.nodes
    requires node != n ==> Reported(n, before, between, s, t)
    requires after == if node == n then between + [NodeRemove(n)] else between
    requires node == n ==> n !in t.nodes
    ensures Reported(n, before, after, s, t)
  {
    if node == n {
      OutsiderHasNothing(t, n);
      var deltas := after[|before|..];
      assert deltas[|deltas| - 1] == NodeRemove(n);
    }
  }

  lemma HolderChanged(s: State, p: nat, r: nat, node: nat, n: nat)
    requires Cluster.Inv(s) && Cluster.IsReplica(s, p, r) && node in s.nodes
    ensures var t := Cluster.WithHolder(s, p, r, node);
            TokensAt(t, n) == TokensAt(s, n) && t.nodes.Keys == s.nodes.Keys
  {
    assert Cluster.WithHolder(s, p, r, node).nodes.Keys == s.nodes.Keys;
  }

  /** A diff of what is held is a diff of the items when nothing else changed. */
  lemma HeldDiff(n: nat, before: seq<Delta>, after: seq<Delta>, s: State, t: State)
    requires TokensAt(t, n) == TokensAt(s, n) && OwnedBy(t, n) == OwnedBy(s, n) && t.nodes.Keys == s.nodes.Keys
    requires Extends(n, before, after, HeldItems(HeldAt(s, n)), HeldItems(HeldAt(t, n)))
    ensures Reported(n, before, after, s, t)
  {
    var frame := TokenItems(TokensAt(s, n)) + OwnedItems(OwnedBy(s, n));
    DiffWithFrame(n, after[|before|..], HeldItems(HeldAt(s, n)), HeldItems(HeldAt(t, n)), frame);
    assert HeldItems(HeldAt(s, n)) + frame == Items(s, n) && HeldItems(HeldAt(t, n)) + frame == Items(t, n);
    DiffReports(n, before, after, s, s, t);
  }

  lemma SettingsUnready(s: State, u: State, n: nat, deltas: seq<Delta>)
    requires n != 0 && Consistent(s) && !Cluster.Initialized(s) && !Cluster.Initialized(u)
    requires u == s.(replicationFactor := u.replicationFactor, partitions := u.partitions)
    ensures Consistent(u) && Reported(n, deltas, deltas, s, u)
    ensures forall owners :: OwnersAgree(s, owners) <==> OwnersAgree(u, owners)
    ensures forall owned :: OwnedAgrees(s, n, owned) <==> OwnedAgrees(u, n, owned)
  {
    SameHolders(s, u);
    assert LocalView(u, n) == LocalView(s, n);
    SameIsReported(n, deltas, s, u);
    assert forall p, k, j {:trigger Owners(s.ring, p, k), Owners(u.ring, p, j)} ::
        Owners(s.ring, p, k) == Owners(u.ring, p, j) == [];
  }

  /** A fresh ring gives nothing to anyone. */
  lemma SettingsReady(s: State, u: State, n: nat)
    requires n != 0 && Consistent(s) && !Cluster.Initialized(s) && Cluster.Initialized(u)
    requires u == s.(replicationFactor := u.replicationFactor, partitions := u.partitions)
    ensures Cluster.Inv(Cluster.Fresh(u)) && LocalView(Cluster.Fresh(u), n) == LocalView(s, n)
  {
    var v, f := u.(replicationFactor := 0, partitions := 0), Cluster.Fresh(u);
    SameHolders(s, v);
    Cluster.FreshKeepsInv(u);
    assert OwnedBy(f, n) == {} by {
      forall p: nat, r: nat | p < |f.ring| && r < f.replicationFactor
          ensures Owners(f.ring, p, f.replicationFactor)[r] != n {
        OwnerIsOnRing(f.ring, p, f.replicationFactor, r);
      }
    }
    if n in s.nodes {
      assert TokensOf(s.ring, n) == {} && TokensOf(f.ring, n) == {};
    }
  }

  /** One delta for each change of the sites and relays. */
  ghost function RegistryDeltas(s: State, command: Command): seq<Delta>
    requires IsRegistryCommand(command)
  {
    match command
    case AddSite(site) => if site in s.sites then [] else [SiteAdded(site)]
    case RemoveSite(site) => if site in s.sites then [SiteRemoved(site)] else []
    case AddRelay(relay) => if relay in s.relays then [] else [RelayAdded(relay)]
    case RemoveRelay(relay) => if relay in s.relays then [RelayRemoved(relay)] else []
    case MoveRelay(relay, site) =>
      if (site !in s.sites && site != "") || relay !in s.relays || s.relays[relay] == site then []
      else [RelayMoved(relay, site)]
  }

  /** The view of a node does not depend on sites and relays. */
  lemma RegistryReports(n: nat, s: State, command: Command, t: State, error: Option<StepError>)
    requires Consistent(s) && Next(s, command, t, error) && IsRegistryCommand(command)
    ensures Replay(LocalView(s, n), RegistryDeltas(s, command)) == LocalView(t, n)
  {
    RegistryKeepsInv(s, command, t, error);
    SameCaches(s, t, n);
    var deltas := RegistryDeltas(s, command);
    if deltas != [] {
      assert |deltas| == 1 && deltas[..0] == [];
    }
  }

  /** What a command does and tells, from what its part of the controller promises. */
  lemma StepMeaning(n: nat, s: State, command: Command, deltas: seq<Delta>, t: State, error: Option<StepError>)
    requires n != 0 && Consistent(s) && Next(s, command, t, error)
    requires IsRegistryCommand(command) ==> deltas == RegistryDeltas(s, command)
    requires !IsRegistryCommand(command) ==> Reported(n, [], deltas, s, t)
    ensures HasEffect(s, command, t, error) && Replay(LocalView(s, n), deltas) == LocalView(t, n)
    ensures if IsRegistryCommand(command) then RegistryIsTold(command, deltas, s, t) else MemberIsTold(n, deltas, s, t)
  {
    NextHasEffect(s, command, t, error);
    if IsRegistryCommand(command) {
      RegistryReports(n, s, command, t, error);
      RegistryMeaning(s, command, t, error);
    } else {
      assert deltas[0..] == deltas;
      TellsMeaning(n, deltas, s, t);
    }
  }

  lemma RegistryMeaning(s: State, command: Command, t: State, error: Option<StepError>)
    requires IsRegistryCommand(command) && Next(s, command, t, error)
    ensures RegistryIsTold(command, RegistryDeltas(s, command), s, t)
  {
  }

  /** A diff of the tokens and a diff of what is owned make a diff of the items. */
  lemma TwoDiffs(s: State, t: State, n: nat, before: seq<Delta>, between: seq<Delta>, after: seq<Delta>)
    requires HeldAt(s, n) == HeldAt(t, n)
    requires Extends(n, before, between, TokenItems(TokensAt(s, n)), TokenItems(TokensAt(t, n)))
    requires Extends(n, between, after, OwnedItems(OwnedBy(s, n)), OwnedItems(OwnedBy(t, n)))
    ensures Extends(n, before, after, Items(s, n), Items(t, n))
  {
    var one, other := between[|before|..], after[|between|..];
    assert after[|before|..] == one + other;
    DiffsTogether(n, one, TokenItems(TokensAt(s, n)), TokenItems(TokensAt(t, n)),
                  other, OwnedItems(OwnedBy(s, n)), OwnedItems(OwnedBy(t, n)));
    DiffWithFrame(n, one + other, TokenItems(TokensAt(s, n)) + OwnedItems(OwnedBy(s, n)),
                  TokenItems(TokensAt(t, n)) + OwnedItems(OwnedBy(t, n)), HeldItems(HeldAt(t, n)));
  }

  function Mixed(assignment: Ring, ring: Ring, k: nat): Ring
    requires k <= |assignment| == |ring|
  {
    assignment[..k] + ring[k..]
  }

  lemma MixedOneMore(assignment: Ring, ring: Ring, k: nat)
    requires k < |assignment| == |ring|
    ensures Mixed(assignment, ring, k + 1) == Mixed(assignment, ring, k)[k := assignment[k]]
  {
  }

  lemma MovedOneMore(s: State, ring: Ring, n: nat, t: nat)
    requires Cluster.Inv(WithRing(s, ring)) && t < |ring| && (n == 0 || n in s.nodes)
    ensures Cluster.WithOwner(WithRing(s, ring), n, t) == WithRing(s, ring[t := n])
    ensures Cluster.Inv(WithRing(s, ring[t := n])) && WithRing(s, ring).nodes.Keys == s.nodes.Keys
  {
    var u := WithRing(s, ring);
    WithOwnerIsWithRing(u, n, t);
    Cluster.WithOwnerKeepsInv(u, n, t);
    assert WithRing(u, ring[t := n]) == WithRing(s, ring[t := n]);
  }

  lemma HandoverKeepsHeld(s: State, m: nat, replacement: nat, n: nat)
    requires m in s.nodes && replacement in s.nodes
    ensures Handover(s, m, replacement).nodes.Keys == s.nodes.Keys
        && HeldAt(Handover(s, m, replacement), n) == HeldAt(s, n)
  {
  }

  /** The tokens of one node given to another one, except those still to do. */
  function HandedOver(ring: Ring, n: nat, m: nat, left: set<nat>): (r: Ring)
    ensures |r| == |ring|
  {
    seq(|ring|, t requires 0 <= t < |ring| => if ring[t] == n && t !in left then m else ring[t])
  }

  lemma HandedOverOneMore(s: State, n: nat, m: nat, left: set<nat>, t: nat)
    requires Cluster.Inv(WithRing(s, HandedOver(s.ring, n, m, left))) && m in s.nodes
    requires t in left && left <= TokensOf(s.ring, n)
    ensures var u := WithRing(s, HandedOver(s.ring, n, m, left));
            && t < |u.ring| && m in u.nodes
            && Cluster.WithOwner(u, m, t) == WithRing(s, HandedOver(s.ring, n, m, left - {t}))
    ensures Cluster.Inv(WithRing(s, HandedOver(s.ring, n, m, left - {t})))
  {
    MovedOneMore(s, HandedOver(s.ring, n, m, left), m, t);
    assert HandedOver(s.ring, n, m, left)[t := m] == HandedOver(s.ring, n, m, left - {t});
  }

  lemma AppliedOneMore(s: State, assignment: Ring, k: nat, u: State)
    requires k < |assignment| == |s.ring| && u == WithRing(s, Mixed(assignment, s.ring, k)) && Cluster.Inv(u)
    requires assignment[k] == 0 || assignment[k] in s.nodes
    ensures k < |u.ring| && u.nodes.Keys == s.nodes.Keys
    ensures Cluster.WithOwner(u, assignment[k], k) == WithRing(s, Mixed(assignment, s.ring, k + 1))
    ensures Cluster.Inv(Cluster.WithOwner(u, assignment[k], k))
  {
    MixedOneMore(assignment, s.ring, k);
    MovedOneMore(s, Mixed(assignment, s.ring, k), assignment[k], k);
  }

  lemma RingOfItself(s: State)
    requires Cluster.Inv(s)
    ensures WithRing(s, Mixed(s.ring, s.ring, 0)) == s
  {
    assert Mixed(s.ring, s.ring, 0) == s.ring;
    assert WithRing(s, s.ring).nodes == s.nodes;
  }

  /** Changing one owner on both sides is changing the ring. */
  lemma WithOwnerIsWithRing(s: State, n: nat, t: nat)
    requires Cluster.Inv(s) && t < |s.ring| && (n == 0 || n in s.nodes)
    ensures Cluster.WithOwner(s, n, t) == WithRing(s, s.ring[t := n])
  {
    var u, v := Cluster.WithOwner(s, n, t), WithRing(s, s.ring[t := n]);
    assert u.nodes.Keys == s.nodes.Keys;
    forall m | m in s.nodes ensures u.nodes[m] == v.nodes[m] {
      assert s.nodes[m].tokens == TokensOf(s.ring, m);
    }
  }

  function Change(n: nat, item: Item, gained: bool): Delta {
    if gained then Gain(n, item) else Lose(n, item)
  }

  /** One delta for each of the items. */
  ghost predicate Enumerates(n: nat, deltas: seq<Delta>, items: set<Item>, gained: bool) {
    && NoRepeats(deltas)
    && (forall d :: d in deltas ==> (if gained then d.Gain? else d.Lose?) && d.node == n)
    && (if gained then LocalViews.Gains(deltas) == items else Losses(deltas) == items)
  }

  lemma EnumeratesOneMore(n: nat, deltas: seq<Delta>, items: set<Item>, gained: bool, item: Item)
    requires Enumerates(n, deltas, items, gained)
    ensures item !in items ==> Enumerates(n, deltas + [Change(n, item, gained)], items + {item}, gained)
  {
    var d := Change(n, item, gained);
    assert forall e :: e in deltas + [d] <==> e in deltas || e == d;
    if item !in items {
      assert d in deltas ==> item in Losses(deltas) + LocalViews.Gains(deltas);
      NoRepeatsTogether(deltas, [d]);
    }
  }

  lemma DiffOfChanges(n: nat, losses: seq<Delta>, gains: seq<Delta>, before: set<Item>, after: set<Item>)
    requires Enumerates(n, losses, before - after, false) && Enumerates(n, gains, after - before, true)
    ensures IsDiff(n, losses + gains, before, after)
  {
    assert forall d :: d in losses + gains <==> d in losses || d in gains;
    NoRepeatsTogether(losses, gains);
  }

  lemma OwnedOneMore(s: State, n: nat, i: nat, here: set<(nat, nat)>)
    requires i < |s.ring|
    requires here == set r: nat | r < s.replicationFactor && Owners(s.ring, i, s.replicationFactor)[r] == n :: (i, r)
    ensures OwnedUpTo(s, n, i + 1, 0) == OwnedUpTo(s, n, i, 0) + here
  {
  }
}
