/**
  What each command of the replicated log does (cluster/controller.go), field by field: members,
  capacities, tokens, holders, sites and relays.
 */
module ClusterEffects {
  import opened Wrappers
  import opened TokenRings
  import opened Partitioners
  import opened Ownership
  import opened ClusterStates
  import opened ClusterCommands

  // ----- Effects ----------------------------------------------------------------------------

  /** The same members hold the same replicas. */
  ghost predicate SameMembers(s: State, t: State) {
    t.nodes.Keys == s.nodes.Keys && forall m :: m in s.nodes ==> t.nodes[m].held == s.nodes[m].held
  }

  /** Tokens may have moved between members, capacities may have changed; nothing else. */
  ghost predicate OnlyTokens(s: State, t: State) {
    SameMembers(s, t) && t == s.(nodes := t.nodes, ring := t.ring)
  }

  /**
    With at most as many members as partitions: no token is assigned when nobody has capacity, and
    otherwise each is on a member with capacity, of which each has the rounded down share and at
    most the remainder more.
   */
  ghost predicate TokensShared(t: State) {
    var live := set m | m in t.nodes && t.nodes[m].capacity != 0;
    && (forall m :: m in t.nodes ==> t.nodes[m].tokens == set i | 0 <= i < |t.ring| && t.ring[i] == m)
    && (live == {} ==> forall i :: 0 <= i < |t.ring| ==> t.ring[i] == 0)
    && (live != {} ==> forall i :: 0 <= i < |t.ring| ==> t.ring[i] in live)
    && (forall m :: m in live ==>
          t.partitions / |live| <= |t.nodes[m].tokens| <= t.partitions / |live| + t.partitions % |live|)
  }

  ghost predicate Shared(t: State) {
    t.replicationFactor != 0 && t.partitions != 0 && |t.nodes| <= t.partitions ==>
        |t.ring| == t.partitions && TokensShared(t)
  }

  /** The capacity of the member changes, and when it loses all of it, its tokens go elsewhere. */
  ghost predicate UpdatesNode(s: State, n: nat, capacity: nat, t: State) {
    if n !in s.nodes || s.nodes[n].capacity == capacity then t == s
    else
      && OnlyTokens(s, t) && t.nodes[n].capacity == capacity
      && (forall m :: m in s.nodes && m != n ==> t.nodes[m].capacity == s.nodes[m].capacity)
      && Shared(t)
      && (capacity == 0 && |set m | m in s.nodes && m < n| < s.partitions ==>
            forall i :: 0 <= i < |t.ring| ==> t.ring[i] != n)
  }

  /** A new member with the given capacity that holds nothing. */
  ghost predicate AddsNode(s: State, n: nat, capacity: nat, t: State, error: Option<StepError>) {
    if n in s.nodes || n in s.removed then t == s && error == Some(ECancelConfChange)
    else
      && error == None && t == s.(nodes := t.nodes, ring := t.ring) && Shared(t)
      && t.nodes.Keys == s.nodes.Keys + (if n == 0 then {} else {n})
      && (n != 0 ==> t.nodes[n].capacity == capacity && t.nodes[n].held == {})
      && forall m :: m in s.nodes ==>
           t.nodes[m].capacity == s.nodes[m].capacity && t.nodes[m].held == s.nodes[m].held
  }

  /** Nobody holds what the node held. */
  ghost predicate Freed(before: seq<seq<nat>>, n: nat, after: seq<seq<nat>>) {
    && |after| == |before| && (forall p :: 0 <= p < |before| ==> |after[p]| == |before[p]|)
    && forall p, r :: 0 <= p < |before| && 0 <= r < |before[p]| ==>
         after[p][r] == if before[p][r] == n then 0 else before[p][r]
  }

  /** The member goes and nobody holds its replicas; its tokens and its capacity go to the replacement, if any. */
  ghost predicate RemovesNode(s: State, n: nat, replacement: nat, t: State, error: Option<StepError>) {
    if (replacement != 0 && replacement !in s.nodes) || (replacement in s.nodes && s.nodes[replacement].tokens != {})
        || replacement == n then
      t == s && error == Some(ECancelConfChange)
    else if n !in s.nodes then t == s && error == None
    else
      && error == None && t == s.(nodes := t.nodes, ring := t.ring, holders := t.holders, removed := s.removed + {n})
      && t.nodes.Keys == s.nodes.Keys - {n}
      && (forall m :: m in t.nodes ==> t.nodes[m].held == s.nodes[m].held)
      && (forall m :: m in t.nodes ==>
            t.nodes[m].capacity == if m == replacement then s.nodes[n].capacity else s.nodes[m].capacity)
      && Freed(s.holders, n, t.holders)
      && (if replacement != 0 then
            |t.ring| == |s.ring| && forall i :: 0 <= i < |s.ring| ==>
              t.ring[i] == if s.ring[i] == n then replacement else s.ring[i]
          else Shared(t))
  }

  /** The owner of a partition replica becomes its holder; nothing else changes. */
  ghost predicate TakesReplica(s: State, p: nat, r: nat, n: nat, t: State, error: Option<StepError>) {
    var owners := Owners(s.ring, p, s.replicationFactor);
    if r >= |owners| then t == s && error == Some(EReplicaNumberInvalid)
    else if owners[r] != n then t == s && error == Some(ENodeDoesNotOwnReplica)
    else if n !in s.nodes then t == s && error == Some(EState(ENoSuchNode))
    else
      && error == None && t == s.(nodes := t.nodes, holders := t.holders) && t.nodes.Keys == s.nodes.Keys
      && (forall m :: m in s.nodes ==>
            t.nodes[m].capacity == s.nodes[m].capacity && t.nodes[m].tokens == s.nodes[m].tokens)
      && |t.holders| == |s.holders| && p < |s.holders| && r < |s.holders[p]|
      && (forall i :: 0 <= i < |s.holders| ==> |t.holders[i]| == |s.holders[i]|)
      && (forall i, j :: 0 <= i < |s.holders| && 0 <= j < |s.holders[i]| ==>
            t.holders[i][j] == if i == p && j == r then n else s.holders[i][j])
  }

  /** A setting has been made: with both of them there are a ring and holders, and nobody holds anything. */
  ghost predicate Settles(s: State, t: State) {
    && SameMembers(s, t) && (forall m :: m in s.nodes ==> t.nodes[m].capacity == s.nodes[m].capacity)
    && t.removed == s.removed && t.sites == s.sites && t.relays == s.relays
    && Shared(t)
    && (if t.replicationFactor == 0 || t.partitions == 0 then t.ring == s.ring && t.holders == s.holders
        else
          && |t.ring| == |t.holders| == t.partitions
          && (forall p :: 0 <= p < t.partitions ==> |t.holders[p]| == t.replicationFactor)
          && forall p, r :: 0 <= p < t.partitions && 0 <= r < t.replicationFactor ==> t.holders[p][r] == 0)
  }

  /** The sites and relays after a command about them; members and tokens stay. */
  ghost predicate ChangesRegistry(s: State, command: Command, t: State, error: Option<StepError>)
    requires IsRegistryCommand(command)
  {
    && t == s.(sites := t.sites, relays := t.relays)
    && match command
       case AddSite(site) => error == None && t.sites == s.sites + {site} && t.relays == s.relays
       case RemoveSite(site) =>
         && error == None && t.sites == s.sites - {site} && t.relays.Keys == s.relays.Keys
         && forall r :: r in s.relays ==>
              t.relays[r] == if site in s.sites && s.relays[r] == site then "" else s.relays[r]
       case AddRelay(relay) =>
         && error == None && t.sites == s.sites && t.relays.Keys == s.relays.Keys + {relay}
         && (forall r :: r in s.relays ==> t.relays[r] == s.relays[r])
         && (relay !in s.relays ==> t.relays[relay] == "")
       case RemoveRelay(relay) =>
         && error == None && t.sites == s.sites && t.relays.Keys == s.relays.Keys - {relay}
         && forall r :: r in t.relays ==> t.relays[r] == s.relays[r]
       case MoveRelay(relay, site) =>
         && t.sites == s.sites && t.relays.Keys == s.relays.Keys
         && (site != "" && site !in s.sites ==> error == Some(ENoSuchSite) && t.relays == s.relays)
         && ((site == "" || site in s.sites) && relay !in s.relays ==>
             error == Some(ENoSuchRelay) && t.relays == s.relays)
         && ((site == "" || site in s.sites) && relay in s.relays ==>
               && error == None && t.relays[relay] == site
               && forall r :: r in s.relays && r != relay ==> t.relays[r] == s.relays[r])
  }

  /** What the command does to the state. */
  ghost predicate HasEffect(s: State, command: Command, t: State, error: Option<StepError>) {
    match command
    case UpdateNode(n, capacity) => UpdatesNode(s, n, capacity, t) && error == None
    case AddNode(n, capacity) => AddsNode(s, n, capacity, t, error)
    case RemoveNode(n, replacement) => RemovesNode(s, n, replacement, t, error)
    case TakePartitionReplica(p, r, n) => TakesReplica(s, p, r, n, t, error)
    case SetReplicationFactor(k) =>
      && error == None && if s.replicationFactor != 0 then t == s
                          else t.replicationFactor == k && t.partitions == s.partitions && Settles(s, t)
    case SetPartitionCount(k) =>
      && error == None && if s.partitions != 0 then t == s
                          else t.partitions == k && t.replicationFactor == s.replicationFactor && Settles(s, t)
    case Snapshot => t == s && error == None
    case _ => ChangesRegistry(s, command, t, error)
  }

  // ----- Every command has its effect --------------------------------------------------------

  /** A redistribution shares the tokens. */
  lemma RebalancedIsShared(s: State, t: State)
    requires Inv(s) && Rebalanced(s, t)
    ensures OnlyTokens(s, t) && Shared(t)
    ensures forall m :: m in s.nodes ==> t.nodes[m].capacity == s.nodes[m].capacity
  {
    if Initialized(s) {
      assert t.nodes.Keys == s.nodes.Keys;
      if |t.nodes| <= t.partitions { RingIsShared(s, t); }
    }
  }

  lemma RingIsShared(s: State, t: State)
    requires Inv(s) && Initialized(s) && Rebalanced(s, t) && |s.nodes| <= s.partitions && t.nodes.Keys == s.nodes.Keys
    ensures TokensShared(t)
  {
    var live := set m | m in t.nodes && t.nodes[m].capacity != 0;
    assert live == Live(s);
    if live == {} {
      NobodySeated(s);
    } else {
      forall m | m in live ensures |t.nodes[m].tokens| == multiset(t.ring)[m] { CardinalityOfTokens(t.ring, m); }
    }
  }

  lemma UpdateHasEffect(s: State, n: nat, capacity: nat, t: State)
    requires Consistent(s) && NextUpdateNode(s, n, capacity, t)
    ensures UpdatesNode(s, n, capacity, t)
  {
    if n in s.nodes && s.nodes[n].capacity != capacity {
      var u := WithCapacity(s, n, capacity);
      assert u.nodes.Keys == s.nodes.Keys;
      WithCapacityKeepsInv(s, n, capacity);
      RebalancedIsShared(u, t);
      if Initialized(u) && |set m | m in s.nodes && m < n| < s.partitions {
        assert Smaller(u, n) == set m | m in s.nodes && m < n;
        assert Seated(u, n);
      }
    }
  }

  lemma AddHasEffect(s: State, n: nat, capacity: nat, t: State, error: Option<StepError>)
    requires Consistent(s) && NextAddNode(s, n, capacity, t, error)
    ensures AddsNode(s, n, capacity, t, error)
  {
    if n !in s.nodes && n !in s.removed {
      var u := WithNode(s, NodeConfig(n, capacity, {}, {}));
      WithNodeKeepsInv(s, n, capacity);
      RebalancedIsShared(u, t);
      AddedThenShared(s, u, n, capacity, t);
    }
  }

  lemma AddedThenShared(s: State, u: State, n: nat, capacity: nat, t: State)
    requires n !in s.nodes && u == WithNode(s, NodeConfig(n, capacity, {}, {}))
    requires OnlyTokens(u, t) && forall m :: m in u.nodes ==> t.nodes[m].capacity == u.nodes[m].capacity
    ensures t == s.(nodes := t.nodes, ring := t.ring) && t.nodes.Keys == s.nodes.Keys + (if n == 0 then {} else {n})
    ensures n != 0 ==> t.nodes[n].capacity == capacity && t.nodes[n].held == {}
    ensures forall m :: m in s.nodes ==>
              t.nodes[m].capacity == s.nodes[m].capacity && t.nodes[m].held == s.nodes[m].held
  {
    assert u.nodes.Keys == s.nodes.Keys + (if n == 0 then {} else {n});
    assert forall m :: m in s.nodes ==> u.nodes[m] == s.nodes[m];
  }

  lemma HeldIsFreed(s: State, n: nat, holders: seq<seq<nat>>)
    requires HoldersAgree(s) && n in s.nodes && holders == WithoutHeld(s.holders, s.nodes[n].held)
    ensures Freed(s.holders, n, holders)
  {
    forall p: nat, r: nat | p < |s.holders| && r < |s.holders[p]|
      ensures (p, r) in s.nodes[n].held <==> s.holders[p][r] == n
    {
      assert s.nodes[n].held == HeldBy(s, n);
    }
  }

  lemma RemoveHasEffect(s: State, n: nat, replacement: nat, t: State, error: Option<StepError>)
    requires Consistent(s) && NextRemoveNode(s, n, replacement, t, error)
    ensures RemovesNode(s, n, replacement, t, error)
  {
    if !RemovalIsCancelled(s, n, replacement) && n in s.nodes {
      if replacement != 0 {
        HandedOverHasEffect(s, n, replacement, t);
      } else {
        WithoutNodeKeepsInv(s, n);
        RebalancedIsShared(WithoutNode(s, n), t);
        RemovedThenShared(s, WithoutNode(s, n), n, t);
      }
    }
  }

  lemma RemovedThenShared(s: State, u: State, n: nat, t: State)
    requires Consistent(s) && n in s.nodes && u == WithoutNode(s, n)
    requires OnlyTokens(u, t) && forall m :: m in u.nodes ==> t.nodes[m].capacity == u.nodes[m].capacity
    ensures t == s.(nodes := t.nodes, ring := t.ring, holders := t.holders, removed := s.removed + {n})
    ensures t.nodes.Keys == s.nodes.Keys - {n} && Freed(s.holders, n, t.holders)
    ensures forall m :: m in t.nodes ==>
              t.nodes[m].capacity == s.nodes[m].capacity && t.nodes[m].held == s.nodes[m].held
  {
    HeldIsFreed(s, n, WithoutHeld(s.holders, s.nodes[n].held));
    assert u.nodes.Keys == s.nodes.Keys - {n} && forall m :: m in u.nodes ==> u.nodes[m] == s.nodes[m];
  }

  lemma HandedOverHasEffect(s: State, n: nat, replacement: nat, t: State)
    requires Consistent(s) && n in s.nodes && replacement in s.nodes && n != replacement
    requires t == WithoutNode(Handover(s, n, replacement), n)
    ensures t == s.(nodes := t.nodes, ring := t.ring, holders := t.holders, removed := s.removed + {n})
    ensures t.nodes.Keys == s.nodes.Keys - {n} && Freed(s.holders, n, t.holders)
    ensures forall m :: m in t.nodes ==> t.nodes[m].held == s.nodes[m].held
    ensures forall m :: m in t.nodes ==>
              t.nodes[m].capacity == if m == replacement then s.nodes[n].capacity else s.nodes[m].capacity
    ensures |t.ring| == |s.ring| && forall i :: 0 <= i < |s.ring| ==>
              t.ring[i] == if s.ring[i] == n then replacement else s.ring[i]
  {
    var u := Handover(s, n, replacement);
    NothingLeft(s, n, replacement);
    HeldIsFreed(s, n, WithoutHeld(s.holders, s.nodes[n].held));
    HandoverMoves(s, n, replacement, u);
    assert t == u.(nodes := u.nodes - {n}, ring := t.ring, holders := t.holders, removed := u.removed + {n});
  }

  lemma HandoverMoves(s: State, n: nat, replacement: nat, u: State)
    requires n in s.nodes && replacement in s.nodes && u == Handover(s, n, replacement)
    ensures u == s.(nodes := u.nodes, ring := u.ring) && u.nodes.Keys == s.nodes.Keys
    ensures forall m :: m in s.nodes ==> u.nodes[m].held == s.nodes[m].held
    ensures forall m :: m in s.nodes ==>
              u.nodes[m].capacity == if m == replacement then s.nodes[n].capacity else s.nodes[m].capacity
  {
  }

  lemma TakeHasEffect(s: State, p: nat, r: nat, n: nat, t: State, error: Option<StepError>)
    requires Consistent(s) && NextTake(s, p, r, n, t, error)
    ensures TakesReplica(s, p, r, n, t, error)
  {
    if IsReplica(s, p, r) && t == WithHolder(s, p, r, n) {
      var row: seq<nat> := s.holders[p][r := n];
      assert t.holders == s.holders[p := row];
    }
  }

  lemma SettingHasEffect(s: State, u: State, t: State)
    requires Consistent(s) && !Initialized(s) && NextSettings(u, t)
    requires u == s.(replicationFactor := u.replicationFactor, partitions := u.partitions)
    ensures Settles(s, t) && t.replicationFactor == u.replicationFactor && t.partitions == u.partitions
  {
    if Initialized(u) {
      var v := u.(replicationFactor := 0, partitions := 0);
      SameHolders(s, v);
      FreshKeepsInv(u);
      RebalancedIsShared(Fresh(u), t);
    }
  }

  lemma RegistryHasEffect(s: State, command: Command, t: State, error: Option<StepError>)
    requires Consistent(s) && IsRegistryCommand(command) && Next(s, command, t, error)
    ensures ChangesRegistry(s, command, t, error)
  {
    RegistryKeepsInv(s, command, t, error);
  }

  /** Every command has the effect described above. */
  lemma NextHasEffect(s: State, command: Command, t: State, error: Option<StepError>)
    requires Consistent(s) && Next(s, command, t, error)
    ensures HasEffect(s, command, t, error)
  {
    match command
    case UpdateNode(n, capacity) => UpdateHasEffect(s, n, capacity, t);
    case AddNode(n, capacity) => AddHasEffect(s, n, capacity, t, error);
    case RemoveNode(n, replacement) => RemoveHasEffect(s, n, replacement, t, error);
    case TakePartitionReplica(p, r, n) => TakeHasEffect(s, p, r, n, t, error);
    case SetReplicationFactor(k) => if s.replicationFactor == 0 { SettingHasEffect(s, s.(replicationFactor := k), t); }
    case SetPartitionCount(k) => if s.partitions == 0 { SettingHasEffect(s, s.(partitions := k), t); }
    case Snapshot =>
    case _ => RegistryHasEffect(s, command, t, error);
  }
}
