/**
  What the commands of the replicated log do to the cluster state (cluster/controller.go).
  The partitioning strategy may pick any ring that `AssignTokens` may return.
 */
module ClusterCommands {
  import opened Wrappers
  import opened TokenRings
  import opened Partitioners
  import opened Ownership
  import opened ClusterStates

  datatype Command =
    | UpdateNode(node: nat, capacity: nat)
    | AddNode(node: nat, capacity: nat)
    | RemoveNode(node: nat, replacement: nat)
    | TakePartitionReplica(partition: nat, replica: nat, node: nat)
    | SetReplicationFactor(replicationFactor: nat)
    | SetPartitionCount(partitions: nat)
    | AddSite(site: string)
    | RemoveSite(site: string)
    | AddRelay(relay: string)
    | RemoveRelay(relay: string)
    | MoveRelay(relay: string, site: string)
    | Snapshot

  datatype StepError =
    | ECancelConfChange | EReplicaNumberInvalid | ENodeDoesNotOwnReplica | ENoSuchSite | ENoSuchRelay
    | EState(error: ClusterStates.Error)

  // ----- Rebalancing ----------------------------------------------------------------------

  ghost function Live(s: State): set<nat> {
    set n | n in s.nodes && s.nodes[n].capacity != 0
  }

  /** The member is among the first, as many as there are partitions: the others get no tokens. */
  ghost predicate Seated(s: State, n: nat) {
    n in s.nodes && |Smaller(s, n)| < s.partitions
  }

  ghost function Smaller(s: State, n: nat): set<nat> {
    set m | m in s.nodes && m < n
  }

  ghost function SeatedLive(s: State): set<nat> {
    set n | n in s.nodes && Seated(s, n) && s.nodes[n].capacity != 0
  }

  /** Every token is on a member that has no seat. */
  ghost predicate Unseated(s: State) {
    forall t :: 0 <= t < |s.ring| ==> s.ring[t] != 0 && !Seated(s, s.ring[t])
  }

  /** A ring the strategy may choose for the members of `s`. */
  ghost predicate RingFor(s: State, ring: Ring) {
    && |ring| == s.partitions && AllOrNothing(ring)
    && (forall t :: 0 <= t < |ring| ==> ring[t] == 0 || ring[t] in s.nodes)
    && (SeatedLive(s) == {} ==> forall t :: 0 <= t < |ring| ==> ring[t] == 0)
    && (forall t :: 0 <= t < |ring| && Seated(s, ring[t]) ==> s.nodes[ring[t]].capacity != 0)
    && (SeatedLive(s) != {} && Unseated(s) ==> ring == s.ring)
    && (|s.nodes| <= s.partitions && Live(s) != {} ==>
          && Spread(Live(s), ring)
          && (WithinCeiling(Live(s), s.ring) ==> WithinCeiling(Live(s), ring))
          && (Spread(Live(s), s.ring) ==> ring == s.ring))
  }

  ghost function WithRing(s: State, ring: Ring): State {
    s.(ring := ring, nodes := map n | n in s.nodes :: s.nodes[n].(tokens := TokensOf(ring, n)))
  }

  ghost predicate Rebalanced(s: State, t: State) {
    if !Initialized(s) then t == s else RingFor(s, t.ring) && t == WithRing(s, t.ring)
  }

  // ----- The commands ---------------------------------------------------------------------

  ghost function WithCapacity(s: State, n: nat, capacity: nat): State
    requires n in s.nodes
  {
    s.(nodes := s.nodes[n := s.nodes[n].(capacity := capacity)])
  }

  /** The replacement takes the capacity and the tokens of the node it replaces. */
  ghost function Handover(s: State, n: nat, replacement: nat): State
    requires n in s.nodes && replacement in s.nodes
  {
    WithRing(WithCapacity(s, replacement, s.nodes[n].capacity), Renamed(s.ring, n, replacement))
  }

  function Renamed(ring: Ring, n: nat, m: nat): (r: Ring)
    ensures |r| == |ring| && forall t :: 0 <= t < |r| ==> r[t] == if ring[t] == n then m else ring[t]
  {
    seq(|ring|, t requires 0 <= t < |ring| => if ring[t] == n then m else ring[t])
  }

  predicate RemovalIsCancelled(s: State, n: nat, replacement: nat) {
    || (replacement !in s.nodes && replacement != 0)
    || (replacement in s.nodes && |s.nodes[replacement].tokens| != 0)
    || replacement == n
  }

  ghost predicate NextUpdateNode(s: State, n: nat, capacity: nat, t: State) {
    if n !in s.nodes || s.nodes[n].capacity == capacity then t == s
    else Rebalanced(WithCapacity(s, n, capacity), t)
  }

  ghost predicate NextAddNode(s: State, n: nat, capacity: nat, t: State, error: Option<StepError>) {
    if n in s.nodes || n in s.removed then t == s && error == Some(ECancelConfChange)
    else Rebalanced(WithNode(s, NodeConfig(n, capacity, {}, {})), t) && error.None?
  }

  ghost predicate NextRemoveNode(s: State, n: nat, replacement: nat, t: State, error: Option<StepError>) {
    if RemovalIsCancelled(s, n, replacement) then t == s && error == Some(ECancelConfChange)
    else
      && error.None?
      && if n !in s.nodes then t == s
         else if replacement != 0 then t == WithoutNode(Handover(s, n, replacement), n)
         else Rebalanced(WithoutNode(s, n), t)
  }

  /** Only the owner of a partition replica can become its holder. */
  ghost predicate NextTake(s: State, p: nat, r: nat, n: nat, t: State, error: Option<StepError>) {
    var owners := Owners(s.ring, p, s.replicationFactor);
    if r >= |owners| then t == s && error == Some(EReplicaNumberInvalid)
    else if owners[r] != n then t == s && error == Some(ENodeDoesNotOwnReplica)
    else if n !in s.nodes then t == s && error == Some(EState(ENoSuchNode))
    else IsReplica(s, p, r) && t == WithHolder(s, p, r, n) && error.None?
  }

  ghost predicate NextSettings(s: State, t: State) {
    if Initialized(s) then Rebalanced(Fresh(s), t) else t == s
  }

  ghost predicate Next(s: State, command: Command, t: State, error: Option<StepError>) {
    match command
    case UpdateNode(n, capacity) => NextUpdateNode(s, n, capacity, t) && error.None?
    case AddNode(n, capacity) => NextAddNode(s, n, capacity, t, error)
    case RemoveNode(n, replacement) => NextRemoveNode(s, n, replacement, t, error)
    case TakePartitionReplica(p, r, n) => NextTake(s, p, r, n, t, error)
    case SetReplicationFactor(k) =>
      error.None? && if s.replicationFactor != 0 then t == s else NextSettings(s.(replicationFactor := k), t)
    case SetPartitionCount(k) =>
      error.None? && if s.partitions != 0 then t == s else NextSettings(s.(partitions := k), t)
    case AddSite(site) => t == s.(sites := s.sites + {site}) && error.None?
    case RemoveSite(site) => t == (if site in s.sites then WithoutSite(s, site) else s) && error.None?
    case AddRelay(relay) => t == (if relay in s.relays then s else s.(relays := s.relays[relay := ""])) && error.None?
    case RemoveRelay(relay) => t == s.(relays := s.relays - {relay}) && error.None?
    case MoveRelay(relay, site) =>
      && t == WithMovedRelay(s, relay, site)
      && error == if site !in s.sites && site != "" then Some(ENoSuchSite)
                  else if relay !in s.relays then Some(ENoSuchRelay) else None
    case Snapshot => t == s && error.None?
  }

  // ----- Every command keeps the invariant -------------------------------------------------

  ghost predicate Consistent(s: State) { Inv(s) && AllOrNothing(s.ring) }

  lemma WithRingKeepsInv(s: State, ring: Ring)
    requires Inv(s) && |ring| == |s.ring| && forall t :: 0 <= t < |ring| ==> ring[t] == 0 || ring[t] in s.nodes
    ensures Inv(WithRing(s, ring))
  {
    var u := WithRing(s, ring);
    SameHolders(s, u);
  }

  /** States that differ in tokens or capacities only have the same holders. */
  lemma SameHolders(s: State, t: State)
    requires HoldersAgree(s) && t.holders == s.holders && t.nodes.Keys == s.nodes.Keys
    requires forall n :: n in s.nodes ==> t.nodes[n].held == s.nodes[n].held
    ensures HoldersAgree(t)
  {
    forall n ensures HeldBy(t, n) == HeldBy(s, n) { }
    forall p: nat, r: nat | IsReplica(t, p, r) ensures HolderOf(t, p, r) == 0 || HolderOf(t, p, r) in t.nodes {
      assert IsReplica(s, p, r) && HolderOf(t, p, r) == HolderOf(s, p, r);
    }
  }

  lemma RebalancedKeepsInv(s: State, t: State)
    requires Inv(s) && Rebalanced(s, t) && (!Initialized(s) ==> AllOrNothing(s.ring))
    ensures Consistent(t)
  {
    if Initialized(s) { WithRingKeepsInv(s, t.ring); }
  }

  lemma WithCapacityKeepsInv(s: State, n: nat, capacity: nat)
    requires Inv(s) && n in s.nodes
    ensures Inv(WithCapacity(s, n, capacity))
  {
    SameHolders(s, WithCapacity(s, n, capacity));
  }

  lemma HandoverKeepsInv(s: State, n: nat, replacement: nat)
    requires Consistent(s) && n in s.nodes && replacement in s.nodes
    ensures Consistent(Handover(s, n, replacement))
  {
    WithCapacityKeepsInv(s, replacement, s.nodes[n].capacity);
    WithRingKeepsInv(WithCapacity(s, replacement, s.nodes[n].capacity), Renamed(s.ring, n, replacement));
  }

  lemma SettingsKeepInv(s: State, u: State, t: State)
    requires Consistent(s) && !Initialized(s) && NextSettings(u, t)
    requires u == s.(replicationFactor := u.replicationFactor, partitions := u.partitions)
    ensures Consistent(t)
  {
    var v := u.(replicationFactor := 0, partitions := 0);
    SameHolders(s, v);
    SameHolders(s, u);
    FreshKeepsInv(u);
    if Initialized(u) { RebalancedKeepsInv(Fresh(u), t); }
  }

  lemma RemovalKeepsInv(s: State, n: nat, replacement: nat, t: State, error: Option<StepError>)
    requires Consistent(s) && NextRemoveNode(s, n, replacement, t, error)
    ensures Consistent(t)
  {
    if !RemovalIsCancelled(s, n, replacement) && n in s.nodes {
      if replacement != 0 {
        HandoverKeepsInv(s, n, replacement);
        var u := Handover(s, n, replacement);
        WithoutNodeKeepsInv(u, n);
        NothingLeft(s, n, replacement);
      } else {
        WithoutNodeKeepsInv(s, n);
        if !Initialized(s) { assert t.ring == []; }
        RebalancedKeepsInv(WithoutNode(s, n), t);
      }
    }
  }

  /** After the handover the old node has no tokens, so removing it leaves the ring alone. */
  lemma NothingLeft(s: State, n: nat, replacement: nat)
    requires Inv(s) && n in s.nodes && replacement in s.nodes && n != replacement
    ensures WithoutNode(Handover(s, n, replacement), n).ring == Renamed(s.ring, n, replacement)
  {
    assert TokensOf(Renamed(s.ring, n, replacement), n) == {};
  }

  predicate IsRegistryCommand(command: Command) {
    command.AddSite? || command.RemoveSite? || command.AddRelay? || command.RemoveRelay? || command.MoveRelay?
  }

  /** Sites and relays are separate from the members. */
  lemma RegistryKeepsInv(s: State, command: Command, t: State, error: Option<StepError>)
    requires Consistent(s) && Next(s, command, t, error) && IsRegistryCommand(command)
    ensures Consistent(t) && t == s.(sites := t.sites, relays := t.relays)
  {
    assert t == s.(sites := t.sites, relays := t.relays);
    assert RelaysAgree(t);
    SameHolders(s, t);
  }

  lemma NextKeepsInv(s: State, command: Command, t: State, error: Option<StepError>)
    requires Consistent(s) && Next(s, command, t, error)
    ensures Consistent(t)
  {
    match command
    case UpdateNode(n, capacity) =>
      if n in s.nodes {
        WithCapacityKeepsInv(s, n, capacity);
        if s.nodes[n].capacity != capacity { RebalancedKeepsInv(WithCapacity(s, n, capacity), t); }
      }
    case AddNode(n, capacity) =>
      if n !in s.nodes && n !in s.removed {
        WithNodeKeepsInv(s, n, capacity);
        RebalancedKeepsInv(WithNode(s, NodeConfig(n, capacity, {}, {})), t);
      }
    case RemoveNode(n, replacement) => RemovalKeepsInv(s, n, replacement, t, error);
    case TakePartitionReplica(p, r, n) => if t != s { WithHolderKeepsInv(s, p, r, n); }
    case SetReplicationFactor(k) => if s.replicationFactor == 0 { SettingsKeepInv(s, s.(replicationFactor := k), t); }
    case SetPartitionCount(k) => if s.partitions == 0 { SettingsKeepInv(s, s.(partitions := k), t); }
    case AddSite(_) => RegistryKeepsInv(s, command, t, error);
    case RemoveSite(_) => RegistryKeepsInv(s, command, t, error);
    case AddRelay(_) => RegistryKeepsInv(s, command, t, error);
    case RemoveRelay(_) => RegistryKeepsInv(s, command, t, error);
    case MoveRelay(_, _) => RegistryKeepsInv(s, command, t, error);
    case Snapshot =>
  }

  // ----- Balance --------------------------------------------------------------------------

  /** No node has capacity and no token is assigned, or the tokens are spread over the live nodes. */
  ghost predicate Balanced(s: State) {
    Initialized(s) ==>
      if Live(s) == {} then forall t :: 0 <= t < |s.ring| ==> s.ring[t] == 0 else Spread(Live(s), s.ring)
  }

  /** The strategy can give every member a token. */
  ghost predicate Roomy(s: State) { Initialized(s) ==> |s.nodes| <= s.partitions }

  lemma NobodySeated(s: State)
    requires Live(s) == {}
    ensures SeatedLive(s) == {}
  {
  }

  lemma RebalancedIsBalanced(s: State, t: State)
    requires Rebalanced(s, t) && Roomy(t)
    ensures Balanced(t)
  {
    if Initialized(s) {
      if Live(s) == {} { NobodySeated(s); }
      assert t.nodes.Keys == s.nodes.Keys;
      assert Live(t) == Live(s);
    }
  }

  /** A live member of a balanced cluster has a token. */
  lemma LiveHasToken(s: State, n: nat)
    requires Inv(s) && Balanced(s) && Roomy(s) && Initialized(s) && n in Live(s)
    ensures s.nodes[n].tokens != {}
  {
    SizeOfSubset(Live(s), s.nodes.Keys);
    AtLeastOneEach(|s.ring|, |Live(s)|);
    CardinalityOfTokens(s.ring, n);
  }

  /** Renaming an owner keeps a ring spread when the new name is not in use. */
  lemma RenamedIsSpread(live: set<nat>, ring: Ring, n: nat, m: nat)
    requires Spread(live, ring) && n in live && m !in live
    ensures Spread(live - {n} + {m}, Renamed(ring, n, m))
  {
    var live', ring' := live - {n} + {m}, Renamed(ring, n, m);
    assert |live'| == |live|;
    forall x | x in live' ensures multiset(ring')[x] == multiset(ring)[if x == m then n else x] {
      assert TokensOf(ring', x) == TokensOf(ring, if x == m then n else x);
      CardinalityOfTokens(ring', x);
      CardinalityOfTokens(ring, if x == m then n else x);
    }
  }

  lemma LiveAfterHandover(s: State, n: nat, replacement: nat)
    requires n in s.nodes && replacement in s.nodes && replacement !in Live(s) && n != replacement
    ensures Live(WithoutNode(Handover(s, n, replacement), n)) ==
            if n in Live(s) then Live(s) - {n} + {replacement} else Live(s)
  {
    var t := WithoutNode(Handover(s, n, replacement), n);
    assert t.nodes.Keys == s.nodes.Keys - {n};
    forall m | m in t.nodes
      ensures t.nodes[m].capacity == s.nodes[if m == replacement then n else m].capacity
    {
    }
  }

  /** Removing a node in favour of a replacement needs no rebalancing. */
  lemma ReplacementKeepsBalance(s: State, n: nat, replacement: nat)
    requires Consistent(s) && Balanced(s) && Roomy(s) && n in s.nodes && replacement in s.nodes
    requires !RemovalIsCancelled(s, n, replacement)
    ensures Balanced(WithoutNode(Handover(s, n, replacement), n))
  {
    if Initialized(s) {
      NothingLeft(s, n, replacement);
      if replacement in Live(s) { LiveHasToken(s, replacement); }
      LiveAfterHandover(s, n, replacement);
      if n in Live(s) {
        RenamedIsSpread(Live(s), s.ring, n, replacement);
      } else {
        DeadOwnsNothing(s, n);
        assert Renamed(s.ring, n, replacement) == s.ring;
      }
    }
  }

  lemma DeadOwnsNothing(s: State, n: nat)
    requires Consistent(s) && Balanced(s) && Initialized(s) && n in s.nodes && n !in Live(s)
    ensures forall t :: 0 <= t < |s.ring| ==> s.ring[t] != n
  {
  }

  lemma MembershipKeepsBalance(s: State, command: Command, t: State, error: Option<StepError>)
    requires Consistent(s) && Balanced(s) && Roomy(s) && Next(s, command, t, error) && Roomy(t)
    requires command.UpdateNode? || command.AddNode? || command.RemoveNode?
    ensures Balanced(t)
  {
    match command
    case UpdateNode(n, capacity) =>
      if n in s.nodes && s.nodes[n].capacity != capacity { RebalancedIsBalanced(WithCapacity(s, n, capacity), t); }
    case AddNode(n, capacity) =>
      if n !in s.nodes && n !in s.removed { RebalancedIsBalanced(WithNode(s, NodeConfig(n, capacity, {}, {})), t); }
    case RemoveNode(n, replacement) =>
      if !RemovalIsCancelled(s, n, replacement) && n in s.nodes {
        if replacement != 0 { ReplacementKeepsBalance(s, n, replacement); }
        else { RebalancedIsBalanced(WithoutNode(s, n), t); }
      }
  }

  lemma SettingsKeepBalance(s: State, t: State)
    requires NextSettings(s, t) && Roomy(t)
    ensures Balanced(t)
  {
    if Initialized(s) { RebalancedIsBalanced(Fresh(s), t); }
  }

  lemma TakeKeepsBalance(s: State, p: nat, r: nat, n: nat, t: State, error: Option<StepError>)
    requires Balanced(s) && NextTake(s, p, r, n, t, error)
    ensures Balanced(t)
  {
    if t != s {
      assert t.nodes.Keys == s.nodes.Keys;
      SameLive(s, t);
    }
  }

  lemma RegistryKeepsBalance(s: State, command: Command, t: State, error: Option<StepError>)
    requires Consistent(s) && Balanced(s) && Next(s, command, t, error) && IsRegistryCommand(command)
    ensures Balanced(t)
  {
    RegistryKeepsInv(s, command, t, error);
    SameLive(s, t);
  }

  lemma NextKeepsBalance(s: State, command: Command, t: State, error: Option<StepError>)
    requires Consistent(s) && Balanced(s) && Roomy(s) && Next(s, command, t, error) && Roomy(t)
    ensures Balanced(t)
  {
    if IsRegistryCommand(command) {
      RegistryKeepsBalance(s, command, t, error);
    } else if command.UpdateNode? || command.AddNode? || command.RemoveNode? {
      MembershipKeepsBalance(s, command, t, error);
    } else {
      match command
      case SetReplicationFactor(k) =>
        if s.replicationFactor == 0 { SettingsKeepBalance(s.(replicationFactor := k), t); }
      case SetPartitionCount(k) => if s.partitions == 0 { SettingsKeepBalance(s.(partitions := k), t); }
      case TakePartitionReplica(p, r, n) => TakeKeepsBalance(s, p, r, n, t, error);
      case Snapshot =>
    }
  }

  lemma SameLive(s: State, t: State)
    requires Balanced(s) && t.nodes.Keys == s.nodes.Keys && t.ring == s.ring
    requires t.replicationFactor == s.replicationFactor && t.partitions == s.partitions
    requires forall n :: n in s.nodes ==> t.nodes[n].capacity == s.nodes[n].capacity
    ensures Balanced(t)
  {
    assert Live(t) == Live(s);
  }
}
