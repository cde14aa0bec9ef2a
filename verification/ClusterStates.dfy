/**
  The replicated state of the cluster (cluster/state.go): members, the token ring, the
  holders of partition replicas, sites and relays.
 */
module ClusterStates {
  import opened Wrappers
  import opened TokenRings

  datatype Error = ENoSuchPartition | ENoSuchToken | ENoSuchReplica | ENoSuchNode

  /** `holders[p][r]` is the node that holds replica `r` of partition `p`, 0 for nobody. */
  datatype State = State(
    removed: set<nat>,
    nodes: map<nat, NodeConfig>,
    ring: Ring,
    holders: seq<seq<nat>>,
    replicationFactor: nat,
    partitions: nat,
    sites: set<string>,
    relays: map<string, string>)

  const NEW_CLUSTER := State({}, map[], [], [], 0, 0, {}, map[])

  predicate Initialized(s: State) { s.replicationFactor != 0 && s.partitions != 0 }

  // ----- What the operations compute ------------------------------------------------------

  predicate IsReplica(s: State, p: nat, r: nat) { p < |s.holders| && r < |s.holders[p]| }

  function HolderOf(s: State, p: nat, r: nat): nat
    requires IsReplica(s, p, r)
  {
    s.holders[p][r]
  }

  ghost function HeldBy(s: State, n: nat): set<(nat, nat)> {
    set p: nat, r: nat | p < |s.holders| && r < |s.holders[p]| && s.holders[p][r] == n :: (p, r)
  }

  ghost function WithNode(s: State, c: NodeConfig): State {
    if c.id == 0 || c.id in s.nodes then s else s.(nodes := s.nodes[c.id := c])
  }

  ghost function WithoutTokens(ring: Ring, tokens: set<nat>): Ring {
    seq(|ring|, t requires 0 <= t < |ring| => if t in tokens then 0 else ring[t])
  }

  ghost function WithoutHeld(holders: seq<seq<nat>>, held: set<(nat, nat)>): seq<seq<nat>> {
    seq(|holders|, p requires 0 <= p < |holders| =>
      seq(|holders[p]|, r requires 0 <= r < |holders[p]| => if (p, r) in held then 0 else holders[p][r]))
  }

  ghost function WithoutNode(s: State, n: nat): State {
    if n !in s.nodes then s
    else s.(nodes := s.nodes - {n},
            removed := s.removed + {n},
            ring := WithoutTokens(s.ring, s.nodes[n].tokens),
            holders := WithoutHeld(s.holders, s.nodes[n].held))
  }

  /** The node of a token changed on both sides. */
  ghost function WithOwner(s: State, n: nat, t: nat): State
    requires t < |s.ring|
  {
    var lost := if s.ring[t] in s.nodes then
                  s.nodes[s.ring[t] := s.nodes[s.ring[t]].(tokens := s.nodes[s.ring[t]].tokens - {t})]
                else s.nodes;
    s.(ring := s.ring[t := n],
       nodes := if n in lost then lost[n := lost[n].(tokens := lost[n].tokens + {t})] else lost)
  }

  /** The holder of a partition replica changed on both sides. */
  ghost function WithHolder(s: State, p: nat, r: nat, n: nat): State
    requires IsReplica(s, p, r)
  {
    var holder := s.holders[p][r];
    var lost := if holder in s.nodes then s.nodes[holder := s.nodes[holder].(held := s.nodes[holder].held - {(p, r)})]
        else s.nodes;
    var row: seq<nat> := s.holders[p][r := n];
    s.(holders := s.holders[p := row],
       nodes := if n in lost then lost[n := lost[n].(held := lost[n].held + {(p, r)})] else lost)
  }

  /** Tokens or replicas that belong to nobody. */
  function Nobody(count: nat): seq<nat> {
    seq(count, _ => 0)
  }

  ghost function Fresh(s: State): State {
    if !Initialized(s) then s
    else s.(ring := Nobody(s.partitions),
            holders := seq(s.partitions, _ => Nobody(s.replicationFactor)))
  }

  ghost function WithoutSite(s: State, site: string): State {
    s.(sites := s.sites - {site},
       relays := map relay | relay in s.relays :: if s.relays[relay] == site then "" else s.relays[relay])
  }

  ghost function WithMovedRelay(s: State, relay: string, site: string): State {
    if relay in s.relays && (site in s.sites || site == "") then s.(relays := s.relays[relay := site]) else s
  }

  // ----- The invariant --------------------------------------------------------------------

  /** Members know their id, it is not 0 and was not removed before. */
  ghost predicate MembersAgree(s: State) {
    0 !in s.removed && forall n :: n in s.nodes ==> n != 0 && n !in s.removed && s.nodes[n].id == n
  }

  /** A token is listed by exactly the member the ring names. */
  ghost predicate TokensAgree(s: State) {
    && (forall t :: 0 <= t < |s.ring| ==> s.ring[t] == 0 || s.ring[t] in s.nodes)
    && (forall n :: n in s.nodes ==> s.nodes[n].tokens == TokensOf(s.ring, n))
  }

  /** A partition replica is listed by exactly the member that holds it. */
  ghost predicate HoldersAgree(s: State) {
    && (forall p, r :: IsReplica(s, p, r) ==> HolderOf(s, p, r) == 0 || HolderOf(s, p, r) in s.nodes)
    && (forall n :: n in s.nodes ==> s.nodes[n].held == HeldBy(s, n))
  }

  ghost predicate Shaped(s: State) {
    if Initialized(s) then
      && |s.ring| == s.partitions && |s.holders| == s.partitions
      && (forall p :: 0 <= p < |s.holders| ==> |s.holders[p]| == s.replicationFactor)
    else s.ring == [] && s.holders == []
  }

  ghost predicate RelaysAgree(s: State) {
    forall relay :: relay in s.relays ==> s.relays[relay] == "" || s.relays[relay] in s.sites
  }

  ghost predicate Inv(s: State) {
    MembersAgree(s) && TokensAgree(s) && HoldersAgree(s) && Shaped(s) && RelaysAgree(s)
  }

  // ----- Every operation keeps it ---------------------------------------------------------

  lemma WithNodeKeepsInv(s: State, id: nat, capacity: nat)
    requires Inv(s) && id !in s.removed
    ensures Inv(WithNode(s, NodeConfig(id, capacity, {}, {})))
  {
    var t := WithNode(s, NodeConfig(id, capacity, {}, {}));
    if id != 0 && id !in s.nodes {
      forall i | 0 <= i < |s.ring| ensures s.ring[i] != id { }
      assert TokensOf(t.ring, id) == {};
      assert HeldBy(t, id) == {} by {
        forall p: nat, r: nat | IsReplica(s, p, r) ensures s.holders[p][r] != id { assert HolderOf(s, p, r) != id; }
      }
      forall n | n in s.nodes ensures HeldBy(t, n) == HeldBy(s, n) { }
    }
    forall p: nat, r: nat | IsReplica(t, p, r) ensures HolderOf(t, p, r) == 0 || HolderOf(t, p, r) in t.nodes {
      assert IsReplica(s, p, r) && HolderOf(s, p, r) == HolderOf(t, p, r);
    }
  }

  lemma WithoutNodeKeepsTokens(s: State, n: nat)
    requires Inv(s)
    ensures TokensAgree(WithoutNode(s, n))
  {
    if n in s.nodes {
      var t := WithoutNode(s, n);
      forall m | m in t.nodes ensures t.nodes[m].tokens == TokensOf(t.ring, m) {
        assert s.nodes[n].tokens == TokensOf(s.ring, n) && s.nodes[m].tokens == TokensOf(s.ring, m);
      }
    }
  }

  lemma WithoutNodeKeepsHolders(s: State, n: nat)
    requires Inv(s)
    ensures HoldersAgree(WithoutNode(s, n))
  {
    if n in s.nodes {
      var t := WithoutNode(s, n);
      forall p: nat, r: nat | IsReplica(t, p, r)
        ensures IsReplica(s, p, r) && HolderOf(t, p, r) == if HolderOf(s, p, r) == n then 0 else HolderOf(s, p, r)
      {
        assert IsReplica(s, p, r);
        assert (p, r) in HeldBy(s, n) <==> HolderOf(s, p, r) == n;
      }
      forall m | m in t.nodes ensures t.nodes[m].held == HeldBy(t, m) {
        assert s.nodes[m].held == HeldBy(s, m);
        forall p: nat, r: nat ensures (p, r) in HeldBy(t, m) <==> (p, r) in HeldBy(s, m) {
          assert IsReplica(t, p, r) <==> IsReplica(s, p, r);
          if IsReplica(t, p, r) { assert HolderOf(t, p, r) == m <==> HolderOf(s, p, r) == m; }
        }
      }
    }
  }

  lemma WithoutNodeKeepsInv(s: State, n: nat)
    requires Inv(s)
    ensures Inv(WithoutNode(s, n))
  {
    WithoutNodeKeepsTokens(s, n);
    WithoutNodeKeepsHolders(s, n);
  }

  lemma WithOwnerKeepsInv(s: State, n: nat, t: nat)
    requires Inv(s) && t < |s.ring| && (n == 0 || n in s.nodes)
    ensures Inv(WithOwner(s, n, t))
  {
    var u := WithOwner(s, n, t);
    assert u.nodes.Keys == s.nodes.Keys;
    forall m | m in u.nodes
      ensures u.nodes[m].id == m && u.nodes[m].tokens == TokensOf(u.ring, m) && u.nodes[m].held == HeldBy(u, m)
    {
      assert s.nodes[m].tokens == TokensOf(s.ring, m) && s.nodes[m].held == HeldBy(s, m);
      assert HeldBy(u, m) == HeldBy(s, m);
    }
    forall p: nat, r: nat | IsReplica(u, p, r) ensures HolderOf(u, p, r) == 0 || HolderOf(u, p, r) in u.nodes {
      assert IsReplica(s, p, r) && HolderOf(s, p, r) == HolderOf(u, p, r);
    }
  }

  lemma WithHolderKeepsInv(s: State, p: nat, r: nat, n: nat)
    requires Inv(s) && IsReplica(s, p, r) && n in s.nodes
    ensures Inv(WithHolder(s, p, r, n))
  {
    var u := WithHolder(s, p, r, n);
    assert u.nodes.Keys == s.nodes.Keys;
    forall i: nat, j: nat | IsReplica(u, i, j)
      ensures IsReplica(s, i, j) && HolderOf(u, i, j) == if (i, j) == (p, r) then n else HolderOf(s, i, j)
    {
      assert IsReplica(s, i, j);
    }
    forall m | m in u.nodes
      ensures u.nodes[m].id == m && u.nodes[m].tokens == TokensOf(u.ring, m) && u.nodes[m].held == HeldBy(u, m)
    {
      assert s.nodes[m].tokens == TokensOf(s.ring, m) && s.nodes[m].held == HeldBy(s, m);
      HeldAfterMove(s, p, r, n, m);
    }
  }

  lemma HeldAfterMove(s: State, p: nat, r: nat, n: nat, m: nat)
    requires IsReplica(s, p, r)
    ensures HeldBy(WithHolder(s, p, r, n), m) ==
            (HeldBy(s, m) - {(p, r)}) + (if m == n then {(p, r)} else {})
  {
    var u := WithHolder(s, p, r, n);
    forall i: nat, j: nat
      ensures (i, j) in HeldBy(u, m) <==> (i, j) in (HeldBy(s, m) - {(p, r)}) + (if m == n then {(p, r)} else {})
    {
      assert IsReplica(u, i, j) <==> IsReplica(s, i, j);
    }
  }

  lemma FreshKeepsInv(s: State)
    requires Inv(s.(replicationFactor := 0, partitions := 0)) && s.ring == [] && s.holders == []
    ensures Inv(Fresh(s))
  {
    var t := Fresh(s);
    if Initialized(s) {
      forall n | n in t.nodes ensures t.nodes[n].tokens == TokensOf(t.ring, n) && t.nodes[n].held == HeldBy(t, n) {
        assert TokensOf(s.ring, n) == {} && HeldBy(s, n) == {};
      }
    }
  }

  lemma WithoutSiteKeepsInv(s: State, site: string)
    requires Inv(s)
    ensures Inv(WithoutSite(s, site))
  {
    var t := WithoutSite(s, site);
    forall n | n in t.nodes ensures HeldBy(t, n) == HeldBy(s, n) { }
    forall p: nat, r: nat | IsReplica(t, p, r) ensures HolderOf(t, p, r) == 0 || HolderOf(t, p, r) in t.nodes {
      assert IsReplica(s, p, r) && HolderOf(s, p, r) == HolderOf(t, p, r);
    }
  }

  // ----- The object -----------------------------------------------------------------------

  class ClusterState {
    var removedNodes: set<nat>
    var nodes: map<nat, NodeConfig>
    var tokens: Ring
    var partitions: seq<seq<nat>>
    var replicationFactor: nat
    var partitionCount: nat
    var sites: set<string>
    var relays: map<string, string>

    constructor ()
      ensures View() == NEW_CLUSTER
    {
      removedNodes, nodes, tokens, partitions := {}, map[], [], [];
      replicationFactor, partitionCount, sites, relays := 0, 0, {}, map[];
    }

    ghost function View(): State
      reads this
    {
      State(removedNodes, nodes, tokens, partitions, replicationFactor, partitionCount, sites, relays)
    }

    predicate SiteExists(site: string)
      reads this
    {
      site in sites
    }

    method AddSite(site: string)
      modifies this
      ensures View() == old(View()).(sites := old(sites) + {site})
    {
      sites := sites + {site};
    }

    method RemoveSite(site: string)
      modifies this
      ensures View() == WithoutSite(old(View()), site)
    {
      var todo := relays.Keys;
      while todo != {}
        invariant todo <= relays.Keys == old(relays).Keys
        invariant forall relay :: relay in relays ==>
          relays[relay] == if relay !in todo && old(relays)[relay] == site then "" else old(relays)[relay]
        invariant View() == old(View()).(relays := relays)
        decreases todo
      {
        var relay :| relay in todo;
        todo := todo - {relay};
        if site == relays[relay] {
          relays := relays[relay := ""];
        }
      }
      sites := sites - {site};
    }

    method AddRelay(relay: string)
      modifies this
      ensures View() == old(View()).(relays := old(relays)[relay := ""])
    {
      relays := relays[relay := ""];
    }

    method RemoveRelay(relay: string)
      modifies this
      ensures View() == old(View()).(relays := old(relays) - {relay})
    {
      relays := relays - {relay};
    }

    method MoveRelay(relay: string, site: string)
      modifies this
      ensures View() == WithMovedRelay(old(View()), relay, site)
    {
      if relay !in relays {
        return;
      }
      if site !in sites && site != "" {
        return;
      }
      relays := relays[relay := site];
    }

    method AddNode(nodeConfig: NodeConfig)
      modifies this
      ensures View() == WithNode(old(View()), nodeConfig)
    {
      if nodeConfig.id == 0 {
        return;
      }
      if nodeConfig.id in nodes {
        return;
      }
      nodes := nodes[nodeConfig.id := nodeConfig];
    }

    /** The loop over the held replicas of a node that leaves. */
    method RelinquishReplicas(node: nat)
      requires node in nodes && forall p, r :: (p, r) in nodes[node].held ==> IsReplica(View(), p, r)
      modifies this
      ensures View() == old(View()).(
                nodes := old(nodes)[node := old(nodes)[node].(held := {})],
                holders := WithoutHeld(old(partitions), old(nodes)[node].held))
    {
      ghost var held := nodes[node].held;
      NothingReleased(partitions);
      assert held - nodes[node].held == {};
      while nodes[node].held != {}
        invariant node in nodes && nodes[node].held <= held
        invariant nodes == old(nodes)[node := old(nodes)[node].(held := nodes[node].held)]
        invariant partitions == WithoutHeld(old(partitions), held - nodes[node].held)
        invariant View() == old(View()).(nodes := nodes, holders := partitions)
        decreases nodes[node].held
      {
        var replica: (nat, nat) :| replica in nodes[node].held;
        assert IsReplica(old(View()), replica.0, replica.1);
        OneMoreReleased(old(partitions), held - nodes[node].held, replica.0, replica.1);
        assert held - (nodes[node].held - {replica}) == held - nodes[node].held + {replica};
        nodes := nodes[node := nodes[node].(held := nodes[node].held - {replica})];
        var row: seq<nat> := partitions[replica.0][replica.1 := 0];
        partitions := partitions[replica.0 := row];
      }
      assert held - {} == held;
    }

    /** The loop over the tokens of a node that leaves. */
    method RelinquishTokens(node: nat)
      requires node in nodes && forall t :: t in nodes[node].tokens ==> t < |tokens|
      modifies this
      ensures View() == old(View()).(
                nodes := old(nodes)[node := old(nodes)[node].(tokens := {})],
                ring := WithoutTokens(old(tokens), old(nodes)[node].tokens))
    {
      ghost var owned := nodes[node].tokens;
      assert tokens == WithoutTokens(tokens, {});
      while nodes[node].tokens != {}
        invariant node in nodes && nodes[node].tokens <= owned
        invariant nodes == old(nodes)[node := old(nodes)[node].(tokens := nodes[node].tokens)]
        invariant tokens == WithoutTokens(old(tokens), owned - nodes[node].tokens)
        invariant View() == old(View()).(nodes := nodes, ring := tokens)
        decreases nodes[node].tokens
      {
        var token :| token in nodes[node].tokens;
        assert owned - (nodes[node].tokens - {token}) == owned - nodes[node].tokens + {token};
        nodes := nodes[node := nodes[node].(tokens := nodes[node].tokens - {token})];
        tokens := tokens[token := 0];
      }
      assert owned - {} == owned;
    }

    method RemoveNode(node: nat)
      requires Inv(View())
      modifies this
      ensures View() == WithoutNode(old(View()), node)
    {
      if node !in nodes {
        return;
      }
      RelinquishReplicas(node);
      RelinquishTokens(node);
      nodes := nodes - {node};
      removedNodes := removedNodes + {node};
      assert nodes == old(nodes) - {node};
    }

    /** Changes the owner of a token. */
    method AssignToken(node: nat, token: nat) returns (error: Option<Error>)
      requires Inv(View())
      modifies this
      ensures error == if token >= |old(tokens)| then Some(ENoSuchToken)
                       else if node !in old(nodes) && node != 0 then Some(ENoSuchNode) else None
      ensures View() == if error.None? then WithOwner(old(View()), node, token) else old(View())
    {
      if token >= |tokens| {
        return Some(ENoSuchToken);
      }
      if node !in nodes && node != 0 {
        return Some(ENoSuchNode);
      }
      var currentOwner := tokens[token];
      if currentOwner != 0 {
        nodes := nodes[currentOwner := nodes[currentOwner].(tokens := nodes[currentOwner].tokens - {token})];
      }
      tokens := tokens[token := node];
      if node != 0 {
        nodes := nodes[node := nodes[node].(tokens := nodes[node].tokens + {token})];
      }
      return None;
    }

    /** Changes the holder of a partition replica. */
    method AssignPartitionReplica(partition: nat, replica: nat, node: nat) returns (error: Option<Error>)
      requires Inv(View())
      modifies this
      ensures error == if partition >= |old(partitions)| then Some(ENoSuchPartition)
                       else if node !in old(nodes) then Some(ENoSuchNode)
                       else if replica >= |old(partitions)[partition]| then Some(ENoSuchReplica) else None
      ensures View() == if error.None? then WithHolder(old(View()), partition, replica, node) else old(View())
    {
      if partition >= |partitions| {
        return Some(ENoSuchPartition);
      }
      if node !in nodes {
        return Some(ENoSuchNode);
      }
      if replica >= |partitions[partition]| {
        return Some(ENoSuchReplica);
      }
      var currentHolder := partitions[partition][replica];
      assert IsReplica(View(), partition, replica) && currentHolder == HolderOf(View(), partition, replica);
      if currentHolder != 0 {
        nodes := nodes[currentHolder :=
            nodes[currentHolder].(held := nodes[currentHolder].held - {(partition, replica)})];
      }
      var row: seq<nat> := partitions[partition][replica := node];
      partitions := partitions[partition := row];
      nodes := nodes[node := nodes[node].(held := nodes[node].held + {(partition, replica)})];
      return None;
    }

    method Initialize()
      modifies this
      ensures View() == Fresh(old(View()))
    {
      if replicationFactor == 0 || partitionCount == 0 {
        return;
      }
      tokens := Nobody(partitionCount);
      partitions := [];
      for partition := 0 to partitionCount
        invariant |partitions| == partition && tokens == Nobody(partitionCount)
        invariant forall p :: 0 <= p < partition ==> partitions[p] == Nobody(replicationFactor)
        invariant View() == old(View()).(ring := tokens, holders := partitions)
      {
        var row: seq<nat> := [];
        for replica := 0 to replicationFactor
          invariant |row| == replica && forall r :: 0 <= r < replica ==> row[r] == 0
        {
          row := row + [0];
        }
        assert row == Nobody(replicationFactor);
        partitions := partitions + [row];
      }
      assert tokens == Fresh(old(View())).ring && partitions == Fresh(old(View())).holders;
    }
  }

  lemma NothingReleased(holders: seq<seq<nat>>)
    ensures WithoutHeld(holders, {}) == holders
  {
    forall p | 0 <= p < |holders| ensures WithoutHeld(holders, {})[p] == holders[p] { }
  }

  lemma OneMoreReleased(holders: seq<seq<nat>>, held: set<(nat, nat)>, p: nat, r: nat)
    requires p < |holders| && r < |holders[p]|
    ensures |WithoutHeld(holders, held)| == |holders| && |WithoutHeld(holders, held)[p]| == |holders[p]|
    ensures var before := WithoutHeld(holders, held);
            var row: seq<nat> := before[p][r := 0];
            WithoutHeld(holders, held + {(p, r)}) == before[p := row]
  {
    var before, after := WithoutHeld(holders, held), WithoutHeld(holders, held + {(p, r)});
    var row: seq<nat> := before[p][r := 0];
    assert after[p] == row;
    forall i | 0 <= i < |holders| && i != p ensures after[i] == before[i] { }
  }
}
