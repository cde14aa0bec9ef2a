/** What holds over every run of the replicated log from a new cluster. */
module ClusterRuns {
  import opened Wrappers
  import opened TokenRings
  import opened Ownership
  import opened ClusterStates
  import opened ClusterCommands
  import opened ClusterEffects
  import opened LocalViews
  import opened ClusterControllers

  ghost predicate CanStep(s: State, command: Command, t: State) {
    exists error :: Next(s, command, t, error)
  }

  ghost predicate Linked(run: seq<State>, log: seq<Command>, i: nat)
    requires i + 1 < |run| == |log| + 1
  {
    CanStep(run[i], log[i], run[i + 1])
  }

  ghost predicate IsRun(run: seq<State>, log: seq<Command>) {
    && |run| == |log| + 1 && run[0] == NEW_CLUSTER
    && forall i: nat :: i + 1 < |run| ==> Linked(run, log, i)
  }

  lemma StepOfRun(run: seq<State>, log: seq<Command>, i: nat) returns (error: Option<StepError>)
    requires IsRun(run, log) && i < |log|
    ensures Next(run[i], log[i], run[i + 1], error)
  {
    assert Linked(run, log, i);
    error :| Next(run[i], log[i], run[i + 1], error);
  }

  lemma PrefixIsRun(run: seq<State>, log: seq<Command>, k: nat)
    requires IsRun(run, log) && k <= |log|
    ensures IsRun(run[..k + 1], log[..k])
  {
    var prefix, commands := run[..k + 1], log[..k];
    forall i: nat {:trigger Linked(prefix, commands, i)} | i + 1 < |prefix| ensures Linked(prefix, commands, i) {
      assert Linked(run, log, i);
    }
  }

  lemma NewClusterIsConsistent()
    ensures Consistent(NEW_CLUSTER) && Balanced(NEW_CLUSTER)
  {
  }

  /** After every command the forward and reverse maps agree, for any log. */
  lemma {:induction false} RunStaysConsistent(run: seq<State>, log: seq<Command>, i: nat)
    requires IsRun(run, log) && i < |run|
    ensures Consistent(run[i])
  {
    if i == 0 {
      NewClusterIsConsistent();
    } else {
      RunStaysConsistent(run, log, i - 1);
      var error := StepOfRun(run, log, i - 1);
      NextKeepsInv(run[i - 1], log[i - 1], run[i], error);
    }
  }

  /**
    While there are at most as many members as tokens, after every command either nobody has
    capacity and no token is assigned, or the tokens are spread over the members with capacity.
   */
  lemma {:induction false} RunStaysBalanced(run: seq<State>, log: seq<Command>, i: nat)
    requires IsRun(run, log) && i < |run| && forall j :: 0 <= j <= i ==> Roomy(run[j])
    ensures Balanced(run[i])
  {
    if i == 0 {
      NewClusterIsConsistent();
    } else {
      RunStaysBalanced(run, log, i - 1);
      RunStaysConsistent(run, log, i - 1);
      var error := StepOfRun(run, log, i - 1);
      NextKeepsBalance(run[i - 1], log[i - 1], run[i], error);
    }
  }

  // ----- Deltas ---------------------------------------------------------------------------

  function Joined(deltas: seq<seq<Delta>>): seq<Delta> {
    if deltas == [] then [] else Joined(deltas[..|deltas| - 1]) + deltas[|deltas| - 1]
  }

  /** The deltas a command returned, as `ClusterController.Step` promises them. */
  ghost predicate Told(n: nat, s: State, deltas: seq<Delta>, t: State) {
    Replay(LocalView(s, n), deltas) == LocalView(t, n)
  }

  /**
    Replaying everything the commands returned, from nothing, gives exactly the current
    tokens, owned partition replicas and held partition replicas of the local node.
   */
  lemma {:induction false} ReplayGivesCurrentView(run: seq<State>, log: seq<Command>, deltas: seq<seq<Delta>>, n: nat)
    requires IsRun(run, log) && |deltas| == |log|
    requires forall i {:trigger deltas[i]} :: 0 <= i < |log| ==> Told(n, run[i], deltas[i], run[i + 1])
    ensures Replay(View(false, {}), Joined(deltas)) == LocalView(run[|log|], n)
  {
    if |log| == 0 {
      assert Items(NEW_CLUSTER, n) == {};
    } else {
      var k := |log| - 1;
      var before, last := Joined(deltas[..k]), deltas[k];
      PrefixIsRun(run, log, k);
      forall i | 0 <= i < k ensures Told(n, run[..k + 1][i], deltas[..k][i], run[..k + 1][i + 1]) {
        assert Told(n, run[i], deltas[i], run[i + 1]);
      }
      ReplayGivesCurrentView(run[..k + 1], log[..k], deltas[..k], n);
      ReplayAppends(View(false, {}), before, last);
      assert Told(n, run[k], deltas[k], run[k + 1]);
    }
  }

  lemma OneMoreCommand(run: seq<State>, log: seq<Command>, t: State, command: Command, error: Option<StepError>)
    requires IsRun(run, log) && Next(run[|log|], command, t, error)
    ensures IsRun(run + [t], log + [command])
  {
    var after, commands := run + [t], log + [command];
    forall i: nat {:trigger Linked(after, commands, i)} | i + 1 < |after| ensures Linked(after, commands, i) {
      if i < |log| {
        assert Linked(run, log, i);
      } else {
        assert CanStep(run[|log|], command, t);
      }
    }
  }

  /**
    A node that starts from nothing and applies a whole log with `ClusterController.Step`: the
    states it goes through are a run of the log, its caches agree at the end, every command's
    deltas tell the change it made, and all of them together give its current view.
   */
  method ApplyLog(localNodeID: nat, log: seq<Command>)
    returns (controller: ClusterController, deltas: seq<seq<Delta>>, ghost run: seq<State>)
    requires localNodeID != 0
    ensures fresh(controller) && controller.localNodeID == localNodeID && controller.Valid()
    ensures IsRun(run, log) && controller.state.View() == run[|log|]
    ensures |deltas| == |log| && forall i :: 0 <= i < |log| ==> Told(localNodeID, run[i], deltas[i], run[i + 1])
    ensures Replay(View(false, {}), Joined(deltas)) == LocalView(controller.state.View(), localNodeID)
  {
    controller := new ClusterController(localNodeID);
    deltas, run := [], [NEW_CLUSTER];
    for k := 0 to |log|
      invariant fresh(controller) && fresh(controller.state)
      invariant controller.localNodeID == localNodeID && controller.Valid()
      invariant IsRun(run, log[..k]) && controller.state.View() == run[k]
      invariant |deltas| == k && forall i :: 0 <= i < k ==> Told(localNodeID, run[i], deltas[i], run[i + 1])
    {
      var told, error := controller.Step(log[k]);
      OneMoreCommand(run, log[..k], controller.state.View(), log[k], error);
      TakeOneMore(log, k);
      deltas, run := deltas + [told], run + [controller.state.View()];
    }
    assert log[..|log|] == log;
    ReplayGivesCurrentView(run, log, deltas, localNodeID);
  }

  // ----- Membership and settings ----------------------------------------------------------

  lemma StepKeepsRemoved(s: State, command: Command, t: State, error: Option<StepError>)
    requires Next(s, command, t, error)
    ensures s.removed <= t.removed
  {
  }

  /** A removed node never becomes a member again. */
  lemma {:induction false} RemovedStaysOut(run: seq<State>, log: seq<Command>, i: nat, j: nat, n: nat)
    requires IsRun(run, log) && i <= j < |run| && n in run[i].removed
    ensures n in run[j].removed && n !in run[j].nodes
  {
    if i < j {
      RemovedStaysOut(run, log, i, j - 1, n);
      var error := StepOfRun(run, log, j - 1);
      StepKeepsRemoved(run[j - 1], log[j - 1], run[j], error);
    }
    RunStaysConsistent(run, log, j);
  }

  /** Once set, the number of partitions and of replicas never change. */
  lemma {:induction false} SettingsStay(run: seq<State>, log: seq<Command>, i: nat, j: nat)
    requires IsRun(run, log) && i <= j < |run|
    ensures run[i].partitions != 0 ==> run[j].partitions == run[i].partitions
    ensures run[i].replicationFactor != 0 ==> run[j].replicationFactor == run[i].replicationFactor
  {
    if i < j {
      SettingsStay(run, log, i, j - 1);
      var error := StepOfRun(run, log, j - 1);
    }
  }

  // ----- Capacities -------------------------------------------------------------------------

  /** The command gives the node this capacity: it adds or updates it, or lets it replace another node. */
  ghost predicate GivesCapacity(run: seq<State>, log: seq<Command>, j: nat, n: nat, capacity: nat)
    requires j < |log| && |run| == |log| + 1
  {
    match log[j]
    case AddNode(m, c) => m == n && c == capacity && n !in run[j].nodes && n in run[j + 1].nodes
    case UpdateNode(m, c) => m == n && c == capacity && n in run[j].nodes
    case RemoveNode(m, r) =>
      r == n && m in run[j].nodes && m !in run[j + 1].nodes && run[j].nodes[m].capacity == capacity
    case _ => false
  }

  ghost predicate LastGiven(run: seq<State>, log: seq<Command>, i: nat, j: nat, n: nat, capacity: nat)
    requires j < i <= |log| && |run| == |log| + 1
  {
    && GivesCapacity(run, log, j, n, capacity)
    && forall k, c {:trigger GivesCapacity(run, log, k, n, c)} :: j < k < i ==> !GivesCapacity(run, log, k, n, c)
  }

  lemma EffectOfStep(run: seq<State>, log: seq<Command>, i: nat) returns (error: Option<StepError>)
    requires IsRun(run, log) && i < |log|
    ensures HasEffect(run[i], log[i], run[i + 1], error)
  {
    RunStaysConsistent(run, log, i);
    error := StepOfRun(run, log, i);
    NextHasEffect(run[i], log[i], run[i + 1], error);
  }

  /** The step gives the member its capacity, or leaves the one it had. */
  lemma CapacityAfterStep(run: seq<State>, log: seq<Command>, i: nat, n: nat)
    requires IsRun(run, log) && i < |log| && n in run[i + 1].nodes
    ensures || GivesCapacity(run, log, i, n, run[i + 1].nodes[n].capacity)
            || (&& n in run[i].nodes && run[i + 1].nodes[n].capacity == run[i].nodes[n].capacity
                && forall c :: !GivesCapacity(run, log, i, n, c))
  {
    var error := EffectOfStep(run, log, i);
  }

  /** A member has the capacity that it was given last. */
  lemma {:induction false} CapacityIsLastGiven(run: seq<State>, log: seq<Command>, i: nat, n: nat)
    requires IsRun(run, log) && i < |run| && n in run[i].nodes
    ensures exists j: nat :: j < i && LastGiven(run, log, i, j, n, run[i].nodes[n].capacity)
  {
    if i > 0 {
      CapacityAfterStep(run, log, i - 1, n);
      if GivesCapacity(run, log, i - 1, n, run[i].nodes[n].capacity) {
        assert LastGiven(run, log, i, i - 1, n, run[i].nodes[n].capacity);
      } else {
        CapacityIsLastGiven(run, log, i - 1, n);
        var j: nat :| j < i - 1 && LastGiven(run, log, i - 1, j, n, run[i - 1].nodes[n].capacity);
        assert LastGiven(run, log, i, j, n, run[i].nodes[n].capacity);
      }
    }
  }

  /** While there are at most as many members as tokens, a member without capacity has no token. */
  lemma NoCapacityNoTokens(run: seq<State>, log: seq<Command>, i: nat, n: nat)
    requires IsRun(run, log) && i < |run| && forall j :: 0 <= j <= i ==> Roomy(run[j])
    requires n in run[i].nodes && run[i].nodes[n].capacity == 0
    ensures run[i].nodes[n].tokens == {} && forall t :: 0 <= t < |run[i].ring| ==> run[i].ring[t] != n
  {
    RunStaysConsistent(run, log, i);
    RunStaysBalanced(run, log, i);
  }

  // ----- Members without a seat -------------------------------------------------------------

  /** The same members as in `s`, with any ring. */
  ghost predicate WithAnyRing(s: State, u: State) {
    Inv(u) && |u.ring| == |s.ring| && u == WithRing(s, u.ring)
  }

  /** The member ends without tokens, whatever the ring was and whatever the strategy chooses. */
  ghost predicate AlwaysFreed(s: State, n: nat) {
    forall u, ring :: WithAnyRing(s, u) && RingFor(u, ring) ==> n !in ring
  }

  /**
    A member without capacity is certain to lose its tokens if and only if it is among the first
    members, as many as there are partitions, or none of those has capacity.
   */
  lemma FreedExactly(s: State, n: nat)
    requires Inv(s) && Initialized(s) && n in s.nodes && s.nodes[n].capacity == 0
    ensures AlwaysFreed(s, n) <==> Seated(s, n) || SeatedLive(s) == {}
  {
    forall u, ring | WithAnyRing(s, u) && RingFor(u, ring) && (Seated(s, n) || SeatedLive(s) == {}) ensures n !in ring {
      SameSeats(s, u);
    }
    if !Seated(s, n) && SeatedLive(s) != {} {
      var u := AllOn(s, n);
      SameSeats(s, u);
      SizeOfSubset(Smaller(s, n) + {n}, s.nodes.Keys);
      assert RingFor(u, u.ring) && u.ring[0] == n;
    }
  }

  lemma SameSeats(s: State, u: State)
    requires WithAnyRing(s, u)
    ensures u.nodes.Keys == s.nodes.Keys && u.partitions == s.partitions
    ensures forall m :: m in s.nodes ==> u.nodes[m].capacity == s.nodes[m].capacity
    ensures (forall m :: Smaller(u, m) == Smaller(s, m)) && (forall m :: Seated(u, m) <==> Seated(s, m))
    ensures SeatedLive(u) == SeatedLive(s)
  {
    assert u.nodes.Keys == s.nodes.Keys;
    forall m ensures Smaller(u, m) == Smaller(s, m) { }
  }

  lemma AllOn(s: State, n: nat) returns (u: State)
    requires Inv(s) && Initialized(s) && n in s.nodes
    ensures WithAnyRing(s, u) && forall t :: 0 <= t < |u.ring| ==> u.ring[t] == n
  {
    var ring: Ring := seq(|s.ring|, _ => n);
    WithRingKeepsInv(s, ring);
    u := WithRing(s, ring);
  }

  /** One partition; member 5 owns it when member 3, who comes before it, joins; then 5 loses its capacity. */
  const UNSEATED: seq<Command> := [
    SetPartitionCount(1), SetReplicationFactor(1), AddNode(5, 1), AddNode(3, 1), UpdateNode(5, 0)]

  /** In every run of this log the member without capacity keeps the only token. */
  lemma UnseatedKeepsToken(run: seq<State>, log: seq<Command>)
    requires log == UNSEATED && IsRun(run, log)
    ensures 5 in run[5].nodes && run[5].nodes[5].capacity == 0 && run[5].ring == [5]
  {
    MemberFiveOwns(run, log);
    var fourth := StepOfRun(run, log, 3);
    var fifth := StepOfRun(run, log, 4);
    SecondMember(run[3], run[4], fourth, run[5], fifth);
  }

  lemma MemberFiveOwns(run: seq<State>, log: seq<Command>)
    requires log == UNSEATED && IsRun(run, log)
    ensures OneOwner(run[3])
  {
    SettingsAreMade(run, log);
    var third := StepOfRun(run, log, 2);
    FirstMember(run[2], run[3], third);
  }

  lemma SettingsAreMade(run: seq<State>, log: seq<Command>)
    requires log == UNSEATED && IsRun(run, log)
    ensures NoOwner(run[2])
  {
    var first := StepOfRun(run, log, 0);
    var second := StepOfRun(run, log, 1);
    SettingsMade(run[0], run[1], first, run[2], second);
  }

  /** There is one partition, and nobody is a member or ever was. */
  ghost predicate NoOwner(s: State) {
    && Consistent(s) && s.replicationFactor == 1 && s.partitions == 1
    && s.nodes == map[] && s.removed == {}
  }

  /** Member 5 owns the only partition. */
  ghost predicate OneOwner(s: State) {
    && Consistent(s) && Initialized(s) && s.partitions == 1 && s.ring == [5] && s.nodes.Keys == {5} && s.removed == {}
    && s.nodes[5].capacity == 1
  }

  lemma FirstMember(s: State, t: State, third: Option<StepError>)
    requires NoOwner(s) && Next(s, AddNode(5, 1), t, third)
    ensures OneOwner(t)
  {
    NextKeepsInv(s, AddNode(5, 1), t, third);
    AddHasEffect(s, 5, 1, t, third);
    OnlyMember(s, t);
  }

  lemma SecondMember(s: State, t: State, fourth: Option<StepError>, u: State, fifth: Option<StepError>)
    requires OneOwner(s) && Next(s, AddNode(3, 1), t, fourth) && Next(t, UpdateNode(5, 0), u, fifth)
    ensures 5 in u.nodes && u.nodes[5].capacity == 0 && u.ring == [5]
  {
    AddedBefore(s, t, fourth);
    StaysUnseated(t, u);
  }

  lemma SettingsMade(s: State, t: State, first: Option<StepError>, u: State, second: Option<StepError>)
    requires s == NEW_CLUSTER && Next(s, SetPartitionCount(1), t, first) && Next(t, SetReplicationFactor(1), u, second)
    ensures NoOwner(u)
  {
    NewClusterIsConsistent();
    NextKeepsInv(s, SetPartitionCount(1), t, first);
    NextKeepsInv(t, SetReplicationFactor(1), u, second);
    assert t == s.(partitions := 1);
  }

  lemma OnlyMember(s: State, t: State)
    requires s.nodes == map[] && s.removed == {} && s.partitions == 1 && s.replicationFactor == 1
    requires AddsNode(s, 5, 1, t, None)
    ensures t.nodes.Keys == {5} && t.nodes[5].capacity == 1 && t.ring == [5]
    ensures t.removed == {} && t.partitions == 1 && t.replicationFactor == 1
  {
    assert t.nodes.Keys == {5};
    assert (set m | m in t.nodes && t.nodes[m].capacity != 0) == {5};
  }

  lemma UnseatedStays(s: State, t: State)
    requires Initialized(s) && s.partitions == 1 && s.ring == [5] && s.nodes.Keys == {3, 5}
    requires s.nodes[3].capacity == 1 && Rebalanced(s, t)
    ensures t.ring == [5] && t.nodes.Keys == {3, 5} && forall m :: m in s.nodes ==>
        t.nodes[m].capacity == s.nodes[m].capacity
  {
    assert Smaller(s, 3) == {} && Smaller(s, 5) == {3};
    assert 3 in SeatedLive(s);
  }

  lemma AddedBefore(s: State, t: State, error: Option<StepError>)
    requires Consistent(s) && Initialized(s) && s.partitions == 1 && s.ring == [5] && s.nodes.Keys == {5}
        && s.removed == {}
    requires NextAddNode(s, 3, 1, t, error)
    ensures t.ring == [5] && t.nodes.Keys == {3, 5} && t.nodes[3].capacity == 1
        && t.nodes[5].capacity == s.nodes[5].capacity
    ensures t == s.(nodes := t.nodes, ring := t.ring)
  {
    var u := WithNode(s, NodeConfig(3, 1, {}, {}));
    assert u.nodes.Keys == {3, 5};
    UnseatedStays(u, t);
  }

  lemma StaysUnseated(s: State, t: State)
    requires Initialized(s) && s.partitions == 1 && s.ring == [5] && s.nodes.Keys == {3, 5}
    requires s.nodes[3].capacity == 1 && s.nodes[5].capacity == 1 && NextUpdateNode(s, 5, 0, t)
    ensures t.ring == [5] && 5 in t.nodes && t.nodes[5].capacity == 0
  {
    var u := WithCapacity(s, 5, 0);
    assert u.nodes.Keys == {3, 5};
    UnseatedStays(u, t);
  }

  // ----- Sites ------------------------------------------------------------------------------

  ghost predicate AddedSince(log: seq<Command>, i: nat, j: nat, site: string)
    requires j < i <= |log|
  {
    log[j] == AddSite(site) && forall k :: j < k < i ==> log[k] != RemoveSite(site)
  }

  /** The sites are those that were added and not removed since. */
  lemma {:induction false} SitesAreAdded(run: seq<State>, log: seq<Command>, i: nat, site: string)
    requires IsRun(run, log) && i < |run|
    ensures site in run[i].sites <==> exists j: nat :: j < i && AddedSince(log, i, j, site)
  {
    if i > 0 {
      var last := i - 1;
      SitesAreAdded(run, log, last, site);
      var error := EffectOfStep(run, log, last);
      SiteAfterStep(run[last], log[last], run[i], error, site);
      if log[last] == AddSite(site) { assert AddedSince(log, i, last, site); }
      if j: nat :| j < last && AddedSince(log, last, j, site) && log[last] != RemoveSite(site) {
        assert AddedSince(log, i, j, site);
      }
      if j: nat :| j < i && AddedSince(log, i, j, site) && log[last] != AddSite(site) {
        assert log[last] != RemoveSite(site) && AddedSince(log, last, j, site);
      }
    }
  }

  lemma SiteAfterStep(s: State, command: Command, t: State, error: Option<StepError>, site: string)
    requires HasEffect(s, command, t, error)
    ensures site in t.sites <==> command == AddSite(site) || (site in s.sites && command != RemoveSite(site))
  {
  }

  // ----- Holders --------------------------------------------------------------------------

  /** At time `j` the node owned the partition replica and took it. */
  ghost predicate TookAsOwner(run: seq<State>, log: seq<Command>, j: nat, p: nat, r: nat, n: nat)
    requires j < |log| && |run| == |log| + 1
  {
    && log[j] == TakePartitionReplica(p, r, n)
    && r < |Owners(run[j].ring, p, run[j].replicationFactor)|
    && Owners(run[j].ring, p, run[j].replicationFactor)[r] == n
  }

  /** A new holder comes from a successful take by the owner. */
  lemma NewHolderTook(s: State, command: Command, t: State, error: Option<StepError>, p: nat, r: nat, n: nat)
    requires Consistent(s) && Next(s, command, t, error) && n != 0 && IsReplica(t, p, r) && HolderOf(t, p, r) == n
    ensures || (IsReplica(s, p, r) && HolderOf(s, p, r) == n)
            || (&& command == TakePartitionReplica(p, r, n) && r < |Owners(s.ring, p, s.replicationFactor)|
                && Owners(s.ring, p, s.replicationFactor)[r] == n)
  {
    NextHasEffect(s, command, t, error);
    match command
    case TakePartitionReplica(partition, replica, node) =>
      TakeChangesOne(s, partition, replica, node, t, error, p, r);
    case RemoveNode(m, replacement) => assert t != s ==> Freed(s.holders, m, t.holders);
    case SetReplicationFactor(k) => assert t == s || Settles(s, t);
    case SetPartitionCount(k) => assert t == s || Settles(s, t);
    case _ => assert t.holders == s.holders;
  }

  lemma TakeChangesOne(s: State, partition: nat, replica: nat, node: nat, t: State, error: Option<StepError>, p: nat,
                       r: nat)
    requires TakesReplica(s, partition, replica, node, t, error) && IsReplica(t, p, r)
    ensures IsReplica(s, p, r)
    ensures HolderOf(t, p, r) != HolderOf(s, p, r) ==>
              && p == partition && r == replica && HolderOf(t, p, r) == node
              && replica < |Owners(s.ring, partition, s.replicationFactor)|
              && Owners(s.ring, partition, s.replicationFactor)[replica] == node
  {
  }

  /** Whoever holds a partition replica owned it when it took it. */
  lemma {:induction false} HolderWasOwner(run: seq<State>, log: seq<Command>, i: nat, p: nat, r: nat, n: nat)
    requires IsRun(run, log) && i < |run| && n != 0 && IsReplica(run[i], p, r) && HolderOf(run[i], p, r) == n
    ensures exists j :: 0 <= j < i && TookAsOwner(run, log, j, p, r, n)
  {
    if i > 0 {
      RunStaysConsistent(run, log, i - 1);
      var error := StepOfRun(run, log, i - 1);
      NewHolderTook(run[i - 1], log[i - 1], run[i], error, p, r, n);
      if IsReplica(run[i - 1], p, r) && HolderOf(run[i - 1], p, r) == n {
        HolderWasOwner(run, log, i - 1, p, r, n);
      } else {
        assert TookAsOwner(run, log, i - 1, p, r, n);
      }
    }
  }
}
