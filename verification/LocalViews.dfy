/**
  What one node follows of the cluster state: its tokens, the partition replicas it owns and
  those it holds; and the deltas (cluster/delta.go) from which it keeps this up to date.
 */
module LocalViews {
  import opened TokenRings
  import opened Ownership
  import opened ClusterStates
  import opened ClusterCommands

  datatype Item = Token(token: nat) | Ownership(partition: nat, replica: nat) | Replica(partition: nat, replica: nat)

  datatype Delta =
    | NodeAdd(node: nat)
    | NodeRemove(node: nat)
    | Lose(node: nat, item: Item)
    | Gain(node: nat, item: Item)
    | SiteAdded(site: string)
    | SiteRemoved(site: string)
    | RelayAdded(relay: string)
    | RelayRemoved(relay: string)
    | RelayMoved(relay: string, site: string)

  datatype View = View(member: bool, items: set<Item>)

  // ----- The view of a state --------------------------------------------------------------

  /** The partition replicas whose owner is `n`. */
  ghost function OwnedBy(s: State, n: nat): set<(nat, nat)> {
    if !Initialized(s) then {}
    else
      set p: nat, r: nat | p < |s.ring| && r < s.replicationFactor && Owners(s.ring, p, s.replicationFactor)[r] == n ::
        (p, r)
  }

  function TokenItems(tokens: set<nat>): set<Item> {
    set t | t in tokens :: Token(t)
  }

  function OwnedItems(owned: set<(nat, nat)>): set<Item> {
    set o | o in owned :: Ownership(o.0, o.1)
  }

  function HeldItems(held: set<(nat, nat)>): set<Item> {
    set h | h in held :: Replica(h.0, h.1)
  }

  ghost function TokensAt(s: State, n: nat): set<nat> {
    if n in s.nodes then s.nodes[n].tokens else {}
  }

  ghost function HeldAt(s: State, n: nat): set<(nat, nat)> {
    if n in s.nodes then s.nodes[n].held else {}
  }

  ghost function Items(s: State, n: nat): set<Item> {
    TokenItems(TokensAt(s, n)) + OwnedItems(OwnedBy(s, n)) + HeldItems(HeldAt(s, n))
  }

  ghost function LocalView(s: State, n: nat): View {
    View(n in s.nodes, Items(s, n))
  }

  // ----- Replaying deltas -----------------------------------------------------------------

  /** Being added starts the view of a node, being removed clears it. */
  function ReplayOne(v: View, d: Delta): View {
    match d
    case NodeAdd(_) => View(true, {})
    case NodeRemove(_) => View(false, {})
    case Lose(_, item) => v.(items := v.items - {item})
    case Gain(_, item) => v.(items := v.items + {item})
    case _ => v
  }

  function Replay(v: View, deltas: seq<Delta>): View {
    if deltas == [] then v else ReplayOne(Replay(v, deltas[..|deltas| - 1]), deltas[|deltas| - 1])
  }

  lemma {:induction false} ReplayAppends(v: View, a: seq<Delta>, b: seq<Delta>)
    ensures Replay(v, a + b) == Replay(Replay(v, a), b)
  {
    if b == [] {
      assert a + b == a;
    } else {
      ReplayAppends(v, a, b[..|b| - 1]);
      assert (a + b)[..|a + b| - 1] == a + b[..|b| - 1];
    }
  }

  function Losses(deltas: seq<Delta>): set<Item> {
    set d | d in deltas && d.Lose? :: d.item
  }

  function Gains(deltas: seq<Delta>): set<Item> {
    set d | d in deltas && d.Gain? :: d.item
  }

  /** The deltas tell the change from `before` to `after`, each item once. */
  ghost predicate IsDiff(n: nat, deltas: seq<Delta>, before: set<Item>, after: set<Item>) {
    && (forall d :: d in deltas ==> (d.Lose? || d.Gain?) && d.node == n)
    && Losses(deltas) == before - after && Gains(deltas) == after - before && NoRepeats(deltas)
  }

  /**
    The deltas of one command: exactly the items lost and gained while the node is a member or not
    one; a node that becomes a member is told so first, and one that is removed last.
   */
  ghost predicate Tells(n: nat, deltas: seq<Delta>, v: View, w: View) {
    if v.member == w.member then IsDiff(n, deltas, v.items, w.items)
    else if w.member then deltas != [] && deltas[0] == NodeAdd(n) && IsDiff(n, deltas[1..], {}, w.items)
    else deltas != [] && deltas[|deltas| - 1] == NodeRemove(n)
  }

  // The items of a node, read off the state.

  ghost predicate HasToken(s: State, n: nat, token: nat) {
    n in s.nodes && token in s.nodes[n].tokens
  }

  ghost predicate IsOwner(s: State, n: nat, partition: nat, replica: nat) {
    && s.replicationFactor != 0 && s.partitions != 0 && partition < |s.ring| && replica < s.replicationFactor
    && Owners(s.ring, partition, s.replicationFactor)[replica] == n
  }

  ghost predicate HoldsReplica(s: State, n: nat, partition: nat, replica: nat) {
    n in s.nodes && (partition, replica) in s.nodes[n].held
  }

  /** A gain for each token, ownership and replica the node has only afterwards, a loss for each it had only before. */
  ghost predicate ChangesTold(n: nat, deltas: seq<Delta>, s: State, t: State) {
    && (forall i: nat :: Gain(n, Token(i)) in deltas <==> HasToken(t, n, i) && !HasToken(s, n, i))
    && (forall i: nat :: Lose(n, Token(i)) in deltas <==> HasToken(s, n, i) && !HasToken(t, n, i))
    && (forall p: nat, r: nat :: Gain(n, Ownership(p, r)) in deltas <==> IsOwner(t, n, p, r) && !IsOwner(s, n, p, r))
    && (forall p: nat, r: nat :: Lose(n, Ownership(p, r)) in deltas <==> IsOwner(s, n, p, r) && !IsOwner(t, n, p, r))
    && (forall p: nat, r: nat :: Gain(n, Replica(p, r)) in deltas <==>
        HoldsReplica(t, n, p, r) && !HoldsReplica(s, n, p, r))
    && (forall p: nat, r: nat :: Lose(n, Replica(p, r)) in deltas <==>
        HoldsReplica(s, n, p, r) && !HoldsReplica(t, n, p, r))
    && (forall d :: d in deltas ==> (d.Lose? || d.Gain?) && d.node == n)
    && forall i, j :: 0 <= i < j < |deltas| ==> deltas[i] != deltas[j]
  }

  lemma ItemMeaning(s: State, n: nat)
    ensures forall i: nat :: Token(i) in Items(s, n) <==> HasToken(s, n, i)
    ensures forall p: nat, r: nat :: Ownership(p, r) in Items(s, n) <==> IsOwner(s, n, p, r)
    ensures forall p: nat, r: nat :: Replica(p, r) in Items(s, n) <==> HoldsReplica(s, n, p, r)
  {
    forall p: nat, r: nat ensures Ownership(p, r) in Items(s, n) <==> IsOwner(s, n, p, r) {
      if IsOwner(s, n, p, r) { assert (p, r) in OwnedBy(s, n); }
    }
    forall p: nat, r: nat ensures Replica(p, r) in Items(s, n) <==> HoldsReplica(s, n, p, r) {
      if HoldsReplica(s, n, p, r) { assert (p, r) in HeldAt(s, n); }
    }
  }

  lemma DiffMeaning(n: nat, deltas: seq<Delta>, s: State, t: State)
    requires IsDiff(n, deltas, Items(s, n), Items(t, n))
    ensures ChangesTold(n, deltas, s, t)
  {
    ItemMeaning(s, n);
    ItemMeaning(t, n);
    forall item ensures Gain(n, item) in deltas <==> item in Items(t, n) && item !in Items(s, n) {
      assert item in Gains(deltas) <==> item in Items(t, n) - Items(s, n);
    }
    forall item ensures Lose(n, item) in deltas <==> item in Items(s, n) && item !in Items(t, n) {
      assert item in Losses(deltas) <==> item in Items(s, n) - Items(t, n);
    }
  }

  ghost predicate NoRepeats(deltas: seq<Delta>) {
    forall i, j :: 0 <= i < j < |deltas| ==> deltas[i] != deltas[j]
  }

  lemma NoRepeatsTogether(one: seq<Delta>, other: seq<Delta>)
    requires NoRepeats(one) && NoRepeats(other) && forall d :: d in one ==> d !in other
    ensures NoRepeats(one + other)
  {
    var both := one + other;
    forall i, j | 0 <= i < j < |both| ensures both[i] != both[j] {
      if i < |one| <= j { assert one[i] in one && other[j - |one|] in other; }
    }
  }

  lemma {:induction false} ReplayChanges(v: View, deltas: seq<Delta>)
    requires (forall d :: d in deltas ==> d.Lose? || d.Gain?) && Losses(deltas) !! Gains(deltas)
    ensures Replay(v, deltas) == v.(items := v.items - Losses(deltas) + Gains(deltas))
  {
    if deltas != [] {
      var front, last := deltas[..|deltas| - 1], deltas[|deltas| - 1];
      assert deltas == front + [last];
      assert Losses(deltas) == Losses(front) + (if last.Lose? then {last.item} else {});
      assert Gains(deltas) == Gains(front) + (if last.Gain? then {last.item} else {});
      ReplayChanges(v, front);
    }
  }

  /** Replaying a diff on the old items gives the new ones. */
  lemma ReplayDiff(n: nat, member: bool, deltas: seq<Delta>, before: set<Item>, after: set<Item>)
    requires IsDiff(n, deltas, before, after)
    ensures Replay(View(member, before), deltas) == View(member, after)
  {
    ReplayChanges(View(member, before), deltas);
    assert before - (before - after) + (after - before) == after;
  }

  /** Diffs of different kinds of items follow one another. */
  lemma DiffsTogether(n: nat, one: seq<Delta>, a: set<Item>, a': set<Item>, other: seq<Delta>, b: set<Item>,
                      b': set<Item>)
    requires IsDiff(n, one, a, a') && IsDiff(n, other, b, b') && (a + a') !! (b + b')
    ensures IsDiff(n, one + other, a + b, a' + b')
  {
    var both := one + other;
    assert forall d :: d in both <==> d in one || d in other;
    assert Losses(both) == Losses(one) + Losses(other);
    assert Gains(both) == Gains(one) + Gains(other);
    assert (a + b) - (a' + b') == (a - a') + (b - b') && (a' + b') - (a + b) == (a' - a) + (b' - b);
    forall d | d in one ensures d.item in a + a' { assert d.item in Losses(one) + Gains(one); }
    forall d | d in other ensures d.item in b + b' { assert d.item in Losses(other) + Gains(other); }
    NoRepeatsTogether(one, other);
  }

  lemma DiffWithFrame(n: nat, deltas: seq<Delta>, a: set<Item>, a': set<Item>, frame: set<Item>)
    requires IsDiff(n, deltas, a, a') && (a + a') !! frame
    ensures IsDiff(n, deltas, a + frame, a' + frame)
  {
    assert (a + frame) - (a' + frame) == a - a' && (a' + frame) - (a + frame) == a' - a;
  }

  // ----- Renaming owners ------------------------------------------------------------------

  /** Renaming a node to a name not in use renames it among the owners. */
  lemma {:induction false} DistinctOfRenamed(ring: Ring, x: nat, y: nat, partition: nat, count: nat)
    requires partition < |ring| && y !in ring
    ensures Distinct(Renamed(ring, x, y), partition, count) == Renamed(Distinct(ring, partition, count), x, y)
  {
    if count > 0 {
      DistinctOfRenamed(ring, x, y, partition, count - 1);
      var before, owner := Distinct(ring, partition, count - 1), At(ring, partition, count - 1);
      DistinctMeaning(ring, partition, count - 1);
      assert y !in before && owner != y;
      RenamedMember(before, x, y, owner);
    }
  }

  lemma RenamedMember(s: seq<nat>, x: nat, y: nat, n: nat)
    requires y !in s && n != y
    ensures (if n == x then y else n) in Renamed(s, x, y) <==> n in s
  {
    if n in s {
      var k :| 0 <= k < |s| && s[k] == n;
      assert Renamed(s, x, y)[k] == if n == x then y else n;
    }
    if (if n == x then y else n) in Renamed(s, x, y) {
      var k :| 0 <= k < |s| && Renamed(s, x, y)[k] == if n == x then y else n;
      assert s[k] == n;
    }
  }

  lemma {:induction false} CycleOfRenamed(list: seq<nat>, x: nat, y: nat, n: nat)
    requires list != []
    ensures Cycle(Renamed(list, x, y), n) == Renamed(Cycle(list, n), x, y)
  {
    if n > |list| { CycleOfRenamed(list, x, y, n - 1); }
  }

  lemma OwnersOfRenamed(ring: Ring, x: nat, y: nat, partition: nat, replicationFactor: nat)
    requires y !in ring
    ensures Owners(Renamed(ring, x, y), partition, replicationFactor) ==
        Renamed(Owners(ring, partition, replicationFactor), x, y)
  {
    if partition < |ring| {
      DistinctOfRenamed(ring, x, y, partition, |ring|);
      DistinctIsNotEmpty(ring, partition, |ring|);
      CycleOfRenamed(Distinct(ring, partition, |ring|), x, y, replicationFactor);
    }
  }

  /** A node owns what it owned when another one leaves the ring. */
  lemma OwnedAfterRemoval(s: State, x: nat, n: nat)
    requires Consistent(s) && n != x && n != 0
    ensures OwnedBy(WithoutNode(s, x), n) == OwnedBy(s, n)
  {
    var t := WithoutNode(s, x);
    if x in s.nodes && Initialized(s) {
      assert t.ring == Renamed(s.ring, x, 0) by { assert s.nodes[x].tokens == TokensOf(s.ring, x); }
      if 0 in s.ring {
        assert t.ring == s.ring;
      } else {
        forall p: nat, r: nat | p < |s.ring| && r < s.replicationFactor
          ensures Owners(t.ring, p, s.replicationFactor)[r] == n <==> Owners(s.ring, p, s.replicationFactor)[r] == n
        {
          OwnersOfRenamed(s.ring, x, 0, p, s.replicationFactor);
        }
      }
    }
  }

  /** The view of a node does not change when another one leaves. */
  lemma ViewAfterRemoval(s: State, x: nat, n: nat)
    requires Consistent(s) && n != x && n != 0
    ensures LocalView(WithoutNode(s, x), n) == LocalView(s, n)
  {
    OwnedAfterRemoval(s, x, n);
  }

  /** A node that is not a member has nothing. */
  lemma OutsiderHasNothing(s: State, n: nat)
    requires Consistent(s) && n !in s.nodes && n != 0
    ensures Items(s, n) == {}
  {
    if Initialized(s) {
      forall p: nat, r: nat | p < |s.ring| && r < s.replicationFactor
          ensures Owners(s.ring, p, s.replicationFactor)[r] != n {
        OwnerIsOnRing(s.ring, p, s.replicationFactor, r);
      }
    }
  }

  /** What a node is told by the deltas of one command about members. */
  ghost predicate MemberIsTold(n: nat, deltas: seq<Delta>, s: State, t: State) {
    if n in s.nodes <==> n in t.nodes then ChangesTold(n, deltas, s, t)
    else if n in t.nodes then deltas != [] && deltas[0] == NodeAdd(n) && ChangesTold(n, deltas[1..], s, t)
    else deltas != [] && deltas[|deltas| - 1] == NodeRemove(n)
  }

  lemma TellsMeaning(n: nat, deltas: seq<Delta>, s: State, t: State)
    requires Consistent(s) && n != 0 && Tells(n, deltas, LocalView(s, n), LocalView(t, n))
    ensures MemberIsTold(n, deltas, s, t)
  {
    if n in s.nodes <==> n in t.nodes {
      DiffMeaning(n, deltas, s, t);
    } else if n in t.nodes {
      OutsiderHasNothing(s, n);
      DiffMeaning(n, deltas[1..], s, t);
    }
  }

  /** What everyone is told of a command about sites and relays: what came, what went, and where a relay moved. */
  ghost predicate RegistryIsTold(command: Command, deltas: seq<Delta>, s: State, t: State) {
    && |deltas| <= 1
    && (forall x :: SiteAdded(x) in deltas <==> x in t.sites && x !in s.sites)
    && (forall x :: SiteRemoved(x) in deltas <==> x in s.sites && x !in t.sites)
    && (forall r :: RelayAdded(r) in deltas <==> r in t.relays && r !in s.relays)
    && (forall r :: RelayRemoved(r) in deltas <==> r in s.relays && r !in t.relays)
    && (forall r, x :: RelayMoved(r, x) in deltas <==>
          command == MoveRelay(r, x) && r in s.relays && r in t.relays && t.relays[r] == x && s.relays[r] != x)
  }

  lemma {:induction false} CycleMembers(list: seq<nat>, n: nat, i: nat)
    requires list != [] && i < n
    ensures Cycle(list, n)[i] in list
    decreases i
  {
    CycleAt(list, n, i);
    if i >= |list| { CycleMembers(list, n, i - |list|); }
  }

  lemma OwnerIsOnRing(ring: Ring, partition: nat, replicationFactor: nat, r: nat)
    requires partition < |ring| && r < replicationFactor
    ensures Owners(ring, partition, replicationFactor)[r] in ring
  {
    DistinctIsNotEmpty(ring, partition, |ring|);
    CycleMembers(Distinct(ring, partition, |ring|), replicationFactor, r);
    WholeRing(ring, partition, Owners(ring, partition, replicationFactor)[r]);
  }
}
