/**
  Routes over the link-state table (src/core/router.js): the shortest path tree of a node and
  the routing table, which names for every reachable node the neighbour to send to.
 */
module Routes {
  import opened Wrappers
  import opened LinkStates

  // ----- Paths ----------------------------------------------------------------------------

  /** A link of the table; neighbours without an entry of their own do not count. */
  predicate Edge(table: Table, u: string, v: string) {
    u in table && v in table && v in table[u].neighbors
  }

  /** There is a path of `k` links. */
  ghost predicate Path(table: Table, u: string, v: string, k: nat)
    decreases k, 1
  {
    if k == 0 then u == v && u in table
    else exists w :: PathThrough(table, u, w, v, k)
  }

  ghost predicate PathThrough(table: Table, u: string, w: string, v: string, k: nat)
    requires k > 0
    decreases k, 0
  {
    Path(table, u, w, k - 1) && Edge(table, w, v)
  }

  ghost predicate Reachable(table: Table, u: string, v: string) {
    exists k: nat :: Path(table, u, v, k)
  }

  /** The length of a shortest path, none when there is no path. */
  ghost predicate IsDistance(table: Table, u: string, v: string, d: Option<nat>) {
    && (d.Some? ==> Path(table, u, v, d.value))
    && (forall k: nat :: Path(table, u, v, k) ==> d.Some? && d.value <= k)
  }

  lemma PathGrows(table: Table, u: string, w: string, v: string, k: nat)
    requires Path(table, u, w, k) && Edge(table, w, v)
    ensures Path(table, u, v, k + 1)
  {
    assert PathThrough(table, u, w, v, k + 1);
  }

  /** A walk along the links, from one node to the next. */
  ghost predicate IsWalk(table: Table, u: string, v: string, walk: seq<string>) {
    && walk != [] && walk[0] == u && walk[|walk| - 1] == v
    && (forall i :: 0 <= i < |walk| ==> walk[i] in table)
    && (forall i {:trigger walk[i]} :: 0 <= i < |walk| - 1 ==> walk[i + 1] in table[walk[i]].neighbors)
  }

  lemma {:induction false} WalkOfPath(table: Table, u: string, v: string, k: nat) returns (walk: seq<string>)
    requires Path(table, u, v, k)
    ensures |walk| == k + 1 && IsWalk(table, u, v, walk)
    decreases k
  {
    if k == 0 {
      walk := [u];
    } else {
      var w :| PathThrough(table, u, w, v, k);
      walk := WalkOfPath(table, u, w, k - 1);
      walk := walk + [v];
    }
  }

  lemma {:induction false} PathOfWalk(table: Table, u: string, v: string, walk: seq<string>)
    requires IsWalk(table, u, v, walk)
    ensures Path(table, u, v, |walk| - 1)
    decreases |walk|
  {
    if |walk| > 1 {
      var k := |walk| - 1;
      assert walk[k] in table[walk[k - 1]].neighbors;
      PathOfWalk(table, u, walk[k - 1], walk[..k]);
      assert PathThrough(table, u, walk[k - 1], v, k);
    }
  }

  /** A path of `k` links is a walk through `k + 1` nodes. */
  lemma PathIsWalk(table: Table, u: string, v: string, k: nat)
    ensures Path(table, u, v, k) <==> exists walk :: |walk| == k + 1 && IsWalk(table, u, v, walk)
  {
    if Path(table, u, v, k) { var walk := WalkOfPath(table, u, v, k); }
    if walk :| |walk| == k + 1 && IsWalk(table, u, v, walk) { PathOfWalk(table, u, v, walk); }
  }

  // ----- Distances ------------------------------------------------------------------------

  type Distances = map<string, Option<nat>>

  /** `None` stands for infinity. */
  predicate Closer(d: Option<nat>, e: Option<nat>) {
    d.Some? && (e.None? || d.value < e.value)
  }

  /** Every finite distance is the length of a path, with the last link from `previous`. */
  ghost predicate Explained(table: Table, self: string, distance: Distances, previous: Previous, v: string)
    requires v in distance && v in previous
  {
    match previous[v]
    case None => (v == self && distance[v] == Some(0)) || (v != self && distance[v].None?)
    case Some(u) =>
      && v != self && u in distance && Edge(table, u, v)
      && distance[u].Some? && distance[v] == Some(distance[u].value + 1)
  }

  /** The links of `u` cannot shorten anything. */
  ghost predicate Relaxed(table: Table, distance: Distances, u: string)
    requires u in distance
  {
    distance[u].Some? ==> forall v :: Edge(table, u, v) ==>
      v in distance && distance[v].Some? && distance[v].value <= distance[u].value + 1
  }

  lemma {:induction false} RelaxedIsShortest(table: Table, self: string, distance: Distances, v: string, k: nat)
    requires self in table && self in distance && distance[self] == Some(0) && Path(table, self, v, k)
    requires forall u :: u in table ==> u in distance && Relaxed(table, distance, u)
    ensures v in distance && distance[v].Some? && distance[v].value <= k
    decreases k
  {
    if k > 0 {
      var w :| PathThrough(table, self, w, v, k);
      RelaxedIsShortest(table, self, distance, w, k - 1);
      assert Relaxed(table, distance, w);
    }
  }

  lemma {:induction false} ExplainedIsPath(table: Table, self: string, distance: Distances, previous: Previous,
                                           v: string)
    requires self in table && self in distance && distance[self] == Some(0)
    requires forall u :: u in distance ==> u in previous && Explained(table, self, distance, previous, u)
    requires v in distance && distance[v].Some?
    ensures Path(table, self, v, distance[v].value)
    decreases distance[v].value
  {
    assert Explained(table, self, distance, previous, v);
    if previous[v].Some? {
      var u := previous[v].value;
      ExplainedIsPath(table, self, distance, previous, u);
      PathGrows(table, self, u, v, distance[u].value);
    }
  }

  // ----- The search -----------------------------------------------------------------------

  type Previous = map<string, Option<string>>

  /** The two maps cover the table. */
  ghost predicate Covers(table: Table, distance: Distances, previous: Previous) {
    forall n :: (n in table <==> n in distance) && (n in table <==> n in previous)
  }

  /** What holds between rounds; the nodes outside the heap are finished. */
  ghost predicate Searching(table: Table, self: string, distance: Distances, previous: Previous, heap: set<string>) {
    && self in table && Covers(table, distance, previous) && distance[self] == Some(0)
    && (forall v :: v in heap ==> v in table)
    && (forall v :: v in table ==> Explained(table, self, distance, previous, v))
    && (forall v :: v in table && previous[v].Some? ==> previous[v].value !in heap)
    && (forall a, b :: a in table && a !in heap && b in heap ==> !Closer(distance[b], distance[a]))
  }

  ghost predicate AllRelaxed(table: Table, distance: Distances, heap: set<string>) {
    forall a :: a in table && a !in heap ==> a in distance && Relaxed(table, distance, a)
  }

  /** Some distances of nodes in the heap became smaller. */
  ghost predicate Improved(table: Table, heap: set<string>, was: Distances, now: Distances) {
    forall a :: a in table ==>
      && a in was && a in now && (a !in heap ==> now[a] == was[a])
      && (was[a].Some? ==> now[a].Some? && now[a].value <= was[a].value)
  }

  lemma ImprovedKeepsRelaxed(table: Table, heap: set<string>, was: Distances, now: Distances, a: string)
    requires Improved(table, heap, was, now) && a in table && a !in heap && Relaxed(table, was, a)
    ensures Relaxed(table, now, a)
  {
    if now[a].Some? {
      forall v | Edge(table, a, v) ensures v in now && now[v].Some? && now[v].value <= now[a].value + 1 {
        assert v in was && was[v].Some? && was[v].value <= was[a].value + 1;
      }
    }
  }

  /** No finished node is farther than `u`. */
  ghost predicate LastTaken(table: Table, distance: Distances, heap: set<string>, u: string) {
    && u in table && u in distance && u !in heap
    && (forall a :: a in table && a !in heap ==> a in distance && !Closer(distance[u], distance[a]))
  }

  lemma ShorterIsExplained(table: Table, self: string, distance: Distances, previous: Previous, u: string, v: string,
                           w: string)
    requires Covers(table, distance, previous) && u in table && v in table && w in table && distance[u].Some?
        && Edge(table, u, v)
    requires Explained(table, self, distance, previous, w) && u != v && v != self
    requires previous[w] != Some(v)
    ensures Explained(table, self, distance[v := Some(distance[u].value + 1)], previous[v := Some(u)], w)
  {
  }

  /** A shorter way through the node just taken from the heap. */
  lemma RelaxOne(table: Table, self: string, distance: Distances, previous: Previous, heap: set<string>, u: string,
                 v: string)
    requires Searching(table, self, distance, previous, heap) && LastTaken(table, distance, heap, u)
    requires distance[u].Some? && Edge(table, u, v) && Closer(Some(distance[u].value + 1), distance[v])
    ensures var d := distance[v := Some(distance[u].value + 1)];
            && Searching(table, self, d, previous[v := Some(u)], heap)
            && Improved(table, heap, distance, d) && LastTaken(table, d, heap, u)
  {
    assert v in heap && v != self;
    var d, p := distance[v := Some(distance[u].value + 1)], previous[v := Some(u)];
    forall w | w in table ensures Explained(table, self, d, p, w) {
      ShorterIsExplained(table, self, distance, previous, u, v, w);
    }
  }

  /** The smallest distance in the heap; stands for the heap library's extraction. */
  method Nearest(distance: Distances, heap: set<string>) returns (u: string)
    requires heap != {} && forall n :: n in heap ==> n in distance
    ensures u in heap && forall n :: n in heap ==> !Closer(distance[n], distance[u])
  {
    u :| u in heap;
    var todo := heap - {u};
    while todo != {}
      invariant todo <= heap && u in heap
      invariant forall n :: n in heap && n !in todo ==> !Closer(distance[n], distance[u])
      decreases todo
    {
      var n :| n in todo;
      todo := todo - {n};
      if Closer(distance[n], distance[u]) {
        u := n;
      }
    }
  }

  /** The inner loop: every neighbour of the node just taken. */
  method RelaxNeighbors(table: Table, self: string, d0: Distances, p0: Previous, ghost heap: set<string>, u: string)
    returns (distance: Distances, previous: Previous)
    requires Searching(table, self, d0, p0, heap) && LastTaken(table, d0, heap, u)
    ensures Searching(table, self, distance, previous, heap) && Improved(table, heap, d0, distance)
    ensures Relaxed(table, distance, u)
  {
    distance, previous := d0, p0;
    var todo := table[u].neighbors;
    while todo != {}
      invariant todo <= table[u].neighbors
      invariant Searching(table, self, distance, previous, heap) && LastTaken(table, distance, heap, u)
      invariant Improved(table, heap, d0, distance)
      invariant RelaxedExcept(table, distance, u, todo)
      decreases todo
    {
      var v :| v in todo;
      todo := todo - {v};
      if v in distance && distance[u].Some? {
        if Closer(Some(distance[u].value + 1), distance[v]) {
          RelaxOne(table, self, distance, previous, heap, u, v);
          ghost var was := distance;
          distance := distance[v := Some(distance[u].value + 1)];
          previous := previous[v := Some(u)];
          ImprovedTwice(table, heap, d0, was, distance);
          RelaxedOneMore(table, was, distance, u, todo, v);
        }
      }
    }
  }

  ghost predicate RelaxedExcept(table: Table, distance: Distances, u: string, todo: set<string>)
    requires u in distance
  {
    distance[u].Some? ==> forall v :: Edge(table, u, v) && v !in todo ==>
      v in distance && distance[v].Some? && distance[v].value <= distance[u].value + 1
  }

  lemma RelaxedOneMore(table: Table, was: Distances, now: Distances, u: string, todo: set<string>, v: string)
    requires u in was && was[u].Some? && v != u && RelaxedExcept(table, was, u, todo + {v})
    requires v in was && Closer(Some(was[u].value + 1), was[v]) && now == was[v := Some(was[u].value + 1)]
    ensures RelaxedExcept(table, now, u, todo)
  {
  }

  lemma ImprovedTwice(table: Table, heap: set<string>, a: Distances, b: Distances, c: Distances)
    requires Improved(table, heap, a, b) && Improved(table, heap, b, c)
    ensures Improved(table, heap, a, c)
  {
  }

  method InitialDistances(table: Table, self: string)
    returns (distance: Distances, previous: Previous, heap: set<string>)
    requires self in table
    ensures Searching(table, self, distance, previous, heap) && heap == table.Keys
  {
    distance, previous, heap := map[], map[], {};
    var todo := table.Keys;
    while todo != {}
      invariant todo <= table.Keys && heap == table.Keys - todo
      invariant forall n :: (n in heap <==> n in distance) && (n in heap <==> n in previous)
      invariant forall n :: n in heap ==> previous[n] == None && distance[n] == if n == self then Some(0) else None
      decreases todo
    {
      var n :| n in todo;
      todo := todo - {n};
      distance := distance[n := if n != self then None else Some(0)];
      previous := previous[n := None];
      heap := heap + {n};
    }
  }

  /** The loop over the heap. */
  method FindDistances(table: Table, self: string) returns (distance: Distances, previous: Previous)
    requires self in table
    ensures Searched(table, self, distance, previous)
    ensures forall v :: v in table ==> IsDistance(table, self, v, distance[v])
  {
    var heap;
    distance, previous, heap := InitialDistances(table, self);
    while heap != {}
      invariant Searching(table, self, distance, previous, heap) && AllRelaxed(table, distance, heap)
      decreases heap
    {
      var u := Nearest(distance, heap);
      TakeNearest(table, self, distance, previous, heap, u);
      ghost var was := distance;
      distance, previous := RelaxNeighbors(table, self, distance, previous, heap - {u}, u);
      RelaxedAfterRound(table, was, distance, heap, u);
      heap := heap - {u};
    }
    SearchIsDone(table, self, distance, previous);
  }

  lemma TakeNearest(table: Table, self: string, distance: Distances, previous: Previous, heap: set<string>, u: string)
    requires Searching(table, self, distance, previous, heap) && u in heap
    requires forall n :: n in heap ==> !Closer(distance[n], distance[u])
    ensures Searching(table, self, distance, previous, heap - {u}) && LastTaken(table, distance, heap - {u}, u)
  {
  }

  lemma RelaxedAfterRound(table: Table, was: Distances, now: Distances, heap: set<string>, u: string)
    requires AllRelaxed(table, was, heap) && Improved(table, heap - {u}, was, now) && u in now && Relaxed(table, now, u)
    ensures AllRelaxed(table, now, heap - {u})
  {
    forall a | a in table && a !in heap - {u} ensures a in now && Relaxed(table, now, a) {
      if a != u { ImprovedKeepsRelaxed(table, heap - {u}, was, now, a); }
    }
  }

  lemma SearchIsDone(table: Table, self: string, distance: Distances, previous: Previous)
    requires Searching(table, self, distance, previous, {}) && AllRelaxed(table, distance, {})
    ensures forall v :: v in table ==> IsDistance(table, self, v, distance[v])
  {
    forall v | v in table ensures IsDistance(table, self, v, distance[v]) {
      if distance[v].Some? { ExplainedIsPath(table, self, distance, previous, v); }
      forall k: nat | Path(table, self, v, k) ensures distance[v].Some? && distance[v].value <= k {
        RelaxedIsShortest(table, self, distance, v, k);
      }
    }
  }

  // ----- The tree and the routing table ---------------------------------------------------

  type Tree = map<string, set<string>>

  function ChildrenOf(tree: Tree, u: string): set<string> {
    if u in tree then tree[u] else {}
  }

  /** Distances and predecessors as the search leaves them. */
  ghost predicate Searched(table: Table, self: string, distance: Distances, previous: Previous) {
    && self in table && Covers(table, distance, previous) && distance[self] == Some(0)
    && (forall v :: v in table ==> Explained(table, self, distance, previous, v))
  }

  function WithChild(tree: Tree, parent: string, n: string): Tree {
    tree[parent := ChildrenOf(tree, parent) + {n}]
  }

  /** The nodes no longer in `todo` are listed under their predecessors. */
  ghost predicate Listed(tree: Tree, previous: Previous, todo: set<string>) {
    forall u, v :: v in ChildrenOf(tree, u) <==> v in previous && v !in todo && previous[v] == Some(u)
  }

  lemma ListedOneMore(tree: Tree, previous: Previous, todo: set<string>, n: string)
    requires Listed(tree, previous, todo) && n in todo && n in previous
    ensures Listed(if previous[n].Some? then WithChild(tree, previous[n].value, n) else tree, previous, todo - {n})
  {
    if previous[n].Some? {
      var parent := previous[n].value;
      forall u, v ensures v in ChildrenOf(WithChild(tree, parent, n), u) <==>
          v in ChildrenOf(tree, u) || (u == parent && v == n)
      {
      }
    }
  }

  /** Predecessors along shortest paths, listed from the root down. */
  ghost predicate TreeOf(table: Table, self: string, tree: Tree, distance: Distances, previous: Previous) {
    && Searched(table, self, distance, previous) && Listed(tree, previous, {})
    && forall v :: v in table ==> IsDistance(table, self, v, distance[v])
  }

  ghost predicate IsShortestPathTree(table: Table, self: string, tree: Tree) {
    exists distance, previous :: TreeOf(table, self, tree, distance, previous)
  }

  /** The node stands one link and one step farther from the root than its parent. */
  ghost predicate IsChild(table: Table, self: string, u: string, v: string) {
    v != self && Edge(table, u, v)
    && exists d: nat :: IsDistance(table, self, u, Some(d)) && IsDistance(table, self, v, Some(d + 1))
  }

  /** Exactly the other reachable nodes are listed, each under one node, as a child of it. */
  lemma TreeMeaning(table: Table, self: string, tree: Tree, v: string) returns (parent: Option<string>)
    requires IsShortestPathTree(table, self, tree) && v in table
    ensures forall u :: v in ChildrenOf(tree, u) <==> parent == Some(u)
    ensures parent.Some? <==> v != self && Reachable(table, self, v)
    ensures parent.Some? ==> IsChild(table, self, parent.value, v)
  {
    var distance: Distances, previous: Previous :| TreeOf(table, self, tree, distance, previous);
    ListedIsReached(table, self, distance, previous, v);
    parent := previous[v];
  }

  lemma ListedIsReached(table: Table, self: string, distance: Distances, previous: Previous, v: string)
    requires Searched(table, self, distance, previous) && v in table
    requires forall u :: u in table ==> IsDistance(table, self, u, distance[u])
    ensures v != self && Reachable(table, self, v) <==> previous[v].Some?
    ensures previous[v].Some? ==> IsChild(table, self, previous[v].value, v)
  {
    assert Explained(table, self, distance, previous, v);
    DistanceMeansReachable(table, self, v, distance[v]);
    if previous[v].Some? {
      var u := previous[v].value;
      assert IsDistance(table, self, u, Some(distance[u].value))
          && IsDistance(table, self, v, Some(distance[u].value + 1));
    }
  }

  lemma DistanceMeansReachable(table: Table, u: string, v: string, d: Option<nat>)
    requires IsDistance(table, u, v, d)
    ensures Reachable(table, u, v) <==> d.Some?
  {
  }

  method GetShortestPathTree(table: Table, self: string) returns (reversedTree: Tree)
    requires self in table
    ensures IsShortestPathTree(table, self, reversedTree)
  {
    var d, p := FindDistances(table, self);
    reversedTree := map[];
    var todo := p.Keys;
    while todo != {}
      invariant todo <= p.Keys && Listed(reversedTree, p, todo)
      decreases todo
    {
      var n :| n in todo;
      ListedOneMore(reversedTree, p, todo, n);
      todo := todo - {n};
      if p[n].Some? {
        var parent := p[n].value;
        ghost var was := reversedTree;
        if parent !in reversedTree {
          reversedTree := reversedTree[parent := {}];
        }
        reversedTree := reversedTree[parent := reversedTree[parent] + {n}];
        assert reversedTree == WithChild(was, parent, n);
      }
    }
    assert TreeOf(table, self, reversedTree, d, p);
  }

  /** The neighbour starts a shortest path from `self` to the node. */
  ghost predicate StartsShortestPath(table: Table, self: string, neighbor: string, v: string) {
    Edge(table, self, neighbor) && exists d: nat ::
        IsDistance(table, self, v, Some(d + 1)) && Path(table, neighbor, v, d)
  }

  /** Exactly the other reachable nodes have a route, and it starts a shortest path. */
  ghost predicate IsRoutingTable(table: Table, self: string, routes: map<string, string>) {
    && (forall v :: v in routes <==> v != self && Reachable(table, self, v))
    && (forall v :: v in routes ==> StartsShortestPath(table, self, routes[v], v))
  }

  ghost predicate NoRepeats(queue: seq<string>) {
    forall i, j :: 0 <= i < j < |queue| ==> queue[i] != queue[j]
  }

  /** Every node is served through its predecessor; the queue holds the served nodes whose children are not. */
  ghost predicate Serving(table: Table, self: string, distance: Distances, previous: Previous, done: set<string>,
                          queue: seq<string>, routes: map<string, string>) {
    && NoRepeats(queue)
    && (forall v :: v in queue ==> v !in done && (v == self || v in routes))
    && (forall v :: v in done ==> v in table && (v == self || v in routes))
    && (forall v :: v == self || v in routes ==> v in done || v in queue)
    && (forall v :: v in routes ==>
        v in table && v in distance && v in previous && previous[v].Some? && previous[v].value in done)
    && (forall v :: v in previous && previous[v].Some? && previous[v].value in done ==> v in routes)
    && (forall v :: v in routes ==> Routed(table, self, distance, v, routes[v]))
  }

  ghost predicate Routed(table: Table, self: string, distance: Distances, v: string, neighbor: string)
    requires v in distance
  {
    Edge(table, self, neighbor) && distance[v].Some? && distance[v].value > 0
        && Path(table, neighbor, v, distance[v].value - 1)
  }

  /** The loop over the children of one node. */
  method ServeChildren(parent: string, children: set<string>, r0: map<string, string>, q0: seq<string>)
    returns (routes: map<string, string>, queue: seq<string>)
    requires parent !in children && NoRepeats(q0) && forall v :: v in children ==> v !in q0
    ensures forall v :: v in routes <==> v in r0 || v in children
    ensures forall v :: v in routes ==>
              routes[v] == if v in children then (if parent in r0 then r0[parent] else v) else r0[v]
    ensures NoRepeats(queue) && forall v :: v in queue <==> v in q0 || v in children
  {
    routes, queue := r0, q0;
    var todo := children;
    while todo != {}
      invariant todo <= children && NoRepeats(queue)
      invariant forall v :: v in routes <==> v in r0 || (v in children && v !in todo)
      invariant forall v :: v in routes ==>
        routes[v] == if v in children && v !in todo then (if parent in r0 then r0[parent] else v) else r0[v]
      invariant forall v :: v in queue <==> v in q0 || (v in children && v !in todo)
      decreases todo
    {
      var child :| child in todo;
      todo := todo - {child};
      if parent !in routes {
        routes := routes[child := child];
      } else {
        routes := routes[child := routes[parent]];
      }
      queue := queue + [child];
    }
    assert todo == {};
  }

  /** One round of the queue loop. */
  method ServeFirst(table: Table, self: string, ghost distance: Distances, ghost previous: Previous,
                    ghost done: set<string>,
                    tree: Tree, q0: seq<string>, r0: map<string, string>)
    returns (queue: seq<string>, routes: map<string, string>)
    requires Searched(table, self, distance, previous) && Listed(tree, previous, {}) && q0 != []
    requires Serving(table, self, distance, previous, done, q0, r0)
    ensures Serving(table, self, distance, previous, done + {q0[0]}, queue, routes)
    ensures q0[0] !in done && q0[0] in table
  {
    var parent := q0[0];
    var children := ChildrenOf(tree, parent);
    ChildrenAreNew(table, self, distance, previous, done, q0, r0, children);
    routes, queue := ServeChildren(parent, children, r0, q0[1..]);
    ServedOneMore(table, self, distance, previous, done, q0, r0, children, queue, routes);
  }

  /** The queue loop over the shortest path tree. */
  method UpdateRoutingTable(table: Table, self: string) returns (routes: map<string, string>)
    requires self in table
    ensures IsRoutingTable(table, self, routes)
  {
    routes := map[];
    var tree := GetShortestPathTree(table, self);
    ghost var distance: Distances, previous: Previous :| TreeOf(table, self, tree, distance, previous);
    var queue := [self];
    ghost var done: set<string> := {};
    assert Explained(table, self, distance, previous, self);
    while |queue| > 0
      invariant Serving(table, self, distance, previous, done, queue, routes)
      decreases table.Keys - done
    {
      ghost var parent := queue[0];
      queue, routes := ServeFirst(table, self, distance, previous, done, tree, queue, routes);
      done := done + {parent};
    }
    AllServed(table, self, distance, previous, done, routes);
  }

  lemma FirstAndRest(queue: seq<string>)
    requires queue != [] && NoRepeats(queue)
    ensures NoRepeats(queue[1..])
    ensures forall v :: v in queue <==> v == queue[0] || v in queue[1..]
    ensures queue[0] !in queue[1..]
  {
    assert queue == [queue[0]] + queue[1..];
  }

  lemma ChildrenAreNew(table: Table, self: string, distance: Distances, previous: Previous, done: set<string>,
                       queue: seq<string>, routes: map<string, string>, children: set<string>)
    requires Serving(table, self, distance, previous, done, queue, routes) && queue != []
    requires forall v :: v in children <==> v in previous && previous[v] == Some(queue[0])
    requires Searched(table, self, distance, previous)
    ensures NoRepeats(queue[1..])
    ensures queue[0] !in children && forall v :: v in children ==> v !in queue[1..] && v !in routes && v != self
  {
    FirstAndRest(queue);
    forall v | v in children ensures v != queue[0] && v !in queue[1..] && v !in routes && v != self {
      assert Explained(table, self, distance, previous, v);
    }
  }

  lemma ServedOneMore(table: Table, self: string, distance: Distances, previous: Previous, done: set<string>,
                      q0: seq<string>, r0: map<string, string>, children: set<string>,
                      queue: seq<string>, routes: map<string, string>)
    requires Searched(table, self, distance, previous) && q0 != []
    requires Serving(table, self, distance, previous, done, q0, r0)
    requires forall v :: v in children <==> v in previous && previous[v] == Some(q0[0])
    requires q0[0] !in children && forall v :: v in children ==> v !in q0[1..] && v !in r0 && v != self
    requires forall v :: v in routes <==> v in r0 || v in children
    requires forall v :: v in routes ==>
               routes[v] == if v in children then (if q0[0] in r0 then r0[q0[0]] else v) else r0[v]
    requires NoRepeats(queue) && forall v :: v in queue <==> v in q0[1..] || v in children
    ensures Serving(table, self, distance, previous, done + {q0[0]}, queue, routes)
    ensures q0[0] !in done && q0[0] in table
  {
    FirstAndRest(q0);
    var parent := q0[0];
    assert parent == self || parent in r0;
    assert parent in r0 ==> Routed(table, self, distance, parent, r0[parent]);
    forall v | v in children ensures v in table && Routed(table, self, distance, v, routes[v]) {
      ChildIsRouted(table, self, distance, previous, parent, r0, v, routes[v]);
    }
  }

  /** A child is routed like its parent, or directly when the parent is the node itself. */
  lemma ChildIsRouted(table: Table, self: string, distance: Distances, previous: Previous, parent: string,
                      r0: map<string, string>, v: string, neighbor: string)
    requires Searched(table, self, distance, previous) && v in previous && previous[v] == Some(parent)
    requires parent == self || parent in r0
    requires parent in r0 ==> parent != self && parent in distance && Routed(table, self, distance, parent, r0[parent])
    requires neighbor == if parent in r0 then r0[parent] else v
    ensures Routed(table, self, distance, v, neighbor)
  {
    assert Explained(table, self, distance, previous, v);
    if parent in r0 {
      PathGrows(table, neighbor, parent, v, distance[parent].value - 1);
    }
  }

  lemma {:induction false} ReachableIsServed(table: Table, self: string, distance: Distances, previous: Previous,
                                             done: set<string>, routes: map<string, string>, v: string)
    requires Searched(table, self, distance, previous) && Serving(table, self, distance, previous, done, [], routes)
    requires v in table && distance[v].Some?
    ensures v == self || v in routes
    decreases distance[v].value
  {
    assert Explained(table, self, distance, previous, v);
    if v != self {
      var u := previous[v].value;
      ReachableIsServed(table, self, distance, previous, done, routes, u);
      assert u in done;
    }
  }

  lemma ServedExactly(table: Table, self: string, distance: Distances, previous: Previous, done: set<string>,
                      routes: map<string, string>, v: string)
    requires Searched(table, self, distance, previous) && Serving(table, self, distance, previous, done, [], routes)
    requires forall u :: u in table ==> IsDistance(table, self, u, distance[u])
    ensures v in routes ==> v != self && Reachable(table, self, v)
    ensures v != self && Reachable(table, self, v) ==> v in routes
  {
    if v != self && Reachable(table, self, v) {
      var k: nat :| Path(table, self, v, k);
      PathEndsInTable(table, self, v, k);
      ReachableIsServed(table, self, distance, previous, done, routes, v);
    }
    if v in routes { RoutedIsReachable(table, self, distance, v, routes[v]); }
  }

  lemma RoutedStartsShortestPath(table: Table, self: string, distance: Distances, v: string, neighbor: string)
    requires v in distance && Routed(table, self, distance, v, neighbor) && IsDistance(table, self, v, distance[v])
    ensures StartsShortestPath(table, self, neighbor, v)
  {
    var d: nat := distance[v].value - 1;
    assert IsDistance(table, self, v, Some(d + 1)) && Path(table, neighbor, v, d);
  }

  lemma AllServed(table: Table, self: string, distance: Distances, previous: Previous, done: set<string>,
                  routes: map<string, string>)
    requires Searched(table, self, distance, previous) && Serving(table, self, distance, previous, done, [], routes)
    requires forall v :: v in table ==> IsDistance(table, self, v, distance[v])
    ensures IsRoutingTable(table, self, routes)
  {
    forall v ensures v in routes <==> v != self && Reachable(table, self, v) {
      ServedExactly(table, self, distance, previous, done, routes, v);
    }
    forall v | v in routes ensures StartsShortestPath(table, self, routes[v], v) {
      RoutedStartsShortestPath(table, self, distance, v, routes[v]);
    }
  }

  lemma {:induction false} PathEndsInTable(table: Table, u: string, v: string, k: nat)
    requires Path(table, u, v, k)
    ensures v in table
  {
    if k > 0 { var w :| PathThrough(table, u, w, v, k); }
  }

  lemma RoutedIsReachable(table: Table, self: string, distance: Distances, v: string, neighbor: string)
    requires v in distance && Routed(table, self, distance, v, neighbor) && IsDistance(table, self, v, distance[v])
    requires self in table && IsDistance(table, self, self, Some(0))
    ensures v != self && Reachable(table, self, v)
  {
    assert Path(table, self, v, distance[v].value);
    assert Path(table, self, self, 0);
  }
}
