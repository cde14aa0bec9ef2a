/**
  Replicas of one key writing locally and merging each other's sibling sets (the write and
  merge paths of bucket/store.go over data/sibling_set.go), without garbage collection.
 */
module Replication {
  import opened Wrappers
  import opened Clocks
  import opened Siblings
  import opened SiblingAlgebra

  // ----- What one replica does to one key -------------------------------------------------

  datatype Op = Put(bytes: seq<byte>) | Delete

  ghost predicate AllTombstones(s: set<Sibling>) {
    forall a :: a in s ==> a.IsTombstone()
  }

  /** A tombstone over tombstones takes the time of an oldest one, everything else the current time. */
  ghost predicate StampedBy(s: set<Sibling>, op: Op, now: nat, timestamp: nat) {
    if op.Delete? && s != {} && AllTombstones(s) then
      && (exists a :: a in s && a.timestamp == timestamp)
      && (forall a :: a in s ==> timestamp <= a.timestamp)
    else timestamp == now
  }

  /** A client that sends no context writes over everything the replica holds. */
  ghost function WriteContext(s: set<Sibling>, context: Context): Context {
    if |context| == 0 then Join(s) else context
  }

  ghost function NewSibling(s: set<Sibling>, context: Context, node: NodeName, op: Op, timestamp: nat): Sibling {
    Sibling(Event(s, WriteContext(s, context), node), if op.Put? then Some(op.bytes) else None, timestamp)
  }

  ghost function Written(s: set<Sibling>, a: Sibling): set<Sibling> {
    Sync(Discard(s, a.clock), {a})
  }

  // ----- What a write stores --------------------------------------------------------------

  /** `a` has a dot of the node, one above every counter of the node in the set and in its own context. */
  ghost predicate HasNextDot(held: set<Sibling>, node: NodeName, a: Sibling) {
    && a.clock.dot.node == node
    && (node in a.clock.vv ==> a.clock.vv[node] < a.clock.dot.count)
    && (forall b, k: nat :: b in held && Mentions(b.clock, node, k) ==> k < a.clock.dot.count)
    && (|| a.clock.dot.count == 1
        || (node in a.clock.vv && a.clock.vv[node] == a.clock.dot.count - 1)
        || exists b :: b in held && Mentions(b.clock, node, a.clock.dot.count - 1))
  }

  /** The context holds for every name the largest counter in the set; a dot at the empty name is left out. */
  ghost predicate CoversAll(held: set<Sibling>, vv: Context) {
    && (forall n :: n in vv ==> exists b :: b in held && Mentions(b.clock, n, vv[n]))
    && (forall b :: b in held && b.clock.dot.node != "" ==>
          b.clock.dot.node in vv && b.clock.dot.count <= vv[b.clock.dot.node])
    && (forall b, n :: b in held && n in b.clock.vv ==> n in vv && b.clock.vv[n] <= vv[n])
  }

  /**
    The set after a write, told by dots, counters and values: one new sibling under the next dot
    of the node, with the value of the operation and in the context of the client, or of
    everything held when the client sent none; a held sibling is gone exactly when that context
    covers its dot.
   */
  ghost predicate WroteSibling(held: set<Sibling>, context: Context, op: Op, node: NodeName, after: set<Sibling>,
                               a: Sibling) {
    && a in after && a !in held && HasNextDot(held, node, a)
    && a.value == (match op case Put(bytes) => Some(bytes) case Delete => None)
    && (if context == map[] then CoversAll(held, a.clock.vv) else a.clock.vv == context)
    && (forall b :: b in after && b != a ==> b in held)
    && (forall b :: b in held ==>
          (b !in after <==> b.clock.dot.node in a.clock.vv && b.clock.dot.count <= a.clock.vv[b.clock.dot.node]))
  }

  /** The time of a new sibling: that of an oldest tombstone for a delete over tombstones, else the current one. */
  ghost predicate WroteAt(held: set<Sibling>, op: Op, now: nat, timestamp: nat) {
    if op == Delete && held != {} && forall b :: b in held ==> b.value == None then
      (exists b :: b in held && b.timestamp == timestamp) && forall b :: b in held ==> timestamp <= b.timestamp
    else timestamp == now
  }

  /** The new sibling is not covered by anything held, so merging it in drops nothing more. */
  lemma WrittenAddsOne(held: set<Sibling>, context: Context, node: NodeName, op: Op, timestamp: nat)
    ensures var a := NewSibling(held, context, node, op, timestamp);
            Written(held, a) == Discard(held, a.clock) + {a}
            && forall b :: b in held ==> b.clock.MaxDot(node) < a.clock.dot.count
  {
    var a := NewSibling(held, context, node, op, timestamp);
    forall b | b in held ensures b.clock.MaxDot(node) < a.clock.dot.count { }
    forall b | b in Discard(held, a.clock) ensures !LosesLeft(b, a) && !Below(a, b) {
      assert b.clock.MaxDot(node) < a.clock.dot.count;
    }
  }

  lemma NextDotIsNext(held: set<Sibling>, context: Context, node: NodeName, op: Op, timestamp: nat)
    ensures HasNextDot(held, node, NewSibling(held, context, node, op, timestamp))
  {
    var a := NewSibling(held, context, node, op, timestamp);
    WrittenAddsOne(held, context, node, op, timestamp);
    forall b | b in held { MentionedIsBelow(b.clock, node); }
    if a.clock.dot.count > 1 && !(node in a.clock.vv && a.clock.vv[node] == a.clock.dot.count - 1) {
      var b :| b in held && b.clock.MaxDot(node) == JoinOne(held, node);
    }
  }

  lemma JoinCoversAll(held: set<Sibling>)
    ensures CoversAll(held, Join(held))
  {
    forall b | b in held && b.clock.dot.node != ""
      ensures b.clock.dot.node in Join(held) && b.clock.dot.count <= Join(held)[b.clock.dot.node]
    {
      ListedIsCovered(held, b, b.clock.dot.node);
    }
    forall b, n | b in held && n in b.clock.vv ensures n in Join(held) && b.clock.vv[n] <= Join(held)[n] {
      ListedIsCovered(held, b, n);
    }
    forall n | n in Join(held) ensures exists b :: b in held && Mentions(b.clock, n, Join(held)[n]) {
      LargestIsListed(held, n);
    }
  }

  lemma ListedIsCovered(held: set<Sibling>, b: Sibling, n: NodeName)
    requires b in held && n in b.clock.ReplicaSet()
    ensures n in Join(held) && b.clock.MaxDot(n) <= Join(held)[n]
  {
    assert b in Listing(held, n);
  }

  lemma LargestIsListed(held: set<Sibling>, n: NodeName)
    requires n in Names(held)
    ensures exists b :: b in held && Mentions(b.clock, n, JoinOne(Listing(held, n), n))
  {
    var s := Listing(held, n);
    var c :| c in held && n in c.clock.ReplicaSet();
    assert c in s;
    if JoinOne(s, n) == 0 {
      MentionedIsBelow(c.clock, n);
    } else {
      var b :| b in s && b.clock.MaxDot(n) == JoinOne(s, n);
      MentionedIsBelow(b.clock, n);
    }
  }

  lemma WrittenMeaning(held: set<Sibling>, context: Context, node: NodeName, op: Op, timestamp: nat)
    ensures var a := NewSibling(held, context, node, op, timestamp);
            WroteSibling(held, context, op, node, Written(held, a), a) && a.timestamp == timestamp
  {
    var a := NewSibling(held, context, node, op, timestamp);
    WrittenAddsOne(held, context, node, op, timestamp);
    NextDotIsNext(held, context, node, op, timestamp);
    JoinCoversAll(held);
    AddedToRest(held, a, node);
  }

  lemma AddedToRest(held: set<Sibling>, a: Sibling, node: NodeName)
    requires a.clock.dot.node == node && forall b :: b in held ==> b.clock.MaxDot(node) < a.clock.dot.count
    ensures var after := Discard(held, a.clock) + {a};
            && a in after && a !in held && (forall b :: b in after && b != a ==> b in held)
            && forall b :: b in held ==>
                 (b !in after <==> b.clock.dot.node in a.clock.vv && b.clock.dot.count <= a.clock.vv[b.clock.dot.node])
  {
  }

  // ----- The system -----------------------------------------------------------------------

  /**
    A sibling set somebody holds.  `delivered` are the writes that reached it, directly or
    through other sets; `known` adds the writes covered by the contexts that reached it.
   */
  datatype Copy = Copy(siblings: set<Sibling>, delivered: set<Sibling>, known: set<Sibling>)

  /** `past` are the copies read from a replica so far, `observed` every copy anyone read or merged. */
  datatype System = System(
    replicas: map<NodeName, Copy>,
    past: map<NodeName, set<Copy>>,
    observed: set<Copy>,
    created: set<Sibling>)

  datatype Step =
    | Read(node: NodeName)
    | Combine(a: Copy, b: Copy)
    | Write(node: NodeName, source: Option<Copy>, op: Op, timestamp: nat)
    | Merge(node: NodeName, from: Copy)
    | Repair(node: NodeName, version: Copy, merged: Copy)

  const NOTHING := Copy({}, {}, {})

  ghost predicate Init(s: System) {
    && "" !in s.replicas
    && s.past.Keys == s.replicas.Keys
    && (forall n :: n in s.replicas ==> s.replicas[n] == NOTHING && s.past[n] == {})
    && s.observed == {} && s.created == {}
  }

  ghost function SourceContext(source: Option<Copy>): Context {
    if source.None? then map[] else Join(source.value.siblings)
  }

  ghost function SourceKnown(source: Option<Copy>): set<Sibling> {
    if source.None? then {} else source.value.known
  }

  ghost function AfterWrite(s: System, node: NodeName, source: Option<Copy>, a: Sibling): System
    requires node in s.replicas
  {
    var r := s.replicas[node];
    s.(replicas := s.replicas[node :=
        Copy(Written(r.siblings, a), r.delivered + {a}, r.known + SourceKnown(source) + {a})],
       created := s.created + {a})
  }

  /** `out` is what the replica may hold after merging `theirs`. */
  ghost predicate MergedInto(mine: Copy, theirs: set<Sibling>, from: Copy, node: NodeName, out: Copy) {
    && MergeSyncResult(mine.siblings, theirs, node, out.siblings)
    && out.delivered == mine.delivered + from.delivered
    && out.known == mine.known + from.known
  }

  ghost predicate Next(s: System, t: System, step: Step) {
    match step
    case Read(node) =>
      && node in s.replicas && node in s.past
      && t == s.(past := s.past[node := s.past[node] + {s.replicas[node]}], observed := s.observed + {s.replicas[node]})
    case Combine(a, b) =>
      && a in s.observed && b in s.observed
      && t == s.(observed := s.observed +
                   {Copy(Sync(a.siblings, b.siblings), a.delivered + b.delivered, a.known + b.known)})
    case Write(node, source, op, timestamp) =>
      && node in s.replicas && (source.Some? ==> source.value in s.observed)
      && (op.Delete? ==> s.replicas[node].siblings != {})
      && t == AfterWrite(s, node, source,
          NewSibling(s.replicas[node].siblings, SourceContext(source), node, op, timestamp))
    case Merge(node, from) =>
      && node in s.replicas && from in s.observed && node in t.replicas
      && MergedInto(s.replicas[node], from.siblings, from, node, t.replicas[node])
      && t == s.(replicas := s.replicas[node := t.replicas[node]])
    case Repair(node, version, merged) =>
      && node in s.replicas && node in s.past && version in s.past[node] && merged in s.observed && node in t.replicas
      && MergedInto(s.replicas[node], Diff(version.siblings, merged.siblings), merged, node, t.replicas[node])
      && t == s.(replicas := s.replicas[node := t.replicas[node]])
  }

  ghost predicate CanStep(s: System, t: System) {
    exists step :: Next(s, t, step)
  }

  ghost predicate Linked(run: seq<System>, i: nat)
    requires i + 1 < |run|
  {
    CanStep(run[i], run[i + 1])
  }

  ghost predicate IsRun(run: seq<System>) {
    && |run| > 0 && Init(run[0])
    && forall i: nat :: i + 1 < |run| ==> Linked(run, i)
  }

  // ----- The invariant --------------------------------------------------------------------

  /** Each dot names one sibling. */
  ghost predicate DotsAreUnique(u: set<Sibling>) {
    forall a, b :: a in u && b in u && a.clock.dot == b.clock.dot ==> a == b
  }

  /** No sibling is in its own context, and a later context includes an earlier one. */
  ghost predicate ContextsGrow(u: set<Sibling>) {
    && (forall a :: a in u ==> !HappenedBefore(a, a))
    && (forall a, b :: a in u && b in u && HappenedBefore(a, b) ==> ContextAtMost(a.clock.vv, b.clock.vv))
  }

  /** Siblings mention only replicas. */
  ghost predicate MentionsOnly(u: set<Sibling>, nodes: set<NodeName>) {
    forall a :: a in u ==> a.clock.dot.node in nodes && a.clock.vv.Keys <= nodes
  }

  ghost predicate Causal(u: set<Sibling>, nodes: set<NodeName>) {
    && DotsAreUnique(u) && ContextsGrow(u) && MentionsOnly(u, nodes) && "" !in nodes
    && (forall a :: a in u ==> a.clock.dot.count >= 1)
  }

  /** The clocks of the set count at least up to the dot of `a`. */
  ghost predicate Covers(s: set<Sibling>, a: Sibling) {
    a.clock.dot.count <= JoinOne(s, a.clock.dot.node)
  }

  /** The copy is the maximal part of what it was given and knows every write its clocks cover. */
  ghost predicate Sound(c: Copy, u: set<Sibling>) {
    && c.delivered <= c.known <= u
    && c.siblings == Maximal(c.delivered) == Maximal(c.known)
    && (forall a {:trigger Covers(c.siblings, a)} :: a in u && Covers(c.siblings, a) ==> a in c.known)
  }

  /** A replica knows all counters of its own dots. */
  ghost predicate OwnDots(s: System) {
    forall n {:trigger JoinOne(s.created, n)} :: n in s.replicas ==>
      JoinOne(s.created, n) <= JoinOne(s.replicas[n].siblings, n)
  }

  ghost predicate CopiesAreSound(s: System) {
    && (forall n :: n in s.replicas ==> Sound(s.replicas[n], s.created))
    && (forall c :: c in s.observed ==> Sound(c, s.created))
  }

  ghost predicate PastIsKnown(s: System) {
    forall n, c :: n in s.past && c in s.past[n] ==>
      n in s.replicas && c in s.observed && c.known <= s.replicas[n].known && c.delivered <= s.replicas[n].delivered
  }

  ghost predicate Inv(s: System) {
    && s.past.Keys == s.replicas.Keys
    && Causal(s.created, s.replicas.Keys)
    && CopiesAreSound(s)
    && OwnDots(s)
    && PastIsKnown(s)
  }

  // ----- Consequences of causality --------------------------------------------------------

  lemma CausalIsUniverse(u: set<Sibling>, nodes: set<NodeName>)
    requires Causal(u, nodes)
    ensures Universe(u)
    ensures forall a, b :: a in u && b in u ==> (Below(a, b) <==> HappenedBefore(a, b))
  {
    forall a, b, c | a in u && b in u && c in u && HappenedBefore(a, b) && HappenedBefore(b, c)
      ensures HappenedBefore(a, c)
    {
      assert ContextAtMost(b.clock.vv, c.clock.vv);
    }
    forall a | a in u ensures a.Compare(a) == 0 { CompareIsAnOrder(a, a, a); }
  }

  lemma MaxDotGrows(u: set<Sibling>, nodes: set<NodeName>, a: Sibling, b: Sibling, n: NodeName)
    requires Causal(u, nodes) && a in u && b in u && HappenedBefore(a, b)
    ensures a.clock.MaxDot(n) <= b.clock.MaxDot(n)
  {
    assert ContextAtMost(a.clock.vv, b.clock.vv);
  }

  /** What a set knows is in it or overwritten by a member of it. */
  lemma KnownIsCovered(c: Copy, u: set<Sibling>, nodes: set<NodeName>, a: Sibling) returns (top: Sibling)
    requires Causal(u, nodes) && Sound(c, u) && a in c.known
    ensures top in c.siblings && (top == a || HappenedBefore(a, top))
    ensures forall n :: a.clock.MaxDot(n) <= top.clock.MaxDot(n)
  {
    CausalIsUniverse(u, nodes);
    top := MaximalCovers(u, c.known, a);
    if top != a {
      forall n ensures a.clock.MaxDot(n) <= top.clock.MaxDot(n) { MaxDotGrows(u, nodes, a, top, n); }
    }
  }

  /** The counters a copy mentions are those of what it knows. */
  lemma JoinOneOfKnown(c: Copy, u: set<Sibling>, nodes: set<NodeName>, n: NodeName)
    requires Causal(u, nodes) && Sound(c, u)
    ensures JoinOne(c.siblings, n) == JoinOne(c.known, n)
  {
    JoinOneIsMonotone(c.siblings, c.known, n);
    if JoinOne(c.known, n) != 0 {
      var a :| a in c.known && a.clock.MaxDot(n) == JoinOne(c.known, n);
      var top := KnownIsCovered(c, u, nodes, a);
    }
  }

  lemma JoinOneOfUnion(a: set<Sibling>, b: set<Sibling>, n: NodeName)
    ensures JoinOne(a + b, n) == Max(JoinOne(a, n), JoinOne(b, n))
  {
    JoinOneIsMonotone(a, a + b, n);
    JoinOneIsMonotone(b, a + b, n);
    if JoinOne(a + b, n) != 0 {
      var x :| x in a + b && x.clock.MaxDot(n) == JoinOne(a + b, n);
    }
  }

  lemma SoundIsAntichain(c: Copy, u: set<Sibling>)
    requires Sound(c, u)
    ensures Antichain(c.siblings) && c.siblings <= c.delivered
  {
    AntichainIsItsMaximal(c.delivered);
  }

  /** Merging two sound copies gives a sound copy of what both know. */
  lemma MergeIsSound(a: Copy, b: Copy, u: set<Sibling>, nodes: set<NodeName>, c: Copy)
    requires Causal(u, nodes) && Sound(a, u) && Sound(b, u)
    requires c == Copy(Sync(a.siblings, b.siblings), a.delivered + b.delivered, a.known + b.known)
    ensures Sound(c, u)
  {
    CausalIsUniverse(u, nodes);
    SoundIsAntichain(a, u);
    SoundIsAntichain(b, u);
    SyncIsMaximal(u, a.siblings, b.siblings);
    MaximalOfTwo(u, a.delivered, b.delivered);
    MaximalOfTwo(u, a.known, b.known);
    forall x | x in u && Covers(c.siblings, x) ensures x in c.known {
      JoinOneIsMonotone(c.siblings, a.siblings + b.siblings, x.clock.dot.node);
      JoinOneOfUnion(a.siblings, b.siblings, x.clock.dot.node);
      assert Covers(a.siblings, x) || Covers(b.siblings, x);
    }
  }

  lemma MaximalOfTwo(u: set<Sibling>, s: set<Sibling>, t: set<Sibling>)
    requires Universe(u) && s <= u && t <= u
    ensures Maximal(Maximal(s) + Maximal(t)) == Maximal(s + t)
  {
    MaximalAbsorbs(u, s, Maximal(t));
    MaximalAbsorbs(u, t, s);
    assert Maximal(t) + s == s + Maximal(t);
    assert t + s == s + t;
  }

  // ----- A write ---------------------------------------------------------------------------

  /**
    `a` is written at `node`, which holds `r` and knows its own dots, in the context of the
    copy `source`.
   */
  ghost predicate IsNewEvent(u: set<Sibling>, nodes: set<NodeName>, node: NodeName, r: Copy, source: Copy, a: Sibling) {
    && Causal(u, nodes) && node in nodes && Sound(r, u) && Sound(source, u)
    && (forall x :: x in u ==> x.clock.MaxDot(node) <= JoinOne(r.siblings, node))
    && a.clock == DVV(Dot(node, JoinOne(r.siblings, node) + 1), Join(source.siblings))
  }

  /** The new context covers exactly what the source of the write knows. */
  lemma NewEventCovers(u: set<Sibling>, nodes: set<NodeName>, node: NodeName, r: Copy, source: Copy, a: Sibling,
                       x: Sibling)
    requires IsNewEvent(u, nodes, node, r, source, a) && x in u
    ensures HappenedBefore(x, a) <==> x in source.known
    ensures !HappenedBefore(a, x) && x.clock.dot != a.clock.dot
    ensures x in source.known ==> ContextAtMost(x.clock.vv, a.clock.vv)
  {
    var n := x.clock.dot.node;
    JoinAgreesWithJoinOne(source.siblings, n);
    assert x.clock.MaxDot(node) <= JoinOne(r.siblings, node);
    if x in source.known {
      var top := KnownIsCovered(source, u, nodes, x);
      assert x.clock.dot.count <= x.clock.MaxDot(n) <= top.clock.MaxDot(n) <= JoinOne(source.siblings, n);
      ContextOfKnown(u, nodes, source, x, top);
    }
    assert HappenedBefore(x, a) ==> Covers(source.siblings, x);
  }

  lemma ContextOfKnown(u: set<Sibling>, nodes: set<NodeName>, source: Copy, x: Sibling, top: Sibling)
    requires Causal(u, nodes) && source.siblings <= u && x in u && top in source.siblings
    requires top == x || HappenedBefore(x, top)
    ensures ContextAtMost(x.clock.vv, Join(source.siblings))
  {
    assert top in u && ContextAtMost(x.clock.vv, top.clock.vv);
    forall m | m in x.clock.vv ensures m in Join(source.siblings) && x.clock.vv[m] <= Join(source.siblings)[m] {
      assert m in nodes;
      JoinAgreesWithJoinOne(source.siblings, m);
      assert m in top.clock.ReplicaSet() && m in Names(source.siblings);
      assert x.clock.vv[m] <= top.clock.MaxDot(m) <= JoinOne(source.siblings, m);
    }
  }

  lemma JoinIsBounded(u: set<Sibling>, nodes: set<NodeName>, s: set<Sibling>, n: NodeName)
    requires Causal(u, nodes) && s <= u && n in Join(s)
    ensures n in nodes && Join(s)[n] == JoinOne(s, n) <= JoinOne(u, n)
  {
    var b :| b in s && n in b.clock.ReplicaSet();
    assert b in u;
    JoinAgreesWithJoinOne(s, n);
    JoinOneIsMonotone(s, u, n);
  }

  lemma NewContextIsBounded(u: set<Sibling>, nodes: set<NodeName>, node: NodeName, r: Copy, source: Copy, a: Sibling)
    requires IsNewEvent(u, nodes, node, r, source, a)
    ensures forall n :: n in a.clock.vv ==> n in nodes && a.clock.vv[n] == JoinOne(source.siblings, n) <= JoinOne(u, n)
    ensures a.clock.MaxDot(node) == JoinOne(r.siblings, node) + 1 && !HappenedBefore(a, a)
  {
    forall n | n in a.clock.vv ensures n in nodes && a.clock.vv[n] == JoinOne(source.siblings, n) <= JoinOne(u, n) {
      JoinIsBounded(u, nodes, source.siblings, n);
    }
    assert JoinOne(u, node) <= JoinOne(r.siblings, node);
  }

  lemma NewEventIsCausal(u: set<Sibling>, nodes: set<NodeName>, node: NodeName, r: Copy, source: Copy, a: Sibling)
    requires IsNewEvent(u, nodes, node, r, source, a)
    ensures Causal(u + {a}, nodes)
  {
    assert DotsAreUnique(u + {a}) by {
      forall x | x in u ensures x.clock.dot != a.clock.dot { NewEventCovers(u, nodes, node, r, source, a, x); }
    }
    NewEventGrowsContexts(u, nodes, node, r, source, a);
    assert MentionsOnly(u + {a}, nodes) by { NewContextIsBounded(u, nodes, node, r, source, a); }
  }

  lemma NewEventGrowsContexts(u: set<Sibling>, nodes: set<NodeName>, node: NodeName, r: Copy, source: Copy, a: Sibling)
    requires IsNewEvent(u, nodes, node, r, source, a)
    ensures ContextsGrow(u + {a})
  {
    NewContextIsBounded(u, nodes, node, r, source, a);
    forall x, y | x in u + {a} && y in u + {a} && HappenedBefore(x, y) ensures ContextAtMost(x.clock.vv, y.clock.vv) {
      if x != a { NewEventCovers(u, nodes, node, r, source, a, x); }
      if y != a { NewEventCovers(u, nodes, node, r, source, a, y); }
    }
  }

  /** Copies made before the write stay sound: none of them mentions the new dot. */
  lemma OldCopyStaysSound(u: set<Sibling>, nodes: set<NodeName>, node: NodeName, r: Copy, source: Copy, a: Sibling,
                          c: Copy)
    requires IsNewEvent(u, nodes, node, r, source, a) && Sound(c, u)
    ensures Sound(c, u + {a})
  {
    assert c.siblings <= u;
    if JoinOne(c.siblings, node) != 0 {
      var x :| x in c.siblings && x.clock.MaxDot(node) == JoinOne(c.siblings, node);
      assert x in u;
    }
  }

  /** The replica's set after the write is the maximal part of the old one and the new sibling. */
  lemma WrittenIsMaximal(u: set<Sibling>, nodes: set<NodeName>, node: NodeName, r: Copy, source: Copy, a: Sibling)
    requires IsNewEvent(u, nodes, node, r, source, a)
    ensures Written(r.siblings, a) == Maximal(r.siblings + {a})
  {
    NewEventIsCausal(u, nodes, node, r, source, a);
    CausalIsUniverse(u + {a}, nodes);
    SoundIsAntichain(r, u);
    forall y | y in r.siblings ensures !Below(a, y) { NewEventCovers(u, nodes, node, r, source, a, y); }
    BelowIsIrreflexive(u + {a}, a);
    WriteKeepsMaximal(u + {a}, r.siblings, a);
  }

  lemma WriteKeepsMaximal(u: set<Sibling>, s: set<Sibling>, a: Sibling)
    requires Universe(u) && s <= u && a in u && Antichain(s) && !Below(a, a)
    requires forall y :: y in s ==> !Below(a, y) && (Below(y, a) <==> HappenedBefore(y, a))
    ensures Written(s, a) == Maximal(s + {a})
  {
    var rest := Discard(s, a.clock);
    assert Antichain(rest) && Antichain({a});
    SyncIsMaximal(u, rest, {a});
    forall x | x in Maximal(rest + {a}) ensures x in Maximal(s + {a}) { }
  }

  lemma NewCopyIsSound(u: set<Sibling>, nodes: set<NodeName>, node: NodeName, r: Copy, source: Copy, a: Sibling,
                       extra: set<Sibling>, c: Copy)
    requires IsNewEvent(u, nodes, node, r, source, a)
    requires source == r || extra <= source.known
    requires source == r ==> extra <= r.known
    requires source != r ==> source.known <= extra
    requires c == Copy(Written(r.siblings, a), r.delivered + {a}, r.known + extra + {a})
    ensures Sound(c, u + {a})
    ensures a in c.siblings && JoinOne(c.siblings, node) == JoinOne(r.siblings, node) + 1
  {
    NewEventIsCausal(u, nodes, node, r, source, a);
    CausalIsUniverse(u + {a}, nodes);
    WrittenIsMaximal(u, nodes, node, r, source, a);
    MaximalAbsorbs(u + {a}, r.delivered, {a});
    MaximalAbsorbs(u + {a}, r.known, {a});
    CoveredAddsNothing(u, nodes, node, r, source, a, extra);
    NewContextIsBounded(u, nodes, node, r, source, a);
    assert a in Maximal(r.siblings + {a}) by {
      forall x | x in r.siblings + {a} ensures !Below(a, x) {
        if x != a { NewEventCovers(u, nodes, node, r, source, a, x); }
      }
    }
    NewCopyIsClosed(u, nodes, node, r, source, a, c);
  }

  /** Writes covered by the context are overwritten by the new sibling. */
  lemma CoveredAddsNothing(u: set<Sibling>, nodes: set<NodeName>, node: NodeName, r: Copy, source: Copy, a: Sibling,
                           extra: set<Sibling>)
    requires IsNewEvent(u, nodes, node, r, source, a)
    requires extra <= source.known
    ensures Maximal(r.known + extra + {a}) == Maximal(r.known + {a})
  {
    NewEventIsCausal(u, nodes, node, r, source, a);
    CausalIsUniverse(u + {a}, nodes);
    forall x | x in extra ensures Below(x, a) { NewEventCovers(u, nodes, node, r, source, a, x); }
    forall x | x in Maximal(r.known + {a}) ensures x in Maximal(r.known + extra + {a}) {
      forall y | y in extra ensures !Below(x, y) {
        if Below(x, y) {
          if x == a { NewEventCovers(u, nodes, node, r, source, a, y); }
          else { BelowIsTransitive(u + {a}, x, y, a); }
        }
      }
    }
  }

  lemma NewCopyIsClosed(u: set<Sibling>, nodes: set<NodeName>, node: NodeName, r: Copy, source: Copy, a: Sibling,
                        c: Copy)
    requires IsNewEvent(u, nodes, node, r, source, a)
    requires a in c.siblings && c.siblings <= r.siblings + {a} && r.known + source.known + {a} <= c.known
    ensures JoinOne(c.siblings, node) == JoinOne(r.siblings, node) + 1
    ensures forall x {:trigger Covers(c.siblings, x)} :: x in u + {a} && Covers(c.siblings, x) ==> x in c.known
  {
    NewContextIsBounded(u, nodes, node, r, source, a);
    JoinOneOfUnion(r.siblings, {a}, node);
    JoinOneIsMonotone(c.siblings, r.siblings + {a}, node);
    JoinOneIsMonotone({a}, c.siblings, node);
    forall x | x in u && Covers(c.siblings, x) ensures x in c.known {
      var n := x.clock.dot.node;
      JoinOneIsMonotone(c.siblings, r.siblings + {a}, n);
      JoinOneOfUnion(r.siblings, {a}, n);
      if !Covers(r.siblings, x) {
        NewEventCovers(u, nodes, node, r, source, a, x);
        assert x.clock.dot.count <= a.clock.MaxDot(n);
      }
    }
  }

  // ----- Every step keeps the invariant ----------------------------------------------------

  /** The copy whose context a write carries: the replica's own when the client sent none. */
  ghost function EffectiveSource(r: Copy, source: Option<Copy>): Copy {
    if |SourceContext(source)| == 0 then r else source.value
  }

  lemma MentionedIsJoined(s: set<Sibling>, u: set<Sibling>, nodes: set<NodeName>)
    requires Causal(u, nodes) && s <= u
    ensures s != {} ==> Join(s) != map[]
  {
    if s != {} {
      var a :| a in s;
      assert a in u && a.clock.dot.node in a.clock.ReplicaSet();
      assert a.clock.dot.node in Join(s);
    }
  }

  lemma MaximalOfSomething(s: set<Sibling>, u: set<Sibling>)
    requires s <= u && Universe(u)
    ensures s != {} ==> Maximal(s) != {}
  {
    if s != {} {
      var a :| a in s;
      var top := MaximalCovers(u, s, a);
    }
  }

  lemma EmptyContextKnowsNothing(c: Copy, u: set<Sibling>, nodes: set<NodeName>)
    requires Causal(u, nodes) && Sound(c, u) && |Join(c.siblings)| == 0
    ensures c.known == {}
  {
    MentionedIsJoined(c.siblings, u, nodes);
    CausalIsUniverse(u, nodes);
    MaximalOfSomething(c.known, u);
  }

  lemma EffectiveContext(r: Copy, source: Option<Copy>)
    ensures WriteContext(r.siblings, SourceContext(source)) == Join(EffectiveSource(r, source).siblings)
  {
  }

  lemma WriteIsNewEvent(s: System, node: NodeName, source: Option<Copy>, op: Op, timestamp: nat)
    requires Inv(s) && node in s.replicas && (source.Some? ==> source.value in s.observed)
    ensures WriteOf(s, node, source, NewSibling(s.replicas[node].siblings, SourceContext(source), node, op, timestamp))
  {
    var r := s.replicas[node];
    var eff := EffectiveSource(r, source);
    assert JoinOne(s.created, node) <= JoinOne(r.siblings, node);
    assert Sound(r, s.created) && Sound(eff, s.created);
    EffectiveContext(r, source);
    assert ContextCount(Join(eff.siblings), node) <= JoinOne(r.siblings, node) by {
      if node in Join(eff.siblings) {
        JoinIsBounded(s.created, s.replicas.Keys, eff.siblings, node);
      }
    }
  }

  /** Replacing one replica's copy by one that knows at least as much. */
  lemma ReplicaReplaced(s: System, node: NodeName, c: Copy, created: set<Sibling>)
    requires s.past.Keys == s.replicas.Keys && node in s.replicas && PastIsKnown(s)
    requires Causal(created, s.replicas.Keys) && CopiesAreSound(s.(created := created)) && Sound(c, created)
    requires s.replicas[node].known <= c.known && s.replicas[node].delivered <= c.delivered
    requires JoinOne(created, node) <= JoinOne(c.siblings, node)
    requires forall n {:trigger JoinOne(created, n)} :: n in s.replicas && n != node ==>
               JoinOne(created, n) <= JoinOne(s.replicas[n].siblings, n)
    ensures Inv(s.(replicas := s.replicas[node := c], created := created))
  {
    var t := s.(replicas := s.replicas[node := c], created := created);
    assert t.replicas.Keys == s.replicas.Keys;
    ReplacedCopiesAreSound(s, t, node, c);
    assert OwnDots(t);
  }

  lemma ReplacedCopiesAreSound(s: System, t: System, node: NodeName, c: Copy)
    requires node in s.replicas && t.replicas == s.replicas[node := c] && t.observed == s.observed
    requires CopiesAreSound(s.(created := t.created)) && Sound(c, t.created)
    ensures CopiesAreSound(t)
  {
    var s' := s.(created := t.created);
    forall n | n in t.replicas ensures Sound(t.replicas[n], t.created) {
      if n != node { assert Sound(s'.replicas[n], s'.created); }
    }
    forall d | d in t.observed ensures Sound(d, t.created) { assert d in s'.observed; }
  }

  lemma OldCopiesStaySound(s: System, node: NodeName, source: Copy, a: Sibling)
    requires CopiesAreSound(s) && node in s.replicas
    requires IsNewEvent(s.created, s.replicas.Keys, node, s.replicas[node], source, a)
    ensures CopiesAreSound(s.(created := s.created + {a}))
  {
    forall d: Copy | Sound(d, s.created) ensures Sound(d, s.created + {a}) {
      OldCopyStaysSound(s.created, s.replicas.Keys, node, s.replicas[node], source, a, d);
    }
  }

  ghost predicate WriteOf(s: System, node: NodeName, source: Option<Copy>, a: Sibling) {
    && node in s.replicas && (source.Some? ==> source.value in s.observed)
    && IsNewEvent(s.created, s.replicas.Keys, node, s.replicas[node], EffectiveSource(s.replicas[node], source), a)
  }

  lemma WriteKeepsInv(s: System, node: NodeName, source: Option<Copy>, a: Sibling)
    requires Inv(s) && WriteOf(s, node, source, a)
    ensures Inv(AfterWrite(s, node, source, a))
  {
    var c := AfterWrite(s, node, source, a).replicas[node];
    var eff := EffectiveSource(s.replicas[node], source);
    NewEventIsCausal(s.created, s.replicas.Keys, node, s.replicas[node], eff, a);
    OldCopiesStaySound(s, node, eff, a);
    WrittenCopyIsSound(s, node, source, a, c);
    OwnDotsAfterWrite(s, node, eff, a);
    ReplicaReplaced(s, node, c, s.created + {a});
  }

  lemma WrittenCopyIsSound(s: System, node: NodeName, source: Option<Copy>, a: Sibling, c: Copy)
    requires Inv(s) && WriteOf(s, node, source, a)
    requires var r := s.replicas[node];
             c == Copy(Written(r.siblings, a), r.delivered + {a}, r.known + SourceKnown(source) + {a})
    ensures Sound(c, s.created + {a}) && JoinOne(c.siblings, node) == JoinOne(s.replicas[node].siblings, node) + 1
  {
    var u, nodes := s.created, s.replicas.Keys;
    var r := s.replicas[node];
    if |SourceContext(source)| == 0 {
      if source.Some? { EmptyContextKnowsNothing(source.value, u, nodes); }
      NewCopyIsSound(u, nodes, node, r, r, a, {}, c);
    } else {
      NewCopyIsSound(u, nodes, node, r, source.value, a, source.value.known, c);
    }
  }

  lemma OwnDotsAfterWrite(s: System, node: NodeName, source: Copy, a: Sibling)
    requires Inv(s) && node in s.replicas
    requires IsNewEvent(s.created, s.replicas.Keys, node, s.replicas[node], source, a)
    ensures forall n {:trigger JoinOne(s.created + {a}, n)} :: n in s.replicas ==>
              JoinOne(s.created + {a}, n) <= JoinOne(s.replicas[n].siblings, n) + (if n == node then 1 else 0)
  {
    forall n | n in s.replicas
      ensures JoinOne(s.created + {a}, n) <= JoinOne(s.replicas[n].siblings, n) + (if n == node then 1 else 0)
    {
      NewEventIsBounded(s, node, source, a, n);
    }
  }

  lemma NewEventIsBounded(s: System, node: NodeName, source: Copy, a: Sibling, n: NodeName)
    requires Inv(s) && node in s.replicas && n in s.replicas
    requires IsNewEvent(s.created, s.replicas.Keys, node, s.replicas[node], source, a)
    ensures JoinOne(s.created + {a}, n) <= JoinOne(s.replicas[n].siblings, n) + (if n == node then 1 else 0)
  {
    NewContextIsBounded(s.created, s.replicas.Keys, node, s.replicas[node], source, a);
    JoinOneOfUnion(s.created, {a}, n);
  }

  /** Without lost history a merge is the plain synchronisation of the two sets. */
  lemma MergeIsSync(s: System, node: NodeName, theirs: set<Sibling>, out: set<Sibling>)
    requires Inv(s) && node in s.replicas && theirs <= s.created
    requires MergeSyncResult(s.replicas[node].siblings, theirs, node, out)
    ensures out == Sync(s.replicas[node].siblings, theirs)
  {
    JoinOneIsMonotone(theirs, s.created, node);
  }

  lemma MergedKeepsInv(s: System, t: System, node: NodeName, from: Copy)
    requires Inv(s) && node in s.replicas && from in s.observed
    requires t == s.(replicas := s.replicas[node := Copy(Sync(s.replicas[node].siblings, from.siblings),
                       s.replicas[node].delivered + from.delivered, s.replicas[node].known + from.known)])
    ensures Inv(t)
  {
    var u, nodes := s.created, s.replicas.Keys;
    var c := t.replicas[node];
    assert t.replicas.Keys == nodes;
    MergeIsSound(s.replicas[node], from, u, nodes, c);
    JoinOneOfKnown(s.replicas[node], u, nodes, node);
    JoinOneOfKnown(c, u, nodes, node);
    JoinOneIsMonotone(s.replicas[node].known, c.known, node);
    assert s.(created := u) == s;
    ReplicaReplaced(s, node, c, u);
  }

  /** A patch made from an older version of the replica does the work of the whole merged set. */
  lemma PatchIsEnough(u: set<Sibling>, nodes: set<NodeName>, mine: Copy, version: Copy, merged: Copy)
    requires Causal(u, nodes) && Sound(mine, u) && Sound(version, u) && Sound(merged, u)
    requires version.known <= mine.known
    ensures Sync(mine.siblings, Diff(version.siblings, merged.siblings)) == Sync(mine.siblings, merged.siblings)
  {
    CausalIsUniverse(u, nodes);
    SoundIsAntichain(mine, u);
    SoundIsAntichain(merged, u);
    var patch := Diff(version.siblings, merged.siblings);
    assert Antichain(patch) by { assert Antichain(merged.siblings); }
    SyncIsMaximal(u, mine.siblings, patch);
    SyncIsMaximal(u, mine.siblings, merged.siblings);
    forall b | b in merged.siblings && b !in patch
      ensures b in mine.siblings || exists top :: top in mine.siblings && Below(b, top)
    {
      PatchedIsKnown(u, nodes, version, merged, b);
      var top := KnownIsCovered(mine, u, nodes, b);
    }
    DroppingCovered(u, mine.siblings, merged.siblings, patch);
  }

  /** What a patch leaves out is known to the version it was made against. */
  lemma PatchedIsKnown(u: set<Sibling>, nodes: set<NodeName>, version: Copy, merged: Copy, b: Sibling)
    requires Causal(u, nodes) && Sound(version, u) && Sound(merged, u)
    requires b in merged.siblings && b !in Diff(version.siblings, merged.siblings)
    ensures b in version.known
  {
    var a :| a in version.siblings && (HappenedBefore(b, a) || b.clock == a.clock);
    assert a in u && b in u;
    var n := b.clock.dot.node;
    assert b.clock.dot.count <= a.clock.MaxDot(n) <= JoinOne(version.siblings, n);
    assert Covers(version.siblings, b);
  }

  lemma DroppingCovered(u: set<Sibling>, mine: set<Sibling>, theirs: set<Sibling>, patch: set<Sibling>)
    requires Universe(u) && mine <= u && patch <= theirs <= u
    requires forall b :: b in theirs && b !in patch ==> b in mine || exists top :: top in mine && Below(b, top)
    ensures Maximal(mine + patch) == Maximal(mine + theirs)
  {
    forall x | x in Maximal(mine + patch) ensures x in Maximal(mine + theirs) {
      forall y | y in theirs ensures !Below(x, y) {
        if Below(x, y) && y !in mine && y !in patch {
          var top :| top in mine && Below(y, top);
          BelowIsTransitive(u, x, y, top);
        }
      }
    }
    forall x | x in Maximal(mine + theirs) ensures x in Maximal(mine + patch) {
      assert forall top :: top in mine ==> !Below(x, top);
    }
  }

  lemma StepKeepsInv(s: System, t: System, step: Step)
    requires Inv(s) && Next(s, t, step)
    ensures Inv(t) && t.replicas.Keys == s.replicas.Keys
  {
    match step
    case Read(node) => assert s.observed <= t.observed;
    case Combine(a, b) => CombineKeepsInv(s, a, b);
    case Write(node, source, op, timestamp) =>
      WriteIsNewEvent(s, node, source, op, timestamp);
      WriteKeepsInv(s, node, source, NewSibling(s.replicas[node].siblings, SourceContext(source), node, op, timestamp));
    case Merge(node, from) =>
      MergeIsSync(s, node, from.siblings, t.replicas[node].siblings);
      MergedKeepsInv(s, t, node, from);
    case Repair(node, version, merged) => RepairKeepsInv(s, t, node, version, merged);
  }

  lemma CombineKeepsInv(s: System, a: Copy, b: Copy)
    requires Inv(s) && a in s.observed && b in s.observed
    ensures Inv(s.(observed := s.observed +
              {Copy(Sync(a.siblings, b.siblings), a.delivered + b.delivered, a.known + b.known)}))
  {
    MergeIsSound(a, b, s.created, s.replicas.Keys,
                 Copy(Sync(a.siblings, b.siblings), a.delivered + b.delivered, a.known + b.known));
  }

  lemma RepairKeepsInv(s: System, t: System, node: NodeName, version: Copy, merged: Copy)
    requires Inv(s) && Next(s, t, Repair(node, version, merged))
    ensures Inv(t)
  {
    MergeIsSync(s, node, Diff(version.siblings, merged.siblings), t.replicas[node].siblings);
    PatchIsEnough(s.created, s.replicas.Keys, s.replicas[node], version, merged);
    MergedKeepsInv(s, t, node, merged);
  }

  lemma InitIsInv(s: System)
    requires Init(s)
    ensures Inv(s)
  {
    forall n | n in s.replicas ensures Sound(s.replicas[n], s.created) { assert Maximal({}) == {}; }
  }

  lemma StepOfRun(run: seq<System>, i: nat) returns (step: Step)
    requires IsRun(run) && i + 1 < |run|
    ensures Next(run[i], run[i + 1], step)
  {
    assert Linked(run, i);
    step :| Next(run[i], run[i + 1], step);
  }

  lemma LinkKeepsInv(run: seq<System>, i: nat)
    requires IsRun(run) && i + 1 < |run| && Inv(run[i])
    ensures Inv(run[i + 1]) && run[i + 1].replicas.Keys == run[i].replicas.Keys
  {
    var step := StepOfRun(run, i);
    StepKeepsInv(run[i], run[i + 1], step);
  }

  lemma {:induction false} RunKeepsInv(run: seq<System>, i: nat)
    requires IsRun(run) && i < |run|
    ensures Inv(run[i]) && run[i].replicas.Keys == run[0].replicas.Keys
  {
    if i == 0 {
      InitIsInv(run[0]);
    } else {
      RunKeepsInv(run, i - 1);
      LinkKeepsInv(run, i - 1);
    }
  }

  // ----- What holds over every run ---------------------------------------------------------

  /**
    In every run, at every moment: each dot names one sibling, happened-before is a strict
    partial order on all siblings created, a later sibling's context includes an earlier
    one's, every replica holds an antichain, and a replica's own counter bounds every dot of
    that replica in the system.
   */
  lemma CausalityOverRuns(run: seq<System>, i: nat)
    requires IsRun(run) && i < |run|
    ensures var u := run[i].created;
            && DotsAreUnique(u)
            && CausalOrder(u)
            && (forall a, b :: a in u && b in u && HappenedBefore(a, b) ==> ContextAtMost(a.clock.vv, b.clock.vv))
    ensures forall n :: n in run[i].replicas ==>
              && run[i].replicas[n].siblings <= run[i].created
              && Antichain(run[i].replicas[n].siblings)
              && forall a :: a in run[i].created ==> a.clock.MaxDot(n) <= JoinOne(run[i].replicas[n].siblings, n)
  {
    RunKeepsInv(run, i);
    CausalIsUniverse(run[i].created, run[i].replicas.Keys);
    forall n | n in run[i].replicas
      ensures Antichain(run[i].replicas[n].siblings)
      ensures forall a :: a in run[i].created ==> a.clock.MaxDot(n) <= JoinOne(run[i].replicas[n].siblings, n)
    {
      SoundIsAntichain(run[i].replicas[n], run[i].created);
      assert forall a :: a in run[i].created ==> a.clock.MaxDot(n) <= JoinOne(run[i].created, n);
    }
  }

  /**
    Strong convergence: a replica holds exactly the maximal siblings of the writes that
    reached it, so replicas that received the same writes hold the same siblings, whatever
    the order or repetition of merges and even at different moments of the run.
   */
  lemma StrongConvergence(run: seq<System>, i: nat, m: NodeName, j: nat, n: NodeName)
    requires IsRun(run) && i < |run| && j < |run| && m in run[i].replicas && n in run[j].replicas
    ensures run[i].replicas[m].siblings == Maximal(run[i].replicas[m].delivered)
    ensures run[i].replicas[m].delivered == run[j].replicas[n].delivered ==>
              run[i].replicas[m].siblings == run[j].replicas[n].siblings
  {
    RunKeepsInv(run, i);
    RunKeepsInv(run, j);
  }

  /** A replica never loses knowledge of a write. */
  lemma StepKeepsKnowledge(s: System, t: System, step: Step, n: NodeName)
    requires Next(s, t, step) && n in s.replicas
    ensures n in t.replicas && s.replicas[n].known <= t.replicas[n].known
    ensures s.replicas[n].delivered <= t.replicas[n].delivered
  {
  }

  lemma {:induction false} KnowledgeGrows(run: seq<System>, i: nat, j: nat, n: NodeName)
    requires IsRun(run) && i <= j < |run| && n in run[i].replicas
    ensures n in run[j].replicas && run[i].replicas[n].known <= run[j].replicas[n].known
    ensures run[i].replicas[n].delivered <= run[j].replicas[n].delivered
  {
    if i < j {
      KnowledgeGrows(run, i, j - 1, n);
      var step := StepOfRun(run, j - 1);
      StepKeepsKnowledge(run[j - 1], run[j], step, n);
    }
  }

  /** The write is in the set or has been overwritten by a sibling of it. */
  ghost predicate Reflects(s: set<Sibling>, a: Sibling) {
    a in s || exists b :: b in s && HappenedBefore(a, b)
  }

  lemma KnownIsReflected(u: set<Sibling>, nodes: set<NodeName>, c: Copy, a: Sibling)
    requires Causal(u, nodes) && Sound(c, u) && a in u
    ensures a in c.known <==> Reflects(c.siblings, a)
  {
    if a in c.known {
      var top := KnownIsCovered(c, u, nodes, a);
    }
    if b :| b in c.siblings && HappenedBefore(a, b) {
      assert b in u;
      assert a.clock.dot.count <= b.clock.MaxDot(a.clock.dot.node) <= JoinOne(c.siblings, a.clock.dot.node);
      assert Covers(c.siblings, a);
    }
  }

  /** Once a write has reached a replica, it stays there or is overwritten by a later one. */
  lemma WritesAreNeverLost(run: seq<System>, i: nat, j: nat, n: NodeName, a: Sibling)
    requires IsRun(run) && i <= j < |run| && n in run[i].replicas && a in run[i].replicas[n].delivered
    ensures n in run[j].replicas && Reflects(run[j].replicas[n].siblings, a)
  {
    KnowledgeGrows(run, i, j, n);
    RunKeepsInv(run, j);
    KnownIsReflected(run[j].created, run[j].replicas.Keys, run[j].replicas[n], a);
  }

  // ----- What writes store, over runs ------------------------------------------------------

  /** A replica knows the largest counter of its own, so a dot above those it holds is above all. */
  lemma OwnCountersAreHeld(s: System, node: NodeName, a: Sibling)
    requires Inv(s) && node in s.replicas && a.clock == Event(s.replicas[node].siblings, a.clock.vv, node)
    ensures a !in s.created
    ensures forall b, k: nat :: b in s.created && Mentions(b.clock, node, k) ==> k < a.clock.dot.count
  {
    assert JoinOne(s.created, node) < a.clock.dot.count;
    forall b, k: nat | b in s.created && Mentions(b.clock, node, k) ensures k < a.clock.dot.count {
      MentionedIsBelow(b.clock, node);
    }
    assert Mentions(a.clock, node, a.clock.dot.count);
  }

  lemma CreatedOne(s: System, t: System, node: NodeName, source: Option<Copy>, op: Op, timestamp: nat)
    returns (a: Sibling)
    requires Inv(s) && Next(s, t, Write(node, source, op, timestamp))
    ensures a == NewSibling(s.replicas[node].siblings, SourceContext(source), node, op, timestamp)
    ensures a !in s.created && t.created == s.created + {a}
    ensures forall b, k: nat :: b in s.created && Mentions(b.clock, node, k) ==> k < a.clock.dot.count
  {
    a := NewSibling(s.replicas[node].siblings, SourceContext(source), node, op, timestamp);
    OwnCountersAreHeld(s, node, a);
  }

  /** A write adds one new sibling to its replica, with the value and the time of the operation,
      and changes no other. */
  lemma WriteStores(s: System, t: System, node: NodeName, source: Option<Copy>, op: Op, timestamp: nat)
    returns (a: Sibling)
    requires Inv(s) && Next(s, t, Write(node, source, op, timestamp))
    ensures a.timestamp == timestamp && a !in s.created && t.created == s.created + {a}
    ensures WroteSibling(s.replicas[node].siblings, SourceContext(source), op, node, t.replicas[node].siblings, a)
    ensures forall n :: n in s.replicas && n != node ==> n in t.replicas && t.replicas[n] == s.replicas[n]
  {
    a := CreatedOne(s, t, node, source, op, timestamp);
    WriteChangesOne(s, t, node, source, op, timestamp);
    WroteAfter(s.replicas[node].siblings, SourceContext(source), node, op, timestamp, a, t.replicas[node].siblings);
  }

  lemma WriteChangesOne(s: System, t: System, node: NodeName, source: Option<Copy>, op: Op, timestamp: nat)
    requires Next(s, t, Write(node, source, op, timestamp))
    ensures forall n :: n in s.replicas && n != node ==> n in t.replicas && t.replicas[n] == s.replicas[n]
  {
  }

  lemma WroteAfter(held: set<Sibling>, context: Context, node: NodeName, op: Op, timestamp: nat, a: Sibling,
                   after: set<Sibling>)
    requires a == NewSibling(held, context, node, op, timestamp) && after == Written(held, a)
    ensures WroteSibling(held, context, op, node, after, a)
  {
    WrittenMeaning(held, context, node, op, timestamp);
  }

  /** The new dot is above every counter of the node anywhere. */
  lemma WriteDotIsNew(s: System, t: System, node: NodeName, source: Option<Copy>, op: Op, timestamp: nat, a: Sibling)
    requires Inv(s) && Next(s, t, Write(node, source, op, timestamp)) && a in t.created && a !in s.created
    ensures a.clock.dot.node == node
    ensures forall b, k: nat :: b in s.created && Mentions(b.clock, node, k) ==> k < a.clock.dot.count
  {
    var b := CreatedOne(s, t, node, source, op, timestamp);
  }

  /** The new context covers what the client had read, or what the replica held when that was nothing. */
  lemma WriteCoversRead(s: System, t: System, node: NodeName, source: Option<Copy>, op: Op, timestamp: nat, a: Sibling)
    requires Inv(s) && Next(s, t, Write(node, source, op, timestamp)) && a in t.created && a !in s.created
    ensures CoversAll(if source.Some? && source.value.siblings != {} then source.value.siblings
                      else s.replicas[node].siblings, a.clock.vv)
  {
    var b := CreatedOne(s, t, node, source, op, timestamp);
    assert a == b;
    if source.Some? { ReadContextCovers(s, source.value); }
    ContextOf(s.replicas[node].siblings, source);
  }

  lemma ContextOf(held: set<Sibling>, source: Option<Copy>)
    requires source.Some? ==> (source.value.siblings != {} <==> Join(source.value.siblings) != map[])
    ensures CoversAll(if source.Some? && source.value.siblings != {} then source.value.siblings else held,
                      WriteContext(held, SourceContext(source)))
  {
    JoinCoversAll(held);
    if source.Some? { JoinCoversAll(source.value.siblings); }
  }

  lemma ReadContextCovers(s: System, c: Copy)
    requires Inv(s) && c in s.observed
    ensures c.siblings != {} <==> Join(c.siblings) != map[]
  {
    MentionedIsJoined(c.siblings, s.created, s.replicas.Keys);
  }

  /** The sibling was written at time `j` at the node its dot names, with the value and time of the operation. */
  ghost predicate CreatedAt(run: seq<System>, j: nat, a: Sibling)
    requires j + 1 < |run|
  {
    exists source, op, timestamp ::
      && Next(run[j], run[j + 1], Write(a.clock.dot.node, source, op, timestamp))
      && a.value == (match op case Put(bytes) => Some(bytes) case Delete => None) && a.timestamp == timestamp
      && a !in run[j].created && run[j + 1].created == run[j].created + {a}
  }

  /** In every run each sibling anywhere stems from one write. */
  lemma {:induction false} CreatedByWrites(run: seq<System>, i: nat, a: Sibling)
    requires IsRun(run) && i < |run| && a in run[i].created
    ensures exists j: nat :: j < i && CreatedAt(run, j, a)
  {
    if i > 0 {
      if a in run[i - 1].created {
        CreatedByWrites(run, i - 1, a);
      } else {
        RunKeepsInv(run, i - 1);
        var step := StepOfRun(run, i - 1);
        var b := WriteStores(run[i - 1], run[i], step.node, step.source, step.op, step.timestamp);
        assert CreatedAt(run, i - 1, a);
      }
    }
  }
}
