/**
  The sibling set of one key (data/sibling_set.go): joins of clocks, new events, and the merge
  that protects a replica which has forgotten its own history, as functions and relations on
  values.  `SiblingSets` holds the loops that compute them.
 */
module SiblingAlgebra {
  import opened Wrappers
  import opened Clocks
  import opened Siblings

  /** `m` is the largest counter of `node` mentioned anywhere in the set. */
  ghost predicate IsLargestDot(s: set<Sibling>, node: NodeName, m: nat) {
    && (forall a :: a in s ==> a.clock.MaxDot(node) <= m)
    && (m == 0 || exists a :: a in s && a.clock.MaxDot(node) == m)
  }

  lemma {:induction false} LargestDotExists(s: set<Sibling>, node: NodeName) returns (m: nat)
    ensures IsLargestDot(s, node, m)
  {
    if s == {} {
      m := 0;
    } else {
      var a :| a in s;
      m := LargestDotExists(s - {a}, node);
      if m < a.clock.MaxDot(node) {
        m := a.clock.MaxDot(node);
      }
    }
  }

  ghost function JoinOne(s: set<Sibling>, node: NodeName): (m: nat)
    ensures IsLargestDot(s, node, m)
  {
    assert exists m: nat :: IsLargestDot(s, node, m) by { var m := LargestDotExists(s, node); }
    var m: nat :| IsLargestDot(s, node, m);
    m
  }

  /** The siblings whose clock lists the name. */
  ghost function Listing(s: set<Sibling>, node: NodeName): set<Sibling> {
    set a | a in s && node in a.clock.ReplicaSet()
  }

  ghost function Names(s: set<Sibling>): set<NodeName> {
    set a, n | a in s && n in a.clock.ReplicaSet() :: n
  }

  /** The collective context of a set, handed to clients with a read. */
  ghost function Join(s: set<Sibling>): Context {
    map n | n in Names(s) :: JoinOne(Listing(s, n), n)
  }

  function ContextCount(context: Context, node: NodeName): nat {
    if node in context then context[node] else 0
  }

  ghost function Event(s: set<Sibling>, context: Context, node: NodeName): DVV {
    DVV(Dot(node, Max(ContextCount(context, node), JoinOne(s, node)) + 1), context)
  }

  ghost function Discard(s: set<Sibling>, clock: DVV): set<Sibling> {
    set a | a in s && !a.clock.HappenedBefore(clock)
  }

  lemma JoinOneIsMonotone(s: set<Sibling>, t: set<Sibling>, node: NodeName)
    requires s <= t
    ensures JoinOne(s, node) <= JoinOne(t, node)
  {
    if JoinOne(s, node) != 0 {
      var a :| a in s && a.clock.MaxDot(node) == JoinOne(s, node);
    }
  }

  /** At a non-empty name the context entry is the largest counter mentioned in the set. */
  lemma JoinAgreesWithJoinOne(s: set<Sibling>, node: NodeName)
    requires node != ""
    ensures ContextCount(Join(s), node) == JoinOne(s, node)
  {
    JoinOneIsMonotone(Listing(s, node), s, node);
    if JoinOne(s, node) != 0 {
      var a :| a in s && a.clock.MaxDot(node) == JoinOne(s, node);
      assert a in Listing(s, node) && node in Names(s);
    }
  }

  /**
    The empty replica name is the exception: a dot at it is not listed, so a client that
    read the set writes over nothing.
   */
  lemma EmptyNameIsForgottenByJoin()
    ensures exists s: set<Sibling> :: s != {} && Join(s) == map[] && JoinOne(s, "") == 1
  {
    var a := Sibling(DVV(Dot("", 1), map[]), Some([]), 0);
    var s := {a};
    assert a.clock.ReplicaSet() == {} && a.clock.MaxDot("") == 1;
    assert Names(s) == {};
    assert a in s && forall b :: b in s ==> b == a;
    assert s != {} && Join(s) == map[] && JoinOne(s, "") == 1;
  }

  /** For every set of siblings the context tells the largest counter: at exactly the non-empty names. */
  lemma JoinAgreesExactly(node: NodeName)
    ensures (forall s: set<Sibling> :: ContextCount(Join(s), node) == JoinOne(s, node)) <==> node != ""
  {
    if node != "" {
      forall s: set<Sibling> ensures ContextCount(Join(s), node) == JoinOne(s, node) { JoinAgreesWithJoinOne(s, node); }
    } else {
      EmptyNameIsForgottenByJoin();
      var s: set<Sibling> :| s != {} && Join(s) == map[] && JoinOne(s, "") == 1;
      assert ContextCount(Join(s), node) == 0;
    }
  }

  // ----- Merging into a replica that may have forgotten ----------------------------------

  /** The other side knows of events of `node` that `node` itself does not. */
  ghost predicate Forgot(mine: set<Sibling>, theirs: set<Sibling>, node: NodeName) {
    JoinOne(mine, node) < JoinOne(theirs, node)
  }

  /** The condition under which a local sibling is given a new dot. */
  predicate Overwrites(b: Sibling, a: Sibling, node: NodeName) {
    HappenedBefore(a, b) && a.clock.MaxDot(node) < b.clock.MaxDot(node) && a.clock.MaxDot(node) != 0
  }

  function Remint(a: Sibling, node: NodeName, count: nat): Sibling {
    Sibling(DVV(Dot(node, count), a.clock.vv), a.value, a.timestamp)
  }

  type Overwrite = (Sibling, Sibling)

  ghost function Overwritten(mine: set<Sibling>, theirs: set<Sibling>, node: NodeName): set<Overwrite> {
    set a, b | a in mine && b in theirs && Overwrites(b, a, node) :: (a, b)
  }

  /** The order in which the loops meet the overwrites; the k-th one gets the k-th new counter. */
  ghost predicate Enumerates(order: seq<Overwrite>, overwrites: set<Overwrite>) {
    && (forall p :: p in order <==> p in overwrites)
    && (forall i, j :: 0 <= i < j < |order| ==> order[i] != order[j])
  }

  ghost predicate Kept(a: Sibling, order: seq<Overwrite>) {
    forall k :: 0 <= k < |order| ==> order[k].0 != a
  }

  /** The copies of overwritten siblings under the counters that follow `above`. */
  ghost function Copies(node: NodeName, order: seq<Overwrite>, above: nat): set<Sibling> {
    set k | 0 <= k < |order| :: Remint(order[k].0, node, above + 1 + k)
  }

  ghost function Reminted(mine: set<Sibling>, node: NodeName, order: seq<Overwrite>, above: nat): set<Sibling> {
    (set a | a in mine && Kept(a, order)) + Copies(node, order, above)
  }

  /** A merge in which the overwrites were met in the given order. */
  ghost predicate MergedInOrder(mine: set<Sibling>, theirs: set<Sibling>, node: NodeName, out: set<Sibling>,
                                order: seq<Overwrite>) {
    && Enumerates(order, Overwritten(mine, theirs, node))
    && out == Sync(Reminted(mine, node, order, JoinOne(theirs, node)), theirs)
  }

  /** What `MergeSync` may return; the order of the map iteration chooses the counters. */
  ghost predicate MergeSyncResult(mine: set<Sibling>, theirs: set<Sibling>, node: NodeName, out: set<Sibling>) {
    if !Forgot(mine, theirs, node) then out == Sync(mine, theirs)
    else exists order :: MergedInOrder(mine, theirs, node, out, order)
  }

  lemma CopySurvives(mine: set<Sibling>, theirs: set<Sibling>, node: NodeName, order: seq<Overwrite>, k: nat)
    requires k < |order|
    ensures var above := JoinOne(theirs, node);
            var copy := Remint(order[k].0, node, above + 1 + k);
            copy in Sync(Reminted(mine, node, order, above), theirs) && copy !in theirs
  {
    var above := JoinOne(theirs, node);
    var copy := Remint(order[k].0, node, above + 1 + k);
    assert copy in Copies(node, order, above);
    forall b | b in theirs ensures !HappenedBefore(copy, b) && copy.clock != b.clock {
      assert b.clock.MaxDot(node) <= above;
    }
  }

  /**
    After forgetting, the value of every local sibling that would be overwritten is still in
    the merged set, once for each sibling overwriting it, under dots of the replica that no
    sibling of either side mentions and that differ from each other.
   */
  lemma MergeSyncKeepsForgottenWrites(mine: set<Sibling>, theirs: set<Sibling>, node: NodeName, out: set<Sibling>)
    requires MergeSyncResult(mine, theirs, node, out) && Forgot(mine, theirs, node)
    ensures exists order: seq<Overwrite> ::
              && Enumerates(order, Overwritten(mine, theirs, node))
              && (forall k :: 0 <= k < |order| ==>
                    && Remint(order[k].0, node, JoinOne(theirs, node) + 1 + k) in out
                    && JoinOne(theirs, node) + 1 + k > JoinOne(mine, node))
  {
    var order: seq<Overwrite> :| MergedInOrder(mine, theirs, node, out, order);
    forall k | 0 <= k < |order| ensures Remint(order[k].0, node, JoinOne(theirs, node) + 1 + k) in out {
      CopySurvives(mine, theirs, node, order, k);
    }
  }

  lemma FirstCopy(mine: set<Sibling>, theirs: set<Sibling>, node: NodeName, order: seq<Overwrite>)
    returns (copy: Sibling)
    requires Forgot(mine, theirs, node) && order != []
    ensures copy in Sync(Reminted(mine, node, order, JoinOne(theirs, node)), theirs)
    ensures copy.clock.dot == Dot(node, JoinOne(theirs, node) + 1) && copy !in mine && copy !in theirs
  {
    CopySurvives(mine, theirs, node, order, 0);
    copy := Remint(order[0].0, node, JoinOne(theirs, node) + 1);
    assert copy.clock.MaxDot(node) > JoinOne(mine, node);
  }

  /** A new dot of the node is in the merged set when any is minted. */
  lemma MintedSurvives(mine: set<Sibling>, theirs: set<Sibling>, node: NodeName, out: set<Sibling>)
    returns (copy: Sibling)
    requires MergeSyncResult(mine, theirs, node, out)
    requires Forgot(mine, theirs, node) && Overwritten(mine, theirs, node) != {}
    ensures copy in out && copy.clock.dot == Dot(node, JoinOne(theirs, node) + 1) && copy !in mine && copy !in theirs
  {
    var order: seq<Overwrite> :| MergedInOrder(mine, theirs, node, out, order);
    var p :| p in Overwritten(mine, theirs, node);
    assert p in order;
    copy := FirstCopy(mine, theirs, node, order);
  }

  /**
    `MergeSync` is `Sync` exactly when the replica has not forgotten its own events or no
    local sibling meets the overwrite condition.
   */
  lemma MergeSyncIsSyncExactly(mine: set<Sibling>, theirs: set<Sibling>, node: NodeName, out: set<Sibling>)
    requires MergeSyncResult(mine, theirs, node, out)
    ensures out == Sync(mine, theirs) <==> !Forgot(mine, theirs, node) || Overwritten(mine, theirs, node) == {}
  {
    if Forgot(mine, theirs, node) && Overwritten(mine, theirs, node) != {} {
      var copy := MintedSurvives(mine, theirs, node, out);
    } else if Forgot(mine, theirs, node) {
      var order: seq<Overwrite> :| MergedInOrder(mine, theirs, node, out, order);
      EnumeratesNothing(order);
      assert Copies(node, order, JoinOne(theirs, node)) == {};
      assert Reminted(mine, node, order, JoinOne(theirs, node)) == mine;
    }
  }

  // ----- The merge, told by dots and counters ------------------------------------------------

  /** The other side knows a counter of the node above all that it knows itself. */
  ghost predicate LostHistory(mine: set<Sibling>, theirs: set<Sibling>, node: NodeName) {
    exists b, k: nat :: b in theirs && Mentions(b.clock, node, k) && k > 0
                        && forall a, j: nat :: a in mine && Mentions(a.clock, node, j) ==> j < k
  }

  /** `b` covers `a` and knows a counter of the node above those of `a`, which has one. */
  ghost predicate Supersedes(b: Sibling, a: Sibling, node: NodeName) {
    && Covered(a, b) && (exists j: nat :: j > 0 && Mentions(a.clock, node, j))
    && exists k: nat :: Mentions(b.clock, node, k) && forall j: nat :: Mentions(a.clock, node, j) ==> j < k
  }

  /** `c` is `a` under a new dot of the node, above every counter of the node on the other side. */
  ghost predicate IsCopyOf(c: Sibling, a: Sibling, theirs: set<Sibling>, node: NodeName) {
    && c.value == a.value && c.timestamp == a.timestamp && c.clock.vv == a.clock.vv && c.clock.dot.node == node
    && forall b, k: nat :: b in theirs && Mentions(b.clock, node, k) ==> k < c.clock.dot.count
  }

  lemma LargestIsMentioned(s: set<Sibling>, node: NodeName)
    ensures forall a, k: nat :: a in s && Mentions(a.clock, node, k) ==> k <= JoinOne(s, node)
    ensures JoinOne(s, node) == 0 || exists a :: a in s && Mentions(a.clock, node, JoinOne(s, node))
  {
    forall a | a in s { MentionedIsBelow(a.clock, node); }
    if JoinOne(s, node) != 0 {
      var a :| a in s && a.clock.MaxDot(node) == JoinOne(s, node);
    }
  }

  lemma ForgotMeaning(mine: set<Sibling>, theirs: set<Sibling>, node: NodeName)
    ensures Forgot(mine, theirs, node) <==> LostHistory(mine, theirs, node)
  {
    LargestIsMentioned(mine, node);
    LargestIsMentioned(theirs, node);
    if LostHistory(mine, theirs, node) {
      var b, k: nat :| b in theirs && Mentions(b.clock, node, k) && k > 0
                       && forall a, j: nat :: a in mine && Mentions(a.clock, node, j) ==> j < k;
    }
    if Forgot(mine, theirs, node) {
      var b :| b in theirs && Mentions(b.clock, node, JoinOne(theirs, node));
    }
  }

  lemma OverwritesMeaning(b: Sibling, a: Sibling, node: NodeName)
    ensures Overwrites(b, a, node) <==> Supersedes(b, a, node)
  {
    MentionedIsBelow(a.clock, node);
    MentionedIsBelow(b.clock, node);
  }

  /** Whatever the order of the loops, a merged sibling is one of either side or a copy. */
  ghost predicate IsKeptOrCopied(mine: set<Sibling>, theirs: set<Sibling>, node: NodeName, c: Sibling) {
    || c in theirs
    || (c in mine && forall b :: b in theirs ==> !Supersedes(b, c, node))
    || exists a, b :: a in mine && b in theirs && Supersedes(b, a, node) && IsCopyOf(c, a, theirs, node)
  }

  /**
    A merge at a node that lost history: a local sibling that the other side supersedes is not
    lost; it is there under a new dot, and nothing but copies of such siblings is new.
   */
  lemma MergeSyncMeaning(mine: set<Sibling>, theirs: set<Sibling>, node: NodeName, out: set<Sibling>)
    requires MergeSyncResult(mine, theirs, node, out)
    ensures !LostHistory(mine, theirs, node) ==> out == Sync(mine, theirs)
    ensures LostHistory(mine, theirs, node) ==>
              forall a, b :: a in mine && b in theirs && Supersedes(b, a, node) ==>
                exists c :: c in out && IsCopyOf(c, a, theirs, node)
    ensures LostHistory(mine, theirs, node) ==> forall c :: c in out ==> IsKeptOrCopied(mine, theirs, node, c)
  {
    ForgotMeaning(mine, theirs, node);
    if Forgot(mine, theirs, node) {
      var order: seq<Overwrite> :| MergedInOrder(mine, theirs, node, out, order);
      forall a, b | a in mine && b in theirs && Supersedes(b, a, node)
        ensures exists c :: c in out && IsCopyOf(c, a, theirs, node)
      {
        OverwritesMeaning(b, a, node);
        assert (a, b) in Overwritten(mine, theirs, node) && (a, b) in order;
        var k: nat :| k < |order| && order[k] == (a, b);
        CopyIsThere(mine, theirs, node, order, k);
      }
      forall c | c in out ensures IsKeptOrCopied(mine, theirs, node, c) {
          MergedStemsFrom(mine, theirs, node, order, c); }
    }
  }

  lemma CopyIsThere(mine: set<Sibling>, theirs: set<Sibling>, node: NodeName, order: seq<Overwrite>, k: nat)
    requires k < |order|
    ensures exists c :: c in Sync(Reminted(mine, node, order, JoinOne(theirs, node)), theirs)
                        && IsCopyOf(c, order[k].0, theirs, node)
  {
    CopySurvives(mine, theirs, node, order, k);
    LargestIsMentioned(theirs, node);
    var c := Remint(order[k].0, node, JoinOne(theirs, node) + 1 + k);
    assert IsCopyOf(c, order[k].0, theirs, node);
  }

  lemma MergedStemsFrom(mine: set<Sibling>, theirs: set<Sibling>, node: NodeName, order: seq<Overwrite>, c: Sibling)
    requires Enumerates(order, Overwritten(mine, theirs, node))
    requires c in Sync(Reminted(mine, node, order, JoinOne(theirs, node)), theirs)
    ensures IsKeptOrCopied(mine, theirs, node, c)
  {
    var above := JoinOne(theirs, node);
    if c in Copies(node, order, above) {
      var k :| 0 <= k < |order| && c == Remint(order[k].0, node, above + 1 + k);
      assert order[k] in order;
      OverwritesMeaning(order[k].1, order[k].0, node);
      LargestIsMentioned(theirs, node);
      assert IsCopyOf(c, order[k].0, theirs, node);
    } else if c !in theirs {
      forall b | b in theirs ensures !Supersedes(b, c, node) {
        OverwritesMeaning(b, c, node);
        assert Overwrites(b, c, node) ==> (c, b) in Overwritten(mine, theirs, node);
      }
    }
  }

  // ----- Steps of the loops ---------------------------------------------------------------

  lemma RemintedAdds(mine: set<Sibling>, node: NodeName, order: seq<Overwrite>, above: nat, a: Sibling)
    requires Kept(a, order)
    ensures Reminted(mine + {a}, node, order, above) == Reminted(mine, node, order, above) + {a}
  {
  }

  lemma OverwrittenOfOneMore(mine: set<Sibling>, a: Sibling, theirs: set<Sibling>, node: NodeName)
    ensures Overwritten(mine + {a}, theirs, node) ==
            Overwritten(mine, theirs, node) + Overwritten({a}, theirs, node)
  {
  }

  lemma OverwrittenByOneMore(a: Sibling, theirs: set<Sibling>, b: Sibling, node: NodeName)
    ensures Overwritten({a}, theirs + {b}, node) ==
            Overwritten({a}, theirs, node) + (if Overwrites(b, a, node) then {(a, b)} else {})
  {
  }

  lemma EnumeratesNothing(order: seq<Overwrite>)
    ensures Enumerates(order, {}) ==> order == []
  {
    if order != [] { assert order[0] in order; }
  }

  lemma MergeSyncFromOrder(mine: set<Sibling>, theirs: set<Sibling>, node: NodeName, order: seq<Overwrite>,
                           above: nat, updated: set<Sibling>)
    requires above == JoinOne(theirs, node)
    requires Enumerates(order, if Forgot(mine, theirs, node) then Overwritten(mine, theirs, node) else {})
    requires updated == Reminted(mine, node, order, above)
    ensures MergeSyncResult(mine, theirs, node, Sync(updated, theirs))
  {
    if Forgot(mine, theirs, node) {
      assert MergedInOrder(mine, theirs, node, Sync(updated, theirs), order);
    } else {
      EnumeratesNothing(order);
      assert updated == mine;
    }
  }

  lemma EnumeratesOneMore(order: seq<Overwrite>, overwrites: set<Overwrite>, p: Overwrite)
    requires Enumerates(order, overwrites) && p !in overwrites
    ensures Enumerates(order + [p], overwrites + {p})
  {
    forall q ensures q in order + [p] <==> q in overwrites + {p} { }
    forall i, j | 0 <= i < j < |order + [p]| ensures (order + [p])[i] != (order + [p])[j] {
      assert order[i] in order;
    }
  }

  lemma RemintedGrows(mine: set<Sibling>, node: NodeName, order: seq<Overwrite>, above: nat, a: Sibling, b: Sibling)
    requires a in mine && a.clock.MaxDot(node) <= above
    ensures Reminted(mine, node, order + [(a, b)], above) ==
            Reminted(mine, node, order, above) - {a} + {Remint(a, node, above + 1 + |order|)}
  {
    var grown := order + [(a, b)];
    assert grown[|order|] == (a, b) && forall k :: 0 <= k < |order| ==> grown[k] == order[k];
    assert Copies(node, grown, above) == Copies(node, order, above) + {Remint(a, node, above + 1 + |order|)};
    assert a !in Copies(node, order, above);
    forall s | s in mine ensures Kept(s, grown) <==> Kept(s, order) && s != a {
      if Kept(s, grown) { assert forall k :: 0 <= k < |order| ==> grown[k].0 != s; }
    }
  }

  /** One round of the inner loop of `MergeSync` that gives `a` a new dot. */
  lemma RemintRound(mine: set<Sibling>, node: NodeName, order: seq<Overwrite>, above: nat, met: set<Overwrite>,
                    a: Sibling, done: set<Sibling>, b: Sibling, count: nat)
    requires a in mine && a.clock.MaxDot(node) <= above && Overwrites(b, a, node) && b !in done
    requires count == above + 1 + |order|
    requires forall p :: p in met ==> p.0 != a
    requires Enumerates(order, met + Overwritten({a}, done, node))
    ensures Enumerates(order + [(a, b)], met + Overwritten({a}, done + {b}, node))
    ensures Reminted(mine, node, order + [(a, b)], above) ==
            Reminted(mine, node, order, above) - {a} + {Remint(a, node, count)}
  {
    OverwrittenByOneMore(a, done, b, node);
    assert met + Overwritten({a}, done + {b}, node) == met + Overwritten({a}, done, node) + {(a, b)};
    EnumeratesOneMore(order, met + Overwritten({a}, done, node), (a, b));
    RemintedGrows(mine, node, order, above, a, b);
  }

  /** `after` is `before` raised to the counters of `a` at the listed names. */
  ghost predicate Raised(before: Context, a: Sibling, names: seq<NodeName>, after: Context) {
    && (forall n :: n in after <==> n in before || n in names)
    && (forall n :: n in names ==> n in after && after[n] == Max(a.clock.MaxDot(n), ContextCount(before, n)))
    && (forall n :: n in before && n !in names ==> n in after && after[n] == before[n])
  }

  lemma RaisedAtOneMore(before: Context, a: Sibling, names: seq<NodeName>, now: Context, n: NodeName, after: Context)
    requires Raised(before, a, names, now) && n !in names
    requires after == if n !in now || now[n] < a.clock.MaxDot(n) then now[n := a.clock.MaxDot(n)] else now
    ensures Raised(before, a, names + [n], after)
  {
    forall m ensures m in names + [n] <==> m in names || m == n { }
  }

  lemma JoinOneOfOneMore(s: set<Sibling>, a: Sibling, node: NodeName)
    ensures JoinOne(s + {a}, node) == Max(a.clock.MaxDot(node), JoinOne(s, node))
  {
    JoinOneIsMonotone(s, s + {a}, node);
    if JoinOne(s + {a}, node) != 0 {
      var top :| top in s + {a} && top.clock.MaxDot(node) == JoinOne(s + {a}, node);
    }
  }

  lemma JoinOfNothing()
    ensures forall s: set<Sibling> :: s == {} ==> Join(s) == map[]
  {
    assert Names({}) == {};
  }

  lemma JoinOfOneMoreAt(s: set<Sibling>, a: Sibling, n: NodeName)
    requires n in Names(s + {a})
    ensures n in a.clock.ReplicaSet() ==>
              JoinOne(Listing(s + {a}, n), n) == Max(a.clock.MaxDot(n), ContextCount(Join(s), n))
    ensures n !in a.clock.ReplicaSet() ==> n in Names(s) && JoinOne(Listing(s + {a}, n), n) == Join(s)[n]
  {
    if n in a.clock.ReplicaSet() {
      assert Listing(s + {a}, n) == Listing(s, n) + {a};
      JoinOneOfOneMore(Listing(s, n), a, n);
      if n !in Names(s) { assert Listing(s, n) == {}; }
    } else {
      assert Listing(s + {a}, n) == Listing(s, n);
    }
  }

  lemma JoinOfOneMore(s: set<Sibling>, a: Sibling, names: seq<NodeName>, joined: Context)
    requires forall n :: n in names <==> n in a.clock.ReplicaSet()
    requires Raised(Join(s), a, names, joined)
    ensures joined == Join(s + {a})
  {
    forall n ensures n in joined <==> n in Names(s + {a}) {
      if n in Names(s) { var b :| b in s && n in b.clock.ReplicaSet(); assert b in s + {a}; }
      if n in Names(s + {a}) { var b :| b in s + {a} && n in b.clock.ReplicaSet(); }
      assert a in s + {a};
    }
    forall n | n in joined ensures joined[n] == Join(s + {a})[n] {
      JoinOfOneMoreAt(s, a, n);
    }
  }
}
