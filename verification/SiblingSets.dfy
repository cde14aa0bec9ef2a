/**
  The set of siblings of data/sibling_set.go as an object: every loop of the source, proved to
  compute the function of `SiblingAlgebra` it is named after.
 */
module SiblingSets {
  import opened Wrappers
  import opened Clocks
  import opened Siblings
  import opened Algebra = SiblingAlgebra

  /** A set of siblings changed in place; iteration order is arbitrary, as for a Go map. */
  class SiblingSet {
    var siblings: set<Sibling>

    constructor (siblings: set<Sibling>)
      ensures this.siblings == siblings
    {
      this.siblings := siblings;
    }

    method Add(s: Sibling)
      modifies this
      ensures siblings == old(siblings) + {s}
    {
      siblings := siblings + {s};
    }

    method Delete(s: Sibling)
      modifies this
      ensures siblings == old(siblings) - {s}
    {
      siblings := siblings - {s};
    }

    method Sync(other: SiblingSet) returns (merged: SiblingSet)
      ensures fresh(merged) && merged.siblings == Siblings.Sync(siblings, other.siblings)
    {
      merged := new SiblingSet({});
      var todo := siblings;
      while todo != {}
        invariant todo <= siblings
        invariant forall s :: s in merged.siblings <==> s in siblings && s !in todo && StaysLeft(s, other.siblings)
        decreases todo
      {
        var a :| a in todo;
        todo := todo - {a};
        merged.Add(a);
        other.DeleteIfLosing(a, merged);
      }
      ghost var first := merged.siblings;
      forall b | b in other.siblings ensures b !in first { EqualSiblingsTie(b); }
      todo := other.siblings;
      while todo != {}
        invariant todo <= other.siblings
        invariant forall s :: s in merged.siblings <==>
          s in first || (s in other.siblings && s !in todo && StaysRight(s, siblings))
        decreases todo
      {
        var b :| b in todo;
        todo := todo - {b};
        merged.Add(b);
        DeleteIfBelow(b, merged);
      }
    }

    /** Inner loop of `Sync`'s first pass: `a`, of the left operand, against every sibling here. */
    method DeleteIfLosing(a: Sibling, merged: SiblingSet)
      requires merged != this
      modifies merged
      ensures merged.siblings == old(merged.siblings) - (if StaysLeft(a, siblings) then {} else {a})
    {
      var todo := siblings;
      while todo != {}
        invariant todo <= siblings
        invariant merged.siblings == old(merged.siblings) - (if StaysLeft(a, siblings - todo) then {} else {a})
        decreases todo
      {
        var b :| b in todo;
        StaysLeftOfOneMore(a, siblings - todo, b);
        assert siblings - (todo - {b}) == siblings - todo + {b};
        todo := todo - {b};
        if a.clock.HappenedBefore(b.clock) {
          merged.Delete(a);
        } else if a.clock == b.clock {
          // the clocks can be equal and the values differ when the key was forgotten somewhere
          if a.Compare(b) <= 0 {
            merged.Delete(a);
          }
        }
      }
      assert siblings - todo == siblings;
    }

    /** Inner loop of `Sync`'s second pass: `b`, of the right operand, against every sibling here. */
    method DeleteIfBelow(b: Sibling, merged: SiblingSet)
      requires merged != this
      modifies merged
      ensures merged.siblings == old(merged.siblings) - (if StaysRight(b, siblings) then {} else {b})
    {
      var todo := siblings;
      while todo != {}
        invariant todo <= siblings
        invariant merged.siblings == old(merged.siblings) - (if StaysRight(b, siblings - todo) then {} else {b})
        decreases todo
      {
        var a :| a in todo;
        StaysRightOfOneMore(b, siblings - todo, a);
        assert siblings - (todo - {a}) == siblings - todo + {a};
        todo := todo - {a};
        if b.clock.HappenedBefore(a.clock) {
          merged.Delete(b);
        } else if b.clock == a.clock {
          if b.Compare(a) < 0 {
            merged.Delete(b);
          }
        }
      }
      assert siblings - todo == siblings;
    }

    method MergeSync(other: SiblingSet, node: NodeName) returns (merged: SiblingSet)
      ensures fresh(merged) && MergeSyncResult(siblings, other.siblings, node, merged.siblings)
    {
      var otherMax := other.JoinOne(node);
      var myMax := this.JoinOne(node);
      var updated, order := RemintForgotten(other, node, myMax, otherMax);
      MergeSyncFromOrder(siblings, other.siblings, node, order, otherMax, updated.siblings);
      merged := updated.Sync(other);
    }

    /** Outer loop of `MergeSync`, up to the final `Sync`. */
    method RemintForgotten(other: SiblingSet, node: NodeName, myMax: nat, otherMax: nat)
      returns (updated: SiblingSet, ghost order: seq<Overwrite>)
      requires myMax == Algebra.JoinOne(siblings, node) && otherMax == Algebra.JoinOne(other.siblings, node)
      ensures fresh(updated) && updated.siblings == Reminted(siblings, node, order, otherMax)
      ensures Enumerates(order, if myMax < otherMax then Overwritten(siblings, other.siblings, node) else {})
    {
      updated := new SiblingSet({});
      var maxDot := otherMax;
      order := [];
      var todo := siblings;
      while todo != {}
        invariant todo <= siblings
        invariant fresh(updated)
        invariant Enumerates(order, if myMax < otherMax then Overwritten(siblings - todo, other.siblings, node) else {})
        invariant maxDot == otherMax + |order|
        invariant updated.siblings == Reminted(siblings - todo, node, order, otherMax)
        decreases todo
      {
        var a :| a in todo;
        ghost var done := siblings - todo;
        assert Kept(a, order) by {
          forall k | 0 <= k < |order| ensures order[k].0 != a { assert order[k] in order; }
        }
        RemintedAdds(done, node, order, otherMax, a);
        OverwrittenOfOneMore(done, a, other.siblings, node);
        assert siblings - (todo - {a}) == done + {a};
        todo := todo - {a};
        updated.Add(a);
        if myMax < otherMax {
          maxDot, order := other.RemintOverwritten(a, done + {a}, node, updated, maxDot, order,
                                                  Overwritten(done, other.siblings, node), otherMax);
        }
      }
      assert siblings - todo == siblings;
    }

    /**
      Inner loop of `MergeSync`: replaces `a` in `updated` by one copy under a new dot for every
      sibling here that would overwrite it.
     */
    method RemintOverwritten(a: Sibling, ghost mine: set<Sibling>, node: NodeName, updated: SiblingSet,
                             start: nat, ghost before: seq<Overwrite>, ghost met: set<Overwrite>, ghost above: nat)
      returns (maxDot: nat, ghost order: seq<Overwrite>)
      requires updated != this && updated.siblings == Reminted(mine, node, before, above)
      requires a in mine && a.clock.MaxDot(node) <= above
      requires start == above + |before|
      requires Enumerates(before, met) && forall p :: p in met ==> p.0 != a
      modifies updated
      ensures maxDot == above + |order|
      ensures Enumerates(order, met + Overwritten({a}, siblings, node))
      ensures updated.siblings == Reminted(mine, node, order, above)
    {
      maxDot := start;
      order := before;
      var todo := siblings;
      assert met + Overwritten({a}, siblings - todo, node) == met;
      while todo != {}
        invariant todo <= siblings
        invariant maxDot == above + |order|
        invariant Enumerates(order, met + Overwritten({a}, siblings - todo, node))
        invariant updated.siblings == Reminted(mine, node, order, above)
        decreases todo
      {
        var b :| b in todo;
        ghost var done := siblings - todo;
        assert siblings - (todo - {b}) == done + {b};
        todo := todo - {b};
        if a.clock.HappenedBefore(b.clock) && a.clock.MaxDot(node) < b.clock.MaxDot(node) && a.clock.MaxDot(node) != 0 {
          RemintRound(mine, node, order, above, met, a, done, b, maxDot + 1);
          updated.Delete(a);
          updated.Add(Remint(a, node, maxDot + 1));
          order := order + [(a, b)];
          maxDot := maxDot + 1;
        } else {
          OverwrittenByOneMore(a, done, b, node);
          assert Overwritten({a}, done + {b}, node) == Overwritten({a}, done, node);
        }
      }
      assert siblings - todo == siblings;
    }

    method Diff(other: SiblingSet) returns (diff: SiblingSet)
      ensures fresh(diff) && diff.siblings == Siblings.Diff(siblings, other.siblings)
    {
      diff := new SiblingSet({});
      var todo := other.siblings;
      while todo != {}
        invariant todo <= other.siblings
        invariant forall s :: s in diff.siblings <==> s in other.siblings && s !in todo && Missing(s, siblings)
        decreases todo
      {
        var b :| b in todo;
        todo := todo - {b};
        diff.Add(b);
        DeleteIfPresent(b, diff);
      }
    }

    /** Inner loop of `Diff`: `b` against every sibling here. */
    method DeleteIfPresent(b: Sibling, diff: SiblingSet)
      requires diff != this
      modifies diff
      ensures diff.siblings == old(diff.siblings) - (if Missing(b, siblings) then {} else {b})
    {
      var todo := siblings;
      while todo != {}
        invariant todo <= siblings
        invariant diff.siblings == old(diff.siblings) - (if Missing(b, siblings - todo) then {} else {b})
        decreases todo
      {
        var a :| a in todo;
        MissingFromOneMore(b, siblings - todo, a);
        assert siblings - (todo - {a}) == siblings - todo + {a};
        todo := todo - {a};
        if b.clock.HappenedBefore(a.clock) || b.clock == a.clock {
          diff.Delete(b);
        }
      }
      assert siblings - todo == siblings;
    }

    method Join() returns (collective: Context)
      ensures collective == Algebra.Join(siblings)
    {
      collective := map[];
      var todo := siblings;
      JoinOfNothing();
      while todo != {}
        invariant todo <= siblings
        invariant collective == Algebra.Join(siblings - todo)
        decreases todo
      {
        var a :| a in todo;
        ghost var done := siblings - todo;
        assert siblings - (todo - {a}) == done + {a};
        todo := todo - {a};
        var names := a.clock.Replicas();
        ghost var before := collective;
        for i := 0 to |names|
          invariant Raised(before, a, names[..i], collective)
        {
          var n := names[i];
          var maxDot := a.clock.MaxDot(n);
          ghost var now := collective;
          if n !in collective || collective[n] < maxDot {
            collective := collective[n := maxDot];
          }
          RaisedAtOneMore(before, a, names[..i], now, n, collective);
          TakeOneMore(names, i);
        }
        assert names[..|names|] == names;
        JoinOfOneMore(done, a, names, collective);
      }
      assert siblings - todo == siblings;
    }

    method JoinOne(node: NodeName) returns (m: nat)
      ensures m == Algebra.JoinOne(siblings, node)
    {
      m := 0;
      var todo := siblings;
      while todo != {}
        invariant todo <= siblings
        invariant forall a :: a in siblings - todo ==> a.clock.MaxDot(node) <= m
        invariant m == 0 || exists a :: a in siblings - todo && a.clock.MaxDot(node) == m
        decreases todo
      {
        var a :| a in todo;
        todo := todo - {a};
        var maxDot := a.clock.MaxDot(node);
        if m < maxDot {
          m := maxDot;
        }
      }
    }

    method Discard(clock: DVV) returns (rest: SiblingSet)
      ensures fresh(rest) && rest.siblings == Algebra.Discard(siblings, clock)
    {
      rest := new SiblingSet({});
      var todo := siblings;
      while todo != {}
        invariant todo <= siblings
        invariant rest.siblings == Algebra.Discard(siblings - todo, clock)
        decreases todo
      {
        var a :| a in todo;
        todo := todo - {a};
        if !a.clock.HappenedBefore(clock) {
          rest.Add(a);
        }
      }
    }

    method Event(context: Context, node: NodeName) returns (clock: DVV)
      ensures clock == Algebra.Event(siblings, context, node)
    {
      var s: nat := 0;
      if node in context {
        s := context[node];
      }
      var todo := siblings;
      while todo != {}
        invariant todo <= siblings
        invariant ContextCount(context, node) <= s
        invariant forall a :: a in siblings - todo ==> a.clock.MaxDot(node) <= s
        invariant s == ContextCount(context, node) || exists a :: a in siblings - todo && a.clock.MaxDot(node) == s
        decreases todo
      {
        var a :| a in todo;
        todo := todo - {a};
        var maxDot := a.clock.MaxDot(node);
        if s < maxDot {
          s := maxDot;
        }
      }
      clock := DVV(Dot(node, s + 1), context);
    }

    method IsTombstoneSet() returns (all: bool)
      ensures all <==> forall a :: a in siblings ==> a.IsTombstone()
    {
      var todo := siblings;
      while todo != {}
        invariant todo <= siblings
        invariant forall a :: a in siblings - todo ==> a.IsTombstone()
        decreases todo
      {
        var a :| a in todo;
        todo := todo - {a};
        if !a.IsTombstone() {
          return false;
        }
      }
      return true;
    }

    method GetOldestTombstone() returns (oldest: Option<Sibling>)
      ensures oldest.None? <==> forall a :: a in siblings ==> !a.IsTombstone()
      ensures oldest.Some? ==> oldest.value in siblings && oldest.value.IsTombstone()
      ensures oldest.Some? ==> forall a :: a in siblings && a.IsTombstone() ==> oldest.value.timestamp <= a.timestamp
    {
      oldest := None;
      var todo := siblings;
      while todo != {}
        invariant todo <= siblings
        invariant oldest.None? <==> forall a :: a in siblings - todo ==> !a.IsTombstone()
        invariant oldest.Some? ==> oldest.value in siblings && oldest.value.IsTombstone()
        invariant oldest.Some? ==>
          forall a :: a in siblings - todo && a.IsTombstone() ==> oldest.value.timestamp <= a.timestamp
        decreases todo
      {
        var a :| a in todo;
        todo := todo - {a};
        if a.IsTombstone() {
          if oldest.None? {
            oldest := Some(a);
          } else if oldest.value.timestamp > a.timestamp {
            oldest := Some(a);
          }
        }
      }
    }
  }
}
