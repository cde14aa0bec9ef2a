/**
  Repairing the replicas that answered a read with less than the merged set
  (clusterio/read_repairer.go, with the merge of bucket/store.go at the repaired node).
 */
module Repairs {
  import opened Wrappers
  import opened Clocks
  import opened Siblings
  import opened SiblingAlgebra
  import opened ReadMergers
  import opened Stores

  // ----- The patches ----------------------------------------------------------------------

  /** The entries that repair something. */
  ghost function NonEmpty(whole: map<string, set<Sibling>>): map<string, set<Sibling>> {
    map key | key in whole && whole[key] != {} :: whole[key]
  }

  ghost function DuePatch(merger: ReadMerger, node: NodeName): map<string, set<Sibling>>
    requires merger.Valid()
    reads merger
  {
    NonEmpty(WholePatch(merger.keyVersions, merger.mergedKeys, node))
  }

  method DropEmpty(whole: map<string, set<Sibling>>) returns (patch: map<string, set<Sibling>>)
    ensures patch == NonEmpty(whole)
  {
    patch := whole;
    var todo := whole.Keys;
    while todo != {}
      invariant todo <= whole.Keys && todo <= patch.Keys
      invariant forall key :: key in patch <==> key in todo || (key in whole && whole[key] != {})
      invariant forall key :: key in patch ==> patch[key] == whole[key]
      decreases todo
    {
      var key :| key in todo;
      todo := todo - {key};
      if |patch[key]| == 0 {
        patch := patch - {key};
      }
    }
  }

  /** The merged set of the key has the sibling; the version the node answered, if any,
      neither covers it nor has its clock. */
  ghost predicate Lacks(merger: ReadMerger, node: NodeName, key: string, b: Sibling)
    requires merger.Valid()
    reads merger
  {
    && key in merger.keyVersions && b in merger.mergedKeys[key]
    && (node in merger.keyVersions[key] ==>
          forall a :: a in merger.keyVersions[key][node] ==> !Covered(b, a) && b.clock != a.clock)
  }

  lemma SentIsLacking(merger: ReadMerger)
    requires merger.Valid()
    ensures forall n, key, b :: (key in DuePatch(merger, n) && b in DuePatch(merger, n)[key]) <==>
        Lacks(merger, n, key, b)
  {
    forall n, key, b
      ensures (key in DuePatch(merger, n) && b in DuePatch(merger, n)[key]) <==> Lacks(merger, n, key, b)
    {
      if key in merger.keyVersions && n in merger.keyVersions[key] {
        DiffMeaning(merger.keyVersions[key][n], merger.mergedKeys[key], b);
      }
    }
  }

  method PatchToSend(merger: ReadMerger, node: NodeName) returns (patch: map<string, set<Sibling>>)
    requires merger.Valid()
    ensures patch == DuePatch(merger, node)
  {
    var whole := merger.Patch(node);
    patch := DropEmpty(whole);
  }

  /** The merges `BeginRepair` sends: one for every node that answered for some key and needs a patch. */
  method BeginRepair(merger: ReadMerger)
    returns (sent: map<NodeName, map<string, set<Sibling>>>, ghost nodes: set<NodeName>)
    requires merger.Valid()
    ensures forall n :: n in nodes <==> exists key :: key in merger.keyVersions && n in merger.keyVersions[key]
    ensures forall n :: n in sent <==> n in nodes && |DuePatch(merger, n)| > 0
    ensures forall n :: n in sent ==> sent[n] == DuePatch(merger, n)
    ensures forall n :: n in sent ==> sent[n] != map[] && forall key :: key in sent[n] ==> sent[n][key] != {}
    ensures forall n, key, b :: (n in sent && key in sent[n] && b in sent[n][key]) <==>
        n in nodes && Lacks(merger, n, key, b)
  {
    SentIsLacking(merger);
    sent := map[];
    var answered := merger.Nodes();
    nodes := answered;
    var todo := answered;
    while todo != {}
      invariant todo <= nodes
      invariant forall n :: n in sent <==> n in nodes - todo && |DuePatch(merger, n)| > 0
      invariant forall n :: n in sent ==> sent[n] == DuePatch(merger, n)
      decreases todo
    {
      var node :| node in todo;
      todo := todo - {node};
      var patch := PatchToSend(merger, node);
      if |patch| == 0 {
        continue;
      }
      sent := sent[node := patch];
    }
  }

  // ----- The repaired node ----------------------------------------------------------------

  /**
    What `node` may hold for a key after `Store.Merge` of the patch: the node-aware merge when
    it has a sibling that was not held, and what was held otherwise.
   */
  ghost predicate Repaired(held: set<Sibling>, patch: map<string, set<Sibling>>, key: string, node: NodeName,
                           out: set<Sibling>) {
    if key in patch then exists after :: StoredMerge(held, patch[key], node, after, out)
    else out == held
  }

  ghost predicate StoredMerge(held: set<Sibling>, theirs: set<Sibling>, node: NodeName, after: set<Sibling>,
                              out: set<Sibling>) {
    MergeSyncResult(held, theirs, node, after) && out == if Gains(held, after) then after else held
  }

  /** The repaired node stores the patch it is sent. */
  method MergePatch(store: Store, patch: map<string, set<Sibling>>, readOk: bool, driverOk: bool)
    returns (result: Result<(), Stores.Error>)
    requires store.Valid()
    modifies store`nextRowID, store`storage, store.monitor
    ensures store.Valid()
    ensures result.Ok? ==> forall key :: Repaired(old(store.Held(key)), patch, key, store.nodeID, store.Held(key))
    ensures result.Err? ==> !(readOk && driverOk) && store.storage == old(store.storage)
  {
    ghost var merged, rows;
    result, merged, rows := store.Merge(patch, readOk, driverOk);
    forall key | result.Ok?
      ensures Repaired(old(store.Held(key)), patch, key, store.nodeID, store.Held(key))
    {
      if key in patch {
        assert StoredMerge(old(store.Held(key)), patch[key], store.nodeID, merged[key], store.Held(key));
      }
    }
  }

  /** The node forgot events of its own that the patch mentions, and would mint new dots for it. */
  ghost predicate Remints(version: set<Sibling>, patch: set<Sibling>, node: NodeName) {
    LostHistory(version, patch, node) && exists v, b :: v in version && b in patch && Supersedes(b, v, node)
  }

  lemma RemintsMeaning(version: set<Sibling>, patch: set<Sibling>, node: NodeName)
    ensures Remints(version, patch, node) <==> Forgot(version, patch, node) && Overwritten(version, patch, node) != {}
  {
    ForgotMeaning(version, patch, node);
    forall v, b { OverwritesMeaning(b, v, node); }
    if Overwritten(version, patch, node) != {} {
      var p :| p in Overwritten(version, patch, node);
      assert Supersedes(p.1, p.0, node);
    }
    if v, b :| v in version && b in patch && Supersedes(b, v, node) {
      assert (v, b) in Overwritten(version, patch, node);
    }
  }

  /** A dot minted during the repair is above everything the merged set says of the node. */
  lemma MintedIsNotMerged(version: set<Sibling>, merged: set<Sibling>, node: NodeName, copy: Sibling)
    requires copy.clock.dot.node == node && JoinOne(Diff(version, merged), node) < copy.clock.dot.count
    requires Forgot(version, Diff(version, merged), node)
    ensures copy !in merged
  {
    if copy in merged {
      assert copy !in Diff(version, merged);
      var v :| v in version && (HappenedBefore(copy, v) || copy.clock == v.clock);
      assert false;
    }
  }

  /**
    Merging the patch at the node itself brings it to the merged set if and only if no two
    different siblings of the two sets share a clock and no new dots are minted.
   */
  lemma NodeRepairConvergesExactly(u: set<Sibling>, version: set<Sibling>, merged: set<Sibling>, node: NodeName,
                                   after: set<Sibling>, out: set<Sibling>)
    requires MergedFrom(u, version, merged) && StoredMerge(version, Diff(version, merged), node, after, out)
    ensures out == merged <==> !Clash(version, merged) && !Remints(version, Diff(version, merged), node)
  {
    var patch := Diff(version, merged);
    RepairConvergesExactly(u, version, merged);
    RemintsMeaning(version, patch, node);
    MergeSyncIsSyncExactly(version, patch, node, after);
    if Remints(version, patch, node) {
      var copy := MintedSurvives(version, patch, node, after);
      MintedIsNotMerged(version, merged, node, copy);
      assert Gains(version, after);
    } else if !Gains(version, after) {
      assert Antichain(patch) by { assert Antichain(merged); }
      SkippedMergeChangesNothing(u, version, patch, node, after);
    }
  }

  /**
    Read repair converges: after the merge that one repair sends to it, a node that answered for
    the key holds the merged set, if and only if its version does not clash with that set and the
    node has not forgotten events of its own that overwrite what it holds.
   */
  lemma ReadRepairConverges(merger: ReadMerger, u: set<Sibling>, key: string, node: NodeName, out: set<Sibling>)
    requires merger.Valid() && Universe(u)
    requires key in merger.keyVersions && node in merger.keyVersions[key] && AntichainsOf(u, merger.inserted[key])
    requires Repaired(merger.keyVersions[key][node], DuePatch(merger, node), key, node, out)
    ensures var version, merged := merger.keyVersions[key][node], merger.mergedKeys[key];
            out == merged <==> !Clash(version, merged) && !Remints(version, Diff(version, merged), node)
  {
    var version, merged := merger.keyVersions[key][node], merger.mergedKeys[key];
    FoldIsMergedFrom(u, merger.inserted[key], version);
    if key in DuePatch(merger, node) {
      var after :| StoredMerge(version, DuePatch(merger, node)[key], node, after, out);
      NodeRepairConvergesExactly(u, version, merged, node, after, out);
    } else {
      EmptyDiffExactly(u, version, merged);
    }
  }

  /** Whatever order the merge takes, the node does not get the merged set. */
  ghost predicate RepairFails(u: set<Sibling>, version: set<Sibling>, merged: set<Sibling>, node: NodeName) {
    && MergedFrom(u, version, merged) && !Clash(version, merged) && Sync(version, Diff(version, merged)) == merged
    && forall after, out :: StoredMerge(version, Diff(version, merged), node, after, out) ==> out != merged
  }

  /**
    A node that lost its history is not repaired, although no clocks clash and the plain merge
    would do: it keeps its value under a new dot that the merged set does not have.
   */
  lemma ForgottenIsNotRepaired()
    ensures exists u, version, merged, node :: RepairFails(u, version, merged, node)
  {
    var v := Sibling(DVV(Dot("n", 1), map[]), Some([1]), 1);
    var m := Sibling(DVV(Dot("k", 1), map["n" := 5]), Some([2]), 1);
    LaterIsMerged(v, m);
    assert v.clock.MaxDot("n") == 1 && m.clock.MaxDot("n") == 5;
    assert Overwrites(m, v, "n") && (v, m) in Overwritten({v}, {m}, "n");
    RemintsMeaning({v}, {m}, "n");
    RemintedFails({v, m}, {v}, {m}, "n");
  }

  /** A read that saw both siblings returns the later one, and the older version needs it. */
  lemma LaterIsMerged(v: Sibling, m: Sibling)
    requires HappenedBefore(v, m) && !HappenedBefore(m, v) && !HappenedBefore(v, v) && !HappenedBefore(m, m)
    requires v.clock != m.clock
    ensures MergedFrom({v, m}, {v}, {m}) && !Clash({v}, {m}) && Diff({v}, {m}) == {m}
    ensures Sync({v}, Diff({v}, {m})) == {m}
  {
    CompareIsAnOrder(v, v, v);
    CompareIsAnOrder(m, m, m);
    assert Universe({v, m});
    assert m in Diff({v}, {m});
    RepairConvergesExactly({v, m}, {v}, {m});
  }

  lemma RemintedFails(u: set<Sibling>, version: set<Sibling>, merged: set<Sibling>, node: NodeName)
    requires MergedFrom(u, version, merged) && !Clash(version, merged) && Sync(version, Diff(version, merged)) == merged
    requires Remints(version, Diff(version, merged), node)
    ensures RepairFails(u, version, merged, node)
  {
    forall after, out | StoredMerge(version, Diff(version, merged), node, after, out) ensures out != merged {
      NodeRepairConvergesExactly(u, version, merged, node, after, out);
    }
  }
}
