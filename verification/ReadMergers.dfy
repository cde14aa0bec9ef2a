/**
  Merging what replicas answer to a read, and what each of them lacks of the merged set
  (clusterio/read_merger.go).
 */
module ReadMergers {
  import opened Wrappers
  import opened Clocks
  import opened Siblings
  import opened SiblingSets

  type Versions = map<NodeName, set<Sibling>>

  // ----- The merged set of a key ----------------------------------------------------------

  /** The sets in order of arrival, each merged into what the earlier ones gave. */
  ghost function Fold(sets: seq<set<Sibling>>): set<Sibling> {
    if |sets| == 0 then {}
    else if |sets| == 1 then sets[0]
    else Sync(Fold(sets[..|sets| - 1]), sets[|sets| - 1])
  }

  ghost function Union(sets: seq<set<Sibling>>): set<Sibling> {
    if sets == [] then {} else Union(sets[..|sets| - 1]) + sets[|sets| - 1]
  }

  ghost predicate AntichainsOf(u: set<Sibling>, sets: seq<set<Sibling>>) {
    forall s :: s in sets ==> s <= u && Antichain(s)
  }

  lemma {:induction false} UnionIsMembership(sets: seq<set<Sibling>>)
    ensures forall a :: a in Union(sets) <==> exists s :: s in sets && a in s
  {
    if sets != [] {
      var front, last := sets[..|sets| - 1], sets[|sets| - 1];
      UnionIsMembership(front);
      assert sets == front + [last];
      assert forall s :: s in sets <==> s in front || s == last;
    }
  }

  /** Merging antichains one after the other gives the maximal siblings of all of them. */
  lemma {:induction false} FoldIsMaximal(u: set<Sibling>, sets: seq<set<Sibling>>)
    requires Universe(u) && AntichainsOf(u, sets)
    ensures Fold(sets) == Maximal(Union(sets)) && Union(sets) <= u && Antichain(Fold(sets))
  {
    if |sets| == 0 {
    } else if |sets| == 1 {
      assert sets[..0] == [];
      assert Union(sets) == sets[0] && sets[0] in sets;
      AntichainIsItsMaximal(sets[0]);
    } else {
      var front, last := sets[..|sets| - 1], sets[|sets| - 1];
      assert last in sets;
      FoldIsMaximal(u, front);
      SyncIsMaximal(u, Fold(front), last);
      MaximalAbsorbs(u, Union(front), last);
    }
  }

  /** The order and the repetition of answers do not matter. */
  lemma ArrivalOrderDoesNotMatter(u: set<Sibling>, one: seq<set<Sibling>>, other: seq<set<Sibling>>)
    requires Universe(u) && AntichainsOf(u, one)
    requires forall s :: s in one <==> s in other
    ensures Fold(one) == Fold(other)
  {
    FoldIsMaximal(u, one);
    FoldIsMaximal(u, other);
    UnionIsMembership(one);
    UnionIsMembership(other);
    assert Union(one) == Union(other);
  }

  // ----- Repair of one key ----------------------------------------------------------------

  /** Two different siblings, one on each side, share a clock. */
  ghost predicate Clash(version: set<Sibling>, merged: set<Sibling>) {
    exists v, m :: v in version && m in merged && v.clock == m.clock && v != m
  }

  /** `merged` is what a read made of `version` and other sets. */
  ghost predicate MergedFrom(u: set<Sibling>, version: set<Sibling>, merged: set<Sibling>) {
    && Universe(u) && version <= u && merged <= u && Antichain(version) && Antichain(merged)
    && (forall v :: v in version ==> v in merged || exists m :: m in merged && Below(v, m))
  }

  lemma FoldIsMergedFrom(u: set<Sibling>, sets: seq<set<Sibling>>, version: set<Sibling>)
    requires Universe(u) && AntichainsOf(u, sets) && version in sets
    ensures MergedFrom(u, version, Fold(sets))
  {
    FoldIsMaximal(u, sets);
    UnionIsMembership(sets);
    forall v | v in version ensures v in Fold(sets) || exists m :: m in Fold(sets) && Below(v, m) {
      var top := MaximalCovers(u, Union(sets), v);
    }
  }

  /** No sibling of the merged set is overwritten by the older version. */
  lemma MergedIsNotOverwritten(u: set<Sibling>, version: set<Sibling>, merged: set<Sibling>, m: Sibling, v: Sibling)
    requires MergedFrom(u, version, merged) && m in merged && v in version
    ensures !Below(m, v)
  {
    if Below(m, v) && v !in merged {
      var top :| top in merged && Below(v, top);
      BelowIsTransitive(u, m, v, top);
    }
  }

  /** The patch holds the merged siblings whose clock the version does not have. */
  lemma DiffIsByClock(u: set<Sibling>, version: set<Sibling>, merged: set<Sibling>, m: Sibling)
    requires MergedFrom(u, version, merged)
    ensures m in Diff(version, merged) <==> m in merged && forall v :: v in version ==> v.clock != m.clock
  {
    if m in merged {
      forall v | v in version ensures !HappenedBefore(m, v) { MergedIsNotOverwritten(u, version, merged, m, v); }
    }
  }

  /**
    Merging the patch brings the replica to the merged set exactly when no two different
    siblings of the two sets share a clock: such a sibling is never part of the patch.
   */
  lemma RepairConvergesExactly(u: set<Sibling>, version: set<Sibling>, merged: set<Sibling>)
    requires MergedFrom(u, version, merged)
    ensures Sync(version, Diff(version, merged)) == merged <==> !Clash(version, merged)
  {
    var patch := Diff(version, merged);
    assert Antichain(patch) by { assert Antichain(merged); }
    SyncIsMaximal(u, version, patch);
    forall m | m in merged ensures m in version || m in patch || Clash(version, merged) {
      DiffIsByClock(u, version, merged, m);
    }
    if Clash(version, merged) {
      var v, m :| v in version && m in merged && v.clock == m.clock && v != m;
      DiffIsByClock(u, version, merged, m);
      EqualClocksLose(u, version, v, m);
      assert m !in version + patch;
    } else {
      PatchedIsMaximal(u, version, merged, patch);
    }
  }

  lemma EqualClocksLose(u: set<Sibling>, s: set<Sibling>, v: Sibling, m: Sibling)
    requires Universe(u) && s <= u && Antichain(s) && v in s && m in u && v.clock == m.clock && v != m
    ensures m !in s
  {
    CompareIsAnOrder(v, m, m);
    assert v.Compare(m) != 0;
    assert Below(v, m) || Below(m, v);
  }

  lemma PatchedIsMaximal(u: set<Sibling>, version: set<Sibling>, merged: set<Sibling>, patch: set<Sibling>)
    requires MergedFrom(u, version, merged) && patch <= merged <= version + patch
    ensures Maximal(version + patch) == merged
  {
    forall m | m in merged ensures m in Maximal(version + patch) {
      forall v | v in version ensures !Below(m, v) { MergedIsNotOverwritten(u, version, merged, m, v); }
    }
  }

  /** An empty patch means the replica already holds the merged set, unless clocks clash. */
  lemma EmptyDiffExactly(u: set<Sibling>, version: set<Sibling>, merged: set<Sibling>)
    requires MergedFrom(u, version, merged)
    ensures version == merged <==> Diff(version, merged) == {} && !Clash(version, merged)
  {
    RepairConvergesExactly(u, version, merged);
    if version == merged {
      forall m ensures m !in Diff(version, merged) { DiffIsByClock(u, version, merged, m); }
      forall v, m | v in version && m in merged && v.clock == m.clock ensures v == m {
        if v != m { EqualClocksLose(u, version, v, m); }
      }
    }
    SyncIsMaximal(u, version, {});
    AntichainIsItsMaximal(version);
    assert version + {} == version;
  }

  /** Two values under one clock: the losing replica is not repaired and gets an empty patch. */
  lemma ClashIsNotRepaired()
    ensures exists u: set<Sibling>, version: set<Sibling>, merged: set<Sibling> ::
              && MergedFrom(u, version, merged)
              && Diff(version, merged) == {} && Sync(version, Diff(version, merged)) != merged
  {
    var clock := DVV(Dot("r", 1), map[]);
    var v, m := Sibling(clock, Some([1]), 1), Sibling(clock, Some([2]), 1);
    assert v.Compare(m) == -1 && m.Compare(v) == 1;
    var u := {v, m};
    CompareIsAnOrder(v, v, v);
    CompareIsAnOrder(m, m, m);
    assert Universe(u) && Antichain({v}) && Antichain({m}) && Below(v, m);
    assert MergedFrom(u, {v}, {m});
    assert v.clock == m.clock && Clash({v}, {m});
    RepairConvergesExactly(u, {v}, {m});
    DiffIsByClock(u, {v}, {m}, m);
    assert Diff({v}, {m}) == {};
  }

  // ----- The objects ----------------------------------------------------------------------

  function OrEmpty(s: Option<set<Sibling>>): set<Sibling> {
    if s.Some? then s.value else {}
  }

  /** What `Patch` lists for a key: the difference, or everything when the node did not answer. */
  ghost function PatchFor(versions: Versions, merged: set<Sibling>, node: NodeName): set<Sibling> {
    if node in versions then Diff(versions[node], merged) else merged
  }

  lemma FoldOfOneMore(sets: seq<set<Sibling>>, s: set<Sibling>)
    ensures Fold(sets + [s]) == if sets == [] then s else Sync(Fold(sets), s)
  {
    assert (sets + [s])[..|sets|] == sets;
  }

  /** The merged set of each key is the fold of what was inserted, and each version is one of those sets. */
  ghost predicate Coherent(keyVersions: map<string, Versions>, mergedKeys: map<string, set<Sibling>>,
                           inserted: map<string, seq<set<Sibling>>>) {
    && keyVersions.Keys == mergedKeys.Keys == inserted.Keys
    && forall key :: key in inserted ==> CoherentKey(keyVersions[key], mergedKeys[key], inserted[key])
  }

  ghost predicate CoherentKey(versions: Versions, merged: set<Sibling>, inserted: seq<set<Sibling>>) {
    && inserted != [] && merged == Fold(inserted)
    && forall node :: node in versions ==> versions[node] in inserted
  }

  ghost function VersionsOf(keyVersions: map<string, Versions>, key: string): Versions {
    if key in keyVersions then keyVersions[key] else map[]
  }

  ghost function InsertedAt(inserted: map<string, seq<set<Sibling>>>, key: string): seq<set<Sibling>> {
    if key in inserted then inserted[key] else []
  }

  lemma InsertKeepsCoherent(keyVersions: map<string, Versions>, mergedKeys: map<string, set<Sibling>>,
                            inserted: map<string, seq<set<Sibling>>>, key: string, node: NodeName, s: set<Sibling>)
    requires Coherent(keyVersions, mergedKeys, inserted)
    ensures Coherent(keyVersions[key := VersionsOf(keyVersions, key)[node := s]],
                     mergedKeys[key := if key in mergedKeys then Sync(mergedKeys[key], s) else s],
                     inserted[key := InsertedAt(inserted, key) + [s]])
  {
    var before := InsertedAt(inserted, key);
    FoldOfOneMore(before, s);
    assert CoherentKey(VersionsOf(keyVersions, key)[node := s],
                       if key in mergedKeys then Sync(mergedKeys[key], s) else s, before + [s]);
  }

  method MergeTwo(held: set<Sibling>, answered: set<Sibling>) returns (merged: set<Sibling>)
    ensures merged == Sync(held, answered)
  {
    var mine := new SiblingSet(held);
    var theirs := new SiblingSet(answered);
    var both := mine.Sync(theirs);
    merged := both.siblings;
  }

  method DiffTwo(version: set<Sibling>, merged: set<Sibling>) returns (missing: set<Sibling>)
    ensures missing == Diff(version, merged)
  {
    var mine := new SiblingSet(version);
    var theirs := new SiblingSet(merged);
    var patch := mine.Diff(theirs);
    missing := patch.siblings;
  }

  class ReadMerger {
    var keyVersions: map<string, Versions>
    var mergedKeys: map<string, set<Sibling>>
    /** Every set inserted for a key, in order. */
    ghost var inserted: map<string, seq<set<Sibling>>>

    ghost predicate Valid()
      reads this
    {
      Coherent(keyVersions, mergedKeys, inserted)
    }

    constructor ()
      ensures Valid() && inserted == map[]
    {
      keyVersions, mergedKeys, inserted := map[], map[], map[];
    }

    ghost function Inserted(key: string): seq<set<Sibling>>
      reads this
    {
      InsertedAt(inserted, key)
    }

    method InsertKeyReplica(node: NodeName, key: string, siblingSet: Option<set<Sibling>>)
      requires Valid()
      modifies this
      ensures Valid()
      ensures inserted == old(inserted)[key := old(Inserted(key)) + [OrEmpty(siblingSet)]]
      ensures keyVersions == old(keyVersions)[key := VersionsOf(old(keyVersions), key)[node := OrEmpty(siblingSet)]]
    {
      InsertKeepsCoherent(keyVersions, mergedKeys, inserted, key, node, OrEmpty(siblingSet));
      inserted := inserted[key := Inserted(key) + [OrEmpty(siblingSet)]];
      RecordVersion(node, key, OrEmpty(siblingSet));
      if key !in mergedKeys {
        mergedKeys := mergedKeys[key := OrEmpty(siblingSet)];
      } else {
        var merged := MergeTwo(mergedKeys[key], OrEmpty(siblingSet));
        mergedKeys := mergedKeys[key := merged];
      }
    }

    method RecordVersion(node: NodeName, key: string, answered: set<Sibling>)
      modifies this`keyVersions
      ensures keyVersions == old(keyVersions)[key := VersionsOf(old(keyVersions), key)[node := answered]]
    {
      if key !in keyVersions {
        keyVersions := keyVersions[key := map[]];
      }
      keyVersions := keyVersions[key := keyVersions[key][node := answered]];
    }

    /** The merged set for the client; nothing when no replica holds a sibling. */
    method Get(key: string) returns (result: Option<set<Sibling>>)
      requires Valid()
      ensures result == if Fold(Inserted(key)) == {} then None else Some(Fold(Inserted(key)))
    {
      if key !in mergedKeys {
        return None;
      }
      if |mergedKeys[key]| == 0 {
        return None;
      }
      return Some(mergedKeys[key]);
    }

    method Patch(node: NodeName) returns (patch: map<string, set<Sibling>>)
      requires Valid()
      ensures patch == WholePatch(keyVersions, mergedKeys, node)
    {
      patch := map[];
      var todo := keyVersions.Keys;
      while todo != {}
        invariant todo <= keyVersions.Keys && patch.Keys == keyVersions.Keys - todo
        invariant forall key :: key in patch ==> patch[key] == PatchFor(keyVersions[key], mergedKeys[key], node)
        decreases todo
      {
        var key :| key in todo;
        todo := todo - {key};
        if node in keyVersions[key] {
          var missing := DiffTwo(keyVersions[key][node], mergedKeys[key]);
          patch := patch[key := missing];
        } else {
          patch := patch[key := mergedKeys[key]];
        }
      }
    }

    /** The nodes that answered for some key. */
    method Nodes() returns (nodes: set<NodeName>)
      ensures forall n :: n in nodes <==> exists key :: key in keyVersions && n in keyVersions[key]
    {
      nodes := {};
      var todo := keyVersions.Keys;
      while todo != {}
        invariant todo <= keyVersions.Keys
        invariant forall n :: n in nodes <==> exists key :: key in keyVersions && key !in todo && n in keyVersions[key]
        decreases todo
      {
        var key :| key in todo;
        todo := todo - {key};
        nodes := nodes + keyVersions[key].Keys;
      }
    }
  }

  ghost function WholePatch(versions: map<string, Versions>, merged: map<string, set<Sibling>>, node: NodeName)
    : map<string, set<Sibling>>
    requires versions.Keys == merged.Keys
  {
    map key | key in versions :: PatchFor(versions[key], merged[key], node)
  }
}
