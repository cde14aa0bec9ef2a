/**
  Reads see the writes a quorum acknowledged: the agent's batches and reads, over runs of the
  replicas of one key.
 */
module QuorumRuns {
  import opened Wrappers
  import opened Clocks
  import opened Siblings
  import opened Replication
  import opened ReadMergers
  import opened Agents

  // ----- A batch in a run -----------------------------------------------------------------

  /**
    At time `start` the batch wrote `a` at `writer`; every node in `acked` merged the patch
    before time `end`.  The patch is what the writer held after the write.
   */
  ghost predicate BatchHappened(run: seq<System>, start: nat, end: nat, writer: NodeName, acked: set<NodeName>,
                                a: Sibling)
    requires start < end < |run|
  {
    IsWriteOf(run[start], run[start + 1], writer, a) && MergedByAll(run, start, end, writer, acked)
  }

  ghost predicate MergedByAll(run: seq<System>, start: nat, end: nat, writer: NodeName, acked: set<NodeName>)
    requires start < end < |run|
  {
    && writer in run[start + 1].replicas
    && forall h :: h in acked && h != writer ==> MergedBetween(run, start, end, h, run[start + 1].replicas[writer])
  }

  ghost predicate IsWriteOf(s: System, t: System, writer: NodeName, a: Sibling) {
    && writer in s.replicas && writer in t.replicas
    && exists source, op, timestamp ::
         && Next(s, t, Write(writer, source, op, timestamp))
         && a == NewSibling(s.replicas[writer].siblings, SourceContext(source), writer, op, timestamp)
  }

  ghost predicate MergedBetween(run: seq<System>, start: nat, end: nat, h: NodeName, patch: Copy)
    requires start < end < |run|
  {
    exists j :: start < j < end && MergedAt(run, j, h, patch)
  }

  ghost predicate MergedAt(run: seq<System>, j: nat, h: NodeName, patch: Copy)
    requires j + 1 < |run|
  {
    Next(run[j], run[j + 1], Merge(h, patch))
  }

  lemma WriterKnows(s: System, t: System, writer: NodeName, a: Sibling)
    requires IsWriteOf(s, t, writer, a)
    ensures a in t.replicas[writer].known && a in t.created
  {
  }

  lemma MergedKnows(run: seq<System>, j: nat, end: nat, h: NodeName, patch: Copy, a: Sibling)
    requires IsRun(run) && j < end < |run| && MergedAt(run, j, h, patch) && a in patch.known
    ensures h in run[end].replicas && a in run[end].replicas[h].known
  {
    assert a in run[j + 1].replicas[h].known;
    KnowledgeGrows(run, j + 1, end, h);
  }

  lemma AckedKnows(run: seq<System>, start: nat, end: nat, writer: NodeName, acked: set<NodeName>, a: Sibling,
                   h: NodeName)
    requires IsRun(run) && start < end < |run| && MergedByAll(run, start, end, writer, acked)
    requires a in run[start + 1].replicas[writer].known && (h == writer || h in acked)
    ensures h in run[end].replicas && a in run[end].replicas[h].known
  {
    if h == writer {
      KnowledgeGrows(run, start + 1, end, writer);
    } else {
      var patch := run[start + 1].replicas[writer];
      assert MergedBetween(run, start, end, h, patch);
      var j: nat :| start < j < end && MergedAt(run, j, h, patch);
      MergedKnows(run, j, end, h, patch, a);
    }
  }

  /** Whoever had acknowledged the write at time `end` knows it then. */
  lemma HolderKnows(run: seq<System>, start: nat, end: nat, writer: NodeName, acked: set<NodeName>, a: Sibling,
                    h: NodeName)
    requires IsRun(run) && start < end < |run| && BatchHappened(run, start, end, writer, acked, a)
    requires h == writer || h in acked
    ensures h in run[end].replicas && a in run[end].replicas[h].known
  {
    WriterKnows(run[start], run[start + 1], writer, a);
    AckedKnows(run, start, end, writer, acked, a, h);
  }

  // ----- A read in a run ------------------------------------------------------------------

  /** Every node that answered gave, for the key, what it held at a time not before `end`. */
  ghost predicate ReadsHappened(run: seq<System>, end: nat, keys: seq<string>, key: string, answers: seq<ReadAnswer>,
                                times: map<NodeName, nat>) {
    forall x :: x in answers && x.sets.Ok? ==> ReadHappened(run, end, keys, key, x, times)
  }

  ghost predicate ReadHappened(run: seq<System>, end: nat, keys: seq<string>, key: string, x: ReadAnswer,
                               times: map<NodeName, nat>)
    requires x.sets.Ok?
  {
    && Answered(x, keys)
    && x.node in times && end <= times[x.node] < |run| && x.node in run[times[x.node]].replicas
    && forall i :: 0 <= i < |keys| && keys[i] == key ==>
         OrEmpty(x.sets.value[i]) == run[times[x.node]].replicas[x.node].siblings
  }

  // ----- Quorums intersect ----------------------------------------------------------------

  lemma QuorumsIntersect(nodes: set<NodeName>, a: set<NodeName>, b: set<NodeName>) returns (x: NodeName)
    requires a <= nodes && b <= nodes && |a| >= NQuorum(|nodes|) && |b| >= NQuorum(|nodes|)
    ensures x in a && x in b
  {
    if a * b == {} {
      assert |a + b| == |a| + |b|;
      SizeOfSubset(a + b, nodes);
      assert false;
    }
    x :| x in a * b;
  }

  // ----- Read your quorum -----------------------------------------------------------------

  lemma CreatedOnlyGrows(run: seq<System>, i: nat, j: nat)
    requires IsRun(run) && i <= j < |run|
    ensures run[i].created <= run[j].created
  {
    if i < j {
      CreatedOnlyGrows(run, i, j - 1);
      var step := StepOfRun(run, j - 1);
    }
  }

  lemma KnownIsCreated(run: seq<System>, t: nat, n: NodeName, a: Sibling)
    requires IsRun(run) && t < |run| && n in run[t].replicas && a in run[t].replicas[n].known
    ensures a in run[|run| - 1].created
  {
    RunKeepsInv(run, t);
    assert Sound(run[t].replicas[n], run[t].created);
    CreatedOnlyGrows(run, t, |run| - 1);
  }

  /** What a replica held at some time is an antichain of the siblings created up to the end of the run. */
  lemma HeldIsAntichain(run: seq<System>, t: nat, n: NodeName)
    requires IsRun(run) && t < |run| && n in run[t].replicas
    ensures run[t].replicas[n].siblings <= run[|run| - 1].created && Antichain(run[t].replicas[n].siblings)
  {
    CausalityOverRuns(run, t);
    CreatedOnlyGrows(run, t, |run| - 1);
  }

  /**
    Read your quorum.  When a batch reported success, every read that starts later and reports
    success returns a set in which the written sibling is present or overwritten by a present one.
    Only the nodes that had acknowledged when the batch returned, at time `end`, need to have
    merged by then, and only the answers the read counted need to be given after it.
   */
  lemma ReadYourQuorum(run: seq<System>, start: nat, end: nat, replies: Replies, local: NodeName, report: Report,
                       a: Sibling, keys: seq<string>, k: nat, answers: seq<ReadAnswer>, times: map<NodeName, nat>,
                       result: seq<Option<set<Sibling>>>)
    requires IsRun(run) && start < end < |run|
    requires RepliesOf(replies, replies.writes.Keys) && Reported(replies, local, report) && report.error.None?
    requires BatchHappened(run, start, end, report.writer.value, Acked(replies, report.failed, report.writer.value), a)
    requires ReadAnswersOf(answers, replies.writes.Keys, keys) && k < |keys|
    requires ReadsHappened(run, end, keys, keys[k], UpToQuorum(answers, NQuorum(|answers|)), times)
    requires Reads(answers) >= NQuorum(|answers|)
    requires result == ShownFor(keys, Gather(keys, UpToQuorum(answers, NQuorum(|answers|))))
    ensures |result| == |keys| && result[k].Some? && Reflects(result[k].value, a) && Antichain(result[k].value)
  {
    var writer, acked := report.writer.value, Acked(replies, report.failed, report.writer.value);
    AckedIsQuorum(replies, local, report);
    ReadSeesQuorum(run, start, end, replies.writes.Keys, writer, acked, a, keys, k, answers, times);
  }

  /** The same for any majority of the nodes that holds the write. */
  lemma ReadSeesQuorum(run: seq<System>, start: nat, end: nat, nodes: set<NodeName>, writer: NodeName,
                       acked: set<NodeName>,
                       a: Sibling, keys: seq<string>, k: nat, answers: seq<ReadAnswer>, times: map<NodeName, nat>)
    requires IsRun(run) && start < end < |run| && BatchHappened(run, start, end, writer, acked, a)
    requires acked <= nodes && |acked| >= NQuorum(|nodes|)
    requires ReadAnswersOf(answers, nodes, keys) && Reads(answers) >= NQuorum(|answers|) && k < |keys|
    requires ReadsHappened(run, end, keys, keys[k], UpToQuorum(answers, NQuorum(|answers|)), times)
    ensures var merged := Fold(InsertedAt(Gather(keys, UpToQuorum(answers, NQuorum(|answers|))), keys[k]));
            Reflects(merged, a) && Antichain(merged) && merged != {}
  {
    var counted := UpToQuorum(answers, NQuorum(|answers|));
    assert forall x :: x in counted ==> x in answers;
    var x := CommonNode(nodes, acked, answers, keys);
    HolderKnows(run, start, end, writer, acked, a, x.node);
    ReadReflects(run, end, keys, k, counted, times, x, a);
  }

  /** Some node both holds the write and was counted by the read. */
  lemma CommonNode(nodes: set<NodeName>, acked: set<NodeName>, answers: seq<ReadAnswer>, keys: seq<string>)
    returns (x: ReadAnswer)
    requires acked <= nodes && |acked| >= NQuorum(|nodes|)
    requires ReadAnswersOf(answers, nodes, keys) && Reads(answers) >= NQuorum(|answers|)
    ensures x in UpToQuorum(answers, NQuorum(|answers|)) && x.sets.Ok? && x.node in acked
  {
    var counted := UpToQuorum(answers, NQuorum(|answers|));
    UpToQuorumReads(answers, NQuorum(|answers|));
    assert NoReaderTwice(counted);
    ReadersSize(counted);
    var n := QuorumsIntersect(nodes, acked, Readers(counted));
    x :| x in counted && x.sets.Ok? && x.node == n;
  }

  /** A read that counted a node holding the write reflects the write. */
  lemma ReadReflects(run: seq<System>, end: nat, keys: seq<string>, k: nat, counted: seq<ReadAnswer>,
                     times: map<NodeName, nat>, x: ReadAnswer, a: Sibling)
    requires IsRun(run) && end < |run| && k < |keys| && ReadsHappened(run, end, keys, keys[k], counted, times)
    requires forall y :: y in counted ==> Answered(y, keys)
    requires x in counted && x.sets.Ok? && x.node in run[end].replicas && a in run[end].replicas[x.node].known
    ensures var merged := Fold(InsertedAt(Gather(keys, counted), keys[k]));
            Reflects(merged, a) && Antichain(merged) && merged != {}
  {
    assert ReadHappened(run, end, keys, keys[k], x, times);
    var held := run[times[x.node]].replicas[x.node].siblings;
    assert Gives(x, keys, keys[k], held) by { assert OrEmpty(x.sets.value[k]) == held; }
    GatheredSets(keys, counted, keys[k], held);
    GatheredSetsAreHeld(run, end, keys, k, counted, times);
    KnownLater(run, end, times[x.node], x.node, a);
    KnownIsCreated(run, end, x.node, a);
    FoldReflects(run, InsertedAt(Gather(keys, counted), keys[k]), held, a);
  }

  lemma KnownLater(run: seq<System>, end: nat, t: nat, n: NodeName, a: Sibling)
    requires IsRun(run) && end <= t < |run| && n in run[end].replicas && a in run[end].replicas[n].known
    ensures n in run[t].replicas && Reflects(run[t].replicas[n].siblings, a)
  {
    KnowledgeGrows(run, end, t, n);
    RunKeepsInv(run, t);
    KnownIsReflected(run[t].created, run[t].replicas.Keys, run[t].replicas[n], a);
  }

  lemma GatheredSetsAreHeld(run: seq<System>, end: nat, keys: seq<string>, k: nat, answers: seq<ReadAnswer>,
                            times: map<NodeName, nat>)
    requires IsRun(run) && k < |keys| && ReadsHappened(run, end, keys, keys[k], answers, times)
    requires forall x :: x in answers ==> Answered(x, keys)
    ensures AntichainsOf(run[|run| - 1].created, InsertedAt(Gather(keys, answers), keys[k]))
  {
    forall s | s in InsertedAt(Gather(keys, answers), keys[k]) ensures s <= run[|run| - 1].created && Antichain(s) {
      GatheredSets(keys, answers, keys[k], s);
      var x :| x in answers && Gives(x, keys, keys[k], s);
      assert ReadHappened(run, end, keys, keys[k], x, times);
      HeldIsAntichain(run, times[x.node], x.node);
    }
  }

  /** Merging keeps what one of the merged sets reflects. */
  lemma FoldReflects(run: seq<System>, sets: seq<set<Sibling>>, held: set<Sibling>, a: Sibling)
    requires IsRun(run) && AntichainsOf(run[|run| - 1].created, sets) && held in sets && Reflects(held, a)
    requires a in run[|run| - 1].created
    ensures Reflects(Fold(sets), a) && Antichain(Fold(sets)) && Fold(sets) != {}
  {
    var u := run[|run| - 1].created;
    RunKeepsInv(run, |run| - 1);
    CausalIsUniverse(u, run[|run| - 1].replicas.Keys);
    FoldIsMaximal(u, sets);
    UnionIsMembership(sets);
    var b :| b in held && (b == a || HappenedBefore(a, b));
    var top := MaximalCovers(u, Union(sets), b);
    assert b == a || Below(a, b);
    if top != b && b != a { BelowIsTransitive(u, a, b, top); }
  }
}
