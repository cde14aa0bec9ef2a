/**
  The agent that runs client requests against the replicas of a partition
  (clusterio/agent.go).  What the nodes answer, and in which order, is a parameter.
 */
module Agents {
  import opened Wrappers
  import opened Clocks
  import opened Siblings
  import opened ReadMergers

  datatype Error = ENoQuorum | EBucketDoesNotExist | ESiteDoesNotExist | ENodeFailure

  function NQuorum(replicas: nat): nat { replicas / 2 + 1 }

  /** A quorum is the smallest majority. */
  lemma QuorumIsMajority(k: nat, n: nat)
    ensures k >= NQuorum(n) <==> 2 * k > n
    ensures k == NQuorum(n) <==> 2 * k > n && 2 * k <= n + 2
  {
  }

  /** The errors that replace ENoQuorum in the answer to the client. */
  predicate IsSpecific(error: Error) { error.EBucketDoesNotExist? || error.ESiteDoesNotExist? }

  // ----- What nodes answer ----------------------------------------------------------------

  /** A node accepted a merge or failed. */
  datatype Answer = Answer(node: NodeName, error: Option<Error>)

  /** The answers of the given nodes, in order of arrival. */
  function From(answers: seq<Answer>, nodes: set<NodeName>): seq<Answer> {
    if answers == [] then []
    else From(answers[..|answers| - 1], nodes) +
         (if answers[|answers| - 1].node in nodes then [answers[|answers| - 1]] else [])
  }

  function NodeSet(replicaNodes: seq<NodeName>): set<NodeName> {
    set n | n in replicaNodes
  }

  predicate NoNodeTwice(answers: seq<Answer>) {
    forall i, j :: 0 <= i < j < |answers| ==> answers[i].node != answers[j].node
  }

  function Applied(answers: seq<Answer>): set<NodeName> {
    set i | 0 <= i < |answers| && answers[i].error.None? :: answers[i].node
  }

  /** The last specific error, or the fallback. */
  function ResultError(answers: seq<Answer>, fallback: Error): Error {
    if answers == [] then fallback
    else
      var last := answers[|answers| - 1];
      if last.error.Some? && IsSpecific(last.error.value) then last.error.value
      else ResultError(answers[..|answers| - 1], fallback)
  }

  /** Of the answers of these nodes,
      the last that names a missing bucket or site decides; the fallback when none does. */
  ghost predicate TellsLast(answers: seq<Answer>, nodes: set<NodeName>, fallback: Error, error: Error) {
    || (error == fallback && forall i :: 0 <= i < |answers| && answers[i].node in nodes ==>
          answers[i].error != Some(EBucketDoesNotExist) && answers[i].error != Some(ESiteDoesNotExist))
    || exists k :: 0 <= k < |answers| && LastToTell(answers, nodes, error, k)
  }

  ghost predicate LastToTell(answers: seq<Answer>, nodes: set<NodeName>, error: Error, k: int)
    requires 0 <= k < |answers|
  {
    && answers[k].node in nodes && answers[k].error == Some(error)
    && (error == EBucketDoesNotExist || error == ESiteDoesNotExist)
    && forall i :: k < i < |answers| && answers[i].node in nodes ==>
         answers[i].error != Some(EBucketDoesNotExist) && answers[i].error != Some(ESiteDoesNotExist)
  }

  lemma {:induction false} ResultErrorIsLast(answers: seq<Answer>, nodes: set<NodeName>, fallback: Error)
    ensures TellsLast(answers, nodes, fallback, ResultError(From(answers, nodes), fallback))
  {
    if answers != [] {
      var front, last := answers[..|answers| - 1], answers[|answers| - 1];
      ResultErrorIsLast(front, nodes, fallback);
      ErrorOfOneMore(front, last, nodes, fallback);
      assert answers == front + [last];
      TellsOneMore(front, last, nodes, fallback, ResultError(From(front, nodes), fallback));
    }
  }

  lemma ErrorOfOneMore(front: seq<Answer>, last: Answer, nodes: set<NodeName>, fallback: Error)
    ensures ResultError(From(front + [last], nodes), fallback) ==
            if last.node in nodes && last.error.Some? && IsSpecific(last.error.value) then last.error.value
            else ResultError(From(front, nodes), fallback)
  {
    var before, after := From(front, nodes), From(front + [last], nodes);
    assert (front + [last])[..|front|] == front;
    if last.node in nodes { assert after[..|before|] == before; } else { assert after == before; }
  }

  lemma TellsOneMore(front: seq<Answer>, last: Answer, nodes: set<NodeName>, fallback: Error, error: Error)
    requires TellsLast(front, nodes, fallback, error)
    ensures TellsLast(front + [last], nodes, fallback,
                      if last.node in nodes && last.error.Some? && IsSpecific(last.error.value) then last.error.value
                      else error)
  {
    var answers := front + [last];
    if last.node in nodes && last.error.Some? && IsSpecific(last.error.value) {
      assert LastToTell(answers, nodes, last.error.value, |front|);
    } else if k :| 0 <= k < |front| && LastToTell(front, nodes, error, k) {
      assert LastToTell(answers, nodes, error, k);
    }
  }

  lemma {:induction false} FromAll(answers: seq<Answer>, nodes: set<NodeName>)
    requires forall x :: x in answers ==> x.node in nodes
    ensures From(answers, nodes) == answers
  {
    if answers != [] { FromAll(answers[..|answers| - 1], nodes); }
  }

  lemma AppliedOneMore(answers: seq<Answer>, i: nat)
    requires i < |answers| && NoNodeTwice(answers)
    ensures Applied(answers[..i + 1]) ==
        Applied(answers[..i]) + (if answers[i].error.None? then {answers[i].node} else {})
    ensures |Applied(answers[..i + 1])| == |Applied(answers[..i])| + (if answers[i].error.None? then 1 else 0)
  {
    TakeOneMore(answers, i);
    var before, after := answers[..i], answers[..i + 1];
    forall n | n in Applied(before) ensures n in Applied(after) && n != answers[i].node {
      var k :| 0 <= k < i && before[k].error.None? && before[k].node == n;
      assert after[k] == before[k];
    }
    if answers[i].error.None? { assert after[i].node in Applied(after); }
  }

  lemma LastIsNew(answers: seq<Answer>)
    requires NoNodeTwice(answers) && answers != []
    ensures forall x :: x in answers[..|answers| - 1] ==> x.node != answers[|answers| - 1].node
    ensures forall x :: x in answers <==> x in answers[..|answers| - 1] || x == answers[|answers| - 1]
  {
    var front, last := answers[..|answers| - 1], answers[|answers| - 1];
    assert answers == front + [last];
  }

  lemma {:induction false} FromIsFilter(answers: seq<Answer>, nodes: set<NodeName>)
    requires NoNodeTwice(answers)
    ensures NoNodeTwice(From(answers, nodes))
    ensures forall x :: x in From(answers, nodes) <==> x in answers && x.node in nodes
  {
    if answers != [] {
      FromIsFilter(answers[..|answers| - 1], nodes);
      LastIsNew(answers);
    }
  }

  lemma AppliedFrom(answers: seq<Answer>, nodes: set<NodeName>)
    requires NoNodeTwice(answers)
    ensures Applied(From(answers, nodes)) == Applied(answers) * nodes
  {
    FromIsFilter(answers, nodes);
    AppliedIsMembership(answers);
    AppliedIsMembership(From(answers, nodes));
  }

  lemma AppliedIsMembership(answers: seq<Answer>)
    ensures forall n :: n in Applied(answers) <==> Answer(n, None) in answers
  {
    forall n | Answer(n, None) in answers ensures n in Applied(answers) {
      var i :| 0 <= i < |answers| && answers[i] == Answer(n, None);
      assert answers[i].error.None?;
    }
  }

  // ----- Merging a patch into a set of nodes ----------------------------------------------

  /** The caller of the merge loop is told of a quorum when one more success reaches it exactly. */
  predicate MergeSucceeds(nodes: set<NodeName>, nQuorum: nat, answers: seq<Answer>) {
    if nodes == {} then nQuorum == 0 else 1 <= nQuorum <= |Applied(answers)|
  }

  ghost predicate Counted(seen: seq<Answer>, nApplied: nat, error: Error) {
    nApplied == |Applied(seen)| && error == ResultError(seen, ENoQuorum)
  }

  lemma CountedOneMore(answers: seq<Answer>, i: nat, nApplied: nat, error: Error)
    requires i < |answers| && NoNodeTwice(answers) && Counted(answers[..i], nApplied, error)
    ensures var x := answers[i].error;
            Counted(answers[..i + 1], if x.None? then nApplied + 1 else nApplied,
                    if x.Some? && IsSpecific(x.value) then x.value else error)
  {
    AppliedOneMore(answers, i);
    TakeOneMore(answers, i);
  }

  method MergeNodes(nodes: set<NodeName>, nQuorum: nat, answers: seq<Answer>)
    returns (count: nat, error: Option<Error>)
    requires NoNodeTwice(answers) && |answers| == |nodes|
    ensures error.None? <==> MergeSucceeds(nodes, nQuorum, answers)
    ensures error.None? ==> count == nQuorum
    ensures error.Some? ==> count == |Applied(answers)| && error.value == ResultError(answers, ENoQuorum)
  {
    var nApplied, nFailed := 0, 0;
    var resultError := ENoQuorum;
    var quorumReached: Option<nat> := None;
    while nApplied + nFailed < |nodes|
      invariant nApplied + nFailed <= |nodes|
      invariant Counted(answers[..nApplied + nFailed], nApplied, resultError)
      invariant quorumReached == if 1 <= nQuorum <= nApplied then Some(nQuorum) else None
    {
      var i := nApplied + nFailed;
      CountedOneMore(answers, i, nApplied, resultError);
      if answers[i].error.Some? {
        nFailed := nFailed + 1;
        if answers[i].error.value == EBucketDoesNotExist || answers[i].error.value == ESiteDoesNotExist {
          resultError := answers[i].error.value;
        }
      } else {
        nApplied := nApplied + 1;
        if nApplied == nQuorum {
          quorumReached := Some(nApplied);
        }
      }
    }
    assert answers[..|nodes|] == answers;
    if |nodes| == 0 {
      if nQuorum == 0 {
        return 0, None;
      }
      return 0, Some(ENoQuorum);
    }
    if quorumReached.Some? {
      return quorumReached.value, None;
    }
    return nApplied, Some(resultError);
  }

  // ----- Batch ----------------------------------------------------------------------------

  ghost function NodesOf(answers: seq<Answer>): set<NodeName> {
    set x | x in answers :: x.node
  }

  lemma {:induction false} NodesOfSize(answers: seq<Answer>)
    requires NoNodeTwice(answers)
    ensures |NodesOf(answers)| == |answers|
  {
    if answers != [] {
      var front, last := answers[..|answers| - 1], answers[|answers| - 1];
      NodesOfSize(front);
      LastIsNew(answers);
      assert NodesOf(answers) == NodesOf(front) + {last.node};
    }
  }

  lemma FromSize(answers: seq<Answer>, some: set<NodeName>)
    requires NoNodeTwice(answers) && some <= NodesOf(answers)
    ensures |From(answers, some)| == |some|
  {
    FromIsFilter(answers, some);
    NodesOfSize(From(answers, some));
    assert NodesOf(From(answers, some)) == some;
  }

  /** Every replica's answer to the batch, and the answers to merges in order of arrival. */
  datatype Replies = Replies(writes: map<NodeName, Option<Error>>, merges: seq<Answer>)

  ghost predicate RepliesOf(replies: Replies, nodes: set<NodeName>) {
    && nodes == replies.writes.Keys && NoNodeTwice(replies.merges) && NodesOf(replies.merges) == nodes
  }

  /** The nodes that hold the write when `writer` took it after those in `failed` did not. */
  function Holders(replies: Replies, failed: set<NodeName>, writer: NodeName): set<NodeName> {
    {writer} + Applied(From(replies.merges, replies.writes.Keys - failed - {writer}))
  }

  /** The nodes of the first `count` successes in order of arrival; all of them when there are fewer. */
  function FirstApplied(answers: seq<Answer>, count: nat): set<NodeName> {
    if answers == [] then {}
    else
      var before, last := FirstApplied(answers[..|answers| - 1], count), answers[|answers| - 1];
      if last.error.None? && |before| < count then before + {last.node} else before
  }

  /** The nodes that had acknowledged the write when the batch returned: the writer and a quorum less one. */
  function Acked(replies: Replies, failed: set<NodeName>, writer: NodeName): set<NodeName> {
    {writer} + FirstApplied(From(replies.merges, replies.writes.Keys - failed - {writer}),
        NQuorum(|replies.writes|) - 1)
  }

  lemma {:induction false} FirstAppliedCounts(answers: seq<Answer>, count: nat)
    requires NoNodeTwice(answers)
    ensures FirstApplied(answers, count) <= Applied(answers)
    ensures |FirstApplied(answers, count)| == if |Applied(answers)| < count then |Applied(answers)| else count
  {
    if answers != [] {
      var k := |answers| - 1;
      assert answers[..k + 1] == answers;
      AppliedOneMore(answers, k);
      FirstAppliedCounts(answers[..k], count);
      LastIsNew(answers);
    }
  }

  /**
    What a batch may report: it was written at one node after others refused, the local node
    first, and merged into the rest; or every node refused.
   */
  datatype Report = Report(writer: Option<NodeName>, failed: set<NodeName>, nMerged: nat, error: Option<Error>)

  ghost predicate Complained(writes: map<NodeName, Option<Error>>, nodes: set<NodeName>) {
    exists n :: n in nodes && n in writes && writes[n].Some? && IsSpecific(writes[n].value)
  }

  /** The error kept from the nodes that refused the batch: one of their specific answers, if any. */
  ghost predicate KeptError(writes: map<NodeName, Option<Error>>, nodes: set<NodeName>, error: Error) {
    if Complained(writes, nodes) then
      IsSpecific(error) && exists n :: n in nodes && n in writes && writes[n] == Some(error)
    else error == ENoQuorum
  }

  ghost predicate SpecificAnswer(answers: seq<Answer>) {
    exists x :: x in answers && x.error.Some? && IsSpecific(x.error.value)
  }

  lemma {:induction false} ResultErrorMeaning(answers: seq<Answer>, fallback: Error)
    ensures !SpecificAnswer(answers) ==> ResultError(answers, fallback) == fallback
    ensures SpecificAnswer(answers) ==> exists x :: x in answers && x.error == Some(ResultError(answers, fallback))
    ensures SpecificAnswer(answers) ==> IsSpecific(ResultError(answers, fallback))
  {
    if answers != [] {
      var front, last := answers[..|answers| - 1], answers[|answers| - 1];
      ResultErrorMeaning(front, fallback);
      assert forall x :: x in answers <==> x in front || x == last by { assert answers == front + [last]; }
    }
  }

  /**
    The error the client sees: the last specific answer to the merges, else a specific answer of
    a node that refused the batch, else that there is no quorum.
   */
  ghost predicate ErrorReported(replies: Replies, r: Report)
    requires r.error.Some?
  {
    var answers := if r.writer.None? then []
        else From(replies.merges, replies.writes.Keys - r.failed - {r.writer.value});
    if SpecificAnswer(answers) then r.error.value == ResultError(answers, ENoQuorum)
    else KeptError(replies.writes, r.failed, r.error.value)
  }

  ghost predicate Reported(replies: Replies, local: NodeName, r: Report) {
    && (r.error.Some? ==> ErrorReported(replies, r))
    && r.failed <= replies.writes.Keys && (forall n :: n in r.failed ==> replies.writes[n].Some?)
    && (local in replies.writes ==> local in r.failed || r.writer == Some(local))
    && if r.writer.None? then r.failed == replies.writes.Keys && r.nMerged == 0 && r.error.Some?
       else
         && r.writer.value in replies.writes && replies.writes[r.writer.value].None?
         && WrittenReport(|replies.writes|, Holders(replies, r.failed, r.writer.value), r)
  }

  /** Success means that a quorum holds the write. */
  predicate WrittenReport(nTotal: nat, holders: set<NodeName>, r: Report) {
    if |holders| >= NQuorum(nTotal) then r.error.None? && r.nMerged == NQuorum(nTotal)
    else r.error.Some? && r.nMerged == |holders|
  }

  /** The merges after the batch was written at `writer`. */
  method MergeRest(replies: Replies, failed: set<NodeName>, writer: NodeName, resultError: Error) returns (r: Report)
    requires RepliesOf(replies, replies.writes.Keys) && writer in replies.writes && writer !in failed
    requires KeptError(replies.writes, failed, resultError)
    ensures r.writer == Some(writer) && r.failed == failed && (r.error.Some? ==> ErrorReported(replies, r))
    ensures WrittenReport(|replies.writes|, Holders(replies, failed, writer), r)
  {
    var remaining := replies.writes.Keys - failed - {writer};
    var answers := From(replies.merges, remaining);
    FromSize(replies.merges, remaining);
    FromIsFilter(replies.merges, remaining);
    var nMerged, error := MergeNodes(remaining, NQuorum(|replies.writes|) - 1, answers);
    EnoughHolders(replies, failed, writer);
    ToldError(answers, error, resultError);
    if error == Some(ENoQuorum) {
      error := Some(resultError);
    }
    r := Report(Some(writer), failed, nMerged + 1, error);
  }

  /** The merges reach their quorum exactly when, with the writer, a quorum holds the write. */
  lemma EnoughHolders(replies: Replies, failed: set<NodeName>, writer: NodeName)
    requires RepliesOf(replies, replies.writes.Keys) && writer in replies.writes
    ensures var rest := replies.writes.Keys - failed - {writer};
            var answers := From(replies.merges, rest);
            && (MergeSucceeds(rest, NQuorum(|replies.writes|) - 1, answers) <==>
                  |Holders(replies, failed, writer)| >= NQuorum(|replies.writes|))
            && |Holders(replies, failed, writer)| == 1 + |Applied(answers)|
  {
    HoldersSize(replies, failed, writer);
    SomeRemain(replies.writes, failed, writer);
    AppliedFrom(replies.merges, replies.writes.Keys - failed - {writer});
  }

  /** No quorum is told only when no merge was answered with a specific error. */
  lemma ToldError(answers: seq<Answer>, error: Option<Error>, resultError: Error)
    requires error.Some? ==> error.value == ResultError(answers, ENoQuorum)
    ensures error.Some? ==> (error == Some(ENoQuorum) <==> !SpecificAnswer(answers))
  {
    ResultErrorMeaning(answers, ENoQuorum);
  }

  lemma HoldersSize(replies: Replies, failed: set<NodeName>, writer: NodeName)
    requires NoNodeTwice(replies.merges)
    ensures |Holders(replies, failed, writer)| ==
        1 + |Applied(From(replies.merges, replies.writes.Keys - failed - {writer}))|
  {
    AppliedFrom(replies.merges, replies.writes.Keys - failed - {writer});
  }

  lemma SomeRemain(writes: map<NodeName, Option<Error>>, failed: set<NodeName>, writer: NodeName)
    requires writer in writes
    ensures |writes| >= if writes.Keys - failed - {writer} == {} then 1 else 2
  {
    SizeOfSubset({writer}, writes.Keys);
    if writes.Keys - failed - {writer} != {} {
      var n :| n in writes.Keys - failed - {writer};
      SizeOfSubset({writer, n}, writes.Keys);
    }
  }

  lemma FirstAppliedFrom(answers: seq<Answer>, some: set<NodeName>, count: nat)
    requires NoNodeTwice(answers)
    ensures var asked := Applied(From(answers, some));
            && FirstApplied(From(answers, some), count) <= asked <= some
            && |FirstApplied(From(answers, some), count)| == if |asked| < count then |asked| else count
  {
    FromIsFilter(answers, some);
    FirstAppliedCounts(From(answers, some), count);
    AppliedFrom(answers, some);
  }

  lemma ToldWithWriter(answers: seq<Answer>, some: set<NodeName>, writer: NodeName, quorum: nat)
    requires NoNodeTwice(answers) && writer !in some && 0 < quorum <= 1 + |Applied(From(answers, some))|
    ensures |{writer} + FirstApplied(From(answers, some), quorum - 1)| == quorum
    ensures FirstApplied(From(answers, some), quorum - 1) <= some
  {
    FirstAppliedFrom(answers, some, quorum - 1);
    QuorumWithWriter(writer, Applied(From(answers, some)), FirstApplied(From(answers, some), quorum - 1), quorum);
  }

  /** The acknowledgements counted when the batch returned make exactly a quorum. */
  lemma AckedSize(replies: Replies, failed: set<NodeName>, writer: NodeName)
    requires NoNodeTwice(replies.merges) && writer in replies.writes
    requires |Holders(replies, failed, writer)| >= NQuorum(|replies.writes|)
    ensures Acked(replies, failed, writer) <= replies.writes.Keys
    ensures |Acked(replies, failed, writer)| == NQuorum(|replies.writes|)
  {
    HoldersSize(replies, failed, writer);
    ToldWithWriter(replies.merges, replies.writes.Keys - failed - {writer}, writer, NQuorum(|replies.writes|));
  }

  lemma QuorumWithWriter(writer: NodeName, asked: set<NodeName>, told: set<NodeName>, quorum: nat)
    requires writer !in asked && told <= asked && 0 < quorum <= 1 + |asked|
    requires |told| == if |asked| < quorum - 1 then |asked| else quorum - 1
    ensures |{writer} + told| == quorum
  {
    assert writer !in told;
  }

  /** One more node has refused the batch. */
  lemma KeptOneMore(writes: map<NodeName, Option<Error>>, nodes: set<NodeName>, error: Error, n: NodeName)
    requires KeptError(writes, nodes, error) && n in writes && writes[n].Some?
    ensures KeptError(writes, nodes + {n}, if IsSpecific(writes[n].value) then writes[n].value else error)
  {
    if IsSpecific(writes[n].value) {
      assert n in nodes + {n};
    } else {
      assert Complained(writes, nodes + {n}) <==> Complained(writes, nodes);
    }
  }

  /** A batch that reports success returns as soon as a quorum has acknowledged it. */
  lemma AckedIsQuorum(replies: Replies, local: NodeName, r: Report)
    requires RepliesOf(replies, replies.writes.Keys) && Reported(replies, local, r) && r.error.None?
    ensures r.writer.Some? && r.writer.value in replies.writes
    ensures var acked := Acked(replies, r.failed, r.writer.value);
            && r.writer.value in acked && acked <= replies.writes.Keys
            && |acked| == r.nMerged == NQuorum(|replies.writes|)
  {
    AckedSize(replies, r.failed, r.writer.value);
  }

  /** The nodes that take the write: the writer, and those that were asked to merge and did. */
  ghost function Holding(replies: Replies, failed: set<NodeName>, writer: NodeName): set<NodeName> {
    {writer} + set x | x in replies.merges && x.error == None && x.node in replies.writes && x.node !in failed :: x.node
  }

  /** The report in terms of majorities: success exactly when more than half of the replicas hold the write. */
  ghost predicate ReportsMajority(replies: Replies, nTotal: nat, local: NodeName, r: Report) {
    && (forall n :: n in r.failed ==> n in replies.writes && replies.writes[n].Some?)
    && (local in replies.writes ==> (r.writer == Some(local) <==> replies.writes[local].None?))
    && match r.writer
       case None => (forall n :: n in replies.writes ==> replies.writes[n].Some?) && r.error.Some? && r.nMerged == 0
       case Some(w) =>
         && w in replies.writes && replies.writes[w].None?
         && (r.error.None? <==> 2 * |Holding(replies, r.failed, w)| > nTotal)
         && (r.error.None? ==> 2 * r.nMerged > nTotal && 2 * r.nMerged <= nTotal + 2)
         && (r.error.Some? ==> r.nMerged == |Holding(replies, r.failed, w)|)
  }

  lemma HoldersAreHolding(replies: Replies, failed: set<NodeName>, writer: NodeName)
    requires NoNodeTwice(replies.merges)
    ensures Holders(replies, failed, writer) == Holding(replies, failed, writer)
  {
    AppliedFrom(replies.merges, replies.writes.Keys - failed - {writer});
    AppliedIsMembership(replies.merges);
    forall n ensures n in Holders(replies, failed, writer) <==> n in Holding(replies, failed, writer) {
      if n in Holding(replies, failed, writer) && n != writer {
        var x :| x in replies.merges && x.error == None && x.node == n;
        assert x == Answer(n, None);
      }
      if n in Holders(replies, failed, writer) && n != writer { assert Answer(n, None) in replies.merges; }
    }
  }

  lemma ReportMeaning(replies: Replies, local: NodeName, r: Report)
    requires NoNodeTwice(replies.merges) && Reported(replies, local, r)
    ensures ReportsMajority(replies, |replies.writes|, local, r) && (r.error.Some? ==> ErrorIsTold(replies, r))
  {
    if r.error.Some? { ErrorMeaning(replies, r); }
    if r.writer.Some? {
      HoldersAreHolding(replies, r.failed, r.writer.value);
      QuorumIsMajority(|Holding(replies, r.failed, r.writer.value)|, |replies.writes|);
      QuorumIsMajority(r.nMerged, |replies.writes|);
    }
  }

  /**
    The error in the words of the nodes: the last of those asked to merge that told of a missing
    bucket or site; otherwise one of those that refused the batch with such an answer; else no quorum.
   */
  ghost predicate ErrorIsTold(replies: Replies, r: Report)
    requires r.error.Some?
  {
    var asked := if r.writer.None? then {} else replies.writes.Keys - r.failed - {r.writer.value};
    exists refusal ::
      RefusedWith(replies, r.failed, refusal) && TellsLast(replies.merges, asked, refusal, r.error.value)
  }

  ghost predicate RefusedWith(replies: Replies, failed: set<NodeName>, refusal: Error) {
    if refusal == ENoQuorum then
      forall n :: n in failed && n in replies.writes ==>
        replies.writes[n] != Some(EBucketDoesNotExist) && replies.writes[n] != Some(ESiteDoesNotExist)
    else
      && (refusal == EBucketDoesNotExist || refusal == ESiteDoesNotExist)
      && exists n :: n in failed && n in replies.writes && replies.writes[n] == Some(refusal)
  }

  lemma {:induction false} NothingFrom(answers: seq<Answer>)
    ensures From(answers, {}) == []
  {
    if answers != [] { NothingFrom(answers[..|answers| - 1]); }
  }

  lemma {:induction false} FallbackIsTold(answers: seq<Answer>, a: Error, b: Error)
    requires !SpecificAnswer(answers)
    ensures ResultError(answers, a) == a && ResultError(answers, b) == b
  {
    ResultErrorMeaning(answers, a);
    ResultErrorMeaning(answers, b);
  }

  lemma {:induction false} SpecificIsTold(answers: seq<Answer>, a: Error, b: Error)
    requires SpecificAnswer(answers)
    ensures ResultError(answers, a) == ResultError(answers, b)
  {
    var front, last := answers[..|answers| - 1], answers[|answers| - 1];
    if !(last.error.Some? && IsSpecific(last.error.value)) {
      assert answers == front + [last];
      SpecificIsTold(front, a, b);
    }
  }

  lemma ErrorMeaning(replies: Replies, r: Report)
    requires r.error.Some? && ErrorReported(replies, r) && r.failed <= replies.writes.Keys
    ensures ErrorIsTold(replies, r)
  {
    var asked := if r.writer.None? then {} else replies.writes.Keys - r.failed - {r.writer.value};
    var answers := From(replies.merges, asked);
    if r.writer.None? { NothingFrom(replies.merges); }
    var fallback := KeptFallback(replies.writes, r.failed, if SpecificAnswer(answers) then ENoQuorum else r.error.value,
                                 !SpecificAnswer(answers));
    ResultErrorIsLast(replies.merges, asked, fallback);
    if SpecificAnswer(answers) {
      SpecificIsTold(answers, ENoQuorum, fallback);
    } else {
      FallbackIsTold(answers, fallback, fallback);
    }
    assert RefusedWith(replies, r.failed, fallback);
  }

  /** An error the refusing nodes may have left: the given one when it is known to be such. */
  lemma KeptFallback(writes: map<NodeName, Option<Error>>, failed: set<NodeName>, error: Error, known: bool)
    returns (fallback: Error)
    requires known ==> KeptError(writes, failed, error)
    ensures KeptError(writes, failed, fallback) && (known ==> fallback == error)
  {
    if known {
      fallback := error;
    } else if Complained(writes, failed) {
      var n :| n in failed && n in writes && writes[n].Some? && IsSpecific(writes[n].value);
      fallback := writes[n].value;
    } else {
      fallback := ENoQuorum;
    }
  }

  method Batch(replicaNodes: seq<NodeName>, local: NodeName, replies: Replies) returns (nTotal: nat, r: Report)
    requires RepliesOf(replies, NodeSet(replicaNodes))
    ensures nTotal == |set n | n in replicaNodes| == |replies.writes| && Reported(replies, local, r)
    ensures ReportsMajority(replies, nTotal, local, r) && (r.error.Some? ==> ErrorIsTold(replies, r))
  {
    var remaining := NodeSet(replicaNodes);
    var resultError := ENoQuorum;
    nTotal := |remaining|;
    if local in remaining {
      var error := replies.writes[local];
      remaining := remaining - {local};
      if error.None? {
        r := MergeRest(replies, {}, local, resultError);
        ReportMeaning(replies, local, r);
        return;
      }
      if error.value == EBucketDoesNotExist || error.value == ESiteDoesNotExist {
        resultError := error.value;
      }
      KeptOneMore(replies.writes, {}, ENoQuorum, local);
      assert replies.writes.Keys - remaining == {} + {local};
    }
    r := AskInTurn(replies, local, remaining, resultError);
    ReportMeaning(replies, local, r);
  }

  /** The loop over the nodes that have not been asked, until one takes the batch. */
  method AskInTurn(replies: Replies, local: NodeName, nodes: set<NodeName>, firstError: Error) returns (r: Report)
    requires RepliesOf(replies, replies.writes.Keys) && nodes <= replies.writes.Keys - {local}
    requires forall n :: n in replies.writes.Keys - nodes ==> replies.writes[n].Some?
    requires KeptError(replies.writes, replies.writes.Keys - nodes, firstError)
    ensures Reported(replies, local, r)
  {
    var remaining, resultError := nodes, firstError;
    while remaining != {}
      invariant remaining <= nodes
      invariant forall n :: n in replies.writes.Keys - remaining ==> replies.writes[n].Some?
      invariant KeptError(replies.writes, replies.writes.Keys - remaining, resultError)
      decreases remaining
    {
      var node :| node in remaining;
      var error := replies.writes[node];
      ghost var asked := replies.writes.Keys - remaining;
      remaining := remaining - {node};
      assert replies.writes.Keys - remaining == asked + {node};
      if error.Some? {
        KeptOneMore(replies.writes, asked, resultError, node);
        if error.value == EBucketDoesNotExist || error.value == ESiteDoesNotExist {
          resultError := error.value;
        }
        continue;
      }
      assert replies.writes.Keys - remaining - {node} == asked;
      r := MergeRest(replies, replies.writes.Keys - remaining - {node}, node, resultError);
      return;
    }
    r := Report(None, replies.writes.Keys, 0, Some(resultError));
  }

  /** A patch sent by a client to every replica. */
  method Merge(replicaNodes: seq<NodeName>, answers: seq<Answer>)
    returns (nTotal: nat, nMerged: nat, error: Option<Error>)
    requires NoNodeTwice(answers) && NodesOf(answers) == NodeSet(replicaNodes)
    ensures nTotal == |set n | n in replicaNodes|
    ensures error.None? <==> 2 * |Accepting(answers)| > nTotal
    ensures error.None? ==> 2 * nMerged > nTotal && 2 * nMerged <= nTotal + 2
    ensures error.Some? ==> nMerged == |Accepting(answers)|
    ensures error.Some? ==> TellsLast(answers, NodeSet(replicaNodes), ENoQuorum, error.value)
  {
    var nodes := NodeSet(replicaNodes);
    nTotal := |nodes|;
    NodesOfSize(answers);
    nMerged, error := MergeNodes(nodes, NQuorum(nTotal), answers);
    AppliedIsAccepting(answers);
    QuorumIsMajority(|Accepting(answers)|, nTotal);
    QuorumIsMajority(nMerged, nTotal);
    FromAll(answers, nodes);
    ResultErrorIsLast(answers, nodes, ENoQuorum);
  }

  /** The nodes that answered without an error. */
  ghost function Accepting(answers: seq<Answer>): set<NodeName> {
    set x | x in answers && x.error == None :: x.node
  }

  lemma AppliedIsAccepting(answers: seq<Answer>)
    ensures Applied(answers) == Accepting(answers)
  {
    AppliedIsMembership(answers);
    forall n ensures n in Applied(answers) <==> n in Accepting(answers) {
      if n in Accepting(answers) {
        var x :| x in answers && x.error == None && x.node == n;
        assert x == Answer(n, None);
      }
      if n in Applied(answers) { assert Answer(n, None) in answers; }
    }
  }

  // ----- Get ------------------------------------------------------------------------------

  /** A node's sibling set for each requested key, or its error. */
  datatype ReadAnswer = ReadAnswer(node: NodeName, sets: Result<seq<Option<set<Sibling>>>, Error>)

  ghost predicate ReadAnswersOf(answers: seq<ReadAnswer>, nodes: set<NodeName>, keys: seq<string>) {
    && |answers| == |nodes|
    && (forall i, j :: 0 <= i < j < |answers| ==> answers[i].node != answers[j].node)
    && (forall x :: x in answers ==> x.node in nodes && Answered(x, keys))
  }

  function Reads(answers: seq<ReadAnswer>): nat {
    if answers == [] then 0
    else Reads(answers[..|answers| - 1]) + (if answers[|answers| - 1].sets.Ok? then 1 else 0)
  }

  ghost function Readers(answers: seq<ReadAnswer>): set<NodeName> {
    set x | x in answers && x.sets.Ok? :: x.node
  }

  ghost predicate NoReaderTwice(answers: seq<ReadAnswer>) {
    forall i, j :: 0 <= i < j < |answers| ==> answers[i].node != answers[j].node
  }

  lemma LastReaderIsNew(answers: seq<ReadAnswer>)
    requires NoReaderTwice(answers) && answers != []
    ensures NoReaderTwice(answers[..|answers| - 1])
    ensures answers[|answers| - 1].node !in Readers(answers[..|answers| - 1])
    ensures forall x :: x in answers <==> x in answers[..|answers| - 1] || x == answers[|answers| - 1]
  {
    assert answers == answers[..|answers| - 1] + [answers[|answers| - 1]];
  }

  lemma {:induction false} ReadersSize(answers: seq<ReadAnswer>)
    requires NoReaderTwice(answers)
    ensures |Readers(answers)| == Reads(answers)
  {
    if answers != [] {
      var front, last := answers[..|answers| - 1], answers[|answers| - 1];
      LastReaderIsNew(answers);
      ReadersSize(front);
      assert Readers(answers) == if last.sets.Ok? then Readers(front) + {last.node} else Readers(front);
    }
  }

  lemma {:induction false} UpToQuorumReads(answers: seq<ReadAnswer>, quorum: nat)
    requires Reads(answers) >= quorum
    ensures Reads(UpToQuorum(answers, quorum)) >= quorum
  {
    if answers != [] && Reads(answers[..|answers| - 1]) >= quorum {
      UpToQuorumReads(answers[..|answers| - 1], quorum);
    }
  }

  /** More than half of the nodes were read, and with one answer less they were not. */
  ghost predicate JustEnough(counted: seq<ReadAnswer>, total: nat) {
    counted != [] && 2 * |Readers(counted)| > total && 2 * |Readers(counted[..|counted| - 1])| <= total
  }

  lemma {:induction false} UpToQuorumIsEnough(answers: seq<ReadAnswer>, total: nat)
    requires NoReaderTwice(answers) && 2 * Reads(answers) > total
    ensures JustEnough(UpToQuorum(answers, NQuorum(total)), total)
  {
    var front := answers[..|answers| - 1];
    LastReaderIsNew(answers);
    ReadersSize(answers);
    ReadersSize(front);
    QuorumIsMajority(Reads(answers), total);
    QuorumIsMajority(Reads(front), total);
    if 2 * Reads(front) > total { UpToQuorumIsEnough(front, total); }
  }

  type Inserted = map<string, seq<set<Sibling>>>

  /** The sets of one answer, appended key by key; a key may be requested more than once. */
  ghost function InsertSets(inserted: Inserted, keys: seq<string>, sets: seq<Option<set<Sibling>>>): Inserted
    requires |keys| == |sets|
  {
    if keys == [] then inserted
    else
      var key, before := keys[|keys| - 1], InsertSets(inserted, keys[..|keys| - 1], sets[..|keys| - 1]);
      before[key := InsertedAt(before, key) + [OrEmpty(sets[|keys| - 1])]]
  }

  ghost predicate Answered(answer: ReadAnswer, keys: seq<string>) {
    answer.sets.Ok? ==> |answer.sets.value| == |keys|
  }

  /** The sets all answers give for each key, in order of arrival. */
  ghost function Gather(keys: seq<string>, answers: seq<ReadAnswer>): Inserted
    requires forall x :: x in answers ==> Answered(x, keys)
  {
    if answers == [] then map[]
    else
      var last, before := answers[|answers| - 1], Gather(keys, answers[..|answers| - 1]);
      assert Answered(last, keys);
      if last.sets.Ok? then InsertSets(before, keys, last.sets.value) else before
  }

  /** A set is among those gathered for a key exactly when an answer gave it for that key. */
  ghost predicate Gives(x: ReadAnswer, keys: seq<string>, key: string, s: set<Sibling>) {
    x.sets.Ok? && Answered(x, keys) && GivesSet(keys, x.sets.value, key, s)
  }

  ghost predicate GivesSet(keys: seq<string>, sets: seq<Option<set<Sibling>>>, key: string, s: set<Sibling>)
    requires |keys| == |sets|
  {
    exists i :: 0 <= i < |keys| && keys[i] == key && s == OrEmpty(sets[i])
  }

  lemma {:induction false} InsertedSets(before: Inserted, keys: seq<string>, sets: seq<Option<set<Sibling>>>,
                                        key: string, s: set<Sibling>)
    requires |keys| == |sets|
    ensures s in InsertedAt(InsertSets(before, keys, sets), key) <==>
              s in InsertedAt(before, key) || GivesSet(keys, sets, key, s)
  {
    if keys != [] {
      var k := |keys| - 1;
      InsertedSets(before, keys[..k], sets[..k], key, s);
      if GivesSet(keys[..k], sets[..k], key, s) {
        var i :| 0 <= i < k && keys[..k][i] == key && s == OrEmpty(sets[..k][i]);
        assert keys[i] == key;
      }
      if GivesSet(keys, sets, key, s) {
        var i :| 0 <= i < |keys| && keys[i] == key && s == OrEmpty(sets[i]);
        if i < k { assert keys[..k][i] == key; }
      }
    }
  }

  lemma {:induction false} GatheredSets(keys: seq<string>, answers: seq<ReadAnswer>, key: string, s: set<Sibling>)
    requires forall x :: x in answers ==> Answered(x, keys)
    ensures s in InsertedAt(Gather(keys, answers), key) <==> exists x :: x in answers && Gives(x, keys, key, s)
  {
    if answers != [] {
      var front, last := answers[..|answers| - 1], answers[|answers| - 1];
      assert answers == front + [last] && Answered(last, keys);
      GatheredSets(keys, front, key, s);
      if last.sets.Ok? { InsertedSets(Gather(keys, front), keys, last.sets.value, key, s); }
      assert forall x :: x in answers <==> x in front || x == last;
    }
  }

  /** The answers give antichains of siblings of `u` for the key. */
  ghost predicate GivesAntichains(u: set<Sibling>, counted: seq<ReadAnswer>, keys: seq<string>, key: string) {
    forall x, s :: x in counted && Gives(x, keys, key, s) ==> s <= u && Antichain(s)
  }

  ghost predicate Given(counted: seq<ReadAnswer>, keys: seq<string>, key: string, a: Sibling) {
    exists x, s :: x in counted && Gives(x, keys, key, s) && a in s
  }

  /** What is shown for the key: every sibling some answer gave that no sibling given supplants. */
  ghost predicate ShowsMerge(counted: seq<ReadAnswer>, keys: seq<string>, key: string, shown: Option<set<Sibling>>) {
    match shown
    case None => forall a :: !Given(counted, keys, key, a)
    case Some(siblings) =>
      && siblings != {}
      && forall a :: a in siblings <==>
           Given(counted, keys, key, a) && forall b :: Given(counted, keys, key, b) ==> !Supplants(b, a)
  }

  lemma ShownIsMerge(u: set<Sibling>, counted: seq<ReadAnswer>, keys: seq<string>, key: string)
    requires Universe(u) && GivesAntichains(u, counted, keys, key) && forall x :: x in counted ==> Answered(x, keys)
    ensures ShowsMerge(counted, keys, key, Shown(InsertedAt(Gather(keys, counted), key)))
  {
    var sets := InsertedAt(Gather(keys, counted), key);
    forall s: set<Sibling> ensures s in sets <==> exists x :: x in counted && Gives(x, keys, key, s) {
      GatheredSets(keys, counted, key, s);
    }
    FoldIsMaximal(u, sets);
    GivenIsUnion(counted, keys, key, sets);
    SomethingIsShown(u, Union(sets));
    forall a ensures a in Fold(sets) <==>
        Given(counted, keys, key, a) && forall b :: Given(counted, keys, key, b) ==> !Supplants(b, a) {
      MaximalMeaning(Union(sets), a);
    }
  }

  lemma SomethingIsShown(u: set<Sibling>, s: set<Sibling>)
    requires Universe(u) && s <= u
    ensures Maximal(s) == {} <==> s == {}
  {
    if s != {} {
      var a :| a in s;
      var top := MaximalCovers(u, s, a);
    }
  }

  lemma GivenIsUnion(counted: seq<ReadAnswer>, keys: seq<string>, key: string, sets: seq<set<Sibling>>)
    requires forall s: set<Sibling> :: s in sets <==> exists x :: x in counted && Gives(x, keys, key, s)
    ensures forall a :: a in Union(sets) <==> Given(counted, keys, key, a)
  {
    UnionIsMembership(sets);
  }

  /** The answers up to the one that completes the quorum. */
  function UpToQuorum(answers: seq<ReadAnswer>, quorum: nat): (r: seq<ReadAnswer>)
    ensures r <= answers
  {
    if answers == [] || Reads(answers) < quorum then answers
    else if Reads(answers[..|answers| - 1]) < quorum then answers
    else UpToQuorum(answers[..|answers| - 1], quorum)
  }

  /** What the client gets for a key; nothing when no set read holds a sibling. */
  ghost function Shown(sets: seq<set<Sibling>>): Option<set<Sibling>> {
    if Fold(sets) == {} then None else Some(Fold(sets))
  }

  /** The inner loop that hands one answer to the merger. */
  method InsertAnswer(merger: ReadMerger, keys: seq<string>, node: NodeName, sets: seq<Option<set<Sibling>>>)
    requires merger.Valid() && |sets| == |keys|
    modifies merger
    ensures merger.Valid() && merger.inserted == InsertSets(old(merger.inserted), keys, sets)
  {
    for i := 0 to |keys|
      invariant merger.Valid() && merger.inserted == InsertSets(old(merger.inserted), keys[..i], sets[..i])
    {
      assert keys[..i + 1][..i] == keys[..i] && sets[..i + 1][..i] == sets[..i];
      merger.InsertKeyReplica(node, keys[i], sets[i]);
    }
    assert keys[..|keys|] == keys && sets[..|keys|] == sets;
  }

  /** What the client gets for each key. */
  ghost function ShownFor(keys: seq<string>, inserted: Inserted): seq<Option<set<Sibling>>> {
    seq(|keys|, i requires 0 <= i < |keys| => Shown(InsertedAt(inserted, keys[i])))
  }

  method CollectResult(merger: ReadMerger, keys: seq<string>) returns (resultSet: seq<Option<set<Sibling>>>)
    requires merger.Valid()
    ensures resultSet == ShownFor(keys, merger.inserted)
  {
    resultSet := [];
    for i := 0 to |keys|
      invariant |resultSet| == i
      invariant forall k :: 0 <= k < i ==> resultSet[k] == Shown(InsertedAt(merger.inserted, keys[k]))
    {
      var result := merger.Get(keys[i]);
      resultSet := resultSet + [result];
    }
  }

  /** The answer to the client, once enough nodes have answered. */
  ghost function Decision(keys: seq<string>, answers: seq<ReadAnswer>, quorum: nat): Option<seq<Option<set<Sibling>>>>
    requires forall x :: x in answers ==> Answered(x, keys)
  {
    if Reads(answers) < quorum then None else Some(ShownFor(keys, Gather(keys, UpToQuorum(answers, quorum))))
  }

  /** The last specific error a node answered with. */
  function ReadError(answers: seq<ReadAnswer>): Error {
    if answers == [] then ENoQuorum
    else
      var last := answers[|answers| - 1];
      if last.sets.Err? && IsSpecific(last.sets.error) then last.sets.error
      else ReadError(answers[..|answers| - 1])
  }

  /** The last answer that names a missing bucket or site decides; otherwise there is no quorum. */
  ghost predicate TellsLastRead(answers: seq<ReadAnswer>, error: Error) {
    || (error == ENoQuorum && forall i :: 0 <= i < |answers| ==>
          answers[i].sets != Err(EBucketDoesNotExist) && answers[i].sets != Err(ESiteDoesNotExist))
    || exists k :: 0 <= k < |answers| && LastReadToTell(answers, error, k)
  }

  ghost predicate LastReadToTell(answers: seq<ReadAnswer>, error: Error, k: int)
    requires 0 <= k < |answers|
  {
    && answers[k].sets == Err(error) && (error == EBucketDoesNotExist || error == ESiteDoesNotExist)
    && forall i :: k < i < |answers| ==>
         answers[i].sets != Err(EBucketDoesNotExist) && answers[i].sets != Err(ESiteDoesNotExist)
  }

  lemma {:induction false} ReadErrorIsLast(answers: seq<ReadAnswer>)
    ensures TellsLastRead(answers, ReadError(answers))
  {
    if answers != [] {
      var front, last := answers[..|answers| - 1], answers[|answers| - 1];
      ReadErrorIsLast(front);
      if last.sets.Err? && IsSpecific(last.sets.error) {
        assert LastReadToTell(answers, last.sets.error, |answers| - 1);
      } else if k :| 0 <= k < |front| && LastReadToTell(front, ReadError(front), k) {
        assert LastReadToTell(answers, ReadError(front), k);
      }
    }
  }

  /** Just more than half of the answers are counted, and every key shows the merge of what they gave for it. */
  ghost predicate ShowsQuorum(counted: seq<ReadAnswer>, total: nat, keys: seq<string>,
                              shown: seq<Option<set<Sibling>>>) {
    && JustEnough(counted, total) && |shown| == |keys|
    && forall u, k :: 0 <= k < |keys| && Universe(u) && GivesAntichains(u, counted, keys, keys[k]) ==>
         ShowsMerge(counted, keys, keys[k], shown[k])
  }

  /** What `Get` answers is the merge of the answers that make up the quorum. */
  lemma EnoughIsShown(keys: seq<string>, answers: seq<ReadAnswer>)
    requires NoReaderTwice(answers) && (forall x :: x in answers ==> Answered(x, keys))
    requires 2 * Reads(answers) > |answers|
    ensures var counted := UpToQuorum(answers, NQuorum(|answers|));
            counted <= answers && ShowsQuorum(counted, |answers|, keys, ShownFor(keys, Gather(keys, counted)))
  {
    var counted := UpToQuorum(answers, NQuorum(|answers|));
    UpToQuorumIsEnough(answers, |answers|);
    assert forall x :: x in counted ==> x in answers;
    forall u, k | 0 <= k < |keys| && Universe(u) && GivesAntichains(u, counted, keys, keys[k])
      ensures ShowsMerge(counted, keys, keys[k], ShownFor(keys, Gather(keys, counted))[k])
    {
      ShownIsMerge(u, counted, keys, keys[k]);
    }
  }

  lemma OneMoreAnswer(keys: seq<string>, answers: seq<ReadAnswer>, k: nat, quorum: nat)
    requires (forall x :: x in answers ==> Answered(x, keys)) && k < |answers| && quorum > 0
    ensures Answered(answers[k], keys)
    ensures ReadError(answers[..k + 1]) ==
            if answers[k].sets.Err? && IsSpecific(answers[k].sets.error) then answers[k].sets.error
            else ReadError(answers[..k])
    ensures var before, after := answers[..k], answers[..k + 1];
            if answers[k].sets.Err? then
              && Reads(after) == Reads(before) && Gather(keys, after) == Gather(keys, before)
              && Decision(keys, after, quorum) == Decision(keys, before, quorum)
            else
              && Reads(after) == Reads(before) + 1
              && Gather(keys, after) == InsertSets(Gather(keys, before), keys, answers[k].sets.value)
              && Decision(keys, after, quorum) ==
                 if Reads(after) == quorum then Some(ShownFor(keys, Gather(keys, after)))
                     else Decision(keys, before, quorum)
  {
    assert answers[..k + 1][..k] == answers[..k];
  }

  /** What the loop of `Get` knows after the first `k` answers. */
  ghost predicate Counting(keys: seq<string>, answers: seq<ReadAnswer>, k: nat, quorum: nat, nRead: nat,
                           inserted: Inserted, mergedResult: Option<seq<Option<set<Sibling>>>>, resultError: Error)
    requires k <= |answers| && forall x :: x in answers ==> Answered(x, keys)
  {
    && nRead == Reads(answers[..k]) && inserted == Gather(keys, answers[..k])
    && mergedResult == Decision(keys, answers[..k], quorum) && resultError == ReadError(answers[..k])
  }

  lemma CountFailure(keys: seq<string>, answers: seq<ReadAnswer>, k: nat, quorum: nat, nRead: nat, inserted: Inserted,
                     mergedResult: Option<seq<Option<set<Sibling>>>>, resultError: Error)
    requires (forall x :: x in answers ==> Answered(x, keys)) && k < |answers| && answers[k].sets.Err? && quorum > 0
    requires Counting(keys, answers, k, quorum, nRead, inserted, mergedResult, resultError)
    ensures Counting(keys, answers, k + 1, quorum, nRead, inserted, mergedResult,
                     if IsSpecific(answers[k].sets.error) then answers[k].sets.error else resultError)
  {
    OneMoreAnswer(keys, answers, k, quorum);
  }

  lemma CountRead(keys: seq<string>, answers: seq<ReadAnswer>, k: nat, quorum: nat, nRead: nat, inserted: Inserted,
                  mergedResult: Option<seq<Option<set<Sibling>>>>, resultError: Error)
    requires (forall x :: x in answers ==> Answered(x, keys)) && k < |answers| && answers[k].sets.Ok? && quorum > 0
    requires Counting(keys, answers, k, quorum, nRead, inserted, mergedResult, resultError)
    ensures |answers[k].sets.value| == |keys|
    ensures var now := InsertSets(inserted, keys, answers[k].sets.value);
            Counting(keys, answers, k + 1, quorum, nRead + 1, now,
                     if nRead + 1 == quorum then Some(ShownFor(keys, now)) else mergedResult, resultError)
  {
    OneMoreAnswer(keys, answers, k, quorum);
  }

  /** The loop over the answers of `Get`: counts them, merges the reads and decides at the quorum. */
  method CountReads(merger: ReadMerger, keys: seq<string>, answers: seq<ReadAnswer>)
    returns (mergedResult: Option<seq<Option<set<Sibling>>>>, resultError: Error)
    requires merger.Valid() && merger.inserted == map[] && forall x :: x in answers ==> Answered(x, keys)
    modifies merger
    ensures merger.Valid() && merger.inserted == Gather(keys, answers)
    ensures mergedResult == Decision(keys, answers, NQuorum(|answers|))
    ensures resultError == ReadError(answers)
  {
    var nRead, nFailed := 0, 0;
    resultError := ENoQuorum;
    mergedResult := None;
    while nRead + nFailed < |answers|
      invariant nRead + nFailed <= |answers| && merger.Valid()
      invariant Counting(keys, answers, nRead + nFailed, NQuorum(|answers|), nRead, merger.inserted, mergedResult,
          resultError)
    {
      var k := nRead + nFailed;
      if answers[k].sets.Err? {
        CountFailure(keys, answers, k, NQuorum(|answers|), nRead, merger.inserted, mergedResult, resultError);
        nFailed := nFailed + 1;
        if answers[k].sets.error == EBucketDoesNotExist || answers[k].sets.error == ESiteDoesNotExist {
          resultError := answers[k].sets.error;
        }
      } else {
        CountRead(keys, answers, k, NQuorum(|answers|), nRead, merger.inserted, mergedResult, resultError);
        nRead := nRead + 1;
        InsertAnswer(merger, keys, answers[k].node, answers[k].sets.value);
        if nRead == NQuorum(|answers|) {
          var resultSet := CollectResult(merger, keys);
          mergedResult := Some(resultSet);
        }
      }
    }
    assert answers[..|answers|] == answers;
  }

  /**
    Reading from a quorum.  The client gets the merge of the first answers that make a
    quorum; the merger, which the repair uses, has all of them.
   */
  method Get(replicaNodes: seq<NodeName>, keys: seq<string>, answers: seq<ReadAnswer>)
    returns (result: Result<seq<Option<set<Sibling>>>, Error>, merger: ReadMerger)
    requires ReadAnswersOf(answers, NodeSet(replicaNodes), keys)
    ensures fresh(merger) && merger.Valid() && merger.inserted == Gather(keys, answers)
    ensures result.Ok? <==> 2 * |Readers(answers)| > |set n | n in replicaNodes|
    ensures result.Err? ==> TellsLastRead(answers, result.error)
    ensures result.Ok? ==> result.value == ShownFor(keys, Gather(keys, UpToQuorum(answers, NQuorum(|answers|))))
    ensures result.Ok? ==> exists counted :: counted <= answers && ShowsQuorum(counted, |answers|, keys, result.value)
  {
    ReadersSize(answers);
    QuorumIsMajority(Reads(answers), |answers|);
    ReadErrorIsLast(answers);
    if 2 * Reads(answers) > |answers| { EnoughIsShown(keys, answers); }
    merger := new ReadMerger();
    var mergedResult, resultError := CountReads(merger, keys, answers);
    if mergedResult.Some? {
      return Ok(mergedResult.value), merger;
    }
    return Err(resultError), merger;
  }
}
