/**
  What the store of bucket/store.go does, as steps of the two systems whose runs are studied:
  a committed batch is a run of `MonitorRuns`, a changed key a step of `Replication`.
 */
module StoreRuns {
  import opened Wrappers
  import opened Clocks
  import opened Siblings
  import opened SiblingAlgebra
  import opened Monitors
  import opened Stores
  import M = MonitorRuns
  import R = Replication

  // ----- A commit is a reservation and its settlements --------------------------------------

  function Settlements(rows: seq<Row>, kept: bool): (steps: seq<M.Step>)
    ensures |steps| == |rows|
  {
    if rows == [] then [] else [M.Settle(rows[0].localVersion, kept)] + Settlements(rows[1..], kept)
  }

  function CommitSteps(rows: seq<Row>, kept: bool): seq<M.Step> {
    [M.Reserve(rows)] + Settlements(rows, kept)
  }

  /** The rows from `low` on are reserved and not submitted. */
  ghost predicate AreOutstanding(s: M.System, rows: seq<Row>, low: nat) {
    && ContiguousFrom(low, rows)
    && forall i :: 0 <= i < |rows| ==>
         rows[i].localVersion in s.outstanding && s.outstanding[rows[i].localVersion] == rows[i]
  }

  /** `t` is `s` with these rows no longer outstanding and the monitor told of them. */
  ghost predicate Told(s: M.System, t: M.System, rows: seq<Row>, low: nat, kept: bool)
    requires rows != []
  {
    && t.next == s.next && t.joined == s.joined
    && t.monitor == (if kept then SubmitAll(s.monitor, rows) else SubmitDiscarded(s.monitor, low, low + |rows| - 1))
    && (forall i :: i in t.outstanding <==> i in s.outstanding && !(low <= i < low + |rows|))
    && (forall i :: i in t.outstanding ==> t.outstanding[i] == s.outstanding[i])
  }

  lemma {:induction false} SettlementsAreRun(last: int, s: M.System, rows: seq<Row>, low: nat, kept: bool)
    requires rows != [] && AreOutstanding(s, rows, low)
    ensures M.EnabledRun(last, s, Settlements(rows, kept))
    ensures Told(s, M.Run(last, s, Settlements(rows, kept)), rows, low, kept)
    decreases |rows|
  {
    var steps := Settlements(rows, kept);
    var t := M.Apply(last, s, steps[0]);
    assert steps[0] == M.Settle(low, kept) && steps[1..] == Settlements(rows[1..], kept);
    if |rows| == 1 {
      assert M.Run(last, t, []) == t && steps[1..] == [];
      OneSubmitted(s.monitor, rows, low);
    } else {
      OthersStayOutstanding(last, s, rows, low, kept);
      SettlementsAreRun(last, t, rows[1..], low + 1, kept);
      assert M.Run(last, s, steps) == M.Run(last, t, Settlements(rows[1..], kept));
      ToldOneMore(last, s, rows, low, kept, t, M.Run(last, s, steps));
    }
  }

  lemma OthersStayOutstanding(last: int, s: M.System, rows: seq<Row>, low: nat, kept: bool)
    requires rows != [] && rows[0].localVersion == low && AreOutstanding(s, rows, low)
    ensures AreOutstanding(M.Apply(last, s, M.Settle(low, kept)), rows[1..], low + 1)
  {
    assert forall i :: 0 <= i < |rows| - 1 ==> rows[1..][i] == rows[i + 1];
  }

  lemma ToldOneMore(last: int, s: M.System, rows: seq<Row>, low: nat, kept: bool, mid: M.System, t: M.System)
    requires |rows| > 1 && rows[0].localVersion == low && AreOutstanding(s, rows, low)
    requires mid == M.Apply(last, s, M.Settle(low, kept))
    requires Told(mid, t, rows[1..], low + 1, kept)
    ensures Told(s, t, rows, low, kept)
  {
  }

  lemma OneSubmitted(m: MonitorState, rows: seq<Row>, low: nat)
    requires |rows| == 1 && ContiguousFrom(low, rows)
    ensures SubmitAll(m, rows) == Submit(m, rows[0]) && SubmitDiscarded(m, low, low) == Submit(m, DiscardedRow(low))
  {
    assert rows[1..] == [] && SubmitAll(Submit(m, rows[0]), []) == Submit(m, rows[0]);
  }

  /**
    What `Commit` does to the counter and the monitor is what a run does that reserves the rows
    and then settles each of them, as rows when they were stored and as discards otherwise.
   */
  lemma CommitIsRun(last: int, s: M.System, rows: seq<Row>, stored: bool)
    requires (forall i :: i in s.outstanding ==> i < s.next) && ContiguousFrom(s.next, rows)
    ensures M.EnabledRun(last, s, CommitSteps(rows, stored))
    ensures var t := M.Run(last, s, CommitSteps(rows, stored));
            && t.next == s.next + |rows| && t.monitor == AfterCommit(s.monitor, rows, stored)
            && t.outstanding == s.outstanding && t.joined == s.joined
  {
    var steps := CommitSteps(rows, stored);
    var t := M.Apply(last, s, M.Reserve(rows));
    assert steps[0] == M.Reserve(rows) && steps[1..] == Settlements(rows, stored);
    if rows == [] {
      assert t == s && M.Run(last, t, []) == t;
    } else {
      ReservedAreOutstanding(last, s, rows);
      SettlementsAreRun(last, t, rows, s.next, stored);
      assert M.Run(last, s, steps) == M.Run(last, t, Settlements(rows, stored));
      ReserveAndTell(last, s, rows, t, M.Run(last, s, steps), stored);
    }
  }

  lemma ReservedAreOutstanding(last: int, s: M.System, rows: seq<Row>)
    requires (forall i :: i in s.outstanding ==> i < s.next) && ContiguousFrom(s.next, rows)
    ensures AreOutstanding(M.Apply(last, s, M.Reserve(rows)), rows, s.next)
  {
  }

  lemma ReserveAndTell(last: int, s: M.System, rows: seq<Row>, mid: M.System, t: M.System, stored: bool)
    requires (forall i :: i in s.outstanding ==> i < s.next) && ContiguousFrom(s.next, rows) && rows != []
    requires mid == M.Apply(last, s, M.Reserve(rows)) && Told(mid, t, rows, s.next, stored)
    ensures t.next == s.next + |rows| && t.monitor == AfterCommit(s.monitor, rows, stored)
    ensures t.outstanding == s.outstanding && t.joined == s.joined
  {
    assert rows[0].localVersion == s.next && rows[|rows| - 1].localVersion == s.next + |rows| - 1;
    assert forall i :: i in s.outstanding ==> i < s.next && mid.outstanding[i] == s.outstanding[i];
  }

  // ----- Who is told of a commit -----------------------------------------------------------

  /** The row is the next one the monitor expects, and nothing waits before it. */
  predicate Expected(m: MonitorState, version: nat) {
    m.heap == [] && (version == m.previous + 1 || (version == 0 && m.previous == 0))
  }

  /** The listener has received what it had, then each of the rows that fits its keys or prefixes, in order. */
  ghost predicate ReceivedFitting(before: Listener, after: Listener, rows: seq<Row>) {
    && after.keys == before.keys && after.prefixes == before.prefixes
    && before.received <= after.received
    && M.StrictlySorted(after.received[|before.received|..])
    && forall r :: r in after.received[|before.received|..] <==> r in rows && r.key != "" && Fits(before, r.key)
  }

  ghost predicate Fits(l: Listener, key: string) {
    || (exists i :: 0 <= i < |l.keys| && l.keys[i] == key)
    || (exists i :: 0 <= i < |l.prefixes| && |l.prefixes[i]| <= |key| && key[..|l.prefixes[i]|] == l.prefixes[i])
  }

  lemma OneRowIsReceived(before: Listener, row: Row, mid: Listener, rows: seq<Row>, after: Listener)
    requires mid == if row.key == "" then before else Receive(before, row)
    requires ReceivedFitting(mid, after, rows) && forall r :: r in rows ==> row.localVersion < r.localVersion
    ensures ReceivedFitting(before, after, [row] + rows)
  {
    ListeningMeaning(before, row);
    var tail := after.received[|mid.received|..];
    FitsAlike(before, mid);
    assert forall r :: r in [row] + rows <==> r == row || r in rows;
    if mid != before {
      assert after.received[|before.received|..] == [row] + tail;
      SortedBehind(row, tail);
      assert forall r :: r in [row] + tail <==> r == row || r in tail;
    }
  }

  lemma FitsAlike(a: Listener, b: Listener)
    requires a.keys == b.keys && a.prefixes == b.prefixes
    ensures forall key :: Fits(a, key) <==> Fits(b, key)
  {
  }

  lemma SortedBehind(row: Row, tail: seq<Row>)
    requires M.StrictlySorted(tail) && forall r :: r in tail ==> row.localVersion < r.localVersion
    ensures M.StrictlySorted([row] + tail)
  {
    forall i | 0 <= i < |tail| ensures row.localVersion < tail[i].localVersion { assert tail[i] in tail; }
  }

  /**
    A batch stored while nothing waits at the monitor: every listener receives exactly the rows
    that fit it, in the order of their identifiers, and nothing waits afterwards.
   */
  lemma {:induction false} StoredIsDelivered(m: MonitorState, rows: seq<Row>, low: nat, id: nat)
    requires ContiguousFrom(low, rows) && (rows != [] ==> Expected(m, low)) && id in m.listeners
    ensures var after := SubmitAll(m, rows);
            && id in after.listeners && ReceivedFitting(m.listeners[id], after.listeners[id], rows)
            && (rows != [] ==> after.heap == [] && after.previous == low + |rows| - 1)
    decreases |rows|
  {
    if rows != [] {
      OneRowIsFlushed(m, rows[0]);
      var mid := Submit(m, rows[0]);
      assert rows == [rows[0]] + rows[1..] && ContiguousFrom(low + 1, rows[1..]);
      StoredIsDelivered(mid, rows[1..], low + 1, id);
      forall r | r in rows[1..] ensures rows[0].localVersion < r.localVersion {
        var k :| 0 <= k < |rows[1..]| && rows[1..][k] == r;
      }
      OneRowIsReceived(m.listeners[id], rows[0], mid.listeners[id], rows[1..], SubmitAll(m, rows).listeners[id]);
    }
  }

  /** The identifiers of a batch that could not be stored reach nobody. */
  lemma {:induction false} DiscardedIsSilent(m: MonitorState, low: nat, high: nat)
    requires low <= high ==> Expected(m, low)
    ensures var after := SubmitDiscarded(m, low, high);
            after.listeners == m.listeners && (low <= high ==> after.heap == [] && after.previous == high)
    decreases high + 1 - low
  {
    if low <= high {
      OneRowIsFlushed(m, DiscardedRow(low));
      DiscardedIsSilent(Submit(m, DiscardedRow(low)), low + 1, high);
    }
  }

  // ----- A changed key is a step of its replicas ---------------------------------------------

  /** The step can be taken, and leaves the replica at `node` with this set. */
  ghost predicate StepsTo(s: R.System, node: NodeName, step: R.Step, after: set<Sibling>) {
    exists t :: R.Next(s, t, step) && node in t.replicas && t.replicas[node].siblings == after
  }

  /** A write that `Batch` does not drop, by a client whose context is that of a copy it has read. */
  lemma WriteIsStep(s: R.System, node: NodeName, source: Option<R.Copy>, update: Update, now: nat,
                    after: set<Sibling>) returns (timestamp: nat)
    requires node in s.replicas && (source.Some? ==> source.value in s.observed)
    requires update.context == R.SourceContext(source) && !Dropped(s.replicas[node].siblings, update)
    requires WriteResult(s.replicas[node].siblings, update, node, now, after)
    ensures StepsTo(s, node, R.Write(node, source, update.op, timestamp), after)
  {
    var held := s.replicas[node].siblings;
    timestamp :| WriteResultAt(held, update, node, now, timestamp, after);
    WriteSteps(s, node, source, update.op, timestamp);
  }

  lemma WriteSteps(s: R.System, node: NodeName, source: Option<R.Copy>, op: R.Op, timestamp: nat)
    requires node in s.replicas && (source.Some? ==> source.value in s.observed)
    requires op.Delete? ==> s.replicas[node].siblings != {}
    ensures var held := s.replicas[node].siblings;
            StepsTo(s, node, R.Write(node, source, op, timestamp),
                    R.Written(held, R.NewSibling(held, R.SourceContext(source), node, op, timestamp)))
  {
    var sibling := R.NewSibling(s.replicas[node].siblings, R.SourceContext(source), node, op, timestamp);
    var t := R.AfterWrite(s, node, source, sibling);
    assert R.Next(s, t, R.Write(node, source, op, timestamp));
  }

  /** What `Merge` leaves stored: the merged set when it gained a sibling, what was held otherwise. */
  ghost function Kept(held: set<Sibling>, merged: set<Sibling>): set<Sibling> {
    if Gains(held, merged) then merged else held
  }

  lemma KeptIsMerged(s: R.System, node: NodeName, theirs: set<Sibling>, merged: set<Sibling>)
    requires R.Inv(s) && node in s.replicas && theirs <= s.created && Antichain(theirs)
    requires MergeSyncResult(s.replicas[node].siblings, theirs, node, merged)
    ensures Kept(s.replicas[node].siblings, merged) == merged
  {
    var held := s.replicas[node].siblings;
    R.CausalIsUniverse(s.created, s.replicas.Keys);
    R.SoundIsAntichain(s.replicas[node], s.created);
    if !Gains(held, merged) { SkippedMergeChangesNothing(s.created, held, theirs, node, merged); }
  }

  /** A merge of the set of another replica, stored or skipped. */
  lemma MergeIsStep(s: R.System, node: NodeName, from: R.Copy, merged: set<Sibling>)
    requires R.Inv(s) && node in s.replicas && from in s.observed
    requires MergeSyncResult(s.replicas[node].siblings, from.siblings, node, merged)
    ensures StepsTo(s, node, R.Merge(node, from), Kept(s.replicas[node].siblings, merged))
  {
    R.SoundIsAntichain(from, s.created);
    KeptIsMerged(s, node, from.siblings, merged);
    var mine := s.replicas[node];
    var copy := R.Copy(merged, mine.delivered + from.delivered, mine.known + from.known);
    assert R.Next(s, s.(replicas := s.replicas[node := copy]), R.Merge(node, from));
  }

  /** A merge of a patch, against the version the replica answered, stored or skipped. */
  lemma RepairIsStep(s: R.System, node: NodeName, version: R.Copy, all: R.Copy, merged: set<Sibling>)
    requires R.Inv(s) && node in s.replicas && version in s.past[node] && all in s.observed
    requires MergeSyncResult(s.replicas[node].siblings, Diff(version.siblings, all.siblings), node, merged)
    ensures StepsTo(s, node, R.Repair(node, version, all), Kept(s.replicas[node].siblings, merged))
  {
    R.SoundIsAntichain(all, s.created);
    KeptIsMerged(s, node, Diff(version.siblings, all.siblings), merged);
    var mine := s.replicas[node];
    var copy := R.Copy(merged, mine.delivered + all.delivered, mine.known + all.known);
    assert R.Next(s, s.(replicas := s.replicas[node := copy]), R.Repair(node, version, all));
  }
}
