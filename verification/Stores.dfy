/**
  The store of one node (bucket/store.go): batches of writes and merges over a map of rows,
  with row identifiers reserved from a counter and handed to the monitor.
 */
module Stores {
  import opened Wrappers
  import opened Clocks
  import opened Siblings
  import opened SiblingAlgebra
  import opened SiblingSets
  import opened Monitors
  import opened Replication

  datatype Error = EStorage

  /** One operation of a batch with the context its client sent. */
  datatype Update = Update(op: Op, context: Context)

  /** A delete of a key that holds nothing is dropped from the batch. */
  ghost predicate Dropped(held: set<Sibling>, update: Update) {
    held == {} && update.op.Delete?
  }

  /** `after` is `held` after one write at `node`, as in a write step of `Replication`. */
  ghost predicate WriteResult(held: set<Sibling>, update: Update, node: NodeName, now: nat, after: set<Sibling>) {
    exists timestamp: nat :: WriteResultAt(held, update, node, now, timestamp, after)
  }

  ghost predicate WriteResultAt(held: set<Sibling>, update: Update, node: NodeName, now: nat, timestamp: nat,
                                after: set<Sibling>) {
    && StampedBy(held, update.op, now, timestamp)
    && after == Written(held, NewSibling(held, update.context, node, update.op, timestamp))
  }

  /** What is held after one operation at the node, told by dots, counters, values and times. */
  ghost predicate WroteKey(held: set<Sibling>, update: Update, node: NodeName, now: nat, after: set<Sibling>) {
    exists a :: WroteSibling(held, update.context, update.op, node, after, a)
                && WroteAt(held, update.op, now, a.timestamp)
  }

  lemma WriteResultMeaning(held: set<Sibling>, update: Update, node: NodeName, now: nat, after: set<Sibling>)
    requires WriteResult(held, update, node, now, after)
    ensures WroteKey(held, update, node, now, after)
  {
    var timestamp: nat :| WriteResultAt(held, update, node, now, timestamp, after);
    var a := NewSibling(held, update.context, node, update.op, timestamp);
    WroteAfter(held, update.context, node, update.op, timestamp, a, after);
    assert WroteAt(held, update.op, now, a.timestamp);
  }

  /** One row for each changed key, under consecutive identifiers. */
  ghost predicate RowsOf(rows: seq<Row>, update: map<string, set<Sibling>>, next: nat) {
    if rows == [] then update == map[]
    else
      var last := rows[|rows| - 1];
      && last.key in update && last.siblings == update[last.key] && last.localVersion == next + |rows| - 1
      && RowsOf(rows[..|rows| - 1], update - {last.key}, next)
  }

  ghost predicate HasKey(rows: seq<Row>, key: string) {
    exists i :: 0 <= i < |rows| && rows[i].key == key
  }

  lemma {:induction false} RowsOfShape(rows: seq<Row>, update: map<string, set<Sibling>>, next: nat)
    requires RowsOf(rows, update, next)
    ensures |rows| == |update| && ContiguousFrom(next, rows)
  {
    if rows != [] {
      var last := rows[|rows| - 1];
      RowsOfShape(rows[..|rows| - 1], update - {last.key}, next);
      assert update.Keys == (update - {last.key}).Keys + {last.key};
    }
  }

  lemma {:induction false} RowsOfContent(rows: seq<Row>, update: map<string, set<Sibling>>, next: nat, i: nat)
    requires RowsOf(rows, update, next) && i < |rows|
    ensures rows[i].key in update && rows[i].siblings == update[rows[i].key]
    ensures forall j :: i < j < |rows| ==> rows[i].key != rows[j].key
  {
    var last := rows[|rows| - 1];
    if i < |rows| - 1 {
      RowsOfContent(rows[..|rows| - 1], update - {last.key}, next, i);
    }
  }

  lemma {:induction false} RowsOfKeys(rows: seq<Row>, update: map<string, set<Sibling>>, next: nat)
    requires RowsOf(rows, update, next)
    ensures forall key :: key in update <==> HasKey(rows, key)
  {
    if rows != [] {
      var last, front := rows[|rows| - 1], rows[..|rows| - 1];
      RowsOfKeys(front, update - {last.key}, next);
      assert rows == front + [last];
      HasKeyOfOneMore(front, last);
    }
  }

  lemma RowsOfMeaning(rows: seq<Row>, update: map<string, set<Sibling>>, next: nat)
    requires RowsOf(rows, update, next)
    ensures |rows| == |update| && ContiguousFrom(next, rows)
    ensures forall key :: key in update <==> HasKey(rows, key)
    ensures forall i :: 0 <= i < |rows| ==> rows[i].key in update && rows[i].siblings == update[rows[i].key]
    ensures forall i, j :: 0 <= i < j < |rows| ==> rows[i].key != rows[j].key
  {
    RowsOfShape(rows, update, next);
    RowsOfKeys(rows, update, next);
    forall i | 0 <= i < |rows|
      ensures rows[i].key in update && rows[i].siblings == update[rows[i].key]
      ensures forall j :: i < j < |rows| ==> rows[i].key != rows[j].key
    {
      RowsOfContent(rows, update, next, i);
    }
  }

  /** The stored rows after the batch: the new row of every changed key, the old one otherwise. */
  ghost predicate StoredRows(before: map<string, Row>, rows: seq<Row>, after: map<string, Row>) {
    && (forall key :: key in after <==> key in before || HasKey(rows, key))
    && (forall i :: 0 <= i < |rows| ==> rows[i].key in after && after[rows[i].key] == rows[i])
    && (forall key :: key in before && !HasKey(rows, key) ==> after[key] == before[key])
  }

  lemma GainsExactly(held: set<Sibling>, after: set<Sibling>)
    ensures Gains(held, after) <==> !(after <= held)
  {
  }

  /** The merge brought a sibling that was not held. */
  ghost predicate Gains(held: set<Sibling>, after: set<Sibling>) {
    exists s :: s in after && s !in held
  }

  /** What the monitor is told: the rows in order, or a discard of their whole range. */
  function AfterCommit(m: MonitorState, rows: seq<Row>, stored: bool): MonitorState {
    if rows == [] then m
    else if stored then SubmitAll(m, rows)
    else SubmitDiscarded(m, rows[0].localVersion, rows[|rows| - 1].localVersion)
  }

  /**
    A merge stores a key only when a sibling is gained.  The skipped case changes nothing, with
    lost events or without.
   */
  lemma SkippedMergeChangesNothing(u: set<Sibling>, mine: set<Sibling>, theirs: set<Sibling>, node: NodeName,
                                   out: set<Sibling>)
    requires Universe(u) && mine <= u && theirs <= u && Antichain(mine) && Antichain(theirs)
    requires MergeSyncResult(mine, theirs, node, out) && !Gains(mine, out)
    ensures out == mine
  {
    if Forgot(mine, theirs, node) && Overwritten(mine, theirs, node) != {} {
      var copy := MintedSurvives(mine, theirs, node, out);
      assert false;
    }
    MergeSyncIsSyncExactly(mine, theirs, node, out);
    SyncIsMaximal(u, mine, theirs);
    forall a | a in mine ensures a in out {
      var top := MaximalCovers(u, mine + theirs, a);
      assert top in out;
    }
  }

  /** One more than the largest stored identifier, 0 when nothing is stored. */
  ghost predicate IsNextRowID(storage: map<string, Row>, next: nat) {
    && (forall key :: key in storage ==> storage[key].localVersion < next)
    && (next > 0 ==> exists key :: key in storage && storage[key].localVersion + 1 == next)
  }

  /** The scan over the stored rows when a store is opened. */
  method CalculateNextRowID(storage: map<string, Row>) returns (nextRowID: nat)
    ensures IsNextRowID(storage, nextRowID)
  {
    nextRowID := 0;
    var todo := storage.Keys;
    while todo != {}
      invariant todo <= storage.Keys
      invariant forall key :: key in storage && key !in todo ==> storage[key].localVersion < nextRowID
      invariant nextRowID > 0 ==> exists key :: key in storage && storage[key].localVersion + 1 == nextRowID
      decreases todo
    {
      var key :| key in todo;
      todo := todo - {key};
      if storage[key].localVersion >= nextRowID {
        nextRowID := storage[key].localVersion + 1;
      }
    }
  }

  class Store {
    const nodeID: NodeName
    const monitor: Monitor
    var nextRowID: nat
    var storage: map<string, Row>

    ghost predicate Valid()
      reads this, monitor
    {
      && monitor.Valid()
      && forall key :: key in storage ==> storage[key].key == key && storage[key].localVersion < nextRowID
    }

    /** Over rows that are already stored; the monitor starts at their largest identifier. */
    constructor (nodeID: NodeName, storage: map<string, Row>)
      requires forall key :: key in storage ==> storage[key].key == key
      ensures Valid() && this.nodeID == nodeID && this.storage == storage && IsNextRowID(storage, nextRowID)
      ensures fresh(monitor) && monitor.View() == MonitorState(if nextRowID == 0 then 0 else nextRowID - 1, [], map[])
    {
      var next := CalculateNextRowID(storage);
      this.nodeID := nodeID;
      this.storage := storage;
      this.nextRowID := next;
      this.monitor := new Monitor(if next == 0 then 0 else next - 1);
    }

    ghost function Held(key: string): set<Sibling>
      reads this
    {
      if key in storage then storage[key].siblings else {}
    }

    /** `readOk` says whether the driver returned the rows and all of them could be decoded. */
    method UpdateInit(keys: set<string>, readOk: bool) returns (result: Result<map<string, set<Sibling>>, Error>)
      ensures if readOk then result.Ok? && HeldAt(keys, result.value) else result == Err(EStorage)
    {
      if !readOk {
        return Err(EStorage);
      }
      var held: map<string, set<Sibling>> := map[];
      var todo := keys;
      while todo != {}
        invariant todo <= keys
        invariant held.Keys == keys - todo
        invariant forall key :: key in held ==> held[key] == Held(key)
        decreases todo
      {
        var key :| key in todo;
        todo := todo - {key};
        held := held[key := if key in storage then storage[key].siblings else {}];
      }
      result := Ok(held);
    }

    ghost predicate HeldAt(keys: set<string>, held: map<string, set<Sibling>>)
      reads this
    {
      held.Keys == keys && forall key :: key in keys ==> held[key] == Held(key)
    }

    /** The time stamped on the new sibling. */
    method Stamp(current: SiblingSet, op: Op, now: nat) returns (timestamp: nat)
      ensures StampedBy(current.siblings, op, now, timestamp)
    {
      timestamp := now;
      var tombstones := current.IsTombstoneSet();
      if tombstones && op.Delete? {
        var oldest := current.GetOldestTombstone();
        if oldest.Some? {
          timestamp := oldest.value.timestamp;
        }
      }
    }

    /** One key of `Batch`. */
    method WriteKey(held: set<Sibling>, update: Update, now: nat) returns (after: set<Sibling>)
      ensures WriteResult(held, update, nodeID, now, after) && WroteKey(held, update, nodeID, now, after)
    {
      var current := new SiblingSet(held);
      var context := update.context;
      if |context| == 0 {
        context := current.Join();
      }
      var clock := current.Event(context, nodeID);
      var timestamp := Stamp(current, update.op, now);
      var newSibling := Sibling(clock, if update.op.Put? then Some(update.op.bytes) else None, timestamp);
      assert newSibling == NewSibling(held, update.context, nodeID, update.op, timestamp);
      var rest := current.Discard(clock);
      var added := new SiblingSet({newSibling});
      var merged := rest.Sync(added);
      after := merged.siblings;
      assert WriteResultAt(held, update, nodeID, now, timestamp, after);
      WriteResultMeaning(held, update, nodeID, now, after);
    }

    /** One key of `Merge`: the merged set when it has a sibling that was not held. */
    method MergeKey(held: set<Sibling>, theirs: set<Sibling>)
      returns (stored: Option<set<Sibling>>, after: set<Sibling>)
      ensures MergedKey(held, theirs, nodeID, after, stored)
    {
      var mine := new SiblingSet(held);
      var other := new SiblingSet(theirs);
      var merged := mine.MergeSync(other, nodeID);
      after := merged.siblings;
      stored := KeepIfGained(held, merged.siblings);
    }

    /** The scan of `Merge` for a sibling that was not held. */
    method KeepIfGained(held: set<Sibling>, after: set<Sibling>) returns (stored: Option<set<Sibling>>)
      ensures stored == if Gains(held, after) then Some(after) else None
    {
      stored := None;
      var todo := after;
      while todo != {}
        invariant todo <= after
        invariant stored == if Gains(held, after - todo) then Some(after) else None
        decreases todo
      {
        var s :| s in todo;
        GainsOneMore(held, after - todo, s);
        assert after - (todo - {s}) == after - todo + {s};
        todo := todo - {s};
        if s !in held {
          stored := Some(after);
        }
      }
      assert after - todo == after;
    }

    /** Reserves one identifier for each changed key. */
    method Reserve(update: map<string, set<Sibling>>) returns (rows: seq<Row>)
      modifies this`nextRowID
      ensures nextRowID == old(nextRowID) + |update|
      ensures RowsOf(rows, update, old(nextRowID))
    {
      nextRowID := nextRowID + |update|;
      rows := NumberRows(update, nextRowID - |update|);
    }

    method NotifyWatchers(rows: seq<Row>)
      requires monitor.Valid()
      modifies monitor
      ensures monitor.Valid() && monitor.View() == SubmitAll(old(monitor.View()), rows)
    {
      for i := 0 to |rows|
        invariant monitor.Valid()
        invariant SubmitAll(monitor.View(), rows[i..]) == SubmitAll(old(monitor.View()), rows)
      {
        assert rows[i..][1..] == rows[i + 1..];
        monitor.Notify(rows[i]);
      }
    }

    method DiscardIDRange(rows: seq<Row>)
      requires monitor.Valid()
      modifies monitor
      ensures monitor.Valid()
      ensures monitor.View() == AfterCommit(old(monitor.View()), rows, false)
    {
      if |rows| == 0 {
        return;
      }
      monitor.DiscardIDRange(rows[0].localVersion, rows[|rows| - 1].localVersion);
    }

    /** The driver's write: every row or none. */
    method Put(rows: seq<Row>)
      modifies this`storage
      requires forall i, j :: 0 <= i < j < |rows| ==> rows[i].key != rows[j].key
      ensures StoredRows(old(storage), rows, storage)
    {
      for i := 0 to |rows|
        invariant StoredRows(old(storage), rows[..i], storage)
      {
        TakeOneMore(rows, i);
        StoredRowsOfOneMore(old(storage), rows[..i], storage, rows[i]);
        storage := storage[rows[i].key := rows[i]];
      }
      assert rows[..|rows|] == rows;
    }

    /**
      The end of `Batch` and `Merge`: reserve identifiers, write, and tell the monitor.  When
      the driver fails nothing is stored and the reserved identifiers are discarded.
     */
    method Commit(update: map<string, set<Sibling>>, driverOk: bool) returns (ghost rows: seq<Row>)
      requires Valid()
      modifies this`nextRowID, this`storage, monitor
      ensures Valid() && nextRowID == old(nextRowID) + |update| && RowsOf(rows, update, old(nextRowID))
      ensures |rows| == |update| && ContiguousFrom(old(nextRowID), rows)
      ensures forall key :: HasKey(rows, key) <==> key in update
      ensures driverOk ==> forall key :: Held(key) == if key in update then update[key] else old(Held(key))
      ensures driverOk ==> StoredRows(old(storage), rows, storage)
      ensures !driverOk ==> storage == old(storage)
      ensures monitor.View() == AfterCommit(old(monitor.View()), rows, driverOk)
    {
      var updated := Reserve(update);
      rows := updated;
      RowsOfMeaning(rows, update, old(nextRowID));
      if !driverOk {
        DiscardIDRange(updated);
        return;
      }
      Put(updated);
      NotifyWatchers(updated);
      forall key | key in update ensures Held(key) == update[key] {
        CommittedKey(rows, update, old(nextRowID), storage, key);
      }
      forall key | key !in update ensures Held(key) == old(Held(key)) { assert !HasKey(rows, key); }
      forall key | key in storage ensures storage[key].key == key && storage[key].localVersion < nextRowID {
        if HasKey(rows, key) { var i :| 0 <= i < |rows| && rows[i].key == key; }
      }
    }

    method Batch(batch: map<string, Update>, now: nat, readOk: bool, driverOk: bool)
      returns (result: Result<map<string, set<Sibling>>, Error>, ghost rows: seq<Row>)
      requires Valid()
      modifies this`nextRowID, this`storage, monitor
      ensures Valid()
      ensures result.Ok? <==> readOk && driverOk
      ensures !readOk ==> rows == []
      ensures result.Ok? ==> forall key :: key in result.value <==>
                key in batch && !(old(Held(key)) == {} && batch[key].op == Delete)
      ensures result.Ok? ==> forall key :: key in result.value ==>
                Held(key) == result.value[key]
                    && WriteResult(old(Held(key)), batch[key], nodeID, now, result.value[key])
      ensures result.Ok? ==> forall key :: key in result.value ==>
                WroteKey(old(Held(key)), batch[key], nodeID, now, result.value[key])
      ensures result.Ok? ==> forall key :: key !in result.value ==> Held(key) == old(Held(key))
      ensures result.Ok? ==> RowsOf(rows, result.value, old(nextRowID)) && StoredRows(old(storage), rows, storage)
      ensures result.Err? ==> storage == old(storage)
      ensures nextRowID == old(nextRowID) + |rows| && ContiguousFrom(old(nextRowID), rows)
      ensures monitor.View() == AfterCommit(old(monitor.View()), rows, result.Ok?)
    {
      var held := UpdateInit(batch.Keys, readOk);
      if held.Err? {
        return Err(held.error), [];
      }
      var siblingSets := WriteKeys(held.value, batch, now);
      rows := Commit(siblingSets, driverOk);
      if !driverOk {
        return Err(EStorage), rows;
      }
      forall key | key in siblingSets ensures WroteKey(old(Held(key)), batch[key], nodeID, now, siblingSets[key]) {
        WriteResultMeaning(held.value[key], batch[key], nodeID, now, siblingSets[key]);
      }
      result := Ok(siblingSets);
    }

    /** The loop of `Batch`: the new sibling set of every key that changes. */
    method WriteKeys(held: map<string, set<Sibling>>, batch: map<string, Update>, now: nat)
      returns (siblingSets: map<string, set<Sibling>>)
      requires held.Keys == batch.Keys
      ensures forall key :: key in siblingSets <==> key in batch && !Dropped(held[key], batch[key])
      ensures forall key :: key in siblingSets ==> WriteResult(held[key], batch[key], nodeID, now, siblingSets[key])
    {
      siblingSets := held;
      var todo := batch.Keys;
      while todo != {}
        invariant todo <= batch.Keys && todo <= siblingSets.Keys
        invariant forall key :: key in siblingSets <==> key in todo || (key in batch && !Dropped(held[key], batch[key]))
        invariant forall key :: key in todo ==> siblingSets[key] == held[key]
        invariant forall key :: key in siblingSets && key !in todo ==>
          WriteResult(held[key], batch[key], nodeID, now, siblingSets[key])
        decreases todo
      {
        var key :| key in todo;
        todo := todo - {key};
        if |siblingSets[key]| == 0 && batch[key].op.Delete? {
          siblingSets := siblingSets - {key};
          continue;
        }
        var updated := WriteKey(siblingSets[key], batch[key], now);
        // the multi-value resolver keeps every sibling
        siblingSets := siblingSets[key := updated];
      }
    }

    method Merge(siblingSets: map<string, set<Sibling>>, readOk: bool, driverOk: bool)
      returns (result: Result<(), Error>, ghost merged: map<string, set<Sibling>>, ghost rows: seq<Row>)
      requires Valid()
      modifies this`nextRowID, this`storage, monitor
      ensures Valid()
      ensures nextRowID == old(nextRowID) + |rows| && ContiguousFrom(old(nextRowID), rows)
      ensures monitor.View() == AfterCommit(old(monitor.View()), rows, result.Ok?)
      ensures forall key :: HasKey(rows, key) <==> key in merged && Gains(old(Held(key)), merged[key])
      ensures result.Err? <==> !readOk || (!driverOk && rows != [])
      ensures merged.Keys == if readOk then siblingSets.Keys else {}
      ensures readOk ==> forall key :: key in siblingSets ==>
          MergeSyncResult(old(Held(key)), siblingSets[key], nodeID, merged[key])
      ensures result.Err? ==> storage == old(storage)
      ensures result.Ok? ==> forall key :: key in siblingSets ==>
                Held(key) == if merged[key] <= old(Held(key)) then old(Held(key)) else merged[key]
      ensures result.Ok? ==> forall key :: key !in siblingSets ==> Held(key) == old(Held(key))
    {
      var update;
      merged, rows := map[], [];
      var held := UpdateInit(siblingSets.Keys, readOk);
      if held.Err? {
        return Err(held.error), merged, rows;
      }
      merged, update := MergeKeys(held.value, siblingSets);
      forall key | key in merged ensures key in update <==> !(merged[key] <= held.value[key]) {
        GainsExactly(held.value[key], merged[key]);
      }
      if |update| != 0 {
        rows := Commit(update, driverOk);
        if !driverOk {
          return Err(EStorage), merged, rows;
        }
      }
      result := Ok(());
    }

    /** The loop of `Merge`: the keys that gain a sibling. */
    method MergeKeys(held: map<string, set<Sibling>>, siblingSets: map<string, set<Sibling>>)
      returns (merged: map<string, set<Sibling>>, update: map<string, set<Sibling>>)
      requires held.Keys == siblingSets.Keys
      ensures merged.Keys == siblingSets.Keys
      ensures forall key :: key in siblingSets ==> MergeSyncResult(held[key], siblingSets[key], nodeID, merged[key])
      ensures forall key :: key in update <==> key in siblingSets && Gains(held[key], merged[key])
      ensures forall key :: key in update ==> update[key] == merged[key]
    {
      update := map[];
      merged := map[];
      var todo := siblingSets.Keys;
      while todo != {}
        invariant todo <= siblingSets.Keys
        invariant merged.Keys == siblingSets.Keys - todo && update.Keys <= merged.Keys
        invariant forall key :: key in merged ==> MergedKey(
            held[key], siblingSets[key], nodeID, merged[key], if key in update then Some(update[key]) else None)
        decreases todo
      {
        var key :| key in todo;
        todo := todo - {key};
        var stored, after := MergeKey(held[key], siblingSets[key]);
        merged := merged[key := after];
        if stored.Some? {
          update := update[key := stored.value];
        }
      }
    }
  }

  /** One key has been merged to `after` and is to be stored when it gained something. */
  ghost predicate MergedKey(held: set<Sibling>, theirs: set<Sibling>, node: NodeName, after: set<Sibling>,
                            stored: Option<set<Sibling>>) {
    MergeSyncResult(held, theirs, node, after) && stored == if Gains(held, after) then Some(after) else None
  }

  lemma GainsOneMore(held: set<Sibling>, after: set<Sibling>, s: Sibling)
    ensures Gains(held, after + {s}) <==> Gains(held, after) || s !in held
  {
    if Gains(held, after) { var t :| t in after && t !in held; assert t in after + {s}; }
    assert s in after + {s};
  }

  /** The loop over the changed keys that gives each one its row. */
  method NumberRows(update: map<string, set<Sibling>>, low: nat) returns (rows: seq<Row>)
    ensures RowsOf(rows, update, low)
  {
    var next := low;
    rows := [];
    ghost var done: map<string, set<Sibling>> := map[];
    var todo := update.Keys;
    while todo != {}
      invariant todo <= update.Keys && done.Keys == update.Keys - todo
      invariant forall key :: key in done ==> done[key] == update[key]
      invariant next == low + |rows| && RowsOf(rows, done, low)
      decreases todo
    {
      var key :| key in todo;
      todo := todo - {key};
      var row := Row(key, next, update[key]);
      RowsOfOneMore(rows, done, low, row);
      rows := rows + [row];
      done := done[row.key := row.siblings];
      next := next + 1;
    }
    assert done == update;
  }

  lemma RowsOfOneMore(rows: seq<Row>, done: map<string, set<Sibling>>, next: nat, row: Row)
    requires RowsOf(rows, done, next) && row.key !in done && row.localVersion == next + |rows|
    ensures RowsOf(rows + [row], done[row.key := row.siblings], next)
  {
    assert (rows + [row])[..|rows|] == rows;
    assert done[row.key := row.siblings] - {row.key} == done;
  }

  lemma HasKeyOfOneMore(rows: seq<Row>, row: Row)
    ensures forall key :: HasKey(rows + [row], key) <==> HasKey(rows, key) || key == row.key
  {
    forall key ensures HasKey(rows + [row], key) <==> HasKey(rows, key) || key == row.key {
      if HasKey(rows, key) {
        var i :| 0 <= i < |rows| && rows[i].key == key;
        assert (rows + [row])[i].key == key;
      }
      assert (rows + [row])[|rows|] == row;
    }
  }

  lemma StoredRowsOfOneMore(before: map<string, Row>, rows: seq<Row>, now: map<string, Row>, row: Row)
    requires StoredRows(before, rows, now) && forall i :: 0 <= i < |rows| ==> rows[i].key != row.key
    ensures StoredRows(before, rows + [row], now[row.key := row])
  {
    HasKeyOfOneMore(rows, row);
  }

  lemma CommittedKey(rows: seq<Row>, update: map<string, set<Sibling>>, next: nat, storage: map<string, Row>,
                     key: string)
    requires RowsOf(rows, update, next) && key in update
    requires forall i :: 0 <= i < |rows| ==> rows[i].key in storage && storage[rows[i].key] == rows[i]
    ensures key in storage && storage[key].siblings == update[key]
  {
    RowsOfMeaning(rows, update, next);
    var i :| 0 <= i < |rows| && rows[i].key == key;
  }
}
