/**
  The update monitor (bucket/monitor.go): rows arrive in any order, wait in a heap ordered by
  local version, and are sent to listeners once every smaller version has been submitted.
 */
module Monitors {
  import opened Siblings

  datatype Row = Row(key: string, localVersion: nat, siblings: set<Sibling>)

  /** Submitted in place of a row whose identifier was reserved but not used. */
  function DiscardedRow(version: nat): Row { Row("", version, {}) }

  /** `received` is everything sent to the listener's channel so far. */
  datatype Listener = Listener(keys: seq<string>, prefixes: seq<string>, received: seq<Row>)

  predicate ListeningFor(l: Listener, row: Row) {
    || row.key in l.keys
    || exists i :: 0 <= i < |l.prefixes| && l.prefixes[i] <= row.key
  }

  /** The key is one of those listed, or starts with a listed prefix. */
  lemma ListeningMeaning(l: Listener, row: Row)
    ensures ListeningFor(l, row) <==>
              || (exists i :: 0 <= i < |l.keys| && l.keys[i] == row.key)
              || (exists i :: 0 <= i < |l.prefixes| && |l.prefixes[i]| <= |row.key|
                    && row.key[..|l.prefixes[i]|] == l.prefixes[i])
  {
  }

  /** The heap is kept as the sequence in which its rows would be popped. */
  datatype MonitorState = MonitorState(previous: nat, heap: seq<Row>, listeners: map<nat, Listener>)

  predicate Sorted(heap: seq<Row>) {
    forall i, j :: 0 <= i < j < |heap| ==> heap[i].localVersion <= heap[j].localVersion
  }

  function Insert(heap: seq<Row>, row: Row): seq<Row> {
    if heap == [] || row.localVersion < heap[0].localVersion then [row] + heap
    else [heap[0]] + Insert(heap[1..], row)
  }

  lemma {:induction false} InsertAdds(heap: seq<Row>, row: Row, r: Row)
    ensures r in Insert(heap, row) <==> r in heap || r == row
  {
    if heap != [] && row.localVersion >= heap[0].localVersion {
      InsertAdds(heap[1..], row, r);
      assert r in heap <==> r == heap[0] || r in heap[1..];
    }
  }

  lemma {:induction false} InsertKeepsOrder(heap: seq<Row>, row: Row)
    requires Sorted(heap)
    ensures Sorted(Insert(heap, row)) && |Insert(heap, row)| == |heap| + 1
  {
    if heap != [] && row.localVersion >= heap[0].localVersion {
      var rest := Insert(heap[1..], row);
      InsertKeepsOrder(heap[1..], row);
      forall i | 0 <= i < |rest| ensures heap[0].localVersion <= rest[i].localVersion {
        InsertAdds(heap[1..], row, rest[i]);
      }
    }
  }

  function Receive(l: Listener, row: Row): Listener {
    if ListeningFor(l, row) then l.(received := l.received + [row]) else l
  }

  function Send(listeners: map<nat, Listener>, row: Row): map<nat, Listener> {
    map id | id in listeners :: Receive(listeners[id], row)
  }

  predicate CanFlush(m: MonitorState) {
    m.heap != [] && (m.heap[0].localVersion == 0 || m.heap[0].localVersion == m.previous + 1)
  }

  /** One round of the flush loop. */
  function FlushOne(m: MonitorState): MonitorState
    requires CanFlush(m)
  {
    MonitorState(m.heap[0].localVersion, m.heap[1..],
                 if m.heap[0].key == "" then m.listeners else Send(m.listeners, m.heap[0]))
  }

  function Flush(m: MonitorState): MonitorState
    decreases |m.heap|
  {
    if CanFlush(m) then Flush(FlushOne(m)) else m
  }

  function Submit(m: MonitorState, row: Row): MonitorState {
    if row.localVersion < m.previous || (row.localVersion == m.previous && row.localVersion != 0) then m
    else Flush(m.(heap := Insert(m.heap, row)))
  }

  function SubmitDiscarded(m: MonitorState, low: nat, high: nat): MonitorState
    decreases high + 1 - low
  {
    if high < low then m else SubmitDiscarded(Submit(m, DiscardedRow(low)), low + 1, high)
  }

  function SubmitAll(m: MonitorState, rows: seq<Row>): MonitorState
    decreases rows
  {
    if rows == [] then m else SubmitAll(Submit(m, rows[0]), rows[1..])
  }

  /** The next row, submitted to an empty heap, is sent at once. */
  lemma OneRowIsFlushed(m: MonitorState, row: Row)
    requires m.heap == []
    requires row.localVersion == m.previous + 1 || (row.localVersion == 0 && m.previous == 0)
    ensures Submit(m, row) ==
            MonitorState(row.localVersion, [], if row.key == "" then m.listeners else Send(m.listeners, row))
  {
    var inserted := m.(heap := [row]);
    assert Insert(m.heap, row) == [row] && CanFlush(inserted);
    var sent := FlushOne(inserted);
    assert sent.heap == [] && !CanFlush(sent);
    assert Flush(inserted) == Flush(sent) == sent;
  }

  /** The identifiers of a batch are consecutive. */
  predicate ContiguousFrom(next: int, rows: seq<Row>) {
    forall k :: 0 <= k < |rows| ==> rows[k].localVersion == next + k
  }

  class Monitor {
    var listeners: map<nat, Listener>
    var previousVersion: nat
    var updateHeap: seq<Row>
    var nextListener: nat

    ghost predicate Valid()
      reads this
    {
      forall id :: id in listeners ==> id < nextListener
    }

    ghost function View(): MonitorState
      reads this
    {
      MonitorState(previousVersion, updateHeap, listeners)
    }

    constructor (startVersion: nat)
      ensures Valid() && View() == MonitorState(startVersion, [], map[])
    {
      listeners := map[];
      previousVersion := startVersion;
      updateHeap := [];
      nextListener := 0;
    }

    method AddListener(keys: seq<string>, prefixes: seq<string>) returns (id: nat)
      requires Valid()
      modifies this
      ensures Valid() && id !in old(listeners)
      ensures View() == old(View()).(listeners := old(listeners)[id := Listener(keys, prefixes, [])])
    {
      id := nextListener;
      nextListener := nextListener + 1;
      listeners := listeners[id := Listener(keys, prefixes, [])];
    }

    method RemoveListener(id: nat)
      requires Valid()
      modifies this
      ensures Valid() && View() == old(View()).(listeners := old(listeners) - {id})
    {
      listeners := listeners - {id};
    }

    /** The next row, when nothing waits, reaches exactly the listeners whose keys or prefixes it fits. */
    method Notify(update: Row)
      requires Valid()
      modifies this
      ensures Valid() && View() == Submit(old(View()), update)
      ensures old(updateHeap) == [] && update.localVersion == old(previousVersion) + 1 ==>
                && previousVersion == update.localVersion && updateHeap == [] && listeners.Keys == old(listeners).Keys
                && forall id :: id in listeners ==>
                     var l := old(listeners)[id];
                     listeners[id] == l.(received := l.received +
                       if update.key != "" && (|| (exists i :: 0 <= i < |l.keys| && l.keys[i] == update.key)
                                               || (exists i :: 0 <= i < |l.prefixes| && |l.prefixes[i]| <= |update.key|
                                                     && update.key[..|l.prefixes[i]|] == l.prefixes[i]))
                       then [update] else [])
    {
      if updateHeap == [] && update.localVersion == previousVersion + 1 {
        OneRowIsFlushed(View(), update);
        forall id | id in listeners { ListeningMeaning(listeners[id], update); }
      }
      SubmitUpdate(update);
    }

    method DiscardIDRange(low: nat, high: nat)
      requires Valid()
      modifies this
      ensures Valid() && View() == SubmitDiscarded(old(View()), low, high)
    {
      var i := low;
      while i <= high
        invariant low <= i
        invariant Valid()
        invariant SubmitDiscarded(View(), i, high) == SubmitDiscarded(old(View()), low, high)
      {
        SubmitUpdate(DiscardedRow(i));
        i := i + 1;
      }
    }

    method SubmitUpdate(update: Row)
      requires Valid()
      modifies this
      ensures Valid() && View() == Submit(old(View()), update)
    {
      if update.localVersion < previousVersion || (update.localVersion == previousVersion && update.localVersion != 0) {
        return;
      }
      updateHeap := Insert(updateHeap, update);
      FlushUpdates();
    }

    method FlushUpdates()
      requires Valid()
      modifies this
      ensures Valid() && View() == Flush(old(View()))
    {
      while |updateHeap| > 0 && (updateHeap[0].localVersion == 0 || updateHeap[0].localVersion == previousVersion + 1)
        invariant Valid()
        invariant Flush(View()) == Flush(old(View()))
        decreases |updateHeap|
      {
        ghost var before := View();
        previousVersion := updateHeap[0].localVersion;
        var nextUpdate := updateHeap[0];
        updateHeap := updateHeap[1..];
        if nextUpdate.key == "" {
          // a discarded identifier
          continue;
        }
        SendUpdate(nextUpdate);
        assert View() == FlushOne(before);
      }
    }

    method SendUpdate(update: Row)
      requires Valid()
      modifies this
      ensures Valid() && View() == old(View()).(listeners := Send(old(listeners), update))
    {
      ghost var before := listeners;
      var todo := listeners.Keys;
      while todo != {}
        invariant todo <= listeners.Keys == before.Keys
        invariant forall id :: id in before ==>
          listeners[id] == if id in todo then before[id] else Receive(before[id], update)
        invariant previousVersion == old(previousVersion) && updateHeap == old(updateHeap)
        invariant Valid()
        decreases todo
      {
        var id :| id in todo;
        todo := todo - {id};
        var l := listeners[id];
        var listening := IsListeningFor(l, update);
        if listening {
          listeners := listeners[id := l.(received := l.received + [update])];
        }
      }
      assert listeners == Send(before, update);
    }
  }

  method IsListeningFor(l: Listener, update: Row) returns (listening: bool)
    ensures listening == ListeningFor(l, update)
    ensures listening <==>
              || (exists i :: 0 <= i < |l.keys| && l.keys[i] == update.key)
              || (exists i :: 0 <= i < |l.prefixes| && |l.prefixes[i]| <= |update.key|
                    && update.key[..|l.prefixes[i]|] == l.prefixes[i])
  {
    ListeningMeaning(l, update);
    for i := 0 to |l.keys|
      invariant update.key !in l.keys[..i]
    {
      if update.key == l.keys[i] {
        return true;
      }
    }
    for i := 0 to |l.prefixes|
      invariant update.key !in l.keys
      invariant forall j :: 0 <= j < i ==> !(l.prefixes[j] <= update.key)
    {
      if l.prefixes[i] <= update.key {
        return true;
      }
    }
    return false;
  }
}
