/**
  Concurrent batches around one monitor (row identifiers of bucket/store.go with
  bucket/monitor.go).  Identifiers are reserved in contiguous ranges; each reserved
  identifier is later settled, by a row or by a discard, in any interleaving.
 */
module MonitorRuns {
  import opened Monitors

  /**
    `outstanding` holds the rows whose identifier is reserved but not yet submitted, `settled`
    what was submitted for each identifier, and `joined` the last version a listener missed.
   */
  datatype System = System(
    next: nat,
    outstanding: map<int, Row>,
    settled: map<int, Row>,
    joined: map<nat, int>,
    monitor: MonitorState)

  datatype Step =
    | Reserve(rows: seq<Row>)
    | Settle(version: nat, kept: bool)
    | AddListener(id: nat, keys: seq<string>, prefixes: seq<string>)
    | RemoveListener(id: nat)

  /** A monitor created over a store whose largest used row identifier is `last`, -1 if it is empty. */
  function Start(last: int): System
    requires last >= -1
  {
    System(last + 1, map[], map[], map[], MonitorState(if last < 0 then 0 else last, [], map[]))
  }

  /** The rows of a batch by their identifier. */
  function ByVersion(next: int, rows: seq<Row>): (reserved: map<int, Row>)
    requires ContiguousFrom(next, rows)
    ensures forall i :: i in reserved <==> next <= i < next + |rows|
    ensures forall i :: i in reserved ==> reserved[i].localVersion == i
  {
    map i: int | next <= i < next + |rows| :: RowAt(next, rows, i)
  }

  function RowAt(next: int, rows: seq<Row>, version: int): Row
    requires next <= version < next + |rows|
  {
    rows[version - next]
  }

  predicate Enabled(s: System, step: Step) {
    match step
    case Reserve(rows) => ContiguousFrom(s.next, rows)
    case Settle(version, _) => version in s.outstanding
    case AddListener(id, _, _) => id !in s.joined
    case RemoveListener(id) => true
  }

  function SettledRow(s: System, version: nat, kept: bool): Row
    requires version in s.outstanding
  {
    if kept then s.outstanding[version] else DiscardedRow(version)
  }

  /** The version below which nothing more is delivered: -1 until version 0 of an empty store is flushed. */
  function Flushed(last: int, s: System): int {
    if last < 0 && 0 !in s.settled && s.monitor.previous == 0 then -1 else s.monitor.previous
  }

  function Apply(last: int, s: System, step: Step): System
    requires Enabled(s, step)
  {
    match step
    case Reserve(rows) =>
      s.(next := s.next + |rows|,
         outstanding := s.outstanding + ByVersion(s.next, rows))
    case Settle(version, kept) =>
      var row := SettledRow(s, version, kept);
      s.(outstanding := s.outstanding - {version},
         settled := s.settled[version := row],
         monitor := Submit(s.monitor, row))
    case AddListener(id, keys, prefixes) =>
      s.(joined := s.joined[id := Flushed(last, s)],
         monitor := s.monitor.(listeners := s.monitor.listeners[id := Listener(keys, prefixes, [])]))
    case RemoveListener(id) =>
      s.(monitor := s.monitor.(listeners := s.monitor.listeners - {id}))
  }

  predicate EnabledRun(last: int, s: System, steps: seq<Step>)
    decreases |steps|
  {
    steps == [] || (Enabled(s, steps[0]) && EnabledRun(last, Apply(last, s, steps[0]), steps[1..]))
  }

  function Run(last: int, s: System, steps: seq<Step>): System
    requires EnabledRun(last, s, steps)
    decreases |steps|
  {
    if steps == [] then s else Run(last, Apply(last, s, steps[0]), steps[1..])
  }

  /** Version 1 of a store that was empty is settled while version 0 is not. */
  predicate Overtakes(last: int, s: System, step: Step) {
    last < 0 && step.Settle? && step.version == 1 && 0 !in s.settled
  }

  predicate SomeOvertakes(last: int, s: System, steps: seq<Step>)
    requires EnabledRun(last, s, steps)
    decreases |steps|
  {
    steps != [] && (Overtakes(last, s, steps[0]) || SomeOvertakes(last, Apply(last, s, steps[0]), steps[1..]))
  }

  predicate Wanted(l: Listener, row: Row) { row.key != "" && ListeningFor(l, row) }

  /** The submitted rows with versions in (lo, hi] that concern the listener, by increasing version. */
  function Matching(settled: map<int, Row>, l: Listener, lo: int, hi: int): seq<Row>
    decreases hi - lo
  {
    if hi <= lo then []
    else Matching(settled, l, lo, hi - 1)
         + (if hi in settled && Wanted(l, settled[hi]) then [settled[hi]] else [])
  }

  // ----- The invariant --------------------------------------------------------------------

  ghost predicate Rows(last: int, s: System) {
    && -1 <= last < s.next
    && (forall i :: i in s.settled || i in s.outstanding <==> last < i < s.next)
    && (forall i :: i in s.settled ==> i !in s.outstanding && s.settled[i].localVersion == i)
    && (forall i :: i in s.outstanding ==> s.outstanding[i].localVersion == i)
  }

  predicate StrictlySorted(heap: seq<Row>) {
    forall i, j :: 0 <= i < j < |heap| ==> heap[i].localVersion < heap[j].localVersion
  }

  /** The heap holds exactly the settled rows above the flushed version. */
  ghost predicate HeapIs(heap: seq<Row>, settled: map<int, Row>, flushed: int) {
    && StrictlySorted(heap)
    && (forall r :: r in heap <==>
        r.localVersion in settled && settled[r.localVersion] == r && r.localVersion > flushed)
  }

  ghost predicate Delivered(m: MonitorState, settled: map<int, Row>, joined: map<nat, int>, flushed: int) {
    forall id :: id in m.listeners ==>
      && id in joined && joined[id] <= flushed
      && m.listeners[id].received == Matching(settled, m.listeners[id], joined[id], flushed)
  }

  /** Everything that holds of the monitor between two rounds of the flush loop. */
  ghost predicate Flushing(last: int, m: MonitorState, settled: map<int, Row>, joined: map<nat, int>, flushed: int) {
    && last <= flushed
    && m.previous == (if flushed < 0 then 0 else flushed)
    && (forall i :: last < i <= flushed ==> i in settled)
    && HeapIs(m.heap, settled, flushed)
    && Delivered(m, settled, joined, flushed)
  }

  ghost predicate Inv(last: int, s: System) {
    var flushed := Flushed(last, s);
    && Rows(last, s)
    && (last < 0 ==> 1 in s.settled ==> 0 in s.settled)
    && Flushing(last, s.monitor, s.settled, s.joined, flushed)
    && flushed + 1 !in s.settled
  }

  lemma StartIsInv(last: int)
    requires last >= -1
    ensures Inv(last, Start(last))
  {
  }

  lemma HeadIsNext(heap: seq<Row>, settled: map<int, Row>, flushed: int)
    requires HeapIs(heap, settled, flushed)
    requires forall i :: i in settled ==> settled[i].localVersion == i
    ensures flushed + 1 in settled && flushed + 1 >= 0 <==> heap != [] && heap[0].localVersion == flushed + 1
  {
    if heap != [] { assert heap[0] in heap; }
    if flushed + 1 in settled && flushed + 1 >= 0 {
      var r := settled[flushed + 1];
      assert r in heap;
      var k :| 0 <= k < |heap| && heap[k] == r;
    }
  }

  lemma HeapAfterPop(heap: seq<Row>, settled: map<int, Row>, flushed: int)
    requires HeapIs(heap, settled, flushed) && heap != [] && heap[0].localVersion == flushed + 1
    ensures HeapIs(heap[1..], settled, flushed + 1)
  {
    forall r ensures r in heap[1..] <==> r in heap && r.localVersion > flushed + 1 {
      if r in heap && r.localVersion > flushed + 1 {
        var k :| 0 <= k < |heap| && heap[k] == r;
        assert heap[1..][k - 1] == r;
      }
    }
  }

  lemma DeliveredAfterFlush(m: MonitorState, settled: map<int, Row>, joined: map<nat, int>, flushed: int)
    requires Delivered(m, settled, joined, flushed) && CanFlush(m)
    requires m.heap[0].localVersion == flushed + 1 && flushed + 1 in settled && settled[flushed + 1] == m.heap[0]
    ensures Delivered(FlushOne(m), settled, joined, flushed + 1)
  {
    var m' := FlushOne(m);
    forall id | id in m'.listeners
      ensures m'.listeners[id].received == Matching(settled, m'.listeners[id], joined[id], flushed + 1)
    {
      MatchingIgnoresReceived(settled, m.listeners[id], m'.listeners[id], joined[id], flushed);
    }
  }

  lemma {:induction false} MatchingIgnoresReceived(settled: map<int, Row>, l: Listener, l': Listener, lo: int, hi: int)
    requires l.keys == l'.keys && l.prefixes == l'.prefixes
    ensures Matching(settled, l, lo, hi) == Matching(settled, l', lo, hi)
    decreases hi - lo
  {
    if lo < hi { MatchingIgnoresReceived(settled, l, l', lo, hi - 1); }
  }

  lemma FlushOneKeepsInv(last: int, m: MonitorState, settled: map<int, Row>, joined: map<nat, int>, flushed: int)
    requires Flushable(last, m, settled, joined, flushed) && CanFlush(m)
    ensures Flushable(last, FlushOne(m), settled, joined, flushed + 1) && flushed + 1 in settled
  {
    assert m.heap[0] in m.heap;
    HeadIsNext(m.heap, settled, flushed);
    HeapAfterPop(m.heap, settled, flushed);
    DeliveredAfterFlush(m, settled, joined, flushed);
  }

  lemma NothingToFlush(last: int, m: MonitorState, settled: map<int, Row>, joined: map<nat, int>, flushed: int)
    requires Flushable(last, m, settled, joined, flushed) && !CanFlush(m)
    ensures flushed + 1 !in settled
  {
    HeadIsNext(m.heap, settled, flushed);
  }

  /** The loop invariant of the flush loop. */
  ghost predicate Flushable(last: int, m: MonitorState, settled: map<int, Row>, joined: map<nat, int>, flushed: int) {
    && last >= -1
    && (forall i :: i in settled ==> i >= 0 && settled[i].localVersion == i)
    && (last < 0 && 0 !in settled ==> 1 !in settled)
    && Flushing(last, m, settled, joined, flushed)
  }

  /** Flushing keeps the loop invariant and stops just below the first missing version. */
  lemma {:induction false} FlushDelivers(last: int, m: MonitorState, settled: map<int, Row>, joined: map<nat, int>,
                                         flushed: int)
    returns (flushed': int)
    requires Flushable(last, m, settled, joined, flushed)
    ensures flushed <= flushed' && Flushable(last, Flush(m), settled, joined, flushed')
    ensures flushed' + 1 !in settled
    ensures flushed' == flushed || flushed' in settled
    decreases |m.heap|
  {
    if CanFlush(m) {
      FlushOneKeepsInv(last, m, settled, joined, flushed);
      flushed' := FlushDelivers(last, FlushOne(m), settled, joined, flushed + 1);
    } else {
      NothingToFlush(last, m, settled, joined, flushed);
      flushed' := flushed;
    }
  }

  lemma HeapAfterInsert(heap: seq<Row>, settled: map<int, Row>, flushed: int, row: Row)
    requires HeapIs(heap, settled, flushed)
    requires row.localVersion !in settled && row.localVersion > flushed
    ensures HeapIs(Insert(heap, row), settled[row.localVersion as int := row], flushed)
  {
    var h := Insert(heap, row);
    InsertKeepsOrder(heap, row);
    forall r ensures r in h <==> r in heap || r == row { InsertAdds(heap, row, r); }
    InsertStaysStrict(heap, row);
  }

  lemma {:induction false} InsertStaysStrict(heap: seq<Row>, row: Row)
    requires StrictlySorted(heap)
    requires forall r :: r in heap ==> r.localVersion != row.localVersion
    ensures StrictlySorted(Insert(heap, row))
  {
    if heap != [] && row.localVersion >= heap[0].localVersion {
      var rest := Insert(heap[1..], row);
      InsertStaysStrict(heap[1..], row);
      assert heap[0] in heap;
      forall i | 0 <= i < |rest| ensures heap[0].localVersion < rest[i].localVersion {
        assert rest[i] in rest;
        InsertAdds(heap[1..], row, rest[i]);
      }
    } else {
      forall i | 0 <= i < |heap| ensures row.localVersion < heap[i].localVersion { assert heap[i] in heap; }
    }
  }

  lemma {:induction false} MatchingOfUnchanged(settled: map<int, Row>, l: Listener, lo: int, hi: int, version: int,
                                               row: Row)
    requires hi < version
    ensures Matching(settled[version := row], l, lo, hi) == Matching(settled, l, lo, hi)
    decreases hi - lo
  {
    if lo < hi { MatchingOfUnchanged(settled, l, lo, hi - 1, version, row); }
  }

  lemma RowsAfterSettle(last: int, s: System, version: nat, kept: bool)
    requires Rows(last, s) && version in s.outstanding
    ensures Rows(last, Apply(last, s, Settle(version, kept)))
  {
    var s' := Apply(last, s, Settle(version, kept));
    forall i ensures i in s'.settled || i in s'.outstanding <==> last < i < s'.next {
      assert i in s'.settled <==> i in s.settled || i == version;
    }
  }

  /** Right after the insertion, before any flush. */
  lemma InsertKeepsFlushing(last: int, m: MonitorState, settled: map<int, Row>, joined: map<nat, int>, flushed: int,
                            row: Row)
    requires Flushing(last, m, settled, joined, flushed)
    requires row.localVersion !in settled && row.localVersion > flushed
    ensures Flushing(last, m.(heap := Insert(m.heap, row)), settled[row.localVersion as int := row], joined, flushed)
  {
    var settled' := settled[row.localVersion as int := row];
    HeapAfterInsert(m.heap, settled, flushed, row);
    forall id | id in m.listeners
      ensures Matching(settled', m.listeners[id], joined[id], flushed) ==
              Matching(settled, m.listeners[id], joined[id], flushed)
    {
      MatchingOfUnchanged(settled, m.listeners[id], joined[id], flushed, row.localVersion, row);
    }
  }

  lemma FlushedAfterSettle(last: int, s: System, flushed: int)
    requires Rows(last, s) && Flushing(last, s.monitor, s.settled, s.joined, flushed)
    requires flushed + 1 !in s.settled && (last < 0 && 1 in s.settled ==> 0 in s.settled)
    ensures Flushed(last, s) == flushed && Inv(last, s)
  {
  }

  lemma SettleKeepsInv(last: int, s: System, version: nat, kept: bool)
    requires Inv(last, s) && version in s.outstanding && !Overtakes(last, s, Settle(version, kept))
    ensures Inv(last, Apply(last, s, Settle(version, kept)))
  {
    var row := SettledRow(s, version, kept);
    var flushed := Flushed(last, s);
    var s' := Apply(last, s, Settle(version, kept));
    RowsAfterSettle(last, s, version, kept);
    assert row.localVersion == version && version > flushed && version !in s.settled;
    InsertKeepsFlushing(last, s.monitor, s.settled, s.joined, flushed, row);
    var m := s.monitor.(heap := Insert(s.monitor.heap, row));
    var flushed' := FlushDelivers(last, m, s'.settled, s.joined, flushed);
    assert s'.monitor == Flush(m);
    FlushedAfterSettle(last, s', flushed');
  }

  lemma ReserveKeepsInv(last: int, s: System, rows: seq<Row>)
    requires Inv(last, s) && Enabled(s, Reserve(rows))
    ensures Inv(last, Apply(last, s, Reserve(rows)))
  {
    var s' := Apply(last, s, Reserve(rows));
    var reserved := ByVersion(s.next, rows);
    forall i ensures i in s'.settled || i in s'.outstanding <==> last < i < s'.next {
      assert i in s'.outstanding <==> i in s.outstanding || i in reserved;
    }
    forall i | i in s'.outstanding ensures s'.outstanding[i].localVersion == i && i !in s.settled {
      if i in reserved { assert i >= s.next; }
    }
    assert Rows(last, s');
  }

  lemma AddListenerKeepsInv(last: int, s: System, id: nat, keys: seq<string>, prefixes: seq<string>)
    requires Inv(last, s) && id !in s.joined
    ensures Inv(last, Apply(last, s, AddListener(id, keys, prefixes)))
  {
    var flushed := Flushed(last, s);
    assert Matching(s.settled, Listener(keys, prefixes, []), flushed, flushed) == [];
  }

  lemma StepKeepsInv(last: int, s: System, step: Step)
    requires Inv(last, s) && Enabled(s, step) && !Overtakes(last, s, step)
    ensures Inv(last, Apply(last, s, step))
  {
    match step
    case Settle(version, kept) => SettleKeepsInv(last, s, version, kept);
    case Reserve(rows) => ReserveKeepsInv(last, s, rows);
    case AddListener(id, keys, prefixes) => AddListenerKeepsInv(last, s, id, keys, prefixes);
    case RemoveListener(id) =>
  }

  lemma {:induction false} RunKeepsInv(last: int, s: System, steps: seq<Step>)
    requires Inv(last, s) && EnabledRun(last, s, steps) && !SomeOvertakes(last, s, steps)
    ensures Inv(last, Run(last, s, steps))
    decreases |steps|
  {
    if steps != [] {
      StepKeepsInv(last, s, steps[0]);
      RunKeepsInv(last, Apply(last, s, steps[0]), steps[1..]);
    }
  }

  // ----- What listeners see ---------------------------------------------------------------

  /** The rows of `Matching` are the wanted ones, once each, by increasing version. */
  lemma {:induction false} MatchingIsExact(settled: map<int, Row>, l: Listener, lo: int, hi: int)
    requires forall i :: i in settled ==> settled[i].localVersion == i
    ensures forall r :: r in Matching(settled, l, lo, hi) <==>
                          && lo < r.localVersion <= hi && r.localVersion in settled
                          && settled[r.localVersion] == r && Wanted(l, r)
    ensures StrictlySorted(Matching(settled, l, lo, hi))
    decreases hi - lo
  {
    if lo < hi {
      var before := Matching(settled, l, lo, hi - 1);
      MatchingIsExact(settled, l, lo, hi - 1);
      forall k | 0 <= k < |before| ensures before[k].localVersion < hi { assert before[k] in before; }
      if hi in settled && Wanted(l, settled[hi]) {
        var all := Matching(settled, l, lo, hi);
        assert all == before + [settled[hi]];
        forall r ensures r in all <==> r in before || r == settled[hi] { }
      }
    }
  }

  // ----- What the steps settled -------------------------------------------------------------

  ghost predicate WasReserved(steps: seq<Step>, r: Row) {
    exists i :: 0 <= i < |steps| && ReservedBy(steps[i], r)
  }

  predicate ReservedBy(step: Step, r: Row) { step.Reserve? && r in step.rows }

  /** Identifiers below `next` are outstanding or settled, and none is both. */
  ghost predicate Numbered(s: System) {
    && (forall v :: v in s.outstanding ==> v < s.next && v !in s.settled && s.outstanding[v].localVersion == v)
    && (forall v :: v in s.settled ==> v < s.next)
  }

  lemma StepKeepsNumbered(last: int, s: System, step: Step)
    requires Numbered(s) && Enabled(s, step)
    ensures Numbered(Apply(last, s, step))
  {
  }

  lemma {:induction false} SettledOnce(last: int, s: System, steps: seq<Step>, v: nat)
    requires Numbered(s) && EnabledRun(last, s, steps) && v < s.next && v !in s.outstanding
    ensures forall kept :: Settle(v, kept) !in steps
    ensures forall r: Row :: r.localVersion == v ==> !WasReserved(steps, r)
    ensures (v in Run(last, s, steps).settled <==> v in s.settled)
            && (v in s.settled ==> Run(last, s, steps).settled[v] == s.settled[v])
    decreases |steps|
  {
    if steps != [] {
      StepKeepsNumbered(last, s, steps[0]);
      SettledOnce(last, Apply(last, s, steps[0]), steps[1..], v);
      forall r: Row | r.localVersion == v ensures !WasReserved(steps, r) { ReservedFirstOrLater(steps, r); }
      assert forall step :: step in steps <==> step == steps[0] || step in steps[1..];
    }
  }

  lemma ReservedFirstOrLater(steps: seq<Step>, r: Row)
    requires steps != []
    ensures WasReserved(steps, r) <==> ReservedBy(steps[0], r) || WasReserved(steps[1..], r)
  {
    if WasReserved(steps[1..], r) {
      var i :| 0 <= i < |steps| - 1 && ReservedBy(steps[1..][i], r);
      assert ReservedBy(steps[i + 1], r);
    }
    if WasReserved(steps, r) && !ReservedBy(steps[0], r) {
      var i :| 0 <= i < |steps| && ReservedBy(steps[i], r);
      assert ReservedBy(steps[1..][i - 1], r);
    }
  }

  /** The row is waiting to be settled, or is reserved by one of the steps. */
  ghost predicate Comes(s: System, steps: seq<Step>, r: Row) {
    (r.localVersion in s.outstanding && s.outstanding[r.localVersion] == r) || WasReserved(steps, r)
  }

  /** What a run settles under an identifier is the reserved row when it is kept, and a discarded one otherwise. */
  lemma {:induction false} SettledStems(last: int, s: System, steps: seq<Step>, r: Row)
    requires Numbered(s) && EnabledRun(last, s, steps) && r.localVersion !in s.settled && r.key != ""
    ensures var t := Run(last, s, steps);
            r.localVersion in t.settled && t.settled[r.localVersion] == r <==>
            Settle(r.localVersion, true) in steps && Comes(s, steps, r)
    decreases |steps|
  {
    if steps != [] {
      var u := Apply(last, s, steps[0]);
      StepKeepsNumbered(last, s, steps[0]);
      ReservedFirstOrLater(steps, r);
      assert forall step :: step in steps <==> step == steps[0] || step in steps[1..];
      if steps[0].Settle? && steps[0].version == r.localVersion {
        SettledOnce(last, u, steps[1..], r.localVersion);
      } else {
        SettledStems(last, u, steps[1..], r);
        if steps[0].Reserve? { ReservedComes(last, s, steps[0].rows, r); }
      }
    }
  }

  lemma ReservedComes(last: int, s: System, rows: seq<Row>, r: Row)
    requires Numbered(s) && ContiguousFrom(s.next, rows)
    ensures var u := Apply(last, s, Reserve(rows));
            r.localVersion in u.outstanding && u.outstanding[r.localVersion] == r <==>
            (r.localVersion in s.outstanding && s.outstanding[r.localVersion] == r) || r in rows
  {
    if r in rows {
      var k :| 0 <= k < |rows| && rows[k] == r;
      assert r.localVersion == s.next + k;
    }
  }

  lemma {:induction false} JoinedWith(last: int, s: System, steps: seq<Step>, id: nat)
    requires EnabledRun(last, s, steps) && id in Run(last, s, steps).monitor.listeners
    ensures var l := Run(last, s, steps).monitor.listeners[id];
            || (id in s.monitor.listeners && SameFilters(s.monitor.listeners[id], l))
            || AddListener(id, l.keys, l.prefixes) in steps
    decreases |steps|
  {
    if steps != [] {
      var u := Apply(last, s, steps[0]);
      JoinedWith(last, u, steps[1..], id);
      if steps[0].Settle? { SubmitKeepsFilters(s.monitor, SettledRow(s, steps[0].version, steps[0].kept), id); }
    }
  }

  predicate SameFilters(a: Listener, b: Listener) { a.keys == b.keys && a.prefixes == b.prefixes }

  lemma {:induction false} FlushKeepsFilters(m: MonitorState, id: nat)
    ensures id in Flush(m).listeners <==> id in m.listeners
    ensures id in m.listeners ==> SameFilters(m.listeners[id], Flush(m).listeners[id])
    decreases |m.heap|
  {
    if CanFlush(m) { FlushKeepsFilters(FlushOne(m), id); }
  }

  lemma SubmitKeepsFilters(m: MonitorState, row: Row, id: nat)
    ensures id in Submit(m, row).listeners <==> id in m.listeners
    ensures id in m.listeners ==> SameFilters(m.listeners[id], Submit(m, row).listeners[id])
  {
    FlushKeepsFilters(m.(heap := Insert(m.heap, row)), id);
  }

  /**
    In every run over a store that was not empty, and in every run over an empty store that
    settles version 0 before version 1: each listener has received, once each and in order,
    exactly the rows that were reserved, stored and flushed since it joined and whose key is one of
    its keys or starts with one of its prefixes.
   */
  lemma ListenersGetEverything(last: int, steps: seq<Step>, id: nat)
    requires last >= -1 && EnabledRun(last, Start(last), steps)
    requires !SomeOvertakes(last, Start(last), steps)
    requires id in Run(last, Start(last), steps).monitor.listeners
    ensures var s := Run(last, Start(last), steps);
            var l := s.monitor.listeners[id];
            && id in s.joined && AddListener(id, l.keys, l.prefixes) in steps
            && StrictlySorted(l.received)
            && (forall r :: r in l.received <==>
                  && s.joined[id] < r.localVersion <= Flushed(last, s)
                  && WasReserved(steps, r) && Settle(r.localVersion, true) in steps && r.key != ""
                  && (|| (exists i :: 0 <= i < |l.keys| && l.keys[i] == r.key)
                      || (exists i :: 0 <= i < |l.prefixes| && |l.prefixes[i]| <= |r.key|
                            && r.key[..|l.prefixes[i]|] == l.prefixes[i])))
  {
    ReceivedExactly(last, steps, id);
    JoinedWith(last, Start(last), steps, id);
    var l := Run(last, Start(last), steps).monitor.listeners[id];
    forall r: Row | r.key != "" { SettledStems(last, Start(last), steps, r); }
    forall r: Row { ListeningMeaning(l, r); }
  }

  /** A discarded identifier reaches nobody, whatever its row was and in whatever order the steps came. */
  lemma DiscardedReachNobody(last: int, steps: seq<Step>, id: nat, v: nat)
    requires last >= -1 && EnabledRun(last, Start(last), steps) && Settle(v, false) in steps
    requires id in Run(last, Start(last), steps).monitor.listeners
    ensures forall r :: r in Run(last, Start(last), steps).monitor.listeners[id].received ==> r.localVersion != v
  {
    var s := Run(last, Start(last), steps);
    forall r | r in s.monitor.listeners[id].received ensures r.localVersion != v {
      if last < 0 && SomeOvertakes(last, Start(last), steps) {
        OvertakenReceivedExactly(steps, id);
      } else {
        if last >= 0 { NeverOvertaken(last, Start(last), steps); }
        ReceivedExactly(last, steps, id);
      }
      SettledStems(last, Start(last), steps, r);
      SettledTwice(last, Start(last), steps, v);
    }
  }

  lemma {:induction false} NeverOvertaken(last: int, s: System, steps: seq<Step>)
    requires last >= 0 && EnabledRun(last, s, steps)
    ensures !SomeOvertakes(last, s, steps)
    decreases |steps|
  {
    if steps != [] { NeverOvertaken(last, Apply(last, s, steps[0]), steps[1..]); }
  }

  /** An identifier is not both kept and discarded. */
  lemma {:induction false} SettledTwice(last: int, s: System, steps: seq<Step>, v: nat)
    requires Numbered(s) && EnabledRun(last, s, steps)
    ensures !(Settle(v, true) in steps && Settle(v, false) in steps)
    decreases |steps|
  {
    if steps != [] {
      var u := Apply(last, s, steps[0]);
      StepKeepsNumbered(last, s, steps[0]);
      assert forall step :: step in steps <==> step == steps[0] || step in steps[1..];
      SettledTwice(last, u, steps[1..], v);
      if steps[0].Settle? && steps[0].version == v { SettledOnce(last, u, steps[1..], v); }
    }
  }

  /** The same in terms of the rows settled. */
  lemma ReceivedExactly(last: int, steps: seq<Step>, id: nat)
    requires last >= -1 && EnabledRun(last, Start(last), steps)
    requires !SomeOvertakes(last, Start(last), steps)
    requires id in Run(last, Start(last), steps).monitor.listeners
    ensures var s := Run(last, Start(last), steps);
            var l := s.monitor.listeners[id];
            && id in s.joined
            && StrictlySorted(l.received)
            && (forall r :: r in l.received <==>
                  && s.joined[id] < r.localVersion <= Flushed(last, s) && r.localVersion in s.settled
                  && s.settled[r.localVersion] == r && Wanted(l, r))
  {
    StartIsInv(last);
    RunKeepsInv(last, Start(last), steps);
    var s := Run(last, Start(last), steps);
    MatchingIsExact(s.settled, s.monitor.listeners[id], s.joined[id], Flushed(last, s));
  }

  /** Nothing below the lowest outstanding identifier is held back. */
  lemma NothingIsHeldBack(last: int, steps: seq<Step>, low: int)
    requires last >= -1 && EnabledRun(last, Start(last), steps)
    requires !SomeOvertakes(last, Start(last), steps)
    requires var s := Run(last, Start(last), steps);
             last < low <= s.next && forall i :: i in s.outstanding ==> low <= i
    ensures Flushed(last, Run(last, Start(last), steps)) >= low - 1
  {
    StartIsInv(last);
    RunKeepsInv(last, Start(last), steps);
    var s := Run(last, Start(last), steps);
    var missing := Flushed(last, s) + 1;
    assert last < missing < s.next ==> missing in s.settled || missing in s.outstanding;
  }

  // ----- The first update of an empty store -----------------------------------------------

  ghost predicate NoVersionZero(rows: seq<Row>) {
    forall r :: r in rows ==> r.localVersion != 0
  }

  /** Version 0 has not been sent and can no longer be accepted. */
  ghost predicate ZeroIsLost(m: MonitorState) {
    && m.previous >= 1
    && NoVersionZero(m.heap)
    && forall id :: id in m.listeners ==> NoVersionZero(m.listeners[id].received)
  }

  lemma {:induction false} FlushLosesZero(m: MonitorState)
    requires ZeroIsLost(m)
    ensures ZeroIsLost(Flush(m))
    decreases |m.heap|
  {
    if CanFlush(m) {
      assert m.heap[0] in m.heap;
      FlushLosesZero(FlushOne(m));
    }
  }

  lemma SubmitLosesZero(m: MonitorState, row: Row)
    requires ZeroIsLost(m)
    ensures ZeroIsLost(Submit(m, row))
  {
    if row.localVersion > m.previous {
      forall r ensures r in Insert(m.heap, row) <==> r in m.heap || r == row { InsertAdds(m.heap, row, r); }
      FlushLosesZero(m.(heap := Insert(m.heap, row)));
    }
  }

  lemma {:induction false} NothingMatchesBelowZero(settled: map<int, Row>, l: Listener, lo: int, hi: int)
    requires hi < 0 && forall i :: i in settled ==> i >= 0
    ensures Matching(settled, l, lo, hi) == []
    decreases hi - lo
  {
    if lo < hi { NothingMatchesBelowZero(settled, l, lo, hi - 1); }
  }

  /** Before version 0 nothing has been delivered and the heap holds only larger versions. */
  lemma BeforeVersionZero(s: System)
    requires Inv(-1, s) && 0 !in s.settled
    ensures s.monitor.previous == 0 && NoVersionZero(s.monitor.heap)
    ensures forall id :: id in s.monitor.listeners ==> s.monitor.listeners[id].received == []
  {
    forall id | id in s.monitor.listeners ensures s.monitor.listeners[id].received == [] {
      var l := s.monitor.listeners[id];
      NothingMatchesBelowZero(s.settled, l, s.joined[id], -1);
    }
  }

  lemma HeadAfterInsertingOne(heap: seq<Row>, row: Row)
    requires StrictlySorted(heap) && NoVersionZero(heap) && row.localVersion == 1
    requires forall r :: r in heap ==> r.localVersion != 1
    ensures var h := Insert(heap, row); NoVersionZero(h) && h != [] && h[0] == row
  {
    var h := Insert(heap, row);
    forall r ensures r in h <==> r in heap || r == row { InsertAdds(heap, row, r); }
    if heap != [] { assert heap[0] in heap; }
  }

  /** Version 1 leaves the heap although version 0 has not been seen. */
  lemma OvertakingLosesZero(s: System, step: Step)
    requires Inv(-1, s) && Enabled(s, step) && Overtakes(-1, s, step)
    ensures ZeroIsLost(Apply(-1, s, step).monitor)
  {
    var row := SettledRow(s, 1, step.kept);
    BeforeVersionZero(s);
    HeadAfterInsertingOne(s.monitor.heap, row);
    var m := s.monitor.(heap := Insert(s.monitor.heap, row));
    assert ZeroIsLost(FlushOne(m));
    FlushLosesZero(FlushOne(m));
    assert Flush(m) == Flush(FlushOne(m));
  }

  lemma {:induction false} LostZeroStaysLost(s: System, steps: seq<Step>)
    requires ZeroIsLost(s.monitor) && EnabledRun(-1, s, steps)
    ensures ZeroIsLost(Run(-1, s, steps).monitor)
    decreases |steps|
  {
    if steps != [] {
      if steps[0].Settle? { SubmitLosesZero(s.monitor, SettledRow(s, steps[0].version, steps[0].kept)); }
      LostZeroStaysLost(Apply(-1, s, steps[0]), steps[1..]);
    }
  }

  lemma {:induction false} OvertakenRunLosesZero(s: System, steps: seq<Step>)
    requires Inv(-1, s) && EnabledRun(-1, s, steps) && SomeOvertakes(-1, s, steps)
    ensures ZeroIsLost(Run(-1, s, steps).monitor)
    decreases |steps|
  {
    if Overtakes(-1, s, steps[0]) {
      OvertakingLosesZero(s, steps[0]);
      LostZeroStaysLost(Apply(-1, s, steps[0]), steps[1..]);
    } else {
      StepKeepsInv(-1, s, steps[0]);
      OvertakenRunLosesZero(Apply(-1, s, steps[0]), steps[1..]);
    }
  }

  /**
    A listener present from the start over an empty store receives the very first row exactly
    when version 0 is settled before version 1.
   */
  lemma FirstRowOfAnEmptyStore(steps: seq<Step>, id: nat)
    requires EnabledRun(-1, Start(-1), steps)
    requires var s := Run(-1, Start(-1), steps);
             && id in s.monitor.listeners && id in s.joined && s.joined[id] == -1
             && 0 in s.settled && s.settled[0].localVersion == 0 && Wanted(s.monitor.listeners[id], s.settled[0])
    ensures var s := Run(-1, Start(-1), steps);
            s.settled[0] in s.monitor.listeners[id].received <==> !SomeOvertakes(-1, Start(-1), steps)
  {
    StartIsInv(-1);
    if SomeOvertakes(-1, Start(-1), steps) {
      OvertakenRunLosesZero(Start(-1), steps);
    } else {
      ReceivedExactly(-1, steps, id);
    }
  }

  // ----- The other updates of an empty store ----------------------------------------------

  /** The system as it would be over a store whose row 0 is already used. */
  function WithoutZero(s: System): System {
    s.(outstanding := s.outstanding - {0}, settled := s.settled - {0},
       joined := map id | id in s.joined :: if s.joined[id] < 0 then 0 else s.joined[id])
  }

  /** When version 1 overtakes version 0, the monitor goes on as if version 0 had been used before. */
  lemma OvertakingIsWithoutZero(s: System, step: Step)
    requires Inv(-1, s) && Enabled(s, step) && Overtakes(-1, s, step)
    ensures Inv(0, WithoutZero(s))
  {
    BeforeVersionZero(s);
    var t := WithoutZero(s);
    assert t.settled == s.settled && 1 in s.outstanding;
    forall id | id in s.monitor.listeners
      ensures s.monitor.listeners[id].received == Matching(t.settled, s.monitor.listeners[id], t.joined[id], 0)
    {
      assert t.joined[id] == 0;
    }
  }

  /** The late row 0 is dropped. */
  lemma ZeroIsDropped(s: System, kept: bool)
    requires 0 in s.outstanding && s.outstanding[0].localVersion == 0 && s.monitor.previous >= 1
    ensures WithoutZero(Apply(-1, s, Settle(0, kept))) == WithoutZero(s)
  {
    var after := Apply(-1, s, Settle(0, kept));
    assert after.monitor == s.monitor;
    assert after.settled - {0} == s.settled - {0} && after.outstanding - {0} == s.outstanding - {0};
  }

  lemma SettleWithoutZero(s: System, version: nat, kept: bool)
    requires version in s.outstanding && version != 0
    ensures version in WithoutZero(s).outstanding
    ensures WithoutZero(Apply(-1, s, Settle(version, kept))) == Apply(0, WithoutZero(s), Settle(version, kept))
  {
    var t, after := WithoutZero(s), Apply(-1, s, Settle(version, kept));
    var row := SettledRow(s, version, kept);
    assert row == SettledRow(t, version, kept);
    assert after.settled - {0} == t.settled[version := row];
    assert after.outstanding - {0} == t.outstanding - {version};
  }

  lemma ReserveWithoutZero(s: System, rows: seq<Row>)
    requires s.next > 0 && ContiguousFrom(s.next, rows)
    ensures WithoutZero(Apply(-1, s, Reserve(rows))) == Apply(0, WithoutZero(s), Reserve(rows))
  {
    var reserved := ByVersion(s.next, rows);
    assert (s.outstanding + reserved) - {0} == (s.outstanding - {0}) + reserved;
  }

  lemma JoinWithoutZero(s: System, id: nat, keys: seq<string>, prefixes: seq<string>)
    requires id !in s.joined && s.monitor.previous >= 1
    ensures WithoutZero(Apply(-1, s, AddListener(id, keys, prefixes))) ==
        Apply(0, WithoutZero(s), AddListener(id, keys, prefixes))
  {
    var after := Apply(-1, s, AddListener(id, keys, prefixes));
    assert WithoutZero(after).joined == WithoutZero(s).joined[id := s.monitor.previous];
  }

  lemma StepWithoutZero(s: System, step: Step)
    requires Inv(0, WithoutZero(s)) && Enabled(s, step) && (0 in s.outstanding ==> s.outstanding[0].localVersion == 0)
    requires s.monitor.previous >= 1 || (step.Settle? && step.version != 0)
    ensures Inv(0, WithoutZero(Apply(-1, s, step)))
  {
    match step
    case Reserve(rows) =>
      ReserveWithoutZero(s, rows);
      ReserveKeepsInv(0, WithoutZero(s), rows);
    case Settle(version, kept) =>
      if version == 0 {
        ZeroIsDropped(s, kept);
      } else {
        SettleWithoutZero(s, version, kept);
        SettleKeepsInv(0, WithoutZero(s), version, kept);
      }
    case AddListener(id, keys, prefixes) =>
      JoinWithoutZero(s, id, keys, prefixes);
      AddListenerKeepsInv(0, WithoutZero(s), id, keys, prefixes);
    case RemoveListener(id) =>
      assert WithoutZero(Apply(-1, s, step)) == Apply(0, WithoutZero(s), step);
      StepKeepsInv(0, WithoutZero(s), step);
  }

  /** Reserved rows keep their identifiers. */
  ghost predicate ZeroIsNumbered(s: System) {
    s.next > 0 && (0 in s.outstanding ==> s.outstanding[0].localVersion == 0)
  }

  lemma StepKeepsNumber(s: System, step: Step)
    requires ZeroIsNumbered(s) && Enabled(s, step)
    ensures ZeroIsNumbered(Apply(-1, s, step))
  {
  }

  lemma {:induction false} RunWithoutZero(s: System, steps: seq<Step>)
    requires Inv(0, WithoutZero(s)) && ZeroIsLost(s.monitor) && ZeroIsNumbered(s) && EnabledRun(-1, s, steps)
    ensures Inv(0, WithoutZero(Run(-1, s, steps)))
    decreases |steps|
  {
    if steps != [] {
      StepKeepsNumber(s, steps[0]);
      StepWithoutZero(s, steps[0]);
      if steps[0].Settle? { SubmitLosesZero(s.monitor, SettledRow(s, steps[0].version, steps[0].kept)); }
      RunWithoutZero(Apply(-1, s, steps[0]), steps[1..]);
    }
  }

  lemma {:induction false} OvertakenRunWithoutZero(s: System, steps: seq<Step>)
    requires Inv(-1, s) && EnabledRun(-1, s, steps) && SomeOvertakes(-1, s, steps)
    ensures Inv(0, WithoutZero(Run(-1, s, steps)))
    decreases |steps|
  {
    if Overtakes(-1, s, steps[0]) {
      OvertakingIsWithoutZero(s, steps[0]);
      StepWithoutZero(s, steps[0]);
      StepKeepsNumber(s, steps[0]);
      OvertakingLosesZero(s, steps[0]);
      RunWithoutZero(Apply(-1, s, steps[0]), steps[1..]);
    } else {
      StepKeepsInv(-1, s, steps[0]);
      OvertakenRunWithoutZero(Apply(-1, s, steps[0]), steps[1..]);
    }
  }

  /**
    When version 1 overtakes version 0, each listener still receives exactly its other rows, once
    each and in order, up to the version flushed last.
   */
  lemma OvertakenListenersGetTheRest(steps: seq<Step>, id: nat)
    requires EnabledRun(-1, Start(-1), steps) && SomeOvertakes(-1, Start(-1), steps)
    requires id in Run(-1, Start(-1), steps).monitor.listeners
    ensures var s := Run(-1, Start(-1), steps);
            var l := s.monitor.listeners[id];
            && id in s.joined && AddListener(id, l.keys, l.prefixes) in steps
            && StrictlySorted(l.received)
            && (forall r :: r in l.received <==>
                  && s.joined[id] < r.localVersion <= s.monitor.previous && r.localVersion != 0
                  && WasReserved(steps, r) && Settle(r.localVersion, true) in steps && r.key != ""
                  && (|| (exists i :: 0 <= i < |l.keys| && l.keys[i] == r.key)
                      || (exists i :: 0 <= i < |l.prefixes| && |l.prefixes[i]| <= |r.key|
                            && r.key[..|l.prefixes[i]|] == l.prefixes[i])))
  {
    OvertakenReceivedExactly(steps, id);
    JoinedWith(-1, Start(-1), steps, id);
    var l := Run(-1, Start(-1), steps).monitor.listeners[id];
    forall r: Row | r.key != "" { SettledStems(-1, Start(-1), steps, r); }
    forall r: Row { ListeningMeaning(l, r); }
  }

  /** The same in terms of the rows settled. */
  lemma OvertakenReceivedExactly(steps: seq<Step>, id: nat)
    requires EnabledRun(-1, Start(-1), steps) && SomeOvertakes(-1, Start(-1), steps)
    requires id in Run(-1, Start(-1), steps).monitor.listeners
    ensures var s := Run(-1, Start(-1), steps);
            var l := s.monitor.listeners[id];
            && id in s.joined
            && StrictlySorted(l.received)
            && (forall r :: r in l.received <==>
                  && s.joined[id] < r.localVersion <= s.monitor.previous && r.localVersion != 0
                  && r.localVersion in s.settled && s.settled[r.localVersion] == r && Wanted(l, r))
  {
    StartIsInv(-1);
    OvertakenRunWithoutZero(Start(-1), steps);
    var s := Run(-1, Start(-1), steps);
    var t := WithoutZero(s);
    MatchingIsExact(t.settled, s.monitor.listeners[id], t.joined[id], s.monitor.previous);
  }

  const FIRST: Row := Row("a", 0, {})
  const SECOND: Row := Row("b", 1, {})

  /** Two batches of one row each; the second is settled first. */
  const OVERTAKING: seq<Step> :=
    [AddListener(0, ["a"], []), Reserve([FIRST]), Reserve([SECOND]), Settle(1, true), Settle(0, true)]

  /** A run that loses the first row: the listener was there from the start and wants it. */
  lemma VersionOneCanOvertake()
    ensures EnabledRun(-1, Start(-1), OVERTAKING) && SomeOvertakes(-1, Start(-1), OVERTAKING)
    ensures var s := Run(-1, Start(-1), OVERTAKING);
            && 0 in s.settled && s.settled[0] == FIRST && 0 in s.monitor.listeners
            && Wanted(s.monitor.listeners[0], s.settled[0])
            && s.monitor.listeners[0].received == []
  {
    var s1 := Apply(-1, Start(-1), OVERTAKING[0]);
    var s2 := Apply(-1, s1, Reserve([FIRST]));
    var s3 := Apply(-1, s2, Reserve([SECOND]));
    assert s3.outstanding[0] == FIRST && s3.outstanding[1] == SECOND;
    var s4 := Apply(-1, s3, Settle(1, true));
    OneRowIsFlushed(s3.monitor, SECOND);
    var s5 := Apply(-1, s4, Settle(0, true));
    assert s5.monitor == s4.monitor && s5.settled[0] == FIRST;
    assert ListeningFor(s5.monitor.listeners[0], FIRST);
    FiveSteps(Start(-1), OVERTAKING, s1, s2, s3, s4, s5);
  }

  lemma FiveSteps(s0: System, steps: seq<Step>, s1: System, s2: System, s3: System, s4: System, s5: System)
    requires |steps| == 5 && Enabled(s0, steps[0]) && s1 == Apply(-1, s0, steps[0])
    requires Enabled(s1, steps[1]) && s2 == Apply(-1, s1, steps[1])
    requires Enabled(s2, steps[2]) && s3 == Apply(-1, s2, steps[2])
    requires Enabled(s3, steps[3]) && s4 == Apply(-1, s3, steps[3]) && Overtakes(-1, s3, steps[3])
    requires Enabled(s4, steps[4]) && s5 == Apply(-1, s4, steps[4])
    ensures EnabledRun(-1, s0, steps) && SomeOvertakes(-1, s0, steps) && Run(-1, s0, steps) == s5
  {
    var r1, r2, r3, r4 := steps[1..], steps[2..], steps[3..], steps[4..];
    assert r1[1..] == r2 && r2[1..] == r3 && r3[1..] == r4 && r4[1..] == [];
    assert EnabledRun(-1, s5, []) && Run(-1, s5, []) == s5;
    assert EnabledRun(-1, s4, r4) && Run(-1, s4, r4) == Run(-1, s5, r4[1..]) == s5;
    assert EnabledRun(-1, s3, r3) && Run(-1, s3, r3) == s5 && SomeOvertakes(-1, s3, r3);
    assert EnabledRun(-1, s2, r2) && Run(-1, s2, r2) == s5 && SomeOvertakes(-1, s2, r2);
    assert EnabledRun(-1, s1, r1) && Run(-1, s1, r1) == s5 && SomeOvertakes(-1, s1, r1);
  }
}
