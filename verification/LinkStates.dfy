/**
  The link-state table of a node (src/core/router.js): which neighbours every node last
  announced, and the digest, diff and merge exchange that spreads the announcements.
 */
module LinkStates {

  datatype Entry = Entry(neighbors: set<string>, sequenceNumber: nat)

  type Table = map<string, Entry>

  type Digest = map<string, nat>

  // ----- What the exchange computes -------------------------------------------------------

  predicate Newer(mine: Table, theirs: Table, n: string) {
    n in theirs && (n !in mine || mine[n].sequenceNumber < theirs[n].sequenceNumber)
  }

  function Merged(mine: Table, theirs: Table): Table {
    map n | n in mine.Keys + theirs.Keys :: if Newer(mine, theirs, n) then theirs[n] else mine[n]
  }

  function Changes(mine: Table, theirs: Table): Table {
    map n | n in theirs && Newer(mine, theirs, n) :: theirs[n]
  }

  function DigestOf(table: Table): Digest {
    map n | n in table :: table[n].sequenceNumber
  }

  function Unseen(table: Table, digest: Digest): Table {
    map n | n in table && (n !in digest || table[n].sequenceNumber > digest[n]) :: table[n]
  }

  // ----- Laws of the exchange -------------------------------------------------------------

  /** Merging the diff of a digest is merging the whole table. */
  lemma DiffIsEnough(mine: Table, theirs: Table)
    ensures Merged(mine, Unseen(theirs, DigestOf(mine))) == Merged(mine, theirs)
    ensures Unseen(theirs, DigestOf(mine)) == Changes(mine, theirs)
  {
    assert forall n :: Newer(mine, Unseen(theirs, DigestOf(mine)), n) <==> Newer(mine, theirs, n);
  }

  /** Equal sequence numbers of a node mean equal neighbours. */
  ghost predicate Compatible(a: Table, b: Table) {
    forall n :: n in a && n in b && a[n].sequenceNumber == b[n].sequenceNumber ==> a[n] == b[n]
  }

  /** The newest entry of each node on either side. */
  ghost predicate IsNewest(a: Table, b: Table, c: Table) {
    && c.Keys == a.Keys + b.Keys
    && (forall n :: n in c ==> (n in a && c[n] == a[n]) || (n in b && c[n] == b[n]))
    && (forall n :: n in a ==> a[n].sequenceNumber <= c[n].sequenceNumber)
    && (forall n :: n in b ==> b[n].sequenceNumber <= c[n].sequenceNumber)
  }

  lemma MergedIsNewest(a: Table, b: Table)
    ensures IsNewest(a, b, Merged(a, b))
  {
  }

  lemma MergingCommutes(a: Table, b: Table)
    ensures Merged(a, b) == Merged(b, a) <==> Compatible(a, b)
  {
    var left, right := Merged(a, b), Merged(b, a);
    if Compatible(a, b) {
      assert left.Keys == right.Keys;
      forall n | n in left ensures left[n] == right[n] { }
    } else {
      var n :| n in a && n in b && a[n].sequenceNumber == b[n].sequenceNumber && a[n] != b[n];
      assert left[n] == a[n] && right[n] == b[n];
    }
  }

  /**
    A two-way exchange, each side sending the diff of the other's digest, leaves both with the
    newest entries; the tables are equal exactly when equal sequence numbers meant equal
    neighbours before.
   */
  lemma TwoWayExchange(a: Table, b: Table)
    ensures IsNewest(a, b, Merged(a, Unseen(b, DigestOf(a)))) && IsNewest(b, a, Merged(b, Unseen(a, DigestOf(b))))
    ensures Merged(a, Unseen(b, DigestOf(a))) == Merged(b, Unseen(a, DigestOf(b))) <==> Compatible(a, b)
  {
    DiffIsEnough(a, b);
    DiffIsEnough(b, a);
    MergedIsNewest(a, b);
    MergedIsNewest(b, a);
    MergingCommutes(a, b);
  }

  /** Merging is associative, so announcements can be batched and passed on. */
  lemma MergingIsAssociative(a: Table, b: Table, c: Table)
    ensures Merged(Merged(a, b), c) == Merged(a, Merged(b, c))
  {
    var left, right := Merged(Merged(a, b), c), Merged(a, Merged(b, c));
    assert left.Keys == right.Keys;
    forall n | n in left ensures left[n] == right[n] { }
  }

  /** A repeated announcement changes nothing. */
  lemma MergingAgainChangesNothing(a: Table, b: Table)
    ensures Merged(Merged(a, b), b) == Merged(a, b) && Changes(Merged(a, b), b) == map[]
  {
  }

  // ----- The object -----------------------------------------------------------------------

  class LinkStateTable {
    const nodeID: string
    var linkStateTable: Table

    constructor (nodeID: string)
      ensures this.nodeID == nodeID && linkStateTable == map[nodeID := Entry({}, 0)]
    {
      this.nodeID := nodeID;
      linkStateTable := map[nodeID := Entry({}, 0)];
    }

    /** One neighbour more, under the next sequence number. */
    method LinkUp(neighborID: string)
      requires nodeID in linkStateTable
      modifies this
      ensures linkStateTable == WithLink(old(linkStateTable), nodeID, neighborID, true)
      ensures linkStateTable.Keys == old(linkStateTable).Keys
      ensures linkStateTable[nodeID].neighbors == old(linkStateTable)[nodeID].neighbors + {neighborID}
      ensures linkStateTable[nodeID].sequenceNumber == old(linkStateTable)[nodeID].sequenceNumber + 1
      ensures forall n :: n in linkStateTable && n != nodeID ==> linkStateTable[n] == old(linkStateTable)[n]
    {
      linkStateTable := linkStateTable[nodeID :=
          linkStateTable[nodeID].(neighbors := linkStateTable[nodeID].neighbors + {neighborID})];
      linkStateTable := linkStateTable[nodeID :=
          linkStateTable[nodeID].(sequenceNumber := linkStateTable[nodeID].sequenceNumber + 1)];
    }

    /** One neighbour less, under the next sequence number. */
    method LinkDown(neighborID: string)
      requires nodeID in linkStateTable
      modifies this
      ensures linkStateTable == WithLink(old(linkStateTable), nodeID, neighborID, false)
      ensures linkStateTable.Keys == old(linkStateTable).Keys
      ensures linkStateTable[nodeID].neighbors == old(linkStateTable)[nodeID].neighbors - {neighborID}
      ensures linkStateTable[nodeID].sequenceNumber == old(linkStateTable)[nodeID].sequenceNumber + 1
      ensures forall n :: n in linkStateTable && n != nodeID ==> linkStateTable[n] == old(linkStateTable)[n]
    {
      linkStateTable := linkStateTable[nodeID :=
          linkStateTable[nodeID].(neighbors := linkStateTable[nodeID].neighbors - {neighborID})];
      linkStateTable := linkStateTable[nodeID :=
          linkStateTable[nodeID].(sequenceNumber := linkStateTable[nodeID].sequenceNumber + 1)];
    }

    /** Takes over what is newer and returns it, so that it can be passed on. */
    method Merge(diffTable: Table) returns (changeTable: Table)
      modifies this
      ensures linkStateTable == Merged(old(linkStateTable), diffTable)
      ensures changeTable == Changes(old(linkStateTable), diffTable)
    {
      changeTable := map[];
      var todo := diffTable.Keys;
      while todo != {}
        invariant todo <= diffTable.Keys
        invariant linkStateTable.Keys == old(linkStateTable).Keys + (diffTable.Keys - todo)
        invariant forall n :: n in linkStateTable ==>
          linkStateTable[n] ==
          if n !in todo && Newer(old(linkStateTable), diffTable, n) then diffTable[n] else old(linkStateTable)[n]
        invariant forall n :: n in changeTable <==>
            n in diffTable && n !in todo && Newer(old(linkStateTable), diffTable, n)
        invariant forall n :: n in changeTable ==> changeTable[n] == diffTable[n]
        decreases todo
      {
        var n :| n in todo;
        todo := todo - {n};
        if n !in linkStateTable || linkStateTable[n].sequenceNumber < diffTable[n].sequenceNumber {
          linkStateTable := linkStateTable[n := diffTable[n]];
          changeTable := changeTable[n := Entry(linkStateTable[n].neighbors, linkStateTable[n].sequenceNumber)];
        }
      }
    }

    method Diff(theirDigest: Digest) returns (diffTable: Table)
      ensures diffTable == Unseen(linkStateTable, theirDigest)
    {
      diffTable := map[];
      var todo := theirDigest.Keys;
      while todo != {}
        invariant todo <= theirDigest.Keys
        invariant forall n :: n in diffTable <==>
          n in theirDigest && n !in todo && n in linkStateTable && linkStateTable[n].sequenceNumber > theirDigest[n]
        invariant forall n :: n in diffTable ==> diffTable[n] == linkStateTable[n]
        decreases todo
      {
        var n :| n in todo;
        todo := todo - {n};
        var theirSequenceNumber := theirDigest[n];
        if n in linkStateTable && linkStateTable[n].sequenceNumber > theirSequenceNumber {
          diffTable := diffTable[n := linkStateTable[n]];
        }
      }
      ghost var newer := diffTable;
      todo := linkStateTable.Keys;
      while todo != {}
        invariant todo <= linkStateTable.Keys
        invariant forall n :: n in diffTable <==> n in newer || (n in linkStateTable && n !in todo && n !in theirDigest)
        invariant forall n :: n in diffTable ==> n in linkStateTable && diffTable[n] == linkStateTable[n]
        decreases todo
      {
        var n :| n in todo;
        todo := todo - {n};
        if n !in theirDigest {
          diffTable := diffTable[n := linkStateTable[n]];
        }
      }
    }

    method GetDigest() returns (digest: Digest)
      ensures digest == DigestOf(linkStateTable)
    {
      digest := map[];
      var todo := linkStateTable.Keys;
      while todo != {}
        invariant todo <= linkStateTable.Keys && digest.Keys == linkStateTable.Keys - todo
        invariant forall n :: n in digest ==> digest[n] == linkStateTable[n].sequenceNumber
        decreases todo
      {
        var n :| n in todo;
        todo := todo - {n};
        digest := digest[n := linkStateTable[n].sequenceNumber];
      }
    }
  }

  function WithLink(table: Table, n: string, neighbor: string, up: bool): Table
    requires n in table
  {
    var neighbors := if up then table[n].neighbors + {neighbor} else table[n].neighbors - {neighbor};
    table[n := Entry(neighbors, table[n].sequenceNumber + 1)]
  }

  // ----- Runs -----------------------------------------------------------------------------

  /** What every node announced about itself, in order; version `k` carries sequence number `k`. */
  type History = map<string, seq<set<string>>>

  /** Every node's table, every part of a table that was ever put in a message, and the history. */
  datatype System = System(tables: map<string, Copy>, messages: set<Copy>, announced: History)

  datatype Copy = Copy(table: Table)

  datatype Step =
    | Link(node: string, neighbor: string, up: bool)
    | Send(node: string, message: Copy)
    | Receive(node: string, message: Copy)

  ghost predicate PartOf(part: Table, table: Table) {
    forall n :: n in part ==> n in table && part[n] == table[n]
  }

  ghost predicate Init(s: System) {
    && s.messages == {}
    && (forall n :: n in s.tables ==>
        n in s.announced && s.tables[n] == Copy(map[n := Entry({}, 0)]) && s.announced[n] == [{}])
  }

  ghost function AfterLink(s: System, n: string, m: string, up: bool): System
    requires n in s.tables && n in s.tables[n].table && n in s.announced
  {
    var table := WithLink(s.tables[n].table, n, m, up);
    s.(tables := s.tables[n := Copy(table)], announced := s.announced[n := s.announced[n] + [table[n].neighbors]])
  }

  /** A message is a part of the sender's table: a diff, the changes of a merge, or all of it. */
  ghost predicate Next(s: System, t: System, step: Step) {
    match step
    case Link(n, m, up) => n in s.tables && n in s.tables[n].table && n in s.announced && t == AfterLink(s, n, m, up)
    case Send(n, message) =>
      n in s.tables && PartOf(message.table, s.tables[n].table) && t == s.(messages := s.messages + {message})
    case Receive(n, message) =>
      n in s.tables && message in s.messages
          && t == s.(tables := s.tables[n := Copy(Merged(s.tables[n].table, message.table))])
  }

  /** Every entry is the announcement its sequence number names. */
  ghost predicate Faithful(table: Table, announced: History) {
    forall n :: n in table ==>
      n in announced && table[n].sequenceNumber < |announced[n]|
          && table[n].neighbors == announced[n][table[n].sequenceNumber]
  }

  ghost predicate KnowsItself(s: System, n: string)
    requires n in s.tables
  {
    n in s.tables[n].table && n in s.announced && s.tables[n].table[n].sequenceNumber == |s.announced[n]| - 1
  }

  ghost predicate Sound(s: System, n: string)
    requires n in s.tables
  {
    KnowsItself(s, n) && Faithful(s.tables[n].table, s.announced)
  }

  ghost predicate Inv(s: System) {
    && (forall n :: n in s.tables ==> Sound(s, n))
    && (forall a :: a in s.messages ==> Faithful(a.table, s.announced))
  }

  ghost predicate Linked(run: seq<System>, steps: seq<Step>, i: nat)
    requires i < |steps| < |run|
  {
    Next(run[i], run[i + 1], steps[i])
  }

  ghost predicate IsRun(run: seq<System>, steps: seq<Step>) {
    |run| == |steps| + 1 && Init(run[0]) && forall i: nat :: i < |steps| ==> Linked(run, steps, i)
  }

  lemma FaithfulTablesAgree(a: Table, b: Table, announced: History)
    requires Faithful(a, announced) && Faithful(b, announced)
    ensures Compatible(a, b)
  {
  }

  /** One more announcement changes nothing for the tables that exist. */
  lemma StillFaithful(table: Table, announced: History, n: string, neighbors: set<string>)
    requires Faithful(table, announced) && n in announced
    ensures Faithful(table, announced[n := announced[n] + [neighbors]])
  {
  }

  lemma NextAnnouncement(table: Table, announced: History, n: string, m: string, up: bool)
    requires Faithful(table, announced) && n in table && n in announced && table[n].sequenceNumber == |announced[n]| - 1
    ensures var after := WithLink(table, n, m, up);
            Faithful(after, announced[n := announced[n] + [after[n].neighbors]])
  {
    var after := WithLink(table, n, m, up);
    StillFaithful(table, announced, n, after[n].neighbors);
  }

  lemma PartIsFaithful(part: Table, table: Table, announced: History)
    requires PartOf(part, table) && Faithful(table, announced)
    ensures Faithful(part, announced)
  {
    forall n | n in part
      ensures n in announced && part[n].sequenceNumber < |announced[n]|
          && part[n].neighbors == announced[n][part[n].sequenceNumber]
    {
      assert n in table && part[n] == table[n];
    }
  }

  lemma MergedIsFaithful(a: Table, b: Table, announced: History)
    requires Faithful(a, announced) && Faithful(b, announced)
    ensures Faithful(Merged(a, b), announced)
  {
  }

  lemma LinkKeepsSound(s: System, n: string, m: string, up: bool, k: string)
    requires n in s.tables && k in s.tables && Sound(s, n) && Sound(s, k)
    ensures Sound(AfterLink(s, n, m, up), k)
  {
    var t := AfterLink(s, n, m, up);
    if k == n {
      NextAnnouncement(s.tables[n].table, s.announced, n, m, up);
    } else {
      StillFaithful(s.tables[k].table, s.announced, n, t.tables[n].table[n].neighbors);
    }
  }

  lemma LinkKeepsInv(s: System, n: string, m: string, up: bool)
    requires Inv(s) && n in s.tables
    ensures n in s.tables[n].table && n in s.announced && Inv(AfterLink(s, n, m, up))
  {
    assert Sound(s, n);
    var t := AfterLink(s, n, m, up);
    forall k | k in t.tables ensures Sound(t, k) { LinkKeepsSound(s, n, m, up, k); }
    forall a | a in t.messages ensures Faithful(a.table, t.announced) {
      StillFaithful(a.table, s.announced, n, t.tables[n].table[n].neighbors);
    }
  }

  lemma SendKeepsInv(s: System, t: System, n: string, message: Copy)
    requires Inv(s) && Next(s, t, Send(n, message))
    ensures Inv(t)
  {
    assert Sound(s, n);
    PartIsFaithful(message.table, s.tables[n].table, s.announced);
    forall k | k in t.tables ensures Sound(t, k) { assert Sound(s, k); }
    forall a | a in t.messages ensures Faithful(a.table, t.announced) {
      if a != message { assert a in s.messages; }
    }
  }

  lemma ReceiveKeepsSound(s: System, t: System, n: string, message: Copy, k: string)
    requires Next(s, t, Receive(n, message)) && k in s.tables && Sound(s, n) && Sound(s, k)
    requires Faithful(message.table, s.announced)
    ensures Sound(t, k)
  {
    MergedIsFaithful(s.tables[n].table, message.table, s.announced);
  }

  lemma ReceiveKeepsInv(s: System, t: System, n: string, message: Copy)
    requires Inv(s) && Next(s, t, Receive(n, message))
    ensures Inv(t)
  {
    forall k | k in t.tables ensures Sound(t, k) { ReceiveKeepsSound(s, t, n, message, k); }
  }

  lemma StepKeepsInv(s: System, t: System, step: Step)
    requires Inv(s) && Next(s, t, step)
    ensures Inv(t)
  {
    match step
    case Link(n, m, up) => LinkKeepsInv(s, n, m, up);
    case Send(n, message) => SendKeepsInv(s, t, n, message);
    case Receive(n, message) => ReceiveKeepsInv(s, t, n, message);
  }

  lemma {:induction false} RunKeepsInv(run: seq<System>, steps: seq<Step>, i: nat)
    requires IsRun(run, steps) && i < |run|
    ensures Inv(run[i])
  {
    if i > 0 {
      RunKeepsInv(run, steps, i - 1);
      assert Linked(run, steps, i - 1);
      StepKeepsInv(run[i - 1], run[i], steps[i - 1]);
    }
  }

  // ----- What the entries say ---------------------------------------------------------------

  /** The last change of the link from `n` to `m` brought it up. */
  ghost predicate IsUp(steps: seq<Step>, n: string, m: string) {
    exists j :: 0 <= j < |steps| && StaysUp(steps, n, m, j)
  }

  ghost predicate StaysUp(steps: seq<Step>, n: string, m: string, j: nat)
    requires j < |steps|
  {
    steps[j] == Link(n, m, true) && forall k :: j < k < |steps| ==> steps[k] != Link(n, m, false)
  }

  /** How often a link of the node changed. */
  function LinkChanges(steps: seq<Step>, n: string): nat {
    if steps == [] then 0
    else
      var last := steps[|steps| - 1];
      LinkChanges(steps[..|steps| - 1], n) + (if last.Link? && last.node == n then 1 else 0)
  }

  lemma UpAfterOneMore(steps: seq<Step>, i: nat, n: string, m: string)
    requires i < |steps|
    ensures IsUp(steps[..i + 1], n, m) <==>
              steps[i] == Link(n, m, true) || (IsUp(steps[..i], n, m) && steps[i] != Link(n, m, false))
    ensures LinkChanges(steps[..i + 1], n) ==
            LinkChanges(steps[..i], n) + (if steps[i].Link? && steps[i].node == n then 1 else 0)
  {
    var before, after := steps[..i], steps[..i + 1];
    assert after[..i] == before && after[i] == steps[i];
    if IsUp(after, n, m) && steps[i] != Link(n, m, true) {
      var j :| 0 <= j < |after| && StaysUp(after, n, m, j);
      assert StaysUp(before, n, m, j) by { assert forall k :: j < k < i ==> before[k] == after[k]; }
    }
    if steps[i] == Link(n, m, true) { assert StaysUp(after, n, m, i); }
    if IsUp(before, n, m) && steps[i] != Link(n, m, false) {
      var j :| 0 <= j < |before| && StaysUp(before, n, m, j);
      assert StaysUp(after, n, m, j);
    }
  }

  /** The neighbours are those to which the links of `n` are up. */
  ghost predicate ListsLinks(neighbors: set<string>, steps: seq<Step>, n: string) {
    forall m :: m in neighbors <==> IsUp(steps, n, m)
  }

  lemma LinkIsAnnounced(s: System, t: System, step: Step, n: string)
    requires Inv(s) && Next(s, t, step) && n in s.tables
    ensures n in t.tables && n in s.announced && n in t.announced && n in s.tables[n].table && s.announced[n] != []
    ensures !(step.Link? && step.node == n) ==> t.announced[n] == s.announced[n]
    ensures step.Link? && step.node == n ==>
              var was, k := s.tables[n].table[n].neighbors, |s.announced[n]|;
              && |t.announced[n]| == k + 1 && t.announced[n][..k] == s.announced[n] && s.announced[n][k - 1] == was
              && t.announced[n][k] == if step.up then was + {step.neighbor} else was - {step.neighbor}
  {
    assert Sound(s, n);
  }

  /** The k-th announcement lists the links that were up after the first k changes. */
  ghost predicate AnnouncedAt(announced: seq<set<string>>, steps: seq<Step>, i: nat, n: string, k: nat)
    requires i <= |steps|
  {
    k < |announced|
    && exists j :: 0 <= j <= i && LinkChanges(steps[..j], n) == k && ListsLinks(announced[k], steps[..j], n)
  }

  /** One announcement for each change of a link, after the first one of nothing. */
  ghost predicate Describes(announced: seq<set<string>>, steps: seq<Step>, i: nat, n: string)
    requires i <= |steps|
  {
    && |announced| == LinkChanges(steps[..i], n) + 1 && ListsLinks(announced[|announced| - 1], steps[..i], n)
    && forall k: nat :: k < |announced| ==> AnnouncedAt(announced, steps, i, n, k)
  }

  lemma LinksAfterStep(steps: seq<Step>, i: nat, t: nat, n: string, was: set<string>, now: set<string>)
    requires i < |steps| && t == i + 1 && ListsLinks(was, steps[..i], n)
    requires if steps[i].Link? && steps[i].node == n then
               now == if steps[i].up then was + {steps[i].neighbor} else was - {steps[i].neighbor}
             else now == was
    ensures ListsLinks(now, steps[..t], n)
    ensures LinkChanges(steps[..t], n) ==
            LinkChanges(steps[..i], n) + (if steps[i].Link? && steps[i].node == n then 1 else 0)
  {
    UpAfterOneMore(steps, i, n, n);
    forall m ensures m in now <==> IsUp(steps[..t], n, m) { UpAfterOneMore(steps, i, n, m); }
  }

  lemma DescribesOneMore(was: seq<set<string>>, steps: seq<Step>, i: nat, t: nat, n: string, now: seq<set<string>>)
    requires i < |steps| && t == i + 1 && Describes(was, steps, i, n)
    requires if steps[i].Link? && steps[i].node == n then
               && |now| == |was| + 1 && now[..|was|] == was
               && var last := was[|was| - 1];
                  now[|was|] == if steps[i].up then last + {steps[i].neighbor} else last - {steps[i].neighbor}
             else now == was
    ensures Describes(now, steps, t, n)
  {
    LinksAfterStep(steps, i, t, n, was[|was| - 1], now[|now| - 1]);
    forall k: nat | k < |now| ensures AnnouncedAt(now, steps, t, n, k) {
      if k < |was| { assert AnnouncedAt(was, steps, i, n, k) && now[k] == was[k]; }
    }
  }

  lemma {:induction false} AnnouncementsAreLinks(run: seq<System>, steps: seq<Step>, i: nat, n: string)
    requires IsRun(run, steps) && i < |run| && n in run[0].tables
    ensures n in run[i].tables && n in run[i].announced && Describes(run[i].announced[n], steps, i, n)
  {
    if i == 0 {
      assert steps[..0] == [];
      assert ListsLinks({}, [], n);
      assert AnnouncedAt([{}], steps, 0, n, 0);
    } else {
      AnnouncementsAreLinks(run, steps, i - 1, n);
      RunKeepsInv(run, steps, i - 1);
      assert Linked(run, steps, i - 1);
      LinkIsAnnounced(run[i - 1], run[i], steps[i - 1], n);
      DescribesOneMore(run[i - 1].announced[n], steps, i - 1, i, n, run[i].announced[n]);
    }
  }

  /**
    In every run: a node's own entry lists exactly the links whose last change was up, and its
    sequence number counts the changes.
   */
  lemma OwnEntryIsCurrent(run: seq<System>, steps: seq<Step>, i: nat, n: string)
    requires IsRun(run, steps) && i < |run| && n in run[0].tables
    ensures n in run[i].tables && n in run[i].tables[n].table
    ensures run[i].tables[n].table[n].sequenceNumber == LinkChanges(steps[..i], n)
    ensures forall m :: m in run[i].tables[n].table[n].neighbors <==> IsUp(steps[..i], n, m)
  {
    RunKeepsInv(run, steps, i);
    AnnouncementsAreLinks(run, steps, i, n);
    assert Sound(run[i], n);
  }

  /**
    Every entry of a node, in any table or message, lists exactly the links of the node that were
    up after as many changes as its sequence number says.
   */
  lemma EntriesAreLinks(run: seq<System>, steps: seq<Step>, i: nat, table: Table, n: string)
    requires IsRun(run, steps) && i < |run| && n in run[0].tables && n in table
    requires (exists k :: k in run[i].tables && run[i].tables[k].table == table) || Copy(table) in run[i].messages
    ensures exists j :: 0 <= j <= i && LinkChanges(steps[..j], n) == table[n].sequenceNumber
                        && forall m :: m in table[n].neighbors <==> IsUp(steps[..j], n, m)
  {
    RunKeepsInv(run, steps, i);
    AnnouncementsAreLinks(run, steps, i, n);
    assert Faithful(table, run[i].announced) by {
      if k :| k in run[i].tables && run[i].tables[k].table == table { assert Sound(run[i], k); }
    }
    assert AnnouncedAt(run[i].announced[n], steps, i, n, table[n].sequenceNumber);
    var j :| 0 <= j <= i && LinkChanges(steps[..j], n) == table[n].sequenceNumber
             && ListsLinks(run[i].announced[n][table[n].sequenceNumber], steps[..j], n);
  }

  /**
    In every run of link changes and exchanges, at any moment: entries of the same node with
    the same sequence number have the same neighbours in all tables and messages, nobody has
    a newer entry of a node than the node itself, and a two-way exchange makes tables equal.
   */
  lemma EntriesAgree(run: seq<System>, steps: seq<Step>, i: nat, n: string, m: string)
    requires IsRun(run, steps) && i < |run| && n in run[i].tables && m in run[i].tables
    ensures var a, b := run[i].tables[n].table, run[i].tables[m].table;
            && Compatible(a, b) && (forall c :: c in run[i].messages ==> Compatible(a, c.table))
            && m in b && (m in a ==> a[m].sequenceNumber <= b[m].sequenceNumber)
            && Merged(a, Unseen(b, DigestOf(a))) == Merged(b, Unseen(a, DigestOf(b)))
  {
    RunKeepsInv(run, steps, i);
    var s := run[i];
    assert Sound(s, n) && Sound(s, m);
    FaithfulTablesAgree(s.tables[n].table, s.tables[m].table, s.announced);
    forall c | c in s.messages ensures Compatible(s.tables[n].table, c.table) {
      FaithfulTablesAgree(s.tables[n].table, c.table, s.announced);
    }
    TwoWayExchange(s.tables[n].table, s.tables[m].table);
  }
}
