/**
  Subscriptions to topics (src/core/topicMap.js): a trie over the levels of the patterns and
  the search for the clients of a published topic.  `+` stands for one level and `#` for the
  rest of the topic, as in section 4.7.1 of MQTT Version 3.1.1.
 */
module TopicMaps {
  import opened Wrappers

  datatype Error = InvalidTopicString

  type Topic = seq<string>

  // ----- Topics ---------------------------------------------------------------------------

  function Split(s: string): (topic: Topic)
    ensures topic != []
  {
    if s == [] then [[]]
    else
      var rest := Split(s[1..]);
      if s[0] == '/' then [[]] + rest else [[s[0]] + rest[0]] + rest[1..]
  }

  /** The levels with a slash between them. */
  function JoinLevels(levels: Topic): string {
    if levels == [] then ""
    else if |levels| == 1 then levels[0]
    else levels[0] + ['/'] + JoinLevels(levels[1..])
  }

  predicate HasNoSlash(level: string) { '/' !in level }

  lemma JoinedWithFirst(c: char, topic: Topic)
    requires topic != []
    ensures JoinLevels([[c] + topic[0]] + topic[1..]) == [c] + JoinLevels(topic)
    ensures JoinLevels([[]] + topic) == ['/'] + JoinLevels(topic)
  {
    var longer, split := [[c] + topic[0]] + topic[1..], [[]] + topic;
    assert longer[1..] == topic[1..] && split[1..] == topic;
    Concatenated([c], topic[0], ['/'], JoinLevels(topic[1..]));
    Concatenated([], ['/'], JoinLevels(topic), []);
  }

  lemma Concatenated(a: string, b: string, c: string, d: string)
    ensures a + b + c + d == a + (b + c + d) && (a == [] ==> a + b + c == b + c)
  {
  }

  /** The levels of a topic string hold no slash, and joined by slashes they give it back. */
  lemma {:induction false} SplitMeaning(s: string)
    ensures JoinLevels(Split(s)) == s && forall i :: 0 <= i < |Split(s)| ==> '/' !in Split(s)[i]
  {
    if s != [] {
      SplitMeaning(s[1..]);
      JoinedWithFirst(s[0], Split(s[1..]));
      assert s == [s[0]] + s[1..];
    }
  }

  /** Every list of levels without slashes is what its joined text splits into. */
  lemma {:induction false} SplitUndoesJoin(levels: Topic)
    requires levels != [] && forall i :: 0 <= i < |levels| ==> HasNoSlash(levels[i])
    ensures Split(JoinLevels(levels)) == levels
    decreases |levels|, if levels == [] then 0 else |levels[0]|
  {
    var s := JoinLevels(levels);
    if levels[0] == [] {
      if |levels| > 1 {
        SplitUndoesJoin(levels[1..]);
        assert s == ['/'] + JoinLevels(levels[1..]) && s[1..] == JoinLevels(levels[1..]);
        assert levels == [[]] + levels[1..];
      } else {
        assert levels == [[]];
      }
    } else {
      var shorter := [levels[0][1..]] + levels[1..];
      assert HasNoSlash(levels[0]) && levels[0][0] in levels[0];
      assert HasNoSlash(shorter[0]) by { assert forall c :: c in levels[0][1..] ==> c in levels[0]; }
      SplitUndoesJoin(shorter);
      JoinedWithFirst(levels[0][0], shorter);
      assert [levels[0][0]] + shorter[0] == levels[0] && shorter[1..] == levels[1..];
      assert levels == [levels[0]] + levels[1..];
      assert s == [levels[0][0]] + JoinLevels(shorter) && s[1..] == JoinLevels(shorter);
    }
  }

  /** `#` is the last level or does not occur. */
  ghost predicate IsTopic(topic: Topic) {
    forall i :: 0 <= i < |topic| - 1 ==> topic[i] != "#"
  }

  method ParseTopicString(topicString: string) returns (r: Result<Topic, Error>)
    ensures r == if IsTopic(Split(topicString)) then Ok(Split(topicString)) else Err(InvalidTopicString)
  {
    var topic := Split(topicString);
    for index := 0 to |topic|
      invariant forall i :: 0 <= i < index && i < |topic| - 1 ==> topic[i] != "#"
    {
      if topic[index] == "#" && |topic| != index + 1 {
        return Err(InvalidTopicString);
      }
    }
    return Ok(topic);
  }

  /** The meaning of a pattern, independent of the trie. */
  predicate Matches(pattern: Topic, topic: Topic) {
    if pattern == [] then topic == []
    else if pattern[0] == "#" then true
    else topic != [] && (pattern[0] == "+" || pattern[0] == topic[0]) && Matches(pattern[1..], topic[1..])
  }

  // ----- The trie -------------------------------------------------------------------------

  /** A node of the trie is named by the levels that lead to it. */
  type Trie = map<Topic, set<string>>

  ghost predicate IsTrie(nodes: Trie) {
    && [] in nodes && nodes[[]] == {}
    && (forall p, k :: p in nodes && 0 <= k <= |p| ==> p[..k] in nodes)
    && (forall p :: p in nodes ==> IsTopic(p))
  }

  /** A client subscribed below `path` with levels that match the topic from level `i` on. */
  ghost predicate Found(nodes: Trie, topic: Topic, path: Topic, i: nat, c: string)
    requires i <= |topic|
  {
    exists q :: FoundAt(nodes, topic, path, i, c, q)
  }

  ghost predicate FoundAt(nodes: Trie, topic: Topic, path: Topic, i: nat, c: string, q: Topic)
    requires i <= |topic|
  {
    q in nodes && path <= q && c in nodes[q] && Matches(q[|path|..], topic[i..])
  }

  predicate HasChild(nodes: Trie, path: Topic, level: string) {
    path + [level] in nodes
  }

  lemma NextLevel(nodes: Trie, path: Topic, q: Topic)
    requires IsTrie(nodes) && q in nodes && path < q
    ensures path + [q[|path|]] <= q && HasChild(nodes, path, q[|path|])
    ensures q[|path|..] == [q[|path|]] + q[|path| + 1..]
  {
    assert q[..|path| + 1] == path + [q[|path|]];
  }

  /** Below a `#` there is nothing. */
  lemma HashIsLast(nodes: Trie, path: Topic, q: Topic)
    requires IsTrie(nodes) && q in nodes && path + ["#"] <= q
    ensures q == path + ["#"]
  {
    assert q[|path|] == "#";
  }

  /** What a node finds is what it holds at the end of the topic and what its children find. */
  lemma FoundBelow(nodes: Trie, topic: Topic, path: Topic, i: nat, c: string)
    requires IsTrie(nodes) && path in nodes && i < |topic|
    ensures Found(nodes, topic, path, i, c) <==>
              || (HasChild(nodes, path, "#") && Found(nodes, topic, path + ["#"], |topic|, c))
              || (HasChild(nodes, path, "+") && Found(nodes, topic, path + ["+"], i + 1, c))
              || (HasChild(nodes, path, topic[i]) && Found(nodes, topic, path + [topic[i]], i + 1, c))
  {
    if q :| FoundAt(nodes, topic, path, i, c, q) {
      assert q != path;
      NextLevel(nodes, path, q);
      var level := q[|path|];
      assert q[|path|..][1..] == q[|path| + 1..] && topic[i..][1..] == topic[i + 1..];
      if level == "#" {
        HashIsLast(nodes, path, q);
        assert FoundAt(nodes, topic, path + ["#"], |topic|, c, q);
      } else {
        assert FoundAt(nodes, topic, path + [level], i + 1, c, q);
      }
    }
    ChildFinds(nodes, topic, path, i, c, "#");
    ChildFinds(nodes, topic, path, i, c, "+");
    ChildFinds(nodes, topic, path, i, c, topic[i]);
  }

  lemma ChildFinds(nodes: Trie, topic: Topic, path: Topic, i: nat, c: string, level: string)
    requires IsTrie(nodes) && i < |topic|
    ensures level == "#" && Found(nodes, topic, path + [level], |topic|, c) ==> Found(nodes, topic, path, i, c)
    ensures (level == "+" || level == topic[i]) && Found(nodes, topic, path + [level], i + 1, c) ==>
        Found(nodes, topic, path, i, c)
  {
    if level == "#" && Found(nodes, topic, path + [level], |topic|, c) {
      var q :| FoundAt(nodes, topic, path + [level], |topic|, c, q);
      assert q[|path|..][0] == "#";
      assert FoundAt(nodes, topic, path, i, c, q);
    }
    if (level == "+" || level == topic[i]) && Found(nodes, topic, path + [level], i + 1, c) {
      var q :| FoundAt(nodes, topic, path + [level], i + 1, c, q);
      assert q[|path|..][0] == level && q[|path|..][1..] == q[|path| + 1..] && topic[i..][1..] == topic[i + 1..];
      assert FoundAt(nodes, topic, path, i, c, q);
    }
  }

  lemma FoundAtEnd(nodes: Trie, topic: Topic, path: Topic, c: string)
    requires IsTrie(nodes) && path in nodes
    ensures Found(nodes, topic, path, |topic|, c) <==>
              || c in nodes[path]
              || (HasChild(nodes, path, "#") && Found(nodes, topic, path + ["#"], |topic|, c))
  {
    assert topic[|topic|..] == [];
    if q :| FoundAt(nodes, topic, path, |topic|, c, q) {
      if q != path {
        NextLevel(nodes, path, q);
        HashIsLast(nodes, path, q);
        assert q[|path| + 1..] == [];
        assert FoundAt(nodes, topic, path + ["#"], |topic|, c, q);
      }
    }
    if c in nodes[path] {
      assert path[|path|..] == [];
      assert FoundAt(nodes, topic, path, |topic|, c, path);
    }
    if q :| FoundAt(nodes, topic, path + ["#"], |topic|, c, q) {
      assert q[|path|..][0] == "#";
      assert FoundAt(nodes, topic, path, |topic|, c, q);
    }
  }

  // ----- The search -----------------------------------------------------------------------

  datatype Task = Task(path: Topic, index: nat)

  ghost predicate TasksOf(nodes: Trie, topic: Topic, queue: seq<Task>) {
    forall k :: 0 <= k < |queue| ==> queue[k].path in nodes && queue[k].index <= |topic|
  }

  /** One of the tasks will find the client. */
  ghost predicate QueueFinds(nodes: Trie, topic: Topic, queue: seq<Task>, c: string)
    requires TasksOf(nodes, topic, queue)
  {
    exists k :: 0 <= k < |queue| && Found(nodes, topic, queue[k].path, queue[k].index, c)
  }

  lemma QueueFindsTogether(nodes: Trie, topic: Topic, a: seq<Task>, b: seq<Task>, c: string)
    requires TasksOf(nodes, topic, a) && TasksOf(nodes, topic, b)
    ensures TasksOf(nodes, topic, a + b)
    ensures QueueFinds(nodes, topic, a + b, c) <==> QueueFinds(nodes, topic, a, c) || QueueFinds(nodes, topic, b, c)
  {
    if k :| 0 <= k < |a| && Found(nodes, topic, a[k].path, a[k].index, c) { assert (a + b)[k] == a[k]; }
    if k :| 0 <= k < |b| && Found(nodes, topic, b[k].path, b[k].index, c) { assert (a + b)[|a| + k] == b[k]; }
  }

  /** Tasks near the root count for more than all the tasks they can lead to. */
  ghost function Weight(queue: seq<Task>, depth: nat): nat {
    if queue == [] then 0 else Power(depth + 1 - |queue[0].path|) + Weight(queue[1..], depth)
  }

  ghost function Power(k: int): (r: nat)
    ensures r > 0
    decreases if k < 0 then 0 else k
  {
    if k <= 0 then 1 else 4 * Power(k - 1)
  }

  lemma {:induction false} WeightOfTwo(a: seq<Task>, b: seq<Task>, depth: nat)
    ensures Weight(a + b, depth) == Weight(a, depth) + Weight(b, depth)
  {
    if a == [] {
      assert a + b == b;
    } else {
      WeightOfTwo(a[1..], b, depth);
      assert (a + b)[1..] == a[1..] + b;
    }
  }

  lemma {:induction false} DepthIsBounded(paths: set<Topic>) returns (depth: nat)
    ensures forall p :: p in paths ==> |p| <= depth
    decreases paths
  {
    if paths == {} {
      depth := 0;
    } else {
      var p :| p in paths;
      depth := DepthIsBounded(paths - {p});
      if depth < |p| { depth := |p|; }
    }
  }

  /** The clients a node contributes and the tasks it leads to. */
  method Visit(nodes: Trie, topic: Topic, task: Task) returns (here: set<string>, next: seq<Task>)
    requires IsTrie(nodes) && task.path in nodes && task.index <= |topic|
    ensures TasksOf(nodes, topic, next) && |next| <= 3
    ensures forall k :: 0 <= k < |next| ==> |next[k].path| == |task.path| + 1
    ensures forall c :: Found(nodes, topic, task.path, task.index, c) <==>
        c in here || QueueFinds(nodes, topic, next, c)
  {
    var path, i := task.path, task.index;
    here, next := {}, [];
    if i == |topic| {
      here := nodes[path];
      if HasChild(nodes, path, "#") {
        next := [Task(path + ["#"], |topic|)];
      }
      forall c ensures Found(nodes, topic, path, i, c) <==> c in here || QueueFinds(nodes, topic, next, c) {
        FoundAtEnd(nodes, topic, path, c);
        if next != [] { assert next[0].path == path + ["#"]; }
      }
    } else {
      if HasChild(nodes, path, "+") {
        next := next + [Task(path + ["+"], i + 1)];
      }
      if HasChild(nodes, path, "#") {
        next := next + [Task(path + ["#"], |topic|)];
      }
      if HasChild(nodes, path, topic[i]) {
        next := next + [Task(path + [topic[i]], i + 1)];
      }
      forall c ensures Found(nodes, topic, path, i, c) <==> c in here || QueueFinds(nodes, topic, next, c) {
        FoundBelow(nodes, topic, path, i, c);
        TasksBelow(nodes, topic, path, i, next, c);
      }
    }
  }

  function TaskIf(nodes: Trie, path: Topic, level: string, index: nat): seq<Task> {
    if HasChild(nodes, path, level) then [Task(path + [level], index)] else []
  }

  lemma OneTaskFinds(nodes: Trie, topic: Topic, path: Topic, level: string, index: nat, c: string)
    requires index <= |topic|
    ensures TasksOf(nodes, topic, TaskIf(nodes, path, level, index))
    ensures QueueFinds(nodes, topic, TaskIf(nodes, path, level, index), c) <==>
              HasChild(nodes, path, level) && Found(nodes, topic, path + [level], index, c)
  {
    var tasks := TaskIf(nodes, path, level, index);
    if tasks != [] { assert tasks[0] == Task(path + [level], index); }
  }

  lemma TasksBelow(nodes: Trie, topic: Topic, path: Topic, i: nat, next: seq<Task>, c: string)
    requires i < |topic|
    requires next == TaskIf(nodes, path, "+", i + 1) + TaskIf(nodes, path, "#", |topic|)
        + TaskIf(nodes, path, topic[i], i + 1)
    ensures TasksOf(nodes, topic, next)
    ensures QueueFinds(nodes, topic, next, c) <==>
              || (HasChild(nodes, path, "+") && Found(nodes, topic, path + ["+"], i + 1, c))
              || (HasChild(nodes, path, "#") && Found(nodes, topic, path + ["#"], |topic|, c))
              || (HasChild(nodes, path, topic[i]) && Found(nodes, topic, path + [topic[i]], i + 1, c))
  {
    var plus, hash, literal :=
        TaskIf(nodes, path, "+", i + 1), TaskIf(nodes, path, "#", |topic|), TaskIf(nodes, path, topic[i], i + 1);
    OneTaskFinds(nodes, topic, path, "+", i + 1, c);
    OneTaskFinds(nodes, topic, path, "#", |topic|, c);
    OneTaskFinds(nodes, topic, path, topic[i], i + 1, c);
    QueueFindsTogether(nodes, topic, plus, hash, c);
    QueueFindsTogether(nodes, topic, plus + hash, literal, c);
  }

  /** The queue loop: every client found from the root. */
  method Search(nodes: Trie, topic: Topic) returns (publishSet: set<string>)
    requires IsTrie(nodes)
    ensures forall c :: c in publishSet <==> Found(nodes, topic, [], 0, c)
  {
    publishSet := {};
    var queue := [Task([], 0)];
    ghost var depth := DepthIsBounded(nodes.Keys);
    assert queue[0] == Task([], 0);
    while |queue| != 0
      invariant TasksOf(nodes, topic, queue)
      invariant forall c :: Found(nodes, topic, [], 0, c) <==> c in publishSet || QueueFinds(nodes, topic, queue, c)
      decreases Weight(queue, depth)
    {
      var task := queue[0];
      var here, next := Visit(nodes, topic, task);
      VisitIsLighter(nodes, topic, queue, next, depth);
      forall c ensures Found(nodes, topic, [], 0, c) <==>
          c in publishSet + here || QueueFinds(nodes, topic, queue[1..] + next, c) {
        FirstTaskFinds(nodes, topic, queue, c);
        QueueFindsTogether(nodes, topic, queue[1..], next, c);
      }
      publishSet := publishSet + here;
      queue := queue[1..] + next;
    }
  }

  lemma FirstTaskFinds(nodes: Trie, topic: Topic, queue: seq<Task>, c: string)
    requires TasksOf(nodes, topic, queue) && queue != []
    ensures TasksOf(nodes, topic, queue[1..])
    ensures QueueFinds(nodes, topic, queue, c) <==>
              Found(nodes, topic, queue[0].path, queue[0].index, c) || QueueFinds(nodes, topic, queue[1..], c)
  {
    assert queue == [queue[0]] + queue[1..];
    assert [queue[0]][0] == queue[0];
    QueueFindsTogether(nodes, topic, [queue[0]], queue[1..], c);
  }

  lemma VisitIsLighter(nodes: Trie, topic: Topic, queue: seq<Task>, next: seq<Task>, depth: nat)
    requires TasksOf(nodes, topic, queue) && queue != [] && |next| <= 3 && forall p :: p in nodes ==> |p| <= depth
    requires forall k :: 0 <= k < |next| ==> |next[k].path| == |queue[0].path| + 1
    ensures TasksOf(nodes, topic, queue[1..])
    ensures Weight(queue[1..] + next, depth) < Weight(queue, depth)
  {
    WeightOfTwo(queue[1..], next, depth);
    assert queue[0].path in nodes;
    WeightOfEqual(next, |queue[0].path| + 1, depth);
    var one := Power(depth - |queue[0].path|);
    assert |next| * one <= 3 * one;
  }

  lemma {:induction false} WeightOfEqual(tasks: seq<Task>, length: nat, depth: nat)
    requires forall k :: 0 <= k < |tasks| ==> |tasks[k].path| == length
    ensures Weight(tasks, depth) == |tasks| * Power(depth + 1 - length)
  {
    if tasks != [] { WeightOfEqual(tasks[1..], length, depth); }
  }

  // ----- Subscriptions --------------------------------------------------------------------

  datatype Subscription = Subscription(topic: Topic, client: string)

  /** The clients with a live subscription whose pattern matches the topic. */
  ghost function PublishSet(live: set<Subscription>, topic: Topic): set<string> {
    set s | s in live && Matches(s.topic, topic) :: s.client
  }

  ghost function LiveIn(nodes: Trie): set<Subscription> {
    set p, c | p in nodes && c in nodes[p] :: Subscription(p, c)
  }

  ghost function WithoutClient(live: set<Subscription>, client: string): set<Subscription> {
    set s | s in live && s.client != client
  }

  /** The search from the root agrees with matching every live subscription by itself. */
  lemma SearchIsMatching(nodes: Trie, topic: Topic, c: string)
    requires IsTrie(nodes)
    ensures Found(nodes, topic, [], 0, c) <==> c in PublishSet(LiveIn(nodes), topic)
  {
    assert topic[0..] == topic;
    if q :| FoundAt(nodes, topic, [], 0, c, q) {
      assert q[0..] == q && Subscription(q, c) in LiveIn(nodes);
    }
    if s :| s in LiveIn(nodes) && Matches(s.topic, topic) && s.client == c {
      assert s.topic[0..] == s.topic && FoundAt(nodes, topic, [], 0, c, s.topic);
    }
  }

  lemma ChildKeepsTrie(nodes: Trie, path: Topic, level: string)
    requires IsTrie(nodes) && path in nodes && IsTopic(path + [level]) && path + [level] !in nodes
    ensures IsTrie(nodes[path + [level] := {}]) && LiveIn(nodes[path + [level] := {}]) == LiveIn(nodes)
  {
    var child := path + [level];
    forall k | 0 <= k <= |child| ensures child[..k] in nodes[child := {}] {
      if k <= |path| { assert child[..k] == path[..k]; } else { assert child[..k] == child; }
    }
  }

  lemma ClientsKeepTrie(nodes: Trie, path: Topic, clients: set<string>)
    requires IsTrie(nodes) && path in nodes && path != []
    ensures IsTrie(nodes[path := clients])
    ensures forall s :: s in LiveIn(nodes[path := clients]) <==>
              if s.topic == path then s.client in clients else s in LiveIn(nodes)
  {
  }

  class TopicMap {
    var nodes: Trie
    var clientSubscriptions: map<string, set<string>>

    constructor ()
      ensures Valid() && Live() == {}
    {
      nodes, clientSubscriptions := map[[] := {}], map[];
    }

    ghost predicate Valid()
      reads this
    {
      IsTrie(nodes) && AllRecorded(LiveIn(nodes), clientSubscriptions)
    }

    ghost function Live(): set<Subscription>
      reads this
    {
      LiveIn(nodes)
    }

    method GetPublishSet(topicString: string) returns (r: Result<set<string>, Error>)
      requires Valid()
      ensures r ==
              if IsTopic(Split(topicString)) then Ok(PublishSet(Live(), Split(topicString)))
              else Err(InvalidTopicString)
    {
      var parsed := ParseTopicString(topicString);
      if parsed.Err? {
        return Err(parsed.error);
      }
      var publishSet := Search(nodes, parsed.value);
      forall c ensures c in publishSet <==> c in PublishSet(Live(), parsed.value) {
        SearchIsMatching(nodes, parsed.value, c);
      }
      assert publishSet == PublishSet(Live(), parsed.value);
      return Ok(publishSet);
    }

    method AddSubscription(topicString: string, clientID: string) returns (error: Option<Error>)
      requires Valid()
      modifies this
      ensures Valid()
      ensures error.None? <==> IsTopic(Split(topicString))
      ensures Live() == if error.None? then old(Live()) + {Subscription(Split(topicString), clientID)} else old(Live())
    {
      var parsed := ParseTopicString(topicString);
      if parsed.Err? {
        return Some(parsed.error);
      }
      var topic := parsed.value;
      MakePath(topic);
      RecordOneMore(Live(), clientSubscriptions, clientID, topicString);
      clientSubscriptions := WithString(clientSubscriptions, clientID, topicString);
      ClientsKeepTrie(nodes, topic, nodes[topic] + {clientID});
      nodes := nodes[topic := nodes[topic] + {clientID}];
      return None;
    }

    /** The loop that walks down and makes the missing nodes. */
    method MakePath(topic: Topic)
      requires IsTrie(nodes) && IsTopic(topic)
      modifies this`nodes
      ensures IsTrie(nodes) && topic in nodes && Live() == old(Live())
    {
      var path: Topic := [];
      for i := 0 to |topic|
        invariant path == topic[..i] && path in nodes && IsTrie(nodes) && Live() == old(Live())
      {
        assert topic[..i + 1] == path + [topic[i]];
        if path + [topic[i]] !in nodes {
          ChildKeepsTrie(nodes, path, topic[i]);
          nodes := nodes[path + [topic[i]] := {}];
        }
        path := path + [topic[i]];
      }
      assert topic[..|topic|] == topic;
    }

    method RemoveSubscription(topicString: string, clientID: string) returns (error: Option<Error>)
      requires Valid()
      modifies this`nodes
      ensures Valid()
      ensures error.None? <==> IsTopic(Split(topicString))
      ensures Live() == if error.None? then old(Live()) - {Subscription(Split(topicString), clientID)} else old(Live())
    {
      var parsed := ParseTopicString(topicString);
      if parsed.Err? {
        return Some(parsed.error);
      }
      var topic := parsed.value;
      var present := HasPath(topic);
      if present {
        ClientsKeepTrie(nodes, topic, nodes[topic] - {clientID});
        nodes := nodes[topic := nodes[topic] - {clientID}];
      }
      return None;
    }

    /** The walk down; a missing node stands for an empty one outside the trie. */
    method HasPath(topic: Topic) returns (present: bool)
      requires IsTrie(nodes)
      ensures present <==> topic in nodes
    {
      var path: Topic := [];
      present := true;
      for i := 0 to |topic|
        invariant path == topic[..i] && (present <==> topic[..i] in nodes)
      {
        assert topic[..i + 1] == path + [topic[i]];
        assert topic[..i + 1][..i] == topic[..i];
        present := present && path + [topic[i]] in nodes;
        path := path + [topic[i]];
      }
      assert topic[..|topic|] == topic;
    }

    /** Removes every subscription the client was ever recorded with. */
    method RemoveClient(clientID: string)
      requires Valid()
      modifies this`nodes
      ensures Valid() && Live() == WithoutClient(old(Live()), clientID)
    {
      if clientID in clientSubscriptions {
        var todo := clientSubscriptions[clientID];
        while todo != {}
          invariant Valid() && todo <= clientSubscriptions[clientID]
          invariant Live() <= old(Live()) && WithoutClient(old(Live()), clientID) <= Live()
          invariant forall s :: s in Live() && s.client == clientID ==> Recorded(todo, s.topic)
          decreases todo
        {
          var topicString :| topicString in todo;
          ghost var before := todo;
          var error := RemoveSubscription(topicString, clientID);
          todo := todo - {topicString};
        }
      }
    }
  }

  ghost predicate Recorded(strings: set<string>, topic: Topic) {
    exists s :: s in strings && Split(s) == topic
  }

  /** Every live subscription of a client is on the client's list, which holds valid patterns only. */
  ghost predicate AllRecorded(live: set<Subscription>, clientSubscriptions: map<string, set<string>>) {
    && (forall c, s :: c in clientSubscriptions && s in clientSubscriptions[c] ==> IsTopic(Split(s)))
    && (forall s :: s in live ==> s.client in clientSubscriptions && Recorded(clientSubscriptions[s.client], s.topic))
  }

  function WithString(clientSubscriptions: map<string, set<string>>, client: string,
                      s: string): map<string, set<string>> {
    clientSubscriptions[client := (if client in clientSubscriptions then clientSubscriptions[client] else {}) + {s}]
  }

  lemma RecordOneMore(live: set<Subscription>, clientSubscriptions: map<string, set<string>>, client: string, s: string)
    requires AllRecorded(live, clientSubscriptions) && IsTopic(Split(s))
    ensures AllRecorded(live + {Subscription(Split(s), client)}, WithString(clientSubscriptions, client, s))
  {
    var after := WithString(clientSubscriptions, client, s);
    forall x | x in live ensures x.client in after && Recorded(after[x.client], x.topic) {
      var r :| r in clientSubscriptions[x.client] && Split(r) == x.topic;
      assert r in after[x.client];
    }
    assert s in after[client];
  }

  // ----- Sequences of operations ----------------------------------------------------------

  datatype Operation = Add(subscription: Subscription) | Remove(subscription: Subscription) | RemoveAll(client: string)

  /** What the methods of `TopicMap` do to the live subscriptions. */
  ghost function LiveAfter(operations: seq<Operation>): set<Subscription> {
    if operations == [] then {}
    else
      var before := LiveAfter(operations[..|operations| - 1]);
      match operations[|operations| - 1]
      case Add(s) => before + {s}
      case Remove(s) => before - {s}
      case RemoveAll(client) => WithoutClient(before, client)
  }

  predicate Ends(operation: Operation, s: Subscription) {
    operation == Remove(s) || operation == RemoveAll(s.client)
  }

  ghost predicate AddedAndKept(operations: seq<Operation>, s: Subscription) {
    exists i :: KeptSince(operations, s, i)
  }

  ghost predicate KeptSince(operations: seq<Operation>, s: Subscription, i: int) {
    0 <= i < |operations| && operations[i] == Add(s) && forall j :: i < j < |operations| ==> !Ends(operations[j], s)
  }

  /** A subscription is live exactly when it was added and not ended since. */
  lemma {:induction false} LiveMeaning(operations: seq<Operation>, s: Subscription)
    ensures s in LiveAfter(operations) <==> AddedAndKept(operations, s)
  {
    if operations != [] {
      var k := |operations| - 1;
      LiveMeaning(operations[..k], s);
      if i :| KeptSince(operations[..k], s, i) && !Ends(operations[k], s) { assert KeptSince(operations, s, i); }
      if operations[k] == Add(s) { assert KeptSince(operations, s, k); }
      if i :| KeptSince(operations, s, i) && i < k {
        assert KeptSince(operations[..k], s, i) by {
          forall j | i < j < k ensures !Ends(operations[..k][j], s) { assert !Ends(operations[j], s); }
        }
      }
    }
  }

  /** A client is published to exactly when one of its kept patterns matches the topic. */
  lemma PublishedExactly(operations: seq<Operation>, topic: Topic, c: string)
    ensures c in PublishSet(LiveAfter(operations), topic) <==>
              exists s: Subscription {:trigger AddedAndKept(operations, s)} ::
                AddedAndKept(operations, s) && s.client == c && Matches(s.topic, topic)
  {
    forall s: Subscription ensures s in LiveAfter(operations) <==> AddedAndKept(operations, s) {
      LiveMeaning(operations, s);
    }
  }

  /** Removing a client takes it out of every publish set and changes nothing for the others. */
  lemma RemovingAClient(live: set<Subscription>, client: string, topic: Topic)
    ensures PublishSet(WithoutClient(live, client), topic) == PublishSet(live, topic) - {client}
  {
    forall c | c in PublishSet(live, topic) && c != client ensures c in PublishSet(WithoutClient(live, client), topic) {
      var s :| s in live && Matches(s.topic, topic) && s.client == c;
      assert s in WithoutClient(live, client);
    }
  }

  /** Level by level: a final `#` allows any rest, even none, otherwise the lengths agree. */
  lemma {:induction false} MatchesMeaning(pattern: Topic, topic: Topic)
    requires IsTopic(pattern)
    ensures Matches(pattern, topic) <==>
              if pattern != [] && pattern[|pattern| - 1] == "#" then
                && |topic| >= |pattern| - 1
                && forall i :: 0 <= i < |pattern| - 1 ==> pattern[i] == "+" || pattern[i] == topic[i]
              else
                && |topic| == |pattern|
                && forall i :: 0 <= i < |pattern| ==> pattern[i] == "+" || pattern[i] == topic[i]
  {
    if pattern != [] && pattern[0] != "#" && topic != [] {
      MatchesMeaning(pattern[1..], topic[1..]);
      assert forall i :: 0 < i < |pattern| ==> pattern[i] == pattern[1..][i - 1];
      assert forall i :: 0 < i < |topic| ==> topic[i] == topic[1..][i - 1];
    }
  }
}
