/**
  The normal form of a selection (src/core/selection.js) decides whether two selections differ
  only by associativity and commutativity of `and` and `or`.
 */
module SelectionEquivalence {
  import opened Selections
  import opened SelectionParsing
  import opened SelectionForms

  // ----- Equivalence is a congruence ------------------------------------------------------

  lemma Same(a: Node)
    ensures Equivalent(a, a)
  {
    assert IsChain([a], a, a);
  }

  lemma ByMove(m: Move)
    ensures Equivalent(Before(m), After(m)) && Equivalent(After(m), Before(m))
  {
    var there, back := [Before(m), After(m)], [After(m), Before(m)];
    assert OneMove(Before(m), After(m)) && OneMove(After(m), Before(m));
    assert Joined(there, 0) && Joined(back, 0);
    assert IsChain(there, Before(m), After(m)) && IsChain(back, After(m), Before(m));
  }

  lemma Through(a: Node, b: Node, c: Node)
    requires Equivalent(a, b) && Equivalent(b, c)
    ensures Equivalent(a, c)
  {
    var one :| IsChain(one, a, b);
    var two :| IsChain(two, b, c);
    var all := one + two[1..];
    forall i | 0 <= i < |all| - 1 ensures Joined(all, i) {
      if i < |one| - 1 { assert Joined(one, i); } else { assert Joined(two, i - |one| + 1); }
    }
    assert IsChain(all, a, c);
  }

  lemma {:induction false} ChainBack(chain: seq<Node>, a: Node, b: Node)
    requires IsChain(chain, a, b)
    ensures Equivalent(b, a)
    decreases |chain|
  {
    if |chain| == 1 {
      Same(a);
    } else {
      ChainTail(chain, a, b);
      ChainBack(chain[1..], chain[1], b);
      var m := FirstMove(chain, a, b);
      ByMove(m);
      Through(b, chain[1], a);
    }
  }

  lemma FirstMove(chain: seq<Node>, a: Node, b: Node) returns (m: Move)
    requires IsChain(chain, a, b) && |chain| > 1
    ensures (Before(m) == a && After(m) == chain[1]) || (Before(m) == chain[1] && After(m) == a)
  {
    assert Joined(chain, 0);
    m :| (Before(m) == a && After(m) == chain[1]) || (Before(m) == chain[1] && After(m) == a);
  }

  lemma Back(a: Node, b: Node)
    requires Equivalent(a, b)
    ensures Equivalent(b, a)
  {
    var chain :| IsChain(chain, a, b);
    ChainBack(chain, a, b);
  }

  lemma {:induction false} ChainInLeft(chain: seq<Node>, isAnd: bool, a: Node, c: Node, b: Node)
    requires IsChain(chain, a, c)
    ensures Equivalent(Pair(isAnd, a, b), Pair(isAnd, c, b))
    decreases |chain|
  {
    if |chain| == 1 {
      Same(Pair(isAnd, a, b));
    } else {
      var m := FirstMove(chain, a, c);
      ByMove(InLeft(isAnd, m, b));
      ChainTail(chain, a, c);
      ChainInLeft(chain[1..], isAnd, chain[1], c, b);
      Through(Pair(isAnd, a, b), Pair(isAnd, chain[1], b), Pair(isAnd, c, b));
    }
  }

  lemma {:induction false} ChainInRight(chain: seq<Node>, isAnd: bool, a: Node, b: Node, c: Node)
    requires IsChain(chain, b, c)
    ensures Equivalent(Pair(isAnd, a, b), Pair(isAnd, a, c))
    decreases |chain|
  {
    if |chain| == 1 {
      Same(Pair(isAnd, a, b));
    } else {
      var m := FirstMove(chain, b, c);
      ByMove(InRight(isAnd, a, m));
      ChainTail(chain, b, c);
      ChainInRight(chain[1..], isAnd, a, chain[1], c);
      Through(Pair(isAnd, a, b), Pair(isAnd, a, chain[1]), Pair(isAnd, a, c));
    }
  }

  lemma {:induction false} ChainInNot(chain: seq<Node>, a: Node, b: Node)
    requires IsChain(chain, a, b)
    ensures Equivalent(Not(a), Not(b))
    decreases |chain|
  {
    if |chain| == 1 {
      Same(Not(a));
    } else {
      var m := FirstMove(chain, a, b);
      ByMove(InNot(m));
      ChainTail(chain, a, b);
      ChainInNot(chain[1..], chain[1], b);
      Through(Not(a), Not(chain[1]), Not(b));
    }
  }

  lemma InPair(isAnd: bool, a: Node, b: Node, c: Node, d: Node)
    requires Equivalent(a, c) && Equivalent(b, d)
    ensures Equivalent(Pair(isAnd, a, b), Pair(isAnd, c, d))
  {
    var left :| IsChain(left, a, c);
    var right :| IsChain(right, b, d);
    ChainInLeft(left, isAnd, a, c, b);
    ChainInRight(right, isAnd, c, b, d);
    Through(Pair(isAnd, a, b), Pair(isAnd, c, b), Pair(isAnd, c, d));
  }

  lemma InNegation(a: Node, b: Node)
    requires Equivalent(a, b)
    ensures Equivalent(Not(a), Not(b))
  {
    var chain :| IsChain(chain, a, b);
    ChainInNot(chain, a, b);
  }

  // ----- Lists of operands ----------------------------------------------------------------

  lemma NestedPair(isAnd: bool, n: Node, nodes: seq<Node>)
    requires nodes != []
    ensures Nested(isAnd, [n] + nodes) == Pair(isAnd, n, Nested(isAnd, nodes))
  {
    assert ([n] + nodes)[1..] == nodes;
  }

  /** The first two of three operands change places. */
  lemma SwapFirst(isAnd: bool, a: Node, b: Node, c: Node)
    ensures Equivalent(Pair(isAnd, a, Pair(isAnd, b, c)), Pair(isAnd, b, Pair(isAnd, a, c)))
  {
    ByMove(Regroup(isAnd, a, b, c));
    var swap := Swap(isAnd, a, b);
    assert Before(swap) == Pair(isAnd, a, b) && After(swap) == Pair(isAnd, b, a);
    ByMove(InLeft(isAnd, swap, c));
    ByMove(Regroup(isAnd, b, a, c));
    Through(Pair(isAnd, a, Pair(isAnd, b, c)), Pair(isAnd, Pair(isAnd, a, b), c), Pair(isAnd, Pair(isAnd, b, a), c));
    Through(Pair(isAnd, a, Pair(isAnd, b, c)), Pair(isAnd, Pair(isAnd, b, a), c), Pair(isAnd, b, Pair(isAnd, a, c)));
  }

  lemma {:induction false} InsertedIsEquivalent(isAnd: bool, x: Text, n: Node, texts: seq<Text>, nodes: seq<Node>)
    requires |texts| == |nodes|
    ensures Equivalent(Nested(isAnd, InsertByText(x, n, texts, nodes)), Nested(isAnd, [n] + nodes))
    decreases |nodes|
  {
    if texts == [] || AtMost(x, texts[0]) {
      Same(Nested(isAnd, [n] + nodes));
    } else {
      var first, rest := nodes[0], nodes[1..];
      var inserted := InsertByText(x, n, texts[1..], rest);
      InsertedIsEquivalent(isAnd, x, n, texts[1..], rest);
      Same(first);
      InPair(isAnd, first, Nested(isAnd, inserted), first, Nested(isAnd, [n] + rest));
      NestedPair(isAnd, first, inserted);
      MoveBehind(isAnd, n, nodes);
      Through(Nested(isAnd, [first] + inserted), Pair(isAnd, first, Nested(isAnd, [n] + rest)),
          Nested(isAnd, [n] + nodes));
    }
  }

  lemma MoveBehind(isAnd: bool, n: Node, nodes: seq<Node>)
    requires nodes != []
    ensures Equivalent(Pair(isAnd, nodes[0], Nested(isAnd, [n] + nodes[1..])), Nested(isAnd, [n] + nodes))
  {
    NestedPair(isAnd, n, nodes);
    if |nodes| == 1 {
      assert [n] + nodes[1..] == [n];
      ByMove(Swap(isAnd, nodes[0], n));
    } else {
      NestedPair(isAnd, n, nodes[1..]);
      assert nodes == [nodes[0]] + nodes[1..];
      NestedPair(isAnd, nodes[0], nodes[1..]);
      SwapFirst(isAnd, nodes[0], n, Nested(isAnd, nodes[1..]));
    }
  }

  lemma {:induction false} SortedIsEquivalent(isAnd: bool, texts: seq<Text>, nodes: seq<Node>)
    requires |texts| == |nodes| && nodes != []
    ensures Equivalent(Nested(isAnd, SortByText(texts, nodes)), Nested(isAnd, nodes))
    decreases |nodes|
  {
    var n, rest, sorted := nodes[0], nodes[1..], SortByText(texts[1..], nodes[1..]);
    InsertedIsEquivalent(isAnd, texts[0], n, Sort(texts[1..]), sorted);
    assert nodes == [n] + rest;
    if rest == [] {
      assert sorted == [];
    } else {
      SortedIsEquivalent(isAnd, texts[1..], rest);
      Same(n);
      InPair(isAnd, n, Nested(isAnd, sorted), n, Nested(isAnd, rest));
      NestedPair(isAnd, n, sorted);
      NestedPair(isAnd, n, rest);
      Through(Nested(isAnd, SortByText(texts, nodes)), Nested(isAnd, [n] + sorted), Nested(isAnd, nodes));
    }
  }

  lemma {:induction false} ConcatIsEquivalent(isAnd: bool, a: seq<Node>, b: seq<Node>)
    requires a != [] && b != []
    ensures Equivalent(Nested(isAnd, a + b), Pair(isAnd, Nested(isAnd, a), Nested(isAnd, b)))
    decreases |a|
  {
    var n, rest := a[0], a[1..];
    assert a + b == [n] + (rest + b) && a == [n] + rest;
    NestedPair(isAnd, n, rest + b);
    if rest == [] {
      assert rest + b == b;
      Same(Pair(isAnd, n, Nested(isAnd, b)));
    } else {
      ConcatIsEquivalent(isAnd, rest, b);
      Same(n);
      InPair(isAnd, n, Nested(isAnd, rest + b), n, Pair(isAnd, Nested(isAnd, rest), Nested(isAnd, b)));
      NestedPair(isAnd, n, rest);
      ByMove(Regroup(isAnd, n, Nested(isAnd, rest), Nested(isAnd, b)));
      Through(Nested(isAnd, a + b), Pair(isAnd, n, Pair(isAnd, Nested(isAnd, rest), Nested(isAnd, b))),
              Pair(isAnd, Nested(isAnd, a), Nested(isAnd, b)));
    }
  }

  ghost predicate AllEquivalent(a: seq<Node>, b: seq<Node>) {
    |a| == |b| && forall i :: 0 <= i < |a| ==> Equivalent(a[i], b[i])
  }

  lemma {:induction false} NestedIsEquivalent(isAnd: bool, a: seq<Node>, b: seq<Node>)
    requires AllEquivalent(a, b) && a != []
    ensures Equivalent(Nested(isAnd, a), Nested(isAnd, b))
    decreases |a|
  {
    if |a| > 1 {
      NestedIsEquivalent(isAnd, a[1..], b[1..]);
      InPair(isAnd, a[0], Nested(isAnd, a[1..]), b[0], Nested(isAnd, b[1..]));
    }
  }

  // ----- Flat trees as binary trees -------------------------------------------------------

  /** Operands in their order, grouped to the right. */
  function Grouped(node: Node): Node
    requires WellFormed(node)
    decreases node, 0
  {
    match node
    case And(children) => Nested(true, GroupedAll(children))
    case Or(children) => Nested(false, GroupedAll(children))
    case Not(operand) => Not(Grouped(operand))
    case _ => node
  }

  function GroupedAll(nodes: seq<Node>): (r: seq<Node>)
    requires forall i :: 0 <= i < |nodes| ==> WellFormed(nodes[i])
    ensures |r| == |nodes|
    decreases nodes, 1
  {
    if nodes == [] then [] else [Grouped(nodes[0])] + GroupedAll(nodes[1..])
  }

  lemma {:induction false} GroupedConcat(a: seq<Node>, b: seq<Node>)
    requires forall n :: n in a + b ==> WellFormed(n)
    ensures (forall i :: 0 <= i < |a| ==> WellFormed(a[i])) && (forall i :: 0 <= i < |b| ==> WellFormed(b[i]))
    ensures forall i :: 0 <= i < |a + b| ==> WellFormed((a + b)[i])
    ensures GroupedAll(a + b) == GroupedAll(a) + GroupedAll(b)
    decreases |a|
  {
    forall i | 0 <= i < |a| ensures WellFormed(a[i]) { assert a[i] in a + b; }
    forall i | 0 <= i < |b| ensures WellFormed(b[i]) { assert b[i] in a + b; }
    if a == [] {
      assert a + b == b;
    } else {
      assert (a + b)[1..] == a[1..] + b;
      GroupedConcat(a[1..], b);
    }
  }

  /** A binary tree is grouped already. */
  lemma {:induction false} BinaryIsGrouped(node: Node)
    requires Good(node)
    ensures Grouped(node) == node
  {
    match node
    case And(children) =>
      BinaryIsGrouped(children[0]);
      BinaryIsGrouped(children[1]);
      GroupedTwo(children);
      NestedTwo(node.And?, children);
    case Or(children) =>
      BinaryIsGrouped(children[0]);
      BinaryIsGrouped(children[1]);
      GroupedTwo(children);
      NestedTwo(node.And?, children);
    case Not(operand) => BinaryIsGrouped(operand);
    case _ =>
  }

  lemma NestedTwo(isAnd: bool, nodes: seq<Node>)
    requires |nodes| == 2
    ensures Nested(isAnd, [nodes[0], nodes[1]]) == if isAnd then And(nodes) else Or(nodes)
  {
    var two := [nodes[0], nodes[1]];
    assert two == nodes && Nested(isAnd, two[1..]) == nodes[1];
  }

  lemma GroupedTwo(nodes: seq<Node>)
    requires |nodes| == 2 && WellFormed(nodes[0]) && WellFormed(nodes[1])
    ensures GroupedAll(nodes) == [Grouped(nodes[0]), Grouped(nodes[1])]
  {
    assert nodes[1..][1..] == [] && GroupedAll(nodes[1..][1..]) == [];
  }

  /** Printing and parsing a tree only rearranges it. */
  lemma {:induction false} ReparsedIsEquivalent(node: Node)
    requires WellFormed(node)
    ensures Equivalent(Reparsed(node), Grouped(node))
    decreases node, 0
  {
    match node
    case And(children) => ReparsedOperands(true, children);
    case Or(children) => ReparsedOperands(false, children);
    case Not(operand) =>
      ReparsedIsEquivalent(operand);
      InNegation(Reparsed(operand), Grouped(operand));
    case _ => Same(node);
  }

  lemma {:induction false} ReparsedOperands(isAnd: bool, nodes: seq<Node>)
    requires nodes != [] && forall i :: 0 <= i < |nodes| ==> WellFormed(nodes[i])
    ensures Equivalent(Nested(isAnd, SortByText(Strings(nodes), ReparsedAll(nodes))), Nested(isAnd, GroupedAll(nodes)))
    decreases nodes, 2
  {
    ReparsedAreEquivalent(nodes);
    SortedIsEquivalent(isAnd, Strings(nodes), ReparsedAll(nodes));
    NestedIsEquivalent(isAnd, ReparsedAll(nodes), GroupedAll(nodes));
    Through(Nested(isAnd, SortByText(Strings(nodes), ReparsedAll(nodes))), Nested(isAnd, ReparsedAll(nodes)),
            Nested(isAnd, GroupedAll(nodes)));
  }

  lemma {:induction false} ReparsedAreEquivalent(nodes: seq<Node>)
    requires forall i :: 0 <= i < |nodes| ==> WellFormed(nodes[i])
    ensures AllEquivalent(ReparsedAll(nodes), GroupedAll(nodes))
    decreases nodes, 1
  {
    if nodes != [] {
      ReparsedIsEquivalent(nodes[0]);
      ReparsedAreEquivalent(nodes[1..]);
    }
  }

  /** Flattening only regroups. */
  lemma {:induction false} FlattenedIsEquivalent(node: Node)
    requires Good(node)
    ensures WellFormed(Flatten(node)) && Equivalent(Grouped(Flatten(node)), node)
    decreases node, 1
  {
    FlattenedIsFlat(node);
    match node
    case And(children) => FlattenedOperands(true, node, children[0], children[1]);
    case Or(children) => FlattenedOperands(false, node, children[0], children[1]);
    case Not(operand) =>
      FlattenedIsEquivalent(operand);
      InNegation(Grouped(Flatten(operand)), operand);
    case _ => Same(node);
  }

  lemma {:induction false} FlattenedOperands(isAnd: bool, node: Node, a: Node, b: Node)
    requires Good(node) && a < node && b < node && node == Pair(isAnd, a, b)
    ensures WellFormed(Flatten(node)) && Equivalent(Grouped(Flatten(node)), node)
    decreases node, 0
  {
    FlattenedIsFlat(node);
    assert node.children[0] == a && node.children[1] == b;
    FlattenedIsEquivalent(a);
    FlattenedIsEquivalent(b);
    FlattenedIsFlat(a);
    FlattenedIsFlat(b);
    var left, right := Spread(isAnd, Flatten(a)), Spread(isAnd, Flatten(b));
    SpreadIsFlat(isAnd, Flatten(a));
    SpreadIsFlat(isAnd, Flatten(b));
    GroupedConcat(left, right);
    SpreadIsGrouped(isAnd, Flatten(a));
    SpreadIsGrouped(isAnd, Flatten(b));
    ConcatIsEquivalent(isAnd, GroupedAll(left), GroupedAll(right));
    InPair(isAnd, Grouped(Flatten(a)), Grouped(Flatten(b)), a, b);
    Through(Grouped(Flatten(node)), Pair(isAnd, Grouped(Flatten(a)), Grouped(Flatten(b))), node);
  }

  lemma SpreadIsGrouped(isAnd: bool, node: Node)
    requires WellFormed(node)
    ensures Spread(isAnd, node) != [] && forall i :: 0 <= i < |Spread(isAnd, node)| ==>
        WellFormed(Spread(isAnd, node)[i])
    ensures Nested(isAnd, GroupedAll(Spread(isAnd, node))) == Grouped(node)
  {
    if (if isAnd then !node.And? else !node.Or?) {
      var single := [node];
      assert single[1..] == [] && GroupedAll(single) == [Grouped(node)];
    }
  }

  // ----- The normal form decides ----------------------------------------------------------

  /** A selection and what its normal form parses to differ only by rearrangement. */
  lemma NormalTreeIsEquivalent(node: Node)
    requires Good(node)
    ensures Equivalent(NormalTree(node), node)
  {
    ReparsedShape(node);
    FlattenedIsFlat(Reparsed(node));
    var flat := Flatten(Reparsed(node));
    ReparsedIsEquivalent(flat);
    FlattenedIsEquivalent(Reparsed(node));
    Through(NormalTree(node), Grouped(flat), Reparsed(node));
    ReparsedIsEquivalent(node);
    BinaryIsGrouped(node);
    Through(NormalTree(node), Reparsed(node), node);
  }

  /**
    Two parsed selections have the same normal form if and only if they differ only by
    associativity and commutativity of `and` and `or`.
   */
  lemma NormalFormDecidesEquivalence(a: Node, b: Node)
    requires Good(a) && Good(b)
    ensures NormalizedString(a) == NormalizedString(b) <==> Equivalent(a, b)
  {
    if Equivalent(a, b) {
      EquivalentHaveEqualNormalForms(a, b);
    }
    if NormalizedString(a) == NormalizedString(b) {
      NormalFormIsParsed(a);
      NormalFormIsParsed(b);
      assert NormalTree(a) == NormalTree(b);
      NormalTreeIsEquivalent(a);
      NormalTreeIsEquivalent(b);
      Back(NormalTree(a), a);
      Through(a, NormalTree(a), b);
    }
  }
}
