/**
  The normal form of a selection (src/core/selection.js) and the set a selection stands for
  (`evaluateSelection` in src/core/registry.js).
 */
module SelectionForms {
  import opened Wrappers
  import opened Selections
  import opened SelectionParsing

  // ----- Flattening -----------------------------------------------------------------------

  /** The operands of a node of the same operator, otherwise the node itself. */
  function Spread(isAnd: bool, node: Node): seq<Node> {
    if isAnd && node.And? then node.children
    else if !isAnd && node.Or? then node.children
    else [node]
  }

  function Flatten(node: Node): Node
    requires WellFormed(node) && Binary(node)
  {
    match node
    case And(children) => And(Spread(true, Flatten(children[0])) + Spread(true, Flatten(children[1])))
    case Or(children) => Or(Spread(false, Flatten(children[0])) + Spread(false, Flatten(children[1])))
    case Not(operand) => Not(Flatten(operand))
    case _ => node
  }

  /** The normal form: print, parse, flatten, print. */
  function NormalizedString(node: Node): Text
    requires WellFormed(node)
  {
    ParseUndoesToString(node);
    ReparsedShape(node);
    ToString(Flatten(Parse(ToString(node)).value))
  }

  // ----- Shapes ---------------------------------------------------------------------------

  predicate Good(node: Node) { WellFormed(node) && Binary(node) }

  predicate AllGood(nodes: seq<Node>) { forall i :: 0 <= i < |nodes| ==> Good(nodes[i]) }

  lemma {:induction false} InsertedIsGood(x: Text, n: Node, texts: seq<Text>, nodes: seq<Node>)
    requires |texts| == |nodes| && Good(n) && AllGood(nodes)
    ensures AllGood(InsertByText(x, n, texts, nodes))
  {
    if texts != [] && !AtMost(x, texts[0]) { InsertedIsGood(x, n, texts[1..], nodes[1..]); }
  }

  lemma {:induction false} SortedIsGood(texts: seq<Text>, nodes: seq<Node>)
    requires |texts| == |nodes| && AllGood(nodes)
    ensures AllGood(SortByText(texts, nodes))
  {
    if texts != [] {
      SortedIsGood(texts[1..], nodes[1..]);
      InsertedIsGood(texts[0], nodes[0], Sort(texts[1..]), SortByText(texts[1..], nodes[1..]));
    }
  }

  lemma {:induction false} NestedIsGood(isAnd: bool, nodes: seq<Node>)
    requires AllGood(nodes) && nodes != []
    ensures Good(Nested(isAnd, nodes))
  {
    if |nodes| > 1 { NestedIsGood(isAnd, nodes[1..]); }
  }

  lemma {:induction false} ReparsedShape(node: Node)
    requires WellFormed(node)
    ensures Good(Reparsed(node))
    decreases node, 0
  {
    match node
    case And(children) =>
      ReparsedShapes(children);
      SortedIsGood(Strings(children), ReparsedAll(children));
      NestedIsGood(true, SortByText(Strings(children), ReparsedAll(children)));
    case Or(children) =>
      ReparsedShapes(children);
      SortedIsGood(Strings(children), ReparsedAll(children));
      NestedIsGood(false, SortByText(Strings(children), ReparsedAll(children)));
    case Not(operand) => ReparsedShape(operand);
    case _ =>
  }

  lemma {:induction false} ReparsedShapes(nodes: seq<Node>)
    requires forall i :: 0 <= i < |nodes| ==> WellFormed(nodes[i])
    ensures AllGood(ReparsedAll(nodes))
    decreases nodes, 1
  {
    if nodes != [] {
      ReparsedShape(nodes[0]);
      ReparsedShapes(nodes[1..]);
    }
  }

  /** No operator stands directly below itself. */
  predicate IsFlat(node: Node) {
    match node
    case And(children) => forall i :: 0 <= i < |children| ==> IsFlat(children[i]) && !children[i].And?
    case Or(children) => forall i :: 0 <= i < |children| ==> IsFlat(children[i]) && !children[i].Or?
    case Not(operand) => IsFlat(operand)
    case _ => true
  }

  lemma {:induction false} FlattenedIsFlat(node: Node)
    requires Good(node)
    ensures WellFormed(Flatten(node)) && IsFlat(Flatten(node))
  {
    match node
    case And(children) =>
      FlattenedIsFlat(children[0]);
      FlattenedIsFlat(children[1]);
      SpreadIsFlat(true, Flatten(children[0]));
      SpreadIsFlat(true, Flatten(children[1]));
    case Or(children) =>
      FlattenedIsFlat(children[0]);
      FlattenedIsFlat(children[1]);
      SpreadIsFlat(false, Flatten(children[0]));
      SpreadIsFlat(false, Flatten(children[1]));
    case Not(operand) => FlattenedIsFlat(operand);
    case _ =>
  }

  lemma SpreadIsFlat(isAnd: bool, node: Node)
    requires WellFormed(node) && IsFlat(node)
    ensures |Spread(isAnd, node)| >= 1
    ensures forall i :: 0 <= i < |Spread(isAnd, node)| ==>
              var c := Spread(isAnd, node)[i]; WellFormed(c) && IsFlat(c) && (if isAnd then !c.And? else !c.Or?)
  {
  }

  // ----- Sorting --------------------------------------------------------------------------

  lemma {:induction false} AtMostIsTotal(a: Text, b: Text)
    ensures AtMost(a, b) || AtMost(b, a)
    ensures AtMost(a, b) && AtMost(b, a) ==> a == b
  {
    if a != [] && b != [] && a[0] == b[0] {
      AtMostIsTotal(a[1..], b[1..]);
      assert a == [a[0]] + a[1..] && b == [b[0]] + b[1..];
    }
  }

  lemma {:induction false} AtMostIsTransitive(a: Text, b: Text, c: Text)
    requires AtMost(a, b) && AtMost(b, c)
    ensures AtMost(a, c)
  {
    if a != [] && b != [] && c != [] && a[0] == b[0] == c[0] { AtMostIsTransitive(a[1..], b[1..], c[1..]); }
  }

  ghost predicate IsSorted(xs: seq<Text>) {
    forall i, j :: 0 <= i < j < |xs| ==> AtMost(xs[i], xs[j])
  }

  lemma PutFirst(x: Text, xs: seq<Text>)
    requires IsSorted(xs) && forall y :: y in xs ==> AtMost(x, y)
    ensures IsSorted([x] + xs) && multiset([x] + xs) == multiset(xs) + multiset{x}
  {
  }

  lemma {:induction false} InsertedIsSorted(x: Text, sorted: seq<Text>)
    requires IsSorted(sorted)
    ensures IsSorted(Insert(x, sorted)) && multiset(Insert(x, sorted)) == multiset(sorted) + multiset{x}
  {
    if sorted == [] || AtMost(x, sorted[0]) {
      forall y | y in sorted ensures AtMost(x, y) {
        HeadIsSmallest(sorted, y);
        AtMostIsTransitive(x, sorted[0], y);
      }
      PutFirst(x, sorted);
    } else {
      AtMostIsTotal(x, sorted[0]);
      InsertedIsSorted(x, sorted[1..]);
      TailOfMultiset(sorted);
      var rest := Insert(x, sorted[1..]);
      forall y | y in rest ensures AtMost(sorted[0], y) {
        assert y in multiset(rest);
        if y != x { HeadIsSmallest(sorted, y); }
      }
      PutFirst(sorted[0], rest);
    }
  }

  lemma {:induction false} SortSorts(xs: seq<Text>)
    ensures IsSorted(Sort(xs)) && multiset(Sort(xs)) == multiset(xs)
  {
    if xs != [] {
      SortSorts(xs[1..]);
      InsertedIsSorted(xs[0], Sort(xs[1..]));
      assert xs == [xs[0]] + xs[1..];
    }
  }

  lemma TailOfMultiset(xs: seq<Text>)
    requires xs != []
    ensures multiset(xs[1..]) == multiset(xs) - multiset{xs[0]} && xs[0] in multiset(xs)
  {
    assert xs == [xs[0]] + xs[1..];
  }

  lemma SameSize(a: seq<Text>, b: seq<Text>)
    requires multiset(a) == multiset(b)
    ensures |a| == |b|
  {
    assert |a| == |multiset(a)| && |b| == |multiset(b)|;
  }

  lemma HeadAndTail(a: seq<Text>, b: seq<Text>)
    requires a != [] && b != [] && a[0] == b[0] && a[1..] == b[1..]
    ensures a == b
  {
    assert a == [a[0]] + a[1..] && b == [b[0]] + b[1..];
  }

  lemma {:induction false} SortedIsUnique(a: seq<Text>, b: seq<Text>)
    requires IsSorted(a) && IsSorted(b) && multiset(a) == multiset(b)
    ensures a == b
  {
    SameSize(a, b);
    if a != [] {
      TailOfMultiset(a);
      TailOfMultiset(b);
      HeadIsSmallest(a, b[0]);
      HeadIsSmallest(b, a[0]);
      AtMostIsTotal(a[0], b[0]);
      SortedIsUnique(a[1..], b[1..]);
      HeadAndTail(a, b);
    }
  }

  lemma HeadIsSmallest(xs: seq<Text>, x: Text)
    requires IsSorted(xs) && x in xs
    ensures AtMost(xs[0], x)
  {
    AtMostIsTotal(x, x);
  }

  /** Sorting forgets the order. */
  lemma SortForgetsOrder(xs: seq<Text>, ys: seq<Text>)
    requires multiset(xs) == multiset(ys)
    ensures Sort(xs) == Sort(ys)
  {
    SortSorts(xs);
    SortSorts(ys);
    SortedIsUnique(Sort(xs), Sort(ys));
  }

  // ----- The canonical text ---------------------------------------------------------------

  /** The normal form without parsing: all operands of an operator, however grouped, sorted. */
  function Canon(node: Node): Text
    decreases node, 0
  {
    match node
    case And(children) => Print(AND, Sort(CanonAll(true, children)))
    case Or(children) => Print(OR, Sort(CanonAll(false, children)))
    case Not(operand) => Negation(Canon(operand))
    case _ => ToString(node)
  }

  /** The texts of the operands a node contributes to the operator above it. */
  function CanonOperands(isAnd: bool, node: Node): seq<Text>
    decreases node, 1
  {
    if isAnd && node.And? then CanonAll(isAnd, node.children)
    else if !isAnd && node.Or? then CanonAll(isAnd, node.children)
    else [Canon(node)]
  }

  function CanonAll(isAnd: bool, nodes: seq<Node>): seq<Text>
    decreases nodes, 2
  {
    if nodes == [] then [] else CanonOperands(isAnd, nodes[0]) + CanonAll(isAnd, nodes[1..])
  }

  /** Two nodes contribute the same operands, in any order, whatever stands above them. */
  ghost predicate SameOperands(a: Node, b: Node) {
    && multiset(CanonOperands(true, a)) == multiset(CanonOperands(true, b))
    && multiset(CanonOperands(false, a)) == multiset(CanonOperands(false, b))
  }

  lemma CanonFromOperands(isAnd: bool, node: Node)
    requires if isAnd then node.And? else node.Or?
    ensures Canon(node) == Print(if isAnd then AND else OR, Sort(CanonOperands(isAnd, node)))
    ensures CanonOperands(!isAnd, node) == [Canon(node)]
  {
  }

  /** Nodes of the same operator with the same operands have the same text everywhere. */
  lemma SameOperatorSameCanon(isAnd: bool, a: Node, b: Node)
    requires if isAnd then a.And? && b.And? else a.Or? && b.Or?
    requires multiset(CanonOperands(isAnd, a)) == multiset(CanonOperands(isAnd, b))
    ensures Canon(a) == Canon(b) && SameOperands(a, b)
  {
    CanonFromOperands(isAnd, a);
    CanonFromOperands(isAnd, b);
    SortForgetsOrder(CanonOperands(isAnd, a), CanonOperands(isAnd, b));
  }

  lemma {:induction false} CanonOfNested(isAnd: bool, nodes: seq<Node>)
    requires nodes != []
    ensures CanonOperands(isAnd, Nested(isAnd, nodes)) == CanonAll(isAnd, nodes)
  {
    if |nodes| == 1 {
      assert CanonAll(isAnd, nodes[1..]) == [];
    } else {
      CanonOfNested(isAnd, nodes[1..]);
      CanonOfTwo(isAnd, nodes[0], Nested(isAnd, nodes[1..]));
    }
  }

  lemma CanonOfOne(isAnd: bool, node: Node)
    ensures CanonAll(isAnd, [node]) == CanonOperands(isAnd, node)
  {
    var single := [node];
    assert single[1..] == [];
    assert CanonAll(isAnd, single[1..]) == [];
    assert CanonAll(isAnd, single) == CanonOperands(isAnd, single[0]) + CanonAll(isAnd, single[1..]);
  }

  lemma CanonOfTwo(isAnd: bool, a: Node, b: Node)
    ensures CanonAll(isAnd, [a, b]) == CanonOperands(isAnd, a) + CanonOperands(isAnd, b)
  {
    var two := [a, b];
    assert two[1..] == [b];
    CanonOfOne(isAnd, b);
    assert CanonAll(isAnd, two) == CanonOperands(isAnd, two[0]) + CanonAll(isAnd, two[1..]);
  }

  lemma {:induction false} CanonOfInserted(isAnd: bool, x: Text, n: Node, texts: seq<Text>, nodes: seq<Node>)
    requires |texts| == |nodes|
    ensures multiset(CanonAll(isAnd, InsertByText(x, n, texts, nodes))) ==
            multiset(CanonOperands(isAnd, n)) + multiset(CanonAll(isAnd, nodes))
  {
    var r := InsertByText(x, n, texts, nodes);
    if texts == [] || AtMost(x, texts[0]) {
      assert r[1..] == nodes;
    } else {
      CanonOfInserted(isAnd, x, n, texts[1..], nodes[1..]);
      assert r[1..] == InsertByText(x, n, texts[1..], nodes[1..]);
    }
  }

  lemma {:induction false} CanonOfSorted(isAnd: bool, texts: seq<Text>, nodes: seq<Node>)
    requires |texts| == |nodes|
    ensures multiset(CanonAll(isAnd, SortByText(texts, nodes))) == multiset(CanonAll(isAnd, nodes))
  {
    if texts != [] {
      CanonOfSorted(isAnd, texts[1..], nodes[1..]);
      CanonOfInserted(isAnd, texts[0], nodes[0], Sort(texts[1..]), SortByText(texts[1..], nodes[1..]));
    }
  }

  /** Reading a printed tree back does not change its canonical text. */
  lemma {:induction false} CanonOfReparsed(node: Node)
    requires WellFormed(node)
    ensures Canon(Reparsed(node)) == Canon(node) && SameOperands(Reparsed(node), node)
    decreases node, 0
  {
    match node
    case And(children) => CanonOfOperator(true, node, children);
    case Or(children) => CanonOfOperator(false, node, children);
    case Not(operand) => CanonOfReparsed(operand);
    case _ =>
  }

  lemma {:induction false} CanonOfOperator(isAnd: bool, node: Node, children: seq<Node>)
    requires WellFormed(node) && node == if isAnd then And(children) else Or(children)
    ensures Canon(Reparsed(node)) == Canon(node) && SameOperands(Reparsed(node), node)
    decreases children, 3
  {
    var sorted := SortByText(Strings(children), ReparsedAll(children));
    CanonOfAllReparsed(isAnd, children);
    CanonOfSorted(isAnd, Strings(children), ReparsedAll(children));
    CanonOfNested(isAnd, sorted);
    SameOperatorSameCanon(isAnd, Reparsed(node), node);
  }

  lemma {:induction false} CanonOfAllReparsed(isAnd: bool, nodes: seq<Node>)
    requires forall i :: 0 <= i < |nodes| ==> WellFormed(nodes[i])
    ensures multiset(CanonAll(isAnd, ReparsedAll(nodes))) == multiset(CanonAll(isAnd, nodes))
    decreases nodes, 2
  {
    if nodes != [] {
      CanonOfReparsed(nodes[0]);
      CanonOfAllReparsed(isAnd, nodes[1..]);
      assert ReparsedAll(nodes)[1..] == ReparsedAll(nodes[1..]);
    }
  }

  lemma {:induction false} CanonOfConcat(isAnd: bool, a: seq<Node>, b: seq<Node>)
    ensures CanonAll(isAnd, a + b) == CanonAll(isAnd, a) + CanonAll(isAnd, b)
  {
    if a == [] {
      assert a + b == b;
    } else {
      var first, rest, last := CanonOperands(isAnd, a[0]), CanonAll(isAnd, a[1..]), CanonAll(isAnd, b);
      CanonOfConcat(isAnd, a[1..], b);
      assert (a + b)[1..] == a[1..] + b && (a + b)[0] == a[0];
      assert first + (rest + last) == (first + rest) + last;
    }
  }

  lemma CanonOfSpread(isAnd: bool, node: Node)
    ensures CanonAll(isAnd, Spread(isAnd, node)) == CanonOperands(isAnd, node)
  {
    if isAnd && node.And? {
    } else if !isAnd && node.Or? {
    } else {
      CanonOfOne(isAnd, node);
    }
  }

  /** Flattening does not change the canonical text. */
  lemma {:induction false} CanonOfFlattened(node: Node)
    requires Good(node)
    ensures Canon(Flatten(node)) == Canon(node)
    ensures forall isAnd :: CanonOperands(isAnd, Flatten(node)) == CanonOperands(isAnd, node)
  {
    match node
    case And(children) => CanonOfFlattenedPair(true, node, children[0], children[1]);
    case Or(children) => CanonOfFlattenedPair(false, node, children[0], children[1]);
    case Not(operand) => CanonOfFlattened(operand);
    case _ =>
  }

  lemma {:induction false} CanonOfFlattenedPair(isAnd: bool, node: Node, a: Node, b: Node)
    requires Good(node) && a < node && b < node && node == if isAnd then And([a, b]) else Or([a, b])
    ensures Canon(Flatten(node)) == Canon(node)
    ensures forall isAnd :: CanonOperands(isAnd, Flatten(node)) == CanonOperands(isAnd, node)
    decreases node, 0
  {
    assert node.children[0] == a && node.children[1] == b;
    CanonOfFlattened(a);
    CanonOfFlattened(b);
    CanonOfSpread(isAnd, Flatten(a));
    CanonOfSpread(isAnd, Flatten(b));
    CanonOfConcat(isAnd, Spread(isAnd, Flatten(a)), Spread(isAnd, Flatten(b)));
    CanonOfTwo(isAnd, a, b);
    CanonFromOperands(isAnd, node);
    CanonFromOperands(isAnd, Flatten(node));
  }

  /** A flat tree prints as its canonical text. */
  lemma {:induction false} FlatPrintsCanon(node: Node)
    requires IsFlat(node)
    ensures ToString(node) == Canon(node)
    decreases node, 0
  {
    match node
    case And(children) => FlatChildrenPrintCanon(true, children);
    case Or(children) => FlatChildrenPrintCanon(false, children);
    case Not(operand) => FlatPrintsCanon(operand);
    case _ =>
  }

  lemma {:induction false} FlatChildrenPrintCanon(isAnd: bool, nodes: seq<Node>)
    requires forall i :: 0 <= i < |nodes| ==> IsFlat(nodes[i]) && (if isAnd then !nodes[i].And? else !nodes[i].Or?)
    ensures Strings(nodes) == CanonAll(isAnd, nodes)
    decreases nodes, 1
  {
    if nodes != [] {
      FlatPrintsCanon(nodes[0]);
      FlatChildrenPrintCanon(isAnd, nodes[1..]);
    }
  }

  /** The normal form is the canonical text. */
  lemma NormalizedIsCanon(node: Node)
    requires WellFormed(node)
    ensures NormalizedString(node) == Canon(node)
  {
    ParseUndoesToString(node);
    ReparsedShape(node);
    CanonOfReparsed(node);
    CanonOfFlattened(Reparsed(node));
    FlattenedIsFlat(Reparsed(node));
    FlatPrintsCanon(Flatten(Reparsed(node)));
  }

  /** The tree that the normal form reads back as. */
  function NormalTree(node: Node): (r: Node)
    requires WellFormed(node)
    ensures Good(r)
  {
    ReparsedShape(node);
    FlattenedIsFlat(Reparsed(node));
    ReparsedShape(Flatten(Reparsed(node)));
    Reparsed(Flatten(Reparsed(node)))
  }

  lemma NormalFormIsParsed(node: Node)
    requires WellFormed(node)
    ensures Parse(NormalizedString(node)) == Ok(NormalTree(node))
  {
    ParseUndoesToString(node);
    ReparsedShape(node);
    FlattenedIsFlat(Reparsed(node));
    ParseUndoesToString(Flatten(Reparsed(node)));
  }

  lemma CanonOfNormalTree(node: Node)
    requires WellFormed(node)
    ensures Canon(NormalTree(node)) == Canon(node)
  {
    ReparsedShape(node);
    FlattenedIsFlat(Reparsed(node));
    CanonOfReparsed(Flatten(Reparsed(node)));
    CanonOfFlattened(Reparsed(node));
    CanonOfReparsed(node);
  }

  /** Normalising the parsed normal form gives the normal form again. */
  lemma NormalFormIsIdempotent(node: Node)
    requires WellFormed(node)
    ensures var again := Parse(NormalizedString(node));
            again.Ok? && Good(again.value) && NormalizedString(again.value) == NormalizedString(node)
  {
    NormalFormIsParsed(node);
    CanonOfNormalTree(node);
    NormalizedIsCanon(node);
    NormalizedIsCanon(NormalTree(node));
  }

  // ----- Associativity and commutativity ----------------------------------------------------

  function Pair(isAnd: bool, a: Node, b: Node): Node { if isAnd then And([a, b]) else Or([a, b]) }

  /** One use of commutativity or associativity of `and` or `or`, anywhere in the tree. */
  datatype Move =
    | Swap(isAnd: bool, a: Node, b: Node)
    | Regroup(isAnd: bool, a: Node, b: Node, c: Node)
    | InLeft(isAnd: bool, inner: Move, b: Node)
    | InRight(isAnd: bool, a: Node, inner: Move)
    | InNot(inner: Move)

  function Before(m: Move): Node {
    match m
    case Swap(isAnd, a, b) => Pair(isAnd, a, b)
    case Regroup(isAnd, a, b, c) => Pair(isAnd, a, Pair(isAnd, b, c))
    case InLeft(isAnd, inner, b) => Pair(isAnd, Before(inner), b)
    case InRight(isAnd, a, inner) => Pair(isAnd, a, Before(inner))
    case InNot(inner) => Not(Before(inner))
  }

  function After(m: Move): Node {
    match m
    case Swap(isAnd, a, b) => Pair(isAnd, b, a)
    case Regroup(isAnd, a, b, c) => Pair(isAnd, Pair(isAnd, a, b), c)
    case InLeft(isAnd, inner, b) => Pair(isAnd, After(inner), b)
    case InRight(isAnd, a, inner) => Pair(isAnd, a, After(inner))
    case InNot(inner) => Not(After(inner))
  }

  ghost predicate OneMove(a: Node, b: Node) {
    exists m :: (Before(m) == a && After(m) == b) || (Before(m) == b && After(m) == a)
  }

  /** The two trees differ only by associativity and commutativity of `and` and `or`. */
  ghost predicate Equivalent(a: Node, b: Node) {
    exists chain: seq<Node> :: IsChain(chain, a, b)
  }

  ghost predicate IsChain(chain: seq<Node>, a: Node, b: Node) {
    && chain != [] && chain[0] == a && chain[|chain| - 1] == b
    && forall i :: 0 <= i < |chain| - 1 ==> Joined(chain, i)
  }

  ghost predicate Joined(chain: seq<Node>, i: nat)
    requires i + 1 < |chain|
  {
    OneMove(chain[i], chain[i + 1])
  }

  lemma PairOperands(isAnd: bool, a: Node, b: Node)
    ensures CanonOperands(isAnd, Pair(isAnd, a, b)) == CanonOperands(isAnd, a) + CanonOperands(isAnd, b)
  {
    CanonOfTwo(isAnd, a, b);
  }

  lemma PairKeepsOperands(isAnd: bool, a: Node, b: Node, c: Node, d: Node)
    requires multiset(CanonOperands(isAnd, a)) + multiset(CanonOperands(isAnd, b)) ==
             multiset(CanonOperands(isAnd, c)) + multiset(CanonOperands(isAnd, d))
    ensures Canon(Pair(isAnd, a, b)) == Canon(Pair(isAnd, c, d)) && SameOperands(Pair(isAnd, a, b), Pair(isAnd, c, d))
  {
    PairOperands(isAnd, a, b);
    PairOperands(isAnd, c, d);
    SameOperatorSameCanon(isAnd, Pair(isAnd, a, b), Pair(isAnd, c, d));
  }

  lemma {:induction false} MoveKeepsCanon(m: Move)
    ensures Canon(Before(m)) == Canon(After(m)) && SameOperands(Before(m), After(m))
  {
    match m
    case Swap(isAnd, a, b) => PairKeepsOperands(isAnd, a, b, b, a);
    case Regroup(isAnd, a, b, c) =>
      PairOperands(isAnd, a, b);
      PairOperands(isAnd, b, c);
      PairKeepsOperands(isAnd, a, Pair(isAnd, b, c), Pair(isAnd, a, b), c);
    case InLeft(isAnd, inner, b) =>
      MoveKeepsCanon(inner);
      PairKeepsOperands(isAnd, Before(inner), b, After(inner), b);
    case InRight(isAnd, a, inner) =>
      MoveKeepsCanon(inner);
      PairKeepsOperands(isAnd, a, Before(inner), a, After(inner));
    case InNot(inner) => MoveKeepsCanon(inner);
  }

  lemma ChainTail(chain: seq<Node>, a: Node, b: Node)
    requires IsChain(chain, a, b) && |chain| > 1
    ensures IsChain(chain[1..], chain[1], b)
  {
    forall i | 0 <= i < |chain| - 2 ensures Joined(chain[1..], i) { assert Joined(chain, i + 1); }
  }

  lemma {:induction false} ChainKeepsCanon(chain: seq<Node>, a: Node, b: Node)
    requires IsChain(chain, a, b)
    ensures Canon(a) == Canon(b)
    decreases |chain|
  {
    if |chain| > 1 {
      assert Joined(chain, 0);
      var m :| (Before(m) == a && After(m) == chain[1]) || (Before(m) == chain[1] && After(m) == a);
      MoveKeepsCanon(m);
      ChainTail(chain, a, b);
      ChainKeepsCanon(chain[1..], chain[1], b);
    }
  }

  /** Selections that differ only by associativity and commutativity have the same normal form. */
  lemma EquivalentHaveEqualNormalForms(a: Node, b: Node)
    requires WellFormed(a) && WellFormed(b) && Equivalent(a, b)
    ensures NormalizedString(a) == NormalizedString(b)
  {
    var chain :| IsChain(chain, a, b);
    ChainKeepsCanon(chain, a, b);
    NormalizedIsCanon(a);
    NormalizedIsCanon(b);
  }

  // ----- Meaning --------------------------------------------------------------------------

  /** What the resource index returns for all resources, for a property and for a value of it. */
  datatype Index = Index(
    resources: set<Text>,
    byName: map<Text, set<Text>>,
    byValue: map<(Text, Text), set<Text>>)

  function Matching(index: Index, name: Text): set<Text> {
    if name in index.byName then index.byName[name] else {}
  }

  function MatchingValue(index: Index, name: Text, value: Text): set<Text> {
    if (name, value) in index.byValue then index.byValue[(name, value)] else {}
  }

  /** The set a parsed selection stands for. */
  function EvaluateSelection(index: Index, node: Node): set<Text>
    requires Good(node)
  {
    match node
    case And(children) => EvaluateSelection(index, children[0]) * EvaluateSelection(index, children[1])
    case Or(children) => EvaluateSelection(index, children[0]) + EvaluateSelection(index, children[1])
    case Not(operand) => index.resources - EvaluateSelection(index, operand)
    case StringCheck(name, value) => MatchingValue(index, name, value)
    case WildcardCheck(name) => Matching(index, name)
  }

  /** One resource satisfies a selection, grouped in any way. */
  predicate Satisfies(index: Index, node: Node, r: Text)
    decreases node, 0
  {
    match node
    case And(children) => SatisfiesAll(true, index, children, r)
    case Or(children) => SatisfiesAll(false, index, children, r)
    case Not(operand) => r in index.resources && !Satisfies(index, operand, r)
    case StringCheck(name, value) => r in MatchingValue(index, name, value)
    case WildcardCheck(name) => r in Matching(index, name)
    case Null => false
  }

  /** All of the nodes, or one of them. */
  predicate SatisfiesAll(all: bool, index: Index, nodes: seq<Node>, r: Text)
    decreases nodes, 1
  {
    if nodes == [] then all
    else if all then Satisfies(index, nodes[0], r) && SatisfiesAll(all, index, nodes[1..], r)
    else Satisfies(index, nodes[0], r) || SatisfiesAll(all, index, nodes[1..], r)
  }

  lemma SatisfiesTwo(all: bool, index: Index, a: Node, b: Node, r: Text)
    ensures SatisfiesAll(all, index, [a, b], r) <==>
              if all then Satisfies(index, a, r) && Satisfies(index, b, r)
                  else Satisfies(index, a, r) || Satisfies(index, b, r)
  {
    var two, one := [a, b], [b];
    assert two[1..] == one && one[1..] == [];
    assert SatisfiesAll(all, index, one[1..], r) == all;
    assert SatisfiesAll(all, index, one, r) == Satisfies(index, b, r);
  }

  lemma {:induction false} EvaluationIsSatisfaction(index: Index, node: Node, r: Text)
    requires Good(node)
    ensures r in EvaluateSelection(index, node) <==> Satisfies(index, node, r)
  {
    match node
    case And(children) =>
      EvaluationIsSatisfaction(index, children[0], r);
      EvaluationIsSatisfaction(index, children[1], r);
      assert children == [children[0], children[1]];
      SatisfiesTwo(true, index, children[0], children[1], r);
    case Or(children) =>
      EvaluationIsSatisfaction(index, children[0], r);
      EvaluationIsSatisfaction(index, children[1], r);
      assert children == [children[0], children[1]];
      SatisfiesTwo(false, index, children[0], children[1], r);
    case Not(operand) => EvaluationIsSatisfaction(index, operand, r);
    case _ =>
  }

  lemma {:induction false} NestedMeansAll(isAnd: bool, index: Index, nodes: seq<Node>, r: Text)
    requires nodes != []
    ensures Satisfies(index, Nested(isAnd, nodes), r) == SatisfiesAll(isAnd, index, nodes, r)
  {
    if |nodes| == 1 {
      assert SatisfiesAll(isAnd, index, nodes[1..], r) == isAnd;
    } else {
      NestedMeansAll(isAnd, index, nodes[1..], r);
      SatisfiesTwo(isAnd, index, nodes[0], Nested(isAnd, nodes[1..]), r);
    }
  }

  lemma {:induction false} InsertedMeansAll(isAnd: bool, index: Index, x: Text, n: Node, texts: seq<Text>,
                                            nodes: seq<Node>, r: Text)
    requires |texts| == |nodes|
    ensures SatisfiesAll(isAnd, index, InsertByText(x, n, texts, nodes), r) ==
        SatisfiesAll(isAnd, index, [n] + nodes, r)
  {
    assert ([n] + nodes)[1..] == nodes;
    if texts != [] && !AtMost(x, texts[0]) {
      InsertedMeansAll(isAnd, index, x, n, texts[1..], nodes[1..], r);
      assert InsertByText(x, n, texts, nodes)[1..] == InsertByText(x, n, texts[1..], nodes[1..]);
      assert ([n] + nodes[1..])[1..] == nodes[1..];
    }
  }

  lemma {:induction false} SortedMeansAll(isAnd: bool, index: Index, texts: seq<Text>, nodes: seq<Node>, r: Text)
    requires |texts| == |nodes|
    ensures SatisfiesAll(isAnd, index, SortByText(texts, nodes), r) == SatisfiesAll(isAnd, index, nodes, r)
  {
    if texts != [] {
      var sorted := SortByText(texts[1..], nodes[1..]);
      SortedMeansAll(isAnd, index, texts[1..], nodes[1..], r);
      InsertedMeansAll(isAnd, index, texts[0], nodes[0], Sort(texts[1..]), sorted, r);
      assert ([nodes[0]] + sorted)[1..] == sorted;
    }
  }

  lemma {:induction false} ReparsedMeansTheSame(index: Index, node: Node, r: Text)
    requires WellFormed(node)
    ensures Satisfies(index, Reparsed(node), r) == Satisfies(index, node, r)
    decreases node, 0
  {
    match node
    case And(children) => ReparsedMeansAll(true, index, children, r);
    case Or(children) => ReparsedMeansAll(false, index, children, r);
    case Not(operand) => ReparsedMeansTheSame(index, operand, r);
    case _ =>
  }

  lemma {:induction false} ReparsedMeansAll(isAnd: bool, index: Index, children: seq<Node>, r: Text)
    requires children != [] && forall i :: 0 <= i < |children| ==> WellFormed(children[i])
    ensures Satisfies(index, Nested(isAnd, SortByText(Strings(children), ReparsedAll(children))), r) ==
            SatisfiesAll(isAnd, index, children, r)
    decreases children, 2
  {
    EachMeansTheSame(isAnd, index, children, r);
    SortedMeansAll(isAnd, index, Strings(children), ReparsedAll(children), r);
    NestedMeansAll(isAnd, index, SortByText(Strings(children), ReparsedAll(children)), r);
  }

  lemma {:induction false} EachMeansTheSame(isAnd: bool, index: Index, nodes: seq<Node>, r: Text)
    requires forall i :: 0 <= i < |nodes| ==> WellFormed(nodes[i])
    ensures SatisfiesAll(isAnd, index, ReparsedAll(nodes), r) == SatisfiesAll(isAnd, index, nodes, r)
    decreases nodes, 1
  {
    if nodes != [] {
      ReparsedMeansTheSame(index, nodes[0], r);
      EachMeansTheSame(isAnd, index, nodes[1..], r);
      assert ReparsedAll(nodes)[1..] == ReparsedAll(nodes[1..]);
    }
  }

  lemma {:induction false} ConcatMeansBoth(isAnd: bool, index: Index, a: seq<Node>, b: seq<Node>, r: Text)
    ensures SatisfiesAll(isAnd, index, a + b, r) ==
            if isAnd then SatisfiesAll(isAnd, index, a, r) && SatisfiesAll(isAnd, index, b, r)
            else SatisfiesAll(isAnd, index, a, r) || SatisfiesAll(isAnd, index, b, r)
  {
    if a == [] {
      assert a + b == b;
    } else {
      ConcatMeansBoth(isAnd, index, a[1..], b, r);
      assert (a + b)[1..] == a[1..] + b;
    }
  }

  lemma SpreadMeansTheSame(isAnd: bool, index: Index, node: Node, r: Text)
    ensures SatisfiesAll(isAnd, index, Spread(isAnd, node), r) == Satisfies(index, node, r)
  {
    if isAnd && node.And? {
    } else if !isAnd && node.Or? {
    } else {
      var single := [node];
      assert single[1..] == [] && SatisfiesAll(isAnd, index, single[1..], r) == isAnd;
    }
  }

  lemma {:induction false} FlattenedMeansTheSame(index: Index, node: Node, r: Text)
    requires Good(node)
    ensures Satisfies(index, Flatten(node), r) == Satisfies(index, node, r)
    decreases node, 1
  {
    match node
    case And(children) => FlattenedPair(true, index, node, children[0], children[1], r);
    case Or(children) => FlattenedPair(false, index, node, children[0], children[1], r);
    case Not(operand) => FlattenedMeansTheSame(index, operand, r);
    case _ =>
  }

  lemma {:induction false} FlattenedPair(isAnd: bool, index: Index, node: Node, a: Node, b: Node, r: Text)
    requires Good(node) && a < node && b < node && node == Pair(isAnd, a, b)
    ensures Satisfies(index, Flatten(node), r) == Satisfies(index, node, r)
    decreases node, 0
  {
    assert node.children[0] == a && node.children[1] == b;
    FlattenedMeansTheSame(index, a, r);
    FlattenedMeansTheSame(index, b, r);
    SpreadMeansTheSame(isAnd, index, Flatten(a), r);
    SpreadMeansTheSame(isAnd, index, Flatten(b), r);
    ConcatMeansBoth(isAnd, index, Spread(isAnd, Flatten(a)), Spread(isAnd, Flatten(b)), r);
    SatisfiesTwo(isAnd, index, a, b, r);
  }

  /** The normal form stands for the same set of resources. */
  lemma NormalFormKeepsMeaning(index: Index, node: Node)
    requires Good(node)
    ensures var again := Parse(NormalizedString(node));
            again.Ok? && Good(again.value) && EvaluateSelection(index, again.value) == EvaluateSelection(index, node)
  {
    NormalFormIsParsed(node);
    var tree := NormalTree(node);
    forall r ensures r in EvaluateSelection(index, tree) <==> r in EvaluateSelection(index, node) {
      NormalTreeMeansTheSame(index, node, r);
      EvaluationIsSatisfaction(index, tree, r);
      EvaluationIsSatisfaction(index, node, r);
    }
  }

  lemma NormalTreeMeansTheSame(index: Index, node: Node, r: Text)
    requires WellFormed(node)
    ensures Satisfies(index, NormalTree(node), r) == Satisfies(index, node, r)
  {
    ReparsedShape(node);
    FlattenedIsFlat(Reparsed(node));
    ReparsedMeansTheSame(index, node, r);
    FlattenedMeansTheSame(index, Reparsed(node), r);
    ReparsedMeansTheSame(index, Flatten(Reparsed(node)), r);
  }

  /** Selections with the same normal form stand for the same set. */
  lemma EqualNormalFormsMeanTheSame(index: Index, a: Node, b: Node)
    requires Good(a) && Good(b) && NormalizedString(a) == NormalizedString(b)
    ensures EvaluateSelection(index, a) == EvaluateSelection(index, b)
  {
    NormalFormKeepsMeaning(index, a);
    NormalFormKeepsMeaning(index, b);
  }

  /**
    For every text that parses to a tree without a missing operand and with values that need
    no escape: the normal form parses, stands for the same set, and is its own normal form.
   */
  lemma NormalFormsOfSelections(index: Index, s: Text)
    requires Parse(s).Ok? && WellFormed(Parse(s).value)
    ensures Good(Parse(s).value)
    ensures var again := Parse(NormalizedString(Parse(s).value));
            && again.Ok? && Good(again.value)
            && NormalizedString(again.value) == NormalizedString(Parse(s).value)
            && EvaluateSelection(index, again.value) == EvaluateSelection(index, Parse(s).value)
  {
    ParsedIsBinary(s);
    NormalFormIsIdempotent(Parse(s).value);
    NormalFormKeepsMeaning(index, Parse(s).value);
  }
}
