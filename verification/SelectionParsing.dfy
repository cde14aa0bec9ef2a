/** Parsing undoes printing up to the order of operands (src/core/selection.js). */
module SelectionParsing {
  import opened Wrappers
  import opened Selections

  // ----- Reading one token ----------------------------------------------------------------

  predicate IsTerminal(t: Text) {
    t in {AND, OR, NOT, OPEN, CLOSE, EQUALS, STAR, INTERFACE, TYPE, ID, GROUP}
  }

  lemma DifferentStart(t: Text, s: Text, k: nat)
    requires k < |t| && k < |s| && t[k] != s[k]
    ensures !(t <= s)
  {
  }

  lemma OtherStart(s: Text)
    requires s != []
    ensures s[0] != 97 ==> !(AND <= s)
    ensures s[0] != 111 ==> !(OR <= s)
    ensures s[0] != 110 ==> !(NOT <= s)
    ensures s[0] != 40 ==> !(OPEN <= s)
    ensures s[0] != 41 ==> !(CLOSE <= s)
    ensures s[0] != 61 ==> !(EQUALS <= s)
    ensures s[0] != 42 ==> !(STAR <= s)
    ensures s[0] != 105 ==> !(INTERFACE <= s) && !(ID <= s)
    ensures s[0] != 116 ==> !(TYPE <= s)
    ensures s[0] != 103 ==> !(GROUP <= s)
  {
  }

  lemma OperatorLeads(t: Text, s: Text)
    requires t in {AND, OR, NOT, OPEN, CLOSE, EQUALS, STAR} && t <= s
    ensures LeadingTerminal(s) == Some(t)
  {
    assert s[0] == t[0];
    OtherStart(s);
  }

  lemma NameLeads(t: Text, s: Text)
    requires IsPropertyName(t) && t <= s
    ensures LeadingTerminal(s) == Some(t)
  {
    assert s[0] == t[0];
    OtherStart(s);
    if t == ID { DifferentStart(INTERFACE, s, 1); }
  }

  lemma TerminalIsRead(t: Text, rest: Text)
    requires IsTerminal(t)
    ensures NextToken(t + rest) == Ok(State(Some(Terminal(t)), rest))
  {
    var s := t + rest;
    assert t <= s && s[|t|..] == rest && s[0] == t[0];
    if IsPropertyName(t) { NameLeads(t, s); } else { OperatorLeads(t, s); }
  }

  lemma SpaceIsSkipped(s: Text)
    ensures NextToken(SPACE + s) == NextToken(s)
  {
    assert (SPACE + s)[1..] == s;
  }

  /** Needs no escape in a JSON string: section 7 of RFC 8259. */
  predicate Plain(v: Text) {
    forall c :: c in v ==> c != QUOTE && c != BACKSLASH && c >= BLANK
  }

  lemma {:induction false} ValueIsScanned(v: Text, rest: Text)
    requires Plain(v)
    ensures ScanLiteral(v + QUOTES + rest) == Some((v, rest)) && Decode(v) == Some(v)
  {
    var s := v + QUOTES + rest;
    if v == [] {
      assert s[1..] == rest;
    } else {
      assert s[0] == v[0] && v[0] in v;
      assert s[..1] == [v[0]] && s[1..] == v[1..] + QUOTES + rest;
      assert forall c :: c in v[1..] ==> c in v;
      ValueIsScanned(v[1..], rest);
      assert [v[0]] + v[1..] == v;
    }
  }

  lemma StringIsRead(v: Text, rest: Text)
    requires Plain(v)
    ensures NextToken(QUOTES + v + QUOTES + rest) == Ok(State(Some(Str(v)), rest))
  {
    var s := QUOTES + v + QUOTES + rest;
    OtherStart(s);
    assert s[1..] == v + QUOTES + rest;
    ValueIsScanned(v, rest);
  }

  // ----- Reading a printed tree -----------------------------------------------------------

  /** What a parser can return for a complete text, and its flattened forms. */
  predicate WellFormed(node: Node) {
    match node
    case And(children) => |children| >= 2 && forall i :: 0 <= i < |children| ==> WellFormed(children[i])
    case Or(children) => |children| >= 2 && forall i :: 0 <= i < |children| ==> WellFormed(children[i])
    case Not(operand) => WellFormed(operand)
    case StringCheck(name, value) => IsPropertyName(name) && Plain(value)
    case WildcardCheck(name) => IsPropertyName(name)
    case Null => false
  }

  /** Wherever the text stands, the parser takes it for the node and goes on behind it. */
  ghost predicate ReadsBefore(text: Text, node: Node, rest: Text) {
    NextToken(rest).Ok? ==>
      && NextToken(text + rest).Ok?
      && ParseFactor(NextToken(text + rest).value) == Ok(Parsed(node, NextToken(rest).value))
  }

  ghost predicate Reads(text: Text, node: Node) {
    node != Null && forall rest :: ReadsBefore(text, node, rest)
  }

  ghost predicate AllRead(texts: seq<Text>, nodes: seq<Node>) {
    |texts| == |nodes| && forall i :: 0 <= i < |texts| ==> Reads(texts[i], nodes[i])
  }

  /** The operands of the same operator, grouped to the right as the parser does. */
  function Nested(isAnd: bool, nodes: seq<Node>): Node
    requires nodes != []
  {
    if |nodes| == 1 then nodes[0]
    else if isAnd then And([nodes[0], Nested(isAnd, nodes[1..])])
    else Or([nodes[0], Nested(isAnd, nodes[1..])])
  }

  lemma NestedIsNode(texts: seq<Text>, nodes: seq<Node>, isAnd: bool)
    requires AllRead(texts, nodes) && nodes != []
    ensures Nested(isAnd, nodes) != Null
  {
    assert Reads(texts[0], nodes[0]);
  }

  lemma WordIsRead(word: Text, rest: Text)
    requires IsTerminal(word)
    ensures NextToken(SPACE + word + rest) == Ok(State(Some(Terminal(word)), rest))
  {
    Regroup(SPACE, word, rest, [], []);
    SpaceIsSkipped(word + rest);
    TerminalIsRead(word, rest);
  }

  lemma OperandIsRead(text: Text, node: Node, rest: Text)
    requires Reads(text, node) && NextToken(rest).Ok?
    ensures NextToken(SPACE + text + rest).Ok?
    ensures ParseFactor(NextToken(SPACE + text + rest).value) == Ok(Parsed(node, NextToken(rest).value))
  {
    assert ReadsBefore(text, node, rest);
    assert SPACE + text + rest == SPACE + (text + rest);
    SpaceIsSkipped(text + rest);
  }

  lemma OperandsSplit(operator: Text, texts: seq<Text>, rest: Text)
    requires texts != []
    ensures |texts| == 1 ==> Operands(operator, texts) + rest == SPACE + texts[0] + ((SPACE + CLOSE) + rest)
    ensures |texts| > 1 ==>
              Operands(operator, texts) + rest ==
                  SPACE + texts[0] + (SPACE + operator + (Operands(operator, texts[1..]) + rest))
  {
    if |texts| == 1 {
      Regroup(SPACE, texts[0], (SPACE + CLOSE), [], rest);
    } else {
      Regroup(SPACE, texts[0], SPACE + operator, Operands(operator, texts[1..]), rest);
      assert SPACE + texts[0] + SPACE + operator == SPACE + texts[0] + (SPACE + operator);
    }
  }

  lemma Regroup(a: Text, b: Text, c: Text, d: Text, e: Text)
    ensures a + b + c + d + e == a + b + (c + (d + e))
    ensures d == [] ==> a + b + c + e == a + b + (c + e)
    ensures a + b + c == a + (b + c)
  {
  }

  // What the parser does from one state to another, whatever the text.

  lemma FactorAlone(st: State, node: Node, after: State)
    requires ParseFactor(st) == Ok(Parsed(node, after)) && !At(after, AND)
    ensures ParseTerm(st) == Ok(Parsed(node, after))
    ensures !At(after, OR) ==> ParsePredicate(st) == Ok(Parsed(node, after))
  {
  }

  lemma TermAlone(st: State, node: Node, after: State)
    requires ParseTerm(st) == Ok(Parsed(node, after)) && !At(after, OR)
    ensures ParsePredicate(st) == Ok(Parsed(node, after))
  {
  }

  lemma FactorAndTerm(st: State, node: Node, mid: State, next: State, tail: Node, after: State)
    requires ParseFactor(st) == Ok(Parsed(node, mid)) && At(mid, AND) && NextToken(mid.rest) == Ok(next)
    requires ParseTerm(next) == Ok(Parsed(tail, after)) && tail != Null
    ensures ParseTerm(st) == Ok(Parsed(And([node, tail]), after))
  {
  }

  lemma FactorOrPredicate(st: State, node: Node, mid: State, next: State, tail: Node, after: State)
    requires ParseFactor(st) == Ok(Parsed(node, mid)) && At(mid, OR) && NextToken(mid.rest) == Ok(next)
    requires ParsePredicate(next) == Ok(Parsed(tail, after)) && tail != Null
    ensures ParsePredicate(st) == Ok(Parsed(Or([node, tail]), after))
  {
    FactorAlone(st, node, mid);
  }

  lemma Bracketed(st: State, next: State, node: Node, closing: State, after: State)
    requires At(st, OPEN) && NextToken(st.rest) == Ok(next) && ParsePredicate(next) == Ok(Parsed(node, closing))
    requires At(closing, CLOSE) && NextToken(closing.rest) == Ok(after)
    ensures ParseFactor(st) == Ok(Parsed(node, after))
  {
  }

  lemma Negated(st: State, next: State, node: Node, after: State)
    requires At(st, NOT) && NextToken(st.rest) == Ok(next) && ParseFactor(next) == Ok(Parsed(node, after))
    ensures ParseFactor(st) == Ok(Parsed(Not(node), after))
  {
  }

  lemma FactorIsProperty(st: State, name: Text)
    requires At(st, name) && IsPropertyName(name)
    ensures ParseFactor(st) == ParseProperty(st)
  {
  }

  lemma PropertyIsCheck(st: State, name: Text, equals: State, value: State, after: State, raw: Text)
    requires At(st, name) && IsPropertyName(name) && NextToken(st.rest) == Ok(equals) && At(equals, EQUALS)
    requires NextToken(equals.rest) == Ok(value) && NextToken(value.rest) == Ok(after)
    requires value.current == Some(Str(raw))
    ensures ParseFactor(st) == CheckOf(name, raw, after)
  {
    FactorIsProperty(st, name);
  }

  lemma PropertyIsWildcard(st: State, name: Text, equals: State, value: State, after: State)
    requires At(st, name) && IsPropertyName(name) && NextToken(st.rest) == Ok(equals) && At(equals, EQUALS)
    requires NextToken(equals.rest) == Ok(value) && NextToken(value.rest) == Ok(after) && At(value, STAR)
    ensures ParseFactor(st) == Ok(Parsed(WildcardCheck(name), after))
  {
    FactorIsProperty(st, name);
  }

  /** Operands joined by `and`, up to the closing bracket. */
  lemma {:induction false} TermIsRead(texts: seq<Text>, nodes: seq<Node>, rest: Text)
    requires AllRead(texts, nodes) && texts != []
    ensures var s := NextToken(Operands(AND, texts) + rest);
            s.Ok? && ParseTerm(s.value) == Ok(Parsed(Nested(true, nodes), State(Some(Terminal(CLOSE)), rest)))
  {
    OperandsSplit(AND, texts, rest);
    if |texts| == 1 {
      WordIsRead(CLOSE, rest);
      OperandIsRead(texts[0], nodes[0], (SPACE + CLOSE) + rest);
      FactorAlone(NextToken(Operands(AND, texts) + rest).value, nodes[0], State(Some(Terminal(CLOSE)), rest));
    } else {
      var tail := Operands(AND, texts[1..]) + rest;
      TermIsRead(texts[1..], nodes[1..], rest);
      WordIsRead(AND, tail);
      OperandIsRead(texts[0], nodes[0], SPACE + AND + tail);
      NestedIsNode(texts[1..], nodes[1..], true);
      FactorAndTerm(NextToken(Operands(AND, texts) + rest).value, nodes[0], State(Some(Terminal(AND)), tail),
                    NextToken(tail).value, Nested(true, nodes[1..]), State(Some(Terminal(CLOSE)), rest));
    }
  }

  /** Operands joined by `or`, up to the closing bracket. */
  lemma {:induction false} PredicateIsRead(texts: seq<Text>, nodes: seq<Node>, rest: Text)
    requires AllRead(texts, nodes) && texts != []
    ensures var s := NextToken(Operands(OR, texts) + rest);
            s.Ok? && ParsePredicate(s.value) == Ok(Parsed(Nested(false, nodes), State(Some(Terminal(CLOSE)), rest)))
  {
    OperandsSplit(OR, texts, rest);
    if |texts| == 1 {
      WordIsRead(CLOSE, rest);
      OperandIsRead(texts[0], nodes[0], (SPACE + CLOSE) + rest);
      FactorAlone(NextToken(Operands(OR, texts) + rest).value, nodes[0], State(Some(Terminal(CLOSE)), rest));
    } else {
      var tail := Operands(OR, texts[1..]) + rest;
      PredicateIsRead(texts[1..], nodes[1..], rest);
      WordIsRead(OR, tail);
      OperandIsRead(texts[0], nodes[0], SPACE + OR + tail);
      NestedIsNode(texts[1..], nodes[1..], false);
      FactorOrPredicate(NextToken(Operands(OR, texts) + rest).value, nodes[0], State(Some(Terminal(OR)), tail),
                        NextToken(tail).value, Nested(false, nodes[1..]), State(Some(Terminal(CLOSE)), rest));
    }
  }

  /** A text in brackets is read as what a predicate is read as inside. */
  lemma BracketsAreRead(inside: Text, node: Node, rest: Text)
    requires NextToken(inside + rest).Ok? && NextToken(rest).Ok?
    requires ParsePredicate(NextToken(inside + rest).value) == Ok(Parsed(node, State(Some(Terminal(CLOSE)), rest)))
    ensures ReadsBefore(OPEN + inside, node, rest)
  {
    assert OPEN + inside + rest == OPEN + (inside + rest);
    TerminalIsRead(OPEN, inside + rest);
    Bracketed(NextToken(OPEN + inside + rest).value, NextToken(inside + rest).value, node,
              State(Some(Terminal(CLOSE)), rest), NextToken(rest).value);
  }

  lemma PrintedIsRead(isAnd: bool, texts: seq<Text>, nodes: seq<Node>)
    requires AllRead(texts, nodes) && |texts| >= 2
    ensures Reads(Print(if isAnd then AND else OR, texts), Nested(isAnd, nodes))
  {
    var operator := if isAnd then AND else OR;
    forall rest | NextToken(rest).Ok? ensures ReadsBefore(Print(operator, texts), Nested(isAnd, nodes), rest) {
      if isAnd {
        TermIsRead(texts, nodes, rest);
        TermAlone(NextToken(Operands(AND, texts) + rest).value, Nested(true, nodes),
            State(Some(Terminal(CLOSE)), rest));
      } else {
        PredicateIsRead(texts, nodes, rest);
      }
      BracketsAreRead(Operands(operator, texts), Nested(isAnd, nodes), rest);
    }
  }

  lemma NegationText(text: Text, rest: Text, inside: Text, tail: Text)
    requires tail == SPACE + text + (SPACE + CLOSE) && inside == SPACE + NOT + tail
    ensures inside + rest == SPACE + NOT + (tail + rest)
    ensures tail + rest == SPACE + text + (SPACE + CLOSE + rest)
  {
  }

  lemma NegationIsRead(text: Text, node: Node)
    requires Reads(text, node)
    ensures Reads(Negation(text), Not(node))
  {
    var tail := SPACE + text + (SPACE + CLOSE);
    var inside := SPACE + NOT + tail;
    forall rest | NextToken(rest).Ok? ensures ReadsBefore(Negation(text), Not(node), rest) {
      NegationText(text, rest, inside, tail);
      WordIsRead(CLOSE, rest);
      OperandIsRead(text, node, SPACE + CLOSE + rest);
      WordIsRead(NOT, tail + rest);
      NegationInBrackets(inside, tail + rest, node, rest, State(Some(Terminal(CLOSE)), rest));
    }
  }

  lemma NegationInBrackets(inside: Text, tail: Text, node: Node, rest: Text, closing: State)
    requires NextToken(inside + rest) == Ok(State(Some(Terminal(NOT)), tail)) && NextToken(tail).Ok?
        && NextToken(rest).Ok?
    requires ParseFactor(NextToken(tail).value) == Ok(Parsed(node, closing))
        && closing == State(Some(Terminal(CLOSE)), rest)
    ensures ReadsBefore(OPEN + inside, Not(node), rest)
  {
    var st := State(Some(Terminal(NOT)), tail);
    Negated(st, NextToken(tail).value, node, closing);
    FactorAlone(st, Not(node), closing);
    BracketsAreRead(inside, Not(node), rest);
  }

  lemma CheckIsRead(name: Text, value: Text)
    requires IsPropertyName(name) && Plain(value)
    ensures Reads(ToString(StringCheck(name, value)), StringCheck(name, value))
  {
    forall rest | NextToken(rest).Ok?
        ensures ReadsBefore(ToString(StringCheck(name, value)), StringCheck(name, value), rest) {
      var literal := QUOTES + value + QUOTES + rest;
      assert ToString(StringCheck(name, value)) + rest == name + (EQUALS + literal);
      TerminalIsRead(name, EQUALS + literal);
      TerminalIsRead(EQUALS, literal);
      StringIsRead(value, rest);
      ValueIsScanned(value, rest);
      PropertyIsCheck(State(Some(Terminal(name)), EQUALS + literal), name, State(Some(Terminal(EQUALS)), literal),
                      State(Some(Str(value)), rest), NextToken(rest).value, value);
    }
  }

  lemma WildcardIsRead(name: Text)
    requires IsPropertyName(name)
    ensures Reads(ToString(WildcardCheck(name)), WildcardCheck(name))
  {
    forall rest | NextToken(rest).Ok? ensures ReadsBefore(ToString(WildcardCheck(name)), WildcardCheck(name), rest) {
      assert ToString(WildcardCheck(name)) + rest == name + (EQUALS + (STAR + rest));
      TerminalIsRead(name, EQUALS + (STAR + rest));
      TerminalIsRead(EQUALS, STAR + rest);
      TerminalIsRead(STAR, rest);
      PropertyIsWildcard(State(Some(Terminal(name)), EQUALS + (STAR + rest)), name,
          State(Some(Terminal(EQUALS)), STAR + rest),
                         State(Some(Terminal(STAR)), rest), NextToken(rest).value);
    }
  }

  // ----- The tree read back ---------------------------------------------------------------

  /** Nodes inserted where their texts are inserted. */
  function InsertByText(x: Text, n: Node, texts: seq<Text>, nodes: seq<Node>): (r: seq<Node>)
    requires |texts| == |nodes|
    ensures |r| == |nodes| + 1
  {
    if texts == [] || AtMost(x, texts[0]) then [n] + nodes else [nodes[0]] + InsertByText(x, n, texts[1..], nodes[1..])
  }

  function SortByText(texts: seq<Text>, nodes: seq<Node>): (r: seq<Node>)
    requires |texts| == |nodes|
    ensures |r| == |nodes|
  {
    if texts == [] then [] else InsertByText(texts[0], nodes[0], Sort(texts[1..]), SortByText(texts[1..], nodes[1..]))
  }

  /** The printed operands in their order, grouped to the right. */
  function Reparsed(node: Node): Node {
    match node
    case And(children) =>
      if children == [] then node else Nested(true, SortByText(Strings(children), ReparsedAll(children)))
    case Or(children) =>
      if children == [] then node else Nested(false, SortByText(Strings(children), ReparsedAll(children)))
    case Not(operand) => Not(Reparsed(operand))
    case _ => node
  }

  function ReparsedAll(nodes: seq<Node>): (r: seq<Node>)
    ensures |r| == |nodes|
  {
    if nodes == [] then [] else [Reparsed(nodes[0])] + ReparsedAll(nodes[1..])
  }

  lemma {:induction false} InsertedIsRead(x: Text, n: Node, texts: seq<Text>, nodes: seq<Node>)
    requires Reads(x, n) && AllRead(texts, nodes)
    ensures AllRead(Insert(x, texts), InsertByText(x, n, texts, nodes))
  {
    if texts == [] || AtMost(x, texts[0]) {
      OneMoreRead(x, n, texts, nodes);
    } else {
      InsertedIsRead(x, n, texts[1..], nodes[1..]);
      OneMoreRead(texts[0], nodes[0], Insert(x, texts[1..]), InsertByText(x, n, texts[1..], nodes[1..]));
    }
  }

  lemma OneMoreRead(x: Text, n: Node, texts: seq<Text>, nodes: seq<Node>)
    requires Reads(x, n) && AllRead(texts, nodes)
    ensures AllRead([x] + texts, [n] + nodes)
  {
  }

  lemma {:induction false} SortedIsRead(texts: seq<Text>, nodes: seq<Node>)
    requires AllRead(texts, nodes)
    ensures AllRead(Sort(texts), SortByText(texts, nodes))
  {
    if texts != [] {
      SortedIsRead(texts[1..], nodes[1..]);
      InsertedIsRead(texts[0], nodes[0], Sort(texts[1..]), SortByText(texts[1..], nodes[1..]));
    }
  }

  lemma {:induction false} NodeIsRead(node: Node)
    requires WellFormed(node)
    ensures Reads(ToString(node), Reparsed(node))
    decreases node, 0
  {
    match node
    case And(children) =>
      NodesAreRead(children);
      SortedIsRead(Strings(children), ReparsedAll(children));
      PrintedIsRead(true, Sort(Strings(children)), SortByText(Strings(children), ReparsedAll(children)));
    case Or(children) =>
      NodesAreRead(children);
      SortedIsRead(Strings(children), ReparsedAll(children));
      PrintedIsRead(false, Sort(Strings(children)), SortByText(Strings(children), ReparsedAll(children)));
    case Not(operand) =>
      NodeIsRead(operand);
      NegationIsRead(ToString(operand), Reparsed(operand));
    case StringCheck(name, value) => CheckIsRead(name, value);
    case WildcardCheck(name) => WildcardIsRead(name);
  }

  lemma {:induction false} NodesAreRead(nodes: seq<Node>)
    requires forall i :: 0 <= i < |nodes| ==> WellFormed(nodes[i])
    ensures AllRead(Strings(nodes), ReparsedAll(nodes))
    decreases nodes, 1
  {
    if nodes != [] {
      NodeIsRead(nodes[0]);
      NodesAreRead(nodes[1..]);
    }
  }

  /** Parsing a printed tree gives it back, with the operands in the order they were printed. */
  lemma ParseUndoesToString(node: Node)
    requires WellFormed(node)
    ensures Parse(ToString(node)) == Ok(Reparsed(node))
  {
    NodeIsRead(node);
    assert ReadsBefore(ToString(node), Reparsed(node), []);
    assert ToString(node) + [] == ToString(node);
    var first := NextToken(ToString(node)).value;
    FactorAlone(first, Reparsed(node), State(None, []));
  }

  lemma NothingFollows()
    ensures ParseTerm(State(None, [])) == ParsePredicate(State(None, [])) == Ok(Parsed(Null, State(None, [])))
  {
    FactorAlone(State(None, []), Null, State(None, []));
  }

  /** An operator with nothing after it is accepted and ignored. */
  lemma TrailingOperatorIsIgnored(node: Node, operator: Text)
    requires WellFormed(node) && operator in {AND, OR}
    ensures Parse(ToString(node) + SPACE + operator) == Parse(ToString(node))
  {
    var end, mid := State(None, []), State(Some(Terminal(operator)), []);
    var s := ToString(node) + SPACE + operator;
    ParseUndoesToString(node);
    NodeIsRead(node);
    assert s == ToString(node) + (SPACE + operator) && SPACE + operator + [] == SPACE + operator;
    WordIsRead(operator, []);
    assert ReadsBefore(ToString(node), Reparsed(node), SPACE + operator);
    var first := NextToken(s).value;
    NothingFollows();
    IgnoresTail(first, Reparsed(node), mid, end);
  }

  lemma IgnoresTail(first: State, node: Node, mid: State, end: State)
    requires ParseFactor(first) == Ok(Parsed(node, mid)) && (At(mid, AND) || At(mid, OR)) && mid.rest == []
    requires end == State(None, []) && ParseTerm(end) == ParsePredicate(end) == Ok(Parsed(Null, end))
    ensures ParsePredicate(first) == Ok(Parsed(node, end))
  {
    assert NextToken([]) == Ok(end);
    if At(mid, AND) {
      assert ParseTerm(first) == Ok(Parsed(node, end));
    } else {
      FactorAlone(first, node, mid);
    }
  }

  // ----- What the parser returns ----------------------------------------------------------

  /** Every operator has two operands; an operand is missing only below `not`. */
  predicate Binary(node: Node) {
    match node
    case And(children) => |children| == 2 && forall i :: 0 <= i < 2 ==> Binary(children[i]) && children[i] != Null
    case Or(children) => |children| == 2 && forall i :: 0 <= i < 2 ==> Binary(children[i]) && children[i] != Null
    case Not(operand) => Binary(operand)
    case StringCheck(name, _) => IsPropertyName(name)
    case WildcardCheck(name) => IsPropertyName(name)
    case Null => true
  }

  /** The node is missing only when the text had ended. */
  ghost predicate Complete(st: State, r: Result<Parsed, Error>) {
    r.Ok? ==> Binary(r.value.node) && (r.value.node == Null ==> st.current.None? && r.value.state == st)
  }

  lemma {:induction false} ParsePredicateShape(st: State)
    ensures Complete(st, ParsePredicate(st))
    decreases Measure(st), 5
  {
    ParseTermShape(st);
    var term := ParseTerm(st);
    if term.Ok? && At(term.value.state, OR) {
      var next := NextToken(term.value.state.rest);
      if next.Ok? { ParsePredicateShape(next.value); }
    }
  }

  lemma {:induction false} ParseTermShape(st: State)
    ensures Complete(st, ParseTerm(st))
    decreases Measure(st), 3
  {
    ParseFactorShape(st);
    var factor := ParseFactor(st);
    if factor.Ok? && At(factor.value.state, AND) {
      var next := NextToken(factor.value.state.rest);
      if next.Ok? { ParseTermShape(next.value); }
    }
  }

  lemma {:induction false} ParseFactorShape(st: State)
    ensures Complete(st, ParseFactor(st))
    decreases Measure(st), 1
  {
    if st.current.Some? {
      var next := NextToken(st.rest);
      if At(st, OPEN) && next.Ok? {
        ParsePredicateShape(next.value);
      } else if At(st, NOT) && next.Ok? {
        ParseFactorShape(next.value);
      }
    }
  }

  /** A parsed selection is a binary tree. */
  lemma ParsedIsBinary(s: Text)
    requires Parse(s).Ok?
    ensures Binary(Parse(s).value) && Parse(s).value != Null
  {
    ParsePredicateShape(NextToken(s).value);
  }

  // ----- Values that read back -------------------------------------------------------------

  /** The literal is the text up to its closing quote. */
  lemma {:induction false} LiteralIsPrefix(s: Text)
    requires ScanLiteral(s).Some?
    ensures var (raw, rest) := ScanLiteral(s).value; s == raw + QUOTES + rest
    decreases |s|
  {
    if s[0] != QUOTE {
      var n := if s[0] == BACKSLASH then 1 + Escape(s[1..]).value.1 else 1;
      LiteralIsPrefix(s[n..]);
      var (raw, rest) := ScanLiteral(s[n..]).value;
      PutTogether(s[..n], raw, rest, s);
    }
  }

  lemma PutTogether(front: Text, raw: Text, rest: Text, s: Text)
    requires front <= s && s[|front|..] == raw + QUOTES + rest
    ensures s == (front + raw) + QUOTES + rest
  {
  }

  lemma PlainTail(v: Text)
    requires v != []
    ensures Plain(v) <==> v[0] != QUOTE && v[0] != BACKSLASH && v[0] >= BLANK && Plain(v[1..])
  {
    assert v == [v[0]] + v[1..] && v[0] in v;
    assert forall c :: c in v <==> c == v[0] || c in v[1..];
  }

  /** A literal's value is at most as long as the literal, and as long only without escapes. */
  lemma {:induction false} DecodedLength(raw: Text)
    requires Decode(raw).Some?
    ensures |Decode(raw).value| <= |raw|
    ensures |Decode(raw).value| == |raw| <==> Plain(raw)
    ensures Plain(raw) ==> Decode(raw).value == raw
    decreases |raw|
  {
    if raw != [] {
      var n := if raw[0] == BACKSLASH then 1 + Escape(raw[1..]).value.1 else 1;
      DecodedLength(raw[n..]);
      if raw[0] == BACKSLASH { assert raw[0] in raw; } else { PlainTail(raw); }
    }
  }
}
