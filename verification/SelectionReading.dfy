/**
  Which printed selections read back as themselves (src/core/selection.js): those whose values
  need no escape, because printing does not escape.
 */
module SelectionReading {
  import opened Wrappers
  import opened Selections
  import opened SelectionParsing
  import opened SelectionGrammar

  // ----- The values of a tree and of a text -----------------------------------------------

  /** A tree over at least two operands each, none of them missing. */
  predicate Shaped(node: Node) {
    match node
    case And(children) => |children| >= 2 && forall i :: 0 <= i < |children| ==> Shaped(children[i])
    case Or(children) => |children| >= 2 && forall i :: 0 <= i < |children| ==> Shaped(children[i])
    case Not(operand) => Shaped(operand)
    case StringCheck(name, _) => IsPropertyName(name)
    case WildcardCheck(name) => IsPropertyName(name)
    case Null => false
  }

  /** The values checked against, from left to right. */
  function Values(node: Node): seq<Text> {
    match node
    case And(children) => ValuesOfAll(children)
    case Or(children) => ValuesOfAll(children)
    case Not(operand) => Values(operand)
    case StringCheck(_, value) => [value]
    case _ => []
  }

  function ValuesOfAll(nodes: seq<Node>): seq<Text> {
    if nodes == [] then [] else Values(nodes[0]) + ValuesOfAll(nodes[1..])
  }

  function TokenValues(ts: seq<Token>): seq<Text> {
    if ts == [] then [] else (if ts[0].Str? then [ValueOf(ts[0].raw)] else []) + TokenValues(ts[1..])
  }

  lemma {:induction false} TokenValuesOfTwo(a: seq<Token>, b: seq<Token>)
    ensures TokenValues(a + b) == TokenValues(a) + TokenValues(b)
  {
    if a == [] {
      assert a + b == b;
    } else {
      assert (a + b)[0] == a[0] && (a + b)[1..] == a[1..] + b;
      TokenValuesOfTwo(a[1..], b);
    }
  }

  lemma ValuesOfTwo(a: Node, b: Node)
    ensures ValuesOfAll([a, b]) == Values(a) + Values(b)
  {
    assert [a, b][1..] == [b] && [b][1..] == [] && ValuesOfAll([b]) == Values(b) + ValuesOfAll([]);
  }

  lemma {:induction false} NestedValues(isAnd: bool, nodes: seq<Node>)
    requires nodes != []
    ensures Values(Nested(isAnd, nodes)) == ValuesOfAll(nodes)
  {
    if |nodes| == 1 {
      assert nodes[1..] == [];
    } else {
      NestedValues(isAnd, nodes[1..]);
      ValuesOfTwo(nodes[0], Nested(isAnd, nodes[1..]));
    }
  }

  // ----- What is parsed has the values of its tokens --------------------------------------

  /** The values of the current token and of all that follow. */
  function ValuesFrom(st: State): Option<seq<Text>> {
    match TokensFrom(st)
    case None => None
    case Some(ts) => Some(TokenValues(ts))
  }

  predicate Adds(before: Option<seq<Text>>, values: seq<Text>, after: Option<seq<Text>>) {
    after.Some? ==> before == Some(values + after.value)
  }

  lemma AddsInTurn(before: Option<seq<Text>>, a: seq<Text>, mid: Option<seq<Text>>, b: seq<Text>,
                   after: Option<seq<Text>>)
    requires Adds(before, a, mid) && Adds(mid, b, after)
    ensures Adds(before, a + b, after)
  {
    if after.Some? { assert a + b + after.value == a + (b + after.value); }
  }

  lemma AddsNothing(before: Option<seq<Text>>, mid: Option<seq<Text>>, b: seq<Text>, after: Option<seq<Text>>)
    requires Adds(before, [], mid) && Adds(mid, b, after)
    ensures Adds(before, b, after)
  {
    AddsInTurn(before, [], mid, b, after);
    assert [] + b == b;
  }

  /** The values of the node are those of the tokens read. */
  ghost predicate Carries(st: State, node: Node, after: State) {
    Adds(ValuesFrom(st), Values(node), ValuesFrom(after))
  }

  lemma {:induction false} ParsedPredicateCarries(st: State, node: Node, after: State)
    requires ParsePredicate(st) == Ok(Parsed(node, after))
    ensures Carries(st, node, after)
    decreases Measure(st), 5
  {
    PredicateSteps(st, node, after);
    var term := ParseTerm(st).value;
    ParsedTermCarries(st, term.node, term.state);
    if At(term.state, OR) {
      Shorter(term.state);
      var next := NextToken(term.state.rest).value;
      var tail := ParsePredicate(next).value.node;
      ParsedPredicateCarries(next, tail, after);
      PairCarries(st, term.node, term.state, next, false, tail, after);
    }
  }

  lemma {:induction false} ParsedTermCarries(st: State, node: Node, after: State)
    requires ParseTerm(st) == Ok(Parsed(node, after))
    ensures Carries(st, node, after)
    decreases Measure(st), 3
  {
    TermSteps(st, node, after);
    var factor := ParseFactor(st).value;
    ParsedFactorCarries(st, factor.node, factor.state);
    if At(factor.state, AND) {
      Shorter(factor.state);
      var next := NextToken(factor.state.rest).value;
      var tail := ParseTerm(next).value.node;
      ParsedTermCarries(next, tail, after);
      PairCarries(st, factor.node, factor.state, next, true, tail, after);
    }
  }

  lemma {:induction false} ParsedFactorCarries(st: State, node: Node, after: State)
    requires ParseFactor(st) == Ok(Parsed(node, after))
    ensures Carries(st, node, after)
    decreases Measure(st), 1
  {
    if At(st, OPEN) {
      BracketSteps(st, node, after);
      Shorter(st);
      var next := NextToken(st.rest).value;
      var closing := ParsePredicate(next).value.state;
      ParsedPredicateCarries(next, node, closing);
      WordCarries(st, next, OPEN);
      WordCarries(closing, after, CLOSE);
      InBracketsCarries(st, next, node, closing, after);
    } else if At(st, NOT) {
      NotSteps(st, node, after);
      Shorter(st);
      var next := NextToken(st.rest).value;
      ParsedFactorCarries(next, ParseFactor(next).value.node, after);
      WordCarries(st, next, NOT);
      AddsNothing(ValuesFrom(st), ValuesFrom(next), Values(node), ValuesFrom(after));
    } else if st.current.Some? {
      ParsedPropertyCarries(st, node, after);
    } else {
      NothingCarries(st);
    }
  }

  lemma NothingCarries(st: State)
    ensures Carries(st, Null, st)
  {
    if ValuesFrom(st).Some? { assert [] + ValuesFrom(st).value == ValuesFrom(st).value; }
  }

  lemma InBracketsCarries(st: State, next: State, node: Node, closing: State, after: State)
    requires Carries(st, Null, next) && Carries(next, node, closing) && Carries(closing, Null, after)
    ensures Carries(st, node, after)
  {
    AddsNothing(ValuesFrom(st), ValuesFrom(next), Values(node), ValuesFrom(closing));
    AddsInTurn(ValuesFrom(st), Values(node), ValuesFrom(closing), [], ValuesFrom(after));
    assert Values(node) + [] == Values(node);
  }

  lemma ParsedPropertyCarries(st: State, node: Node, after: State)
    requires ParseFactor(st) == Ok(Parsed(node, after)) && st.current.Some? && !At(st, OPEN) && !At(st, NOT)
    ensures Carries(st, node, after)
  {
    var equals, value := PropertySteps(st, node, after);
    TokenCarries(value, after);
    TokenCarries(equals, value);
    TokenCarries(st, equals);
    AddsNothing(ValuesFrom(equals), ValuesFrom(value), Values(node), ValuesFrom(after));
    AddsNothing(ValuesFrom(st), ValuesFrom(equals), Values(node), ValuesFrom(after));
  }

  function TokenValue(t: Token): seq<Text> { if t.Str? then [ValueOf(t.raw)] else [] }

  lemma TokenCarries(st: State, next: State)
    requires st.current.Some? && NextToken(st.rest) == Ok(next)
    ensures Adds(ValuesFrom(st), TokenValue(st.current.value), ValuesFrom(next))
  {
    if TokensFrom(next).Some? {
      var ts := TokensFrom(next).value;
      GoBack(st, ts);
      assert ([st.current.value] + ts)[1..] == ts;
    }
  }

  lemma WordCarries(st: State, next: State, word: Text)
    requires At(st, word) && NextToken(st.rest) == Ok(next)
    ensures Carries(st, Null, next)
  {
    TokenCarries(st, next);
  }

  lemma PairCarries(st: State, first: Node, mid: State, next: State, isAnd: bool, second: Node, after: State)
    requires Carries(st, first, mid) && Carries(next, second, after)
    requires At(mid, if isAnd then AND else OR) && NextToken(mid.rest) == Ok(next)
    ensures Carries(st, WithoutSecond(isAnd, first, second), after)
  {
    WordCarries(mid, next, if isAnd then AND else OR);
    ValuesWithoutSecond(isAnd, first, second);
    AddsNothing(ValuesFrom(mid), ValuesFrom(next), Values(second), ValuesFrom(after));
    AddsInTurn(ValuesFrom(st), Values(first), ValuesFrom(mid), Values(second), ValuesFrom(after));
  }

  lemma ValuesWithoutSecond(isAnd: bool, first: Node, second: Node)
    ensures Values(WithoutSecond(isAnd, first, second)) == Values(first) + Values(second)
  {
    ValuesOfTwo(first, second);
  }

  /** All tokens of the text can be read, and these are their values. */
  ghost predicate HasValues(s: Text, values: seq<Text>) {
    Tokens(s).Some? && AllReadable(Tokens(s).value) && TokenValues(Tokens(s).value) == values
  }

  lemma ParsedHasValues(s: Text)
    requires Parse(s).Ok?
    ensures HasValues(s, Values(Parse(s).value))
  {
    var first, node := NextToken(s).value, Parse(s).value;
    ParsedPredicateCarries(first, node, ParsePredicate(first).value.state);
    assert TokensFrom(first) == Tokens(s);
    ParsesExactly(s, node);
    TokensAreReadable(s);
  }

  // ----- Where the values stand in a text --------------------------------------------------

  /** Holds neither a quote nor a backslash. */
  predicate Clean(s: Text) { forall c :: c in s ==> c != QUOTE && c != BACKSLASH }

  /** The values stand between quotes, each behind an `=`, with nothing else quoted or escaped. */
  ghost predicate Quoted(s: Text, values: seq<Text>)
    decreases |values|
  {
    if values == [] then Clean(s)
    else exists front, back :: QuotedFirst(s, values, front, back)
  }

  ghost predicate QuotedFirst(s: Text, values: seq<Text>, front: Text, back: Text)
    requires values != []
    decreases |values|, 0
  {
    && Clean(front) && front != [] && [front[|front| - 1]] == EQUALS
    && s == front + QUOTES + values[0] + QUOTES + back && Quoted(back, values[1..])
  }

  lemma CleanTogether(a: Text, b: Text)
    requires Clean(a) && Clean(b)
    ensures Clean(a + b)
  {
    assert forall c :: c in a + b <==> c in a || c in b;
  }

  lemma CleanWords()
    ensures Clean(AND) && Clean(OR) && Clean(NOT) && Clean(OPEN) && Clean(CLOSE) && Clean(EQUALS) && Clean(STAR)
    ensures Clean(INTERFACE) && Clean(TYPE) && Clean(ID) && Clean(GROUP) && Clean(SPACE)
  {
  }

  lemma QuotedBehind(a: Text, b: Text, values: seq<Text>)
    requires Clean(a) && Quoted(b, values)
    ensures Quoted(a + b, values)
  {
    if values == [] {
      CleanTogether(a, b);
    } else {
      var front, back :| QuotedFirst(b, values, front, back);
      CleanTogether(a, front);
      FivePieces(a, front, values[0], back);
      assert QuotedFirst(a + b, values, a + front, back);
    }
  }

  lemma FivePieces(a: Text, front: Text, value: Text, back: Text)
    ensures a + (front + QUOTES + value + QUOTES + back) == a + front + QUOTES + value + QUOTES + back
    ensures front != [] ==> a + front != [] && (a + front)[|a + front| - 1] == front[|front| - 1]
  {
  }

  lemma {:induction false} QuotedTogether(a: Text, xs: seq<Text>, b: Text, ys: seq<Text>)
    requires Quoted(a, xs) && Quoted(b, ys)
    ensures Quoted(a + b, xs + ys)
    decreases |xs|
  {
    if xs == [] {
      QuotedBehind(a, b, ys);
      assert xs + ys == ys;
    } else {
      var front, back :| QuotedFirst(a, xs, front, back);
      QuotedTogether(back, xs[1..], b, ys);
      assert (xs + ys)[0] == xs[0] && (xs + ys)[1..] == xs[1..] + ys;
      SixPieces(front, xs[0], back, b);
      assert QuotedFirst(a + b, xs + ys, front, back + b);
    }
  }

  lemma SixPieces(front: Text, value: Text, back: Text, b: Text)
    ensures front + QUOTES + value + QUOTES + back + b == front + QUOTES + value + QUOTES + (back + b)
  {
  }

  // ----- The values of a printed tree ------------------------------------------------------

  ghost predicate AllQuoted(texts: seq<Text>, nodes: seq<Node>) {
    |texts| == |nodes| && forall i :: 0 <= i < |texts| ==> Quoted(texts[i], Values(nodes[i]))
  }

  lemma OneMoreQuoted(x: Text, n: Node, texts: seq<Text>, nodes: seq<Node>)
    requires Quoted(x, Values(n)) && AllQuoted(texts, nodes)
    ensures AllQuoted([x] + texts, [n] + nodes)
  {
  }

  lemma {:induction false} InsertedIsQuoted(x: Text, n: Node, texts: seq<Text>, nodes: seq<Node>)
    requires Quoted(x, Values(n)) && AllQuoted(texts, nodes)
    ensures AllQuoted(Insert(x, texts), InsertByText(x, n, texts, nodes))
  {
    if texts == [] || AtMost(x, texts[0]) {
      OneMoreQuoted(x, n, texts, nodes);
    } else {
      InsertedIsQuoted(x, n, texts[1..], nodes[1..]);
      OneMoreQuoted(texts[0], nodes[0], Insert(x, texts[1..]), InsertByText(x, n, texts[1..], nodes[1..]));
    }
  }

  lemma {:induction false} SortedIsQuoted(texts: seq<Text>, nodes: seq<Node>)
    requires AllQuoted(texts, nodes)
    ensures AllQuoted(Sort(texts), SortByText(texts, nodes))
  {
    if texts != [] {
      SortedIsQuoted(texts[1..], nodes[1..]);
      InsertedIsQuoted(texts[0], nodes[0], Sort(texts[1..]), SortByText(texts[1..], nodes[1..]));
    }
  }

  /** A text with clean ones around it. */
  lemma QuotedBetween(a: Text, b: Text, c: Text, values: seq<Text>)
    requires Clean(a) && Quoted(b, values) && Clean(c)
    ensures Quoted(a + b + c, values)
  {
    QuotedBehind(a, b, values);
    QuotedTogether(a + b, values, c, []);
    assert values + [] == values;
  }

  lemma {:induction false} OperandsAreQuoted(operator: Text, texts: seq<Text>, nodes: seq<Node>)
    requires Clean(operator) && AllQuoted(texts, nodes) && texts != []
    ensures Quoted(Operands(operator, texts), ValuesOfAll(nodes))
  {
    CleanWords();
    if |texts| == 1 {
      CleanTogether(SPACE, CLOSE);
      QuotedBetween(SPACE, texts[0], SPACE + CLOSE, Values(nodes[0]));
      assert nodes[1..] == [] && ValuesOfAll(nodes) == Values(nodes[0]) + [] == Values(nodes[0]);
    } else {
      OperandsAreQuoted(operator, texts[1..], nodes[1..]);
      CleanTogether(SPACE, operator);
      QuotedBetween(SPACE, texts[0], SPACE + operator, Values(nodes[0]));
      QuotedTogether(SPACE + texts[0] + (SPACE + operator), Values(nodes[0]),
                     Operands(operator, texts[1..]), ValuesOfAll(nodes[1..]));
      Regroup(SPACE, texts[0], SPACE, operator, []);
      assert SPACE + texts[0] + SPACE + operator == SPACE + texts[0] + (SPACE + operator);
    }
  }

  lemma PrintedIsQuoted(isAnd: bool, texts: seq<Text>, nodes: seq<Node>)
    requires AllQuoted(texts, nodes) && texts != []
    ensures Quoted(Print(if isAnd then AND else OR, Sort(texts)), Values(Nested(isAnd, SortByText(texts, nodes))))
  {
    CleanWords();
    SortedIsQuoted(texts, nodes);
    var operator := if isAnd then AND else OR;
    OperandsAreQuoted(operator, Sort(texts), SortByText(texts, nodes));
    NestedValues(isAnd, SortByText(texts, nodes));
    QuotedBehind(OPEN, Operands(operator, Sort(texts)), ValuesOfAll(SortByText(texts, nodes)));
  }

  lemma NegationIsQuoted(text: Text, values: seq<Text>)
    requires Quoted(text, values)
    ensures Quoted(Negation(text), values)
  {
    CleanWords();
    CleanTogether(SPACE, CLOSE);
    CleanTogether(SPACE, NOT);
    QuotedBetween(SPACE, text, SPACE + CLOSE, values);
    QuotedBehind(SPACE + NOT, SPACE + text + (SPACE + CLOSE), values);
    QuotedBehind(OPEN, SPACE + NOT + (SPACE + text + (SPACE + CLOSE)), values);
  }

  lemma CheckIsQuoted(name: Text, value: Text)
    requires IsPropertyName(name)
    ensures Quoted(ToString(StringCheck(name, value)), [value])
  {
    CleanWords();
    CleanTogether(name, EQUALS);
    var s, front := ToString(StringCheck(name, value)), name + EQUALS;
    assert s == front + QUOTES + value + QUOTES + [] && [front[|front| - 1]] == EQUALS;
    assert QuotedFirst(s, [value], front, []);
  }

  /** In a printed tree the values stand quoted, in the order of the tree read back. */
  lemma {:induction false} NodeIsQuoted(node: Node)
    requires Shaped(node)
    ensures Quoted(ToString(node), Values(Reparsed(node)))
    decreases node, 0
  {
    match node
    case And(children) =>
      NodesAreQuoted(children);
      PrintedIsQuoted(true, Strings(children), ReparsedAll(children));
    case Or(children) =>
      NodesAreQuoted(children);
      PrintedIsQuoted(false, Strings(children), ReparsedAll(children));
    case Not(operand) =>
      NodeIsQuoted(operand);
      NegationIsQuoted(ToString(operand), Values(Reparsed(operand)));
    case StringCheck(name, value) => CheckIsQuoted(name, value);
    case WildcardCheck(name) =>
      CleanWords();
      CleanTogether(EQUALS, STAR);
      CleanTogether(name, EQUALS + STAR);
  }

  lemma {:induction false} NodesAreQuoted(nodes: seq<Node>)
    requires forall i :: 0 <= i < |nodes| ==> Shaped(nodes[i])
    ensures AllQuoted(Strings(nodes), ReparsedAll(nodes))
    decreases nodes, 1
  {
    if nodes != [] {
      NodeIsQuoted(nodes[0]);
      NodesAreQuoted(nodes[1..]);
      OneMoreQuoted(ToString(nodes[0]), Reparsed(nodes[0]), Strings(nodes[1..]), ReparsedAll(nodes[1..]));
    }
  }

  // ----- Values that read back -------------------------------------------------------------

  /** A quote inside a literal is escaped. */
  lemma {:induction false} QuoteIsEscaped(s: Text, k: nat)
    requires ScanLiteral(s).Some? && k < |ScanLiteral(s).value.0| && ScanLiteral(s).value.0[k] == QUOTE
    ensures k > 0 && ScanLiteral(s).value.0[k - 1] == BACKSLASH
    decreases |s|
  {
    var n := if s[0] == BACKSLASH then 1 + Escape(s[1..]).value.1 else 1;
    if k >= n {
      QuoteIsEscaped(s[n..], k - n);
    } else if s[0] == BACKSLASH {
      assert s[k] == s[1..][k - 1] == QUOTE;
      EscapedQuote(s[1..], k - 1);
    }
  }

  lemma EscapedQuote(s: Text, k: nat)
    requires Escape(s).Some? && k < Escape(s).value.1 && s[k] == QUOTE
    ensures k == 0
  {
  }

  /** An equals sign belongs to no escape. */
  lemma {:induction false} LastIsDecoded(raw: Text)
    requires Decode(raw).Some? && raw != [] && [raw[|raw| - 1]] == EQUALS
    ensures var v := Decode(raw).value; v != [] && v[|v| - 1] == raw[|raw| - 1]
    decreases |raw|
  {
    var n := if raw[0] == BACKSLASH then 1 + Escape(raw[1..]).value.1 else 1;
    if n < |raw| {
      LastIsDecoded(raw[n..]);
    } else if raw[0] == BACKSLASH {
      assert raw[1..][n - 2] == raw[n - 1];
      EscapedEquals(raw[1..]);
    }
  }

  lemma EscapedEquals(s: Text)
    requires Escape(s).Some?
    ensures [s[Escape(s).value.1 - 1]] != EQUALS
  {
    if Escape(s).value.1 == 5 { assert s[1..][3] == s[4]; }
  }

  /** What stands clean before a quote is read without a value. */
  lemma {:induction false} CleanIsSkipped(front: Text, behind: Text, values: seq<Text>)
    requires Clean(front) && behind != [] && behind[0] == QUOTE && HasValues(front + behind, values)
    ensures HasValues(behind, values)
    decreases |front|
  {
    var s := front + behind;
    if front == [] {
      assert s == behind;
    } else {
      var n := StepIsClean(front, behind, values);
      assert Clean(front[n..]) by { assert forall c :: c in front[n..] ==> c in front; }
      CleanIsSkipped(front[n..], behind, values);
    }
  }

  lemma StepIsClean(front: Text, behind: Text, values: seq<Text>) returns (n: nat)
    requires Clean(front) && behind != [] && behind[0] == QUOTE && front != [] && HasValues(front + behind, values)
    ensures 0 < n <= |front| && HasValues(front[n..] + behind, values)
  {
    var s := front + behind;
    assert s[0] == front[0] && s[0] in front;
    if IsSpace(s[0]) {
      n := 1;
      assert s[1..] == front[1..] + behind && Tokens(s) == Tokens(s[1..]);
    } else {
      var t := LeadingTerminal(s).value;
      n := |t|;
      CleanTerminal(front, behind, t);
      TerminalIsSkipped(s, t);
    }
  }

  lemma TerminalIsSkipped(s: Text, t: Text)
    requires s != [] && !IsSpace(s[0]) && LeadingTerminal(s) == Some(t)
    requires Tokens(s).Some? && AllReadable(Tokens(s).value)
    ensures HasValues(s[|t|..], TokenValues(Tokens(s).value))
  {
    var ts := Tokens(s[|t|..]).value;
    assert Tokens(s) == Some([Terminal(t)] + ts) && ([Terminal(t)] + ts)[1..] == ts;
    OneMoreToken(Terminal(t), ts);
  }

  lemma NoQuoteWithin(front: Text, s: Text, k: nat)
    requires Clean(front) && front <= s && k < |s| && s[k] == QUOTE
    ensures |front| <= k
  {
    assert forall i :: 0 <= i < |front| ==> front[i] in front;
  }

  lemma CleanTerminal(front: Text, behind: Text, t: Text)
    requires Clean(front) && behind != [] && behind[0] == QUOTE && LeadingTerminal(front + behind) == Some(t)
    ensures 0 < |t| <= |front| && (front + behind)[|t|..] == front[|t|..] + behind
  {
    CleanWords();
    assert t <= front + behind && Clean(t) && (front + behind)[|front|] == QUOTE;
    NoQuoteWithin(t, front + behind, |front|);
  }

  /** A literal that begins where a value is printed and decodes to this value is the value. */
  lemma LiteralIsWhole(v: Text, back: Text, values: seq<Text>, s: Text, raw: Text, rest: Text)
    requires s == v + QUOTES + back && Quoted(back, values)
    requires ScanLiteral(s) == Some((raw, rest)) && Decode(raw) == Some(v)
    ensures Plain(v) && rest == back
  {
    DecodedLength(raw);
    LiteralIsPrefix(s);
    Overlap(v, back, raw, rest);
    if |raw| > |v| {
      QuoteIsEscaped(s, |v|);
      LiteralRunsOn(v, back, values, s, raw, rest, raw[|v| + 1..]);
      LastIsDecoded(raw);
    }
  }

  lemma Overlap(v: Text, back: Text, raw: Text, rest: Text)
    requires v + QUOTES + back == raw + QUOTES + rest && |v| <= |raw|
    ensures |v| == |raw| ==> v == raw && back == rest
    ensures |v| < |raw| ==> raw[|v|] == QUOTE && v == raw[..|v|] && raw == v + QUOTES + raw[|v| + 1..]
    ensures |v| < |raw| ==> back == raw[|v| + 1..] + QUOTES + rest
  {
    var s := v + QUOTES + back;
    assert s[..|v|] == v && s[|v|] == QUOTE && s[|v| + 1..] == back;
    assert s[..|raw|] == raw && s[|raw| + 1..] == rest;
  }

  /** A literal that runs on behind the value ends with the `=` before the next value. */
  lemma LiteralRunsOn(v: Text, back: Text, values: seq<Text>, s: Text, raw: Text, rest: Text, more: Text)
    requires s == v + QUOTES + back && Quoted(back, values) && raw == v + QUOTES + more && back == more + QUOTES + rest
    requires ScanLiteral(s) == Some((raw, rest))
    ensures [raw[|raw| - 1]] == EQUALS
  {
    assert back[|more|] == QUOTE && back[|more|] in back;
    var front, tail :| QuotedFirst(back, values, front, tail);
    FirstQuote(front, values[0], tail, back);
    NoQuoteWithin(front, back, |more|);
    assert more == back[..|more|] && front == back[..|front|];
    NotBeyond(v, more, s, raw, rest, front);
    BehindValue(v, more, raw, |more| - 1);
  }

  /** A quote further on would be escaped, but it stands behind an equals sign. */
  lemma NotBeyond(v: Text, more: Text, s: Text, raw: Text, rest: Text, front: Text)
    requires raw == v + QUOTES + more && ScanLiteral(s) == Some((raw, rest))
    requires front != [] && [front[|front| - 1]] == EQUALS && front <= more
    requires |front| < |more| ==> more[|front|] == QUOTE
    ensures more == front
  {
    if |front| < |more| {
      BehindValue(v, more, raw, |front|);
      BehindValue(v, more, raw, |front| - 1);
      QuoteIsEscaped(s, |v| + 1 + |front|);
    }
  }

  lemma BehindValue(v: Text, more: Text, raw: Text, k: nat)
    requires raw == v + QUOTES + more && k < |more|
    ensures raw[|v| + 1 + k] == more[k]
  {
  }

  lemma FirstQuote(front: Text, value: Text, tail: Text, back: Text)
    requires back == front + QUOTES + value + QUOTES + tail
    ensures back[|front|] == QUOTE && back[..|front|] == front && back[|front| + 1..] == value + QUOTES + tail
    ensures back == front + (QUOTES + (value + QUOTES + tail))
  {
  }

  lemma {:induction false} ReadValuesArePlain(s: Text, values: seq<Text>)
    requires Quoted(s, values) && HasValues(s, values)
    ensures forall v :: v in values ==> Plain(v)
    decreases |values|
  {
    if values != [] {
      var front, back :| QuotedFirst(s, values, front, back);
      var behind := QUOTES + (values[0] + QUOTES + back);
      FirstQuote(front, values[0], back, s);
      CleanIsSkipped(front, behind, values);
      FirstIsRead(values, behind, values[0] + QUOTES + back, back);
      ReadValuesArePlain(back, values[1..]);
      assert forall v :: v in values ==> v == values[0] || v in values[1..];
    }
  }

  lemma FirstIsRead(values: seq<Text>, behind: Text, s: Text, back: Text)
    requires values != [] && behind == QUOTES + s && s == values[0] + QUOTES + back && Quoted(back, values[1..])
    requires HasValues(behind, values)
    ensures Plain(values[0]) && HasValues(back, values[1..])
  {
    var raw, rest := StringIsFirst(behind, s);
    var ts := Tokens(rest).value;
    OneMoreToken(Str(raw), ts);
    assert ([Str(raw)] + ts)[1..] == ts && TokenValues([Str(raw)] + ts) == [ValueOf(raw)] + TokenValues(ts);
    assert ([ValueOf(raw)] + TokenValues(ts))[1..] == TokenValues(ts);
    LiteralIsWhole(values[0], back, values[1..], s, raw, rest);
  }

  lemma StringIsFirst(behind: Text, s: Text) returns (raw: Text, rest: Text)
    requires behind == QUOTES + s && Tokens(behind).Some?
    ensures ScanLiteral(s) == Some((raw, rest)) && Tokens(rest).Some?
    ensures Tokens(behind).value == [Str(raw)] + Tokens(rest).value
  {
    OtherStart(behind);
    assert behind[1..] == s;
    raw, rest := ScanLiteral(s).value.0, ScanLiteral(s).value.1;
  }

  // ----- The order of printing does not change the values ---------------------------------

  lemma {:induction false} InsertedKeepsValues(x: Text, n: Node, texts: seq<Text>, nodes: seq<Node>)
    requires |texts| == |nodes|
    ensures multiset(ValuesOfAll(InsertByText(x, n, texts, nodes))) ==
        multiset(Values(n)) + multiset(ValuesOfAll(nodes))
  {
    if texts == [] || AtMost(x, texts[0]) {
      assert ([n] + nodes)[1..] == nodes;
    } else {
      var rest := InsertByText(x, n, texts[1..], nodes[1..]);
      InsertedKeepsValues(x, n, texts[1..], nodes[1..]);
      assert ([nodes[0]] + rest)[1..] == rest;
    }
  }

  lemma {:induction false} SortedKeepsValues(texts: seq<Text>, nodes: seq<Node>)
    requires |texts| == |nodes|
    ensures multiset(ValuesOfAll(SortByText(texts, nodes))) == multiset(ValuesOfAll(nodes))
  {
    if texts != [] {
      SortedKeepsValues(texts[1..], nodes[1..]);
      InsertedKeepsValues(texts[0], nodes[0], Sort(texts[1..]), SortByText(texts[1..], nodes[1..]));
    }
  }

  lemma {:induction false} ReparsedKeepsValues(node: Node)
    ensures multiset(Values(Reparsed(node))) == multiset(Values(node))
    decreases node, 0
  {
    match node
    case And(children) => AllKeepValues(true, children);
    case Or(children) => AllKeepValues(false, children);
    case Not(operand) => ReparsedKeepsValues(operand);
    case _ =>
  }

  lemma {:induction false} AllKeepValues(isAnd: bool, nodes: seq<Node>)
    ensures multiset(ValuesOfAll(ReparsedAll(nodes))) == multiset(ValuesOfAll(nodes))
    ensures nodes != [] ==>
              multiset(Values(Nested(isAnd, SortByText(Strings(nodes), ReparsedAll(nodes))))) ==
              multiset(ValuesOfAll(nodes))
    decreases nodes, 1
  {
    if nodes != [] {
      ReparsedKeepsValues(nodes[0]);
      AllKeepValues(isAnd, nodes[1..]);
      SortedKeepsValues(Strings(nodes), ReparsedAll(nodes));
      NestedValues(isAnd, SortByText(Strings(nodes), ReparsedAll(nodes)));
    }
  }

  /** What well-formed adds to the shape: every value is plain. */
  lemma {:induction false} WellFormedExactly(node: Node)
    requires Shaped(node)
    ensures WellFormed(node) <==> forall v :: v in Values(node) ==> Plain(v)
    decreases node, 0
  {
    match node
    case And(children) => AllWellFormedExactly(children);
    case Or(children) => AllWellFormedExactly(children);
    case Not(operand) => WellFormedExactly(operand);
    case _ =>
  }

  lemma {:induction false} AllWellFormedExactly(nodes: seq<Node>)
    requires forall i :: 0 <= i < |nodes| ==> Shaped(nodes[i])
    ensures (forall i :: 0 <= i < |nodes| ==> WellFormed(nodes[i])) <==>
            (forall v :: v in ValuesOfAll(nodes) ==> Plain(v))
    decreases nodes, 1
  {
    if nodes != [] {
      WellFormedExactly(nodes[0]);
      AllWellFormedExactly(nodes[1..]);
      assert forall i :: 0 < i < |nodes| ==> nodes[i] == nodes[1..][i - 1];
      assert forall i :: 0 <= i < |nodes| - 1 ==> nodes[1..][i] == nodes[i + 1];
      assert forall v :: v in ValuesOfAll(nodes) <==> v in Values(nodes[0]) || v in ValuesOfAll(nodes[1..]);
    }
  }

  /**
    A printed tree reads back as itself, its operands in printed order, if and only if none of
    its values needs an escape.
   */
  lemma ReadsBackExactly(node: Node)
    requires Shaped(node)
    ensures Parse(ToString(node)) == Ok(Reparsed(node)) <==> forall v :: v in Values(node) ==> Plain(v)
  {
    WellFormedExactly(node);
    if WellFormed(node) { ParseUndoesToString(node); }
    if Parse(ToString(node)) == Ok(Reparsed(node)) {
      ParsedHasValues(ToString(node));
      NodeIsQuoted(node);
      ReadValuesArePlain(ToString(node), Values(Reparsed(node)));
      ReparsedKeepsValues(node);
      assert forall v :: v in Values(node) ==> v in multiset(Values(node));
    }
  }

  /** A single check, under any of the property names. */
  lemma CheckReadsBackExactly(name: Text, v: Text)
    requires IsPropertyName(name)
    ensures Parse(ToString(StringCheck(name, v))) == Ok(StringCheck(name, v)) <==> Plain(v)
  {
    ReadsBackExactly(StringCheck(name, v));
    assert v in Values(StringCheck(name, v));
  }
}
