/**
  The grammar in the head of src/core/selection.js, as derivations of token lists, and exactly
  which texts the parser accepts: the derivable ones, and those that lack only their last operand.
 */
module SelectionGrammar {
  import opened Wrappers
  import opened Selections
  import opened SelectionParsing

  // ----- Tokens of a text -----------------------------------------------------------------

  /** All tokens, or none when some part of the text is not a token. */
  function Tokens(s: Text): Option<seq<Token>>
    decreases |s|
  {
    match NextToken(s)
    case Err(_) => None
    case Ok(st) => if st.current.None? then Some([]) else Prepend(st.current.value, Tokens(st.rest))
  }

  function Prepend(t: Token, ts: Option<seq<Token>>): Option<seq<Token>> {
    match ts
    case None => None
    case Some(rest) => Some([t] + rest)
  }

  /** The current token and what follows. */
  function TokensFrom(st: State): Option<seq<Token>> {
    if st.current.None? then Some([]) else Prepend(st.current.value, Tokens(st.rest))
  }

  lemma Advance(st: State, ts: seq<Token>)
    requires TokensFrom(st) == Some(ts) && ts != []
    ensures st.current == Some(ts[0]) && NextToken(st.rest).Ok?
    ensures TokensFrom(NextToken(st.rest).value) == Some(ts[1..])
  {
    assert Tokens(st.rest).Some?;
  }

  lemma GoBack(st: State, ts: seq<Token>)
    requires st.current.Some? && NextToken(st.rest).Ok? && TokensFrom(NextToken(st.rest).value) == Some(ts)
    ensures TokensFrom(st) == Some([st.current.value] + ts)
  {
  }

  lemma FirstOf(ts: seq<Token>, rest: seq<Token>)
    requires ts != []
    ensures ts + rest != [] && (ts + rest)[0] == ts[0] && (ts + rest)[1..] == ts[1..] + rest
  {
  }

  lemma SplitOff(ts: seq<Token>, i: nat, rest: seq<Token>)
    requires i < |ts|
    ensures ts + rest == ts[..i] + ([ts[i]] + (ts[i + 1..] + rest))
    ensures ([ts[i]] + (ts[i + 1..] + rest))[1..] == ts[i + 1..] + rest
  {
  }

  lemma Joined(front: seq<Token>, t: Token, back: seq<Token>, rest: seq<Token>)
    ensures front + [t] + back + rest == front + ([t] + (back + rest))
    ensures (front + [t] + back)[..|front|] == front && (front + [t] + back)[|front| + 1..] == back
  {
  }

  lemma Prefixed(t: Token, back: seq<Token>, rest: seq<Token>)
    ensures [t] + back + rest == [t] + (back + rest)
  {
  }

  lemma Unbracketed(ts: seq<Token>, rest: seq<Token>)
    requires |ts| >= 2
    ensures ts[1..] + rest == ts[1..|ts| - 1] + ([ts[|ts| - 1]] + rest)
    ensures ([ts[|ts| - 1]] + rest)[1..] == rest
  {
  }

  lemma Around(open: Token, inside: seq<Token>, close: Token, rest: seq<Token>)
    ensures var ts := [open] + inside + [close];
            && ts + rest == [open] + (inside + ([close] + rest)) && ts[1..|ts| - 1] == inside
            && ts[0] == open && ts[|ts| - 1] == close && |ts| >= 2
  {
  }

  lemma ThreeTokens(a: Token, b: Token, c: Token, rest: seq<Token>)
    ensures [a, b, c] + rest == [a] + ([b] + ([c] + rest))
    ensures [a, b, c][1..] + rest == [b] + ([c] + rest) && [a, b, c][2..] + rest == [c] + rest
  {
  }

  // ----- Literals -------------------------------------------------------------------------

  /** What a literal denotes, characters that a JSON string must escape being taken as they stand. */
  function ValueOf(raw: Text): Text
    decreases |raw|
  {
    if raw == [] then []
    else if raw[0] == BACKSLASH && Escape(raw[1..]).Some? then
      var (c, n) := Escape(raw[1..]).value;
      [c] + ValueOf(raw[1 + n..])
    else [raw[0]] + ValueOf(raw[1..])
  }

  /** Holds no raw control character, which a JSON string must escape: section 7 of RFC 8259. */
  predicate NoControl(raw: Text) { forall c :: c in raw ==> c >= BLANK }

  predicate NoControls(ts: seq<Token>) { forall t :: t in ts && t.Str? ==> NoControl(t.raw) }

  predicate Readable(t: Token) { t.Str? ==> Decode(t.raw) == Some(ValueOf(t.raw)) }

  predicate AllReadable(ts: seq<Token>) { forall t :: t in ts ==> Readable(t) }

  lemma {:induction false} DecodedIsValue(raw: Text)
    ensures Decode(raw).Some? ==> Decode(raw) == Some(ValueOf(raw))
    decreases |raw|
  {
    if raw != [] && Decode(raw).Some? {
      var n := if raw[0] == BACKSLASH then 1 + Escape(raw[1..]).value.1 else 1;
      DecodedIsValue(raw[n..]);
    }
  }

  lemma EscapeIsLocal(a: Text, b: Text)
    requires Escape(a).Some? && Escape(a).value.1 <= |b| <= |a| && b == a[..|b|]
    ensures Escape(b) == Escape(a)
  {
    if a[0] == 117 {
      assert b[1..][..4] == a[1..][..4];
    }
  }

  lemma NoControlOfTwo(a: Text, b: Text)
    ensures NoControl(a + b) <==> NoControl(a) && NoControl(b)
  {
    assert forall c :: c in a || c in b ==> c in a + b;
  }

  lemma EscapesArePrintable(s: Text, n: nat)
    requires s != [] && s[0] == BACKSLASH && Escape(s[1..]).Some? && n == 1 + Escape(s[1..]).value.1
    ensures n <= |s| && NoControl(s[..n])
  {
    forall c | c in s[..n] ensures c >= BLANK {
      var i :| 0 <= i < n && s[i] == c;
      if i >= 2 { assert s[1..][1..][i - 2] == c; }
    }
  }

  /** A literal is decoded unless it holds a raw control character. */
  lemma {:induction false} LiteralIsDecoded(s: Text)
    requires ScanLiteral(s).Some?
    ensures var raw := ScanLiteral(s).value.0; Decode(raw).Some? <==> NoControl(raw)
    decreases |s|
  {
    if s[0] != QUOTE {
      var n := if s[0] == BACKSLASH then 1 + Escape(s[1..]).value.1 else 1;
      LiteralIsDecoded(s[n..]);
      var tail := ScanLiteral(s[n..]).value.0;
      LiteralIsPrefix(s);
      NoControlOfTwo(s[..n], tail);
      assert s[..1] == [s[0]];
      if s[0] == BACKSLASH {
        EscapesArePrintable(s, n);
        DecodedAfterEscape(s, n, tail);
      } else {
        assert (s[..1] + tail)[1..] == tail && s[0] in s[..1];
      }
    }
  }

  lemma DecodedAfterEscape(s: Text, n: nat, tail: Text)
    requires s != [] && s[0] == BACKSLASH && Escape(s[1..]).Some? && n == 1 + Escape(s[1..]).value.1
    requires s[..n] + tail <= s
    ensures Decode(s[..n] + tail).Some? <==> Decode(tail).Some?
  {
    var raw := s[..n] + tail;
    assert raw[1..] == s[1..][..|raw| - 1];
    EscapeIsLocal(s[1..], raw[1..]);
    assert raw[n..] == tail;
  }

  lemma {:induction false} NextIsReadable(s: Text)
    requires NextToken(s).Ok? && NextToken(s).value.current.Some?
    ensures var t := NextToken(s).value.current.value; Readable(t) <==> (t.Str? ==> NoControl(t.raw))
    decreases |s|
  {
    if IsSpace(s[0]) {
      NextIsReadable(s[1..]);
    } else if LeadingTerminal(s).None? {
      LiteralIsDecoded(s[1..]);
      DecodedIsValue(ScanLiteral(s[1..]).value.0);
    }
  }

  lemma {:induction false} TokensAreReadable(s: Text)
    requires Tokens(s).Some?
    ensures AllReadable(Tokens(s).value) <==> NoControls(Tokens(s).value)
    decreases |s|
  {
    var st := NextToken(s).value;
    if st.current.Some? {
      NextIsReadable(s);
      TokensAreReadable(st.rest);
      OneMoreToken(st.current.value, Tokens(st.rest).value);
    }
  }

  lemma OneMoreToken(t: Token, ts: seq<Token>)
    ensures AllReadable([t] + ts) <==> Readable(t) && AllReadable(ts)
    ensures NoControls([t] + ts) <==> (t.Str? ==> NoControl(t.raw)) && NoControls(ts)
  {
    assert forall u :: u in [t] + ts <==> u == t || u in ts;
  }

  // ----- Derivations ----------------------------------------------------------------------

  /** A term, or a term, `or` and a predicate. */
  ghost predicate DerivesPredicate(ts: seq<Token>, node: Node)
    decreases |ts|, 5
  {
    DerivesTerm(ts, node) || exists i: nat :: i < |ts| && SplitAtOr(ts, node, i)
  }

  ghost predicate SplitAtOr(ts: seq<Token>, node: Node, i: nat)
    requires i < |ts|
    decreases |ts|, 4
  {
    && ts[i] == Terminal(OR) && node.Or? && |node.children| == 2
    && DerivesTerm(ts[..i], node.children[0]) && DerivesPredicate(ts[i + 1..], node.children[1])
  }

  /** A factor, or a factor, `and` and a term. */
  ghost predicate DerivesTerm(ts: seq<Token>, node: Node)
    decreases |ts|, 3
  {
    DerivesFactor(ts, node) || exists i: nat :: i < |ts| && SplitAtAnd(ts, node, i)
  }

  ghost predicate SplitAtAnd(ts: seq<Token>, node: Node, i: nat)
    requires i < |ts|
    decreases |ts|, 2
  {
    && ts[i] == Terminal(AND) && node.And? && |node.children| == 2
    && DerivesFactor(ts[..i], node.children[0]) && DerivesTerm(ts[i + 1..], node.children[1])
  }

  /** A property, a predicate in brackets, or `not` and a factor. */
  ghost predicate DerivesFactor(ts: seq<Token>, node: Node)
    decreases |ts|, 1
  {
    || DerivesProperty(ts, node)
    || (&& |ts| >= 2 && ts[0] == Terminal(OPEN) && ts[|ts| - 1] == Terminal(CLOSE)
        && DerivesPredicate(ts[1..|ts| - 1], node))
    || (|ts| >= 1 && ts[0] == Terminal(NOT) && node.Not? && DerivesFactor(ts[1..], node.operand))
  }

  ghost predicate DerivesProperty(ts: seq<Token>, node: Node) {
    && |ts| == 3 && ts[0].Terminal? && IsPropertyName(ts[0].name) && ts[1] == Terminal(EQUALS)
    && match ts[2]
       case Str(raw) => node == StringCheck(ts[0].name, ValueOf(raw))
       case Terminal(t) => t == STAR && node == WildcardCheck(ts[0].name)
  }

  // ----- Derivable texts parse to their tree ----------------------------------------------

  ghost predicate StartsWith(ts: seq<Token>, word: Text) { ts != [] && ts[0] == Terminal(word) }

  lemma {:induction false} PredicateIsParsed(ts: seq<Token>, node: Node, st: State, rest: seq<Token>)
    returns (after: State)
    requires AllReadable(ts) && DerivesPredicate(ts, node) && TokensFrom(st) == Some(ts + rest)
    requires !StartsWith(rest, AND) && !StartsWith(rest, OR)
    ensures ParsePredicate(st) == Ok(Parsed(node, after)) && TokensFrom(after) == Some(rest)
    decreases |ts|, 5
  {
    if DerivesTerm(ts, node) {
      after := TermIsParsed(ts, node, st, rest);
      NoTail(after, rest, OR);
      TermAlone(st, node, after);
    } else {
      var i: nat :| i < |ts| && SplitAtOr(ts, node, i);
      SplitOff(ts, i, rest);
      var mid := TermIsParsed(ts[..i], node.children[0], st, [ts[i]] + (ts[i + 1..] + rest));
      Advance(mid, [ts[i]] + (ts[i + 1..] + rest));
      var next := NextToken(mid.rest).value;
      after := PredicateIsParsed(ts[i + 1..], node.children[1], next, rest);
      DerivedIsNotNull(ts[i + 1..], node.children[1]);
      TermOrAny(st, node.children[0], mid, next, node.children[1], after);
      IsPair(node);
    }
  }

  lemma {:induction false} TermIsParsed(ts: seq<Token>, node: Node, st: State, rest: seq<Token>) returns (after: State)
    requires AllReadable(ts) && DerivesTerm(ts, node) && TokensFrom(st) == Some(ts + rest) && !StartsWith(rest, AND)
    ensures ParseTerm(st) == Ok(Parsed(node, after)) && TokensFrom(after) == Some(rest)
    decreases |ts|, 3
  {
    if DerivesFactor(ts, node) {
      after := FactorIsParsed(ts, node, st, rest);
      NoTail(after, rest, AND);
      FactorAlone(st, node, after);
    } else {
      var i: nat :| i < |ts| && SplitAtAnd(ts, node, i);
      SplitOff(ts, i, rest);
      var mid := FactorIsParsed(ts[..i], node.children[0], st, [ts[i]] + (ts[i + 1..] + rest));
      Advance(mid, [ts[i]] + (ts[i + 1..] + rest));
      var next := NextToken(mid.rest).value;
      after := TermIsParsed(ts[i + 1..], node.children[1], next, rest);
      TermIsNotNull(ts[i + 1..], node.children[1]);
      FactorAndAny(st, node.children[0], mid, next, node.children[1], after);
      IsPair(node);
    }
  }

  lemma NoTail(st: State, rest: seq<Token>, word: Text)
    requires TokensFrom(st) == Some(rest) && !StartsWith(rest, word)
    ensures !At(st, word)
  {
    if At(st, word) { Advance(st, rest); }
  }

  lemma {:induction false} FactorIsParsed(ts: seq<Token>, node: Node, st: State, rest: seq<Token>)
    returns (after: State)
    requires AllReadable(ts) && DerivesFactor(ts, node) && TokensFrom(st) == Some(ts + rest)
    ensures ParseFactor(st) == Ok(Parsed(node, after)) && TokensFrom(after) == Some(rest)
    decreases |ts|, 1
  {
    if DerivesProperty(ts, node) {
      after := PropertyIsParsed(ts, node, st, rest);
    } else {
      FirstOf(ts, rest);
      Advance(st, ts + rest);
      var next := NextToken(st.rest).value;
      if ts[0] == Terminal(NOT) {
        after := FactorIsParsed(ts[1..], node.operand, next, rest);
        Negated(st, next, node.operand, after);
      } else {
        Unbracketed(ts, rest);
        var mid := PredicateIsParsed(ts[1..|ts| - 1], node, next, [ts[|ts| - 1]] + rest);
        Advance(mid, [ts[|ts| - 1]] + rest);
        after := NextToken(mid.rest).value;
        SelectionParsing.Bracketed(st, next, node, mid, after);
      }
    }
  }

  lemma PropertyIsParsed(ts: seq<Token>, node: Node, st: State, rest: seq<Token>) returns (after: State)
    requires AllReadable(ts) && DerivesProperty(ts, node) && TokensFrom(st) == Some(ts + rest)
    ensures ParseFactor(st) == Ok(Parsed(node, after)) && TokensFrom(after) == Some(rest)
  {
    var equals, value;
    equals, value, after := ThreeSteps(ts, st, rest);
    match ts[2]
    case Str(raw) =>
      assert ts[2] in ts;
      PropertyIsCheck(st, ts[0].name, equals, value, after, raw);
    case Terminal(_) => PropertyIsWildcard(st, ts[0].name, equals, value, after);
  }

  lemma ThreeSteps(ts: seq<Token>, st: State, rest: seq<Token>) returns (equals: State, value: State, after: State)
    requires |ts| == 3 && TokensFrom(st) == Some(ts + rest)
    ensures st.current == Some(ts[0]) && NextToken(st.rest) == Ok(equals)
    ensures equals.current == Some(ts[1]) && NextToken(equals.rest) == Ok(value)
    ensures value.current == Some(ts[2]) && NextToken(value.rest) == Ok(after)
    ensures TokensFrom(after) == Some(rest)
  {
    FirstOf(ts, rest);
    Advance(st, ts + rest);
    equals := NextToken(st.rest).value;
    FirstOf(ts[1..], rest);
    Advance(equals, ts[1..] + rest);
    value := NextToken(equals.rest).value;
    FirstOf(ts[1..][1..], rest);
    Advance(value, ts[1..][1..] + rest);
    after := NextToken(value.rest).value;
    assert ts[1..][1..][1..] + rest == rest;
  }

  lemma IsPair(node: Node)
    requires (node.And? || node.Or?) && |node.children| == 2 && node.children[1] != Null
    ensures node == WithoutSecond(node.And?, node.children[0], node.children[1])
  {
  }

  lemma TermOrAny(st: State, node: Node, mid: State, next: State, tail: Node, after: State)
    requires ParseTerm(st) == Ok(Parsed(node, mid)) && At(mid, OR) && NextToken(mid.rest) == Ok(next)
    requires ParsePredicate(next) == Ok(Parsed(tail, after))
    ensures ParsePredicate(st) == Ok(Parsed(WithoutSecond(false, node, tail), after))
  {
  }

  lemma FactorAndAny(st: State, node: Node, mid: State, next: State, tail: Node, after: State)
    requires ParseFactor(st) == Ok(Parsed(node, mid)) && At(mid, AND) && NextToken(mid.rest) == Ok(next)
    requires ParseTerm(next) == Ok(Parsed(tail, after))
    ensures ParseTerm(st) == Ok(Parsed(WithoutSecond(true, node, tail), after))
  {
  }

  lemma {:induction false} DerivedIsNotNull(ts: seq<Token>, node: Node)
    requires DerivesPredicate(ts, node)
    ensures node != Null
    decreases |ts|, 2
  {
    if DerivesTerm(ts, node) { TermIsNotNull(ts, node); }
  }

  lemma {:induction false} TermIsNotNull(ts: seq<Token>, node: Node)
    requires DerivesTerm(ts, node)
    ensures node != Null
    decreases |ts|, 1
  {
    if DerivesFactor(ts, node) && node == Null {
      assert !DerivesProperty(ts, node);
      DerivedIsNotNull(ts[1..|ts| - 1], node);
    }
  }

  // ----- Texts that lack their last operand -----------------------------------------------

  /** A property to complete such a text with. */
  const FILLER: seq<Token> := [Terminal(ID), Terminal(EQUALS), Terminal(STAR)]

  /** The tree without its last operand: an `and` or `or` that loses it is left out, a `not` is not. */
  function WithoutLast(node: Node): Node {
    match node
    case Not(operand) => Not(WithoutLast(operand))
    case And(children) => if |children| == 2 then WithoutSecond(true, children[0], WithoutLast(children[1])) else Null
    case Or(children) => if |children| == 2 then WithoutSecond(false, children[0], WithoutLast(children[1])) else Null
    case _ => Null
  }

  function WithoutSecond(isAnd: bool, first: Node, second: Node): Node {
    if second == Null then first else if isAnd then And([first, second]) else Or([first, second])
  }

  /** The operator at which a completed text splits is in the text itself. */
  lemma SplitFilled(ts: seq<Token>, i: nat)
    requires i < |ts + FILLER| && (ts + FILLER)[i] in {Terminal(AND), Terminal(OR)}
    ensures i < |ts| && (ts + FILLER)[i] == ts[i]
    ensures (ts + FILLER)[..i] == ts[..i] && (ts + FILLER)[i + 1..] == ts[i + 1..] + FILLER
    ensures ts == ts[..i] + ([ts[i]] + ts[i + 1..]) && ([ts[i]] + ts[i + 1..])[1..] == ts[i + 1..]
  {
  }

  lemma {:induction false} FilledPredicateIsParsed(ts: seq<Token>, node: Node, st: State) returns (after: State)
    requires AllReadable(ts) && DerivesPredicate(ts + FILLER, node) && TokensFrom(st) == Some(ts)
    ensures ParsePredicate(st) == Ok(Parsed(WithoutLast(node), after)) && TokensFrom(after) == Some([])
    decreases |ts|, 5
  {
    var all := ts + FILLER;
    if DerivesTerm(all, node) {
      after := FilledTermIsParsed(ts, node, st);
      NoTail(after, [], OR);
      TermAlone(st, WithoutLast(node), after);
    } else {
      var i: nat :| i < |all| && SplitAtOr(all, node, i);
      SplitFilled(ts, i);
      var mid := TermIsParsed(ts[..i], node.children[0], st, [ts[i]] + ts[i + 1..]);
      Advance(mid, [ts[i]] + ts[i + 1..]);
      var next := NextToken(mid.rest).value;
      after := FilledPredicateIsParsed(ts[i + 1..], node.children[1], next);
      TermOrAny(st, node.children[0], mid, next, WithoutLast(node.children[1]), after);
    }
  }

  lemma {:induction false} FilledTermIsParsed(ts: seq<Token>, node: Node, st: State) returns (after: State)
    requires AllReadable(ts) && DerivesTerm(ts + FILLER, node) && TokensFrom(st) == Some(ts)
    ensures ParseTerm(st) == Ok(Parsed(WithoutLast(node), after)) && TokensFrom(after) == Some([])
    decreases |ts|, 3
  {
    var all := ts + FILLER;
    if DerivesFactor(all, node) {
      after := FilledFactorIsParsed(ts, node, st);
      NoTail(after, [], AND);
      FactorAlone(st, WithoutLast(node), after);
    } else {
      var i: nat :| i < |all| && SplitAtAnd(all, node, i);
      SplitFilled(ts, i);
      var mid := FactorIsParsed(ts[..i], node.children[0], st, [ts[i]] + ts[i + 1..]);
      Advance(mid, [ts[i]] + ts[i + 1..]);
      var next := NextToken(mid.rest).value;
      after := FilledTermIsParsed(ts[i + 1..], node.children[1], next);
      FactorAndAny(st, node.children[0], mid, next, WithoutLast(node.children[1]), after);
    }
  }

  lemma {:induction false} FilledFactorIsParsed(ts: seq<Token>, node: Node, st: State) returns (after: State)
    requires AllReadable(ts) && DerivesFactor(ts + FILLER, node) && TokensFrom(st) == Some(ts)
    ensures ParseFactor(st) == Ok(Parsed(WithoutLast(node), after)) && TokensFrom(after) == Some([])
    decreases |ts|, 1
  {
    var all := ts + FILLER;
    assert all[|all| - 1] == Terminal(STAR);
    if ts == [] {
      after := st;
      assert all == FILLER;
    } else {
      FirstOf(ts, FILLER);
      Advance(st, ts);
      var next := NextToken(st.rest).value;
      after := FilledFactorIsParsed(ts[1..], node.operand, next);
      Negated(st, next, WithoutLast(node.operand), after);
    }
  }

  // ----- Accepted texts are of one of the two kinds ---------------------------------------

  ghost predicate IsPredicate(ts: seq<Token>, rest: seq<Token>, node: Node) {
    DerivesPredicate(ts, node)
        || (rest == [] && exists filled :: DerivesPredicate(ts + FILLER, filled) && node == WithoutLast(filled))
  }

  ghost predicate IsTerm(ts: seq<Token>, rest: seq<Token>, node: Node) {
    DerivesTerm(ts, node)
        || (rest == [] && exists filled :: DerivesTerm(ts + FILLER, filled) && node == WithoutLast(filled))
  }

  ghost predicate IsFactor(ts: seq<Token>, rest: seq<Token>, node: Node) {
    DerivesFactor(ts, node)
        || (rest == [] && exists filled :: DerivesFactor(ts + FILLER, filled) && node == WithoutLast(filled))
  }

  lemma PredicateSteps(st: State, node: Node, after: State)
    requires ParsePredicate(st) == Ok(Parsed(node, after))
    ensures ParseTerm(st).Ok?
    ensures var term := ParseTerm(st).value;
            if !At(term.state, OR) then term == Parsed(node, after)
            else
              && NextToken(term.state.rest).Ok? && ParsePredicate(NextToken(term.state.rest).value).Ok?
              && var tail := ParsePredicate(NextToken(term.state.rest).value).value;
                 tail.state == after && node == WithoutSecond(false, term.node, tail.node)
  {
  }

  lemma TermSteps(st: State, node: Node, after: State)
    requires ParseTerm(st) == Ok(Parsed(node, after))
    ensures ParseFactor(st).Ok?
    ensures var factor := ParseFactor(st).value;
            if !At(factor.state, AND) then factor == Parsed(node, after)
            else
              && NextToken(factor.state.rest).Ok? && ParseTerm(NextToken(factor.state.rest).value).Ok?
              && var tail := ParseTerm(NextToken(factor.state.rest).value).value;
                 tail.state == after && node == WithoutSecond(true, factor.node, tail.node)
  {
  }

  lemma NotSteps(st: State, node: Node, after: State)
    requires ParseFactor(st) == Ok(Parsed(node, after)) && At(st, NOT)
    ensures NextToken(st.rest).Ok? && ParseFactor(NextToken(st.rest).value).Ok?
    ensures var operand := ParseFactor(NextToken(st.rest).value).value;
            operand.state == after && node == Not(operand.node)
  {
  }

  lemma BracketSteps(st: State, node: Node, after: State)
    requires ParseFactor(st) == Ok(Parsed(node, after)) && At(st, OPEN)
    ensures NextToken(st.rest).Ok? && ParsePredicate(NextToken(st.rest).value).Ok?
    ensures var inside := ParsePredicate(NextToken(st.rest).value).value;
            inside.node == node && At(inside.state, CLOSE) && NextToken(inside.state.rest) == Ok(after)
  {
  }

  lemma PropertySteps(st: State, node: Node, after: State) returns (equals: State, value: State)
    requires ParseFactor(st) == Ok(Parsed(node, after)) && st.current.Some? && !At(st, OPEN) && !At(st, NOT)
    ensures NextToken(st.rest) == Ok(equals) && At(equals, EQUALS) && NextToken(equals.rest) == Ok(value)
    ensures value.current.Some? && NextToken(value.rest) == Ok(after)
    ensures DerivesProperty([st.current.value, Terminal(EQUALS), value.current.value], node)
    ensures Readable(st.current.value) && Readable(value.current.value)
  {
    equals := NextToken(st.rest).value;
    value := NextToken(equals.rest).value;
    if value.current.value.Str? { DecodedIsValue(value.current.value.raw); }
  }

  lemma Shorter(st: State)
    requires st.current.Some? && NextToken(st.rest).Ok?
    ensures Measure(NextToken(st.rest).value) < Measure(st)
  {
  }

  lemma {:induction false} ParsedIsPredicate(st: State, node: Node, after: State, rest: seq<Token>)
    returns (ts: seq<Token>)
    requires ParsePredicate(st) == Ok(Parsed(node, after)) && TokensFrom(after) == Some(rest)
    ensures TokensFrom(st) == Some(ts + rest) && IsPredicate(ts, rest, node) && AllReadable(ts)
    decreases Measure(st), 5
  {
    PredicateSteps(st, node, after);
    var term := ParseTerm(st).value;
    if At(term.state, OR) {
      Shorter(term.state);
      var next := NextToken(term.state.rest).value;
      var tail := ParsePredicate(next).value.node;
      var back := ParsedIsPredicate(next, tail, after, rest);
      GoBack(term.state, back + rest);
      var front := ParsedIsTerm(st, term.node, term.state, [Terminal(OR)] + (back + rest));
      ts := front + [Terminal(OR)] + back;
      Joined(front, Terminal(OR), back, rest);
      JoinAtOr(front, term.node, back, rest, tail);
    } else {
      ts := ParsedIsTerm(st, node, after, rest);
    }
  }

  lemma JoinAtOr(front: seq<Token>, first: Node, back: seq<Token>, rest: seq<Token>, second: Node)
    requires DerivesTerm(front, first) && IsPredicate(back, rest, second)
    ensures IsPredicate(front + [Terminal(OR)] + back, rest, WithoutSecond(false, first, second))
  {
    var ts := front + [Terminal(OR)] + back;
    var i := |front|;
    if DerivesPredicate(back, second) {
      DerivedIsNotNull(back, second);
      Joined(front, Terminal(OR), back, []);
      assert SplitAtOr(ts, Or([first, second]), i);
    } else {
      var filled :| DerivesPredicate(back + FILLER, filled) && second == WithoutLast(filled);
      JoinedFilled(front, Terminal(OR), back);
      var whole := Or([first, filled]);
      assert SplitAtOr(ts + FILLER, whole, i);
      assert DerivesPredicate(ts + FILLER, whole) && WithoutLast(whole) == WithoutSecond(false, first, second);
    }
  }

  lemma JoinedFilled(front: seq<Token>, t: Token, back: seq<Token>)
    ensures var all := front + [t] + back + FILLER;
            && |front| < |all| && all[|front|] == t && all[..|front|] == front && all[|front| + 1..] == back + FILLER
  {
  }

  lemma {:induction false} ParsedIsTerm(st: State, node: Node, after: State, rest: seq<Token>) returns (ts: seq<Token>)
    requires ParseTerm(st) == Ok(Parsed(node, after)) && TokensFrom(after) == Some(rest)
    ensures TokensFrom(st) == Some(ts + rest) && IsTerm(ts, rest, node) && AllReadable(ts)
    decreases Measure(st), 3
  {
    TermSteps(st, node, after);
    var factor := ParseFactor(st).value;
    if At(factor.state, AND) {
      Shorter(factor.state);
      var next := NextToken(factor.state.rest).value;
      var tail := ParseTerm(next).value.node;
      var back := ParsedIsTerm(next, tail, after, rest);
      GoBack(factor.state, back + rest);
      var front := ParsedIsFactor(st, factor.node, factor.state, [Terminal(AND)] + (back + rest));
      ts := front + [Terminal(AND)] + back;
      Joined(front, Terminal(AND), back, rest);
      JoinAtAnd(front, factor.node, back, rest, tail);
    } else {
      ts := ParsedIsFactor(st, node, after, rest);
    }
  }

  lemma JoinAtAnd(front: seq<Token>, first: Node, back: seq<Token>, rest: seq<Token>, second: Node)
    requires DerivesFactor(front, first) && IsTerm(back, rest, second)
    ensures IsTerm(front + [Terminal(AND)] + back, rest, WithoutSecond(true, first, second))
  {
    var ts := front + [Terminal(AND)] + back;
    var i := |front|;
    if DerivesTerm(back, second) {
      TermIsNotNull(back, second);
      Joined(front, Terminal(AND), back, []);
      assert SplitAtAnd(ts, And([first, second]), i);
    } else {
      var filled :| DerivesTerm(back + FILLER, filled) && second == WithoutLast(filled);
      JoinedFilled(front, Terminal(AND), back);
      var whole := And([first, filled]);
      assert SplitAtAnd(ts + FILLER, whole, i);
      assert DerivesTerm(ts + FILLER, whole) && WithoutLast(whole) == WithoutSecond(true, first, second);
    }
  }

  lemma {:induction false} ParsedIsFactor(st: State, node: Node, after: State, rest: seq<Token>)
    returns (ts: seq<Token>)
    requires ParseFactor(st) == Ok(Parsed(node, after)) && TokensFrom(after) == Some(rest)
    ensures TokensFrom(st) == Some(ts + rest) && IsFactor(ts, rest, node) && AllReadable(ts)
    decreases Measure(st), 1
  {
    if st.current.None? {
      ts := [];
      ParsedIsNothing(st, node, after, rest);
    } else if At(st, OPEN) {
      ts := ParsedIsBracketed(st, node, after, rest);
    } else if At(st, NOT) {
      NotSteps(st, node, after);
      Shorter(st);
      var next := NextToken(st.rest).value;
      var operand := ParseFactor(next).value.node;
      var back := ParsedIsFactor(next, operand, after, rest);
      GoBack(st, back + rest);
      ts := [Terminal(NOT)] + back;
      Prefixed(Terminal(NOT), back, rest);
      Negate(back, rest, operand);
    } else {
      ts := ParsedIsProperty(st, node, after, rest);
    }
  }

  lemma ParsedIsNothing(st: State, node: Node, after: State, rest: seq<Token>)
    requires ParseFactor(st) == Ok(Parsed(node, after)) && TokensFrom(after) == Some(rest) && st.current.None?
    ensures TokensFrom(st) == Some([] + rest) && IsFactor([], rest, node)
  {
    assert after == st && node == Null && rest == [] && [] + rest == rest;
    var filled := WildcardCheck(ID);
    assert [] + FILLER == FILLER && DerivesFactor([] + FILLER, filled) && WithoutLast(filled) == Null;
  }

  lemma Negate(back: seq<Token>, rest: seq<Token>, operand: Node)
    requires IsFactor(back, rest, operand)
    ensures IsFactor([Terminal(NOT)] + back, rest, Not(operand))
  {
    var ts := [Terminal(NOT)] + back;
    if DerivesFactor(back, operand) {
      assert ts[1..] == back;
      assert DerivesFactor(ts, Not(operand));
    } else {
      var filled :| DerivesFactor(back + FILLER, filled) && operand == WithoutLast(filled);
      assert (ts + FILLER)[1..] == back + FILLER;
      var whole := Not(filled);
      assert DerivesFactor(ts + FILLER, whole) && WithoutLast(whole) == Not(operand);
    }
  }

  lemma {:induction false} ParsedIsBracketed(st: State, node: Node, after: State, rest: seq<Token>)
    returns (ts: seq<Token>)
    requires ParseFactor(st) == Ok(Parsed(node, after)) && TokensFrom(after) == Some(rest) && At(st, OPEN)
    ensures TokensFrom(st) == Some(ts + rest) && IsFactor(ts, rest, node) && AllReadable(ts)
    decreases Measure(st), 0
  {
    BracketSteps(st, node, after);
    Shorter(st);
    var next := NextToken(st.rest).value;
    var closing := ParsePredicate(next).value.state;
    GoBack(closing, rest);
    var inside := ParsedIsPredicate(next, node, closing, [Terminal(CLOSE)] + rest);
    GoBack(st, inside + ([Terminal(CLOSE)] + rest));
    ts := [Terminal(OPEN)] + inside + [Terminal(CLOSE)];
    Around(Terminal(OPEN), inside, Terminal(CLOSE), rest);
    assert DerivesFactor(ts, node);
  }

  lemma ParsedIsProperty(st: State, node: Node, after: State, rest: seq<Token>) returns (ts: seq<Token>)
    requires ParseFactor(st) == Ok(Parsed(node, after)) && TokensFrom(after) == Some(rest)
    requires st.current.Some? && !At(st, OPEN) && !At(st, NOT)
    ensures TokensFrom(st) == Some(ts + rest) && IsFactor(ts, rest, node) && AllReadable(ts)
  {
    var equals, value := PropertySteps(st, node, after);
    GoBack(value, rest);
    GoBack(equals, [value.current.value] + rest);
    GoBack(st, [Terminal(EQUALS)] + ([value.current.value] + rest));
    ts := [st.current.value, Terminal(EQUALS), value.current.value];
    ThreeTokens(st.current.value, Terminal(EQUALS), value.current.value, rest);
    assert DerivesFactor(ts, node);
  }

  // ----- What the parser accepts ----------------------------------------------------------

  /** The operators that need an operand behind them. */
  predicate IsOperator(t: Token) { t in {Terminal(AND), Terminal(OR), Terminal(NOT)} }

  predicate EndsWithOperator(ts: seq<Token>) { ts != [] && IsOperator(ts[|ts| - 1]) }

  /** The text is a predicate of the grammar, or becomes one by appending an operand. */
  ghost predicate Accepted(ts: seq<Token>, node: Node) {
    || DerivesPredicate(ts, node)
    || (ts != [] && exists filled :: DerivesPredicate(ts + FILLER, filled) && node == WithoutLast(filled))
  }

  /**
    The parser returns a tree for a text if and only if no literal holds a raw control character
    and the grammar derives the text with this tree, or derives it with one more operand at the
    end and the tree is the one without it.
   */
  lemma ParsesExactly(s: Text, node: Node)
    ensures Parse(s) == Ok(node) <==>
            Tokens(s).Some? && NoControls(Tokens(s).value) && Accepted(Tokens(s).value, node)
  {
    if Tokens(s).Some? { TokensAreReadable(s); }
    if Parse(s) == Ok(node) {
      var first := NextToken(s).value;
      var after := ParsePredicate(first).value.state;
      var ts := ParsedIsPredicate(first, node, after, []);
      assert ts + [] == ts && TokensFrom(first) == Tokens(s);
    }
    if Tokens(s).Some? && NoControls(Tokens(s).value) && Accepted(Tokens(s).value, node) {
      var ts, first := Tokens(s).value, NextToken(s).value;
      assert TokensFrom(first) == Some(ts);
      if DerivesPredicate(ts, node) {
        NothingIsNotDerived(node);
        assert ts + [] == ts;
        var after := PredicateIsParsed(ts, node, first, []);
      } else {
        var filled :| DerivesPredicate(ts + FILLER, filled) && node == WithoutLast(filled);
        var after := FilledPredicateIsParsed(ts, filled, first);
      }
    }
  }

  lemma NothingIsNotDerived(node: Node)
    ensures !DerivesPredicate([], node)
  {
    assert !DerivesFactor([], node) && !DerivesTerm([], node);
  }

  /** What follows the last token of a predicate is never missing. */
  lemma {:induction false} DerivedIsComplete(ts: seq<Token>, node: Node)
    requires DerivesPredicate(ts, node)
    ensures ts != [] && !IsOperator(ts[|ts| - 1])
    decreases |ts|, 3
  {
    if DerivesTerm(ts, node) {
      TermIsComplete(ts, node);
    } else {
      var i: nat :| i < |ts| && SplitAtOr(ts, node, i);
      DerivedIsComplete(ts[i + 1..], node.children[1]);
    }
  }

  lemma {:induction false} TermIsComplete(ts: seq<Token>, node: Node)
    requires DerivesTerm(ts, node)
    ensures ts != [] && !IsOperator(ts[|ts| - 1])
    decreases |ts|, 2
  {
    if DerivesFactor(ts, node) {
      FactorIsComplete(ts, node);
    } else {
      var i: nat :| i < |ts| && SplitAtAnd(ts, node, i);
      TermIsComplete(ts[i + 1..], node.children[1]);
    }
  }

  lemma {:induction false} FactorIsComplete(ts: seq<Token>, node: Node)
    requires DerivesFactor(ts, node)
    ensures ts != [] && !IsOperator(ts[|ts| - 1])
    decreases |ts|, 1
  {
    if !DerivesProperty(ts, node) && ts[0] == Terminal(NOT) {
      FactorIsComplete(ts[1..], node.operand);
    }
  }

  /** An operand is missing only behind an operator. */
  lemma {:induction false} MissingOperand(ts: seq<Token>, node: Node)
    requires DerivesPredicate(ts + FILLER, node) && ts != []
    ensures IsOperator(ts[|ts| - 1])
    decreases |ts|, 3
  {
    var all := ts + FILLER;
    if DerivesTerm(all, node) {
      MissingOperandOfTerm(ts, node);
    } else {
      var i: nat :| i < |all| && SplitAtOr(all, node, i);
      assert all[i + 1..] == ts[i + 1..] + FILLER;
      if i + 1 < |ts| { MissingOperand(ts[i + 1..], node.children[1]); }
    }
  }

  lemma {:induction false} MissingOperandOfTerm(ts: seq<Token>, node: Node)
    requires DerivesTerm(ts + FILLER, node) && ts != []
    ensures IsOperator(ts[|ts| - 1])
    decreases |ts|, 2
  {
    var all := ts + FILLER;
    if DerivesFactor(all, node) {
      MissingOperandOfFactor(ts, node);
    } else {
      var i: nat :| i < |all| && SplitAtAnd(all, node, i);
      assert all[i + 1..] == ts[i + 1..] + FILLER;
      if i + 1 < |ts| { MissingOperandOfTerm(ts[i + 1..], node.children[1]); }
    }
  }

  lemma {:induction false} MissingOperandOfFactor(ts: seq<Token>, node: Node)
    requires DerivesFactor(ts + FILLER, node) && ts != []
    ensures IsOperator(ts[|ts| - 1])
    decreases |ts|, 1
  {
    var all := ts + FILLER;
    assert all[|all| - 1] == Terminal(STAR);
    assert all[1..] == ts[1..] + FILLER;
    if |ts| > 1 { MissingOperandOfFactor(ts[1..], node.operand); }
  }

  /**
    A text that parses is derivable from the grammar, with the tree the parser returns, if and
    only if it does not end with an operator.
   */
  lemma ParserKeepsToGrammarExactly(s: Text)
    requires Parse(s).Ok?
    ensures Tokens(s).Some?
    ensures DerivesPredicate(Tokens(s).value, Parse(s).value) <==> !EndsWithOperator(Tokens(s).value)
    ensures (exists node :: DerivesPredicate(Tokens(s).value, node)) <==> !EndsWithOperator(Tokens(s).value)
  {
    var node := Parse(s).value;
    ParsesExactly(s, node);
    var ts := Tokens(s).value;
    forall n | DerivesPredicate(ts, n) ensures !EndsWithOperator(ts) { DerivedIsComplete(ts, n); }
    if !DerivesPredicate(ts, node) {
      var filled :| DerivesPredicate(ts + FILLER, filled) && node == WithoutLast(filled);
      MissingOperand(ts, filled);
    }
  }

  /**
    What the grammar derives is parsed, with the derived tree, if and only if no literal in it
    holds a raw control character.
   */
  lemma GrammarIsParsed(s: Text, node: Node)
    requires Tokens(s).Some? && DerivesPredicate(Tokens(s).value, node)
    ensures Parse(s) == Ok(node) <==> NoControls(Tokens(s).value)
    ensures Parse(s).Ok? <==> NoControls(Tokens(s).value)
  {
    ParsesExactly(s, node);
    if Parse(s).Ok? { ParsesExactly(s, Parse(s).value); }
  }

  // ----- One tree for a text --------------------------------------------------------------

  lemma Slices(s: seq<Token>, n: nat, i: nat)
    requires i < n <= |s|
    ensures s[..n][..i] == s[..i] && s[..n][i] == s[i] && s[..n][i + 1..] == s[i + 1..][..n - i - 1]
    ensures s[i + 1..][n - i - 1..] == s[n..] && s[i..] == [s[i]] + s[i + 1..]
  {
  }

  lemma SamePair(x: Node, y: Node)
    requires (x.And? && y.And?) || (x.Or? && y.Or?)
    requires |x.children| == |y.children| == 2 && x.children[0] == y.children[0] && x.children[1] == y.children[1]
    ensures x == y
  {
  }

  /** Two predicates at the start of a list, neither of which could go on, are the same. */
  lemma {:induction false} SamePredicate(s: seq<Token>, n: nat, x: Node, m: nat, y: Node)
    requires n <= |s| && m <= |s| && DerivesPredicate(s[..n], x) && DerivesPredicate(s[..m], y)
    requires !StartsWith(s[n..], AND) && !StartsWith(s[n..], OR)
    requires !StartsWith(s[m..], AND) && !StartsWith(s[m..], OR)
    ensures n == m && x == y
    decreases |s|, 5
  {
    if DerivesTerm(s[..n], x) && DerivesTerm(s[..m], y) {
      SameTerm(s, n, x, m, y);
    } else if DerivesTerm(s[..n], x) {
      var j: nat :| j < m && SplitAtOr(s[..m], y, j);
      Slices(s, m, j);
      SameTerm(s, n, x, j, y.children[0]);
    } else {
      var i: nat :| i < n && SplitAtOr(s[..n], x, i);
      Slices(s, n, i);
      if DerivesTerm(s[..m], y) {
        SameTerm(s, i, x.children[0], m, y);
      } else {
        var j: nat :| j < m && SplitAtOr(s[..m], y, j);
        Slices(s, m, j);
        SameTerm(s, i, x.children[0], j, y.children[0]);
        SamePredicateTail(s, i, n, x, m, y);
      }
    }
  }

  lemma {:induction false} SamePredicateTail(s: seq<Token>, i: nat, n: nat, x: Node, m: nat, y: Node)
    requires i < n <= |s| && i < m <= |s| && x.Or? && y.Or? && |x.children| == |y.children| == 2
    requires x.children[0] == y.children[0]
    requires DerivesPredicate(s[i + 1..][..n - i - 1], x.children[1])
    requires DerivesPredicate(s[i + 1..][..m - i - 1], y.children[1])
    requires !StartsWith(s[i + 1..][n - i - 1..], AND) && !StartsWith(s[i + 1..][n - i - 1..], OR)
    requires !StartsWith(s[i + 1..][m - i - 1..], AND) && !StartsWith(s[i + 1..][m - i - 1..], OR)
    ensures n == m && x == y
    decreases |s|, 4
  {
    SamePredicate(s[i + 1..], n - i - 1, x.children[1], m - i - 1, y.children[1]);
    SamePair(x, y);
  }

  lemma {:induction false} SameTermTail(s: seq<Token>, i: nat, n: nat, x: Node, m: nat, y: Node)
    requires i < n <= |s| && i < m <= |s| && x.And? && y.And? && |x.children| == |y.children| == 2
    requires x.children[0] == y.children[0]
    requires DerivesTerm(s[i + 1..][..n - i - 1], x.children[1])
    requires DerivesTerm(s[i + 1..][..m - i - 1], y.children[1])
    requires !StartsWith(s[i + 1..][n - i - 1..], AND) && !StartsWith(s[i + 1..][m - i - 1..], AND)
    ensures n == m && x == y
    decreases |s|, 2
  {
    SameTerm(s[i + 1..], n - i - 1, x.children[1], m - i - 1, y.children[1]);
    SamePair(x, y);
  }

  lemma {:induction false} SameTerm(s: seq<Token>, n: nat, x: Node, m: nat, y: Node)
    requires n <= |s| && m <= |s| && DerivesTerm(s[..n], x) && DerivesTerm(s[..m], y)
    requires !StartsWith(s[n..], AND) && !StartsWith(s[m..], AND)
    ensures n == m && x == y
    decreases |s|, 3
  {
    if DerivesFactor(s[..n], x) && DerivesFactor(s[..m], y) {
      SameFactor(s, n, x, m, y);
    } else if DerivesFactor(s[..n], x) {
      var j: nat :| j < m && SplitAtAnd(s[..m], y, j);
      Slices(s, m, j);
      SameFactor(s, n, x, j, y.children[0]);
    } else {
      var i: nat :| i < n && SplitAtAnd(s[..n], x, i);
      Slices(s, n, i);
      if DerivesFactor(s[..m], y) {
        SameFactor(s, i, x.children[0], m, y);
      } else {
        var j: nat :| j < m && SplitAtAnd(s[..m], y, j);
        Slices(s, m, j);
        SameFactor(s, i, x.children[0], j, y.children[0]);
        SameTermTail(s, i, n, x, m, y);
      }
    }
  }

  lemma {:induction false} SameFactor(s: seq<Token>, n: nat, x: Node, m: nat, y: Node)
    requires n <= |s| && m <= |s| && DerivesFactor(s[..n], x) && DerivesFactor(s[..m], y)
    ensures n == m && x == y
    decreases |s|, 1
  {
    FactorStarts(s, n, x);
    FactorStarts(s, m, y);
    if s[0] == Terminal(NOT) {
      SameNegation(s, n, x, m, y);
    } else if s[0] == Terminal(OPEN) {
      SameBrackets(s, n, x, m, y);
    }
  }

  lemma {:induction false} SameNegation(s: seq<Token>, n: nat, x: Node, m: nat, y: Node)
    requires 0 < n <= |s| && 0 < m <= |s| && x.Not? && y.Not?
    requires DerivesFactor(s[1..][..n - 1], x.operand) && DerivesFactor(s[1..][..m - 1], y.operand)
    ensures n == m && x == y
    decreases |s|, 0
  {
    SameFactor(s[1..], n - 1, x.operand, m - 1, y.operand);
  }

  lemma {:induction false} SameBrackets(s: seq<Token>, n: nat, x: Node, m: nat, y: Node)
    requires 2 <= n <= |s| && 2 <= m <= |s|
    requires DerivesPredicate(s[1..][..n - 2], x) && StartsWith(s[1..][n - 2..], CLOSE)
    requires DerivesPredicate(s[1..][..m - 2], y) && StartsWith(s[1..][m - 2..], CLOSE)
    ensures n == m && x == y
    decreases |s|, 0
  {
    SamePredicate(s[1..], n - 2, x, m - 2, y);
  }

  /** The first token tells which kind of factor it is. */
  lemma FactorKind(ts: seq<Token>, x: Node)
    requires DerivesFactor(ts, x)
    ensures ts != []
    ensures ts[0] == Terminal(NOT) ==> x.Not? && DerivesFactor(ts[1..], x.operand)
    ensures ts[0] == Terminal(OPEN) ==>
              |ts| >= 2 && DerivesPredicate(ts[1..|ts| - 1], x) && ts[|ts| - 1] == Terminal(CLOSE)
    ensures ts[0] != Terminal(NOT) && ts[0] != Terminal(OPEN) ==> DerivesProperty(ts, x)
  {
  }

  lemma FactorStarts(s: seq<Token>, n: nat, x: Node)
    requires n <= |s| && DerivesFactor(s[..n], x)
    ensures n > 0 && (s[0] == Terminal(NOT) ==> x.Not? && DerivesFactor(s[1..][..n - 1], x.operand))
    ensures s[0] == Terminal(OPEN) ==>
              n >= 2 && DerivesPredicate(s[1..][..n - 2], x) && StartsWith(s[1..][n - 2..], CLOSE)
    ensures s[0] != Terminal(NOT) && s[0] != Terminal(OPEN) ==> n == 3 && DerivesProperty(s[..3], x)
  {
    FactorKind(s[..n], x);
    Slices(s, n, 0);
    if n >= 2 { InBrackets(s, n); }
  }

  lemma InBrackets(s: seq<Token>, n: nat)
    requires 2 <= n <= |s|
    ensures s[..n][1..n - 1] == s[1..][..n - 2] && s[1..][n - 2..] == [s[n - 1]] + s[n..] && s[..n][n - 1] == s[n - 1]
  {
  }

  /** The grammar derives no list of tokens with two trees. */
  lemma GrammarIsUnambiguous(ts: seq<Token>, first: Node, second: Node)
    requires DerivesPredicate(ts, first) && DerivesPredicate(ts, second)
    ensures first == second
  {
    assert ts[..|ts|] == ts;
    SamePredicate(ts, |ts|, first, |ts|, second);
  }

  // ----- Texts on which parser and grammar differ -----------------------------------------

  /** A check against a tab as it stands: the grammar derives it, the parser rejects it. */
  lemma RawTabIsRejected(literal: Text, s: Text)
    requires literal == [QUOTE, TAB, QUOTE] && s == ID + (EQUALS + literal)
    ensures Tokens(s).Some? && DerivesPredicate(Tokens(s).value, StringCheck(ID, [TAB])) && Parse(s).Err?
  {
    var tab, end: Text := [TAB], [];
    WordThen(ID, EQUALS + literal);
    WordThen(EQUALS, literal);
    TabIsRead(literal, tab, end);
    var ts := [Terminal(ID), Terminal(EQUALS), Str(tab)];
    assert [Terminal(ID)] + ([Terminal(EQUALS)] + [Str(tab)]) == ts;
    assert DerivesProperty(ts, StringCheck(ID, tab));
    assert DerivesFactor(ts, StringCheck(ID, tab)) && DerivesTerm(ts, StringCheck(ID, tab));
    GrammarIsParsed(s, StringCheck(ID, tab));
    assert Str(tab) in ts && TAB in tab;
  }

  lemma TabIsRead(literal: Text, tab: Text, end: Text)
    requires literal == [QUOTE, TAB, QUOTE] && tab == [TAB] && end == []
    ensures Tokens(literal) == Some([Str(tab)]) && ValueOf(tab) == tab
  {
    OtherStart(literal);
    assert literal[1..] == tab + QUOTES;
    TabIsScanned(tab + QUOTES, tab, end);
    assert NextToken(literal) == Ok(State(Some(Str(tab)), end));
    assert Tokens(end) == Some([]) && [Str(tab)] + [] == [Str(tab)];
    assert tab[1..] == end && tab + end == tab;
  }

  lemma TabIsScanned(s: Text, tab: Text, end: Text)
    requires s == tab + QUOTES && tab == [TAB] && end == []
    ensures ScanLiteral(s) == Some((tab, end))
  {
    var behind := s[1..];
    assert behind == QUOTES && behind[1..] == end;
    assert ScanLiteral(behind) == Some((end, end));
    assert s[..1] == tab && tab + end == tab;
  }

  lemma WordThen(word: Text, rest: Text)
    requires IsTerminal(word)
    ensures Tokens(word + rest) == Prepend(Terminal(word), Tokens(rest))
    ensures Tokens(SPACE + word + rest) == Prepend(Terminal(word), Tokens(rest))
  {
    TerminalIsRead(word, rest);
    WordIsRead(word, rest);
  }

  lemma TwoWords(first: Text, second: Text, end: Text)
    requires IsTerminal(first) && IsTerminal(second) && end == []
    ensures Tokens(first) == Some([Terminal(first)])
    ensures Tokens(first + (SPACE + second)) == Some([Terminal(first), Terminal(second)])
  {
    OneWord(first, end);
    OneWord(second, end);
    WordThen(first, SPACE + second);
    assert [Terminal(first)] + [Terminal(second)] == [Terminal(first), Terminal(second)];
  }

  lemma OneWord(word: Text, end: Text)
    requires IsTerminal(word) && end == []
    ensures Tokens(word) == Tokens(SPACE + word) == Some([Terminal(word)])
  {
    assert Tokens(end) == Some([]) && [Terminal(word)] + [] == [Terminal(word)];
    assert word + end == word && SPACE + word + end == SPACE + word;
    WordThen(word, end);
  }

  lemma NoFactorStartsWithAnd(ts: seq<Token>, node: Node)
    requires StartsWith(ts, AND)
    ensures !DerivesFactor(ts, node)
  {
  }

  lemma NotAndIsNotAccepted(node: Node)
    ensures !Accepted([Terminal(NOT), Terminal(AND)], node)
  {
    var ts := [Terminal(NOT), Terminal(AND)];
    if DerivesPredicate(ts, node) {
      DerivedIsComplete(ts, node);
    }
    forall filled ensures !DerivesPredicate(ts + FILLER, filled) { FilledNotAnd(filled); }
  }

  lemma FilledNotAnd(filled: Node)
    ensures !DerivesPredicate([Terminal(NOT), Terminal(AND)] + FILLER, filled)
  {
    var all := [Terminal(NOT), Terminal(AND)] + FILLER;
    assert all[1..] == [Terminal(AND)] + FILLER && all[..1] == [Terminal(NOT)] && all[..1][1..] == [];
    forall n ensures !DerivesFactor(all, n) && !DerivesFactor(all[..1], n) {
      if n.Not? {
        NoFactorStartsWithAnd(all[1..], n.operand);
        NothingIsNotDerived(n.operand);
      }
    }
    forall i: nat | i < |all| ensures !SplitAtAnd(all, filled, i) && !SplitAtOr(all, filled, i) {
      assert all[i] == Terminal(AND) ==> i == 1;
    }
    assert !DerivesTerm(all, filled);
  }

  /** A text the parser accepts although the grammar does not derive it, and one it rejects. */
  lemma DanglingNot(first: Text, second: Text)
    requires first == NOT && second == AND
    ensures Parse(first) == Ok(Not(Null)) && Parse(first + (SPACE + second)).Err?
    ensures Tokens(first).Some? && forall node :: !DerivesPredicate(Tokens(first).value, node)
  {
    TwoWords(first, second, []);
    NotIsAccepted();
    ParsesExactly(first, Not(Null));
    var s := first + (SPACE + second);
    if Parse(s).Ok? {
      ParsesExactly(s, Parse(s).value);
      NotAndIsNotAccepted(Parse(s).value);
    }
  }

  lemma NotIsAccepted()
    ensures Accepted([Terminal(NOT)], Not(Null))
    ensures forall node :: !DerivesPredicate([Terminal(NOT)], node)
  {
    var ts, filled := [Terminal(NOT)], Not(WildcardCheck(ID));
    assert (ts + FILLER)[1..] == FILLER && DerivesFactor(FILLER, WildcardCheck(ID));
    assert DerivesFactor(ts + FILLER, filled) && DerivesTerm(ts + FILLER, filled)
        && DerivesPredicate(ts + FILLER, filled);
    assert WithoutLast(filled) == Not(Null);
    forall node ensures !DerivesPredicate(ts, node) {
      if DerivesPredicate(ts, node) { DerivedIsComplete(ts, node); }
    }
  }
}
