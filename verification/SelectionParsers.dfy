/** The tokenizer and the parser of src/core/selection.js as objects that advance over a text. */
module SelectionParsers {
  import opened Wrappers
  import opened Selections

  class SelectionTokenizer {
    const selectionString: Text
    var nextCharIndex: nat
    var currentToken: Option<Token>

    constructor (selectionString: Text)
      ensures this.selectionString == selectionString && nextCharIndex == 0 && currentToken.None?
    {
      this.selectionString := selectionString;
      nextCharIndex, currentToken := 0, None;
    }

    predicate Valid()
      reads this
    {
      nextCharIndex <= |selectionString|
    }

    /** The current token and the text behind it. */
    function View(): State
      requires Valid()
      reads this
    {
      State(currentToken, selectionString[nextCharIndex..])
    }

    /** Moves to the next token; without effect on the view when there is none to read. */
    method Next() returns (ok: bool)
      requires Valid()
      modifies this
      ensures Valid()
      ensures ok <==> NextToken(old(View()).rest).Ok?
      ensures ok ==> View() == NextToken(old(View()).rest).value
    {
      SkipSpaces();
      ghost var rest := selectionString[nextCharIndex..];
      if nextCharIndex == |selectionString| {
        currentToken := None;
        return true;
      }
      var terminal := LeadingTerminal(selectionString[nextCharIndex..]);
      if terminal.Some? {
        nextCharIndex := nextCharIndex + |terminal.value|;
        currentToken := Some(Terminal(terminal.value));
        assert selectionString[nextCharIndex..] == rest[|terminal.value|..];
        return true;
      }
      if selectionString[nextCharIndex] != QUOTE {
        return false;
      }
      var literal := ScanLiteral(selectionString[nextCharIndex + 1..]);
      assert rest[1..] == selectionString[nextCharIndex + 1..];
      if literal.None? {
        return false;
      }
      var (raw, after) := literal.value;
      ScanIsSuffix(rest[1..]);
      nextCharIndex := |selectionString| - |after|;
      currentToken := Some(Str(raw));
      assert selectionString[nextCharIndex..] == after;
      return true;
    }

    method SkipSpaces()
      requires Valid()
      modifies this`nextCharIndex
      ensures Valid() && NextToken(selectionString[nextCharIndex..]) == NextToken(old(View()).rest)
      ensures nextCharIndex < |selectionString| ==> !IsSpace(selectionString[nextCharIndex])
    {
      while nextCharIndex < |selectionString| && IsSpace(selectionString[nextCharIndex])
        invariant Valid() && NextToken(selectionString[nextCharIndex..]) == NextToken(old(View()).rest)
      {
        assert selectionString[nextCharIndex..][1..] == selectionString[nextCharIndex + 1..];
        nextCharIndex := nextCharIndex + 1;
      }
    }
  }

  /** What follows a literal is the end of the text. */
  lemma {:induction false} ScanIsSuffix(s: Text)
    requires ScanLiteral(s).Some?
    ensures var rest := ScanLiteral(s).value.1; |rest| <= |s| && s[|s| - |rest|..] == rest
    decreases |s|
  {
    if s[0] != QUOTE {
      var n := if s[0] == BACKSLASH then 1 + Escape(s[1..]).value.1 else 1;
      ScanIsSuffix(s[n..]);
    }
  }

  /** The outcome of a parser method against the function it computes. */
  ghost predicate Agrees(expected: Result<Parsed, Error>, node: Option<Node>, after: State) {
    match expected
    case Err(_) => node.None?
    case Ok(p) => node == Some(p.node) && after == p.state
  }

  class SelectionParser {
    const tokenizer: SelectionTokenizer

    constructor (tokenizer: SelectionTokenizer)
      ensures this.tokenizer == tokenizer
    {
      this.tokenizer := tokenizer;
    }

    method ParsePredicate() returns (node: Option<Node>)
      requires tokenizer.Valid()
      modifies tokenizer
      ensures tokenizer.Valid() && Agrees(Selections.ParsePredicate(old(tokenizer.View())), node, tokenizer.View())
      decreases Measure(tokenizer.View()), 5
    {
      node := ParseTerm();
      if node.None? {
        return;
      }
      var predicateTail := ParsePredicateTail();
      if predicateTail.None? {
        return None;
      }
      if predicateTail.value != Null {
        return Some(Or([node.value, predicateTail.value]));
      }
    }

    method ParsePredicateTail() returns (node: Option<Node>)
      requires tokenizer.Valid()
      modifies tokenizer
      ensures tokenizer.Valid() && Agrees(Selections.ParsePredicateTail(old(tokenizer.View())), node, tokenizer.View())
      decreases Measure(tokenizer.View()), 4
    {
      if tokenizer.currentToken == Some(Terminal(OR)) {
        var ok := tokenizer.Next();
        if !ok {
          return None;
        }
        node := ParsePredicate();
        return;
      }
      return Some(Null);
    }

    method ParseTerm() returns (node: Option<Node>)
      requires tokenizer.Valid()
      modifies tokenizer
      ensures tokenizer.Valid() && Agrees(Selections.ParseTerm(old(tokenizer.View())), node, tokenizer.View())
      decreases Measure(tokenizer.View()), 3
    {
      node := ParseFactor();
      if node.None? {
        return;
      }
      var termTail := ParseTermTail();
      if termTail.None? {
        return None;
      }
      if termTail.value != Null {
        return Some(And([node.value, termTail.value]));
      }
    }

    method ParseTermTail() returns (node: Option<Node>)
      requires tokenizer.Valid()
      modifies tokenizer
      ensures tokenizer.Valid() && Agrees(Selections.ParseTermTail(old(tokenizer.View())), node, tokenizer.View())
      decreases Measure(tokenizer.View()), 2
    {
      if tokenizer.currentToken == Some(Terminal(AND)) {
        var ok := tokenizer.Next();
        if !ok {
          return None;
        }
        node := ParseTerm();
        return;
      }
      return Some(Null);
    }

    method ParseFactor() returns (node: Option<Node>)
      requires tokenizer.Valid()
      modifies tokenizer
      ensures tokenizer.Valid() && Agrees(Selections.ParseFactor(old(tokenizer.View())), node, tokenizer.View())
      decreases Measure(tokenizer.View()), 1
    {
      if tokenizer.currentToken.None? {
        return Some(Null);
      }
      if tokenizer.currentToken == Some(Terminal(OPEN)) {
        var ok := tokenizer.Next();
        if !ok {
          return None;
        }
        node := ParsePredicate();
        if node.None? {
          return;
        }
        if tokenizer.currentToken != Some(Terminal(CLOSE)) {
          return None;
        }
        ok := tokenizer.Next();
        if !ok {
          return None;
        }
        return;
      }
      if tokenizer.currentToken == Some(Terminal(NOT)) {
        var ok := tokenizer.Next();
        if !ok {
          return None;
        }
        node := ParseFactor();
        if node.None? {
          return;
        }
        return Some(Not(node.value));
      }
      node := ParseProperty();
    }

    method ParseProperty() returns (node: Option<Node>)
      requires tokenizer.Valid() && tokenizer.currentToken.Some?
      modifies tokenizer
      ensures tokenizer.Valid() && Agrees(Selections.ParseProperty(old(tokenizer.View())), node, tokenizer.View())
      decreases Measure(tokenizer.View()), 0
    {
      var propertyName := tokenizer.currentToken.value;
      var ok := tokenizer.Next();
      if !ok || propertyName.Str? || !IsPropertyName(propertyName.name) {
        return None;
      }
      if tokenizer.currentToken != Some(Terminal(EQUALS)) {
        return None;
      }
      ok := tokenizer.Next();
      if !ok {
        return None;
      }
      var propertyValue := tokenizer.currentToken;
      if propertyValue.None? {
        return None;
      }
      if propertyValue.value.Str? {
        ok := tokenizer.Next();
        var value := Decode(propertyValue.value.raw);
        return if ok && value.Some? then Some(StringCheck(propertyName.name, value.value)) else None;
      }
      if propertyValue.value == Terminal(STAR) {
        ok := tokenizer.Next();
        return if ok then Some(WildcardCheck(propertyName.name)) else None;
      }
      return None;
    }

    /** The whole text, which must hold a token and end with the selection. */
    method Parse() returns (node: Option<Node>)
      requires tokenizer.nextCharIndex == 0 && tokenizer.currentToken.None?
      modifies tokenizer
      ensures match Selections.Parse(tokenizer.selectionString)
              case Err(_) => node.None?
              case Ok(n) => node == Some(n)
    {
      assert tokenizer.selectionString[0..] == tokenizer.selectionString;
      var ok := tokenizer.Next();
      if !ok || tokenizer.currentToken.None? {
        return None;
      }
      node := ParsePredicate();
      if node.Some? && tokenizer.currentToken.Some? {
        return None;
      }
    }
  }

  /** The entry point of the module. */
  method ParseSelection(selectionString: Text) returns (node: Option<Node>)
    ensures match Selections.Parse(selectionString)
            case Err(_) => node.None?
            case Ok(n) => node == Some(n)
  {
    var tokenizer := new SelectionTokenizer(selectionString);
    var parser := new SelectionParser(tokenizer);
    node := parser.Parse();
  }
}
