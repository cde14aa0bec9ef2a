/**
  Selections as they are written: texts given by their character codes, the trees they parse to
  (src/core/selection.js) and the sets they stand for (src/core/registry.js).
 */
module SelectionTexts {
  import opened Wrappers
  import opened Selections
  import opened SelectionParsing
  import opened SelectionForms

  // ----- Operators --------------------------------------------------------------------------

  lemma InfixIsParsed(isAnd: bool, operator: Text, a: Text, x: Node, b: Text, y: Node, tail: Text)
    requires operator == if isAnd then AND else OR
    requires Reads(a, x) && Reads(b, y) && tail == SPACE + b
    ensures Parse(a + (SPACE + operator + tail)) == Ok(if isAnd then And([x, y]) else Or([x, y]))
  {
    var end, mid := State(None, []), State(Some(Terminal(operator)), tail);
    var rest := SPACE + operator + tail;
    assert b + [] == b && NextToken([]) == Ok(end);
    assert ReadsBefore(b, y, []);
    SpaceIsSkipped(b);
    WordIsRead(operator, tail);
    assert ReadsBefore(a, x, rest);
    InfixSteps(isAnd, NextToken(a + rest).value, x, mid, NextToken(tail).value, y, end);
  }

  lemma InfixSteps(isAnd: bool, first: State, x: Node, mid: State, next: State, y: Node, end: State)
    requires ParseFactor(first) == Ok(Parsed(x, mid)) && At(mid, if isAnd then AND else OR)
    requires NextToken(mid.rest) == Ok(next) && ParseFactor(next) == Ok(Parsed(y, end)) && end == State(None, [])
    requires y != Null
    ensures ParsePredicate(first) == Ok(Parsed(if isAnd then And([x, y]) else Or([x, y]), end))
    ensures first.current.None? ==> x == Null
  {
    FactorAlone(next, y, end);
    if isAnd {
      FactorAndTerm(first, x, mid, next, y, end);
      TermAlone(first, And([x, y]), end);
    } else {
      FactorOrPredicate(first, x, mid, next, y, end);
    }
  }

  /** The words `and` and `or`, in codes: 97 110 100 and 111 114. */
  lemma OperatorTexts(x: Node, y: Node, both: Text, either: Text)
    requires WellFormed(x) && WellFormed(y)
    requires both == ToString(x) + ([32, 97, 110, 100, 32] + ToString(y))
    requires either == ToString(x) + ([32, 111, 114, 32] + ToString(y))
    ensures Parse(both) == Ok(And([Reparsed(x), Reparsed(y)])) && Parse(either) == Ok(Or([Reparsed(x), Reparsed(y)]))
  {
    var tail := SPACE + ToString(y);
    NodeIsRead(x);
    NodeIsRead(y);
    InfixIsParsed(true, AND, ToString(x), Reparsed(x), ToString(y), Reparsed(y), tail);
    InfixIsParsed(false, OR, ToString(x), Reparsed(x), ToString(y), Reparsed(y), tail);
    OperatorCodes(ToString(y));
  }

  lemma OperatorCodes(b: Text)
    ensures [32, 97, 110, 100, 32] + b == SPACE + AND + (SPACE + b)
    ensures [32, 111, 114, 32] + b == SPACE + OR + (SPACE + b)
    ensures [110, 111, 116, 32] + b == NOT + (SPACE + b)
  {
  }

  /** The word `not`, in codes: 110 111 116. */
  lemma NotText(x: Node, s: Text)
    requires WellFormed(x) && s == [110, 111, 116, 32] + ToString(x)
    ensures Parse(s) == Ok(Not(Reparsed(x)))
  {
    var end, tail := State(None, []), SPACE + ToString(x);
    NodeIsRead(x);
    OperatorCodes(ToString(x));
    assert ToString(x) + [] == ToString(x) && NextToken([]) == Ok(end);
    assert ReadsBefore(ToString(x), Reparsed(x), []);
    TerminalIsRead(NOT, tail);
    SpaceIsSkipped(ToString(x));
    var first := State(Some(Terminal(NOT)), tail);
    Negated(first, NextToken(tail).value, Reparsed(x), end);
    FactorAlone(first, Not(Reparsed(x)), end);
  }

  /** Brackets, in codes: 40 and 41. */
  lemma BracketText(x: Node, s: Text)
    requires WellFormed(x) && s == [40] + ToString(x) + [41]
    ensures Parse(s) == Ok(Reparsed(x))
  {
    var end, closing, inside := State(None, []), State(Some(Terminal(CLOSE)), []), ToString(x) + CLOSE;
    NodeIsRead(x);
    assert s == OPEN + inside && CLOSE + [] == CLOSE && NextToken([]) == Ok(end);
    TerminalIsRead(CLOSE, []);
    TerminalIsRead(OPEN, inside);
    assert ReadsBefore(ToString(x), Reparsed(x), CLOSE);
    FactorAlone(NextToken(inside).value, Reparsed(x), closing);
    Bracketed(State(Some(Terminal(OPEN)), inside), NextToken(inside).value, Reparsed(x), closing, end);
    FactorAlone(State(Some(Terminal(OPEN)), inside), Reparsed(x), end);
  }

  /** Tab, line feed, vertical tab, form feed, carriage return, and the spaces and line separators of Unicode. */
  const BLANKS: set<CodeUnit> := {
    9, 10, 11, 12, 13, 32, 0xA0, 0x1680, 0x2000, 0x2001, 0x2002, 0x2003, 0x2004, 0x2005, 0x2006, 0x2007, 0x2008, 0x2009,
    0x200A, 0x2028, 0x2029, 0x202F, 0x205F, 0x3000, 0xFEFF}

  /** Blanks before a token are skipped; any other unit is part of one. */
  lemma BlanksAreSkipped(c: CodeUnit, s: Text)
    ensures c in BLANKS ==> Parse([c] + s) == Parse(s)
    ensures c !in BLANKS ==> NextToken([c] + s).Err? || NextToken([c] + s).value.current.Some?
    ensures c !in BLANKS && c != 34 && (forall t :: IsTerminal(t) ==> t[0] != c) ==> NextToken([c] + s).Err?
  {
    var text := [c] + s;
    assert text[1..] == s && text[0] == c;
    if LeadingTerminal(text).Some? {
        assert LeadingTerminal(text).value[0] == c && IsTerminal(LeadingTerminal(text).value); }
  }

  // ----- Printed forms ----------------------------------------------------------------------

  /** The first difference decides, a proper prefix comes first. */
  ghost predicate InOrder(a: Text, b: Text) {
    a <= b || exists k :: 0 <= k < |a| && k < |b| && a[..k] == b[..k] && a[k] < b[k]
  }

  /** Operands are sorted by their code units. */
  lemma {:induction false} AtMostMeaning(a: Text, b: Text)
    ensures AtMost(a, b) <==> InOrder(a, b)
  {
    if a != [] && b != [] {
      AtMostMeaning(a[1..], b[1..]);
      if a[0] == b[0] {
        InOrderOfTails(a, b);
      } else if a[0] < b[0] {
        assert a[..0] == b[..0];
      } else {
        assert forall k :: 0 < k < |a| && k < |b| ==> a[..k][0] != b[..k][0];
      }
    }
  }

  lemma InOrderOfTails(a: Text, b: Text)
    requires a != [] && b != [] && a[0] == b[0]
    ensures InOrder(a, b) <==> InOrder(a[1..], b[1..])
  {
    assert a == [a[0]] + a[1..] && b == [b[0]] + b[1..];
    if k :| 0 <= k < |a[1..]| && k < |b[1..]| && a[1..][..k] == b[1..][..k] && a[1..][k] < b[1..][k] {
      assert a[..k + 1] == [a[0]] + a[1..][..k] && b[..k + 1] == [b[0]] + b[1..][..k];
      assert a[k + 1] < b[k + 1];
    }
    if k :| 0 <= k < |a| && k < |b| && a[..k] == b[..k] && a[k] < b[k] {
      assert k > 0 && a[1..][..k - 1] == a[..k][1..] && b[1..][..k - 1] == b[..k][1..];
      assert a[1..][k - 1] < b[1..][k - 1];
    }
  }

  /** Two operands in order, in brackets, with the operator and spaces between them. */
  lemma PrintedPairs(x: Node, y: Node, middle: Text)
    requires InOrder(ToString(x), ToString(y)) && middle == [40, 32] + ToString(x)
    ensures ToString(And([x, y])) == ToString(And([y, x])) == middle + ([32, 97, 110, 100, 32] + ToString(y) + [32, 41])
    ensures ToString(Or([x, y])) == ToString(Or([y, x])) == middle + ([32, 111, 114, 32] + ToString(y) + [32, 41])
  {
    var a, b := ToString(x), ToString(y);
    AtMostMeaning(a, b);
    TwoStrings(x, y);
    TwoStrings(y, x);
    SortedPair(a, b);
    PrintedPair(AND, a, b);
    PrintedPair(OR, a, b);
  }

  lemma TwoStrings(x: Node, y: Node)
    ensures Strings([x, y]) == [ToString(x), ToString(y)]
  {
    assert [x, y][1..] == [y] && [y][1..] == [] && Strings([y]) == [ToString(y)] + Strings([]);
  }

  lemma SortedPair(a: Text, b: Text)
    requires AtMost(a, b)
    ensures Sort([a, b]) == Sort([b, a]) == [a, b]
  {
    SortSorts([a, b]);
    SortSorts([b, a]);
    AtMostIsTotal(a, b);
    assert multiset([a, b]) == multiset([b, a]);
    SortedIsUnique(Sort([a, b]), [a, b]);
    SortedIsUnique(Sort([b, a]), [a, b]);
  }

  lemma PrintedPair(operator: Text, a: Text, b: Text)
    ensures Print(operator, [a, b]) == OPEN + (SPACE + a + SPACE + operator + (SPACE + b + (SPACE + CLOSE)))
    ensures operator == AND ==> Print(operator, [a, b]) == [40, 32] + a + ([32, 97, 110, 100, 32] + b + [32, 41])
    ensures operator == OR ==> Print(operator, [a, b]) == [40, 32] + a + ([32, 111, 114, 32] + b + [32, 41])
  {
    assert [a, b][1..] == [b];
    assert Operands(operator, [b]) == SPACE + b + (SPACE + CLOSE);
  }

  // ----- Escapes ----------------------------------------------------------------------------

  /** The two-character escapes of section 7 of RFC 8259, and the code units they stand for. */
  const ESCAPES: set<(CodeUnit, CodeUnit)> := {
    (34, 34), (92, 92), (47, 47), (98, 8), (102, 12), (110, 10), (114, 13), (116, 9)}

  function HexLetter(digit: int, upper: bool): CodeUnit
    requires 0 <= digit < 16
  {
    (if digit < 10 then 48 + digit else if upper then 55 + digit else 87 + digit) as CodeUnit
  }

  /** The code unit in four hexadecimal digits. */
  function HexText(c: CodeUnit, upper: bool): Text {
    var n := c as int;
    var a := n / 16;
    var b := a / 16;
    [HexLetter(b / 16, upper), HexLetter(b % 16, upper), HexLetter(a % 16, upper), HexLetter(n % 16, upper)]
  }

  lemma HexLetterIsRead(digit: int, upper: bool)
    requires 0 <= digit < 16
    ensures HexDigit(HexLetter(digit, upper), upper) == Some(digit)
    ensures digit < 10 ==> HexDigit(HexLetter(digit, upper), !upper) == Some(digit)
    ensures digit >= 10 ==> HexDigit(HexLetter(digit, upper), !upper) == None
  {
  }

  lemma HexTextIsRead(c: CodeUnit, upper: bool)
    ensures HexCode(HexText(c, upper), upper) == Some(c)
    ensures HexCode(HexText(c, upper), !upper) in {Some(c), None}
  {
    var n := c as int;
    var a := n / 16;
    var b := a / 16;
    assert n == b / 16 * 4096 + b % 16 * 256 + a % 16 * 16 + n % 16;
    HexLetterIsRead(b / 16, upper);
    HexLetterIsRead(b % 16, upper);
    HexLetterIsRead(a % 16, upper);
    HexLetterIsRead(n % 16, upper);
  }

  /** An escape denotes its code unit: a listed one, or any in four hexadecimal digits after `u`. */
  lemma EscapesAreRead(letter: CodeUnit, value: CodeUnit, c: CodeUnit, upper: bool, short: Text, long: Text)
    requires (letter, value) in ESCAPES && short == [92, letter] && long == [92, 117] + HexText(c, upper)
    ensures Decode(short) == Some([value]) && Decode(long) == Some([c])
  {
    HexTextIsRead(c, upper);
    var end: Text := [];
    assert Decode(end) == Some(end) && [value] + end == [value] && [c] + end == [c];
    assert short[1..] == [letter] && short[2..] == end;
    assert long[1..] == [117] + HexText(c, upper) && long[1..][1..] == HexText(c, upper) && long[6..] == end;
  }

  // ----- Checks -----------------------------------------------------------------------------

  /** The names, in codes: `interface`, `type`, `id` and `group`. */
  const NAMES: set<Text> := {
    [105, 110, 116, 101, 114, 102, 97, 99, 101], [116, 121, 112, 101], [105, 100], [103, 114, 111, 117, 112]}

  /** A name, `=`, and a value between quotes or `*`. */
  lemma CheckTexts(name: Text, v: Text, check: Text, wildcard: Text)
    requires name in NAMES && Plain(v) && check == name + ([61, 34] + v + [34]) && wildcard == name + [61, 42]
    ensures Parse(check) == Ok(StringCheck(name, v)) && Parse(wildcard) == Ok(WildcardCheck(name))
  {
    assert check == ToString(StringCheck(name, v)) && wildcard == ToString(WildcardCheck(name));
    ParseUndoesToString(StringCheck(name, v));
    ParseUndoesToString(WildcardCheck(name));
  }

  // ----- The sets they stand for ------------------------------------------------------------

  /** The text parses, and to a selection that stands for exactly these resources. */
  ghost predicate StandsFor(index: Index, s: Text, resources: set<Text>) {
    Parse(s).Ok? && Good(Parse(s).value) && EvaluateSelection(index, Parse(s).value) == resources
  }

  lemma ParsedStandsFor(index: Index, s: Text, node: Node)
    requires Parse(s) == Ok(node) && Good(node)
    ensures forall resources :: StandsFor(index, s, resources) <==> resources == EvaluateSelection(index, node)
  {
  }

  /** A check stands for what the index lists under the name and the value, or under the name. */
  lemma ChecksStandFor(index: Index, name: Text, v: Text, check: Text, wildcard: Text)
    requires name in NAMES && Plain(v) && check == name + ([61, 34] + v + [34]) && wildcard == name + [61, 42]
    ensures StandsFor(index, check, if (name, v) in index.byValue then index.byValue[(name, v)] else {})
    ensures StandsFor(index, wildcard, if name in index.byName then index.byName[name] else {})
  {
    CheckTexts(name, v, check, wildcard);
    CheckMeaning(index, name, v);
    ParsedStandsFor(index, check, StringCheck(name, v));
    ParsedStandsFor(index, wildcard, WildcardCheck(name));
  }

  lemma CheckMeaning(index: Index, name: Text, v: Text)
    requires name in NAMES && Plain(v)
    ensures Good(StringCheck(name, v)) && Good(WildcardCheck(name))
    ensures EvaluateSelection(index, StringCheck(name, v)) ==
            if (name, v) in index.byValue then index.byValue[(name, v)] else {}
    ensures EvaluateSelection(index, WildcardCheck(name)) == if name in index.byName then index.byName[name] else {}
  {
  }

  lemma PairsStandFor(index: Index, a: Node, b: Node)
    requires Good(a) && Good(b)
    ensures var xs, ys := EvaluateSelection(index, a), EvaluateSelection(index, b);
            && Good(And([a, b])) && EvaluateSelection(index, And([a, b])) == xs * ys
            && Good(Or([a, b])) && EvaluateSelection(index, Or([a, b])) == xs + ys
            && Good(Not(a)) && EvaluateSelection(index, Not(a)) == index.resources - xs
  {
  }

  /** `and` stands for the common resources, `or` for all of both, `not` for the others. */
  lemma OperatorsStandFor(index: Index, x: Node, y: Node, xs: set<Text>, ys: set<Text>, both: Text, either: Text,
                          other: Text)
    requires Good(x) && Good(y) && StandsFor(index, ToString(x), xs) && StandsFor(index, ToString(y), ys)
    requires both == ToString(x) + ([32, 97, 110, 100, 32] + ToString(y))
    requires either == ToString(x) + ([32, 111, 114, 32] + ToString(y)) && other == [110, 111, 116, 32] + ToString(x)
    ensures StandsFor(index, both, xs * ys) && StandsFor(index, either, xs + ys)
    ensures StandsFor(index, other, index.resources - xs)
  {
    var a, b := Reparsed(x), Reparsed(y);
    ParseUndoesToString(x);
    ParseUndoesToString(y);
    ReparsedShape(x);
    ReparsedShape(y);
    ParsedStandsFor(index, ToString(x), a);
    ParsedStandsFor(index, ToString(y), b);
    OperatorTexts(x, y, both, either);
    NotText(x, other);
    PairsStandFor(index, a, b);
    ParsedStandsFor(index, both, And([a, b]));
    ParsedStandsFor(index, either, Or([a, b]));
    ParsedStandsFor(index, other, Not(a));
  }
}
