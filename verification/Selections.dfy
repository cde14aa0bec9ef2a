/**
  The selection language (src/core/selection.js): tokens, parser and printed form.  Texts are
  sequences of UTF-16 code units, as in the language of the source.
 */
module Selections {
  import opened Wrappers

  datatype Error = InvalidToken | ParseError | InvalidString

  // ----- Texts ----------------------------------------------------------------------------

  newtype CodeUnit = c: int | 0 <= c < 0x1_0000

  type Text = seq<CodeUnit>

  const TAB: CodeUnit := 9
  const BLANK: CodeUnit := 32
  const QUOTE: CodeUnit := 34
  const BACKSLASH: CodeUnit := 92

  // The words of the language, as their codes.
  const AND: Text := [97, 110, 100]
  const OR: Text := [111, 114]
  const NOT: Text := [110, 111, 116]
  const OPEN: Text := [40]
  const CLOSE: Text := [41]
  const EQUALS: Text := [61]
  const STAR: Text := [42]
  const INTERFACE: Text := [105, 110, 116, 101, 114, 102, 97, 99, 101]
  const TYPE: Text := [116, 121, 112, 101]
  const ID: Text := [105, 100]
  const GROUP: Text := [103, 114, 111, 117, 112]

  const SPACE: Text := [BLANK]
  const QUOTES: Text := [QUOTE]

  // ----- Tokens ---------------------------------------------------------------------------

  /** A string token carries its literal as it stands between the quotes. */
  datatype Token = Terminal(name: Text) | Str(raw: Text)

  /** The current token, none at the end, and what follows it. */
  datatype State = State(current: Option<Token>, rest: Text)

  predicate IsSpace(c: CodeUnit) {
    || 9 <= c <= 13 || c == 32 || c == 0xA0 || c == 0x1680 || 0x2000 <= c <= 0x200A
    || c in {0x2028, 0x2029, 0x202F, 0x205F, 0x3000, 0xFEFF}
  }

  /** The first terminal, in the order of the source's list, that the text starts with. */
  function LeadingTerminal(s: Text): (t: Option<Text>)
    ensures t.Some? ==> 0 < |t.value| <= |s|
  {
    if AND <= s then Some(AND)
    else if OR <= s then Some(OR)
    else if NOT <= s then Some(NOT)
    else if OPEN <= s then Some(OPEN)
    else if CLOSE <= s then Some(CLOSE)
    else if EQUALS <= s then Some(EQUALS)
    else if STAR <= s then Some(STAR)
    else if INTERFACE <= s then Some(INTERFACE)
    else if TYPE <= s then Some(TYPE)
    else if ID <= s then Some(ID)
    else if GROUP <= s then Some(GROUP)
    else None
  }

  function HexDigit(c: CodeUnit, upper: bool): Option<int> {
    if 48 <= c <= 57 then Some(c as int - 48)
    else if upper && 65 <= c <= 70 then Some(c as int - 65 + 10)
    else if !upper && 97 <= c <= 102 then Some(c as int - 97 + 10)
    else None
  }

  /** Four hexadecimal digits, letters of one case only. */
  function HexCode(s: Text, upper: bool): Option<CodeUnit> {
    if |s| < 4 then None
    else
      var a, b, c, d := HexDigit(s[0], upper), HexDigit(s[1], upper), HexDigit(s[2], upper), HexDigit(s[3], upper);
      if a.Some? && b.Some? && c.Some? && d.Some? then
        Some((a.value * 4096 + b.value * 256 + c.value * 16 + d.value) as CodeUnit)
      else None
  }

  /** The code unit an escape stands for and the length of the escape after the backslash. */
  function Escape(s: Text): (r: Option<(CodeUnit, nat)>)
    ensures r.Some? ==> 0 < r.value.1 <= |s|
  {
    if s == [] then None
    else if s[0] in {QUOTE, BACKSLASH, 47} then Some((s[0], 1))
    else if s[0] == 98 then Some((8, 1))
    else if s[0] == 102 then Some((12, 1))
    else if s[0] == 110 then Some((10, 1))
    else if s[0] == 114 then Some((13, 1))
    else if s[0] == 116 then Some((TAB, 1))
    else if s[0] == 117 then
      var upper, lower := HexCode(s[1..], true), HexCode(s[1..], false);
      if upper.Some? then Some((upper.value, 5)) else if lower.Some? then Some((lower.value, 5)) else None
    else None
  }

  /** Reads a literal after its opening quote: what stands before and what behind the closing one. */
  function ScanLiteral(s: Text): (r: Option<(Text, Text)>)
    ensures r.Some? ==> |r.value.1| < |s|
    decreases |s|
  {
    if s == [] then None
    else if s[0] == QUOTE then Some(([], s[1..]))
    else if s[0] == BACKSLASH then
      var escape := Escape(s[1..]);
      if escape.None? then None else PutBefore(s[..1 + escape.value.1], ScanLiteral(s[1 + escape.value.1..]))
    else PutBefore(s[..1], ScanLiteral(s[1..]))
  }

  function PutBefore(front: Text, r: Option<(Text, Text)>): Option<(Text, Text)> {
    if r.None? then None else Some((front + r.value.0, r.value.1))
  }

  /** The value of a literal, which is a JSON string: section 7 of RFC 8259. */
  function Decode(raw: Text): Option<Text>
    decreases |raw|
  {
    if raw == [] then Some([])
    else if raw[0] == BACKSLASH then
      var escape := Escape(raw[1..]);
      if escape.None? then None else Prefix(escape.value.0, Decode(raw[1 + escape.value.1..]))
    else if raw[0] == QUOTE || raw[0] < BLANK then None
    else Prefix(raw[0], Decode(raw[1..]))
  }

  function Prefix(c: CodeUnit, value: Option<Text>): Option<Text> {
    if value.None? then None else Some([c] + value.value)
  }

  function NextToken(s: Text): (r: Result<State, Error>)
    ensures r.Ok? ==> |r.value.rest| <= |s| && (r.value.current.Some? ==> |r.value.rest| < |s|)
    decreases |s|
  {
    if s == [] then Ok(State(None, []))
    else if IsSpace(s[0]) then NextToken(s[1..])
    else
      match LeadingTerminal(s)
      case Some(t) => Ok(State(Some(Terminal(t)), s[|t|..]))
      case None =>
        if s[0] != QUOTE then Err(InvalidToken)
        else
          match ScanLiteral(s[1..])
          case Some((raw, rest)) => Ok(State(Some(Str(raw)), rest))
          case None => Err(InvalidToken)
  }

  // ----- Trees ----------------------------------------------------------------------------

  /** `Null` is the missing operand the parser leaves when the text ends too early. */
  datatype Node =
    | And(children: seq<Node>)
    | Or(children: seq<Node>)
    | Not(operand: Node)
    | StringCheck(name: Text, value: Text)
    | WildcardCheck(name: Text)
    | Null

  datatype Parsed = Parsed(node: Node, state: State)

  // ----- Parser ---------------------------------------------------------------------------

  function Measure(st: State): nat { |st.rest| + (if st.current.Some? then 1 else 0) }

  predicate NotLonger(r: Result<Parsed, Error>, st: State) { r.Ok? ==> Measure(r.value.state) <= Measure(st) }

  predicate At(st: State, name: Text) { st.current == Some(Terminal(name)) }

  predicate IsPropertyName(name: Text) { name in {GROUP, INTERFACE, TYPE, ID} }

  function ParsePredicate(st: State): (r: Result<Parsed, Error>)
    ensures NotLonger(r, st)
    decreases Measure(st), 5
  {
    match ParseTerm(st)
    case Err(e) => Err(e)
    case Ok(term) =>
      match ParsePredicateTail(term.state) {
        case Err(e) => Err(e)
        case Ok(tail) => Ok(Parsed(if tail.node != Null then Or([term.node, tail.node]) else term.node, tail.state))
      }
  }

  function ParsePredicateTail(st: State): (r: Result<Parsed, Error>)
    ensures NotLonger(r, st)
    decreases Measure(st), 4
  {
    if At(st, OR) then
      match NextToken(st.rest) {
        case Err(e) => Err(e)
        case Ok(next) => ParsePredicate(next)
      }
    else Ok(Parsed(Null, st))
  }

  function ParseTerm(st: State): (r: Result<Parsed, Error>)
    ensures NotLonger(r, st)
    decreases Measure(st), 3
  {
    match ParseFactor(st)
    case Err(e) => Err(e)
    case Ok(factor) =>
      match ParseTermTail(factor.state) {
        case Err(e) => Err(e)
        case Ok(tail) =>
          Ok(Parsed(if tail.node != Null then And([factor.node, tail.node]) else factor.node, tail.state))
      }
  }

  function ParseTermTail(st: State): (r: Result<Parsed, Error>)
    ensures NotLonger(r, st)
    decreases Measure(st), 2
  {
    if At(st, AND) then
      match NextToken(st.rest) {
        case Err(e) => Err(e)
        case Ok(next) => ParseTerm(next)
      }
    else Ok(Parsed(Null, st))
  }

  function ParseFactor(st: State): (r: Result<Parsed, Error>)
    ensures NotLonger(r, st)
    decreases Measure(st), 1
  {
    if st.current.None? then Ok(Parsed(Null, st))
    else if At(st, OPEN) then
      match NextToken(st.rest) {
        case Err(e) => Err(e)
        case Ok(next) =>
          match ParsePredicate(next) {
            case Err(e) => Err(e)
            case Ok(p) =>
              if At(p.state, CLOSE) then
                match NextToken(p.state.rest) {
                  case Err(e) => Err(e)
                  case Ok(after) => Ok(Parsed(p.node, after))
                }
              else Err(ParseError)
          }
      }
    else if At(st, NOT) then
      match NextToken(st.rest) {
        case Err(e) => Err(e)
        case Ok(next) =>
          match ParseFactor(next) {
            case Err(e) => Err(e)
            case Ok(p) => Ok(Parsed(Not(p.node), p.state))
          }
      }
    else ParseProperty(st)
  }

  function ParseProperty(st: State): (r: Result<Parsed, Error>)
    requires st.current.Some?
    ensures NotLonger(r, st)
    decreases Measure(st), 0
  {
    match NextToken(st.rest)
    case Err(e) => Err(e)
    case Ok(equals) =>
      if st.current.value.Str? || !IsPropertyName(st.current.value.name) || !At(equals, EQUALS) then Err(ParseError)
      else
        match NextToken(equals.rest) {
          case Err(e) => Err(e)
          case Ok(value) =>
            if value.current.None? then Err(ParseError)
            else
              match NextToken(value.rest) {
                case Err(e) => Err(e)
                case Ok(after) =>
                  if value.current.value.Str? then CheckOf(st.current.value.name, value.current.value.raw, after)
                  else if At(value, STAR) then Ok(Parsed(WildcardCheck(st.current.value.name), after))
                  else Err(ParseError)
              }
        }
  }

  function CheckOf(name: Text, raw: Text, after: State): Result<Parsed, Error> {
    match Decode(raw)
    case None => Err(InvalidString)
    case Some(value) => Ok(Parsed(StringCheck(name, value), after))
  }

  function Parse(s: Text): Result<Node, Error> {
    match NextToken(s)
    case Err(e) => Err(e)
    case Ok(first) =>
      if first.current.None? then Err(ParseError)
      else
        match ParsePredicate(first) {
          case Err(e) => Err(e)
          case Ok(p) => if p.state.current.Some? then Err(ParseError) else Ok(p.node)
        }
  }

  // ----- Printing -------------------------------------------------------------------------

  /** Code unit by code unit, a proper prefix first. */
  predicate AtMost(a: Text, b: Text) {
    if a == [] then true
    else if b == [] then false
    else a[0] < b[0] || (a[0] == b[0] && AtMost(a[1..], b[1..]))
  }

  function Insert(x: Text, sorted: seq<Text>): (r: seq<Text>)
    ensures |r| == |sorted| + 1
  {
    if sorted == [] || AtMost(x, sorted[0]) then [x] + sorted else [sorted[0]] + Insert(x, sorted[1..])
  }

  function Sort(xs: seq<Text>): (r: seq<Text>)
    ensures |r| == |xs|
  {
    if xs == [] then [] else Insert(xs[0], Sort(xs[1..]))
  }

  /** The operands after the opening bracket, with the operator between them. */
  function Operands(operator: Text, xs: seq<Text>): Text {
    if xs == [] then []
    else if |xs| == 1 then SPACE + xs[0] + (SPACE + CLOSE)
    else SPACE + xs[0] + SPACE + operator + Operands(operator, xs[1..])
  }

  function Print(operator: Text, xs: seq<Text>): Text {
    OPEN + Operands(operator, xs)
  }

  function Negation(text: Text): Text {
    OPEN + (SPACE + NOT + (SPACE + text + (SPACE + CLOSE)))
  }

  function ToString(node: Node): Text {
    match node
    case And(children) => Print(AND, Sort(Strings(children)))
    case Or(children) => Print(OR, Sort(Strings(children)))
    case Not(operand) => Negation(ToString(operand))
    case StringCheck(name, value) => name + (EQUALS + QUOTES) + value + QUOTES
    case WildcardCheck(name) => name + (EQUALS + STAR)
    case Null => []
  }

  function Strings(nodes: seq<Node>): (r: seq<Text>)
    ensures |r| == |nodes|
  {
    if nodes == [] then [] else [ToString(nodes[0])] + Strings(nodes[1..])
  }
}
