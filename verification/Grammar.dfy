/**
 The expression grammar, level by level, and the parser as a function. A concrete syntax tree
 records the parentheses, so that it has a yield: the tokens it was read from.
 */
module Grammar {
  import opened Values
  import opened Tokens
  import opened Expressions
  import opened Wrappers

  datatype Cst =
    | Literal(token: Token)
    | Name(name: Text)
    | Qualified(prefix: Text, name: Text)
    | Paren(inner: Cst)
    | Signed(uop: UnaryOperator, operand: Cst)
    | Chain(op: BinaryOperator, left: Cst, right: Cst)

  // Precedence levels, lowest first: 0 OR, 1 AND, 2 NOT, 3 comparison, 4 + -, 5 * /, 6 unary -, 7 primary.

  const PRIMARY: nat := 7

  function LevelOf(op: BinaryOperator): (level: nat)
    ensures level < 6 && level != 2
  {
    match op
    case OR => 0
    case AND => 1
    case ADD => 4
    case SUBTRACT => 4
    case MULTIPLY => 5
    case DIVIDE => 5
    case _ => 3
  }

  function SignLevel(op: UnaryOperator): nat {
    match op
    case NOT => 2
    case NEGATE => 6
  }

  function Level(c: Cst): (level: nat)
    ensures level <= PRIMARY
  {
    match c
    case Signed(op, _) => SignLevel(op)
    case Chain(op, _, _) => LevelOf(op)
    case _ => PRIMARY
  }

  predicate IsLiteral(t: Token) {
    t.IntegerLiteral? || t.FloatLiteral? || t.StringLiteral?
    || t == Sign(NullWord) || t == Sign(True) || t == Sign(False)
  }

  /**
   The documented precedence grammar: binary operators take an operand of their own level on the
   left only, NOT takes a comparison, and unary minus a primary.
   */
  predicate Derivation(c: Cst) {
    match c
    case Literal(t) => IsLiteral(t)
    case Name(_) => true
    case Qualified(_, _) => true
    case Paren(inner) => Derivation(inner)
    case Signed(op, x) => Derivation(x) && Level(x) > SignLevel(op)
    case Chain(op, l, r) => Derivation(l) && Derivation(r) && Level(l) >= LevelOf(op) && Level(r) > LevelOf(op)
  }

  function SignToken(op: UnaryOperator): Token {
    match op
    case NOT => Sign(Not)
    case NEGATE => Sign(Minus)
  }

  function OperatorTokens(op: BinaryOperator): (ts: seq<Token>)
    ensures |ts| == if op == IS_NOT then 2 else 1
  {
    match op
    case OR => [Sign(Or)]
    case AND => [Sign(And)]
    case EQUAL => [Sign(Equal)]
    case NOT_EQUAL => [Sign(NotEqual)]
    case LESS_THAN => [Sign(LessThan)]
    case LESS_THAN_OR_EQUAL => [Sign(LessEq)]
    case GREATER_THAN => [Sign(GreaterThan)]
    case GREATER_THAN_OR_EQUAL => [Sign(GreaterEq)]
    case IS => [Sign(Is)]
    case IS_NOT => [Sign(Is), Sign(Not)]
    case ADD => [Sign(Plus)]
    case SUBTRACT => [Sign(Minus)]
    case MULTIPLY => [Sign(Asterisk)]
    case DIVIDE => [Sign(Slash)]
  }

  /** The tokens of a concrete syntax tree. */
  function Yield(c: Cst): (ts: seq<Token>)
    ensures ts != []
  {
    match c
    case Literal(t) => [t]
    case Name(n) => [Identifier(n)]
    case Qualified(p, n) => [Identifier(p), Sign(Dot), Identifier(n)]
    case Paren(inner) => [Sign(LeftParen)] + Yield(inner) + [Sign(RightParen)]
    case Signed(op, x) => [SignToken(op)] + Yield(x)
    case Chain(op, l, r) => Yield(l) + OperatorTokens(op) + Yield(r)
  }

  /** The node a literal token becomes. */
  function AtomOf(t: Token): Atom {
    match t
    case IntegerLiteral(digits) => LiteralInt(DecimalValue(digits))
    case FloatLiteral(text) => LiteralFloat(text)
    case StringLiteral(text) => LiteralText(text)
    case _ => if t == Sign(NullWord) then LiteralNull else LiteralBool(t == Sign(True))
  }

  /** The expression a derivation stands for; parentheses leave no trace. */
  function Meaning(c: Cst): Tree {
    match c
    case Literal(t) => Tip(AtomOf(t))
    case Name(n) => Tip(ColumnRef("", n))
    case Qualified(p, n) => Tip(ColumnRef(p, n))
    case Paren(inner) => Meaning(inner)
    case Signed(op, x) => Prefix(op, Meaning(x))
    case Chain(op, l, r) => Node(op, Meaning(l), Meaning(r))
  }

  // The recursive-descent parser as a function of the token list and the position.

  /** `current()`: beyond the end it stays on the last token. */
  function Current(ts: TokenList, pos: nat): Token {
    if pos >= |ts| - 1 then Sign(EndOfFile) else ts[pos]
  }

  function OperatorAt(ts: TokenList, pos: nat): Option<BinaryOperator> {
    match Current(ts, pos)
    case Sign(Or) => Some(OR)
    case Sign(And) => Some(AND)
    case Sign(Equal) => Some(EQUAL)
    case Sign(NotEqual) => Some(NOT_EQUAL)
    case Sign(LessThan) => Some(LESS_THAN)
    case Sign(LessEq) => Some(LESS_THAN_OR_EQUAL)
    case Sign(GreaterThan) => Some(GREATER_THAN)
    case Sign(GreaterEq) => Some(GREATER_THAN_OR_EQUAL)
    case Sign(Is) => Some(if Current(ts, pos + 1) == Sign(Not) then IS_NOT else IS)
    case Sign(Plus) => Some(ADD)
    case Sign(Minus) => Some(SUBTRACT)
    case Sign(Asterisk) => Some(MULTIPLY)
    case Sign(Slash) => Some(DIVIDE)
    case _ => None
  }

  /** What a level-2 or level-6 function looks for before its operand. */
  function SignAt(ts: TokenList, pos: nat, level: nat): Option<UnaryOperator> {
    if level == 2 && Current(ts, pos) == Sign(Not) then Some(NOT)
    else if level == 6 && Current(ts, pos) == Sign(Minus) then Some(NEGATE)
    else None
  }

  type Parsed = Option<(Cst, nat)>

  function ParseAt(ts: TokenList, pos: nat, level: nat): (r: Parsed)
    requires pos < |ts| && level <= PRIMARY
    ensures r.Some? ==> pos < r.value.1 < |ts|
    decreases |ts| - pos, PRIMARY - level, 1
  {
    if level == PRIMARY then ParsePrimary(ts, pos)
    else if level == 2 || level == 6 then
      var sign := SignAt(ts, pos, level);
      if sign.None? then ParseAt(ts, pos, level + 1)
      else match ParseAt(ts, pos + 1, level + 1)
        case None => None
        case Some((x, end)) => Some((Signed(sign.value, x), end))
    else match ParseAt(ts, pos, level + 1)
      case None => None
      case Some((left, end)) => ParseChain(ts, left, end, level)
  }

  /** The loop of a binary level, with what it has read so far on its left. */
  function ParseChain(ts: TokenList, left: Cst, pos: nat, level: nat): (r: Parsed)
    requires pos < |ts| && level < PRIMARY
    ensures r.Some? ==> pos <= r.value.1 < |ts|
    decreases |ts| - pos, PRIMARY, 0
  {
    var op := OperatorAt(ts, pos);
    if op.None? || LevelOf(op.value) != level then Some((left, pos))
    else match ParseAt(ts, pos + |OperatorTokens(op.value)|, level + 1)
      case None => None
      case Some((right, end)) => ParseChain(ts, Chain(op.value, left, right), end, level)
  }

  function ParsePrimary(ts: TokenList, pos: nat): (r: Parsed)
    requires pos < |ts|
    ensures r.Some? ==> pos < r.value.1 < |ts|
    decreases |ts| - pos, 0, 0
  {
    var t := Current(ts, pos);
    if t.Identifier? then
      if Current(ts, pos + 1) != Sign(Dot) then Some((Name(t.name), pos + 1))
      else match Current(ts, pos + 2)
        case Identifier(column) => Some((Qualified(t.name, column), pos + 3))
        case _ => None
    else if IsLiteral(t) then Some((Literal(t), pos + 1))
    else if t == Sign(LeftParen) then
      match ParseAt(ts, pos + 1, 0)
      case Some((inner, end)) =>
        if Current(ts, end) == Sign(RightParen) then Some((Paren(inner), end + 1)) else None
      case None => None
    else None
  }
}
