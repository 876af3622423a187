/**
 Printing expression trees with as few parentheses as the grammar allows, and the round trip
 through the parser.
 */
module Printer {
  import opened Values
  import opened Tokens
  import opened Expressions
  import opened Grammar
  import opened GrammarProofs
  import opened Wrappers

  /** An atom some token spells: integer literals are never negative, and a star is no operand. */
  predicate PrintableAtom(a: Atom) {
    match a
    case LiteralInt(i) => 0 <= i <= INT_MAX
    case Star => false
    case _ => true
  }

  /** The trees in the grammar's image. */
  predicate Printable(t: Tree) {
    match t
    case Tip(a) => PrintableAtom(a)
    case Node(_, l, r) => Printable(l) && Printable(r)
    case Prefix(_, x) => Printable(x)
  }

  function PrintAtom(a: Atom): (c: Cst)
    requires PrintableAtom(a)
    ensures Derivation(c) && Level(c) == PRIMARY && Meaning(c) == Tip(a)
  {
    match a
    case LiteralInt(i) => Literal(IntegerLiteral(DecimalText(i)))
    case LiteralFloat(text) => Literal(FloatLiteral(text))
    case LiteralText(s) => Literal(StringLiteral(s))
    case LiteralBool(b) => Literal(Sign(if b then True else False))
    case LiteralNull => Literal(Sign(NullWord))
    case ColumnRef(prefix, name) => if prefix == "" then Name(name) else Qualified(prefix, name)
  }

  /** Parentheses go only where the operand's level demands them. */
  function Enclose(c: Cst, level: nat): Cst {
    if Level(c) < level then Paren(c) else c
  }

  function Print(t: Tree, level: nat): (c: Cst)
    requires Printable(t) && level <= PRIMARY
    ensures Derivation(c) && Level(c) >= level && Meaning(c) == t
    decreases t
  {
    match t
    case Tip(a) => PrintAtom(a)
    case Node(op, l, r) => Enclose(Chain(op, Print(l, LevelOf(op)), Print(r, LevelOf(op) + 1)), level)
    case Prefix(op, x) => Enclose(Signed(op, Print(x, SignLevel(op) + 1)), level)
  }

  /**
   The round trip: wherever the tokens of a printed tree stand, followed by anything that cannot
   continue an expression, the parser accepts, stops right after them, and means that tree again.
   */
  lemma PrintThenParse(t: Tree, ts: TokenList, pos: nat)
    requires Printable(t)
    requires WrittenAt(ts, pos, Print(t, 0)) && Stops(ts, pos + |Yield(Print(t, 0))|, Print(t, 0), 0)
    ensures ParseAt(ts, pos, 0).Some?
    ensures var (c, end) := ParseAt(ts, pos, 0).value;
      Meaning(c) == t && end == pos + |Yield(Print(t, 0))|
  {
    ParseComplete(ts, pos, Print(t, 0), 0);
  }

  /** No derivation of the same tree at the same level has fewer tokens, so no parenthesis is idle. */
  lemma {:induction false} PrintIsShortest(c: Cst, level: nat)
    requires Derivation(c) && Level(c) >= level && Printable(Meaning(c))
    ensures |Yield(Print(Meaning(c), level))| <= |Yield(c)|
    decreases c
  {
    match c
    case Literal(_) =>
    case Name(_) =>
    case Qualified(_, _) =>
    case Paren(inner) =>
      PrintIsShortest(inner, 0);
      EncloseCost(Meaning(inner), level);
    case Signed(op, x) =>
      PrintIsShortest(x, SignLevel(op) + 1);
    case Chain(op, l, r) =>
      PrintIsShortest(l, LevelOf(op));
      PrintIsShortest(r, LevelOf(op) + 1);
  }

  lemma EncloseCost(t: Tree, level: nat)
    requires Printable(t) && level <= PRIMARY
    ensures |Yield(Print(t, level))| <= |Yield(Print(t, 0))| + 2
  {
  }

  // The precedence of the operators, and that those of one precedence associate to the left.

  /** OR binds least, then AND, then the comparisons, then + and -, and * and / most. */
  predicate BindsTighter(op: BinaryOperator, other: BinaryOperator) {
    || (other == OR && op != OR)
    || (other == AND && op !in {OR, AND})
    || (other !in {OR, AND, ADD, SUBTRACT, MULTIPLY, DIVIDE} && op in {ADD, SUBTRACT, MULTIPLY, DIVIDE})
    || (other in {ADD, SUBTRACT} && op in {MULTIPLY, DIVIDE})
  }

  lemma TighterIsHigher(op: BinaryOperator, other: BinaryOperator)
    ensures BindsTighter(op, other) <==> LevelOf(op) > LevelOf(other)
  {
  }

  /** A token list that is one expression is read as that. */
  lemma {:induction false} WholeIsRead(c: Cst, ts: TokenList)
    requires Derivation(c) && ts == Yield(c) + [Sign(EndOfFile)]
    ensures ParseAt(ts, 0, 0) == Some((c, |ts| - 1))
  {
    assert ts[0..|Yield(c)|] == Yield(c) && Current(ts, |Yield(c)|) == Sign(EndOfFile);
    assert WrittenAt(ts, 0, c) && Stops(ts, |Yield(c)|, c, 0);
    hide *;
    AnyLevel(c);
    ParseComplete(ts, 0, c, 0);
  }

  lemma AnyLevel(c: Cst)
    ensures Level(c) >= 0
  {
  }

  lemma LevelsOfOperators(op: BinaryOperator)
    ensures op !in {OR, AND} <==> LevelOf(op) > SignLevel(NOT)
    ensures LevelOf(op) < SignLevel(NEGATE) < PRIMARY && SignLevel(NOT) < PRIMARY
    ensures op in {OR, AND} ==> LevelOf(op) < SignLevel(NOT)
  {
  }

  lemma ChainIs(op: BinaryOperator, l: Cst, r: Cst)
    requires Derivation(l) && Derivation(r) && Level(l) >= LevelOf(op) && Level(r) > LevelOf(op)
    ensures Derivation(Chain(op, l, r)) && Level(Chain(op, l, r)) == LevelOf(op)
    ensures Yield(Chain(op, l, r)) == Yield(l) + OperatorTokens(op) + Yield(r)
  {
  }

  lemma NameIs(name: Text)
    ensures Derivation(Name(name)) && Level(Name(name)) == PRIMARY && Yield(Name(name)) == [Identifier(name)]
  {
  }

  lemma SignedIs(sign: UnaryOperator, x: Cst)
    requires Derivation(x) && Level(x) > SignLevel(sign)
    ensures Derivation(Signed(sign, x)) && Level(Signed(sign, x)) == SignLevel(sign)
    ensures Yield(Signed(sign, x)) == [SignToken(sign)] + Yield(x)
  {
  }

  lemma Grouped(a: seq<Token>, b: seq<Token>, c: seq<Token>, d: seq<Token>, e: seq<Token>)
    ensures a + (b + (c + (d + e))) == a + b + (c + d + e) == a + b + c + d + e
  {
  }

  /** Of two operators in a row the one that binds tighter is applied first, and else the one on the left. */
  lemma OperatorsInARow(op: BinaryOperator, other: BinaryOperator, a: Text, b: Text, c: Text, ts: TokenList)
    requires ts == [Identifier(a)] + (OperatorTokens(op) + ([Identifier(b)] + (OperatorTokens(other) + [Identifier(c)])))
                   + [Sign(EndOfFile)]
    ensures ParseAt(ts, 0, 0) == Some((
      if BindsTighter(other, op) then Chain(op, Name(a), Chain(other, Name(b), Name(c)))
      else Chain(other, Chain(op, Name(a), Name(b)), Name(c)), |ts| - 1))
  {
    hide *;
    TighterIsHigher(other, op);
    LevelsOfOperators(op);
    LevelsOfOperators(other);
    Grouped([Identifier(a)], OperatorTokens(op), [Identifier(b)], OperatorTokens(other), [Identifier(c)]);
    NameIs(a);
    NameIs(b);
    NameIs(c);
    if BindsTighter(other, op) {
      ChainIs(other, Name(b), Name(c));
      ChainIs(op, Name(a), Chain(other, Name(b), Name(c)));
      WholeIsRead(Chain(op, Name(a), Chain(other, Name(b), Name(c))), ts);
    } else {
      ChainIs(op, Name(a), Name(b));
      ChainIs(other, Chain(op, Name(a), Name(b)), Name(c));
      WholeIsRead(Chain(other, Chain(op, Name(a), Name(b)), Name(c)), ts);
    }
  }

  /** NOT takes a comparison or an arithmetic expression, but no AND and no OR; unary minus takes one operand. */
  lemma SignBeforeOperator(sign: UnaryOperator, op: BinaryOperator, a: Text, b: Text, ts: TokenList)
    requires ts == [SignToken(sign)] + ([Identifier(a)] + OperatorTokens(op) + [Identifier(b)]) + [Sign(EndOfFile)]
    ensures ParseAt(ts, 0, 0) == Some((
      if sign == NOT && op !in {OR, AND} then Signed(NOT, Chain(op, Name(a), Name(b)))
      else Chain(op, Signed(sign, Name(a)), Name(b)), |ts| - 1))
  {
    hide *;
    LevelsOfOperators(op);
    NameIs(a);
    NameIs(b);
    if sign == NOT && op !in {OR, AND} {
      ChainIs(op, Name(a), Name(b));
      SignedIs(NOT, Chain(op, Name(a), Name(b)));
      WholeIsRead(Signed(NOT, Chain(op, Name(a), Name(b))), ts);
    } else {
      SignedIs(sign, Name(a));
      ChainIs(op, Signed(sign, Name(a)), Name(b));
      assert [SignToken(sign)] + ([Identifier(a)] + OperatorTokens(op) + [Identifier(b)])
        == [SignToken(sign)] + [Identifier(a)] + OperatorTokens(op) + [Identifier(b)];
      WholeIsRead(Chain(op, Signed(sign, Name(a)), Name(b)), ts);
    }
  }
}
