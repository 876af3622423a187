/**
 Expressions as text. The characters of every operator, said without the tokens, and what two numbers
 with an operator between them come to, from the characters to the value.
 */
module ExpressionTexts {
  import opened Values
  import opened Tokens
  import opened Expressions
  import opened Grammar
  import opened Printer
  import opened QueryGrammar
  import opened Lexers
  import opened LexicalGrammar
  import opened LexerProofs
  import opened QueryTexts
  import opened Evaluator
  import opened Wrappers

  /** The word in any mixture of cases. */
  predicate IsTheWord(text: Text, word: Text) {
    |text| == |word| && forall i :: 0 <= i < |text| ==> SameLetter(text[i], word[i])
  }

  /** How an operator is written when it is one token. */
  predicate WritesOne(text: Text, op: BinaryOperator) {
    match op
    case OR => IsTheWord(text, "OR")
    case AND => IsTheWord(text, "AND")
    case IS => IsTheWord(text, "IS")
    case IS_NOT => false
    case EQUAL => text == "="
    case NOT_EQUAL => text == "!=" || text == "<>"
    case LESS_THAN => text == "<"
    case LESS_THAN_OR_EQUAL => text == "<="
    case GREATER_THAN => text == ">"
    case GREATER_THAN_OR_EQUAL => text == ">="
    case ADD => text == "+"
    case SUBTRACT => text == "-"
    case MULTIPLY => text == "*"
    case DIVIDE => text == "/"
  }

  predicate WritesOperator(texts: seq<Text>, op: BinaryOperator) {
    || (|texts| == 1 && WritesOne(texts[0], op))
    || (op == IS_NOT && |texts| == 2 && IsTheWord(texts[0], "IS") && IsTheWord(texts[1], "NOT"))
  }

  predicate WritesSign(text: Text, op: UnaryOperator) {
    match op
    case NOT => IsTheWord(text, "NOT")
    case NEGATE => text == "-"
  }

  lemma WordsWritten(text: Text)
    ensures SpellsToken(text, Sign(Or)) <==> IsTheWord(text, "OR")
    ensures SpellsToken(text, Sign(And)) <==> IsTheWord(text, "AND")
    ensures SpellsToken(text, Sign(Is)) <==> IsTheWord(text, "IS")
    ensures SpellsToken(text, Sign(Not)) <==> IsTheWord(text, "NOT")
  {
  }

  lemma SignIsNoWord(k: Kind)
    requires SignText(k) != ""
    ensures !IsWord(k)
  {
  }

  lemma SignWrittenAs(text: Text, k: Kind)
    requires SignText(k) != ""
    ensures SpellsToken(text, Sign(k)) <==> SpellsSign(text, k, SPACE_CHARACTER)
  {
    SignIsNoWord(k);
    hide IsWord, WordText, SpellsSign;
  }

  lemma EqualitiesWritten(text: Text)
    ensures SpellsToken(text, Sign(Equal)) <==> text == "="
    ensures SpellsToken(text, Sign(NotEqual)) <==> text == "!=" || text == "<>"
  {
    SignWrittenAs(text, Equal);
    SignWrittenAs(text, NotEqual);
    hide SpellsToken;
  }

  lemma LessWritten(text: Text)
    ensures SpellsToken(text, Sign(LessThan)) <==> text == "<"
    ensures SpellsToken(text, Sign(LessEq)) <==> text == "<="
  {
    SignWrittenAs(text, LessThan);
    SignWrittenAs(text, LessEq);
    hide SpellsToken;
  }

  lemma GreaterWritten(text: Text)
    ensures SpellsToken(text, Sign(GreaterThan)) <==> text == ">"
    ensures SpellsToken(text, Sign(GreaterEq)) <==> text == ">="
  {
    SignWrittenAs(text, GreaterThan);
    SignWrittenAs(text, GreaterEq);
    hide SpellsToken;
  }

  lemma ArithmeticWritten(text: Text)
    ensures SpellsToken(text, Sign(Plus)) <==> text == "+"
    ensures SpellsToken(text, Sign(Minus)) <==> text == "-"
    ensures SpellsToken(text, Sign(Asterisk)) <==> text == "*"
    ensures SpellsToken(text, Sign(Slash)) <==> text == "/"
  {
    SignWrittenAs(text, Plus);
    SignWrittenAs(text, Minus);
    SignWrittenAs(text, Asterisk);
    SignWrittenAs(text, Slash);
    hide SpellsToken;
  }

  lemma OneWritten(op: BinaryOperator, text: Text)
    requires op != IS_NOT
    ensures SpellsToken(text, OperatorTokens(op)[0]) <==> WritesOne(text, op)
  {
    WordsWritten(text);
    EqualitiesWritten(text);
    LessWritten(text);
    GreaterWritten(text);
    ArithmeticWritten(text);
    hide SpellsToken, IsTheWord;
  }

  lemma SpellsOne(texts: seq<Text>, t: Token)
    ensures SpellsAll(texts, [t]) <==> |texts| == 1 && SpellsToken(texts[0], t)
  {
    hide SpellsToken;
  }

  lemma SpellsTwo(texts: seq<Text>, t: Token, u: Token)
    ensures SpellsAll(texts, [t, u]) <==> |texts| == 2 && SpellsToken(texts[0], t) && SpellsToken(texts[1], u)
  {
    hide SpellsToken;
  }

  lemma TokensOf(op: BinaryOperator)
    ensures op == IS_NOT ==> OperatorTokens(op) == [Sign(Is), Sign(Not)]
    ensures op != IS_NOT ==> OperatorTokens(op) == [OperatorTokens(op)[0]]
    ensures forall text :: !WritesOne(text, IS_NOT)
  {
  }

  /** The tokens the parser takes for an operator are spelled as the operator is written, and in no other way. */
  lemma OperatorWritten(op: BinaryOperator, texts: seq<Text>)
    ensures SpellsAll(texts, OperatorTokens(op)) <==> WritesOperator(texts, op)
  {
    TokensOf(op);
    hide WritesOne, OperatorTokens, SpellsAll, SpellsToken, IsTheWord;
    if op == IS_NOT {
      SpellsTwo(texts, Sign(Is), Sign(Not));
      if |texts| == 2 {
        WordsWritten(texts[0]);
        WordsWritten(texts[1]);
      }
    } else {
      SpellsOne(texts, OperatorTokens(op)[0]);
      if |texts| == 1 {
        OneWritten(op, texts[0]);
      }
    }
  }

  lemma SignWritten(op: UnaryOperator, text: Text)
    ensures SpellsToken(text, SignToken(op)) <==> WritesSign(text, op)
  {
    WordsWritten(text);
    ArithmeticWritten(text);
    hide SpellsToken, IsTheWord;
  }

  /** The expression a text is, when it is one expression and nothing else. */
  ghost function ExpressionIn(text: Text, isFloat: Text -> bool): Option<Tree> {
    match Lex(text, isFloat)
    case None => None
    case Some(ts) =>
      match ParseAt(ts, 0, 0)
      case None => None
      case Some((c, end)) => if end == |ts| - 1 then Some(Meaning(c)) else None
  }

  /** Any expression, written in any way, is read as itself. */
  lemma ExpressionRead(t: Tree, texts: seq<Text>, gaps: seq<Text>, isFloat: Text -> bool)
    requires SpellableTree(t, isFloat) && SpellsAll(texts, PrintTree(t))
    requires |gaps| == |texts| && forall i :: 0 <= i < |gaps| ==> IsGap(gaps[i])
    ensures ExpressionIn(Write(texts, gaps), isFloat) == Some(t)
  {
    TreeIsWritable(t, isFloat);
    var c := Print(t, 0);
    var ts: TokenList := Yield(c) + [Sign(EndOfFile)];
    hide SpellableTree, Writable, SpellsToken, Lex, Write, Yield, ParseAt, Derivation, Print, IsGap;
    WriteThenLex(Yield(c), texts, gaps, isFloat);
    WholeIsRead(c, ts);
  }

  function Number(n: nat): Tree
    requires n <= INT_MAX
  {
    Tip(LiteralInt(n))
  }

  lemma NumberPrinted(n: nat, level: nat, isFloat: Text -> bool)
    requires n <= INT_MAX && level <= PRIMARY
    ensures SpellableTree(Number(n), isFloat) && Print(Number(n), level) == Literal(IntegerLiteral(DecimalText(n)))
  {
    hide DecimalText;
  }

  lemma NodePrinted(op: BinaryOperator, l: Tree, r: Tree)
    requires Printable(l) && Printable(r)
    ensures PrintTree(Node(op, l, r))
         == Yield(Print(l, LevelOf(op))) + OperatorTokens(op) + Yield(Print(r, LevelOf(op) + 1))
  {
    hide OperatorTokens, Print;
    var c := Chain(op, Print(l, LevelOf(op)), Print(r, LevelOf(op) + 1));
    assert Print(Node(op, l, r), 0) == c by {
      PrintUnfolds(op, l, r);
    }
  }

  lemma PrintUnfolds(op: BinaryOperator, l: Tree, r: Tree)
    requires Printable(l) && Printable(r)
    ensures Print(Node(op, l, r), 0) == Chain(op, Print(l, LevelOf(op)), Print(r, LevelOf(op) + 1))
  {
  }

  lemma NumbersPrinted(op: BinaryOperator, m: nat, n: nat, isFloat: Text -> bool)
    requires m <= INT_MAX && n <= INT_MAX
    ensures var t := Node(op, Number(m), Number(n));
      && SpellableTree(t, isFloat)
      && PrintTree(t) == [IntegerLiteral(DecimalText(m))] + OperatorTokens(op) + [IntegerLiteral(DecimalText(n))]
  {
    NumberPrinted(m, LevelOf(op), isFloat);
    NumberPrinted(n, LevelOf(op) + 1, isFloat);
    NodePrinted(op, Number(m), Number(n));
    hide OperatorTokens, DecimalText, Print, PrintTree, Number;
  }

  lemma WrittenFirst(text: Text, texts: seq<Text>, gap: Text, gaps: seq<Text>)
    requires |texts| == |gaps|
    ensures Write([text] + texts, [gap] + gaps) == text + (gap + Write(texts, gaps))
  {
    assert ([text] + texts)[1..] == texts && ([gap] + gaps)[1..] == gaps;
  }

  lemma ThreeWritten(a: Text, b: Text, c: Text, g: Text, h: Text, k: Text)
    ensures Write([a, b, c], [g, h, k]) == a + (g + (b + (h + (c + k))))
  {
    WrittenFirst(a, [b, c], g, [h, k]);
    WrittenFirst(b, [c], h, [k]);
    WrittenFirst(c, [], k, []);
    assert [a] + [b, c] == [a, b, c] && [b] + [c] == [b, c] && [c] + [] == [c];
    assert [g] + [h, k] == [g, h, k] && [h] + [k] == [h, k] && [k] + [] == [k];
    assert k + [] == k;
  }

  /** Two numbers in digits with an operator of one token between them, and blanks after each. */
  lemma NumbersRead(op: BinaryOperator, sign: Text, m: nat, n: nat, g: Text, h: Text, k: Text, isFloat: Text -> bool)
    requires m <= INT_MAX && n <= INT_MAX && WritesOperator([sign], op)
    requires IsGap(g) && IsGap(h) && IsGap(k)
    ensures ExpressionIn(DecimalText(m) + (g + (sign + (h + (DecimalText(n) + k)))), isFloat)
         == Some(Node(op, Number(m), Number(n)))
  {
    var texts := [DecimalText(m), sign, DecimalText(n)];
    NumbersPrinted(op, m, n, isFloat);
    OperatorWritten(op, [sign]);
    assert SpellsToken(DecimalText(m), IntegerLiteral(DecimalText(m)));
    assert SpellsToken(DecimalText(n), IntegerLiteral(DecimalText(n)));
    ThreeWritten(DecimalText(m), sign, DecimalText(n), g, h, k);
    hide WritesOperator, IsGap, Write, SpellableTree, PrintTree, ExpressionIn, SpellsToken, DecimalText, OperatorTokens;
    assert [sign][0] == sign;
    ExpressionRead(Node(op, Number(m), Number(n)), texts, [g, h, k], isFloat);
  }

  /** What the characters of a comparison say of two numbers. */
  predicate SaysOfNumbers(sign: Text, m: nat, n: nat) {
    if sign == "=" then m == n
    else if sign == "!=" || sign == "<>" then m != n
    else if sign == "<" then m < n
    else if sign == "<=" then m <= n
    else if sign == ">" then m > n
    else m >= n
  }

  lemma ComparisonOf(sign: Text) returns (op: BinaryOperator)
    requires sign in {"=", "!=", "<>", "<", "<=", ">", ">="}
    ensures WritesOperator([sign], op)
    ensures forall m: nat, n: nat, env, row :: m <= INT_MAX && n <= INT_MAX ==>
      Holds(Node(op, Number(m), Number(n)), env, row) == Ok(SaysOfNumbers(sign, m, n))
  {
    op := if sign == "=" then EQUAL else if sign == "<" then LESS_THAN else if sign == "<=" then LESS_THAN_OR_EQUAL
      else if sign == ">" then GREATER_THAN else if sign == ">=" then GREATER_THAN_OR_EQUAL else NOT_EQUAL;
  }

  /** From characters to truth: two numbers in digits are compared as their comparison sign says. */
  lemma NumbersCompared(sign: Text, m: nat, n: nat, g: Text, h: Text, k: Text, env: Env, row: Row, isFloat: Text -> bool)
    requires m <= INT_MAX && n <= INT_MAX && sign in {"=", "!=", "<>", "<", "<=", ">", ">="}
    requires IsGap(g) && IsGap(h) && IsGap(k)
    ensures var condition := ExpressionIn(DecimalText(m) + (g + (sign + (h + (DecimalText(n) + k)))), isFloat);
      condition.Some? && Holds(condition.value, env, row) == Ok(SaysOfNumbers(sign, m, n))
  {
    hide *;
    var op := ComparisonOf(sign);
    NumbersRead(op, sign, m, n, g, h, k, isFloat);
  }

  /** What the characters of an arithmetic operator make of two numbers, which never leaves 64 bits. */
  function OfNumbers(sign: Text, m: nat, n: nat): Result<Value, ExecError>
    requires m <= INT_MAX && n <= INT_MAX
  {
    ProductFits(m, n);
    if sign == "+" then Ok(Int(m + n))
    else if sign == "-" then Ok(Int(m - n))
    else if sign == "*" then Ok(Int(m * n))
    else if n == 0 then Err(DivisionByZero)
    else Ok(Int(m / n))
  }

  lemma ProductFits(m: nat, n: nat)
    requires m <= INT_MAX && n <= INT_MAX
    ensures 0 <= m * n < TWO63
    ensures n > 0 ==> m / n <= m
  {
    ProductGrows(m, INT_MAX, n);
    ProductGrows(n, INT_MAX, INT_MAX);
  }

  lemma ProductGrows(a: nat, b: nat, c: nat)
    requires a <= b
    ensures 0 <= a * c <= b * c && c * a == a * c
  {
  }

  lemma ArithmeticOf(sign: Text) returns (op: BinaryOperator)
    requires sign in {"+", "-", "*", "/"}
    ensures WritesOperator([sign], op)
    ensures forall m: nat, n: nat, env, row :: m <= INT_MAX && n <= INT_MAX ==>
      Eval(Node(op, Number(m), Number(n)), env, row) == OfNumbers(sign, m, n)
  {
    op := if sign == "+" then ADD else if sign == "-" then SUBTRACT else if sign == "*" then MULTIPLY else DIVIDE;
    forall m: nat, n: nat, env, row | m <= INT_MAX && n <= INT_MAX
      ensures Eval(Node(op, Number(m), Number(n)), env, row) == OfNumbers(sign, m, n)
    {
      ProductFits(m, n);
    }
  }

  /** From characters to the value: two numbers in digits come to what the operator between them says. */
  lemma NumbersComputed(sign: Text, m: nat, n: nat, g: Text, h: Text, k: Text, env: Env, row: Row, isFloat: Text -> bool)
    requires m <= INT_MAX && n <= INT_MAX && sign in {"+", "-", "*", "/"}
    requires IsGap(g) && IsGap(h) && IsGap(k)
    ensures var expression := ExpressionIn(DecimalText(m) + (g + (sign + (h + (DecimalText(n) + k)))), isFloat);
      expression.Some? && Eval(expression.value, env, row) == OfNumbers(sign, m, n)
  {
    hide *;
    var op := ArithmeticOf(sign);
    NumbersRead(op, sign, m, n, g, h, k, isFloat);
  }
}
