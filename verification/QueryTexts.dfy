/** Queries as text: written with blanks between their tokens, they are lexed and parsed back to themselves. */
module QueryTexts {
  import opened Values
  import opened Tokens
  import opened Expressions
  import opened Grammar
  import opened Printer
  import opened Statements
  import opened QueryGrammar
  import opened StatementProofs
  import opened Lexers
  import opened LexerProofs
  import opened Wrappers

  ghost predicate AllWritable(ts: seq<Token>, isFloat: Text -> bool) {
    forall i :: 0 <= i < |ts| ==> Writable(ts[i], isFloat)
  }

  predicate IsName(name: Text, isFloat: Text -> bool) { Writable(Identifier(name), isFloat) }

  /** Names are words but no keywords, text literals hold no quote, and the lexer accepts the FLOAT literals. */
  predicate SpellableAtom(a: Atom, isFloat: Text -> bool) {
    match a
    case LiteralFloat(digits) => Writable(FloatLiteral(digits), isFloat)
    case LiteralText(s) => Writable(StringLiteral(s), isFloat)
    case ColumnRef(prefix, name) => (prefix == "" || IsName(prefix, isFloat)) && IsName(name, isFloat)
    case _ => true
  }

  predicate SpellableTree(t: Tree, isFloat: Text -> bool): (spellable: bool)
    ensures spellable ==> Printable(t)
  {
    match t
    case Tip(a) => PrintableAtom(a) && SpellableAtom(a, isFloat)
    case Node(_, l, r) => SpellableTree(l, isFloat) && SpellableTree(r, isFloat)
    case Prefix(_, x) => SpellableTree(x, isFloat)
  }

  ghost predicate SpellableTrees(ts: seq<Tree>, isFloat: Text -> bool) {
    forall k :: 0 <= k < |ts| ==> SpellableTree(ts[k], isFloat)
  }

  ghost predicate SpellableWhere(where: Option<Tree>, isFloat: Text -> bool) {
    where.Some? ==> SpellableTree(where.value, isFloat)
  }

  ghost predicate SpellableAssignments(assignments: seq<(Text, Tree)>, isFloat: Text -> bool) {
    forall k :: 0 <= k < |assignments| ==> IsName(assignments[k].0, isFloat) && SpellableTree(assignments[k].1, isFloat)
  }

  ghost predicate AllNames(names: seq<Text>, isFloat: Text -> bool) {
    forall k :: 0 <= k < |names| ==> IsName(names[k], isFloat)
  }

  ghost predicate SpellableQuery(q: Query, isFloat: Text -> bool): (spellable: bool)
    ensures spellable ==> PrintableQuery(q)
  {
    match q
    case SelectQuery(columns, table, where) =>
      SpellableTrees(columns, isFloat) && IsName(table, isFloat) && SpellableWhere(where, isFloat)
    case ValuesQuery(columns) => SpellableTrees(columns, isFloat)
    case InsertQuery(table, names, values) =>
      IsName(table, isFloat) && AllNames(names, isFloat) && SpellableTrees(values, isFloat)
    case DeleteQuery(table, where) => IsName(table, isFloat) && SpellableWhere(where, isFloat)
    case UpdateQuery(table, assignments, where) =>
      && assignments != [] && IsName(table, isFloat)
      && SpellableAssignments(assignments, isFloat) && SpellableWhere(where, isFloat)
  }

  lemma WritableParts(a: seq<Token>, b: seq<Token>, isFloat: Text -> bool)
    requires AllWritable(a, isFloat) && AllWritable(b, isFloat)
    ensures AllWritable(a + b, isFloat)
  {
    hide Writable;
  }

  predicate Spelled(c: Cst, isFloat: Text -> bool) {
    match c
    case Literal(t) => Writable(t, isFloat)
    case Name(n) => IsName(n, isFloat)
    case Qualified(p, n) => IsName(p, isFloat) && IsName(n, isFloat)
    case Paren(inner) => Spelled(inner, isFloat)
    case Signed(_, x) => Spelled(x, isFloat)
    case Chain(_, l, r) => Spelled(l, isFloat) && Spelled(r, isFloat)
  }

  lemma {:induction false} YieldIsWritable(c: Cst, isFloat: Text -> bool)
    requires Spelled(c, isFloat)
    ensures AllWritable(Yield(c), isFloat)
  {
    match c
    case Paren(inner) => YieldIsWritable(inner, isFloat);
    case Signed(_, x) => YieldIsWritable(x, isFloat);
    case Chain(op, l, r) =>
      YieldIsWritable(l, isFloat);
      YieldIsWritable(r, isFloat);
      hide Writable;
      assert AllWritable(OperatorTokens(op), isFloat) by { OperatorIsWritable(op, isFloat); }
    case _ =>
  }

  lemma OperatorIsWritable(op: BinaryOperator, isFloat: Text -> bool)
    ensures AllWritable(OperatorTokens(op), isFloat)
  {
  }

  lemma {:induction false} PrintIsSpelled(t: Tree, level: nat, isFloat: Text -> bool)
    requires SpellableTree(t, isFloat) && level <= PRIMARY
    ensures Spelled(Print(t, level), isFloat)
    decreases t
  {
    match t
    case Tip(_) =>
    case Node(op, l, r) =>
      PrintIsSpelled(l, LevelOf(op), isFloat);
      PrintIsSpelled(r, LevelOf(op) + 1, isFloat);
    case Prefix(op, x) => PrintIsSpelled(x, SignLevel(op) + 1, isFloat);
  }

  lemma TreeIsWritable(t: Tree, isFloat: Text -> bool)
    requires SpellableTree(t, isFloat)
    ensures Printable(t) && AllWritable(PrintTree(t), isFloat)
  {
    PrintIsSpelled(t, 0, isFloat);
    YieldIsWritable(Print(t, 0), isFloat);
  }

  lemma SignsAreWritable(isFloat: Text -> bool)
    ensures forall k :: k != EndOfFile && k != Error ==> AllWritable([Sign(k)], isFloat)
  {
  }

  lemma WhereIsWritable(where: Option<Tree>, isFloat: Text -> bool)
    requires SpellableWhere(where, isFloat)
    ensures where.Some? ==> Printable(where.value)
    ensures AllWritable(PrintWhere(where), isFloat)
  {
    if where.Some? {
      TreeIsWritable(where.value, isFloat);
      SignsAreWritable(isFloat);
      hide PrintTree, AllWritable;
      WritableParts([Sign(Where)], PrintTree(where.value), isFloat);
    }
  }

  lemma {:induction false} ColumnsAreWritable(columns: seq<Tree>, isFloat: Text -> bool)
    requires columns != [] && SpellableTrees(columns, isFloat)
    ensures forall k :: 0 <= k < |columns| ==> Printable(columns[k])
    ensures AllWritable(PrintColumns(columns), isFloat)
  {
    TreeIsWritable(columns[0], isFloat);
    if |columns| > 1 {
      ColumnsAreWritable(columns[1..], isFloat);
      SignsAreWritable(isFloat);
      hide PrintTree, AllWritable;
      WritableParts([Sign(Comma)], PrintColumns(columns[1..]), isFloat);
      WritableParts(PrintTree(columns[0]), [Sign(Comma)] + PrintColumns(columns[1..]), isFloat);
    }
  }

  lemma AssignmentIsWritable(a: (Text, Tree), isFloat: Text -> bool)
    requires IsName(a.0, isFloat) && SpellableTree(a.1, isFloat)
    ensures Printable(a.1) && AllWritable(PrintAssignment(a), isFloat)
  {
    TreeIsWritable(a.1, isFloat);
    SignsAreWritable(isFloat);
    assert AllWritable([Identifier(a.0)], isFloat);
    hide PrintTree, AllWritable;
    WritableParts([Sign(Equal)], PrintTree(a.1), isFloat);
    WritableParts([Identifier(a.0)], [Sign(Equal)] + PrintTree(a.1), isFloat);
  }

  lemma {:induction false} AssignmentsAreWritable(assignments: seq<(Text, Tree)>, isFloat: Text -> bool)
    requires assignments != [] && SpellableAssignments(assignments, isFloat)
    ensures forall k :: 0 <= k < |assignments| ==> Printable(assignments[k].1)
    ensures AllWritable(PrintAssignments(assignments), isFloat)
  {
    AssignmentIsWritable(assignments[0], isFloat);
    if |assignments| > 1 {
      AssignmentsAreWritable(assignments[1..], isFloat);
      SignsAreWritable(isFloat);
      hide PrintAssignment, AllWritable;
      WritableParts([Sign(Comma)], PrintAssignments(assignments[1..]), isFloat);
      WritableParts(PrintAssignment(assignments[0]), [Sign(Comma)] + PrintAssignments(assignments[1..]), isFloat);
    }
  }

  /** The tokens of a query up to its semicolon. */
  function QueryTokens(q: Query): seq<Token>
    requires PrintableQuery(q)
  {
    PrintQuery(q)[..|PrintQuery(q)| - 1]
  }

  ghost predicate WritableToEnd(ts: seq<Token>, isFloat: Text -> bool) {
    ts != [] && ts[|ts| - 1] == Sign(EndOfFile) && AllWritable(ts[..|ts| - 1], isFloat)
  }

  lemma WritableBefore(a: seq<Token>, b: seq<Token>, isFloat: Text -> bool)
    requires AllWritable(a, isFloat) && WritableToEnd(b, isFloat)
    ensures WritableToEnd(a + b, isFloat)
  {
    hide Writable;
    assert (a + b)[..|a + b| - 1] == a + b[..|b| - 1];
  }

  lemma CloseIsWritable(isFloat: Text -> bool)
    ensures WritableToEnd(CLOSE, isFloat)
  {
    assert CLOSE[..1] == [Sign(Semicolon)];
  }

  lemma NameIsWritable(name: Text, isFloat: Text -> bool)
    requires IsName(name, isFloat)
    ensures AllWritable([Identifier(name)], isFloat)
  {
  }

  lemma SelectListIsWritable(columns: seq<Tree>, isFloat: Text -> bool)
    requires SpellableTrees(columns, isFloat)
    ensures forall k :: 0 <= k < |columns| ==> Printable(columns[k])
    ensures AllWritable(PrintSelectList(columns), isFloat)
  {
    if columns == [] {
      SignsAreWritable(isFloat);
    } else {
      hide PrintColumns;
      ColumnsAreWritable(columns, isFloat);
    }
  }

  /** FROM, a table name, and the condition. */
  lemma FromIsWritable(table: Text, where: Option<Tree>, isFloat: Text -> bool)
    requires IsName(table, isFloat) && SpellableWhere(where, isFloat)
    ensures where.Some? ==> Printable(where.value)
    ensures WritableToEnd([Sign(From)] + ([Identifier(table)] + (PrintWhere(where) + CLOSE)), isFloat)
    ensures WritableToEnd(PrintWhere(where) + CLOSE, isFloat)
  {
    WhereIsWritable(where, isFloat);
    hide PrintWhere, WritableToEnd, AllWritable, IsName;
    CloseIsWritable(isFloat);
    WritableBefore(PrintWhere(where), CLOSE, isFloat);
    NameIsWritable(table, isFloat);
    WritableBefore([Identifier(table)], PrintWhere(where) + CLOSE, isFloat);
    SignsAreWritable(isFloat);
    WritableBefore([Sign(From)], [Identifier(table)] + (PrintWhere(where) + CLOSE), isFloat);
  }

  lemma {:induction false} NamesAreWritable(names: seq<Text>, isFloat: Text -> bool)
    requires names != [] && AllNames(names, isFloat)
    ensures AllWritable(PrintNames(names), isFloat)
  {
    NameIsWritable(names[0], isFloat);
    if |names| > 1 {
      NamesAreWritable(names[1..], isFloat);
      SignsAreWritable(isFloat);
      hide AllWritable, IsName;
      WritableParts([Sign(Comma)], PrintNames(names[1..]), isFloat);
      WritableParts([Identifier(names[0])], [Sign(Comma)] + PrintNames(names[1..]), isFloat);
    }
  }

  lemma ParenthesesAreWritable(list: seq<Token>, isFloat: Text -> bool)
    requires AllWritable(list, isFloat)
    ensures AllWritable([Sign(LeftParen)] + (list + [Sign(RightParen)]), isFloat)
  {
    SignsAreWritable(isFloat);
    hide AllWritable;
    WritableParts(list, [Sign(RightParen)], isFloat);
    WritableParts([Sign(LeftParen)], list + [Sign(RightParen)], isFloat);
  }

  lemma NameListIsWritable(names: seq<Text>, isFloat: Text -> bool)
    requires AllNames(names, isFloat)
    ensures AllWritable(PrintNameList(names), isFloat)
  {
    if names != [] {
      NamesAreWritable(names, isFloat);
      hide AllWritable, PrintNames;
      ParenthesesAreWritable(PrintNames(names), isFloat);
    }
  }

  lemma ValueListIsWritable(values: seq<Tree>, isFloat: Text -> bool)
    requires SpellableTrees(values, isFloat)
    ensures forall k :: 0 <= k < |values| ==> Printable(values[k])
    ensures AllWritable(PrintValueList(values), isFloat)
  {
    if values != [] {
      ColumnsAreWritable(values, isFloat);
      hide AllWritable, PrintColumns;
      ParenthesesAreWritable(PrintColumns(values), isFloat);
    }
  }

  lemma ValuesAreWritable(values: seq<Tree>, isFloat: Text -> bool)
    requires SpellableTrees(values, isFloat)
    ensures forall k :: 0 <= k < |values| ==> Printable(values[k])
    ensures WritableToEnd(PrintValues(values), isFloat)
  {
    SignsAreWritable(isFloat);
    CloseIsWritable(isFloat);
    ValueListIsWritable(values, isFloat);
    hide PrintValueList, WritableToEnd, AllWritable;
    WritableBefore(PrintValueList(values), CLOSE, isFloat);
    WritableBefore([Sign(ValuesWord)], PrintValueList(values) + CLOSE, isFloat);
  }

  lemma InsertIsWritable(table: Text, names: seq<Text>, values: seq<Tree>, isFloat: Text -> bool)
    requires IsName(table, isFloat) && AllNames(names, isFloat) && SpellableTrees(values, isFloat)
    ensures forall k :: 0 <= k < |values| ==> Printable(values[k])
    ensures WritableToEnd(PrintInsert(table, names, values), isFloat)
  {
    SignsAreWritable(isFloat);
    NameListIsWritable(names, isFloat);
    ValuesAreWritable(values, isFloat);
    NameIsWritable(table, isFloat);
    hide PrintNameList, PrintValues, WritableToEnd, AllWritable, IsName, SpellableTrees, AllNames;
    var tail := PrintNameList(names) + PrintValues(values);
    WritableBefore(PrintNameList(names), PrintValues(values), isFloat);
    WritableBefore([Identifier(table)], tail, isFloat);
    WritableBefore([Sign(Into)], [Identifier(table)] + tail, isFloat);
    WritableBefore([Sign(Kind.Insert)], [Sign(Into)] + ([Identifier(table)] + tail), isFloat);
  }

  lemma QueryIsWritable(q: Query, isFloat: Text -> bool)
    requires SpellableQuery(q, isFloat)
    ensures WritableToEnd(PrintQuery(q), isFloat)
  {
    SignsAreWritable(isFloat);
    CloseIsWritable(isFloat);
    hide PrintWhere, PrintSelectList, PrintAssignments, PrintInsert, WritableToEnd, AllWritable, IsName;
    match q
    case SelectQuery(columns, table, where) =>
      SelectListIsWritable(columns, isFloat);
      FromIsWritable(table, where, isFloat);
      var tail := [Sign(From)] + ([Identifier(table)] + (PrintWhere(where) + CLOSE));
      WritableBefore(PrintSelectList(columns), tail, isFloat);
      WritableBefore([Sign(Kind.Select)], PrintSelectList(columns) + tail, isFloat);
    case ValuesQuery(columns) =>
      SelectListIsWritable(columns, isFloat);
      WritableBefore(PrintSelectList(columns), CLOSE, isFloat);
      WritableBefore([Sign(Kind.Select)], PrintSelectList(columns) + CLOSE, isFloat);
    case InsertQuery(table, names, values) =>
      InsertIsWritable(table, names, values, isFloat);
    case DeleteQuery(table, where) =>
      FromIsWritable(table, where, isFloat);
      WritableBefore([Sign(Kind.Delete)], [Sign(From)] + ([Identifier(table)] + (PrintWhere(where) + CLOSE)), isFloat);
    case UpdateQuery(table, assignments, where) =>
      AssignmentsAreWritable(assignments, isFloat);
      FromIsWritable(table, where, isFloat);
      NameIsWritable(table, isFloat);
      var tail := PrintAssignments(assignments) + (PrintWhere(where) + CLOSE);
      WritableBefore(PrintAssignments(assignments), PrintWhere(where) + CLOSE, isFloat);
      WritableBefore([Sign(Set)], tail, isFloat);
      WritableBefore([Identifier(table)], [Sign(Set)] + tail, isFloat);
      WritableBefore([Sign(Kind.Update)], [Identifier(table)] + ([Sign(Set)] + tail), isFloat);
  }

  lemma TokensReadBack(ts: TokenList, texts: seq<Text>, gaps: seq<Text>, isFloat: Text -> bool)
    requires WritableToEnd(ts, isFloat) && SpellsAll(texts, ts[..|ts| - 1])
    requires |gaps| == |ts| - 1 && forall i :: 0 <= i < |gaps| ==> IsGap(gaps[i])
    ensures Lex(Write(texts, gaps), isFloat) == Some(ts)
  {
    hide Writable, IsGap, Lex, Write, SpellsToken;
    WriteThenLex(ts[..|ts| - 1], texts, gaps, isFloat);
    assert ts == ts[..|ts| - 1] + [Sign(EndOfFile)];
  }

  /**
   The text round trip: a query written down, with its keywords in any mixture of cases and any blanks
   between its tokens, is lexed, without error, to exactly its tokens, and parsed to exactly itself.
   */
  lemma TextRoundTrip(q: Query, texts: seq<Text>, gaps: seq<Text>, isFloat: Text -> bool)
    requires SpellableQuery(q, isFloat) && SpellsAll(texts, QueryTokens(q))
    requires |gaps| == |QueryTokens(q)| && forall i :: 0 <= i < |gaps| ==> IsGap(gaps[i])
    ensures Lex(Write(texts, gaps), isFloat) == Some(PrintQuery(q))
    ensures IsQuery(PrintQuery(q)) && ParseQuery(PrintQuery(q)) == Some(q)
  {
    QueryRoundTrip(q);
    QueryIsWritable(q, isFloat);
    hide SpellableQuery, PrintableQuery, PrintQuery, IsQuery, ParseQuery, Lex, Write, Writable, WritableToEnd, IsGap;
    hide SpellsAll;
    TokensReadBack(PrintQuery(q), texts, gaps, isFloat);
  }
}
