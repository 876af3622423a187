/**
 The grammar of statements: which lists of tokens spell a query, said without the parser, and that
 the parser reads exactly these. Commas may be missing or doubled where the source lets them.
 */
module StatementGrammar {
  import opened Values
  import opened Tokens
  import opened Expressions
  import opened Grammar
  import opened GrammarProofs
  import opened Statements
  import opened Wrappers

  // Expressions: they go on as long as the tokens let them.

  ghost predicate StartsOperator(t: Token) { exists op :: OperatorTokens(op)[0] == t }

  /** The expression cannot go on with this token. */
  ghost predicate EndsBefore(c: Cst, next: Token) {
    !StartsOperator(next) && (EndsInName(c) ==> next != Sign(Dot))
  }

  ghost predicate IsExpression(c: Cst, t: Tree) { Derivation(c) && Meaning(c) == t }

  // Statements.

  /** An expression of a list, and how many commas come after it. */
  datatype Item = Item(expr: Cst, commas: nat)

  function Commas(n: nat): seq<Token> { seq(n, _ => Sign(Comma)) }

  function ListTokens(items: seq<Item>): seq<Token> {
    if items == [] then [] else Yield(items[0].expr) + (Commas(items[0].commas) + ListTokens(items[1..]))
  }

  /** The items stand for these trees, and without a comma between them one ends where the next begins. */
  ghost predicate ListOf(items: seq<Item>, trees: seq<Tree>, next: Token) {
    if items == [] then trees == []
    else
      && trees != [] && IsExpression(items[0].expr, trees[0])
      && (items[0].commas == 0 ==> EndsBefore(items[0].expr, (ListTokens(items[1..]) + [next])[0]))
      && ListOf(items[1..], trees[1..], next)
  }

  /** What stands between SELECT and the token `next`: a star, nothing, or expressions with or without commas. */
  ghost predicate SelectList(list: seq<Token>, columns: seq<Tree>, next: Token) {
    || (list == [Sign(Asterisk)] && columns == [])
    || exists items :: list == ListTokens(items) && ListOf(items, columns, next) && AtMostOneComma(items)
  }

  predicate AtMostOneComma(items: seq<Item>) { forall i :: 0 <= i < |items| ==> items[i].commas <= 1 }

  function WhereTokens(w: Option<Cst>): seq<Token> {
    if w.None? then [] else [Sign(Where)] + Yield(w.value)
  }

  ghost predicate WhereOf(w: Option<Cst>, where: Option<Tree>, next: Token) {
    match w
    case None => where.None? && next != Sign(Where)
    case Some(c) => where.Some? && IsExpression(c, where.value) && EndsBefore(c, next)
  }

  function OneSet(name: Text, c: Cst): seq<Token> { [Identifier(name)] + ([Sign(Equal)] + Yield(c)) }

  function SetTokens(sets: seq<(Text, Cst)>): seq<Token>
    requires sets != []
  {
    var first := OneSet(sets[0].0, sets[0].1);
    if |sets| == 1 then first else first + ([Sign(Comma)] + SetTokens(sets[1..]))
  }

  ghost predicate SetsOf(sets: seq<(Text, Cst)>, assignments: seq<(Text, Tree)>) {
    && |sets| == |assignments| > 0
    && forall i :: 0 <= i < |sets| ==> sets[i].0 == assignments[i].0 && IsExpression(sets[i].1, assignments[i].1)
  }

  datatype NameItem = NameItem(name: Text, commas: nat)

  function NameTokens(items: seq<NameItem>): seq<Token> {
    if items == [] then [] else [Identifier(items[0].name)] + (Commas(items[0].commas) + NameTokens(items[1..]))
  }

  /** At most two commas between names, one after the first, and one at the end unless there is only one name. */
  predicate NamesSeparated(items: seq<NameItem>) {
    && items != [] && items[0].commas <= (if |items| == 1 then 0 else 1)
    && (forall i :: 0 <= i < |items| ==> items[i].commas <= 2)
    && items[|items| - 1].commas <= 1
  }

  predicate NamesOf(items: seq<NameItem>, names: seq<Text>) {
    |items| == |names| && forall i :: 0 <= i < |items| ==> items[i].name == names[i]
  }

  /** At most two commas between values, and at least one after the first; at most one at the end. */
  predicate ValuesSeparated(items: seq<Item>) {
    && items != [] && (|items| > 1 ==> items[0].commas > 0)
    && (forall i :: 0 <= i < |items| ==> items[i].commas <= 2)
    && items[|items| - 1].commas <= 1
  }

  ghost predicate NamePart(part: seq<Token>, names: seq<Text>) {
    || (part == [] && names == [])
    || exists items :: part == [Sign(LeftParen)] + (NameTokens(items) + [Sign(RightParen)])
         && NamesOf(items, names) && NamesSeparated(items)
  }

  /** The values and the semicolon; without values the semicolon may be missing, but no parenthesis may follow. */
  ghost predicate ValuePart(part: seq<Token>, values: seq<Tree>, next: Token) {
    || (part == [] && values == [] && next != Sign(LeftParen))
    || exists items :: part == [Sign(LeftParen)] + (ListTokens(items) + [Sign(RightParen), Sign(Semicolon)])
         && ListOf(items, values, Sign(RightParen)) && ValuesSeparated(items)
  }

  /** The list starts with these tokens, and goes on. */
  predicate Starts(ts: TokenList, tokens: seq<Token>) { |tokens| < |ts| && ts[..|tokens|] == tokens }

  function SelectTokens(list: seq<Token>, table: Text, w: Option<Cst>): seq<Token> {
    [Sign(Kind.Select)] + (list + ([Sign(From)] + ([Identifier(table)] + WhereTokens(w))))
  }

  function DeleteTokens(table: Text, w: Option<Cst>): seq<Token> {
    [Sign(Kind.Delete)] + ([Sign(From)] + ([Identifier(table)] + (WhereTokens(w) + [Sign(Semicolon)])))
  }

  function UpdateTokens(table: Text, sets: seq<(Text, Cst)>, w: Option<Cst>): seq<Token>
    requires sets != []
  {
    [Sign(Kind.Update)] + ([Identifier(table)] + ([Sign(Set)] + (SetTokens(sets) + (WhereTokens(w) + [Sign(Semicolon)]))))
  }

  function InsertTokens(table: Text, namePart: seq<Token>, valuePart: seq<Token>): seq<Token> {
    [Sign(Kind.Insert)] + ([Sign(Into)] + ([Identifier(table)] + (namePart + ([Sign(ValuesWord)] + valuePart))))
  }

  ghost predicate SpellsSelect(ts: TokenList, columns: seq<Tree>, table: Text, where: Option<Tree>) {
    exists list, w :: SelectList(list, columns, Sign(From)) && Starts(ts, SelectTokens(list, table, w))
      && WhereOf(w, where, Current(ts, |SelectTokens(list, table, w)|))
  }

  ghost predicate SpellsValues(ts: TokenList, columns: seq<Tree>) {
    exists list, next :: (next == Sign(Semicolon) || next == Sign(EndOfFile)) && SelectList(list, columns, next)
      && Starts(ts, [Sign(Kind.Select)] + list) && Current(ts, 1 + |list|) == next
  }

  ghost predicate SpellsDelete(ts: TokenList, table: Text, where: Option<Tree>) {
    exists w :: WhereOf(w, where, Sign(Semicolon)) && Starts(ts, DeleteTokens(table, w))
  }

  ghost predicate SpellsUpdate(ts: TokenList, table: Text, assignments: seq<(Text, Tree)>, where: Option<Tree>) {
    exists sets, w :: SetsOf(sets, assignments) && WhereOf(w, where, Sign(Semicolon))
      && Starts(ts, UpdateTokens(table, sets, w))
  }

  ghost predicate SpellsInsert(ts: TokenList, table: Text, names: seq<Text>, values: seq<Tree>) {
    exists namePart, valuePart :: NamePart(namePart, names) && Starts(ts, InsertTokens(table, namePart, valuePart))
      && ValuePart(valuePart, values, Current(ts, |InsertTokens(table, namePart, valuePart)|))
  }

  /** The tokens spell the query; what comes after it does not matter. */
  ghost predicate Spells(ts: TokenList, q: Query) {
    match q
    case SelectQuery(columns, table, where) => SpellsSelect(ts, columns, table, where)
    case ValuesQuery(columns) => SpellsValues(ts, columns)
    case InsertQuery(table, names, values) => SpellsInsert(ts, table, names, values)
    case DeleteQuery(table, where) => SpellsDelete(ts, table, where)
    case UpdateQuery(table, assignments, where) => SpellsUpdate(ts, table, assignments, where)
  }
}
