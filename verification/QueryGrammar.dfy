/** The statement level of the parser as a function of the token list, and printing queries. */
module QueryGrammar {
  import opened Values
  import opened Tokens
  import opened Expressions
  import opened Grammar
  import opened GrammarProofs
  import opened Printer
  import opened Statements
  import opened Wrappers

  function ParseTree(ts: TokenList, pos: nat): (r: Option<(Tree, nat)>)
    requires pos < |ts|
    ensures r.Some? ==> pos < r.value.1 < |ts|
  {
    match ParseAt(ts, pos, 0)
    case None => None
    case Some((c, end)) => Some((Meaning(c), end))
  }

  function ParseWhere(ts: TokenList, pos: nat): (r: Option<(Option<Tree>, nat)>)
    requires pos < |ts|
    ensures r.Some? ==> pos <= r.value.1 < |ts|
  {
    if Current(ts, pos) != Sign(Where) then Some((None, pos))
    else match ParseTree(ts, pos + 1)
      case None => None
      case Some((t, end)) => Some((Some(t), end))
  }

  function EndsSelectList(t: Token): bool {
    t == Sign(From) || t == Sign(Semicolon) || t == Sign(EndOfFile)
  }

  /** The select list; a comma after a column may be missing, as in the source. */
  function ParseColumns(ts: TokenList, pos: nat, soFar: seq<Tree>): (r: Option<(seq<Tree>, nat)>)
    requires pos < |ts|
    ensures r.Some? ==> pos <= r.value.1 < |ts|
    decreases |ts| - pos
  {
    if EndsSelectList(Current(ts, pos)) then Some((soFar, pos))
    else match ParseTree(ts, pos)
      case None => None
      case Some((t, end)) =>
        ParseColumns(ts, if Current(ts, end) == Sign(Comma) then end + 1 else end, soFar + [t])
  }

  function ParseSelectQuery(ts: TokenList): Option<Query>
    requires |ts| > 1
  {
    var columns: Option<(seq<Tree>, nat)> :=
      if Current(ts, 1) == Sign(Asterisk)
      then (if EndsSelectList(Current(ts, 2)) then Some(([], 2)) else None)
      else ParseColumns(ts, 1, []);
    match columns
    case None => None
    case Some((trees, end)) =>
      if Current(ts, end) != Sign(From) then Some(ValuesQuery(trees))
      else match Current(ts, end + 1)
        case Identifier(table) => (
          match ParseWhere(ts, end + 2)
          case None => None
          case Some((where, _)) => Some(SelectQuery(trees, table, where)))
        case _ => None
  }

  function ParseDeleteQuery(ts: TokenList): Option<Query>
    requires |ts| > 1
  {
    if Current(ts, 1) != Sign(From) then None
    else match Current(ts, 2)
      case Identifier(table) => (
        match ParseWhere(ts, 3)
        case None => None
        case Some((where, end)) =>
          if Current(ts, end) == Sign(Semicolon) then Some(DeleteQuery(table, where)) else None)
      case _ => None
  }

  function ParseAssignment(ts: TokenList, pos: nat): (r: Option<((Text, Tree), nat)>)
    requires pos < |ts|
    ensures r.Some? ==> pos < r.value.1 < |ts|
  {
    match Current(ts, pos)
    case Identifier(column) => (
      if Current(ts, pos + 1) != Sign(Equal) then None
      else match ParseTree(ts, pos + 2)
        case None => None
        case Some((t, end)) => Some(((column, t), end)))
    case _ => None
  }

  /** One assignment, and more after commas. */
  function ParseAssignments(ts: TokenList, pos: nat, soFar: seq<(Text, Tree)>): (r: Option<(seq<(Text, Tree)>, nat)>)
    requires pos < |ts|
    ensures r.Some? ==> pos < r.value.1 < |ts|
    decreases |ts| - pos
  {
    match ParseAssignment(ts, pos)
    case None => None
    case Some((a, end)) =>
      if Current(ts, end) == Sign(Comma) then ParseAssignments(ts, end + 1, soFar + [a])
      else Some((soFar + [a], end))
  }

  function ParseUpdateQuery(ts: TokenList): Option<Query>
    requires |ts| > 1
  {
    match Current(ts, 1)
    case Identifier(table) => (
      if Current(ts, 2) != Sign(Set) then None
      else match ParseAssignments(ts, 3, [])
        case None => None
        case Some((assignments, end)) =>
          match ParseWhere(ts, end)
          case None => None
          case Some((where, last)) =>
            if Current(ts, last) == Sign(Semicolon) then Some(UpdateQuery(table, assignments, where)) else None)
    case _ => None
  }

  predicate EndsList(t: Token) {
    t == Sign(RightParen) || t == Sign(Semicolon) || t == Sign(EndOfFile)
  }

  function SkipComma(ts: TokenList, pos: nat): (next: nat)
    requires pos < |ts|
    ensures pos <= next < |ts|
  {
    if Current(ts, pos) == Sign(Comma) then pos + 1 else pos
  }

  /**
   The names after the first one of an INSERT; commas may be missing or doubled, as in the source, which
   also takes any other token for a name. There is no result then.
   */
  function ParseNames(ts: TokenList, pos: nat, soFar: seq<Text>): (r: Option<(seq<Text>, nat)>)
    requires pos < |ts|
    ensures r.Some? ==> pos <= r.value.1 < |ts| && |r.value.0| >= |soFar|
    decreases |ts| - pos
  {
    if EndsList(Current(ts, pos)) then Some((soFar, pos))
    else
      var at := SkipComma(ts, pos);
      match Current(ts, at)
      case Identifier(name) => ParseNames(ts, SkipComma(ts, at + 1), soFar + [name])
      case _ => None
  }

  function ParseNameList(ts: TokenList, pos: nat): (r: Option<(seq<Text>, nat)>)
    requires pos < |ts|
    ensures r.Some? ==> pos < r.value.1 < |ts| && r.value.0 != []
  {
    match Current(ts, pos)
    case Identifier(name) => ParseNames(ts, pos + 1, [name])
    case _ => None
  }

  /** The values after the first one; no result when something there is no expression. */
  function ParseValues(ts: TokenList, pos: nat, soFar: seq<Tree>): (r: Option<(seq<Tree>, nat)>)
    requires pos < |ts|
    ensures r.Some? ==> pos <= r.value.1 < |ts|
    decreases |ts| - pos
  {
    if EndsList(Current(ts, pos)) then Some((soFar, pos))
    else match ParseTree(ts, SkipComma(ts, pos))
      case None => None
      case Some((t, end)) => ParseValues(ts, SkipComma(ts, end), soFar + [t])
  }

  function ParseValueList(ts: TokenList, pos: nat): (r: Option<(seq<Tree>, nat)>)
    requires pos < |ts|
    ensures r.Some? ==> pos < r.value.1 < |ts|
  {
    match ParseTree(ts, pos)
    case None => None
    case Some((t, end)) =>
      if Current(ts, end) == Sign(Comma) then ParseValues(ts, end + 1, [t]) else Some(([t], end))
  }

  /** An INSERT is read, or refused, or has a list the model says nothing of. */
  datatype InsertReading = Accepted(query: Query) | Refused | BadList

  function ReadValues(ts: TokenList, pos: nat, table: Text, names: seq<Text>): InsertReading
    requires pos < |ts|
  {
    if Current(ts, pos) != Sign(ValuesWord) then Refused
    else if Current(ts, pos + 1) != Sign(LeftParen) then Accepted(InsertQuery(table, names, []))
    else match ParseValueList(ts, pos + 2)
      case None => BadList
      case Some((values, end)) =>
        if Current(ts, end) == Sign(RightParen) && Current(ts, end + 1) == Sign(Semicolon)
        then Accepted(InsertQuery(table, names, values)) else Refused
  }

  function ReadInsert(ts: TokenList): InsertReading
    requires |ts| > 1
  {
    if Current(ts, 1) != Sign(Into) then Refused
    else match Current(ts, 2)
      case Identifier(table) => (
        if Current(ts, 3) != Sign(LeftParen) then ReadValues(ts, 3, table, [])
        else match ParseNameList(ts, 4)
          case None => BadList
          case Some((names, end)) =>
            if Current(ts, end) != Sign(RightParen) then Refused else ReadValues(ts, end + 1, table, names))
      case _ => Refused
  }

  function QueryRead(reading: InsertReading): Option<Query> {
    if reading.Accepted? then Some(reading.query) else None
  }

  function ParseInsertQuery(ts: TokenList): Option<Query>
    requires |ts| > 1
  {
    QueryRead(ReadInsert(ts))
  }

  /**
   The token lists whose parsing is modelled: all but CREATE and DROP, and but an INSERT with a name
   that is no word or a value that is no expression, on which the source reads on regardless.
   */
  predicate IsQuery(ts: TokenList) {
    && ts[0] != Sign(Kind.Create) && ts[0] != Sign(Kind.Drop)
    && (ts[0] == Sign(Kind.Insert) ==> ReadInsert(ts) != BadList)
  }

  /** Nothing when the source reports a syntax error, as for every other first token. */
  function ParseQuery(ts: TokenList): Option<Query>
    requires IsQuery(ts)
  {
    if ts[0] == Sign(Kind.Select) then ParseSelectQuery(ts)
    else if ts[0] == Sign(Kind.Insert) then ParseInsertQuery(ts)
    else if ts[0] == Sign(Kind.Delete) then ParseDeleteQuery(ts)
    else if ts[0] == Sign(Kind.Update) then ParseUpdateQuery(ts)
    else None
  }

  // Printing.

  function PrintTree(t: Tree): (ts: seq<Token>)
    requires Printable(t)
    ensures ts != []
  {
    Yield(Print(t, 0))
  }

  function PrintWhere(where: Option<Tree>): seq<Token>
    requires where.Some? ==> Printable(where.value)
  {
    if where.None? then [] else [Sign(Where)] + PrintTree(where.value)
  }

  /** Columns separated by commas. */
  function PrintColumns(columns: seq<Tree>): seq<Token>
    requires forall k :: 0 <= k < |columns| ==> Printable(columns[k])
  {
    if columns == [] then []
    else if |columns| == 1 then PrintTree(columns[0])
    else PrintTree(columns[0]) + ([Sign(Comma)] + PrintColumns(columns[1..]))
  }

  function PrintAssignment(a: (Text, Tree)): seq<Token>
    requires Printable(a.1)
  {
    [Identifier(a.0)] + ([Sign(Equal)] + PrintTree(a.1))
  }

  function PrintAssignments(assignments: seq<(Text, Tree)>): seq<Token>
    requires assignments != []
    requires forall k :: 0 <= k < |assignments| ==> Printable(assignments[k].1)
  {
    if |assignments| == 1 then PrintAssignment(assignments[0])
    else PrintAssignment(assignments[0]) + ([Sign(Comma)] + PrintAssignments(assignments[1..]))
  }

  predicate PrintableQuery(q: Query) {
    match q
    case SelectQuery(columns, _, where) =>
      (forall k :: 0 <= k < |columns| ==> Printable(columns[k])) && (where.Some? ==> Printable(where.value))
    case ValuesQuery(columns) => forall k :: 0 <= k < |columns| ==> Printable(columns[k])
    case InsertQuery(_, _, values) => forall k :: 0 <= k < |values| ==> Printable(values[k])
    case DeleteQuery(_, where) => where.Some? ==> Printable(where.value)
    case UpdateQuery(_, assignments, where) =>
      && assignments != []
      && (forall k :: 0 <= k < |assignments| ==> Printable(assignments[k].1))
      && (where.Some? ==> Printable(where.value))
  }

  function PrintSelectList(columns: seq<Tree>): seq<Token>
    requires forall k :: 0 <= k < |columns| ==> Printable(columns[k])
  {
    if columns == [] then [Sign(Asterisk)] else PrintColumns(columns)
  }

  const CLOSE: seq<Token> := [Sign(Semicolon), Sign(EndOfFile)]

  /** Names separated by commas. */
  function PrintNames(names: seq<Text>): seq<Token>
    requires names != []
  {
    if |names| == 1 then [Identifier(names[0])]
    else [Identifier(names[0])] + ([Sign(Comma)] + PrintNames(names[1..]))
  }

  function PrintNameList(names: seq<Text>): seq<Token> {
    if names == [] then [] else [Sign(LeftParen)] + (PrintNames(names) + [Sign(RightParen)])
  }

  function PrintValueList(values: seq<Tree>): seq<Token>
    requires forall k :: 0 <= k < |values| ==> Printable(values[k])
  {
    if values == [] then [] else [Sign(LeftParen)] + (PrintColumns(values) + [Sign(RightParen)])
  }

  function PrintValues(values: seq<Tree>): TokenList
    requires forall k :: 0 <= k < |values| ==> Printable(values[k])
  {
    [Sign(ValuesWord)] + (PrintValueList(values) + CLOSE)
  }

  /** Tokens in front of a token list. */
  function Onto(tokens: seq<Token>, rest: TokenList): (ts: TokenList)
    ensures ts == tokens + rest
  {
    tokens + rest
  }

  function PrintInsert(table: Text, names: seq<Text>, values: seq<Tree>): TokenList
    requires forall k :: 0 <= k < |values| ==> Printable(values[k])
  {
    Onto([Sign(Kind.Insert)], Onto([Sign(Into)], Onto([Identifier(table)], Onto(PrintNameList(names), PrintValues(values)))))
  }

  function PrintQuery(q: Query): (ts: TokenList)
    requires PrintableQuery(q)
  {
    match q
    case SelectQuery(columns, table, where) =>
      [Sign(Kind.Select)] + (PrintSelectList(columns) + ([Sign(From)] + ([Identifier(table)] + (PrintWhere(where) + CLOSE))))
    case ValuesQuery(columns) => [Sign(Kind.Select)] + (PrintSelectList(columns) + CLOSE)
    case InsertQuery(table, names, values) => PrintInsert(table, names, values)
    case DeleteQuery(table, where) =>
      [Sign(Kind.Delete)] + ([Sign(From)] + ([Identifier(table)] + (PrintWhere(where) + CLOSE)))
    case UpdateQuery(table, assignments, where) =>
      [Sign(Kind.Update)] + ([Identifier(table)] + ([Sign(Set)] + (PrintAssignments(assignments) + (PrintWhere(where) + CLOSE))))
  }

  ghost predicate At(ts: TokenList, pos: nat, part: seq<Token>) {
    pos + |part| <= |ts| && ts[pos..pos + |part|] == part
  }

  /** Where a concatenation stands, its parts stand. */
  lemma AtParts(ts: TokenList, pos: nat, a: seq<Token>, b: seq<Token>)
    requires At(ts, pos, a + b)
    ensures At(ts, pos, a) && At(ts, pos + |a|, b)
  {
    SliceOfSlice(ts, pos, |a + b|, 0, |a|);
    SliceOfSlice(ts, pos, |a + b|, |a|, |a + b|);
  }

  lemma AtFirst(ts: TokenList, pos: nat, t: Token, rest: seq<Token>)
    requires At(ts, pos, [t] + rest)
    ensures Current(ts, pos) == t && At(ts, pos + 1, rest)
  {
    AtParts(ts, pos, [t], rest);
    assert ts[pos] == ts[pos..pos + 1][0];
  }

  /** Tokens that cannot continue an expression. */
  predicate IsStop(t: Token) {
    t in {Sign(Semicolon), Sign(EndOfFile), Sign(Comma), Sign(From), Sign(Where), Sign(RightParen)}
  }

  /** No expression starts with a token that ends one. */
  lemma {:induction false} StartsExpression(c: Cst)
    requires Derivation(c)
    ensures !IsStop(Yield(c)[0]) && Yield(c)[0] != Sign(Asterisk)
  {
    match c
    case Chain(_, l, _) => StartsExpression(l);
    case _ =>
  }
}
