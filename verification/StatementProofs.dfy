/** The parser reads exactly the grammar of statements, and so reads back what is printed. */
module StatementProofs {
  import opened Values
  import opened Tokens
  import opened Expressions
  import opened Grammar
  import opened Printer
  import opened QueryGrammar
  import opened StatementGrammar
  import opened ListProofs
  import opened Statements
  import opened Wrappers

  // WHERE and SET.

  lemma {:induction false} WhereRead(ts: TokenList, pos: nat) returns (w: Option<Cst>)
    requires pos < |ts| && ParseWhere(ts, pos).Some?
    ensures var (where, end) := ParseWhere(ts, pos).value;
      && At(ts, pos, WhereTokens(w)) && end == pos + |WhereTokens(w)| < |ts| && WhereOf(w, where, Current(ts, end))
  {
    hide ParseTree, EndsBefore, IsExpression, Yield;
    if Current(ts, pos) == Sign(Where) {
      var c := ExpressionRead(ts, pos + 1);
      var e := ParseTree(ts, pos + 1).value.1;
      ExpressionParts(ts, pos + 1, c, ParseTree(ts, pos + 1).value.0, e);
      hide ExpressionAt, At;
      w := Some(c);
      OneAt(ts, pos, Sign(Where));
      AtJoined(ts, pos, [Sign(Where)], Yield(c));
    } else {
      w := None;
      NothingAt(ts, pos);
    }
  }

  lemma {:induction false} WhereIsRead(ts: TokenList, pos: nat, w: Option<Cst>, where: Option<Tree>, end: nat)
    requires At(ts, pos, WhereTokens(w)) && end == pos + |WhereTokens(w)| < |ts| && WhereOf(w, where, Current(ts, end))
    ensures pos < |ts| && ParseWhere(ts, pos) == Some((where, end))
  {
    hide ParseTree, EndsBefore, IsExpression, Yield, At, IsStop;
    if w.Some? {
      AtFirst(ts, pos, Sign(Where), Yield(w.value));
      IsWritten(ts, pos + 1, w.value, where.value, end);
      ExpressionIsRead(ts, pos + 1, w.value, where.value, end);
    }
  }

  ghost predicate SetsAt(ts: TokenList, pos: nat, sets: seq<(Text, Cst)>, assignments: seq<(Text, Tree)>, end: nat) {
    SetsOf(sets, assignments) && At(ts, pos, SetTokens(sets)) && end == pos + |SetTokens(sets)| < |ts|
  }

  /** One assignment is read. */
  ghost predicate SetAt(ts: TokenList, pos: nat, name: Text, c: Cst, t: Tree, end: nat) {
    && pos + 2 < |ts| && Current(ts, pos) == Identifier(name) && Current(ts, pos + 1) == Sign(Equal)
    && ExpressionAt(ts, pos + 2, c, t, end)
  }

  lemma {:induction false} AssignmentRead(ts: TokenList, pos: nat) returns (c: Cst)
    requires pos < |ts| && ParseAssignment(ts, pos).Some?
    ensures var (a, end) := ParseAssignment(ts, pos).value; SetAt(ts, pos, a.0, c, a.1, end)
  {
    hide ParseTree, ExpressionAt;
    c := ExpressionRead(ts, pos + 2);
  }

  lemma {:induction false} AssignmentIsRead(ts: TokenList, pos: nat, name: Text, c: Cst, t: Tree, end: nat)
    requires SetAt(ts, pos, name, c, t, end)
    ensures pos < end < |ts| && ParseAssignment(ts, pos) == Some(((name, t), end))
  {
    hide ParseTree, ExpressionAt;
    ExpressionIsRead(ts, pos + 2, c, t, end);
  }

  lemma ExpressionInside(ts: TokenList, pos: nat, c: Cst, t: Tree, end: nat)
    requires ExpressionAt(ts, pos, c, t, end)
    ensures pos < end < |ts|
  {
  }

  lemma {:induction false} SetIsAt(ts: TokenList, pos: nat, name: Text, c: Cst, t: Tree, end: nat)
    requires SetAt(ts, pos, name, c, t, end)
    ensures At(ts, pos, OneSet(name, c)) && end == pos + |OneSet(name, c)| < |ts| && IsExpression(c, t)
    ensures EndsBefore(c, Current(ts, end))
  {
    ExpressionParts(ts, pos + 2, c, t, end);
    ExpressionInside(ts, pos + 2, c, t, end);
    hide At, Yield, ExpressionAt, EndsBefore, IsExpression, Current;
    OneAt(ts, pos, Identifier(name));
    OneAt(ts, pos + 1, Sign(Equal));
    AtJoined(ts, pos + 1, [Sign(Equal)], Yield(c));
    AtJoined(ts, pos, [Identifier(name)], [Sign(Equal)] + Yield(c));
  }

  lemma {:induction false} AtIsSet(ts: TokenList, pos: nat, name: Text, c: Cst, t: Tree, end: nat)
    requires At(ts, pos, OneSet(name, c)) && end == pos + |OneSet(name, c)| < |ts| && IsExpression(c, t)
    requires IsStop(Current(ts, end))
    ensures SetAt(ts, pos, name, c, t, end)
  {
    StopEndsExpression(c, Current(ts, end));
    hide At, Yield, EndsBefore, IsExpression, IsStop;
    AtFirst(ts, pos, Identifier(name), [Sign(Equal)] + Yield(c));
    AtFirst(ts, pos + 1, Sign(Equal), Yield(c));
    IsWritten(ts, pos + 2, c, t, end);
  }

  lemma {:induction false} SetsRead(ts: TokenList, pos: nat, soFar: seq<(Text, Tree)>)
    returns (sets: seq<(Text, Cst)>, assignments: seq<(Text, Tree)>, end: nat)
    requires pos < |ts| && ParseAssignments(ts, pos, soFar).Some?
    ensures ParseAssignments(ts, pos, soFar) == Some((soFar + assignments, end))
    ensures SetsAt(ts, pos, sets, assignments, end)
    decreases |ts| - pos
  {
    hide ParseAssignment, SetAt, At, IsExpression, EndsBefore, Yield, Current;
    var c := AssignmentRead(ts, pos);
    var a, e := ParseAssignment(ts, pos).value.0, ParseAssignment(ts, pos).value.1;
    SetIsAt(ts, pos, a.0, c, a.1, e);
    if Current(ts, e) == Sign(Comma) {
      var rest, more, last := SetsRead(ts, e + 1, soFar + [a]);
      sets, assignments, end := [(a.0, c)] + rest, [a] + more, last;
      OneAt(ts, e, Sign(Comma));
      AtJoined(ts, e, [Sign(Comma)], SetTokens(rest));
      AtJoined(ts, pos, OneSet(a.0, c), [Sign(Comma)] + SetTokens(rest));
      assert sets[1..] == rest && soFar + assignments == soFar + [a] + more;
    } else {
      sets, assignments, end := [(a.0, c)], [a], e;
    }
  }

  lemma {:induction false} SetsAreRead(ts: TokenList, pos: nat, sets: seq<(Text, Cst)>, assignments: seq<(Text, Tree)>,
                                       end: nat, soFar: seq<(Text, Tree)>)
    requires SetsAt(ts, pos, sets, assignments, end) && IsStop(Current(ts, end)) && Current(ts, end) != Sign(Comma)
    ensures pos < |ts| && ParseAssignments(ts, pos, soFar) == Some((soFar + assignments, end))
    decreases sets
  {
    hide ParseAssignment, SetAt, At, IsExpression, EndsBefore, Yield, Current, IsStop;
    var name, c, t := sets[0].0, sets[0].1, assignments[0].1;
    var e := pos + |OneSet(name, c)|;
    if |sets| == 1 {
      AtIsSet(ts, pos, name, c, t, e);
      AssignmentIsRead(ts, pos, name, c, t, e);
      assert soFar + assignments == soFar + [(name, t)];
    } else {
      var rest := SetTokens(sets[1..]);
      AtParts(ts, pos, OneSet(name, c), [Sign(Comma)] + rest);
      AtFirst(ts, e, Sign(Comma), rest);
      CommaIsStop();
      AtIsSet(ts, pos, name, c, t, e);
      AssignmentIsRead(ts, pos, name, c, t, e);
      assert SetsAt(ts, e + 1, sets[1..], assignments[1..], end);
      SetsAreRead(ts, e + 1, sets[1..], assignments[1..], end, soFar + [(name, t)]);
      assert assignments[0] == (name, t) && soFar + assignments == soFar + [(name, t)] + assignments[1..];
    }
  }

  lemma CommaIsStop()
    ensures IsStop(Sign(Comma))
  {
  }

  // Whole statements.

  lemma StartsIff(ts: TokenList, tokens: seq<Token>)
    ensures Starts(ts, tokens) <==> At(ts, 0, tokens) && |tokens| < |ts|
  {
  }

  lemma InsideBefore(ts: TokenList, pos: nat)
    ensures Current(ts, pos) != Sign(EndOfFile) ==> pos + 1 < |ts|
  {
  }

  /** One more token in front. */
  lemma TokenBefore(ts: TokenList, pos: nat, t: Token, rest: seq<Token>)
    requires pos < |ts| && Current(ts, pos) == t && At(ts, pos + 1, rest)
    ensures At(ts, pos, [t] + rest)
  {
    OneAt(ts, pos, t);
    hide At;
    AtJoined(ts, pos, [t], rest);
  }

  lemma ThreeBefore(ts: TokenList, a: Token, b: Token, c: Token, rest: seq<Token>)
    requires Current(ts, 0) == a && Current(ts, 1) == b && Current(ts, 2) == c && At(ts, 3, rest) && 3 + |rest| < |ts|
    ensures Starts(ts, [a] + ([b] + ([c] + rest)))
  {
    hide At, Current;
    TokenBefore(ts, 2, c, rest);
    TokenBefore(ts, 1, b, [c] + rest);
    TokenBefore(ts, 0, a, [b] + ([c] + rest));
    StartsIff(ts, [a] + ([b] + ([c] + rest)));
  }

  lemma ThreeAfter(ts: TokenList, a: Token, b: Token, c: Token, rest: seq<Token>)
    requires Starts(ts, [a] + ([b] + ([c] + rest)))
    ensures Current(ts, 0) == a && Current(ts, 1) == b && Current(ts, 2) == c && At(ts, 3, rest) && 3 + |rest| < |ts|
  {
    StartsIff(ts, [a] + ([b] + ([c] + rest)));
    hide At, Current, Starts;
    AtFirst(ts, 0, a, [b] + ([c] + rest));
    AtFirst(ts, 1, b, [c] + rest);
    AtFirst(ts, 2, c, rest);
  }

  /** A condition and the semicolon. */
  lemma {:induction false} WhereEnds(ts: TokenList, pos: nat) returns (w: Option<Cst>)
    requires pos < |ts| && ParseWhere(ts, pos).Some? && Current(ts, ParseWhere(ts, pos).value.1) == Sign(Semicolon)
    ensures WhereOf(w, ParseWhere(ts, pos).value.0, Sign(Semicolon))
    ensures At(ts, pos, WhereTokens(w) + [Sign(Semicolon)]) && pos + |WhereTokens(w)| + 1 < |ts|
    ensures Current(ts, pos) == Sign(Where) || Current(ts, pos) == Sign(Semicolon)
  {
    w := WhereRead(ts, pos);
    var end := ParseWhere(ts, pos).value.1;
    InsideBefore(ts, end);
    OneAt(ts, end, Sign(Semicolon));
    FirstAhead(ts, pos, WhereTokens(w));
    hide At, ParseWhere, EndsBefore, IsExpression, Yield, Current;
    AtJoined(ts, pos, WhereTokens(w), [Sign(Semicolon)]);
  }

  lemma {:induction false} WhereEndIsRead(ts: TokenList, pos: nat, w: Option<Cst>, where: Option<Tree>)
    requires WhereOf(w, where, Sign(Semicolon))
    requires At(ts, pos, WhereTokens(w) + [Sign(Semicolon)]) && pos + |WhereTokens(w)| + 1 < |ts|
    ensures ParseWhere(ts, pos) == Some((where, pos + |WhereTokens(w)|))
    ensures Current(ts, pos + |WhereTokens(w)|) == Sign(Semicolon)
    ensures Current(ts, pos) == Sign(Where) || Current(ts, pos) == Sign(Semicolon)
  {
    hide At, ParseWhere, EndsBefore, IsExpression, Yield, Current;
    AtParts(ts, pos, WhereTokens(w), [Sign(Semicolon)]);
    AtFirst(ts, pos + |WhereTokens(w)|, Sign(Semicolon), []);
    WhereIsRead(ts, pos, w, where, pos + |WhereTokens(w)|);
    FirstAhead(ts, pos, WhereTokens(w));
  }

  lemma {:induction false} DeleteRead(ts: TokenList, table: Text, where: Option<Tree>)
    requires |ts| > 1 && Current(ts, 0) == Sign(Kind.Delete)
    ensures ParseDeleteQuery(ts) == Some(DeleteQuery(table, where)) <==> SpellsDelete(ts, table, where)
  {
    hide At, ParseWhere, WhereOf, WhereTokens, Starts;
    if ParseDeleteQuery(ts) == Some(DeleteQuery(table, where)) {
      InsideBefore(ts, 2);
      var w := WhereEnds(ts, 3);
      ThreeBefore(ts, Sign(Kind.Delete), Sign(From), Identifier(table), WhereTokens(w) + [Sign(Semicolon)]);
    }
    if SpellsDelete(ts, table, where) {
      var w :| WhereOf(w, where, Sign(Semicolon)) && Starts(ts, DeleteTokens(table, w));
      ThreeAfter(ts, Sign(Kind.Delete), Sign(From), Identifier(table), WhereTokens(w) + [Sign(Semicolon)]);
      WhereEndIsRead(ts, 3, w, where);
    }
  }

  lemma {:induction false} UpdateRead(ts: TokenList, table: Text, assignments: seq<(Text, Tree)>, where: Option<Tree>)
    requires |ts| > 1 && Current(ts, 0) == Sign(Kind.Update)
    ensures ParseUpdateQuery(ts) == Some(UpdateQuery(table, assignments, where)) <==>
      SpellsUpdate(ts, table, assignments, where)
  {
    hide At, ParseWhere, WhereOf, WhereTokens, Starts, ParseAssignments, SetsOf, SetTokens, SetsAt;
    if ParseUpdateQuery(ts) == Some(UpdateQuery(table, assignments, where)) {
      InsideBefore(ts, 2);
      var sets, more, end := SetsRead(ts, 3, []);
      assert [] + more == more;
      SetsInside(ts, 3, sets, more, end);
      var w := WhereEnds(ts, end);
      AtJoined(ts, 3, SetTokens(sets), WhereTokens(w) + [Sign(Semicolon)]);
      ThreeBefore(ts, Sign(Kind.Update), Identifier(table), Sign(Set),
                  SetTokens(sets) + (WhereTokens(w) + [Sign(Semicolon)]));
    }
    if SpellsUpdate(ts, table, assignments, where) {
      UpdateIsRead(ts, table, assignments, where);
    }
  }

  lemma {:induction false} SetsInside(ts: TokenList, pos: nat, sets: seq<(Text, Cst)>, assignments: seq<(Text,
                                      Tree)>, end: nat)
    requires SetsAt(ts, pos, sets, assignments, end)
    ensures SetsOf(sets, assignments) && At(ts, pos, SetTokens(sets)) && end == pos + |SetTokens(sets)| < |ts|
  {
  }

  lemma {:induction false} UpdateIsRead(ts: TokenList, table: Text, assignments: seq<(Text, Tree)>, where: Option<Tree>)
    requires |ts| > 1 && Current(ts, 0) == Sign(Kind.Update) && SpellsUpdate(ts, table, assignments, where)
    ensures ParseUpdateQuery(ts) == Some(UpdateQuery(table, assignments, where))
  {
    hide At, ParseWhere, WhereOf, WhereTokens, Starts, ParseAssignments, SetTokens, IsExpression, IsStop;
    var sets, w :| SetsOf(sets, assignments) && WhereOf(w, where, Sign(Semicolon))
      && Starts(ts, UpdateTokens(table, sets, w));
    var list, tail := SetTokens(sets), WhereTokens(w) + [Sign(Semicolon)];
    ThreeAfter(ts, Sign(Kind.Update), Identifier(table), Sign(Set), list + tail);
    AtParts(ts, 3, list, tail);
    WhereEndIsRead(ts, 3 + |list|, w, where);
    SemicolonOrWhereStops();
    SetsAreRead(ts, 3, sets, assignments, 3 + |list|, []);
    assert [] + assignments == assignments;
  }

  lemma SemicolonOrWhereStops()
    ensures IsStop(Sign(Where)) && IsStop(Sign(Semicolon))
  {
  }

  // SELECT.

  lemma {:induction false} ListRead(ts: TokenList) returns (list: seq<Token>, columns: seq<Tree>, end: nat)
    requires 1 < |ts| && Columns(ts).Some?
    ensures Columns(ts) == Some((columns, end)) && end == 1 + |list| < |ts| && At(ts, 1, list)
    ensures EndsSelectList(Current(ts, end)) && SelectList(list, columns, Current(ts, end))
  {
    hide At, ParseColumns, ListOf, ListTokens, AtMostOneComma, EndsSelectList;
    if Current(ts, 1) == Sign(Asterisk) {
      list, columns, end := [Sign(Asterisk)], [], 2;
      InsideBefore(ts, 1);
      OneAt(ts, 1, Sign(Asterisk));
    } else {
      var items, trees, last := ColumnsRead(ts, 1, []);
      list, columns, end := ListTokens(items), trees, last;
      assert [] + trees == trees;
    }
  }

  /** What `ParseSelectQuery` reads between SELECT and FROM. */
  function Columns(ts: TokenList): Option<(seq<Tree>, nat)>
    requires |ts| > 1
  {
    if Current(ts, 1) == Sign(Asterisk) then (if EndsSelectList(Current(ts, 2)) then Some(([], 2)) else None)
    else ParseColumns(ts, 1, [])
  }

  lemma {:induction false} ListIsRead(ts: TokenList, list: seq<Token>, columns: seq<Tree>, end: nat)
    requires At(ts, 1, list) && end == 1 + |list| < |ts| && EndsSelectList(Current(ts, end))
    requires SelectList(list, columns, Current(ts, end))
    ensures |ts| > 1 && Columns(ts) == Some((columns, end))
  {
    hide At, ParseColumns, ListOf, ListTokens, AtMostOneComma, Current, EndsSelectList;
    if list == [Sign(Asterisk)] && columns == [] {
      assert list == [Sign(Asterisk)] + [];
      AtFirst(ts, 1, Sign(Asterisk), []);
    } else {
      var items :| list == ListTokens(items) && ListOf(items, columns, Current(ts, end)) && AtMostOneComma(items);
      assert ListAt(ts, 1, items, columns, end);
      ColumnsAreRead(ts, 1, items, columns, end, []);
      assert [] + columns == columns;
      NoStarFirst(ts, items, columns, end);
    }
  }

  lemma {:induction false} NoStarFirst(ts: TokenList, items: seq<Item>, columns: seq<Tree>, end: nat)
    requires ListAt(ts, 1, items, columns, end) && EndsSelectList(Current(ts, end))
    ensures Current(ts, 1) != Sign(Asterisk)
  {
    if items != [] {
      ItemsAt(ts, 1, items);
      StartsExpression(items[0].expr);
      TokenAt(ts, 1, Yield(items[0].expr));
      hide At, ListTokens, Yield, Derivation;
    }
  }

  lemma {:induction false} ValuesQueryRead(ts: TokenList, columns: seq<Tree>)
    requires |ts| > 1 && Current(ts, 0) == Sign(Kind.Select)
    ensures ParseSelectQuery(ts) == Some(ValuesQuery(columns)) <==> SpellsValues(ts, columns)
  {
    hide At, SelectList, ParseColumns, ParseWhere, Starts;
    if ParseSelectQuery(ts) == Some(ValuesQuery(columns)) {
      var list, trees, end := ListRead(ts);
      TokenBefore(ts, 0, Sign(Kind.Select), list);
      StartsIff(ts, [Sign(Kind.Select)] + list);
    }
    if SpellsValues(ts, columns) {
      var list, next :| (next == Sign(Semicolon) || next == Sign(EndOfFile)) && SelectList(list, columns, next)
        && Starts(ts, [Sign(Kind.Select)] + list) && Current(ts, 1 + |list|) == next;
      StartsIff(ts, [Sign(Kind.Select)] + list);
      AtFirst(ts, 0, Sign(Kind.Select), list);
      ListIsRead(ts, list, columns, 1 + |list|);
    }
  }

  lemma {:induction false} SelectQueryRead(ts: TokenList, columns: seq<Tree>, table: Text, where: Option<Tree>)
    requires |ts| > 1 && Current(ts, 0) == Sign(Kind.Select)
    ensures ParseSelectQuery(ts) == Some(SelectQuery(columns, table, where)) <==> SpellsSelect(ts, columns, table, where)
  {
    if ParseSelectQuery(ts) == Some(SelectQuery(columns, table, where)) {
      SelectIsSpelled(ts, columns, table, where);
    }
    if SpellsSelect(ts, columns, table, where) {
      SelectIsRead(ts, columns, table, where);
    }
  }

  lemma {:induction false} SelectIsSpelled(ts: TokenList, columns: seq<Tree>, table: Text, where: Option<Tree>)
    requires |ts| > 1 && Current(ts, 0) == Sign(Kind.Select)
    requires ParseSelectQuery(ts) == Some(SelectQuery(columns, table, where))
    ensures SpellsSelect(ts, columns, table, where)
  {
    hide At, SelectList, ParseColumns, ParseWhere, Starts, WhereOf, WhereTokens, EndsSelectList, SelectTokens;
    var list, trees, end := ListRead(ts);
    InsideBefore(ts, end);
    InsideBefore(ts, end + 1);
    var w := WhereRead(ts, end + 2);
    hide Current, ParseSelectQuery;
    SelectPartsAt(ts, list, table, w);
  }

  /** The parts of a SELECT one after the other. */
  lemma {:induction false} SelectPartsAt(ts: TokenList, list: seq<Token>, table: Text, w: Option<Cst>)
    requires Current(ts, 0) == Sign(Kind.Select) && At(ts, 1, list) && 3 + |list| + |WhereTokens(w)| < |ts|
    requires Current(ts, 1 + |list|) == Sign(From) && Current(ts, 2 + |list|) == Identifier(table)
    requires At(ts, 3 + |list|, WhereTokens(w))
    ensures Starts(ts, SelectTokens(list, table, w)) && |SelectTokens(list, table, w)| == 3 + |list| + |WhereTokens(w)|
  {
    hide At, WhereTokens, Current, Starts;
    TokenBefore(ts, 2 + |list|, Identifier(table), WhereTokens(w));
    TokenBefore(ts, 1 + |list|, Sign(From), [Identifier(table)] + WhereTokens(w));
    var rest := [Sign(From)] + ([Identifier(table)] + WhereTokens(w));
    AtJoined(ts, 1, list, rest);
    TokenBefore(ts, 0, Sign(Kind.Select), list + rest);
    StartsIff(ts, [Sign(Kind.Select)] + (list + rest));
  }

  lemma {:induction false} SelectParts(ts: TokenList, list: seq<Token>, table: Text, w: Option<Cst>)
    requires Starts(ts, SelectTokens(list, table, w))
    ensures |SelectTokens(list, table, w)| == 3 + |list| + |WhereTokens(w)| < |ts| && At(ts, 1, list)
    ensures Current(ts, 1 + |list|) == Sign(From) && Current(ts, 2 + |list|) == Identifier(table)
    ensures At(ts, 3 + |list|, WhereTokens(w))
  {
    hide At, WhereTokens, Current, Starts;
    var rest := [Sign(From)] + ([Identifier(table)] + WhereTokens(w));
    StartsIff(ts, [Sign(Kind.Select)] + (list + rest));
    AtFirst(ts, 0, Sign(Kind.Select), list + rest);
    AtParts(ts, 1, list, rest);
    AtFirst(ts, 1 + |list|, Sign(From), [Identifier(table)] + WhereTokens(w));
    AtFirst(ts, 2 + |list|, Identifier(table), WhereTokens(w));
  }

  lemma {:induction false} SelectIsRead(ts: TokenList, columns: seq<Tree>, table: Text, where: Option<Tree>)
    requires |ts| > 1 && Current(ts, 0) == Sign(Kind.Select) && SpellsSelect(ts, columns, table, where)
    ensures ParseSelectQuery(ts) == Some(SelectQuery(columns, table, where))
  {
    hide At, SelectList, ParseColumns, ParseWhere, Starts, WhereOf, WhereTokens, SelectTokens;
    var list, w :| SelectList(list, columns, Sign(From)) && Starts(ts, SelectTokens(list, table, w))
      && WhereOf(w, where, Current(ts, |SelectTokens(list, table, w)|));
    SelectParts(ts, list, table, w);
    ListIsRead(ts, list, columns, 1 + |list|);
    WhereIsRead(ts, 3 + |list|, w, where, 3 + |list| + |WhereTokens(w)|);
  }

  // INSERT.

  lemma {:induction false} ValuesAfter(ts: TokenList, pos: nat, table: Text, names: seq<Text>, values: seq<Tree>)
    returns (part: seq<Token>)
    requires pos < |ts| && ReadValues(ts, pos, table, names) == Accepted(InsertQuery(table, names, values))
    ensures At(ts, pos, [Sign(ValuesWord)] + part) && pos + 1 + |part| < |ts|
    ensures ValuePart(part, values, Current(ts, pos + 1 + |part|))
  {
    hide At, ParseValueList, ListOf, ListTokens, ValuesSeparated;
    InsideBefore(ts, pos);
    if Current(ts, pos + 1) != Sign(LeftParen) {
      part := [];
      NothingAt(ts, pos + 1);
    } else {
      InsideBefore(ts, pos + 1);
      var items, trees, end := ValueListRead(ts, pos + 2);
      InsideBefore(ts, end);
      InsideBefore(ts, end + 1);
      part := [Sign(LeftParen)] + (ListTokens(items) + [Sign(RightParen), Sign(Semicolon)]);
      ValuesClosed(ts, pos + 1, items, end);
      hide Current;
    }
    TokenBefore(ts, pos, Sign(ValuesWord), part);
  }

  lemma {:induction false} ValuesClosed(ts: TokenList, pos: nat, items: seq<Item>, end: nat)
    requires Current(ts, pos) == Sign(LeftParen) && At(ts, pos + 1, ListTokens(items))
    requires end == pos + 1 + |ListTokens(items)|
    requires end + 1 < |ts| && Current(ts, end) == Sign(RightParen) && Current(ts, end + 1) == Sign(Semicolon)
    ensures At(ts, pos, [Sign(LeftParen)] + (ListTokens(items) + [Sign(RightParen), Sign(Semicolon)]))
  {
    OneAt(ts, end + 1, Sign(Semicolon));
    hide At, Current, ListTokens;
    TokenBefore(ts, end, Sign(RightParen), [Sign(Semicolon)]);
    assert [Sign(RightParen)] + [Sign(Semicolon)] == [Sign(RightParen), Sign(Semicolon)];
    AtJoined(ts, pos + 1, ListTokens(items), [Sign(RightParen), Sign(Semicolon)]);
    TokenBefore(ts, pos, Sign(LeftParen), ListTokens(items) + [Sign(RightParen), Sign(Semicolon)]);
  }

  lemma {:induction false} ValuesAfterAreRead(ts: TokenList, pos: nat, table: Text, names: seq<Text>, values: seq<Tree>,
                                              part: seq<Token>)
    requires At(ts, pos, [Sign(ValuesWord)] + part) && pos + 1 + |part| < |ts|
    requires ValuePart(part, values, Current(ts, pos + 1 + |part|))
    ensures pos < |ts| && ReadValues(ts, pos, table, names) == Accepted(InsertQuery(table, names, values))
  {
    hide At, ParseValueList, ListOf, ListTokens, ValuesSeparated, Current;
    AtFirst(ts, pos, Sign(ValuesWord), part);
    if part != [] {
      var items :| part == [Sign(LeftParen)] + (ListTokens(items) + [Sign(RightParen), Sign(Semicolon)])
        && ListOf(items, values, Sign(RightParen)) && ValuesSeparated(items);
      var list := ListTokens(items);
      AtFirst(ts, pos + 1, Sign(LeftParen), list + [Sign(RightParen), Sign(Semicolon)]);
      AtParts(ts, pos + 2, list, [Sign(RightParen), Sign(Semicolon)]);
      var end := pos + 2 + |list|;
      assert [Sign(RightParen), Sign(Semicolon)] == [Sign(RightParen)] + [Sign(Semicolon)];
      AtFirst(ts, end, Sign(RightParen), [Sign(Semicolon)]);
      AtFirst(ts, end + 1, Sign(Semicolon), []);
      ValueListIsRead(ts, pos + 2, items, values, end);
    }
  }

  lemma {:induction false} InsertIsSpelled(ts: TokenList, table: Text, names: seq<Text>, values: seq<Tree>)
    requires |ts| > 1 && Current(ts, 0) == Sign(Kind.Insert)
    requires ReadInsert(ts) == Accepted(InsertQuery(table, names, values))
    ensures SpellsInsert(ts, table, names, values)
  {
    hide At, ParseNameList, ReadValues, ValuePart, NamesSeparated, NamesOf, NameTokens, NamesAt, Starts, NamePart;
    InsideBefore(ts, 2);
    var name := Current(ts, 2).name;
    if Current(ts, 3) != Sign(LeftParen) {
      ReadValuesKeeps(ts, 3, name, []);
      var valuePart := ValuesAfter(ts, 3, table, names, values);
      NoNamePart();
      NothingAt(ts, 3);
      InsertSpelled(ts, table, names, values, [], valuePart);
    } else {
      InsideBefore(ts, 3);
      var items, listed, end := NameListRead(ts, 4);
      InsideBefore(ts, end);
      ReadValuesKeeps(ts, end + 1, name, listed);
      var valuePart := ValuesAfter(ts, end + 1, table, names, values);
      NamesClosed(ts, 3, items, listed, end);
      InsertSpelled(ts, table, names, values, [Sign(LeftParen)] + (NameTokens(items) + [Sign(RightParen)]), valuePart);
    }
  }

  lemma NoNamePart()
    ensures NamePart([], [])
  {
  }

  lemma {:induction false} InsertSpelled(ts: TokenList, table: Text, names: seq<Text>, values: seq<Tree>,
                                         namePart: seq<Token>, valuePart: seq<Token>)
    requires Current(ts, 0) == Sign(Kind.Insert) && Current(ts, 1) == Sign(Into) && Current(ts, 2) == Identifier(table)
    requires NamePart(namePart, names) && At(ts, 3, namePart)
    requires At(ts, 3 + |namePart|, [Sign(ValuesWord)] + valuePart) && 4 + |namePart| + |valuePart| < |ts|
    requires ValuePart(valuePart, values, Current(ts, 4 + |namePart| + |valuePart|))
    ensures SpellsInsert(ts, table, names, values)
  {
    hide At, ValuePart, NamePart, Starts, Current;
    var tail := [Sign(ValuesWord)] + valuePart;
    AtJoined(ts, 3, namePart, tail);
    ThreeBefore(ts, Sign(Kind.Insert), Sign(Into), Identifier(table), namePart + tail);
    assert Starts(ts, InsertTokens(table, namePart, valuePart));
  }

  lemma {:induction false} ReadValuesKeeps(ts: TokenList, pos: nat, table: Text, names: seq<Text>)
    requires pos < |ts|
    ensures var r := ReadValues(ts, pos, table, names);
      r.Accepted? ==> r.query.InsertQuery? && r.query.table == table && r.query.names == names
  {
    hide ParseValueList;
  }

  lemma {:induction false} NamesClosed(ts: TokenList, pos: nat, items: seq<NameItem>, names: seq<Text>, end: nat)
    requires Current(ts, pos) == Sign(LeftParen) && NamesAt(ts, pos + 1, items, names, end) && end + 1 < |ts|
    requires Current(ts, end) == Sign(RightParen)
    ensures At(ts, pos, [Sign(LeftParen)] + (NameTokens(items) + [Sign(RightParen)]))
    ensures end == pos + 1 + |NameTokens(items)|
    ensures NamesSeparated(items) ==> NamePart([Sign(LeftParen)] + (NameTokens(items) + [Sign(RightParen)]), names)
  {
    OneAt(ts, end, Sign(RightParen));
    assert At(ts, pos + 1, NameTokens(items)) && end == pos + 1 + |NameTokens(items)| && NamesOf(items, names);
    assert NamesSeparated(items) ==> NamePart([Sign(LeftParen)] + (NameTokens(items) + [Sign(RightParen)]), names);
    hide At, Current, NameTokens, NamesAt, NamesOf;
    AtJoined(ts, pos + 1, NameTokens(items), [Sign(RightParen)]);
    TokenBefore(ts, pos, Sign(LeftParen), NameTokens(items) + [Sign(RightParen)]);
  }

  lemma {:induction false} InsertIsRead(ts: TokenList, table: Text, names: seq<Text>, values: seq<Tree>)
    requires |ts| > 1 && Current(ts, 0) == Sign(Kind.Insert) && SpellsInsert(ts, table, names, values)
    ensures ReadInsert(ts) == Accepted(InsertQuery(table, names, values))
  {
    hide At, ParseNameList, ReadValues, ValuePart, NamePart, Starts;
    hide InsertTokens, Current, ReadInsert;
    var namePart, valuePart :| NamePart(namePart, names) && Starts(ts, InsertTokens(table, namePart, valuePart))
      && ValuePart(valuePart, values, Current(ts, |InsertTokens(table, namePart, valuePart)|));
    InsertIsParts(ts, table, namePart, valuePart);
    ValuesAfterAreRead(ts, 3 + |namePart|, table, names, values, valuePart);
    NamesOrNone(ts, namePart, names);
    hide NamePart;
    InsertParts(ts, table, namePart, names, values);
  }

  lemma {:induction false} InsertIsParts(ts: TokenList, table: Text, namePart: seq<Token>, valuePart: seq<Token>)
    requires Starts(ts, InsertTokens(table, namePart, valuePart))
    ensures |InsertTokens(table, namePart, valuePart)| == 4 + |namePart| + |valuePart| < |ts|
    ensures Current(ts, 1) == Sign(Into) && Current(ts, 2) == Identifier(table) && At(ts, 3, namePart)
    ensures At(ts, 3 + |namePart|, [Sign(ValuesWord)] + valuePart) && Current(ts, 3 + |namePart|) == Sign(ValuesWord)
  {
    hide At, Current, Starts;
    var tail := [Sign(ValuesWord)] + valuePart;
    ThreeAfter(ts, Sign(Kind.Insert), Sign(Into), Identifier(table), namePart + tail);
    AtParts(ts, 3, namePart, tail);
    AtFirst(ts, 3 + |namePart|, Sign(ValuesWord), valuePart);
  }

  lemma {:induction false} InsertParts(ts: TokenList, table: Text, part: seq<Token>, names: seq<Text>, values: seq<Tree>)
    requires |ts| > 1 && Current(ts, 1) == Sign(Into) && Current(ts, 2) == Identifier(table) && 3 + |part| < |ts|
    requires if part == [] then names == [] && Current(ts, 3) == Sign(ValuesWord)
             else Current(ts, 3) == Sign(LeftParen) && 4 < |ts|
                  && ParseNameList(ts, 4) == Some((names, 2 + |part|)) && Current(ts, 2 + |part|) == Sign(RightParen)
    requires ReadValues(ts, 3 + |part|, table, names) == Accepted(InsertQuery(table, names, values))
    ensures ReadInsert(ts) == Accepted(InsertQuery(table, names, values))
  {
    hide ParseNameList, ReadValues;
  }

  lemma {:induction false} NamesOrNone(ts: TokenList, part: seq<Token>, names: seq<Text>)
    requires At(ts, 3, part) && 3 + |part| < |ts| && NamePart(part, names)
    ensures if part == [] then names == []
            else Current(ts, 3) == Sign(LeftParen) && 4 < |ts|
                 && ParseNameList(ts, 4) == Some((names, 2 + |part|)) && Current(ts, 2 + |part|) == Sign(RightParen)
  {
    hide At, ParseNameList, NamesSeparated, NamesOf, NameTokens, Current;
    if part != [] {
      var items :| part == [Sign(LeftParen)] + (NameTokens(items) + [Sign(RightParen)])
        && NamesOf(items, names) && NamesSeparated(items);
      var list := NameTokens(items);
      AtFirst(ts, 3, Sign(LeftParen), list + [Sign(RightParen)]);
      AtParts(ts, 4, list, [Sign(RightParen)]);
      assert [Sign(RightParen)] == [Sign(RightParen)] + [];
      AtFirst(ts, 4 + |list|, Sign(RightParen), []);
      ParenthesisEnds();
      assert NamesAt(ts, 4, items, names, 4 + |list|);
      NameListIsRead(ts, 4, items, names, 4 + |list|);
    }
  }

  lemma ParenthesisEnds()
    ensures EndsList(Sign(RightParen))
  {
  }

  /** The INSERTs that are read, whatever else the model says of INSERT. */
  lemma {:induction false} InsertRead(ts: TokenList, q: Query)
    requires |ts| > 1 && Current(ts, 0) == Sign(Kind.Insert)
    ensures ReadInsert(ts) == Accepted(q) <==> q.InsertQuery? && SpellsInsert(ts, q.table, q.names, q.values)
  {
    hide SpellsInsert, ReadValues, ParseNameList;
    if ReadInsert(ts) == Accepted(q) {
      InsertShape(ts);
      InsertIsSpelled(ts, q.table, q.names, q.values);
    }
    if q.InsertQuery? && SpellsInsert(ts, q.table, q.names, q.values) {
      InsertIsRead(ts, q.table, q.names, q.values);
    }
  }

  lemma {:induction false} InsertShape(ts: TokenList)
    requires |ts| > 1 && ReadInsert(ts).Accepted?
    ensures ReadInsert(ts).query.InsertQuery?
  {
    hide ParseNameList, ParseValueList;
  }

  lemma FirstToken(ts: TokenList, t: Token, rest: seq<Token>)
    ensures Starts(ts, [t] + rest) ==> |ts| > 1 && ts[0] == t
  {
    if Starts(ts, [t] + rest) {
      assert ts[..|[t] + rest|][0] == t;
    }
  }

  lemma {:induction false} SelectFirst(ts: TokenList)
    ensures forall columns, table, where ::
      SpellsSelect(ts, columns, table, where) ==> |ts| > 1 && ts[0] == Sign(Kind.Select)
    ensures forall columns :: SpellsValues(ts, columns) ==> |ts| > 1 && ts[0] == Sign(Kind.Select)
  {
    hide Starts;
    forall list, table, w
      ensures Starts(ts, SelectTokens(list, table, w)) ==> |ts| > 1 && ts[0] == Sign(Kind.Select)
    {
      FirstToken(ts, Sign(Kind.Select), list + ([Sign(From)] + ([Identifier(table)] + WhereTokens(w))));
    }
    forall list
      ensures Starts(ts, [Sign(Kind.Select)] + list) ==> |ts| > 1 && ts[0] == Sign(Kind.Select)
    {
      FirstToken(ts, Sign(Kind.Select), list);
    }
    hide SelectTokens, SelectList, WhereOf, Current;
  }

  lemma {:induction false} InsertFirst(ts: TokenList, table: Text, names: seq<Text>, values: seq<Tree>)
    requires SpellsInsert(ts, table, names, values)
    ensures |ts| > 1 && ts[0] == Sign(Kind.Insert)
  {
    hide Starts, NamePart, ValuePart, Current;
    var namePart, valuePart :| NamePart(namePart, names) && Starts(ts, InsertTokens(table, namePart, valuePart));
    FirstToken(ts, Sign(Kind.Insert),
               [Sign(Into)] + ([Identifier(table)] + (namePart + ([Sign(ValuesWord)] + valuePart))));
  }

  lemma {:induction false} DeleteFirst(ts: TokenList, table: Text, where: Option<Tree>)
    requires SpellsDelete(ts, table, where)
    ensures |ts| > 1 && ts[0] == Sign(Kind.Delete)
  {
    hide Starts, WhereOf, WhereTokens;
    var w :| WhereOf(w, where, Sign(Semicolon)) && Starts(ts, DeleteTokens(table, w));
    FirstToken(ts, Sign(Kind.Delete), [Sign(From)] + ([Identifier(table)] + (WhereTokens(w) + [Sign(Semicolon)])));
  }

  lemma {:induction false} UpdateFirst(ts: TokenList, table: Text, assignments: seq<(Text, Tree)>, where: Option<Tree>)
    requires SpellsUpdate(ts, table, assignments, where)
    ensures |ts| > 1 && ts[0] == Sign(Kind.Update)
  {
    hide Starts, WhereOf, WhereTokens, SetTokens;
    var sets, w :| SetsOf(sets, assignments) && Starts(ts, UpdateTokens(table, sets, w));
    var rest := [Identifier(table)] + ([Sign(Set)] + (SetTokens(sets) + (WhereTokens(w) + [Sign(Semicolon)])));
    assert UpdateTokens(table, sets, w) == [Sign(Kind.Update)] + rest;
    FirstToken(ts, Sign(Kind.Update), rest);
  }

  /** The first token of a statement. */
  lemma {:induction false} SpelledFirst(ts: TokenList, q: Query)
    requires Spells(ts, q)
    ensures |ts| > 1 && ts[0] == match q
      case SelectQuery(_, _, _) => Sign(Kind.Select)
      case ValuesQuery(_) => Sign(Kind.Select)
      case InsertQuery(_, _, _) => Sign(Kind.Insert)
      case DeleteQuery(_, _) => Sign(Kind.Delete)
      case UpdateQuery(_, _, _) => Sign(Kind.Update)
  {
    hide SpellsSelect, SpellsValues, SpellsDelete, SpellsUpdate, SpellsInsert;
    match q
    case InsertQuery(table, names, values) => InsertFirst(ts, table, names, values);
    case DeleteQuery(table, where) => DeleteFirst(ts, table, where);
    case UpdateQuery(table, assignments, where) => UpdateFirst(ts, table, assignments, where);
    case _ => SelectFirst(ts);
  }

  /**
   The parser reads exactly the grammar: among the token lists whose parsing is modelled, those that
   spell a query, and as that query. Every other list is a syntax error.
   */
  lemma {:induction false} ParserReadsTheGrammar(ts: TokenList, q: Query)
    requires IsQuery(ts)
    ensures ParseQuery(ts) == Some(q) <==> Spells(ts, q)
  {
    hide ParseSelectQuery, ParseDeleteQuery, ParseUpdateQuery, ReadInsert;
    hide SpellsSelect, SpellsValues, SpellsDelete, SpellsUpdate, SpellsInsert;
    if Spells(ts, q) {
      SpelledFirst(ts, q);
    }
    if |ts| > 1 {
      assert Current(ts, 0) == ts[0];
      QueryShape(ts);
      match q
      case SelectQuery(columns, table, where) =>
        if ts[0] == Sign(Kind.Select) { SelectQueryRead(ts, columns, table, where); }
      case ValuesQuery(columns) => if ts[0] == Sign(Kind.Select) { ValuesQueryRead(ts, columns); }
      case InsertQuery(table, names, values) => if ts[0] == Sign(Kind.Insert) { InsertRead(ts, q); }
      case DeleteQuery(table, where) => if ts[0] == Sign(Kind.Delete) { DeleteRead(ts, table, where); }
      case UpdateQuery(table, assignments, where) =>
        if ts[0] == Sign(Kind.Update) { UpdateRead(ts, table, assignments, where); }
    }
  }

  lemma {:induction false} QueryShape(ts: TokenList)
    requires |ts| > 1
    ensures ParseSelectQuery(ts).Some? ==>
      ParseSelectQuery(ts).value.SelectQuery? || ParseSelectQuery(ts).value.ValuesQuery?
    ensures ParseDeleteQuery(ts).Some? ==> ParseDeleteQuery(ts).value.DeleteQuery?
    ensures ParseUpdateQuery(ts).Some? ==> ParseUpdateQuery(ts).value.UpdateQuery?
    ensures ReadInsert(ts).Accepted? ==> ReadInsert(ts).query.InsertQuery?
  {
    hide ParseColumns, ParseWhere, ParseAssignments, ParseNameList, ParseValueList;
  }

  // What is printed is spelled.

  lemma StopEnds(c: Cst)
    ensures forall t :: IsStop(t) ==> EndsBefore(c, t)
  {
    forall t | IsStop(t)
      ensures EndsBefore(c, t)
    {
      StopEndsExpression(c, t);
    }
  }

  lemma {:induction false} PrintedList(columns: seq<Tree>, next: Token) returns (items: seq<Item>)
    requires columns != [] && (forall k :: 0 <= k < |columns| ==> Printable(columns[k])) && IsStop(next)
    ensures ListTokens(items) == PrintColumns(columns) && ListOf(items, columns, next) && |items| == |columns|
    ensures forall i :: 0 <= i < |items| ==> items[i].commas == if i == |items| - 1 then 0 else 1
  {
    hide Yield, Print, EndsBefore;
    var c := Print(columns[0], 0);
    StopEnds(c);
    NoComma();
    if |columns| == 1 {
      items := [Item(c, 0)];
      assert items[1..] == [] && columns[1..] == [] && ([] + [next])[0] == next;
      assert Yield(c) + ([] + []) == Yield(c);
    } else {
      var rest := PrintedList(columns[1..], next);
      items := [Item(c, 1)] + rest;
      assert items[1..] == rest;
    }
  }

  lemma {:induction false} PrintedSets(assignments: seq<(Text, Tree)>) returns (sets: seq<(Text, Cst)>)
    requires assignments != [] && forall k :: 0 <= k < |assignments| ==> Printable(assignments[k].1)
    ensures SetsOf(sets, assignments) && SetTokens(sets) == PrintAssignments(assignments)
  {
    hide Yield, Print;
    var a := assignments[0];
    if |assignments| == 1 {
      sets := [(a.0, Print(a.1, 0))];
    } else {
      var rest := PrintedSets(assignments[1..]);
      sets := [(a.0, Print(a.1, 0))] + rest;
      assert sets[1..] == rest;
    }
  }

  lemma PrintedWhere(where: Option<Tree>) returns (w: Option<Cst>)
    requires where.Some? ==> Printable(where.value)
    ensures WhereTokens(w) == PrintWhere(where) && WhereOf(w, where, Sign(Semicolon))
  {
    hide Yield, EndsBefore, IsStop;
    SemicolonOrWhereStops();
    w := if where.Some? then Some(Print(where.value, 0)) else None;
    if where.Some? {
      StopEndsExpression(w.value, Sign(Semicolon));
    }
  }

  lemma {:induction false} PrintedNames(names: seq<Text>) returns (items: seq<NameItem>)
    requires names != []
    ensures NameTokens(items) == PrintNames(names) && NamesOf(items, names) && NamesSeparated(items)
    ensures forall i :: 0 <= i < |items| ==> items[i].commas == if i == |items| - 1 then 0 else 1
  {
    NoComma();
    if |names| == 1 {
      items := [NameItem(names[0], 0)];
      assert items[1..] == [];
    } else {
      var rest := PrintedNames(names[1..]);
      items := [NameItem(names[0], 1)] + rest;
      assert items[1..] == rest;
    }
  }

  lemma StartsWith(ts: TokenList, tokens: seq<Token>, rest: seq<Token>)
    requires ts == tokens + rest && rest != []
    ensures Starts(ts, tokens) && Current(ts, |tokens|) == rest[0]
  {
  }

  lemma Regrouped(a: seq<Token>, b: seq<Token>, c: seq<Token>)
    ensures a + (b + c) == a + b + c
  {
  }

  lemma SelectIsPrinted(columns: seq<Tree>, table: Text, where: Option<Tree>)
    requires PrintableQuery(SelectQuery(columns, table, where))
    ensures Spells(PrintQuery(SelectQuery(columns, table, where)), SelectQuery(columns, table, where))
  {
    var ts := PrintQuery(SelectQuery(columns, table, where));
    var list := PrintSelectList(columns);
    ListIsPrinted(columns, Sign(From));
    var w := PrintedWhere(where);
    hide PrintWhere, PrintSelectList, WhereTokens, WhereOf, SelectList, Starts, PrintQuery;
    PrintedSelect(columns, table, where);
    var cond := WhereTokens(w);
    Regrouped([Identifier(table)], cond, CLOSE);
    Regrouped([Sign(From)], [Identifier(table)] + cond, CLOSE);
    Regrouped(list, [Sign(From)] + ([Identifier(table)] + cond), CLOSE);
    Regrouped([Sign(Kind.Select)], list + ([Sign(From)] + ([Identifier(table)] + cond)), CLOSE);
    StartsWith(ts, SelectTokens(list, table, w), CLOSE);
  }

  lemma PrintedSelect(columns: seq<Tree>, table: Text, where: Option<Tree>)
    requires PrintableQuery(SelectQuery(columns, table, where))
    ensures PrintQuery(SelectQuery(columns, table, where)) ==
      [Sign(Kind.Select)] + (PrintSelectList(columns) + ([Sign(From)] + ([Identifier(table)] + (PrintWhere(where) + CLOSE))))
  {
  }

  lemma ListIsPrinted(columns: seq<Tree>, next: Token)
    requires forall k :: 0 <= k < |columns| ==> Printable(columns[k])
    requires next == Sign(From) || next == Sign(Semicolon)
    ensures SelectList(PrintSelectList(columns), columns, next)
  {
    hide ListOf, ListTokens, PrintColumns;
    if columns != [] {
      var items := PrintedList(columns, next);
      assert AtMostOneComma(items);
    }
  }

  lemma ValuesArePrinted(columns: seq<Tree>)
    requires PrintableQuery(ValuesQuery(columns))
    ensures Spells(PrintQuery(ValuesQuery(columns)), ValuesQuery(columns))
  {
    var ts, list := PrintQuery(ValuesQuery(columns)), PrintSelectList(columns);
    ListIsPrinted(columns, Sign(Semicolon));
    hide PrintSelectList, SelectList, Starts;
    Regrouped([Sign(Kind.Select)], list, CLOSE);
    StartsWith(ts, [Sign(Kind.Select)] + list, CLOSE);
  }

  lemma DeleteIsPrinted(table: Text, where: Option<Tree>)
    requires PrintableQuery(DeleteQuery(table, where))
    ensures Spells(PrintQuery(DeleteQuery(table, where)), DeleteQuery(table, where))
  {
    var ts := PrintQuery(DeleteQuery(table, where));
    var w := PrintedWhere(where);
    hide PrintWhere, WhereTokens, WhereOf, Starts;
    var cond, end := WhereTokens(w) + [Sign(Semicolon)], [Sign(EndOfFile)];
    assert CLOSE == [Sign(Semicolon)] + end;
    Regrouped(WhereTokens(w), [Sign(Semicolon)], end);
    Regrouped([Identifier(table)], cond, end);
    Regrouped([Sign(From)], [Identifier(table)] + cond, end);
    Regrouped([Sign(Kind.Delete)], [Sign(From)] + ([Identifier(table)] + cond), end);
    StartsWith(ts, DeleteTokens(table, w), end);
  }

  lemma UpdateIsPrinted(table: Text, assignments: seq<(Text, Tree)>, where: Option<Tree>)
    requires PrintableQuery(UpdateQuery(table, assignments, where))
    ensures Spells(PrintQuery(UpdateQuery(table, assignments, where)), UpdateQuery(table, assignments, where))
  {
    var ts := PrintQuery(UpdateQuery(table, assignments, where));
    var w := PrintedWhere(where);
    var sets := PrintedSets(assignments);
    hide PrintWhere, WhereTokens, WhereOf, Starts, SetTokens, PrintAssignments;
    var cond, end := WhereTokens(w) + [Sign(Semicolon)], [Sign(EndOfFile)];
    assert CLOSE == [Sign(Semicolon)] + end;
    Regrouped(WhereTokens(w), [Sign(Semicolon)], end);
    Regrouped(SetTokens(sets), cond, end);
    Regrouped([Sign(Set)], SetTokens(sets) + cond, end);
    Regrouped([Identifier(table)], [Sign(Set)] + (SetTokens(sets) + cond), end);
    Regrouped([Sign(Kind.Update)], [Identifier(table)] + ([Sign(Set)] + (SetTokens(sets) + cond)), end);
    StartsWith(ts, UpdateTokens(table, sets, w), end);
  }

  lemma NamePartIsPrinted(names: seq<Text>)
    ensures NamePart(PrintNameList(names), names)
  {
    hide NameTokens, PrintNames;
    if names != [] {
      var items := PrintedNames(names);
    }
  }

  /** The values as they are printed, and what comes after them. */
  lemma ValuePartIsPrinted(values: seq<Tree>) returns (part: seq<Token>, rest: seq<Token>)
    requires forall k :: 0 <= k < |values| ==> Printable(values[k])
    ensures PrintValues(values) == [Sign(ValuesWord)] + part + rest && rest != [] && ValuePart(part, values, rest[0])
  {
    hide ListOf, ListTokens, PrintColumns;
    if values == [] {
      part, rest := [], CLOSE;
      assert PrintValueList(values) + CLOSE == CLOSE;
      assert [Sign(ValuesWord)] + part + rest == [Sign(ValuesWord)] + CLOSE;
    } else {
      ParenthesisStops();
      var items := PrintedList(values, Sign(RightParen));
      var list := PrintColumns(values);
      part, rest := [Sign(LeftParen)] + (list + [Sign(RightParen), Sign(Semicolon)]), [Sign(EndOfFile)];
      assert PrintValueList(values) + CLOSE == part + rest;
      Regrouped([Sign(ValuesWord)], part, rest);
      assert ValuesSeparated(items);
    }
  }

  lemma ParenthesisStops()
    ensures IsStop(Sign(RightParen))
  {
  }

  lemma InsertIsPrinted(table: Text, names: seq<Text>, values: seq<Tree>)
    requires PrintableQuery(InsertQuery(table, names, values))
    ensures Spells(PrintQuery(InsertQuery(table, names, values)), InsertQuery(table, names, values))
  {
    var ts := PrintQuery(InsertQuery(table, names, values));
    NamePartIsPrinted(names);
    var part, rest := ValuePartIsPrinted(values);
    var list := PrintNameList(names);
    hide PrintNameList, PrintValues, NamePart, ValuePart, Starts;
    var tail := [Sign(ValuesWord)] + part;
    Regrouped(list, tail, rest);
    Regrouped([Identifier(table)], list + tail, rest);
    Regrouped([Sign(Into)], [Identifier(table)] + (list + tail), rest);
    Regrouped([Sign(Kind.Insert)], [Sign(Into)] + ([Identifier(table)] + (list + tail)), rest);
    StartsWith(ts, InsertTokens(table, list, part), rest);
  }

  /** Every printable query is read back from its own tokens. */
  lemma QueryRoundTrip(q: Query)
    requires PrintableQuery(q)
    ensures IsQuery(PrintQuery(q)) && ParseQuery(PrintQuery(q)) == Some(q)
  {
    var ts := PrintQuery(q);
    assert Spells(ts, q) by {
      match q
      case SelectQuery(columns, table, where) => SelectIsPrinted(columns, table, where);
      case ValuesQuery(columns) => ValuesArePrinted(columns);
      case InsertQuery(table, names, values) => InsertIsPrinted(table, names, values);
      case DeleteQuery(table, where) => DeleteIsPrinted(table, where);
      case UpdateQuery(table, assignments, where) => UpdateIsPrinted(table, assignments, where);
    }
    hide PrintQuery, PrintableQuery;
    SpelledFirst(ts, q);
    if q.InsertQuery? {
      SpelledInsert(ts, q);
    }
    hide Spells, ReadInsert, ParseQuery;
    ParserReadsTheGrammar(ts, q);
  }

  lemma SpelledInsert(ts: TokenList, q: Query)
    requires Spells(ts, q) && q.InsertQuery? && |ts| > 1 && ts[0] == Sign(Kind.Insert)
    ensures ReadInsert(ts) == Accepted(q)
  {
    hide SpellsInsert, ReadInsert;
    assert Current(ts, 0) == ts[0];
    InsertRead(ts, q);
  }
}
