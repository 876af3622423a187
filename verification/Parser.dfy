/**
 `Parser`: the recursive-descent methods, which move a position and append nodes to the arena. Each
 expression method is proved against the parser function: it succeeds exactly when the function
 does, stops where it stops, and leaves the nodes of that expression, in post-order, at the end of
 the arena. The statement methods return indices into that arena which stand for the query the
 tokens spell.
 */
module Parsers {
  import opened Values
  import opened Tokens
  import opened Expressions
  import opened Grammar
  import opened QueryGrammar
  import opened Readings
  import opened Statements
  import opened Wrappers

  /** From `start` a whole expression has been read, and `index` stands for it; or there was none. */
  ghost predicate ReadTree(ts: TokenList, start: nat, arena: Arena, all: Arena, pos: nat, index: int)
    requires start < |ts|
  {
    match ParseTree(ts, start)
    case Some((t, end)) =>
      pos == end && Grown(arena, all) && 0 <= index < |all| && TreeAt(all, index) == t
    case None => index == -1
  }

  lemma ReadMeansTree(ts: TokenList, start: nat, arena: Arena, all: Arena, pos: nat, index: int)
    requires start < |ts| && ChildrenFirst(arena)
    requires Read(ts, start, 0, arena, all, pos, index)
    ensures ReadTree(ts, start, arena, all, pos, index)
    ensures index == -1 <==> ParseTree(ts, start).None?
  {
    match ParseAt(ts, start, 0)
    case None =>
    case Some((c, end)) =>
      PostOrderDecodes(arena, Meaning(c));
  }

  class Parser {
    const tokens: TokenList
    var position: nat
    var expressions: Arena
    var error: bool

    constructor (tokens: TokenList)
      ensures this.tokens == tokens && position == 0 && expressions == [] && !error
    {
      this.tokens := tokens;
      position := 0;
      expressions := [];
      error := false;
    }

    function Here(): (t: Token)
      reads this`position
      ensures t == Current(tokens, position)
    {
      if position >= |tokens| - 1 then tokens[|tokens| - 1] else tokens[position]
    }

    function Peek(): (t: Token)
      reads this`position
      ensures t == Current(tokens, position + 1)
    {
      if position + 1 >= |tokens| - 1 then tokens[|tokens| - 1] else tokens[position + 1]
    }

    method Advance()
      modifies this`position
      ensures position == old(position) + 1
    {
      position := position + 1;
    }

    method Push(e: Expression) returns (index: int)
      modifies this`expressions
      ensures expressions == old(expressions) + [e] && index == |old(expressions)|
    {
      index := |expressions|;
      expressions := expressions + [e];
    }

    method ParseExpression() returns (index: int)
      requires position < |tokens|
      modifies this`position, this`expressions, this`error
      ensures Read(tokens, old(position), 0, old(expressions), expressions, position, index)
      ensures index != -1 ==> error == old(error)
      decreases |tokens| - position, 8
    {
      hide *;
      ghost var start, arena := position, expressions;
      var left := ParseAnd();
      if left == -1 {
        LoopNeverStarts(tokens, start, 0, arena, expressions, position);
        return -1;
      }
      ghost var c := LoopStarts(tokens, start, 0, arena, expressions, position, left);
      while Here() == Sign(Or)
        invariant Reading(tokens, start, 0, arena, expressions, position, c, left) && left >= 0
        invariant start < position < |tokens| && error == old(error)
        decreases |tokens| - position
      {
        ghost var at, first := position, expressions;
        SignsOfLevels(tokens, at);
        OperatorFits(tokens, at, 0);
        Advance();
        var right := ParseAnd();
        if right == -1 {
          LoopBreaks(tokens, start, 0, arena, first, at, c, left, OR, expressions, position);
          return -1;
        }
        c := LoopTurns(tokens, start, 0, arena, first, at, c, left, OR, expressions, position, right);
        left := Push(Binary(OR, left, right));
      }
      SignsOfLevels(tokens, position);
      LoopEnds(tokens, start, 0, arena, expressions, position, c, left);
      return left;
    }

    method ParseAnd() returns (index: int)
      requires position < |tokens|
      modifies this`position, this`expressions, this`error
      ensures Read(tokens, old(position), 1, old(expressions), expressions, position, index)
      ensures index != -1 ==> error == old(error)
      decreases |tokens| - position, 7
    {
      hide *;
      ghost var start, arena := position, expressions;
      var left := ParseNot();
      if left == -1 {
        LoopNeverStarts(tokens, start, 1, arena, expressions, position);
        return -1;
      }
      ghost var c := LoopStarts(tokens, start, 1, arena, expressions, position, left);
      while Here() == Sign(And)
        invariant Reading(tokens, start, 1, arena, expressions, position, c, left) && left >= 0
        invariant start < position < |tokens| && error == old(error)
        decreases |tokens| - position
      {
        ghost var at, first := position, expressions;
        SignsOfLevels(tokens, at);
        OperatorFits(tokens, at, 1);
        Advance();
        var right := ParseNot();
        if right == -1 {
          LoopBreaks(tokens, start, 1, arena, first, at, c, left, AND, expressions, position);
          return -1;
        }
        c := LoopTurns(tokens, start, 1, arena, first, at, c, left, AND, expressions, position, right);
        left := Push(Binary(AND, left, right));
      }
      SignsOfLevels(tokens, position);
      LoopEnds(tokens, start, 1, arena, expressions, position, c, left);
      return left;
    }

    method ParseNot() returns (index: int)
      requires position < |tokens|
      modifies this`position, this`expressions, this`error
      ensures Read(tokens, old(position), 2, old(expressions), expressions, position, index)
      ensures index != -1 ==> error == old(error)
      decreases |tokens| - position, 6
    {
      hide Read;
      ghost var start, arena := position, expressions;
      if Here() == Sign(Not) {
        Advance();
        var operand := ParseComparison();
        SignedRead(tokens, start, 2, arena, expressions, position, operand);
        if operand == -1 {
          return -1;
        }
        index := Push(Unary(NOT, operand));
        return;
      }
      index := ParseComparison();
      UnsignedRead(tokens, start, 2, arena, expressions, position, index);
    }

    /** What the comparison loop looks for. */
    function ComparisonHere(): (op: Option<BinaryOperator>)
      reads this`position
      ensures op == AtLevel(tokens, position, 3)
    {
      if Here() == Sign(Equal) then Some(EQUAL)
      else if Here() == Sign(NotEqual) then Some(NOT_EQUAL)
      else if Here() == Sign(LessThan) then Some(LESS_THAN)
      else if Here() == Sign(LessEq) then Some(LESS_THAN_OR_EQUAL)
      else if Here() == Sign(GreaterThan) then Some(GREATER_THAN)
      else if Here() == Sign(GreaterEq) then Some(GREATER_THAN_OR_EQUAL)
      else if Here() == Sign(Is) then (if Peek() == Sign(Not) then Some(IS_NOT) else Some(IS))
      else None
    }

    method ParseComparison() returns (index: int)
      requires position < |tokens|
      modifies this`position, this`expressions, this`error
      ensures Read(tokens, old(position), 3, old(expressions), expressions, position, index)
      ensures index != -1 ==> error == old(error)
      decreases |tokens| - position, 5
    {
      hide *;
      ghost var start, arena := position, expressions;
      var left := ParseAddSubtract();
      if left == -1 {
        LoopNeverStarts(tokens, start, 3, arena, expressions, position);
        return -1;
      }
      ghost var c := LoopStarts(tokens, start, 3, arena, expressions, position, left);
      while ComparisonHere().Some?
        invariant Reading(tokens, start, 3, arena, expressions, position, c, left) && left >= 0
        invariant start < position < |tokens| && error == old(error)
        decreases |tokens| - position
      {
        ghost var at, first := position, expressions;
        var op := ComparisonHere().value;
        OperatorFits(tokens, at, 3);
        if op == IS_NOT {
          Advance();
        }
        Advance();
        assert position == at + |OperatorTokens(op)|;
        var right := ParseAddSubtract();
        if right == -1 {
          error := true;
          LoopBreaks(tokens, start, 3, arena, first, at, c, left, op, expressions, position);
          return -1;
        }
        c := LoopTurns(tokens, start, 3, arena, first, at, c, left, op, expressions, position, right);
        left := Push(Binary(op, left, right));
      }
      LoopEnds(tokens, start, 3, arena, expressions, position, c, left);
      return left;
    }

    method ParseAddSubtract() returns (index: int)
      requires position < |tokens|
      modifies this`position, this`expressions, this`error
      ensures Read(tokens, old(position), 4, old(expressions), expressions, position, index)
      ensures index != -1 ==> error == old(error)
      decreases |tokens| - position, 4
    {
      hide *;
      ghost var start, arena := position, expressions;
      var left := ParseMultiplyDivide();
      if left == -1 {
        LoopNeverStarts(tokens, start, 4, arena, expressions, position);
        return -1;
      }
      ghost var c := LoopStarts(tokens, start, 4, arena, expressions, position, left);
      while Here() == Sign(Plus) || Here() == Sign(Minus)
        invariant Reading(tokens, start, 4, arena, expressions, position, c, left) && left >= 0
        invariant start < position < |tokens| && error == old(error)
        decreases |tokens| - position
      {
        ghost var at, first := position, expressions;
        SignsOfLevels(tokens, at);
        var op := if Here() == Sign(Plus) then ADD else SUBTRACT;
        OperatorFits(tokens, at, 4);
        Advance();
        var right := ParseMultiplyDivide();
        if right == -1 {
          LoopBreaks(tokens, start, 4, arena, first, at, c, left, op, expressions, position);
          return -1;
        }
        c := LoopTurns(tokens, start, 4, arena, first, at, c, left, op, expressions, position, right);
        left := Push(Binary(op, left, right));
      }
      SignsOfLevels(tokens, position);
      LoopEnds(tokens, start, 4, arena, expressions, position, c, left);
      return left;
    }

    method ParseMultiplyDivide() returns (index: int)
      requires position < |tokens|
      modifies this`position, this`expressions, this`error
      ensures Read(tokens, old(position), 5, old(expressions), expressions, position, index)
      ensures index != -1 ==> error == old(error)
      decreases |tokens| - position, 3
    {
      hide *;
      ghost var start, arena := position, expressions;
      var left := ParseUnary();
      if left == -1 {
        LoopNeverStarts(tokens, start, 5, arena, expressions, position);
        return -1;
      }
      ghost var c := LoopStarts(tokens, start, 5, arena, expressions, position, left);
      while Here() == Sign(Asterisk) || Here() == Sign(Slash)
        invariant Reading(tokens, start, 5, arena, expressions, position, c, left) && left >= 0
        invariant start < position < |tokens| && error == old(error)
        decreases |tokens| - position
      {
        ghost var at, first := position, expressions;
        SignsOfLevels(tokens, at);
        var op := if Here() == Sign(Asterisk) then MULTIPLY else DIVIDE;
        OperatorFits(tokens, at, 5);
        Advance();
        var right := ParseUnary();
        if right == -1 {
          LoopBreaks(tokens, start, 5, arena, first, at, c, left, op, expressions, position);
          return -1;
        }
        c := LoopTurns(tokens, start, 5, arena, first, at, c, left, op, expressions, position, right);
        left := Push(Binary(op, left, right));
      }
      SignsOfLevels(tokens, position);
      LoopEnds(tokens, start, 5, arena, expressions, position, c, left);
      return left;
    }

    method ParseUnary() returns (index: int)
      requires position < |tokens|
      modifies this`position, this`expressions, this`error
      ensures Read(tokens, old(position), 6, old(expressions), expressions, position, index)
      ensures index != -1 ==> error == old(error)
      decreases |tokens| - position, 2
    {
      hide Read;
      ghost var start, arena := position, expressions;
      if Here() == Sign(Minus) {
        Advance();
        var operand := ParsePrimary();
        SignedRead(tokens, start, 6, arena, expressions, position, operand);
        if operand == -1 {
          return -1;
        }
        index := Push(Unary(NEGATE, operand));
        return;
      }
      index := ParsePrimary();
      UnsignedRead(tokens, start, 6, arena, expressions, position, index);
    }

    method ParsePrimary() returns (index: int)
      requires position < |tokens|
      modifies this`position, this`expressions, this`error
      ensures Read(tokens, old(position), 7, old(expressions), expressions, position, index)
      ensures index != -1 ==> error == old(error)
      decreases |tokens| - position, 1
    {
      PrimaryLevel(tokens, position);
      var t := Here();
      if t.Identifier? {
        if Peek() != Sign(Dot) {
          index := Push(Leaf(ColumnRef("", t.name)));
          Advance();
          return;
        }
        Advance();
        if !Peek().Identifier? {
          error := true;
          return -1;
        }
        Advance();
        index := Push(Leaf(ColumnRef(t.name, Here().name)));
        Advance();
      } else if IsLiteral(t) {
        index := Push(Leaf(AtomOf(t)));
        Advance();
      } else if t == Sign(LeftParen) {
        Advance();
        index := ParseExpression();
        if index == -1 {
          return -1;
        }
        if Here() != Sign(RightParen) {
          error := true;
          return -1;
        }
        Advance();
      } else {
        return -1;
      }
    }

    /** An expression that has to be there. */
    method RequireExpression() returns (index: int)
      requires position < |tokens| && ChildrenFirst(expressions)
      modifies this`position, this`expressions, this`error
      ensures ReadTree(tokens, old(position), old(expressions), expressions, position, index)
      ensures index == -1 <==> ParseTree(tokens, old(position)).None?
      ensures error == (old(error) || index == -1)
    {
      hide ParseTree, ReadTree;
      ghost var start, arena := position, expressions;
      index := ParseExpression();
      ReadMeansTree(tokens, start, arena, expressions, position, index);
      if index == -1 {
        error := true;
      }
    }

    /** The WHERE clause of three kinds of statement. */
    method ParseWhereClause() returns (ok: bool, where: int)
      requires position < |tokens| && ChildrenFirst(expressions)
      modifies this`position, this`expressions, this`error
      ensures ok == ParseWhere(tokens, old(position)).Some?
      ensures error == (old(error) || !ok)
      ensures ok ==>
        && Grown(old(expressions), expressions)
        && WhereInside(where, expressions)
        && Some((WhereAt(expressions, where), position)) == ParseWhere(tokens, old(position))
    {
      if Here() != Sign(Where) {
        return true, -1;
      }
      Advance();
      where := RequireExpression();
      ok := where != -1;
    }

    method Consume(kind: Kind) returns (ok: bool)
      modifies this`position, this`error
      ensures ok == (Current(tokens, old(position)) == Sign(kind))
      ensures position == if ok then old(position) + 1 else old(position)
      ensures error == (old(error) || !ok)
    {
      ok := Here() == Sign(kind);
      if ok {
        Advance();
      } else {
        error := true;
      }
    }

    method ConsumeIdentifier() returns (name: Option<Text>)
      modifies this`position, this`error
      ensures name == if Current(tokens, old(position)).Identifier?
        then Some(Current(tokens, old(position)).name) else None
      ensures position == if name.Some? then old(position) + 1 else old(position)
      ensures error == (old(error) || name.None?)
    {
      if Here().Identifier? {
        name := Some(Here().name);
        Advance();
      } else {
        name := None;
        error := true;
      }
    }

    method ParseSelectList() returns (columns: seq<nat>)
      requires position < |tokens| && expressions == [] && !error
      modifies this`position, this`expressions, this`error
      ensures error <==> ParseColumns(tokens, old(position), []).None?
      ensures !error ==>
        && ChildrenFirst(expressions)
        && IndicesInside(columns, expressions)
        && Some((TreesAt(expressions, columns), position)) == ParseColumns(tokens, old(position), [])
    {
      ghost var start := position;
      columns := [];
      while !EndsSelectList(Here())
        invariant position < |tokens| && ChildrenFirst(expressions) && IndicesInside(columns, expressions)
        invariant ParseColumns(tokens, start, [])
               == ParseColumns(tokens, position, TreesAt(expressions, columns))
        invariant !error
        decreases |tokens| - position
      {
        ghost var arena, at := expressions, position;
        var index := RequireExpression();
        if index == -1 {
          return;
        }
        TreesAtGrows(arena, expressions, columns);
        assert TreesAt(expressions, columns + [index]) == TreesAt(arena, columns) + [TreeAt(expressions, index)];
        columns := columns + [index];
        if Here() == Sign(Comma) {
          Advance();
        }
      }
    }

    method ParseSelect() returns (r: Option<ParseResult>)
      requires position == 0 && expressions == [] && !error && |tokens| > 1
      modifies this`position, this`expressions, this`error
      ensures error <==> r.None?
      ensures Represents(r, ParseSelectQuery(tokens))
    {
      Advance();
      var columns := [];
      if Here() == Sign(Asterisk) {
        Advance();
        if !EndsSelectList(Here()) {
          error := true;
          return None;
        }
      } else {
        columns := ParseSelectList();
        if error {
          return None;
        }
      }
      if Here() != Sign(From) {
        return Some(ParseResult(expressions, SelectWithoutFrom(columns)));
      }
      Advance();
      var table := ConsumeIdentifier();
      if table.None? {
        return None;
      }
      ghost var arena := expressions;
      var ok, where := ParseWhereClause();
      if !ok {
        return None;
      }
      TreesAtGrows(arena, expressions, columns);
      r := Some(ParseResult(expressions, Statement.Select(columns, table.value, where)));
    }

    /** The names between the parentheses. */
    method ParseInsertNames() returns (names: seq<Text>)
      requires position < |tokens| && ParseNameList(tokens, position).Some?
      modifies this`position
      ensures Some((names, position)) == ParseNameList(tokens, old(position))
    {
      ghost var start := position;
      names := [Here().name];
      Advance();
      while !EndsList(Here())
        invariant position < |tokens| && ParseNames(tokens, position, names).Some?
        invariant ParseNameList(tokens, start) == ParseNames(tokens, position, names)
        decreases |tokens| - position
      {
        if Here() == Sign(Comma) {
          Advance();
        }
        names := names + [Here().name];
        Advance();
        if Here() == Sign(Comma) {
          Advance();
        }
      }
    }

    /** One expression more, which is there. */
    method ParseOneValue(values: seq<nat>) returns (more: seq<nat>)
      requires position < |tokens| && ChildrenFirst(expressions) && IndicesInside(values, expressions)
      requires ParseTree(tokens, position).Some?
      modifies this`position, this`expressions, this`error
      ensures error == old(error) && ChildrenFirst(expressions) && IndicesInside(more, expressions)
      ensures position == ParseTree(tokens, old(position)).value.1
      ensures TreesAt(expressions, more) ==
        TreesAt(old(expressions), values) + [ParseTree(tokens, old(position)).value.0]
    {
      hide ParseTree;
      ghost var start, arena := position, expressions;
      var index := ParseExpression();
      ReadMeansTree(tokens, start, arena, expressions, position, index);
      TreesAtGrows(arena, expressions, values);
      more := values + [index];
    }

    /** The values between the parentheses. */
    method ParseInsertValues() returns (values: seq<nat>)
      requires position < |tokens| && expressions == [] && ParseValueList(tokens, position).Some?
      modifies this`position, this`expressions, this`error
      ensures error == old(error) && ChildrenFirst(expressions) && IndicesInside(values, expressions)
      ensures Some((TreesAt(expressions, values), position)) == ParseValueList(tokens, old(position))
    {
      hide ParseTree;
      ghost var start := position;
      values := ParseOneValue([]);
      assert TreesAt(expressions, values) == [ParseTree(tokens, start).value.0];
      if Here() == Sign(Comma) {
        Advance();
        while !EndsList(Here())
          invariant position < |tokens| && ChildrenFirst(expressions) && IndicesInside(values, expressions)
          invariant ParseValues(tokens, position, TreesAt(expressions, values)).Some?
          invariant ParseValueList(tokens, start) == ParseValues(tokens, position, TreesAt(expressions, values))
          invariant error == old(error)
          decreases |tokens| - position
        {
          if Here() == Sign(Comma) {
            Advance();
          }
          values := ParseOneValue(values);
          if Here() == Sign(Comma) {
            Advance();
          }
        }
      }
    }

    /** From VALUES to the end of the statement. */
    method ParseValuesClause(table: Text, names: seq<Text>) returns (r: Option<ParseResult>)
      requires position < |tokens| && expressions == [] && !error
      requires ReadValues(tokens, position, table, names) != BadList
      modifies this`position, this`expressions, this`error
      ensures error <==> r.None?
      ensures Represents(r, QueryRead(ReadValues(tokens, old(position), table, names)))
    {
      hide ParseValueList;
      var ok := Consume(ValuesWord);
      if !ok {
        return None;
      }
      var values := [];
      if Here() == Sign(LeftParen) {
        Advance();
        values := ParseInsertValues();
        ok := Consume(RightParen);
        if !ok {
          return None;
        }
        ok := Consume(Semicolon);
        if !ok {
          return None;
        }
      }
      r := Some(ParseResult(expressions, Statement.Insert(table, names, values)));
    }

    method ParseInsert() returns (r: Option<ParseResult>)
      requires position == 0 && expressions == [] && !error && |tokens| > 1 && ReadInsert(tokens) != BadList
      modifies this`position, this`expressions, this`error
      ensures error <==> r.None?
      ensures Represents(r, ParseInsertQuery(tokens))
    {
      hide ParseNameList, ReadValues;
      Advance();
      var ok := Consume(Into);
      if !ok {
        return None;
      }
      var table := ConsumeIdentifier();
      if table.None? {
        return None;
      }
      var names := [];
      if Here() == Sign(LeftParen) {
        Advance();
        names := ParseInsertNames();
        ok := Consume(RightParen);
        if !ok {
          return None;
        }
      }
      r := ParseValuesClause(table.value, names);
    }

    method ParseDelete() returns (r: Option<ParseResult>)
      requires position == 0 && expressions == [] && !error && |tokens| > 1
      modifies this`position, this`expressions, this`error
      ensures error <==> r.None?
      ensures Represents(r, ParseDeleteQuery(tokens))
    {
      Advance();
      var ok := Consume(From);
      if !ok {
        return None;
      }
      var table := ConsumeIdentifier();
      if table.None? {
        return None;
      }
      var where;
      ok, where := ParseWhereClause();
      if !ok {
        return None;
      }
      ok := Consume(Semicolon);
      if !ok {
        return None;
      }
      r := Some(ParseResult(expressions, Statement.Delete(table.value, where)));
    }

    method ParseOneAssignment() returns (a: Option<(Text, nat)>)
      requires position < |tokens| && ChildrenFirst(expressions)
      modifies this`position, this`expressions, this`error
      ensures a.Some? == ParseAssignment(tokens, old(position)).Some?
      ensures error == (old(error) || a.None?)
      ensures a.Some? ==>
        && Grown(old(expressions), expressions)
        && a.value.1 < |expressions|
        && Some(((a.value.0, TreeAt(expressions, a.value.1)), position)) == ParseAssignment(tokens, old(position))
    {
      var column := ConsumeIdentifier();
      if column.None? {
        return None;
      }
      var ok := Consume(Equal);
      if !ok {
        return None;
      }
      var index := RequireExpression();
      if index == -1 {
        return None;
      }
      a := Some((column.value, index));
    }

    method ParseAssignmentList() returns (assignments: seq<(Text, nat)>)
      requires position < |tokens| && expressions == [] && !error
      modifies this`position, this`expressions, this`error
      ensures error <==> ParseAssignments(tokens, old(position), []).None?
      ensures !error ==>
        && ChildrenFirst(expressions)
        && AssignmentsInside(assignments, expressions)
        && Some((AssignmentsAt(expressions, assignments), position)) == ParseAssignments(tokens, old(position), [])
    {
      hide ParseAssignment;
      assignments := [];
      var a := ParseOneAssignment();
      if a.None? {
        return;
      }
      assignments := [a.value];
      ghost var start := old(position);
      assert AssignmentsAt(expressions, assignments) == [] + [(a.value.0, TreeAt(expressions, a.value.1))];
      while Here() == Sign(Comma)
        invariant position < |tokens| && ChildrenFirst(expressions) && AssignmentsInside(assignments, expressions)
        invariant ParseAssignments(tokens, start, [])
               == (if Current(tokens, position) == Sign(Comma)
                   then ParseAssignments(tokens, position + 1, AssignmentsAt(expressions, assignments))
                   else Some((AssignmentsAt(expressions, assignments), position)))
        invariant !error
        decreases |tokens| - position
      {
        ghost var arena := expressions;
        Advance();
        a := ParseOneAssignment();
        if a.None? {
          return;
        }
        AssignmentsAtGrows(arena, expressions, assignments);
        assert AssignmentsAt(expressions, assignments + [a.value])
            == AssignmentsAt(arena, assignments) + [(a.value.0, TreeAt(expressions, a.value.1))];
        assignments := assignments + [a.value];
      }
    }

    method ParseUpdate() returns (r: Option<ParseResult>)
      requires position == 0 && expressions == [] && !error && |tokens| > 1
      modifies this`position, this`expressions, this`error
      ensures error <==> r.None?
      ensures Represents(r, ParseUpdateQuery(tokens))
    {
      hide ParseAssignments, ParseWhere, AssignmentsAt, WhereAt, ChildrenFirst, AssignmentsInside;
      Advance();
      var table := ConsumeIdentifier();
      if table.None? {
        return None;
      }
      var ok := Consume(Set);
      if !ok {
        return None;
      }
      var assignments := ParseAssignmentList();
      if error {
        return None;
      }
      ghost var arena := expressions;
      var where;
      ok, where := ParseWhereClause();
      if !ok {
        return None;
      }
      ok := Consume(Semicolon);
      if !ok {
        return None;
      }
      AssignmentsAtGrows(arena, expressions, assignments);
      r := Some(ParseResult(expressions, Statement.Update(table.value, assignments, where)));
    }
  }

  /** A parse result that stands for a query; or neither is there. */
  ghost predicate Represents(r: Option<ParseResult>, q: Option<Query>) {
    match r
    case None => q.None?
    case Some(p) => Linked(p) && q == Some(QueryOf(p))
  }

  /** `parse`, for all statements but CREATE and DROP. */
  method Parse(tokens: TokenList) returns (r: Option<ParseResult>)
    requires IsQuery(tokens)
    ensures Represents(r, ParseQuery(tokens))
  {
    var parser := new Parser(tokens);
    if parser.Here() == Sign(Kind.Select) {
      r := parser.ParseSelect();
    } else if parser.Here() == Sign(Kind.Insert) {
      r := parser.ParseInsert();
    } else if parser.Here() == Sign(Kind.Delete) {
      r := parser.ParseDelete();
    } else if parser.Here() == Sign(Kind.Update) {
      r := parser.ParseUpdate();
    } else {
      r := None;
    }
  }
}
