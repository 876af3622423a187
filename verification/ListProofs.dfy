/** The parts of statements: the parser reads an expression, or a list of them, exactly where the grammar has one. */
module ListProofs {
  import opened Values
  import opened Tokens
  import opened Expressions
  import opened Grammar
  import opened GrammarProofs
  import opened QueryGrammar
  import opened StatementGrammar
  import opened Wrappers

  // An expression is read as far as it goes.

  lemma {:induction false} ParseMaximal(ts: TokenList, pos: nat, level: nat)
    requires pos < |ts| && level <= PRIMARY && ParseAt(ts, pos, level).Some?
    ensures var (c, end) := ParseAt(ts, pos, level).value; Stops(ts, end, c, level)
    decreases |ts| - pos, PRIMARY - level, 1
  {
    hide OperatorAt, OperatorTokens;
    if level == PRIMARY {
    } else if level == 2 || level == 6 {
      var sign := SignAt(ts, pos, level);
      if sign.None? {
        ParseMaximal(ts, pos, level + 1);
      } else {
        ParseMaximal(ts, pos + 1, level + 1);
      }
    } else {
      ParseMaximal(ts, pos, level + 1);
      var (left, end) := ParseAt(ts, pos, level + 1).value;
      ChainMaximal(ts, left, end, level);
    }
  }

  lemma {:induction false} ChainMaximal(ts: TokenList, left: Cst, pos: nat, level: nat)
    requires pos < |ts| && level < PRIMARY && ParseChain(ts, left, pos, level).Some?
    requires Stops(ts, pos, left, level + 1)
    ensures var (c, end) := ParseChain(ts, left, pos, level).value; Stops(ts, end, c, level)
    decreases |ts| - pos, PRIMARY, 0
  {
    hide OperatorAt, OperatorTokens;
    var op := OperatorAt(ts, pos);
    if op.Some? && LevelOf(op.value) == level {
      var next := pos + |OperatorTokens(op.value)|;
      ParseMaximal(ts, next, level + 1);
      var (right, end) := ParseAt(ts, next, level + 1).value;
      ChainMaximal(ts, Chain(op.value, left, right), end, level);
    }
  }

  lemma OperatorStarts(ts: TokenList, pos: nat)
    ensures OperatorAt(ts, pos).Some? <==> StartsOperator(Current(ts, pos))
  {
    var t := Current(ts, pos);
    if OperatorAt(ts, pos).Some? {
      assert OperatorTokens(OperatorAt(ts, pos).value)[0] == t;
    }
  }

  lemma StopsIff(ts: TokenList, pos: nat, c: Cst)
    ensures Stops(ts, pos, c, 0) <==> EndsBefore(c, Current(ts, pos))
  {
    OperatorStarts(ts, pos);
    hide OperatorAt, StartsOperator, EndsInName;
  }

  /** The tokens from `pos` up to `end` are an expression that stands for the tree, and that cannot go on. */
  ghost predicate ExpressionAt(ts: TokenList, pos: nat, c: Cst, t: Tree, end: nat) {
    IsExpression(c, t) && WrittenAt(ts, pos, c) && end == pos + |Yield(c)| && EndsBefore(c, Current(ts, end))
  }

  lemma ExpressionRead(ts: TokenList, pos: nat) returns (c: Cst)
    requires pos < |ts| && ParseTree(ts, pos).Some?
    ensures var (t, end) := ParseTree(ts, pos).value; ExpressionAt(ts, pos, c, t, end)
  {
    ParseSound(ts, pos, 0);
    ParseMaximal(ts, pos, 0);
    var parsed := ParseAt(ts, pos, 0).value;
    c := parsed.0;
    StopsIff(ts, parsed.1, c);
    hide ParseAt, Stops, EndsBefore;
  }

  lemma ExpressionIsRead(ts: TokenList, pos: nat, c: Cst, t: Tree, end: nat)
    requires ExpressionAt(ts, pos, c, t, end)
    ensures pos < end < |ts| && ParseTree(ts, pos) == Some((t, end))
  {
    hide ParseAt, Stops, EndsBefore;
    StopsIff(ts, end, c);
    ParseComplete(ts, pos, c, 0);
  }

  // Lists of expressions.

  lemma AtJoined(ts: TokenList, pos: nat, a: seq<Token>, b: seq<Token>)
    requires At(ts, pos, a) && At(ts, pos + |a|, b)
    ensures At(ts, pos, a + b)
  {
    assert ts[pos..pos + |a + b|] == ts[pos..pos + |a|] + ts[pos + |a|..pos + |a| + |b|];
  }

  lemma NothingAt(ts: TokenList, pos: nat)
    requires pos <= |ts|
    ensures At(ts, pos, [])
  {
  }

  lemma OneAt(ts: TokenList, pos: nat, t: Token)
    requires pos < |ts|
    ensures At(ts, pos, [t]) <==> Current(ts, pos) == t
  {
    assert ts[pos..pos + 1] == [ts[pos]];
  }

  /** The first token from `pos` on, whether of the list or after it. */
  lemma FirstAhead(ts: TokenList, pos: nat, list: seq<Token>)
    requires At(ts, pos, list) && pos + |list| < |ts|
    ensures (list + [Current(ts, pos + |list|)])[0] == Current(ts, pos)
  {
    if list != [] {
      assert ts[pos..pos + |list|][0] == ts[pos];
    }
  }

  lemma NoComma()
    ensures Commas(0) == [] && Commas(1) == [Sign(Comma)] && Commas(2) == [Sign(Comma), Sign(Comma)]
  {
  }

  lemma CommasLength(n: nat)
    ensures |Commas(n)| == n
  {
  }

  lemma SomeCommas(m: nat, n: nat)
    ensures Commas(m) + Commas(n) == Commas(m + n)
  {
  }

  /** A comma, or nothing where there is none, is passed over. */
  lemma CommaSkipped(ts: TokenList, pos: nat) returns (n: nat)
    requires pos < |ts|
    ensures n <= 1 && SkipComma(ts, pos) == pos + n && At(ts, pos, Commas(n))
    ensures n == 0 <==> Current(ts, pos) != Sign(Comma)
  {
    NoComma();
    if Current(ts, pos) == Sign(Comma) {
      n := 1;
      OneAt(ts, pos, Sign(Comma));
    } else {
      n := 0;
      NothingAt(ts, pos);
    }
  }

  lemma CommasThere(ts: TokenList, pos: nat, n: nat)
    requires n > 0 && At(ts, pos, Commas(n)) && pos + n < |ts|
    ensures Current(ts, pos) == Sign(Comma) && SkipComma(ts, pos) == pos + 1 && At(ts, pos + 1, Commas(n - 1))
  {
    assert Commas(n) == [Sign(Comma)] + Commas(n - 1);
    AtFirst(ts, pos, Sign(Comma), Commas(n - 1));
  }

  /** A comma, a closing parenthesis, or any token that ends a list ends the expression before it. */
  lemma StopEndsExpression(c: Cst, t: Token)
    requires IsStop(t)
    ensures EndsBefore(c, t)
  {
    forall op
      ensures OperatorTokens(op)[0] != t
    {
      NoStop(op);
    }
  }

  lemma NoStop(op: BinaryOperator)
    ensures !IsStop(OperatorTokens(op)[0])
  {
  }

  /** The tokens of the first item and of the others. */
  lemma {:induction false} ItemsAt(ts: TokenList, pos: nat, items: seq<Item>)
    requires items != [] && At(ts, pos, ListTokens(items))
    ensures var n, k := |Yield(items[0].expr)|, items[0].commas;
      && |ListTokens(items)| == n + k + |ListTokens(items[1..])|
      && At(ts, pos, Yield(items[0].expr)) && At(ts, pos + n, Commas(k)) && At(ts, pos + n + k, ListTokens(items[1..]))
  {
    hide At, Yield;
    var first, rest := items[0], ListTokens(items[1..]);
    AtParts(ts, pos, Yield(first.expr), Commas(first.commas) + rest);
    AtParts(ts, pos + |Yield(first.expr)|, Commas(first.commas), rest);
  }

  lemma {:induction false} ItemsJoined(ts: TokenList, pos: nat, c: Cst, k: nat, rest: seq<Item>)
    requires At(ts, pos, Yield(c)) && At(ts, pos + |Yield(c)|, Commas(k))
    requires At(ts, pos + |Yield(c)| + k, ListTokens(rest))
    ensures var items := [Item(c, k)] + rest;
      At(ts, pos, ListTokens(items)) && |ListTokens(items)| == |Yield(c)| + k + |ListTokens(rest)|
  {
    hide At, Yield;
    var items := [Item(c, k)] + rest;
    assert items[1..] == rest;
    AtJoined(ts, pos + |Yield(c)|, Commas(k), ListTokens(rest));
    AtJoined(ts, pos, Yield(c), Commas(k) + ListTokens(rest));
  }

  /** The tokens from `pos` up to `end` are the items, which stand for the trees. */
  ghost predicate ListAt(ts: TokenList, pos: nat, items: seq<Item>, trees: seq<Tree>, end: nat) {
    At(ts, pos, ListTokens(items)) && end == pos + |ListTokens(items)| < |ts| && ListOf(items, trees, Current(ts, end))
  }

  lemma EmptyList(ts: TokenList, pos: nat)
    requires pos < |ts|
    ensures ListAt(ts, pos, [], [], pos)
  {
    NothingAt(ts, pos);
  }

  lemma {:induction false} EmptyListOnly(ts: TokenList, pos: nat, trees: seq<Tree>, end: nat)
    requires ListAt(ts, pos, [], trees, end)
    ensures trees == [] && end == pos
  {
  }

  /** One expression more at the front of a list. */
  lemma {:induction false} ListGrows(ts: TokenList, pos: nat, c: Cst, t: Tree, e: nat, k: nat, rest: seq<Item>,
                                     trees: seq<Tree>, end: nat)
    requires ExpressionAt(ts, pos, c, t, e) && At(ts, e, Commas(k)) && ListAt(ts, e + k, rest, trees, end)
    ensures ListAt(ts, pos, [Item(c, k)] + rest, [t] + trees, end)
  {
    hide At, Yield, EndsBefore, IsExpression, Current, Commas, ListTokens, WrittenAt;
    ExpressionParts(ts, pos, c, t, e);
    hide ExpressionAt;
    var items := [Item(c, k)] + rest;
    ItemsJoined(ts, pos, c, k, rest);
    FirstAhead(ts, e + k, ListTokens(rest));
    assert k == 0 ==> Current(ts, e + k) == Current(ts, e);
    assert items[1..] == rest && ([t] + trees)[1..] == trees;
  }

  /** The first expression of a list, and what follows it. */
  lemma {:induction false} FirstOfList(ts: TokenList, pos: nat, items: seq<Item>, trees: seq<Tree>, end: nat)
    returns (e: nat)
    requires items != [] && ListAt(ts, pos, items, trees, end)
    ensures trees != [] && pos < e < |ts| && ParseTree(ts, pos) == Some((trees[0], e)) && !IsStop(Current(ts, pos))
    ensures At(ts, e, Commas(items[0].commas)) && ListAt(ts, e + items[0].commas, items[1..], trees[1..], end)
  {
    hide At, EndsBefore, Current, IsStop, Commas, Yield, WrittenAt, ExpressionAt, IsExpression, ParseTree;
    e := pos + |Yield(items[0].expr)|;
    ItemsAt(ts, pos, items);
    ItemEnds(ts, pos, items, trees, end);
    hide ListTokens;
    IsWritten(ts, pos, items[0].expr, trees[0], e);
    ExpressionIsRead(ts, pos, items[0].expr, trees[0], e);
  }

  lemma {:induction false} ItemEnds(ts: TokenList, pos: nat, items: seq<Item>, trees: seq<Tree>, end: nat)
    requires items != [] && At(ts, pos, ListTokens(items)) && end == pos + |ListTokens(items)| < |ts|
    requires ListOf(items, trees, Current(ts, end))
    requires var n, k := |Yield(items[0].expr)|, items[0].commas;
      && |ListTokens(items)| == n + k + |ListTokens(items[1..])|
      && At(ts, pos + n, Commas(k)) && At(ts, pos + n + k, ListTokens(items[1..]))
    ensures EndsBefore(items[0].expr, Current(ts, pos + |Yield(items[0].expr)|))
  {
    hide At, EndsBefore, IsExpression, Yield, ListTokens, Commas, Current;
    var e, k := pos + |Yield(items[0].expr)|, items[0].commas;
    if k == 0 {
      FirstAhead(ts, e, ListTokens(items[1..]));
    } else {
      CommasThere(ts, e, k);
      CommaEnds(items[0].expr);
    }
  }

  lemma IsWritten(ts: TokenList, pos: nat, c: Cst, t: Tree, end: nat)
    requires IsExpression(c, t) && At(ts, pos, Yield(c)) && end == pos + |Yield(c)| < |ts|
    requires EndsBefore(c, Current(ts, end))
    ensures ExpressionAt(ts, pos, c, t, end) && !IsStop(Current(ts, pos))
  {
    StartsExpression(c);
    TokenAt(ts, pos, Yield(c));
    hide EndsBefore, IsStop, Current;
  }

  lemma CommaEnds(c: Cst)
    ensures EndsBefore(c, Sign(Comma))
  {
    StopEndsExpression(c, Sign(Comma));
  }

  lemma TokenAt(ts: TokenList, pos: nat, list: seq<Token>)
    requires list != [] && At(ts, pos, list)
    ensures Current(ts, pos) == list[0]
  {
    assert ts[pos..pos + |list|][0] == ts[pos];
  }

  // The list of a SELECT.

  /** One turn of the loop over the select list. */
  lemma {:induction false} ColumnsStep(ts: TokenList, pos: nat, soFar: seq<Tree>)
    requires pos < |ts|
    ensures EndsSelectList(Current(ts, pos)) ==> ParseColumns(ts, pos, soFar) == Some((soFar, pos))
    ensures !EndsSelectList(Current(ts, pos)) ==>
      ParseColumns(ts, pos, soFar) ==
        if ParseTree(ts, pos).None? then None
        else ParseColumns(ts, SkipComma(ts, ParseTree(ts, pos).value.1), soFar + [ParseTree(ts, pos).value.0])
  {
    hide ParseTree;
  }

  lemma {:induction false} ColumnsRead(ts: TokenList, pos: nat, soFar: seq<Tree>)
    returns (items: seq<Item>, trees: seq<Tree>, end: nat)
    requires pos < |ts| && ParseColumns(ts, pos, soFar).Some?
    ensures ParseColumns(ts, pos, soFar) == Some((soFar + trees, end))
    ensures ListAt(ts, pos, items, trees, end) && AtMostOneComma(items) && EndsSelectList(Current(ts, end))
    decreases |ts| - pos
  {
    hide *;
    ColumnsStep(ts, pos, soFar);
    if EndsSelectList(Current(ts, pos)) {
      items, trees, end := [], [], pos;
      EmptyList(ts, pos);
      assert soFar + trees == soFar;
      OneCommaAtMost([]);
    } else {
      var c := ExpressionRead(ts, pos);
      var t, e := ParseTree(ts, pos).value.0, ParseTree(ts, pos).value.1;
      var n := CommaSkipped(ts, e);
      var rest, more, last := ColumnsRead(ts, e + n, soFar + [t]);
      ListGrows(ts, pos, c, t, e, n, rest, more, last);
      items, trees, end := [Item(c, n)] + rest, [t] + more, last;
      OneTreeMore(soFar, trees);
      assert trees[1..] == more;
      OneCommaAtMost(items);
    }
  }

  lemma OneCommaAtMost(items: seq<Item>)
    ensures AtMostOneComma(items) <==> items == [] || (items[0].commas <= 1 && AtMostOneComma(items[1..]))
  {
    assert items == [] || items == [items[0]] + items[1..];
  }

  lemma ExpressionParts(ts: TokenList, pos: nat, c: Cst, t: Tree, end: nat)
    requires ExpressionAt(ts, pos, c, t, end)
    ensures IsExpression(c, t) && At(ts, pos, Yield(c)) && end == pos + |Yield(c)| && EndsBefore(c, Current(ts, end))
  {
  }

  lemma {:induction false} FirstColumnIsRead(ts: TokenList, pos: nat, items: seq<Item>, trees: seq<Tree>, end: nat)
    returns (next: nat)
    requires items != [] && ListAt(ts, pos, items, trees, end) && items[0].commas <= 1 && EndsSelectList(Current(ts, end))
    ensures pos < |ts| && !EndsSelectList(Current(ts, pos)) && trees != []
    ensures ParseTree(ts, pos).Some? && ParseTree(ts, pos).value.0 == trees[0]
    ensures next == SkipComma(ts, ParseTree(ts, pos).value.1) && ListAt(ts, next, items[1..], trees[1..], end)
  {
    hide At, Commas, ListAt, Current, EndsSelectList, IsStop, ParseTree, ListTokens, ListOf;
    var e := FirstOfList(ts, pos, items, trees, end);
    SelectListGoesOn(Current(ts, pos));
    SelectListGoesOn(Current(ts, end));
    CommaOrNot(ts, e, items[0].commas, items[1..], trees[1..], end);
    next := SkipComma(ts, e);
  }

  lemma {:induction false} ColumnsAreRead(ts: TokenList, pos: nat, items: seq<Item>, trees: seq<Tree>, end: nat,
                                          soFar: seq<Tree>)
    requires ListAt(ts, pos, items, trees, end) && AtMostOneComma(items) && EndsSelectList(Current(ts, end))
    ensures pos < |ts| && ParseColumns(ts, pos, soFar) == Some((soFar + trees, end))
    decreases items
  {
    hide *;
    OneCommaAtMost(items);
    if items == [] {
      EmptyListOnly(ts, pos, trees, end);
      ListInside(ts, pos, items, trees, end);
      ColumnsStep(ts, pos, soFar);
      assert soFar + trees == soFar;
    } else {
      var next := FirstColumnIsRead(ts, pos, items, trees, end);
      ColumnsStep(ts, pos, soFar);
      ColumnsAreRead(ts, next, items[1..], trees[1..], end, soFar + [trees[0]]);
      OneTreeMore(soFar, trees);
    }
  }

  lemma OneTreeMore(soFar: seq<Tree>, trees: seq<Tree>)
    requires trees != []
    ensures soFar + [trees[0]] + trees[1..] == soFar + trees
  {
  }

  lemma ListInside(ts: TokenList, pos: nat, items: seq<Item>, trees: seq<Tree>, end: nat)
    requires ListAt(ts, pos, items, trees, end)
    ensures pos <= end < |ts|
  {
  }

  lemma SelectListGoesOn(t: Token)
    ensures EndsSelectList(t) || EndsList(t) ==> IsStop(t) && t != Sign(Comma)
  {
  }

  /** After an expression of a list, its first comma is passed over, or there is none. */
  lemma {:induction false} CommaOrNot(ts: TokenList, pos: nat, k: nat, items: seq<Item>, trees: seq<Tree>, end: nat)
    requires At(ts, pos, Commas(k)) && ListAt(ts, pos + k, items, trees, end) && Current(ts, end) != Sign(Comma)
    ensures pos < |ts|
    ensures if k > 0 then Current(ts, pos) == Sign(Comma) && SkipComma(ts, pos) == pos + 1 && At(ts, pos + 1, Commas(k - 1))
            else Current(ts, pos) != Sign(Comma) && SkipComma(ts, pos) == pos
  {
    if k > 0 {
      CommasThere(ts, pos, k);
    } else {
      NoCommaAhead(ts, pos, items, trees, end);
    }
  }

  /** A list of expressions does not begin with a comma, and neither does what ends it. */
  lemma {:induction false} NoCommaAhead(ts: TokenList, pos: nat, items: seq<Item>, trees: seq<Tree>, end: nat)
    requires ListAt(ts, pos, items, trees, end) && Current(ts, end) != Sign(Comma)
    ensures Current(ts, pos) != Sign(Comma)
  {
    if items != [] {
      var _ := FirstOfList(ts, pos, items, trees, end);
      hide At, ListTokens, ListOf, ListAt, Current;
    }
  }

  // The values of an INSERT.

  /** At most two commas between items, and one at the end. */
  predicate TailSeparated(items: seq<Item>) {
    && (forall i :: 0 <= i < |items| ==> items[i].commas <= 2)
    && (items != [] ==> items[|items| - 1].commas <= 1)
  }

  lemma SeparatedTail(items: seq<Item>)
    ensures TailSeparated(items) <==>
      items == [] || (items[0].commas <= (if |items| == 1 then 1 else 2) && TailSeparated(items[1..]))
    ensures ValuesSeparated(items) <==>
      && items != [] && TailSeparated(items[1..]) && items[0].commas <= (if |items| == 1 then 1 else 2)
      && (|items| > 1 ==> items[0].commas > 0)
  {
    assert items == [] || items == [items[0]] + items[1..];
  }

  /** One turn of the loop over the values. */
  lemma {:induction false} ValuesStep(ts: TokenList, pos: nat, soFar: seq<Tree>)
    requires pos < |ts|
    ensures EndsList(Current(ts, pos)) ==> ParseValues(ts, pos, soFar) == Some((soFar, pos))
    ensures !EndsList(Current(ts, pos)) ==>
      var p := SkipComma(ts, pos);
      ParseValues(ts, pos, soFar) ==
        if ParseTree(ts, p).None? then None
        else ParseValues(ts, SkipComma(ts, ParseTree(ts, p).value.1), soFar + [ParseTree(ts, p).value.0])
  {
    hide ParseTree;
  }

  lemma {:induction false} CommasJoined(ts: TokenList, pos: nat, n: nat, lead: nat)
    requires At(ts, pos, Commas(n)) && At(ts, pos + n, Commas(lead))
    ensures At(ts, pos, Commas(n + lead))
  {
    AtJoined(ts, pos, Commas(n), Commas(lead));
    SomeCommas(n, lead);
    hide At, Commas;
  }

  /** No comma follows where none was passed over. */
  lemma NoLeadingComma(ts: TokenList, pos: nat, lead: nat)
    requires At(ts, pos, Commas(lead)) && pos + lead < |ts| && Current(ts, pos) != Sign(Comma)
    ensures lead == 0
  {
    if lead > 0 {
      CommasThere(ts, pos, lead);
    }
  }

  lemma {:induction false} ValuesRead(ts: TokenList, pos: nat, soFar: seq<Tree>)
    returns (lead: nat, items: seq<Item>, trees: seq<Tree>, end: nat)
    requires pos < |ts| && ParseValues(ts, pos, soFar).Some?
    ensures ParseValues(ts, pos, soFar) == Some((soFar + trees, end)) && EndsList(Current(ts, end))
    ensures lead <= 1 && (items == [] ==> lead == 0) && pos + lead < |ts| && At(ts, pos, Commas(lead))
    ensures ListAt(ts, pos + lead, items, trees, end) && TailSeparated(items)
    decreases |ts| - pos
  {
    hide *;
    ValuesStep(ts, pos, soFar);
    SeparatedTail([]);
    if EndsList(Current(ts, pos)) {
      lead, items, trees, end := 0, [], [], pos;
      EmptyList(ts, pos);
      NoComma();
      NothingAt(ts, pos);
      assert soFar + trees == soFar;
    } else {
      lead := CommaSkipped(ts, pos);
      var p := pos + lead;
      var c := ExpressionRead(ts, p);
      var t, e := ParseTree(ts, p).value.0, ParseTree(ts, p).value.1;
      var n := CommaSkipped(ts, e);
      var next, rest, more, last := ValuesRead(ts, e + n, soFar + [t]);
      if n == 0 {
        NoLeadingComma(ts, e, next);
      }
      CommasJoined(ts, e, n, next);
      ListGrows(ts, p, c, t, e, n + next, rest, more, last);
      items, trees, end := [Item(c, n + next)] + rest, [t] + more, last;
      assert items[1..] == rest && trees[1..] == more;
      SeparatedTail(items);
      OneTreeMore(soFar, trees);
    }
  }

  /** Items ahead, behind at most one comma that is still to be passed over. */
  ghost predicate ListAhead(ts: TokenList, pos: nat, lead: nat, items: seq<Item>, trees: seq<Tree>, end: nat) {
    && lead <= 1 && (items == [] ==> lead == 0) && At(ts, pos, Commas(lead))
    && ListAt(ts, pos + lead, items, trees, end) && TailSeparated(items) && EndsList(Current(ts, end))
  }

  lemma {:induction false} FirstAheadIsRead(ts: TokenList, pos: nat, lead: nat, items: seq<Item>, trees: seq<Tree>,
                                            end: nat)
    returns (e: nat)
    requires items != [] && ListAhead(ts, pos, lead, items, trees, end)
    ensures pos + lead < |ts| && SkipComma(ts, pos) == pos + lead && !EndsList(Current(ts, pos))
    ensures trees != [] && pos + lead < e < |ts| && ParseTree(ts, pos + lead) == Some((trees[0], e))
    ensures At(ts, e, Commas(items[0].commas)) && ListAt(ts, e + items[0].commas, items[1..], trees[1..], end)
  {
    hide At, Commas, ListAt, Current, EndsList, IsStop, ParseTree, TailSeparated, ListTokens, ListOf;
    SelectListGoesOn(Current(ts, end));
    CommaOrNot(ts, pos, lead, items, trees, end);
    e := FirstOfList(ts, pos + lead, items, trees, end);
    SelectListGoesOn(Current(ts, pos + lead));
    CommaIsNoEnd();
  }

  lemma {:induction false} RestIsAhead(ts: TokenList, e: nat, items: seq<Item>, trees: seq<Tree>, end: nat)
    returns (next: nat, lead: nat)
    requires items != [] && e < |ts| && TailSeparated(items) && EndsList(Current(ts, end))
    requires At(ts, e, Commas(items[0].commas)) && ListAt(ts, e + items[0].commas, items[1..], trees, end)
    ensures next == SkipComma(ts, e) && ListAhead(ts, next, lead, items[1..], trees, end)
  {
    SeparatedTail(items);
    NoComma();
    NothingAt(ts, e);
    hide At, Commas, ListAt, Current, EndsList, TailSeparated, ListTokens, ListOf;
    SelectListGoesOn(Current(ts, end));
    var k := items[0].commas;
    CommaOrNot(ts, e, k, items[1..], trees, end);
    next, lead := SkipComma(ts, e), if k > 0 then k - 1 else 0;
  }

  lemma {:induction false} ValuesAreRead(ts: TokenList, pos: nat, lead: nat, items: seq<Item>, trees: seq<Tree>, end: nat,
                                         soFar: seq<Tree>)
    requires ListAhead(ts, pos, lead, items, trees, end)
    ensures pos < |ts| && ParseValues(ts, pos, soFar) == Some((soFar + trees, end))
    decreases items
  {
    if items == [] {
      NothingAhead(ts, pos, lead, trees, end);
      ValuesStep(ts, pos, soFar);
      assert soFar + trees == soFar;
    } else {
      TailAhead(ts, pos, lead, items, trees, end);
      hide *;
      var e := FirstAheadIsRead(ts, pos, lead, items, trees, end);
      ValuesStep(ts, pos, soFar);
      var next, rest := RestIsAhead(ts, e, items, trees[1..], end);
      ValuesAreRead(ts, next, rest, items[1..], trees[1..], end, soFar + [trees[0]]);
      OneTreeMore(soFar, trees);
    }
  }

  lemma {:induction false} NothingAhead(ts: TokenList, pos: nat, lead: nat, trees: seq<Tree>, end: nat)
    requires ListAhead(ts, pos, lead, [], trees, end)
    ensures trees == [] && pos == end < |ts| && EndsList(Current(ts, pos))
  {
    EmptyListOnly(ts, pos + lead, trees, end);
  }

  lemma {:induction false} TailAhead(ts: TokenList, pos: nat, lead: nat, items: seq<Item>, trees: seq<Tree>, end: nat)
    requires ListAhead(ts, pos, lead, items, trees, end)
    ensures TailSeparated(items) && EndsList(Current(ts, end))
  {
    hide ListAt, At, TailSeparated;
  }

  lemma CommaIsNoEnd()
    ensures !EndsList(Sign(Comma))
  {
  }

  lemma {:induction false} ValueListRead(ts: TokenList, pos: nat) returns (items: seq<Item>, trees: seq<Tree>, end: nat)
    requires pos < |ts| && ParseValueList(ts, pos).Some?
    ensures ParseValueList(ts, pos) == Some((trees, end)) && ListAt(ts, pos, items, trees, end) && ValuesSeparated(items)
  {
    hide ParseTree, ParseValues, ListAt, At, Commas, ExpressionAt, ValuesSeparated, TailSeparated, Current;
    var c := ExpressionRead(ts, pos);
    var t, e := ParseTree(ts, pos).value.0, ParseTree(ts, pos).value.1;
    SeparatedTail([]);
    NoComma();
    if Current(ts, e) == Sign(Comma) {
      var lead, rest, more, last := ValuesRead(ts, e + 1, [t]);
      CommaHere(ts, e);
      CommasJoined(ts, e, 1, lead);
      ListGrows(ts, pos, c, t, e, 1 + lead, rest, more, last);
      items, trees, end := [Item(c, 1 + lead)] + rest, [t] + more, last;
      assert items[1..] == rest;
    } else {
      EmptyList(ts, e);
      NothingAt(ts, e);
      ListGrows(ts, pos, c, t, e, 0, [], [], e);
      items, trees, end := [Item(c, 0)] + [], [t] + [], e;
      assert items[1..] == [] && trees == [t];
    }
    SeparatedTail(items);
  }

  lemma CommaHere(ts: TokenList, pos: nat)
    requires pos < |ts| && Current(ts, pos) == Sign(Comma)
    ensures At(ts, pos, Commas(1))
  {
    NoComma();
    OneAt(ts, pos, Sign(Comma));
  }

  lemma {:induction false} ValueListIsRead(ts: TokenList, pos: nat, items: seq<Item>, trees: seq<Tree>, end: nat)
    requires ListAt(ts, pos, items, trees, end) && ValuesSeparated(items) && EndsList(Current(ts, end))
    ensures pos < |ts| && ParseValueList(ts, pos) == Some((trees, end))
  {
    hide ParseTree, ParseValues, ListAt, At, Commas, ExpressionAt, ValuesSeparated, TailSeparated, Current, EndsList, IsStop;
    SeparatedTail(items);
    var e := FirstOfList(ts, pos, items, trees, end);
    var k := items[0].commas;
    SelectListGoesOn(Current(ts, end));
    CommaOrNot(ts, e, k, items[1..], trees[1..], end);
    if k == 0 {
      assert items[1..] == [];
      EmptyListOnly(ts, e, trees[1..], end);
      assert trees == [trees[0]];
    } else {
      assert ListAhead(ts, e + 1, k - 1, items[1..], trees[1..], end);
      ValuesAreRead(ts, e + 1, k - 1, items[1..], trees[1..], end, [trees[0]]);
      assert [trees[0]] + trees[1..] == trees;
    }
  }

  // The names of an INSERT.

  ghost predicate NamesAt(ts: TokenList, pos: nat, items: seq<NameItem>, names: seq<Text>, end: nat) {
    At(ts, pos, NameTokens(items)) && end == pos + |NameTokens(items)| < |ts| && NamesOf(items, names)
  }

  predicate NameTail(items: seq<NameItem>) {
    && (forall i :: 0 <= i < |items| ==> items[i].commas <= 2)
    && (items != [] ==> items[|items| - 1].commas <= 1)
  }

  lemma SeparatedNames(items: seq<NameItem>)
    ensures NameTail(items) <==>
      items == [] || (items[0].commas <= (if |items| == 1 then 1 else 2) && NameTail(items[1..]))
    ensures NamesSeparated(items) <==>
      items != [] && NameTail(items[1..]) && items[0].commas <= (if |items| == 1 then 0 else 1)
  {
    assert items == [] || items == [items[0]] + items[1..];
  }

  /** One turn of the loop over the names. */
  lemma {:induction false} NamesStep(ts: TokenList, pos: nat, soFar: seq<Text>)
    requires pos < |ts|
    ensures EndsList(Current(ts, pos)) ==> ParseNames(ts, pos, soFar) == Some((soFar, pos))
    ensures !EndsList(Current(ts, pos)) ==>
      var p := SkipComma(ts, pos);
      && (Current(ts, p).Identifier? ==> p + 1 < |ts|)
      && ParseNames(ts, pos, soFar) ==
           if !Current(ts, p).Identifier? then None
           else ParseNames(ts, SkipComma(ts, p + 1), soFar + [Current(ts, p).name])
  {
  }

  lemma NoNames(ts: TokenList, pos: nat)
    requires pos < |ts|
    ensures NamesAt(ts, pos, [], [], pos)
  {
    NothingAt(ts, pos);
  }

  lemma {:induction false} NamesGrow(ts: TokenList, pos: nat, name: Text, k: nat, rest: seq<NameItem>,
                                     names: seq<Text>, end: nat)
    requires pos < |ts| && Current(ts, pos) == Identifier(name) && At(ts, pos + 1, Commas(k))
    requires NamesAt(ts, pos + 1 + k, rest, names, end)
    ensures NamesAt(ts, pos, [NameItem(name, k)] + rest, [name] + names, end)
  {
    OneAt(ts, pos, Identifier(name));
    hide At, Commas, Current;
    var items := [NameItem(name, k)] + rest;
    assert items[1..] == rest;
    AtJoined(ts, pos + 1, Commas(k), NameTokens(rest));
    AtJoined(ts, pos, [Identifier(name)], Commas(k) + NameTokens(rest));
  }

  lemma {:induction false} FirstName(ts: TokenList, pos: nat, items: seq<NameItem>, names: seq<Text>, end: nat)
    requires items != [] && NamesAt(ts, pos, items, names, end)
    ensures names != [] && pos + 1 < |ts| && Current(ts, pos) == Identifier(names[0])
    ensures At(ts, pos + 1, Commas(items[0].commas))
    ensures NamesAt(ts, pos + 1 + items[0].commas, items[1..], names[1..], end)
  {
    hide At, Current, Commas, NameTokens;
    NameItemsAt(ts, pos, items);
  }

  /** The tokens of the first name and of the others. */
  lemma {:induction false} NameItemsAt(ts: TokenList, pos: nat, items: seq<NameItem>)
    requires items != [] && At(ts, pos, NameTokens(items))
    ensures var k := items[0].commas;
      && |NameTokens(items)| == 1 + k + |NameTokens(items[1..])| && Current(ts, pos) == Identifier(items[0].name)
      && At(ts, pos + 1, Commas(k)) && At(ts, pos + 1 + k, NameTokens(items[1..]))
  {
    CommasLength(items[0].commas);
    hide At, Current, Commas;
    var rest := NameTokens(items[1..]);
    AtFirst(ts, pos, Identifier(items[0].name), Commas(items[0].commas) + rest);
    AtParts(ts, pos + 1, Commas(items[0].commas), rest);
  }

  lemma {:induction false} NamesRead(ts: TokenList, pos: nat, soFar: seq<Text>)
    returns (lead: nat, items: seq<NameItem>, names: seq<Text>, end: nat)
    requires pos < |ts| && ParseNames(ts, pos, soFar).Some?
    ensures ParseNames(ts, pos, soFar) == Some((soFar + names, end)) && EndsList(Current(ts, end))
    ensures lead <= 1 && (items == [] ==> lead == 0) && pos + lead < |ts| && At(ts, pos, Commas(lead))
    ensures NamesAt(ts, pos + lead, items, names, end) && NameTail(items)
    decreases |ts| - pos
  {
    hide *;
    NamesStep(ts, pos, soFar);
    SeparatedNames([]);
    if EndsList(Current(ts, pos)) {
      lead, items, names, end := 0, [], [], pos;
      NoNames(ts, pos);
      NoComma();
      NothingAt(ts, pos);
      assert soFar + names == soFar;
    } else {
      lead := CommaSkipped(ts, pos);
      var p := pos + lead;
      var name := Current(ts, p).name;
      var n := CommaSkipped(ts, p + 1);
      var next, rest, more, last := NamesRead(ts, p + 1 + n, soFar + [name]);
      if n == 0 {
        NoLeadingComma(ts, p + 1, next);
      }
      CommasJoined(ts, p + 1, n, next);
      NamesGrow(ts, p, name, n + next, rest, more, last);
      items, names, end := [NameItem(name, n + next)] + rest, [name] + more, last;
      assert items[1..] == rest && names[1..] == more;
      SeparatedNames(items);
      OneNameMore(soFar, names);
    }
  }

  lemma OneNameMore(soFar: seq<Text>, names: seq<Text>)
    requires names != []
    ensures soFar + [names[0]] + names[1..] == soFar + names
  {
  }

  ghost predicate NamesAhead(ts: TokenList, pos: nat, lead: nat, items: seq<NameItem>, names: seq<Text>, end: nat) {
    && lead <= 1 && (items == [] ==> lead == 0) && At(ts, pos, Commas(lead))
    && NamesAt(ts, pos + lead, items, names, end) && NameTail(items) && EndsList(Current(ts, end))
  }

  /** Commas before a name, or before what ends the list. */
  lemma {:induction false} CommaBeforeName(ts: TokenList, pos: nat, k: nat, items: seq<NameItem>, names: seq<Text>,
                                           end: nat)
    requires At(ts, pos, Commas(k)) && NamesAt(ts, pos + k, items, names, end) && EndsList(Current(ts, end))
    ensures pos < |ts|
    ensures if k > 0 then Current(ts, pos) == Sign(Comma) && SkipComma(ts, pos) == pos + 1 && At(ts, pos + 1, Commas(k - 1))
            else Current(ts, pos) != Sign(Comma) && SkipComma(ts, pos) == pos
  {
    if k > 0 {
      CommasThere(ts, pos, k);
    } else if items != [] {
      FirstName(ts, pos, items, names, end);
    }
  }

  lemma {:induction false} NamesAreRead(ts: TokenList, pos: nat, lead: nat, items: seq<NameItem>, names: seq<Text>,
                                        end: nat,
                                        soFar: seq<Text>)
    requires NamesAhead(ts, pos, lead, items, names, end)
    ensures pos < |ts| && ParseNames(ts, pos, soFar) == Some((soFar + names, end))
    decreases items
  {
    CommaBeforeName(ts, pos, lead, items, names, end);
    if items == [] {
      NamesStep(ts, pos, soFar);
      assert soFar + names == soFar;
    } else {
      var next, rest := FirstNameIsRead(ts, pos, lead, items, names, end);
      hide *;
      NamesStep(ts, pos, soFar);
      NamesAreRead(ts, next, rest, items[1..], names[1..], end, soFar + [names[0]]);
      OneNameMore(soFar, names);
    }
  }

  lemma {:induction false} FirstNameIsRead(ts: TokenList, pos: nat, lead: nat, items: seq<NameItem>,
                                           names: seq<Text>, end: nat)
    returns (next: nat, rest: nat)
    requires items != [] && NamesAhead(ts, pos, lead, items, names, end) && pos < |ts|
    ensures !EndsList(Current(ts, pos)) && names != [] && SkipComma(ts, pos) + 1 < |ts|
    ensures Current(ts, SkipComma(ts, pos)) == Identifier(names[0])
    ensures next == SkipComma(ts, SkipComma(ts, pos) + 1) && NamesAhead(ts, next, rest, items[1..], names[1..], end)
  {
    hide At, Commas, NamesAt, Current, NameTail, NameTokens;
    SeparatedNames(items);
    CommaBeforeName(ts, pos, lead, items, names, end);
    var p := pos + lead;
    FirstName(ts, p, items, names, end);
    var k := items[0].commas;
    CommaBeforeName(ts, p + 1, k, items[1..], names[1..], end);
    NoComma();
    NothingAt(ts, p + 1);
    next, rest := SkipComma(ts, p + 1), if k > 0 then k - 1 else 0;
  }

  lemma {:induction false} NameListRead(ts: TokenList, pos: nat)
    returns (items: seq<NameItem>, names: seq<Text>, end: nat)
    requires pos < |ts| && ParseNameList(ts, pos).Some?
    ensures ParseNameList(ts, pos) == Some((names, end)) && NamesAt(ts, pos, items, names, end) && NamesSeparated(items)
  {
    hide ParseNames, NamesAt, At, Commas, NamesSeparated, NameTail;
    var name := Current(ts, pos).name;
    var lead, rest, more, last := NamesRead(ts, pos + 1, [name]);
    NamesGrow(ts, pos, name, lead, rest, more, last);
    items, names, end := [NameItem(name, lead)] + rest, [name] + more, last;
    assert items[1..] == rest;
    SeparatedNames(items);
  }

  lemma {:induction false} NameListIsRead(ts: TokenList, pos: nat, items: seq<NameItem>, names: seq<Text>, end: nat)
    requires NamesAt(ts, pos, items, names, end) && NamesSeparated(items) && EndsList(Current(ts, end))
    ensures pos < |ts| && ParseNameList(ts, pos) == Some((names, end))
  {
    hide ParseNames, NamesAt, At, Commas, NamesSeparated, NameTail, EndsList, Current;
    SeparatedNames(items);
    FirstName(ts, pos, items, names, end);
    assert NamesAhead(ts, pos + 1, items[0].commas, items[1..], names[1..], end);
    NamesAreRead(ts, pos + 1, items[0].commas, items[1..], names[1..], end, [names[0]]);
    assert [names[0]] + names[1..] == names;
  }
}
