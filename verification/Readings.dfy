/**
 What the state of the parser object says about the parser function: an expression read from the
 tokens has its nodes, in post-order, at the end of the arena.
 */
module Readings {
  import opened Tokens
  import opened Expressions
  import opened Grammar
  import opened Wrappers

  /** The latest node is the root of `c`, whose nodes lie in post-order after `arena`. */
  ghost predicate LaidOut(arena: Arena, all: Arena, c: Cst, index: int) {
    all == arena + PostOrder(Meaning(c), |arena|) && index == |all| - 1
  }

  lemma ChainLaidOut(arena: Arena, first: Arena, second: Arena, l: Cst, r: Cst, op: BinaryOperator, left: nat,
                     right: nat)
    requires LaidOut(arena, first, l, left) && LaidOut(first, second, r, right)
    ensures LaidOut(arena, second + [Binary(op, left, right)], Chain(op, l, r), |second|)
  {
  }

  lemma SignedLaidOut(arena: Arena, all: Arena, x: Cst, op: UnaryOperator, index: nat)
    requires LaidOut(arena, all, x, index)
    ensures LaidOut(arena, all + [Unary(op, index)], Signed(op, x), |all|)
  {
  }

  /** The operator a loop at `level` finds at `pos`. */
  function AtLevel(ts: TokenList, pos: nat, level: nat): Option<BinaryOperator> {
    if OperatorAt(ts, pos).Some? && LevelOf(OperatorAt(ts, pos).value) == level then OperatorAt(ts, pos) else None
  }

  lemma SignsOfLevels(ts: TokenList, pos: nat)
    ensures AtLevel(ts, pos, 0) == if Current(ts, pos) == Sign(Or) then Some(OR) else None
    ensures AtLevel(ts, pos, 1) == if Current(ts, pos) == Sign(And) then Some(AND) else None
    ensures AtLevel(ts, pos, 4) ==
      if Current(ts, pos) == Sign(Plus) then Some(ADD)
      else if Current(ts, pos) == Sign(Minus) then Some(SUBTRACT) else None
    ensures AtLevel(ts, pos, 5) ==
      if Current(ts, pos) == Sign(Asterisk) then Some(MULTIPLY)
      else if Current(ts, pos) == Sign(Slash) then Some(DIVIDE) else None
  {
  }

  /**
   From `start` an expression of `level` has been read as the parser function reads it, its nodes
   appended to `arena`; or both failed, and no older node changed.
   */
  ghost predicate Read(ts: TokenList, start: nat, level: nat, arena: Arena, all: Arena, pos: nat, index: int)
    requires start < |ts| && level <= 7
  {
    match ParseAt(ts, start, level)
    case Some((c, end)) => pos == end && LaidOut(arena, all, c, index)
    case None => index == -1 && arena <= all
  }

  /** The loop of a binary level has read `c` so far. */
  ghost predicate Reading(ts: TokenList, start: nat, level: nat, arena: Arena, all: Arena, pos: nat, c: Cst, left: int)
    requires start < |ts| && level < 7
  {
    && start < pos < |ts|
    && LaidOut(arena, all, c, left)
    && ParseAt(ts, start, level) == ParseChain(ts, c, pos, level)
  }

  lemma LoopStarts(ts: TokenList, start: nat, level: nat, arena: Arena, all: Arena, pos: nat, index: int)
    returns (c: Cst)
    requires start < |ts| && level < 6 && level != 2 && index != -1
    requires Read(ts, start, level + 1, arena, all, pos, index)
    ensures Reading(ts, start, level, arena, all, pos, c, index) && index >= 0
    ensures start < pos < |ts|
  {
    hide LaidOut;
    c := ParseAt(ts, start, level + 1).value.0;
    IndexIsNatural(arena, all, c, index);
  }

  lemma IndexIsNatural(arena: Arena, all: Arena, c: Cst, index: int)
    requires LaidOut(arena, all, c, index)
    ensures index >= 0 && arena <= all
  {
  }

  lemma LoopNeverStarts(ts: TokenList, start: nat, level: nat, arena: Arena, all: Arena, pos: nat)
    requires start < |ts| && level < 6 && level != 2
    requires Read(ts, start, level + 1, arena, all, pos, -1)
    ensures Read(ts, start, level, arena, all, pos, -1)
  {
    hide LaidOut;
    if ParseAt(ts, start, level + 1).Some? {
      IndexIsNatural(arena, all, ParseAt(ts, start, level + 1).value.0, -1);
    }
  }

  /** One turn of the loop. */
  lemma LoopTurns(ts: TokenList, start: nat, level: nat, arena: Arena, first: Arena, at: nat, c: Cst, left: nat,
                  op: BinaryOperator, all: Arena, pos: nat, right: int)
    returns (joined: Cst)
    requires start < |ts| && level < 6 && level != 2 && right != -1
    requires Reading(ts, start, level, arena, first, at, c, left) && AtLevel(ts, at, level) == Some(op)
    requires at + |OperatorTokens(op)| < |ts|
    requires Read(ts, at + |OperatorTokens(op)|, level + 1, first, all, pos, right)
    ensures right >= 0 && start < at < pos < |ts|
    ensures Reading(ts, start, level, arena, all + [Binary(op, left, right)], pos, joined, |all|)
  {
    hide LaidOut, OperatorAt, OperatorTokens, LevelOf;
    var r := ParseAt(ts, at + |OperatorTokens(op)|, level + 1).value.0;
    joined := Chain(op, c, r);
    IndexIsNatural(first, all, r, right);
    ChainLaidOut(arena, first, all, c, r, op, left, right);
  }

  /** The right operand is missing. */
  lemma LoopBreaks(ts: TokenList, start: nat, level: nat, arena: Arena, first: Arena, at: nat, c: Cst, left: nat,
                   op: BinaryOperator, all: Arena, pos: nat)
    requires start < |ts| && level < 6 && level != 2
    requires Reading(ts, start, level, arena, first, at, c, left) && AtLevel(ts, at, level) == Some(op)
    requires at + |OperatorTokens(op)| < |ts|
    requires Read(ts, at + |OperatorTokens(op)|, level + 1, first, all, pos, -1)
    ensures Read(ts, start, level, arena, all, pos, -1)
  {
    hide LaidOut, OperatorAt, OperatorTokens, LevelOf;
    IndexIsNatural(arena, first, c, left);
    if ParseAt(ts, at + |OperatorTokens(op)|, level + 1).Some? {
      IndexIsNatural(first, all, ParseAt(ts, at + |OperatorTokens(op)|, level + 1).value.0, -1);
    }
  }

  lemma LoopEnds(ts: TokenList, start: nat, level: nat, arena: Arena, all: Arena, pos: nat, c: Cst, left: int)
    requires start < |ts| && level < 6 && level != 2
    requires Reading(ts, start, level, arena, all, pos, c, left) && AtLevel(ts, pos, level).None?
    ensures Read(ts, start, level, arena, all, pos, left)
  {
    hide LaidOut, OperatorAt, LevelOf;
  }

  /** An operator is never at the end of the list, and IS NOT not just before it. */
  lemma OperatorFits(ts: TokenList, pos: nat, level: nat)
    requires AtLevel(ts, pos, level).Some?
    ensures pos + |OperatorTokens(AtLevel(ts, pos, level).value)| < |ts|
  {
  }

  /** The two prefix levels. */
  lemma SignedRead(ts: TokenList, start: nat, level: nat, arena: Arena, all: Arena, pos: nat, index: int)
    requires start + 1 < |ts| && (level == 2 || level == 6) && SignAt(ts, start, level).Some?
    requires Read(ts, start + 1, level + 1, arena, all, pos, index)
    ensures index == -1 ==> Read(ts, start, level, arena, all, pos, -1)
    ensures index != -1 ==> index >= 0
    ensures index != -1 ==>
      Read(ts, start, level, arena, all + [Unary(SignAt(ts, start, level).value, index)], pos, |all|)
  {
    hide LaidOut;
    if ParseAt(ts, start + 1, level + 1).Some? {
      var x := ParseAt(ts, start + 1, level + 1).value.0;
      IndexIsNatural(arena, all, x, index);
      SignedLaidOut(arena, all, x, SignAt(ts, start, level).value, index);
    }
  }

  lemma PrimaryLevel(ts: TokenList, pos: nat)
    requires pos < |ts|
    ensures ParseAt(ts, pos, 7) == Grammar.ParsePrimary(ts, pos)
  {
  }

  lemma UnsignedRead(ts: TokenList, start: nat, level: nat, arena: Arena, all: Arena, pos: nat, index: int)
    requires start < |ts| && (level == 2 || level == 6) && SignAt(ts, start, level).None?
    requires Read(ts, start, level + 1, arena, all, pos, index)
    ensures Read(ts, start, level, arena, all, pos, index)
  {
    hide LaidOut;
  }
}
