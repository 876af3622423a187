/**
 The parser function and the yield are inverse: what is parsed is a derivation of exactly the
 consumed tokens, and every derivation is parsed back, so the grammar is unambiguous.
 */
module GrammarProofs {
  import opened Tokens
  import opened Expressions
  import opened Grammar
  import opened Wrappers

  // Soundness.

  /** The tokens from `start` to `end` derive `c` at `level`. */
  ghost predicate Derives(ts: TokenList, start: nat, end: nat, c: Cst, level: nat) {
    && start <= end < |ts|
    && Derivation(c)
    && Level(c) >= level
    && ts[start..end] == Yield(c)
  }

  lemma OperatorTokensAt(ts: TokenList, pos: nat)
    requires OperatorAt(ts, pos).Some?
    ensures var op := OperatorAt(ts, pos).value;
      pos + |OperatorTokens(op)| < |ts| && ts[pos..pos + |OperatorTokens(op)|] == OperatorTokens(op)
  {
  }

  /** Two derived operands with an operator between them. */
  lemma DerivesChain(ts: TokenList, start: nat, pos: nat, end: nat, left: Cst, right: Cst)
    requires OperatorAt(ts, pos).Some?
    requires var op := OperatorAt(ts, pos).value;
      && Derives(ts, start, pos, left, LevelOf(op))
      && Derives(ts, pos + |OperatorTokens(op)|, end, right, LevelOf(op) + 1)
    ensures var op := OperatorAt(ts, pos).value; Derives(ts, start, end, Chain(op, left, right), LevelOf(op))
  {
    var op := OperatorAt(ts, pos).value;
    var n := |OperatorTokens(op)|;
    OperatorTokensAt(ts, pos);
    hide OperatorAt, OperatorTokens, LevelOf;
    assert ts[start..end] == ts[start..pos] + ts[pos..pos + n] + ts[pos + n..end];
  }

  lemma DerivesSigned(ts: TokenList, start: nat, end: nat, op: UnaryOperator, x: Cst)
    requires start < |ts| && ts[start] == SignToken(op)
    requires Derives(ts, start + 1, end, x, SignLevel(op) + 1)
    ensures Derives(ts, start, end, Signed(op, x), SignLevel(op))
  {
    assert ts[start..end] == [ts[start]] + ts[start + 1..end];
  }

  lemma DerivesParen(ts: TokenList, start: nat, end: nat, inner: Cst)
    requires start < |ts| && ts[start] == Sign(LeftParen)
    requires Derives(ts, start + 1, end, inner, 0)
    requires Current(ts, end) == Sign(RightParen)
    ensures Derives(ts, start, end + 1, Paren(inner), PRIMARY)
  {
    assert ts[start..end + 1] == [ts[start]] + ts[start + 1..end] + [ts[end]];
  }

  lemma DerivesAtom(ts: TokenList, start: nat)
    requires start < |ts|
    requires ParsePrimary(ts, start).Some? && Current(ts, start) != Sign(LeftParen)
    ensures var (c, end) := ParsePrimary(ts, start).value; Derives(ts, start, end, c, PRIMARY)
  {
    var (c, end) := ParsePrimary(ts, start).value;
    if c.Qualified? {
      assert ts[start..end] == [ts[start], ts[start + 1], ts[start + 2]];
    } else {
      assert ts[start..end] == [ts[start]];
    }
  }

  /**
   Soundness: on every token list, an expression the parser accepts is a derivation of the
   precedence grammar whose tokens are exactly the consumed ones.
   */
  lemma {:induction false} ParseSound(ts: TokenList, pos: nat, level: nat)
    requires pos < |ts| && level <= PRIMARY && ParseAt(ts, pos, level).Some?
    ensures var (c, end) := ParseAt(ts, pos, level).value; Derives(ts, pos, end, c, level)
    decreases |ts| - pos, PRIMARY - level, 1
  {
    hide Derives;
    if level == PRIMARY {
      PrimarySound(ts, pos);
    } else if level == 2 || level == 6 {
      var sign := SignAt(ts, pos, level);
      if sign.None? {
        ParseSound(ts, pos, level + 1);
        DerivesLower(ts, pos, level);
      } else {
        ParseSound(ts, pos + 1, level + 1);
        var (x, end) := ParseAt(ts, pos + 1, level + 1).value;
        DerivesSigned(ts, pos, end, sign.value, x);
      }
    } else {
      ParseSound(ts, pos, level + 1);
      DerivesLower(ts, pos, level);
      var (left, end) := ParseAt(ts, pos, level + 1).value;
      ChainSound(ts, pos, left, end, level);
    }
  }

  lemma DerivesLower(ts: TokenList, pos: nat, level: nat)
    requires pos < |ts| && level < PRIMARY && ParseAt(ts, pos, level + 1).Some?
    requires var (c, end) := ParseAt(ts, pos, level + 1).value; Derives(ts, pos, end, c, level + 1)
    ensures var (c, end) := ParseAt(ts, pos, level + 1).value; Derives(ts, pos, end, c, level)
  {
  }

  lemma {:induction false} ChainSound(ts: TokenList, start: nat, left: Cst, pos: nat, level: nat)
    requires start < pos < |ts| && level < PRIMARY && ParseChain(ts, left, pos, level).Some?
    requires Derives(ts, start, pos, left, level)
    ensures var (c, end) := ParseChain(ts, left, pos, level).value; Derives(ts, start, end, c, level)
    decreases |ts| - pos, PRIMARY, 0
  {
    hide Derives, OperatorAt, OperatorTokens;
    var op := OperatorAt(ts, pos);
    if op.Some? && LevelOf(op.value) == level {
      OperatorTokensAt(ts, pos);
      var next := pos + |OperatorTokens(op.value)|;
      ParseSound(ts, next, level + 1);
      var (right, end) := ParseAt(ts, next, level + 1).value;
      DerivesChain(ts, start, pos, end, left, right);
      ChainSound(ts, start, Chain(op.value, left, right), end, level);
    }
  }

  lemma {:induction false} PrimarySound(ts: TokenList, pos: nat)
    requires pos < |ts| && ParsePrimary(ts, pos).Some?
    ensures var (c, end) := ParsePrimary(ts, pos).value; Derives(ts, pos, end, c, PRIMARY)
    decreases |ts| - pos, 0, 0
  {
    hide Derives;
    if Current(ts, pos) == Sign(LeftParen) {
      ParseSound(ts, pos + 1, 0);
      var (inner, end) := ParseAt(ts, pos + 1, 0).value;
      DerivesParen(ts, pos, end, inner);
    } else {
      DerivesAtom(ts, pos);
    }
  }

  // Completeness.

  /** The last thing read was a name, which a dot would make a table name. */
  predicate EndsInName(c: Cst) {
    match c
    case Name(_) => true
    case Signed(_, x) => EndsInName(x)
    case Chain(_, _, r) => EndsInName(r)
    case _ => false
  }

  /** What stands at `pos` cannot continue `c`: no operator of this level or a higher one, and no dot after a name. */
  ghost predicate Stops(ts: TokenList, pos: nat, c: Cst, level: nat) {
    && (EndsInName(c) ==> Current(ts, pos) != Sign(Dot))
    && (OperatorAt(ts, pos).Some? ==> LevelOf(OperatorAt(ts, pos).value) < level)
  }

  /** `c` is written at `pos`, and the list goes on after it. */
  ghost predicate WrittenAt(ts: TokenList, pos: nat, c: Cst) {
    pos + |Yield(c)| < |ts| && ts[pos..pos + |Yield(c)|] == Yield(c)
  }

  lemma SliceOfSlice<T>(s: seq<T>, at: nat, n: nat, i: nat, j: nat)
    requires i <= j <= n && at + n <= |s|
    ensures s[at..at + n][i..j] == s[at + i..at + j]
  {
    var part, direct := s[at..at + n][i..j], s[at + i..at + j];
    assert forall k | 0 <= k < j - i :: part[k] == s[at..at + n][i + k] == s[at + (i + k)] == direct[k];
  }

  lemma OperatorFromTokens(ts: TokenList, pos: nat, left: Cst, op: BinaryOperator)
    requires Current(ts, pos) == OperatorTokens(op)[0]
    requires op == IS ==> Current(ts, pos + 1) != Sign(Not)
    requires op == IS_NOT ==> Current(ts, pos + 1) == Sign(Not)
    ensures OperatorAt(ts, pos) == Some(op)
    ensures Stops(ts, pos, left, LevelOf(op) + 1)
  {
    hide LevelOf, EndsInName;
  }

  lemma OperatorThere(ts: TokenList, pos: nat, left: Cst, op: BinaryOperator, right: Cst)
    requires pos + |OperatorTokens(op)| < |ts|
    requires ts[pos..pos + |OperatorTokens(op)|] == OperatorTokens(op)
    requires Derivation(right) && Level(right) > LevelOf(op)
    requires WrittenAt(ts, pos + |OperatorTokens(op)|, right)
    ensures OperatorAt(ts, pos) == Some(op)
    ensures Stops(ts, pos, left, LevelOf(op) + 1)
  {
    hide Yield, Derivation, OperatorAt, Stops;
    var n := |OperatorTokens(op)|;
    assert ts[pos] == ts[pos..pos + n][0];
    if op == IS {
      FirstToken(right);
      assert ts[pos + 1] == ts[pos + n..pos + n + |Yield(right)|][0];
    } else if op == IS_NOT {
      assert ts[pos + 1] == ts[pos..pos + n][1];
    }
    OperatorFromTokens(ts, pos, left, op);
  }

  /** Above level 2 no expression starts with NOT, which is what keeps IS apart from IS NOT. */
  lemma {:induction false} FirstToken(c: Cst)
    requires Derivation(c) && Level(c) > 2
    ensures Yield(c)[0] != Sign(Not)
  {
    match c
    case Chain(_, l, _) => FirstToken(l);
    case _ =>
  }

  /** And above level 6 none starts with a minus. */
  lemma {:induction false} FirstTokenOfPrimary(c: Cst)
    requires Derivation(c) && Level(c) == PRIMARY
    ensures Yield(c)[0] != Sign(Minus) && Yield(c)[0] != Sign(Not)
  {
  }

  lemma NoSignHere(ts: TokenList, pos: nat, c: Cst, level: nat)
    requires Derivation(c) && Level(c) > level && WrittenAt(ts, pos, c)
    requires level == 2 || level == 6
    ensures SignAt(ts, pos, level).None?
  {
    assert ts[pos] == ts[pos..pos + |Yield(c)|][0];
    FirstToken(c);
    if level == 6 {
      FirstTokenOfPrimary(c);
    }
  }

  /**
   Completeness: a derivation written anywhere in a token list, followed by a token that cannot
   continue it, is parsed back as itself and consumes exactly its own tokens.
   */
  lemma {:induction false} ParseComplete(ts: TokenList, pos: nat, c: Cst, level: nat)
    requires level <= PRIMARY && Derivation(c) && Level(c) >= level
    requires WrittenAt(ts, pos, c) && Stops(ts, pos + |Yield(c)|, c, level)
    ensures ParseAt(ts, pos, level) == Some((c, pos + |Yield(c)|))
    decreases c, PRIMARY - level, 1
  {
    var end := pos + |Yield(c)|;
    assert end < |ts|;
    hide ParseAt, ParseChain, OperatorAt, SignAt, Yield, Derivation, WrittenAt, Stops;
    if level == PRIMARY {
      PrimaryComplete(ts, pos, c);
    } else if level == 2 || level == 6 {
      if Level(c) > level {
        NoSignHere(ts, pos, c, level);
        StopsHigher(ts, end, c, level);
        ParseComplete(ts, pos, c, level + 1);
        NoSignStarts(ts, pos, level);
      } else {
        SignedComplete(ts, pos, c, level);
      }
    } else {
      StopsHigher(ts, end, c, level);
      ChainComplete(ts, pos, c, level);
      ChainEnds(ts, c, end, level);
    }
  }

  lemma NoSignStarts(ts: TokenList, pos: nat, level: nat)
    requires pos < |ts| && (level == 2 || level == 6) && SignAt(ts, pos, level).None?
    ensures ParseAt(ts, pos, level) == ParseAt(ts, pos, level + 1)
  {
  }

  lemma ChainEnds(ts: TokenList, c: Cst, pos: nat, level: nat)
    requires pos < |ts| && level < PRIMARY && Stops(ts, pos, c, level)
    ensures ParseChain(ts, c, pos, level) == Some((c, pos))
  {
  }

  lemma StopsHigher(ts: TokenList, pos: nat, c: Cst, level: nat)
    requires Stops(ts, pos, c, level)
    ensures Stops(ts, pos, c, level + 1)
  {
  }

  lemma StopsLastOperand(ts: TokenList, pos: nat, c: Cst, level: nat)
    requires Stops(ts, pos, c, level)
    ensures c.Signed? ==> Stops(ts, pos, c.operand, level)
    ensures c.Chain? ==> Stops(ts, pos, c.right, level)
  {
  }

  lemma {:induction false} SignedComplete(ts: TokenList, pos: nat, c: Cst, level: nat)
    requires (level == 2 || level == 6) && Derivation(c) && Level(c) == level
    requires WrittenAt(ts, pos, c) && Stops(ts, pos + |Yield(c)|, c, level)
    ensures ParseAt(ts, pos, level) == Some((c, pos + |Yield(c)|))
    decreases c, 0, 0
  {
    hide ParseAt;
    var x, n := c.operand, |Yield(c)|;
    assert Yield(c) == [SignToken(c.uop)] + Yield(x) + [];
    assert SignLevel(c.uop) == level;
    hide Yield;
    SplitThree(ts, pos, [SignToken(c.uop)], Yield(x), []);
    assert ts[pos] == ts[pos..pos + 1][0];
    StopsHigher(ts, pos + n, c, level);
    StopsLastOperand(ts, pos + n, c, level + 1);
    hide Stops, ParseAt, WrittenAt, Derivation;
    ParseComplete(ts, pos + 1, x, level + 1);
    SignStarts(ts, pos, c.uop, x, pos + n);
  }

  lemma SignStarts(ts: TokenList, pos: nat, op: UnaryOperator, x: Cst, end: nat)
    requires pos < |ts| - 1 && ts[pos] == SignToken(op)
    requires ParseAt(ts, pos + 1, SignLevel(op) + 1) == Some((x, end))
    ensures ParseAt(ts, pos, SignLevel(op)) == Some((Signed(op, x), end))
  {
  }

  /** The loop of a level, once it has read `c`, goes on as if it had started with it. */
  lemma {:induction false} ChainComplete(ts: TokenList, pos: nat, c: Cst, level: nat)
    requires level < PRIMARY && level != 2 && level != 6 && Derivation(c) && Level(c) >= level
    requires WrittenAt(ts, pos, c) && Stops(ts, pos + |Yield(c)|, c, level + 1)
    ensures ParseAt(ts, pos, level) == ParseChain(ts, c, pos + |Yield(c)|, level)
    decreases c, PRIMARY - level, 0
  {
    hide WrittenAt, Derivation, Stops, Yield, OperatorTokens, OperatorAt, ParseAt, ParseChain;
    var end := pos + |Yield(c)|;
    if Level(c) > level {
      ParseComplete(ts, pos, c, level + 1);
      ChainStarts(ts, pos, c, end, level);
    } else {
      var op, l, r := c.op, c.left, c.right;
      var middle := pos + |Yield(l)|;
      SplitChain(ts, pos, c);
      OperatorThere(ts, middle, l, op, r);
      StopsLastOperand(ts, end, c, level + 1);
      ChainComplete(ts, pos, l, level);
      ParseComplete(ts, middle + |OperatorTokens(op)|, r, level + 1);
      ChainGoesOn(ts, l, middle, op, r, end);
    }
  }

  lemma ChainStarts(ts: TokenList, pos: nat, c: Cst, end: nat, level: nat)
    requires pos < |ts| && level < PRIMARY && level != 2 && level != 6
    requires ParseAt(ts, pos, level + 1) == Some((c, end))
    ensures ParseAt(ts, pos, level) == ParseChain(ts, c, end, level)
  {
  }

  lemma ChainGoesOn(ts: TokenList, left: Cst, pos: nat, op: BinaryOperator, right: Cst, end: nat)
    requires pos + |OperatorTokens(op)| < |ts| && end < |ts|
    requires OperatorAt(ts, pos) == Some(op)
    requires ParseAt(ts, pos + |OperatorTokens(op)|, LevelOf(op) + 1) == Some((right, end))
    ensures ParseChain(ts, left, pos, LevelOf(op)) == ParseChain(ts, Chain(op, left, right), end, LevelOf(op))
  {
    hide OperatorAt, OperatorTokens, LevelOf, ParseAt;
  }

  lemma SplitChain(ts: TokenList, pos: nat, c: Cst)
    requires c.Chain? && Derivation(c) && WrittenAt(ts, pos, c)
    ensures var m, n := |Yield(c.left)|, |OperatorTokens(c.op)|;
      && |Yield(c)| == m + n + |Yield(c.right)|
      && Derivation(c.left) && Level(c.left) >= LevelOf(c.op)
      && Derivation(c.right) && Level(c.right) > LevelOf(c.op)
      && WrittenAt(ts, pos, c.left)
      && pos + m + n < |ts|
      && ts[pos + m..pos + m + n] == OperatorTokens(c.op)
      && WrittenAt(ts, pos + m + n, c.right)
  {
    var a, b, d := Yield(c.left), OperatorTokens(c.op), Yield(c.right);
    assert Yield(c) == a + b + d;
    hide Yield, OperatorTokens;
    SplitThree(ts, pos, a, b, d);
  }

  lemma SplitThree<T>(s: seq<T>, pos: nat, a: seq<T>, b: seq<T>, c: seq<T>)
    requires pos + |a + b + c| <= |s| && s[pos..pos + |a + b + c|] == a + b + c
    ensures s[pos..pos + |a|] == a
    ensures s[pos + |a|..pos + |a| + |b|] == b
    ensures s[pos + |a| + |b|..pos + |a| + |b| + |c|] == c
  {
    var n := |a + b + c|;
    SliceOfSlice(s, pos, n, 0, |a|);
    SliceOfSlice(s, pos, n, |a|, |a| + |b|);
    SliceOfSlice(s, pos, n, |a| + |b|, n);
  }

  lemma {:induction false} PrimaryComplete(ts: TokenList, pos: nat, c: Cst)
    requires Derivation(c) && Level(c) == PRIMARY
    requires WrittenAt(ts, pos, c) && Stops(ts, pos + |Yield(c)|, c, PRIMARY)
    ensures ParseAt(ts, pos, PRIMARY) == Some((c, pos + |Yield(c)|))
    decreases c, 0, 0
  {
    var n := |Yield(c)|;
    var all := ts[pos..pos + n];
    assert ts[pos] == all[0];
    match c
    case Literal(_) =>
    case Name(_) =>
    case Qualified(_, _) =>
      assert ts[pos + 1] == all[1] && ts[pos + 2] == all[2];
    case Paren(inner) =>
      ParenComplete(ts, pos, inner);
    case Signed(_, _) =>
    case Chain(_, _, _) =>
  }

  lemma {:induction false} ParenComplete(ts: TokenList, pos: nat, inner: Cst)
    requires Derivation(inner) && WrittenAt(ts, pos, Paren(inner))
    ensures ParsePrimary(ts, pos) == Some((Paren(inner), pos + |Yield(inner)| + 2))
    decreases inner, PRIMARY + 1, 0
  {
    var end := pos + 1 + |Yield(inner)|;
    assert Yield(Paren(inner)) == [Sign(LeftParen)] + Yield(inner) + [Sign(RightParen)];
    hide Yield, ParseAt, ParsePrimary;
    SplitThree(ts, pos, [Sign(LeftParen)], Yield(inner), [Sign(RightParen)]);
    assert ts[pos] == ts[pos..pos + 1][0] && ts[end] == ts[end..end + 1][0];
    ParenStops(ts, end, inner);
    hide Stops;
    ParseComplete(ts, pos + 1, inner, 0);
    ParenCloses(ts, pos, inner, end);
  }

  lemma ParenStops(ts: TokenList, pos: nat, inner: Cst)
    requires Current(ts, pos) == Sign(RightParen)
    ensures Stops(ts, pos, inner, 0)
  {
  }

  lemma ParenCloses(ts: TokenList, pos: nat, inner: Cst, end: nat)
    requires pos < |ts| - 1 && ts[pos] == Sign(LeftParen)
    requires ParseAt(ts, pos + 1, 0) == Some((inner, end))
    requires Current(ts, end) == Sign(RightParen)
    ensures ParsePrimary(ts, pos) == Some((Paren(inner), end + 1))
  {
  }
}
