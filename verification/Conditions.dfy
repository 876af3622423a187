/**
 What a WHERE condition means: its AND/OR skeleton is a propositional formula over the conditions
 at its leaves, and evaluation is strict in all of them.
 */
module Conditions {
  import opened Values
  import opened Expressions
  import opened Comparisons
  import opened Evaluator
  import opened Relation
  import opened RelationProofs
  import opened Wrappers

  /** The subtrees reached through AND and OR nodes only. */
  function Leaves(t: Tree): set<Tree> {
    if t.Node? && (t.op == AND || t.op == OR) then Leaves(t.left) + Leaves(t.right) else {t}
  }

  /** The propositional value under a valuation of the leaves. */
  predicate Truth(t: Tree, held: set<Tree>) {
    if t.Node? && t.op == AND then Truth(t.left, held) && Truth(t.right, held)
    else if t.Node? && t.op == OR then Truth(t.left, held) || Truth(t.right, held)
    else t in held
  }

  /** The leaves that hold on a row. */
  function TrueLeaves(t: Tree, env: Env, row: Row): set<Tree> {
    set leaf | leaf in Leaves(t) && Holds(leaf, env, row) == Ok(true)
  }

  /** Only the leaves of the condition itself matter. */
  lemma {:induction false} TruthLocal(t: Tree, held: set<Tree>, other: set<Tree>)
    requires held * Leaves(t) == other * Leaves(t)
    ensures Truth(t, held) == Truth(t, other)
  {
    if t.Node? && (t.op == AND || t.op == OR) {
      assert held * Leaves(t.left) == held * Leaves(t) * Leaves(t.left);
      assert other * Leaves(t.left) == other * Leaves(t) * Leaves(t.left);
      assert held * Leaves(t.right) == held * Leaves(t) * Leaves(t.right);
      assert other * Leaves(t.right) == other * Leaves(t) * Leaves(t.right);
      TruthLocal(t.left, held, other);
      TruthLocal(t.right, held, other);
    } else {
      assert t in held <==> t in held * Leaves(t);
      assert t in other <==> t in other * Leaves(t);
    }
  }

  /**
   The strict meaning of a condition: it fails exactly when one of its leaves fails, and otherwise
   has the propositional value of its leaves.
   */
  lemma {:induction false} StrictMeaning(t: Tree, env: Env, row: Row)
    ensures Holds(t, env, row).Ok? <==> forall leaf :: leaf in Leaves(t) ==> Holds(leaf, env, row).Ok?
    ensures Holds(t, env, row).Ok? ==> Holds(t, env, row).value == Truth(t, TrueLeaves(t, env, row))
  {
    if t.Node? && (t.op == AND || t.op == OR) {
      StrictMeaning(t.left, env, row);
      StrictMeaning(t.right, env, row);
      assert TrueLeaves(t, env, row) * Leaves(t.left) == TrueLeaves(t.left, env, row) * Leaves(t.left);
      assert TrueLeaves(t, env, row) * Leaves(t.right) == TrueLeaves(t.right, env, row) * Leaves(t.right);
      TruthLocal(t.left, TrueLeaves(t, env, row), TrueLeaves(t.left, env, row));
      TruthLocal(t.right, TrueLeaves(t, env, row), TrueLeaves(t.right, env, row));
    } else {
      assert Leaves(t) == {t};
    }
  }

  /** The leaves from left to right. */
  function LeavesInOrder(t: Tree): (leaves: seq<Tree>)
    ensures forall leaf :: leaf in leaves <==> leaf in Leaves(t)
  {
    if t.Node? && (t.op == AND || t.op == OR) then LeavesInOrder(t.left) + LeavesInOrder(t.right) else [t]
  }

  ghost function LeafResults(t: Tree, env: Env, row: Row): seq<Result<bool, ExecError>> {
    var leaves := LeavesInOrder(t);
    seq(|leaves|, i requires 0 <= i < |leaves| => Holds(leaves[i], env, row))
  }

  /** A condition fails with the error of the first of its leaves that fails. */
  lemma {:induction false} FirstErrorCounts(t: Tree, env: Env, row: Row, e: ExecError)
    ensures Holds(t, env, row) == Err(e) <==> FirstError(LeafResults(t, env, row), e)
    ensures Holds(t, env, row).Ok? <==> AllOk(LeafResults(t, env, row))
  {
    hide FirstError, AllOk;
    if t.Node? && (t.op == AND || t.op == OR) {
      FirstErrorCounts(t.left, env, row, e);
      FirstErrorCounts(t.right, env, row, e);
      var l, r := LeafResults(t.left, env, row), LeafResults(t.right, env, row);
      assert LeafResults(t, env, row) == l + r;
      FirstErrorOfBoth(l, r, e);
    } else {
      assert LeafResults(t, env, row) == [Holds(t, env, row)];
      FirstErrorOfOne(Holds(t, env, row), e);
    }
  }

  /**
   When a leaf of a condition fails, exactly. What is not binary passes as true, whatever it is; a
   binary leaf evaluates if both its operands do, it is no arithmetic, and, if it orders them, they are
   two values of one ordered type.
   */
  lemma {:induction false} LeafFailsIff(t: Tree, leaf: Tree, env: Env, row: Row)
    requires leaf in Leaves(t)
    ensures !leaf.Node? ==> Holds(leaf, env, row) == Ok(true)
    ensures leaf.Node? ==>
      (Holds(leaf, env, row).Ok? <==>
        && Eval(leaf.left, env, row).Ok? && Eval(leaf.right, env, row).Ok?
        && !IsArithmetic(leaf.op)
        && (Orders(leaf.op) ==> Comparable(Eval(leaf.left, env, row).value, Eval(leaf.right, env, row).value)))
  {
    LeavesAreLeaves(t, leaf);
  }

  lemma {:induction false} LeavesAreLeaves(t: Tree, leaf: Tree)
    requires leaf in Leaves(t)
    ensures !(leaf.Node? && (leaf.op == AND || leaf.op == OR))
  {
    if t.Node? && (t.op == AND || t.op == OR) {
      if leaf in Leaves(t.left) {
        LeavesAreLeaves(t.left, leaf);
      } else {
        LeavesAreLeaves(t.right, leaf);
      }
    }
  }

  /** Same leaves, same truth table. */
  ghost predicate Equivalent(t: Tree, u: Tree) {
    Leaves(t) == Leaves(u) && forall held :: Truth(t, held) == Truth(u, held)
  }

  /**
   Any rearrangement of a condition that keeps its leaves and its truth table keeps both its value
   and whether it fails, on every row.
   */
  lemma EquivalentConditions(t: Tree, u: Tree, env: Env, row: Row)
    requires Equivalent(t, u)
    ensures Holds(t, env, row).Ok? == Holds(u, env, row).Ok?
    ensures Holds(t, env, row).Ok? ==> Holds(t, env, row) == Holds(u, env, row)
  {
    StrictMeaning(t, env, row);
    StrictMeaning(u, env, row);
    assert TrueLeaves(t, env, row) == TrueLeaves(u, env, row);
  }

  lemma Rearrangements(a: Tree, b: Tree, c: Tree, op: BinaryOperator, other: BinaryOperator)
    requires (op == AND && other == OR) || (op == OR && other == AND)
    ensures Equivalent(Node(op, a, b), Node(op, b, a))
    ensures Equivalent(Node(op, Node(op, a, b), c), Node(op, a, Node(op, b, c)))
    ensures Equivalent(Node(op, a, Node(other, b, c)), Node(other, Node(op, a, b), Node(op, a, c)))
  {
  }

  lemma Congruence(op: BinaryOperator, t: Tree, u: Tree, rest: Tree)
    requires op == AND || op == OR
    requires Equivalent(t, u)
    ensures Equivalent(Node(op, t, rest), Node(op, u, rest))
    ensures Equivalent(Node(op, rest, t), Node(op, rest, u))
  {
  }

  /** One AND or OR around a condition, which stands on its left or on its right. */
  datatype Frame = LeftOf(op: BinaryOperator, rest: Tree) | RightOf(op: BinaryOperator, rest: Tree)

  /** A condition deep inside AND and OR nodes, the innermost first. */
  function Plug(t: Tree, frames: seq<Frame>): Tree
    decreases |frames|
  {
    if frames == [] then t
    else match frames[0]
      case LeftOf(op, rest) => Plug(Node(op, t, rest), frames[1..])
      case RightOf(op, rest) => Plug(Node(op, rest, t), frames[1..])
  }

  /** An equivalent condition may stand at any place under the ANDs and ORs of a larger one. */
  lemma {:induction false} CongruenceAnywhere(t: Tree, u: Tree, frames: seq<Frame>)
    requires Equivalent(t, u)
    requires forall i :: 0 <= i < |frames| ==> frames[i].op == AND || frames[i].op == OR
    ensures Equivalent(Plug(t, frames), Plug(u, frames))
    decreases |frames|
  {
    hide Equivalent;
    if frames != [] {
      Congruence(frames[0].op, t, u, frames[0].rest);
      match frames[0]
      case LeftOf(op, rest) => CongruenceAnywhere(Node(op, t, rest), Node(op, u, rest), frames[1..]);
      case RightOf(op, rest) => CongruenceAnywhere(Node(op, rest, t), Node(op, rest, u), frames[1..]);
    }
  }

  // What conditions are read to mean, and NOT.

  /** The two-valued reading, strict in all operands: NOT negates, and a BOOLEAN is the condition that it is true. */
  function Reading(t: Tree, env: Env, row: Row): Result<bool, ExecError> {
    if t.Node? && (t.op == AND || t.op == OR) then
      var left :- Reading(t.left, env, row);
      var right :- Reading(t.right, env, row);
      Ok(if t.op == AND then left && right else left || right)
    else if t.Node? then
      var left :- Eval(t.left, env, row);
      var right :- Eval(t.right, env, row);
      ApplyCondition(t.op, left, right)
    else if t.Prefix? && t.uop == NOT then
      var negated :- Reading(t.operand, env, row);
      Ok(!negated)
    else
      var v :- Eval(t, env, row);
      if v.Bool? then Ok(v.b) else Err(TypeMismatch)
  }

  /** Every leaf under the ANDs and ORs is a comparison, or at least binary. */
  predicate OnlyBinary(t: Tree) { forall leaf :: leaf in Leaves(t) ==> leaf.Node? }

  /** Such a condition is evaluated as it reads, on every row. */
  lemma {:induction false} HoldsAsRead(t: Tree, env: Env, row: Row)
    requires OnlyBinary(t)
    ensures Holds(t, env, row) == Reading(t, env, row)
  {
    hide Eval, ApplyCondition;
    if t.Node? && (t.op == AND || t.op == OR) {
      HoldsAsRead(t.left, env, row);
      HoldsAsRead(t.right, env, row);
    } else {
      assert t in Leaves(t);
    }
  }

  /** NOT does not negate: it passes every row, as it reads on a row exactly when what it negates is false there. */
  lemma NotHoldsAsReadIff(c: Tree, env: Env, row: Row)
    requires OnlyBinary(c)
    ensures Holds(Prefix(NOT, c), env, row) == Ok(true)
    ensures Holds(Prefix(NOT, c), env, row) == Reading(Prefix(NOT, c), env, row) <==> Holds(c, env, row) == Ok(false)
  {
    HoldsAsRead(c, env, row);
  }

  lemma {:induction false} NotKeepsAll(rows: seq<Row>, c: Tree, env: Env)
    ensures SelectRows(rows, Some(Prefix(NOT, c)), env) == Ok(rows)
  {
    if rows != [] {
      assert Matches(Some(Prefix(NOT, c)), env, rows[0]) == Ok(true);
      hide Matches;
      NotKeepsAll(rows[1..], c, env);
      assert rows == [rows[0]] + rows[1..];
    }
  }

  lemma {:induction false} KeepsAllIff(rows: seq<Row>, where: Option<Tree>, env: Env)
    ensures rows == Filter(rows, where, env, false) <==> Filter(rows, where, env, true) == []
  {
    hide Hit;
    if rows != [] {
      KeepsAllIff(rows[1..], where, env);
      FilterSizes(rows[1..], where, env);
      assert rows == [rows[0]] + rows[1..];
    }
  }

  /** `SELECT ... WHERE NOT c` returns every row: the rows on which `c` does not hold exactly when it holds on none. */
  lemma NotSelectsAll(rows: seq<Row>, c: Tree, env: Env)
    ensures SelectRows(rows, Some(Prefix(NOT, c)), env) == Ok(rows)
    ensures rows == Filter(rows, Some(c), env, false) <==> Filter(rows, Some(c), env, true) == []
  {
    NotKeepsAll(rows, c, env);
    KeepsAllIff(rows, Some(c), env);
  }

  /** `NOT a = 1` passes the row (1), on which it reads false. */
  lemma NotOfATruth(floats: FloatArith)
    ensures var c := Node(EQUAL, Tip(ColumnRef("", "a")), Tip(LiteralInt(1)));
      && Holds(Prefix(NOT, c), Env(["a"], floats), [Int(1)]) == Ok(true)
      && Reading(Prefix(NOT, c), Env(["a"], floats), [Int(1)]) == Ok(false)
  {
    assert IndexOf(["a"], "a") == Some(0);
  }
}
