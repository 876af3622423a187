/**
 Evaluation of expressions and WHERE conditions on one row. The evaluator of the source recurses
 through arena indices; it is shown to terminate and to agree with recursion over the tree.
 */
module Evaluator {
  import opened Values
  import opened Expressions
  import opened Wrappers

  /**
   The errors of a statement. The last three have no counterpart in the source's enumeration, and end
   what the model says of a run: `BadVariantAccess` is an exception that nothing catches,
   `IntegerOverflow` stands for signed overflow, for which C++ defines no result, and `RowCut` for a row
   that the source reports as stored, but whose 16-bit length is not the length of its encoding, so that
   what is read there later depends on the bytes that happen to follow.
   */
  datatype ExecError =
    | TableSchemaNotFound | ErrorGettingData | TypeMismatch | DivisionByZero | InvalidExpression | ColumnCountMismatch
    | NotNullViolation | PrimaryKeyViolation | NotImplemented | InternalError
    | BadVariantAccess | IntegerOverflow | RowCut

  /** The column names a condition is resolved against, and the platform's float arithmetic. */
  datatype Env = Env(columns: seq<Text>, floats: FloatArith)

  // Names.

  /** The first position of `name`. */
  function IndexOf(names: seq<Text>, name: Text): (r: Option<nat>)
    ensures r.Some? ==> r.value < |names| && names[r.value] == name && name !in names[..r.value]
    ensures r.None? <==> name !in names
  {
    if names == [] then None
    else if names[0] == name then Some(0)
    else match IndexOf(names[1..], name)
      case None => None
      case Some(i) =>
        assert names[..i + 1] == [names[0]] + names[1..][..i];
        Some(i + 1)
  }

  function ColumnValue(row: Row, columns: seq<Text>, name: Text): Result<Value, ExecError> {
    match IndexOf(columns, name)
    case None => Err(ErrorGettingData)
    case Some(i) => if i < |row| then Ok(row[i]) else Err(ErrorGettingData)
  }

  // Operators on values.

  function Checked(n: int): Result<Value, ExecError> {
    if -TWO63 <= n < TWO63 then Ok(Int(n)) else Err(IntegerOverflow)
  }

  /** Division that truncates toward zero. */
  function Quotient(l: int, r: int): int
    requires r != 0
  {
    if l >= 0 then l / r else -((-l) / r)
  }

  function ApplyArithmetic(op: BinaryOperator, left: Value, right: Value,
                           floats: FloatArith): Result<Value, ExecError> {
    match (left, right)
    case (Int(l), Int(r)) => (
      match op
      case ADD => Checked(l + r)
      case SUBTRACT => Checked(l - r)
      case MULTIPLY => Checked(l * r)
      case DIVIDE => if r == 0 then Err(DivisionByZero) else Checked(Quotient(l, r))
      case _ => Err(TypeMismatch))
    case (Flt(l), Flt(r)) => (
      match op
      case ADD => Ok(Flt(floats.add(l, r)))
      case SUBTRACT => Ok(Flt(floats.subtract(l, r)))
      case MULTIPLY => Ok(Flt(floats.multiply(l, r)))
      case DIVIDE => Ok(Flt(floats.divide(l, r)))
      case _ => Err(TypeMismatch))
    case (Str(l), Str(r)) => if op == ADD then Ok(Str(l + r)) else Err(TypeMismatch)
    case (_, _) => Err(TypeMismatch)
  }

  predicate IsArithmetic(op: BinaryOperator) {
    op == ADD || op == SUBTRACT || op == MULTIPLY || op == DIVIDE
  }

  function ApplyBinary(op: BinaryOperator, left: Value, right: Value, floats: FloatArith): Result<Value, ExecError> {
    if IsArithmetic(op) then ApplyArithmetic(op, left, right, floats) else Err(InvalidExpression)
  }

  function ApplyUnary(op: UnaryOperator, v: Value): Result<Value, ExecError> {
    match op
    case NEGATE => (
      match v
      case Int(i) => Checked(-(i as int))
      case Flt(f) => Ok(Flt(FloatNegate(f)))
      case _ => Err(TypeMismatch))
    case NOT => if v.Bool? then Ok(Bool(!v.b)) else Err(TypeMismatch)
  }

  function CompareValues(left: Value, right: Value): Result<int, ExecError> {
    match (left, right)
    case (Int(l), Int(r)) => Ok(if l == r then 0 else if l < r then -1 else 1)
    case (Flt(l), Flt(r)) => Ok(if FloatEq(l, r) then 0 else if FloatLess(l, r) then -1 else 1)
    case (Str(l), Str(r)) => Ok(CompareText(l, r))
    case (_, _) => Err(TypeMismatch)
  }

  /** A binary condition other than AND and OR, once its operands are known. */
  function ApplyCondition(op: BinaryOperator, left: Value, right: Value): Result<bool, ExecError> {
    match op
    case EQUAL => Ok(ValueEq(left, right))
    case NOT_EQUAL => Ok(!ValueEq(left, right))
    case LESS_THAN =>
      var c :- CompareValues(left, right);
      Ok(c < 0)
    case LESS_THAN_OR_EQUAL =>
      var c :- CompareValues(left, right);
      Ok(c <= 0)
    case GREATER_THAN =>
      var c :- CompareValues(left, right);
      Ok(c > 0)
    case GREATER_THAN_OR_EQUAL =>
      var c :- CompareValues(left, right);
      Ok(c >= 0)
    case IS => Ok(if left.Null? || right.Null? then left.Null? && right.Null? else ValueEq(left, right))
    case IS_NOT => Ok(if left.Null? || right.Null? then !(left.Null? && right.Null?) else !ValueEq(left, right))
    case _ => Err(NotImplemented)
  }

  function EvalAtom(a: Atom, env: Env, row: Row): Result<Value, ExecError> {
    match a
    case LiteralInt(i) => Ok(Int(i))
    case LiteralFloat(digits) => Ok(Flt(env.floats.parse(digits)))
    case LiteralText(s) => Ok(Str(s))
    case LiteralBool(b) => Ok(Bool(b))
    case LiteralNull => Ok(Null)
    case ColumnRef(prefix, name) => if prefix == "" then ColumnValue(row, env.columns, name) else Err(NotImplemented)
    case Star => Err(InvalidExpression)
  }

  // Over trees.

  function Eval(t: Tree, env: Env, row: Row): Result<Value, ExecError> {
    match t
    case Tip(a) => EvalAtom(a, env, row)
    case Node(op, l, r) =>
      var left :- Eval(l, env, row);
      var right :- Eval(r, env, row);
      ApplyBinary(op, left, right, env.floats)
    case Prefix(op, x) =>
      var v :- Eval(x, env, row);
      ApplyUnary(op, v)
  }

  /** Both sides of AND and OR are always evaluated, and what is not binary passes as true. */
  function Holds(t: Tree, env: Env, row: Row): Result<bool, ExecError> {
    if !t.Node? then Ok(true)
    else if t.op == AND then
      var left :- Holds(t.left, env, row);
      var right :- Holds(t.right, env, row);
      Ok(left && right)
    else if t.op == OR then
      var left :- Holds(t.left, env, row);
      var right :- Holds(t.right, env, row);
      Ok(left || right)
    else
      var left :- Eval(t.left, env, row);
      var right :- Eval(t.right, env, row);
      ApplyCondition(t.op, left, right)
  }

  // Over arena indices, as in the source. Children lying before their parents is what ends the recursion.

  function EvalExpr(arena: Arena, i: nat, env: Env, row: Row): (r: Result<Value, ExecError>)
    requires ChildrenFirst(arena) && i < |arena|
    ensures r == Eval(TreeAt(arena, i), env, row)
    decreases i
  {
    assert NodeInside(arena[i], i);
    match arena[i]
    case Leaf(a) => EvalAtom(a, env, row)
    case Binary(op, l, r) =>
      var left :- EvalExpr(arena, l, env, row);
      var right :- EvalExpr(arena, r, env, row);
      ApplyBinary(op, left, right, env.floats)
    case Unary(op, x) =>
      var v :- EvalExpr(arena, x, env, row);
      ApplyUnary(op, v)
  }

  function EvalWhere(arena: Arena, i: nat, env: Env, row: Row): (r: Result<bool, ExecError>)
    requires ChildrenFirst(arena) && i < |arena|
    ensures r == Holds(TreeAt(arena, i), env, row)
    decreases i
  {
    assert NodeInside(arena[i], i);
    if !arena[i].Binary? then Ok(true)
    else
      var l, r := arena[i].leftIndex, arena[i].rightIndex;
      if arena[i].op == AND then
        var left :- EvalWhere(arena, l, env, row);
        var right :- EvalWhere(arena, r, env, row);
        Ok(left && right)
      else if arena[i].op == OR then
        var left :- EvalWhere(arena, l, env, row);
        var right :- EvalWhere(arena, r, env, row);
        Ok(left || right)
      else
        var left :- EvalExpr(arena, l, env, row);
        var right :- EvalExpr(arena, r, env, row);
        ApplyCondition(arena[i].op, left, right)
  }
}
