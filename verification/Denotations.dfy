/**
 What an expression denotes on a row, and which error it has, as relations that say what the result
 is and not how to find it; and that the evaluator finds exactly that.
 */
module Denotations {
  import opened Values
  import opened Expressions
  import opened Comparisons
  import opened Evaluator
  import opened Wrappers

  // One operator.

  function Distance(n: int): nat { if n < 0 then -n else n }

  /** `q` is the quotient rounded toward zero: what is left has the sign of the dividend. */
  ghost predicate Truncates(l: int, r: int, q: int) {
    exists m :: l == q * r + m && Distance(m) < Distance(r) && (m > 0 ==> l > 0) && (m < 0 ==> l < 0)
  }

  ghost predicate IntResult(op: BinaryOperator, l: int, r: int, n: int) {
    || (op == ADD && n == l + r)
    || (op == SUBTRACT && n == l - r)
    || (op == MULTIPLY && n == l * r)
    || (op == DIVIDE && Truncates(l, r, n))
  }

  function FloatResult(op: BinaryOperator, l: Float, r: Float, floats: FloatArith): Float
    requires IsArithmetic(op)
  {
    match op
    case ADD => floats.add(l, r)
    case SUBTRACT => floats.subtract(l, r)
    case MULTIPLY => floats.multiply(l, r)
    case _ => floats.divide(l, r)
  }

  /** Two numbers of one type have a number of that type, and the sum of two texts is one after the other. */
  ghost predicate Computes(op: BinaryOperator, l: Value, r: Value, floats: FloatArith, v: Value) {
    if l.Int? && r.Int? then v.Int? && IntResult(op, l.i, r.i, v.i)
    else if l.Flt? && r.Flt? then IsArithmetic(op) && v == Flt(FloatResult(op, l.f, r.f, floats))
    else l.Str? && r.Str? && op == ADD && v == Str(l.s + r.s)
  }

  ghost predicate Faults(op: BinaryOperator, l: Value, r: Value, e: ExecError) {
    if op !in {ADD, SUBTRACT, MULTIPLY, DIVIDE} then e == InvalidExpression
    else if l.Int? && r.Int? then
      if op == DIVIDE && r.i == 0 then e == DivisionByZero
      else e == IntegerOverflow && exists n :: IntResult(op, l.i, r.i, n) && !(-TWO63 <= n < TWO63)
    else e == TypeMismatch && !(l.Flt? && r.Flt?) && !(l.Str? && r.Str? && op == ADD)
  }

  lemma NoMultipleBetween(k: int, r: int)
    requires Distance(k * r) < Distance(r)
    ensures k == 0
  {
    if k != 0 {
      DistanceOfProduct(k, r);
      MultiplesGrow(Distance(k), Distance(r));
    }
  }

  lemma DistanceOfProduct(k: int, r: int)
    ensures Distance(k * r) == Distance(k) * Distance(r)
  {
    SignsOfProduct(k, r);
    SignsOfProduct(-k, r);
  }

  lemma SignsOfProduct(k: int, r: int)
    ensures -k * r == -(k * r) && k * -r == -(k * r)
    ensures k >= 0 && r >= 0 ==> k * r >= 0
  {
  }

  lemma {:induction false} MultiplesGrow(k: nat, r: nat)
    requires k > 0
    ensures r <= k * r
  {
    if k > 1 {
      MultiplesGrow(k - 1, r);
      assert k * r == (k - 1) * r + r;
    }
  }

  lemma DivideAndLeave(a: int, r: int)
    requires r != 0
    ensures a == a / r * r + a % r && 0 <= a % r < Distance(r)
  {
  }

  lemma NegatedProduct(q: int, r: int)
    ensures -q * r == -(q * r)
  {
  }

  lemma RemainderOf(l: int, r: int, product: int, m: int)
    requires Distance(l) == product + m && 0 <= m < Distance(r) && product >= 0
    ensures var n := l - (if l >= 0 then product else -product);
      Distance(n) < Distance(r) && (n > 0 ==> l > 0) && (n < 0 ==> l < 0)
  {
  }

  lemma QuotientLeaves(l: int, r: int)
    requires r != 0
    ensures var n := l - Quotient(l, r) * r; Distance(n) < Distance(r) && (n > 0 ==> l > 0) && (n < 0 ==> l < 0)
  {
    var a: int := Distance(l);
    DivideAndLeave(a, r);
    QuotientIs(l, r, a / r);
    var q, m := a / r, a % r;
    hide Quotient, Distance;
    NegatedProduct(q, r);
    if q * r < 0 {
      assert Distance(q * r) < Distance(r) by { DistanceBelow(q * r, r); }
      NoMultipleBetween(q, r);
    }
    RemainderOf(l, r, q * r, m);
  }

  lemma DistanceBelow(n: int, r: int)
    requires n <= 0 && n > -(Distance(r) as int)
    ensures Distance(n) < Distance(r)
  {
  }

  lemma QuotientIs(l: int, r: int, q: int)
    requires r != 0 && q == (Distance(l) as int) / r
    ensures Quotient(l, r) == if l >= 0 then q else -q
  {
  }

  lemma DifferenceOfProducts(q: int, p: int, r: int)
    ensures (q - p) * r == q * r - p * r
  {
  }

  lemma QuotientTruncates(l: int, r: int, q: int)
    requires r != 0
    ensures Truncates(l, r, q) <==> q == Quotient(l, r)
  {
    var p := Quotient(l, r);
    QuotientLeaves(l, r);
    hide Quotient;
    var n := l - p * r;
    assert l == p * r + n;
    if Truncates(l, r, q) {
      var m :| l == q * r + m && Distance(m) < Distance(r) && (m > 0 ==> l > 0) && (m < 0 ==> l < 0);
      DifferenceOfProducts(q, p, r);
      NoMultipleBetween(q - p, r);
    }
  }

  lemma IntegersCompute(op: BinaryOperator, l: int64, r: int64, floats: FloatArith, v: Value, e: ExecError)
    ensures ApplyBinary(op, Int(l), Int(r), floats) == Ok(v) <==> Computes(op, Int(l), Int(r), floats, v)
    ensures ApplyBinary(op, Int(l), Int(r), floats) == Err(e) <==> Faults(op, Int(l), Int(r), e)
  {
    if op == DIVIDE && r != 0 {
      forall n
        ensures Truncates(l, r, n) <==> n == Quotient(l, r)
      {
        QuotientTruncates(l, r, n);
      }
    }
    hide Truncates, Quotient;
    if op == DIVIDE && r == 0 && v.Int? {
      NoQuotientByZero(l, v.i);
    }
    ResultInRange(op, l, r);
    hide IntResult;
  }

  /** The one result of an operator on integers, for which the evaluator checks the range. */
  lemma ResultInRange(op: BinaryOperator, l: int64, r: int64)
    requires op == DIVIDE && r != 0 ==> forall n :: Truncates(l, r, n) <==> n == Quotient(l, r)
    ensures IsArithmetic(op) && !(op == DIVIDE && r == 0) ==>
      exists n :: IntResult(op, l, r, n) && (forall k :: IntResult(op, l, r, k) ==> k == n)
        && forall floats: FloatArith :: ApplyBinary(op, Int(l), Int(r), floats) == Checked(n)
  {
    hide Truncates, Quotient, Checked;
    if IsArithmetic(op) && !(op == DIVIDE && r == 0) {
      var n := match op
        case ADD => l + r
        case SUBTRACT => l - r
        case MULTIPLY => l * r
        case DIVIDE => Quotient(l, r)
        case _ => 0;
      assert IntResult(op, l, r, n);
    }
  }

  lemma NoQuotientByZero(l: int, q: int)
    ensures !Truncates(l, 0, q)
  {
  }

  lemma OtherValuesCompute(op: BinaryOperator, l: Value, r: Value, floats: FloatArith)
    requires !(l.Int? && r.Int?)
    ensures forall v :: ApplyBinary(op, l, r, floats) == Ok(v) <==> Computes(op, l, r, floats, v)
    ensures forall e :: ApplyBinary(op, l, r, floats) == Err(e) <==> Faults(op, l, r, e)
  {
    hide IntResult, Quotient, Checked;
  }

  /** Every binary operator on every two values: its value, and its error. */
  lemma OperatorComputes(op: BinaryOperator, l: Value, r: Value, floats: FloatArith)
    ensures forall v :: ApplyBinary(op, l, r, floats) == Ok(v) <==> Computes(op, l, r, floats, v)
    ensures forall e :: ApplyBinary(op, l, r, floats) == Err(e) <==> Faults(op, l, r, e)
  {
    hide *;
    if l.Int? && r.Int? {
      forall v
        ensures ApplyBinary(op, l, r, floats) == Ok(v) <==> Computes(op, l, r, floats, v)
      {
        IntegersCompute(op, l.i, r.i, floats, v, NotImplemented);
      }
      forall e
        ensures ApplyBinary(op, l, r, floats) == Err(e) <==> Faults(op, l, r, e)
      {
        IntegersCompute(op, l.i, r.i, floats, Null, e);
      }
    } else {
      OtherValuesCompute(op, l, r, floats);
    }
  }

  ghost predicate Flips(op: UnaryOperator, x: Value, v: Value) {
    match op
    case NOT => x.Bool? && v.Bool? && (v.b <==> !x.b)
    case NEGATE =>
      || (x.Int? && v.Int? && x.i as int + v.i as int == 0)
      || (x.Flt? && v.Flt? && v.f != x.f && Fraction(v.f) == Fraction(x.f) && Exponent(v.f) == Exponent(x.f))
  }

  ghost predicate FlipFaults(op: UnaryOperator, x: Value, e: ExecError) {
    match op
    case NOT => !x.Bool? && e == TypeMismatch
    case NEGATE => if x.Int? then x.i == -TWO63 && e == IntegerOverflow else !x.Flt? && e == TypeMismatch
  }

  lemma SignOnly(f: Float, g: Float)
    ensures g == FloatNegate(f) <==> g != f && Fraction(g) == Fraction(f) && Exponent(g) == Exponent(f)
  {
    Fields(f);
    Fields(g);
    SignFlipped(f);
    Fields(FloatNegate(f));
    hide FloatNegate;
    SameFields(Exponent(f), Fraction(f), Exponent(FloatNegate(f)), Fraction(FloatNegate(f)));
    hide Fraction, Exponent, Negative;
  }

  lemma UnaryFlips(op: UnaryOperator, x: Value)
    ensures forall v :: ApplyUnary(op, x) == Ok(v) <==> Flips(op, x, v)
    ensures forall e :: ApplyUnary(op, x) == Err(e) <==> FlipFaults(op, x, e)
  {
    if x.Flt? {
      forall g
        ensures g == FloatNegate(x.f) <==> g != x.f && Fraction(g) == Fraction(x.f) && Exponent(g) == Exponent(x.f)
      {
        SignOnly(x.f, g);
      }
    }
    hide FloatNegate, Fraction, Exponent;
  }

  // Atoms: a name reads the cell of its first column.

  ghost predicate AtomDenotes(a: Atom, env: Env, row: Row, v: Value) {
    match a
    case LiteralInt(i) => v == Int(i)
    case LiteralFloat(digits) => v == Flt(env.floats.parse(digits))
    case LiteralText(s) => v == Str(s)
    case LiteralBool(b) => v == Bool(b)
    case LiteralNull => v == Null
    case ColumnRef(prefix, name) =>
      prefix == "" && exists i: nat :: FirstAt(env.columns, name, i) && i < |row| && v == row[i]
    case Star => false
  }

  predicate FirstAt(names: seq<Text>, name: Text, i: nat) {
    i < |names| && names[i] == name && forall j :: 0 <= j < i ==> names[j] != name
  }

  ghost predicate AtomFaults(a: Atom, env: Env, row: Row, e: ExecError) {
    match a
    case ColumnRef(prefix, name) =>
      if prefix != "" then e == NotImplemented
      else e == ErrorGettingData && forall i: nat :: FirstAt(env.columns, name, i) ==> i >= |row|
    case Star => e == InvalidExpression
    case _ => false
  }

  lemma FirstIsIndexOf(names: seq<Text>, name: Text, i: nat)
    ensures FirstAt(names, name, i) <==> IndexOf(names, name) == Some(i)
  {
    var found := IndexOf(names, name);
    hide IndexOf;
    if found.Some? && i < found.value {
      assert names[..found.value][i] == names[i];
    }
    if found == Some(i) {
      forall j | 0 <= j < i
        ensures names[j] != name
      {
        assert names[..i][j] == names[j];
      }
    }
  }

  lemma AtomMeans(a: Atom, env: Env, row: Row)
    ensures forall v :: EvalAtom(a, env, row) == Ok(v) <==> AtomDenotes(a, env, row, v)
    ensures forall e :: EvalAtom(a, env, row) == Err(e) <==> AtomFaults(a, env, row, e)
  {
    if a.ColumnRef? {
      forall i: nat
        ensures FirstAt(env.columns, a.name, i) <==> IndexOf(env.columns, a.name) == Some(i)
      {
        FirstIsIndexOf(env.columns, a.name, i);
      }
      hide FirstAt, IndexOf;
    }
  }

  // Expressions.

  ghost predicate Denotes(t: Tree, env: Env, row: Row, v: Value) {
    match t
    case Tip(a) => AtomDenotes(a, env, row, v)
    case Node(op, l, r) =>
      exists lv, rv :: Denotes(l, env, row, lv) && Denotes(r, env, row, rv) && Computes(op, lv, rv, env.floats, v)
    case Prefix(op, x) => exists xv :: Denotes(x, env, row, xv) && Flips(op, xv, v)
  }

  /** The error is that of the first operand that has one, else of the operator. */
  ghost predicate Blames(t: Tree, env: Env, row: Row, e: ExecError) {
    match t
    case Tip(a) => AtomFaults(a, env, row, e)
    case Node(op, l, r) =>
      || Blames(l, env, row, e)
      || (exists lv :: Denotes(l, env, row, lv) && Blames(r, env, row, e))
      || (exists lv, rv :: Denotes(l, env, row, lv) && Denotes(r, env, row, rv) && Faults(op, lv, rv, e))
    case Prefix(op, x) => Blames(x, env, row, e) || exists xv :: Denotes(x, env, row, xv) && FlipFaults(op, xv, e)
  }

  /** The evaluator finds what the expression denotes, or what it blames. */
  ghost predicate Understood(t: Tree, env: Env, row: Row) {
    && (forall v :: Eval(t, env, row) == Ok(v) <==> Denotes(t, env, row, v))
    && (forall e :: Eval(t, env, row) == Err(e) <==> Blames(t, env, row, e))
  }

  /** Evaluation finds the value an expression denotes, and the error it has, and nothing else. */
  lemma {:induction false} EvalMeans(t: Tree, env: Env, row: Row)
    ensures Understood(t, env, row)
  {
    hide ApplyBinary, ApplyUnary, EvalAtom, Computes, Faults, Flips, FlipFaults, AtomDenotes, AtomFaults;
    match t
    case Tip(a) =>
      AtomMeans(a, env, row);
    case Node(op, l, r) =>
      EvalMeans(l, env, row);
      EvalMeans(r, env, row);
      NodeMeans(op, l, r, env, row);
    case Prefix(op, x) =>
      EvalMeans(x, env, row);
      PrefixMeans(op, x, env, row);
  }

  lemma NodeMeans(op: BinaryOperator, l: Tree, r: Tree, env: Env, row: Row)
    requires Understood(l, env, row) && Understood(r, env, row)
    ensures Understood(Node(op, l, r), env, row)
  {
    hide ApplyBinary, Computes, Faults;
    var t, left, right := Node(op, l, r), Eval(l, env, row), Eval(r, env, row);
    if left.Ok? && right.Ok? {
      OperatorComputes(op, left.value, right.value, env.floats);
    }
    Witnessed(l, env, row);
    Witnessed(r, env, row);
    forall v
      ensures Denotes(t, env, row, v) <==>
        left.Ok? && right.Ok? && Computes(op, left.value, right.value, env.floats, v)
    {
    }
    forall e
      ensures Blames(t, env, row, e) <==>
        if left.Err? then e == left.error
        else if right.Err? then e == right.error
        else Faults(op, left.value, right.value, e)
    {
    }
  }

  lemma Witnessed(t: Tree, env: Env, row: Row)
    requires Understood(t, env, row)
    ensures if Eval(t, env, row).Ok? then Denotes(t, env, row, Eval(t, env, row).value)
            else Blames(t, env, row, Eval(t, env, row).error)
    ensures forall v :: Denotes(t, env, row, v) ==> Eval(t, env, row) == Ok(v)
    ensures forall e :: Blames(t, env, row, e) ==> Eval(t, env, row) == Err(e)
  {
    hide Eval, Denotes, Blames;
  }

  lemma PrefixMeans(op: UnaryOperator, x: Tree, env: Env, row: Row)
    requires Understood(x, env, row)
    ensures Understood(Prefix(op, x), env, row)
  {
    hide ApplyUnary, Flips, FlipFaults;
    var t, operand := Prefix(op, x), Eval(x, env, row);
    if operand.Ok? {
      UnaryFlips(op, operand.value);
    }
    Witnessed(x, env, row);
    forall v
      ensures Denotes(t, env, row, v) <==> operand.Ok? && Flips(op, operand.value, v)
    {
    }
    forall e
      ensures Blames(t, env, row, e) <==> if operand.Err? then e == operand.error else FlipFaults(op, operand.value, e)
    {
    }
  }

  // Conditions that are no AND and no OR.

  /** The comparison holds, or does not, of what the operands denote. */
  ghost predicate ComparisonDenotes(op: BinaryOperator, l: Tree, r: Tree, env: Env, row: Row, b: bool) {
    exists lv, rv :: Denotes(l, env, row, lv) && Denotes(r, env, row, rv)
      && Compares(op) && (Orders(op) ==> Comparable(lv, rv)) && (b <==> Says(op, lv, rv))
  }

  ghost predicate ComparisonBlames(op: BinaryOperator, l: Tree, r: Tree, env: Env, row: Row, e: ExecError) {
    || Blames(l, env, row, e)
    || (exists lv :: Denotes(l, env, row, lv) && Blames(r, env, row, e))
    || (exists lv, rv :: Denotes(l, env, row, lv) && Denotes(r, env, row, rv)
          && if Compares(op) then Orders(op) && !Comparable(lv, rv) && e == TypeMismatch else e == NotImplemented)
  }

  /** Each comparison on each row: its truth, and its error. */
  lemma ComparisonHolds(op: BinaryOperator, l: Tree, r: Tree, env: Env, row: Row, b: bool, e: ExecError)
    requires op != AND && op != OR
    ensures Holds(Node(op, l, r), env, row) == Ok(b) <==> ComparisonDenotes(op, l, r, env, row, b)
    ensures Holds(Node(op, l, r), env, row) == Err(e) <==> ComparisonBlames(op, l, r, env, row, e)
  {
    EvalMeans(l, env, row);
    EvalMeans(r, env, row);
    hide ApplyCondition, Says, Comparable, Denotes, Blames, Eval, Compares, Orders;
    var left, right := Eval(l, env, row), Eval(r, env, row);
    if left.Ok? && right.Ok? {
      ComparisonMeans(op, left.value, right.value);
    }
  }
}
