/**
 A table as a relation with positions: data pages in order, each a list of slots that hold a row or
 nothing, and the space the page has left. The meaning of every statement is a function of this
 state alone; which bytes represent it, and where they lie, is the executor's business.
 */
module Relation {
  import opened Bytes
  import opened Values
  import opened Expressions
  import opened Evaluator
  import opened RowCodec
  import opened Statements
  import opened Wrappers

  datatype TablePage = TablePage(rows: seq<Option<Row>>, free: nat)
  type Table = seq<TablePage>

  const FRESH_SPACE: nat := 4080
  const SLOT_COST: nat := 4

  datatype Context = Context(name: Text, schema: Schema, floats: FloatArith)

  function TableEnv(ctx: Context): Env { Env(ColumnNames(ctx.schema), ctx.floats) }

  predicate IsCell(t: Table, p: int, s: int) { 0 <= p < |t| && 0 <= s < |t[p].rows| }

  predicate IsLive(t: Table, p: int, s: int) { IsCell(t, p, s) && t[p].rows[s].Some? }

  /** No page has more free space than a fresh one. */
  ghost predicate Spaced(t: Table) {
    forall q :: 0 <= q < |t| ==> t[q].free <= FRESH_SPACE
  }

  /** Every stored row has an encoding under the schema. */
  ghost predicate Typed(t: Table, schema: Schema) {
    forall p, s :: IsLive(t, p, s) ==> WellTyped(t[p].rows[s].value, schema)
  }

  function PageRows(rows: seq<Option<Row>>): seq<Row> {
    if rows == [] then []
    else if rows[0].Some? then [rows[0].value] + PageRows(rows[1..])
    else PageRows(rows[1..])
  }

  /** The stored rows in (page, slot) order. */
  function LiveRows(t: Table): seq<Row> {
    if t == [] then [] else PageRows(t[0].rows) + LiveRows(t[1..])
  }

  // The primary key: the first column marked so.

  function PrimaryKey(schema: Schema): (k: Option<nat>)
    ensures k.Some? ==> k.value < |schema| && schema[k.value].primaryKey
    ensures k.Some? ==> forall i :: 0 <= i < k.value ==> !schema[i].primaryKey
    ensures k.None? <==> forall i :: 0 <= i < |schema| ==> !schema[i].primaryKey
  {
    if schema == [] then None
    else if schema[0].primaryKey then Some(0)
    else match PrimaryKey(schema[1..])
      case None =>
        assert forall i | 0 < i < |schema| :: schema[i] == schema[1..][i - 1];
        None
      case Some(k) =>
        assert forall i | 0 < i < |schema| :: schema[i] == schema[1..][i - 1];
        Some(k + 1)
  }

  /** The cell holds a row whose key equals `v`. */
  predicate HasKey(cell: Option<Row>, k: nat, v: Value) {
    cell.Some? && k < |cell.value| && ValueEq(cell.value[k], v)
  }

  /** Some live row, other than the one at `skip`, has a key equal to `v`. */
  ghost predicate KeyTaken(t: Table, k: nat, v: Value, skip: Option<(nat, nat)>) {
    exists p, s :: IsLive(t, p, s) && skip != Some((p, s)) && HasKey(t[p].rows[s], k, v)
  }

  /** No two live rows have equal keys, in the value equality of the source. */
  ghost predicate UniqueKeys(t: Table, k: nat) {
    forall p, s, q, r :: IsLive(t, p, s) && IsLive(t, q, r) && (p, s) != (q, r) && k < |t[p].rows[s].value| ==>
      !HasKey(t[q].rows[r], k, t[p].rows[s].value[k])
  }

  // SELECT.

  function Matches(where: Option<Tree>, env: Env, row: Row): Result<bool, ExecError> {
    if where.None? then Ok(true) else Holds(where.value, env, row)
  }

  /** The matching rows in order, or the error of the first row whose condition fails. */
  function SelectRows(rows: seq<Row>, where: Option<Tree>, env: Env): Result<seq<Row>, ExecError> {
    if rows == [] then Ok([])
    else
      var first :- Matches(where, env, rows[0]);
      var rest :- SelectRows(rows[1..], where, env);
      Ok(if first then [rows[0]] + rest else rest)
  }

  function ColumnNameOf(t: Tree): Text {
    if t.Tip? && t.atom.ColumnRef? then t.atom.name else ""
  }

  /** The names of the result, which are also the names its WHERE clause is resolved against. */
  function ResultColumns(columns: seq<Tree>, schema: Schema): seq<Text> {
    if columns == [] then ColumnNames(schema)
    else seq(|columns|, k requires 0 <= k < |columns| => ColumnNameOf(columns[k]))
  }

  // INSERT.

  const NO_COLUMNS: seq<Text> := []

  function EvalAll(values: seq<Tree>, env: Env): Result<Row, ExecError> {
    if values == [] then Ok([])
    else
      var v :- Eval(values[0], env, []);
      var rest :- EvalAll(values[1..], env);
      Ok([v] + rest)
  }

  /** The value an explicit column list gives one column. */
  function NamedValue(c: Column, names: seq<Text>, values: seq<Tree>, env: Env): Result<Value, ExecError>
    requires |names| <= |values|
  {
    match IndexOf(names, c.name)
    case Some(i) => Eval(values[i], env, [])
    case None => if c.notNull then Err(NotNullViolation) else Ok(Null)
  }

  function NamedRow(schema: Schema, names: seq<Text>, values: seq<Tree>, env: Env): (r: Result<Row, ExecError>)
    requires |names| <= |values|
    ensures r.Ok? ==> |r.value| == |schema|
  {
    if schema == [] then Ok([])
    else
      var v :- NamedValue(schema[0], names, values, env);
      var rest :- NamedRow(schema[1..], names, values, env);
      Ok([v] + rest)
  }

  /** The row of an INSERT, with the column-count check. */
  function InsertedRow(ctx: Context, names: seq<Text>, values: seq<Tree>): (r: Result<Row, ExecError>)
    requires |names| <= |values|
    ensures r.Ok? ==> |r.value| == |ctx.schema|
  {
    var env := Env(NO_COLUMNS, ctx.floats);
    if names == [] then
      var row :- EvalAll(values, env);
      if |row| != |ctx.schema| then Err(ColumnCountMismatch) else Ok(row)
    else NamedRow(ctx.schema, names, values, env)
  }

  function EncodingError(e: RowError): ExecError {
    if e == RowError.BadVariantAccess then ExecError.BadVariantAccess else InternalError
  }

  /** The lowest-numbered page with `need` bytes left. */
  function FirstFit(t: Table, need: nat): (p: Option<nat>)
    ensures p.Some? ==> p.value < |t| && t[p.value].free >= need && forall q :: 0 <= q < p.value ==> t[q].free < need
    ensures p.None? ==> forall q :: 0 <= q < |t| ==> t[q].free < need
  {
    if t == [] then None
    else if t[0].free >= need then Some(0)
    else match FirstFit(t[1..], need)
      case None =>
        assert forall q | 0 < q < |t| :: t[q] == t[1..][q - 1];
        None
      case Some(p) =>
        assert forall q | 0 < q < |t| :: t[q] == t[1..][q - 1];
        Some(p + 1)
  }

  /**
   Storing an encoded row of `size` bytes under its 16-bit length; a page is added when none has room,
   even for a row that fits nowhere. A row that would be taken cut short ends the model.
   */
  function Store(t: Table, row: Row, size: nat): (Table, Result<(), ExecError>) {
    var length := Cast16(size);
    match FirstFit(t, length + SLOT_COST)
    case Some(p) =>
      if length == 0 then (t, Err(InternalError))
      else if length != size then (t, Err(RowCut))
      else (t[p := TablePage(t[p].rows + [Some(row)], t[p].free - size - SLOT_COST)], Ok(()))
    case None =>
      if length == 0 || length + SLOT_COST > FRESH_SPACE then (t + [TablePage([], FRESH_SPACE)], Err(InternalError))
      else if length != size then (t, Err(RowCut))
      else (t + [TablePage([Some(row)], FRESH_SPACE - size - SLOT_COST)], Ok(()))
  }

  ghost function InsertMeaning(t: Table, ctx: Context, row: Row): (Table, Result<(), ExecError>)
    requires |row| == |ctx.schema|
  {
    var k := PrimaryKey(ctx.schema);
    if k.Some? && KeyTaken(t, k.value, row[k.value], None) then (t, Err(PrimaryKeyViolation))
    else match Serialized(row, ctx.schema)
      case Err(e) => (t, Err(EncodingError(e)))
      case Ok(bytes) => Store(t, row, |bytes|)
  }

  // DELETE and UPDATE: one step per live row, in (page, slot) order, a whole page at a time.

  datatype Change =
    | Removal(where: Option<Tree>)
    | Assignment(assignments: seq<(Text, Tree)>, where: Option<Tree>)

  /** Every expression is evaluated on the old row; a later assignment to the same column wins. */
  function Assigned(old_: Row, row: Row, assignments: seq<(Text, Tree)>, env: Env): (r: Result<Row, ExecError>)
    requires |row| == |env.columns|
    ensures r.Ok? ==> |r.value| == |row|
    decreases |assignments|
  {
    if assignments == [] then Ok(row)
    else match IndexOf(env.columns, assignments[0].0)
      case None => Err(ErrorGettingData)
      case Some(i) =>
        var v :- Eval(assignments[0].1, env, old_);
        Assigned(old_, row[i := v], assignments[1..], env)
  }

  predicate AssignsKey(ctx: Context, assignments: seq<(Text, Tree)>) {
    var k := PrimaryKey(ctx.schema);
    k.Some? && exists i :: 0 <= i < |assignments| && assignments[i].0 == ctx.schema[k.value].name
  }

  /**
   Replacing the row at one cell by an encoding of `size` bytes under its 16-bit length: in place when
   it does not grow, else out of the page's free space.
   */
  function Replace(page: TablePage, s: nat, row: Row, size: nat): Result<TablePage, ExecError>
    requires s < |page.rows| && page.rows[s].Some?
  {
    var length, inPlace := Cast16(size), Cast16(size) <= RowSize(page.rows[s].value);
    if length == 0 || (!inPlace && page.free < length) then Err(InternalError)
    else if length != size then Err(RowCut)
    else Ok(TablePage(page.rows[s := Some(row)], if inPlace then page.free else page.free - size))
  }

  ghost function UpdateCell(t: Table, p: nat, s: nat, assignments: seq<(Text, Tree)>,
                            ctx: Context): Result<TablePage, ExecError>
    requires IsLive(t, p, s) && |t[p].rows[s].value| == |ctx.schema|
  {
    var row := t[p].rows[s].value;
    var updated :- Assigned(row, row, assignments, TableEnv(ctx));
    if AssignsKey(ctx, assignments)
       && KeyTaken(t, PrimaryKey(ctx.schema).value, updated[PrimaryKey(ctx.schema).value], Some((p, s)))
    then Err(PrimaryKeyViolation)
    else match Serialized(updated, ctx.schema)
      case Err(e) => Err(EncodingError(e))
      case Ok(bytes) => Replace(t[p], s, updated, |bytes|)
  }

  /** What one visit to a cell makes of its page, and whether it counts. */
  ghost function Step(t: Table, p: nat, s: nat, change: Change, ctx: Context): (r: Result<(TablePage, nat), ExecError>)
    requires IsCell(t, p, s) && Typed(t, ctx.schema)
    ensures r.Ok? ==> |r.value.0.rows| == |t[p].rows|
  {
    if t[p].rows[s].None? then Ok((t[p], 0))
    else
      assert WellTyped(t[p].rows[s].value, ctx.schema);
      var hit :- Matches(change.where, TableEnv(ctx), t[p].rows[s].value);
      if !hit then Ok((t[p], 0))
      else match change
        case Removal(_) => Ok((t[p].(rows := t[p].rows[s := None]), 1))
        case Assignment(assignments, _) =>
          var page :- UpdateCell(t, p, s, assignments, ctx);
          Ok((page, 1))
  }

  lemma StepKeepsTyped(t: Table, p: nat, s: nat, change: Change, ctx: Context)
    requires IsCell(t, p, s) && Typed(t, ctx.schema)
    requires Step(t, p, s, change, ctx).Ok?
    ensures Typed(t[p := Step(t, p, s, change, ctx).value.0], ctx.schema)
    ensures forall r :: 0 <= r < |t[p].rows| && r != s ==> Step(t, p, s, change, ctx).value.0.rows[r] == t[p].rows[r]
  {
    var page := Step(t, p, s, change, ctx).value.0;
    var u := t[p := page];
    if t[p].rows[s].Some? && change.Assignment? {
      var row := t[p].rows[s].value;
      assert WellTyped(row, ctx.schema);
      var updated := Assigned(row, row, change.assignments, TableEnv(ctx));
      if updated.Ok? {
        SerializedIffWellTyped(updated.value, ctx.schema);
      }
    }
    forall q, r | IsLive(u, q, r)
      ensures WellTyped(u[q].rows[r].value, ctx.schema)
    {
      if q != p || r != s {
        assert IsLive(t, q, r);
      }
    }
  }

  /** The rest of one page, in memory. */
  ghost function ScanPage(t: Table, p: nat, s: nat, count: nat, change: Change,
                          ctx: Context): (r: Result<(Table, nat), ExecError>)
    requires p < |t| && s <= |t[p].rows| && Typed(t, ctx.schema)
    ensures r.Ok? ==> |r.value.0| == |t| && Typed(r.value.0, ctx.schema)
    decreases |t[p].rows| - s
  {
    if s == |t[p].rows| then Ok((t, count))
    else
      var step :- Step(t, p, s, change, ctx);
      StepKeepsTyped(t, p, s, change, ctx);
      ScanPage(t[p := step.0], p, s + 1, count + step.1, change, ctx)
  }

  /** The rest of the table: a page that fails leaves itself and all later pages as stored. */
  ghost function ScanTable(t: Table, p: nat, count: nat, change: Change, ctx: Context): (Table, Result<nat, ExecError>)
    requires p <= |t| && Typed(t, ctx.schema)
    decreases |t| - p
  {
    if p == |t| then (t, Ok(count))
    else match ScanPage(t, p, 0, count, change, ctx)
      case Err(e) => (t, Err(e))
      case Ok((next, n)) => ScanTable(next, p + 1, n, change, ctx)
  }

  // Whole statements.

  datatype Outcome =
    | Rows(columns: seq<Text>, rows: seq<Row>)
    | Inserted
    | Deleted(count: nat)
    | Updated(count: nat)
    | Failed(error: ExecError)

  /** An INSERT with a column list has at least as many values as names. */
  predicate Executable(q: Query) {
    q.InsertQuery? ==> |q.names| <= |q.values|
  }

  ghost function QueryMeaning(t: Table, ctx: Context, q: Query): (Table, Outcome)
    requires Typed(t, ctx.schema) && Executable(q)
  {
    if q.ValuesQuery? || q.table != ctx.name then (t, Failed(TableSchemaNotFound))
    else match q
      case SelectQuery(columns, _, where) =>
        var names := ResultColumns(columns, ctx.schema);
        (match SelectRows(LiveRows(t), where, Env(names, ctx.floats))
         case Err(e) => (t, Failed(e))
         case Ok(rows) => (t, Rows(names, rows)))
      case InsertQuery(_, names, values) =>
        (match InsertedRow(ctx, names, values)
         case Err(e) => (t, Failed(e))
         case Ok(row) =>
           var (u, r) := InsertMeaning(t, ctx, row);
           (u, if r.Ok? then Inserted else Failed(r.error)))
      case DeleteQuery(_, where) =>
        var (u, r) := ScanTable(t, 0, 0, Removal(where), ctx);
        (u, if r.Ok? then Deleted(r.value) else Failed(r.error))
      case UpdateQuery(_, assignments, where) =>
        var (u, r) := ScanTable(t, 0, 0, Assignment(assignments, where), ctx);
        (u, if r.Ok? then Updated(r.value) else Failed(r.error))
  }
}
