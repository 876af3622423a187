/** What a run does to the rows of the table, outcome by outcome, and to their number. */
module RunProofs {
  import opened Values
  import opened Expressions
  import opened Evaluator
  import opened RowCodec
  import opened Statements
  import opened Relation
  import opened RelationProofs
  import opened InsertProofs
  import opened UpdateProofs
  import opened Sessions
  import opened Wrappers

  // One statement.

  /** A DELETE got through the first rows, page by page, and left the others alone. */
  ghost predicate PartlyDeleted(before: seq<Row>, after: seq<Row>, where: Option<Tree>, ctx: Context) {
    exists i :: 0 <= i <= |before| && after == Filter(before[..i], where, TableEnv(ctx), false) + before[i..]
  }

  /** An UPDATE got through the first rows, page by page, and left the others alone. */
  ghost predicate PartlyUpdated(before: seq<Row>, after: seq<Row>, change: Change, ctx: Context) {
    && |after| == |before|
    && exists i :: 0 <= i <= |before| && RowsUpdated(before[..i], after[..i], change, ctx) && after[i..] == before[i..]
  }

  /**
   The headings of a SELECT, against which its condition is resolved: the columns of the table in their
   order without a list, and with one, for each expression, its column name, or nothing if it is none.
   */
  predicate Headings(names: seq<Text>, columns: seq<Tree>, schema: Schema) {
    if columns == [] then |names| == |schema| && forall i :: 0 <= i < |schema| ==> names[i] == schema[i].name
    else |names| == |columns| && forall i :: 0 <= i < |columns| ==>
      if columns[i].Tip? && columns[i].atom.ColumnRef? then names[i] == columns[i].atom.name else names[i] == ""
  }

  /** The statement is about the table. */
  predicate Addresses(q: Query, ctx: Context) { !q.ValuesQuery? && q.table == ctx.name }

  /** A result of all rows, when there is no condition. */
  predicate AllWithout(where: Option<Tree>, rows: seq<Row>, all: seq<Row>) { where.None? ==> rows == all }

  /** The outcome of one input tells what became of the rows. */
  ghost predicate Accounted(before: seq<Row>, after: seq<Row>, q: Option<Query>, outcome: Option<Outcome>, ctx: Context) {
    if q.None? || outcome.None? then q.None? && outcome.None? && after == before
    else if !Addresses(q.value, ctx) then outcome.value == Failed(TableSchemaNotFound) && after == before
    else OutcomeAccounted(before, after, q.value, outcome.value, ctx)
  }

  ghost predicate OutcomeAccounted(before: seq<Row>, after: seq<Row>, q: Query, outcome: Outcome, ctx: Context) {
    match outcome
    case Rows(names, rows) =>
      && q.SelectQuery? && after == before && Headings(names, q.columns, ctx.schema)
      && rows == Filter(before, q.where, Env(names, ctx.floats), true) && AllWithout(q.where, rows, before)
    case Inserted =>
      && q.InsertQuery? && Executable(q)
      && exists row :: RowIs(ctx, q.names, q.values, row) && multiset(after) == multiset(before) + multiset{row}
    case Deleted(n) =>
      && q.DeleteQuery? && after == Filter(before, q.where, TableEnv(ctx), false)
      && n == |Filter(before, q.where, TableEnv(ctx), true)| && AllWithout(q.where, [], after)
    case Updated(n) =>
      && q.UpdateQuery? && RowsUpdated(before, after, Assignment(q.assignments, q.where), ctx)
      && n == |Filter(before, q.where, TableEnv(ctx), true)| && (q.where.None? ==> n == |before|)
    case Failed(_) =>
      match q
      case DeleteQuery(_, where) => PartlyDeleted(before, after, where, ctx)
      case UpdateQuery(_, assignments, where) => PartlyUpdated(before, after, Assignment(assignments, where), ctx)
      case _ => after == before
  }

  lemma {:induction false} NoConditionKeepsAll(rows: seq<Row>, env: Env)
    ensures Filter(rows, None, env, true) == rows && Filter(rows, None, env, false) == []
  {
    if rows != [] {
      NoConditionKeepsAll(rows[1..], env);
    }
  }

  lemma ResultHeadings(columns: seq<Tree>, schema: Schema)
    ensures Headings(ResultColumns(columns, schema), columns, schema)
  {
  }

  /** `SELECT *` resolves its condition as DELETE and UPDATE do. */
  lemma StarReadsTheTable(names: seq<Text>, ctx: Context)
    requires Headings(names, [], ctx.schema)
    ensures Env(names, ctx.floats) == TableEnv(ctx)
  {
    assert names == ColumnNames(ctx.schema);
  }

  lemma InsertAddsOneRow(t: Table, ctx: Context, row: Row)
    requires |row| == |ctx.schema|
    ensures var (u, r) := InsertMeaning(t, ctx, row);
      if r.Ok? then multiset(LiveRows(u)) == multiset(LiveRows(t)) + multiset{row} else LiveRows(u) == LiveRows(t)
  {
    hide LiveRows, Serialized, KeyTaken, Store, PrimaryKey;
    var bytes := Serialized(row, ctx.schema);
    if bytes.Ok? {
      StoreAddsOneRow(t, row, |bytes.value|);
    }
  }

  /** The pages a scan got through, and the rest. */
  lemma SplitAt(t: Table, u: Table, failed: nat, change: Change, ctx: Context)
    requires failed <= |t| && Mapped(t, u, 0, failed, change, ctx)
    ensures |u| == |t| && u[failed..] == t[failed..]
    ensures forall q :: 0 <= q < failed ==> AllBecome(t[..failed][q].rows, u[..failed][q].rows, change, ctx)
    ensures LiveRows(t) == LiveRows(t[..failed]) + LiveRows(t[failed..])
    ensures LiveRows(u) == LiveRows(u[..failed]) + LiveRows(t[failed..])
  {
    hide LiveRows, AllBecome;
    assert t == t[..failed] + t[failed..] && u == u[..failed] + t[failed..];
    LiveRowsAppend(t[..failed], t[failed..]);
    LiveRowsAppend(u[..failed], t[failed..]);
  }

  lemma DeleteAccounted(t: Table, ctx: Context, where: Option<Tree>)
    requires Typed(t, ctx.schema)
    ensures var (u, r) := ScanTable(t, 0, 0, Removal(where), ctx);
      if r.Ok? then LiveRows(u) == Filter(LiveRows(t), where, TableEnv(ctx), false)
                    && r.value == |Filter(LiveRows(t), where, TableEnv(ctx), true)|
      else PartlyDeleted(LiveRows(t), LiveRows(u), where, ctx)
  {
    hide ScanTable, Typed, LiveRows, Filter, Mapped;
    var (u, r) := ScanTable(t, 0, 0, Removal(where), ctx);
    if r.Ok? {
      RowsLeft(t, where, ctx);
    } else {
      var failed := ScanMaps(t, 0, 0, Removal(where), ctx);
      SplitAt(t, u, failed, Removal(where), ctx);
      RemovedFromTable(t[..failed], u[..failed], where, ctx);
      var i := |LiveRows(t[..failed])|;
      assert LiveRows(t)[..i] == LiveRows(t[..failed]) && LiveRows(t)[i..] == LiveRows(t[failed..]);
    }
  }

  lemma UpdateAccounted(t: Table, ctx: Context, assignments: seq<(Text, Tree)>, where: Option<Tree>)
    requires Typed(t, ctx.schema)
    ensures var change := Assignment(assignments, where);
      var (u, r) := ScanTable(t, 0, 0, change, ctx);
      if r.Ok? then RowsUpdated(LiveRows(t), LiveRows(u), change, ctx)
                    && r.value == |Filter(LiveRows(t), where, TableEnv(ctx), true)|
      else PartlyUpdated(LiveRows(t), LiveRows(u), change, ctx)
  {
    hide ScanTable, Typed, LiveRows, Filter, Mapped, RowsUpdated;
    var change := Assignment(assignments, where);
    var (u, r) := ScanTable(t, 0, 0, change, ctx);
    var failed := ScanMaps(t, 0, 0, change, ctx);
    SplitAt(t, u, failed, change, ctx);
    UpdatedTable(t[..failed], u[..failed], change, ctx);
    if r.Ok? {
      assert t[..failed] == t && u[..failed] == u;
    } else {
      SameNumber(LiveRows(t[..failed]), LiveRows(u[..failed]), change, ctx);
      var i := |LiveRows(t[..failed])|;
      assert LiveRows(t)[..i] == LiveRows(t[..failed]) && LiveRows(t)[i..] == LiveRows(t[failed..]);
      assert LiveRows(u)[..i] == LiveRows(u[..failed]) && LiveRows(u)[i..] == LiveRows(t[failed..]);
    }
  }

  lemma SameNumber(before: seq<Row>, after: seq<Row>, change: Change, ctx: Context)
    requires RowsUpdated(before, after, change, ctx)
    ensures |after| == |before|
  {
  }

  lemma QueryAccounted(t: Table, ctx: Context, q: Query)
    requires Typed(t, ctx.schema) && Executable(q)
    ensures var (u, outcome) := QueryMeaning(t, ctx, q);
      Accounted(LiveRows(t), LiveRows(u), Some(q), Some(outcome), ctx)
  {
    hide Typed, ScanTable, InsertMeaning, InsertedRow, SelectRows, LiveRows, ResultColumns, Filter, RowsUpdated, RowIs;
    hide Headings, PartlyDeleted, PartlyUpdated, Executable;
    if Addresses(q, ctx) {
      NoConditionKeepsAll(LiveRows(t), TableEnv(ctx));
      match q
      case SelectQuery(columns, _, where) =>
        ResultHeadings(columns, ctx.schema);
        var env := Env(ResultColumns(columns, ctx.schema), ctx.floats);
        NoConditionKeepsAll(LiveRows(t), env);
        SelectIsFilter(LiveRows(t), where, env);
      case InsertQuery(_, names, values) => InsertQueryAccounted(t, ctx, q);
      case DeleteQuery(_, where) => DeleteAccounted(t, ctx, where);
      case UpdateQuery(_, assignments, where) => UpdateAccounted(t, ctx, assignments, where);
    }
  }

  lemma InsertQueryAccounted(t: Table, ctx: Context, q: Query)
    requires Typed(t, ctx.schema) && Executable(q) && q.InsertQuery? && Addresses(q, ctx)
    ensures var (u, outcome) := QueryMeaning(t, ctx, q);
      OutcomeAccounted(LiveRows(t), LiveRows(u), q, outcome, ctx)
  {
    hide Typed, InsertMeaning, InsertedRow, LiveRows, RowIs;
    var row := InsertedRow(ctx, q.names, q.values);
    if row.Ok? {
      RowOfInsert(ctx, q.names, q.values, row.value, NotImplemented);
      InsertAddsOneRow(t, ctx, row.value);
    }
  }

  // Why a statement fails.

  /** What goes wrong, in the order of the checks. */
  ghost predicate FailsWith(t: Table, ctx: Context, q: Query, e: ExecError)
    requires Executable(q)
  {
    if !Addresses(q, ctx) then e == TableSchemaNotFound
    else match q
      case SelectQuery(columns, _, where) =>
        exists names :: Headings(names, columns, ctx.schema)
          && FirstError(Checks(LiveRows(t), where, Env(names, ctx.floats)), e)
      case InsertQuery(_, names, values) =>
        || RowFails(ctx, names, values, e)
        || exists row :: RowIs(ctx, names, values, row) && Refuses(LiveRows(t), ctx, row, e)
      case DeleteQuery(_, where) => FirstError(Checks(LiveRows(t), where, TableEnv(ctx)), e)
      case UpdateQuery(_, assignments, where) => UpdateFails(t, Assignment(assignments, where), ctx, e)
      case ValuesQuery(_) => false
  }

  /**
   A statement that fails has the error of the first thing that goes wrong, and a SELECT, INSERT or
   DELETE for which something goes wrong fails.
   */
  lemma QueryFailsWith(t: Table, ctx: Context, q: Query, e: ExecError)
    requires Typed(t, ctx.schema) && Spaced(t) && Executable(q)
    ensures QueryMeaning(t, ctx, q).1 == Failed(e) ==> FailsWith(t, ctx, q, e)
    ensures !(q.UpdateQuery? && Addresses(q, ctx)) && FailsWith(t, ctx, q, e) ==> QueryMeaning(t, ctx, q).1 == Failed(e)
  {
    hide Typed, Spaced, ScanTable, InsertMeaning, InsertedRow, SelectRows, LiveRows, FirstError, Headings;
    hide RowIs, RowFails, Refuses, UpdateFails, Checks;
    if Addresses(q, ctx) {
      match q
      case SelectQuery(columns, _, where) => SelectFailsWith(t, ctx, columns, where, e);
      case InsertQuery(_, names, values) => InsertFailsWith(t, ctx, names, values, e);
      case DeleteQuery(_, where) =>
        DeleteIsComplementOfSelect(t, where, ctx);
        SelectFailsFirst(LiveRows(t), where, TableEnv(ctx), e);
      case UpdateQuery(_, assignments, where) =>
        if ScanTable(t, 0, 0, Assignment(assignments, where), ctx).1 == Err(e) {
          UpdateFailsWith(t, assignments, where, ctx, e);
        }
    }
  }

  lemma SelectFailsWith(t: Table, ctx: Context, columns: seq<Tree>, where: Option<Tree>, e: ExecError)
    ensures SelectRows(LiveRows(t), where, Env(ResultColumns(columns, ctx.schema), ctx.floats)) == Err(e) <==>
      exists names :: Headings(names, columns, ctx.schema)
        && FirstError(Checks(LiveRows(t), where, Env(names, ctx.floats)), e)
  {
    var headings := ResultColumns(columns, ctx.schema);
    ResultHeadings(columns, ctx.schema);
    SelectFailsFirst(LiveRows(t), where, Env(headings, ctx.floats), e);
    hide LiveRows, SelectRows, FirstError;
    forall names | Headings(names, columns, ctx.schema)
      ensures names == headings
    {
    }
  }

  lemma InsertFailsWith(t: Table, ctx: Context, names: seq<Text>, values: seq<Tree>, e: ExecError)
    requires |names| <= |values| && Spaced(t)
    ensures var row := InsertedRow(ctx, names, values);
      (row == Err(e) || (row.Ok? && InsertMeaning(t, ctx, row.value).1 == Err(e))) <==>
        || RowFails(ctx, names, values, e)
        || exists row :: RowIs(ctx, names, values, row) && Refuses(LiveRows(t), ctx, row, e)
  {
    var made := InsertedRow(ctx, names, values);
    if made.Ok? {
      InsertRefusedIff(t, ctx, made.value, e);
      RowOfInsert(ctx, names, values, made.value, e);
    } else {
      RowOfInsert(ctx, names, values, [], e);
    }
    hide InsertedRow, InsertMeaning, RowFails, Refuses, LiveRows;
    forall row | RowIs(ctx, names, values, row)
      ensures made == Ok(row)
    {
      RowOfInsert(ctx, names, values, row, e);
    }
  }

  // A run.

  lemma InputAccounted(t: Table, ctx: Context, q: Option<Query>)
    requires Typed(t, ctx.schema) && (q.Some? ==> Executable(q.value))
    ensures var (u, outcome) := InputMeaning(t, ctx, q);
      Accounted(LiveRows(t), LiveRows(u), q, outcome, ctx)
  {
    hide Typed, LiveRows, QueryMeaning;
    if q.Some? {
      QueryAccounted(t, ctx, q.value);
      hide Accounted;
    }
  }

  /**
   Every outcome of a run, from the rows before its statement to the rows after it: an INSERT adds
   its row, a DELETE keeps exactly the rows that do not match, an UPDATE maps the rows one by one, a
   SELECT or a failed INSERT changes none, and a failed DELETE or UPDATE has done so to the first rows.
   */
  lemma {:induction false} RunAccounted(t: Table, ctx: Context, qs: seq<Option<Query>>, i: nat)
    requires Typed(t, ctx.schema) && AllExecutable(qs) && i < |RunMeaning(t, ctx, qs).1|
    ensures RunMeaning(t, ctx, qs[..i]).1 == RunMeaning(t, ctx, qs).1[..i]
    ensures Accounted(LiveRows(RunMeaning(t, ctx, qs[..i]).0), LiveRows(RunMeaning(t, ctx, qs[..i + 1]).0),
                      qs[i], RunMeaning(t, ctx, qs).1[i], ctx)
    ensures i + 1 == |RunMeaning(t, ctx, qs).1| ==> RunMeaning(t, ctx, qs[..i + 1]) == RunMeaning(t, ctx, qs)
  {
    hide Typed, RunMeaning, Ended, InputMeaning, LiveRows, Accounted, KeyedBy, Grows, Executable;
    var last := |qs| - 1;
    var part := qs[..last];
    RunKeeps(t, ctx, part);
    RunLast(t, ctx, qs);
    if Ended(RunMeaning(t, ctx, part).1) || i < last {
      assert part[..i] == qs[..i] && part[..i + 1] == qs[..i + 1] && part[i] == qs[i];
      RunAccounted(t, ctx, part, i);
    } else {
      assert qs[..i] == part && qs[..i + 1] == qs;
      InputAccounted(RunMeaning(t, ctx, part).0, ctx, qs[last]);
    }
  }

  /** A run goes on after every outcome but three, and not after these. */
  lemma {:induction false} RunStops(t: Table, ctx: Context, qs: seq<Option<Query>>)
    requires Typed(t, ctx.schema) && AllExecutable(qs)
    ensures var outcomes := RunMeaning(t, ctx, qs).1;
      && (forall i :: 0 <= i < |outcomes| - 1 ==> !StopsAt(outcomes[i]))
      && (|outcomes| < |qs| ==> outcomes != [] && StopsAt(outcomes[|outcomes| - 1]))
  {
    hide Typed, RunMeaning, InputMeaning, AllExecutable, Executable;
    if qs == [] {
      EmptyRun(t, ctx);
    } else {
      PrefixExecutable(qs);
      RunStops(t, ctx, qs[..|qs| - 1]);
      RunLast(t, ctx, qs);
    }
  }

  /** An exception that nothing catches, undefined arithmetic, or a row that is cut short. */
  predicate StopsAt(outcome: Option<Outcome>) {
    && outcome.Some? && outcome.value.Failed?
    && outcome.value.error in {ExecError.BadVariantAccess, IntegerOverflow, RowCut}
  }

  lemma PrefixExecutable(qs: seq<Option<Query>>)
    requires AllExecutable(qs) && qs != []
    ensures AllExecutable(qs[..|qs| - 1])
  {
  }

  // How many rows there are.

  function RowsAdded(outcome: Option<Outcome>): int {
    match outcome
    case Some(Inserted) => 1
    case Some(Deleted(n)) => 0 - n
    case _ => 0
  }

  function AllAdded(outcomes: seq<Option<Outcome>>): int {
    if outcomes == [] then 0 else AllAdded(outcomes[..|outcomes| - 1]) + RowsAdded(outcomes[|outcomes| - 1])
  }

  predicate DeleteFailed(q: Option<Query>, outcome: Option<Outcome>) {
    q.Some? && q.value.DeleteQuery? && outcome.Some? && outcome.value.Failed?
  }

  lemma AccountedNumber(before: seq<Row>, after: seq<Row>, q: Option<Query>, outcome: Option<Outcome>, ctx: Context)
    requires Accounted(before, after, q, outcome, ctx) && !DeleteFailed(q, outcome)
    ensures |after| == |before| + RowsAdded(outcome)
  {
    hide InsertedRow, Filter;
    match outcome
    case Some(Inserted) => assert |multiset(after)| == |multiset(before)| + 1;
    case Some(Deleted(_)) => FilterSizes(before, q.value.where, TableEnv(ctx));
    case _ =>
  }

  /**
   The number of rows after any run is the number before it, plus one for every INSERT that reported
   success, minus what every DELETE reported, as long as no DELETE failed half-way.
   */
  lemma {:induction false} RowsCounted(t: Table, ctx: Context, qs: seq<Option<Query>>, n: nat)
    requires Typed(t, ctx.schema) && AllExecutable(qs) && n <= |RunMeaning(t, ctx, qs).1|
    requires forall i :: 0 <= i < n ==> !DeleteFailed(qs[i], RunMeaning(t, ctx, qs).1[i])
    ensures |LiveRows(RunMeaning(t, ctx, qs[..n]).0)| == |LiveRows(t)| + AllAdded(RunMeaning(t, ctx, qs).1[..n])
    decreases n
  {
    hide Typed, RunMeaning, LiveRows, Accounted, Executable, RowsAdded, DeleteFailed;
    var outcomes := RunMeaning(t, ctx, qs).1;
    if n == 0 {
      EmptyRun(t, ctx);
      assert qs[..0] == [] && outcomes[..0] == [];
    } else {
      RowsCounted(t, ctx, qs, n - 1);
      RunAccounted(t, ctx, qs, n - 1);
      AccountedNumber(LiveRows(RunMeaning(t, ctx, qs[..n - 1]).0), LiveRows(RunMeaning(t, ctx, qs[..n]).0),
                      qs[n - 1], outcomes[n - 1], ctx);
      assert outcomes[..n][..n - 1] == outcomes[..n - 1];
    }
  }

  lemma EmptyRun(t: Table, ctx: Context)
    requires Typed(t, ctx.schema)
    ensures AllExecutable([]) && RunMeaning(t, ctx, []) == (t, [])
  {
  }

  // One INSERT, any number of times.

  function Copies(q: Query, n: nat): (qs: seq<Option<Query>>)
    ensures |qs| == n && forall i :: 0 <= i < n ==> qs[i] == Some(q)
  {
    seq(n, _ => Some(q))
  }

  /** An INSERT whose key is a NaN, if it succeeds once, succeeds any number of times, and each time adds its row. */
  lemma {:induction false} NaNKeyInsertsForEver(t: Table, ctx: Context, q: Query, row: Row, n: nat)
    requires Typed(t, ctx.schema) && Spaced(t) && Executable(q) && q.InsertQuery? && q.table == ctx.name
    requires InsertedRow(ctx, q.names, q.values) == Ok(row) && InsertMeaning(t, ctx, row).1.Ok?
    requires PrimaryKey(ctx.schema).Some? && IsNaNValue(row[PrimaryKey(ctx.schema).value])
    ensures var (u, outcomes) := RunMeaning(t, ctx, Copies(q, n));
      && outcomes == seq(n, _ => Some(Inserted))
      && Spaced(u) && InsertMeaning(u, ctx, row).1.Ok?
  {
    hide Typed, Spaced, InsertMeaning, InsertedRow, PrimaryKey, IsNaNValue;
    var qs := Copies(q, n);
    if n > 0 {
      NaNKeyInsertsForEver(t, ctx, q, row, n - 1);
      assert qs[..n - 1] == Copies(q, n - 1);
      RunLast(t, ctx, qs);
      InsertTwice(RunMeaning(t, ctx, qs[..n - 1]).0, ctx, row);
    }
  }

  /**
   `INSERT INTO t VALUES (0.0 / 0.0)`, with one FLOAT column as the primary key, on a platform where
   the quotient is a NaN: it succeeds on a new table any number of times.
   */
  lemma NaNKeyInserts(ctx: Context, n: nat)
    requires ctx.schema == [Column("k", FLOAT, 0, false, true)]
    requires IsNaN(ctx.floats.divide(ctx.floats.parse("0.0"), ctx.floats.parse("0.0")))
    ensures var zero := Tip(LiteralFloat("0.0"));
      var q := InsertQuery(ctx.name, NO_COLUMNS, [Node(DIVIDE, zero, zero)]);
      Typed([], ctx.schema) && RunMeaning([], ctx, Copies(q, n)).1 == seq(n, _ => Some(Inserted))
  {
    var zero := Tip(LiteralFloat("0.0"));
    var q := InsertQuery(ctx.name, NO_COLUMNS, [Node(DIVIDE, zero, zero)]);
    var row := NaNRow(ctx);
    NaNKeyInsertsForEver([], ctx, q, row, n);
  }

  lemma NaNRow(ctx: Context) returns (row: Row)
    requires ctx.schema == [Column("k", FLOAT, 0, false, true)]
    requires IsNaN(ctx.floats.divide(ctx.floats.parse("0.0"), ctx.floats.parse("0.0")))
    ensures var zero := Tip(LiteralFloat("0.0"));
      InsertedRow(ctx, NO_COLUMNS, [Node(DIVIDE, zero, zero)]) == Ok(row)
    ensures InsertMeaning([], ctx, row).1.Ok?
    ensures PrimaryKey(ctx.schema) == Some(0) && IsNaNValue(row[0])
  {
    hide InsertMeaning, PrimaryKey;
    var zero := Tip(LiteralFloat("0.0"));
    var env := Env(NO_COLUMNS, ctx.floats);
    var quotient := Node(DIVIDE, zero, zero);
    row := [Flt(ctx.floats.divide(ctx.floats.parse("0.0"), ctx.floats.parse("0.0")))];
    assert Eval(zero, env, []) == Ok(Flt(ctx.floats.parse("0.0")));
    assert Eval(quotient, env, []) == Ok(row[0]);
    var values := [quotient];
    assert values[1..] == [] && row[1..] == [] && EvalAll([], env) == Ok([]) && [row[0]] + [] == row;
    assert EvalAll(values, env) == Ok(row);
    hide Eval, EvalAll, EvalAtom;
    NumberInserts(ctx, row);
  }

  lemma NumberInserts(ctx: Context, row: Row)
    requires ctx.schema == [Column("k", FLOAT, 0, false, true)] && |row| == 1 && row[0].Flt?
    ensures PrimaryKey(ctx.schema) == Some(0) && InsertMeaning([], ctx, row).1.Ok?
  {
    OneNumber(row, ctx.schema);
    hide InsertMeaning, RowSize, WellTyped, LiveRows;
    InsertSucceedsIff([], ctx, row);
    assert PrimaryKey(ctx.schema) == Some(0);
  }

  lemma OneNumber(row: Row, schema: Schema)
    requires |schema| == |row| == 1 && schema[0].dataType == FLOAT && row[0].Flt?
    ensures WellTyped(row, schema) && RowSize(row) == 9
  {
    assert row[1..] == [];
  }
}
