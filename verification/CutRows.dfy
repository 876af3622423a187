/**
 Rows that the 16-bit length of an encoding cuts short: what they do to a primary key, and the schemas
 under which no run meets one.
 */
module CutRows {
  import opened Bytes
  import PageViews
  import opened Values
  import opened Expressions
  import opened Evaluator
  import opened RowCodec
  import opened Statements
  import opened Relation
  import opened RelationProofs
  import opened Storage
  import opened Sessions
  import opened Wrappers

  // What a cut row does to a key.

  const LONG_KEYS: Schema := [Column("a", TEXT, 70000, false, true)]

  /** A text of 65536 characters is stored as the bytes of the empty text. */
  lemma StoredAsEmpty(s: Text)
    requires |s| == 0x1_0000
    ensures RowSize([Str(s)]) == 65539 && Stored([Str(s)]) == Padded([Str("")]) && |Stored([Str(s)])| == 3
  {
    var long, empty: Row := [Str(s)], [Str("")];
    assert long[1..] == empty[1..] == [];
    assert ValueBytes(Str(s)) == ValueBytes(Str(""));
    assert RowBytes(long) == RowBytes(empty) == ValueBytes(Str(""));
    assert Padded(empty) == RowBytes(empty);
    assert Stored(long) == Padded(long)[..3] == RowBytes(long);
  }

  /**
   The source breaks a primary key: two INSERTs of keys of 65536 characters, equal or not, pass its key
   check and leave two rows with the empty key on one page. The model ends at the first.
   */
  lemma CutKeysAreNotUnique(s: Text, t: Text, ctx: Context)
    requires |s| == |t| == 0x1_0000 && ctx.schema == LONG_KEYS
    ensures PrimaryKey(LONG_KEYS) == Some(0) && InsertMeaning([], ctx, [Str(s)]).1 == Err(RowCut)
    ensures PageViews.Insert(PageViews.EmptyView, Stored([Str(s)])).Ok?
    ensures var v := PageViews.Insert(PageViews.EmptyView, Stored([Str(s)])).value;
      && ViewOk(v, LONG_KEYS) && !KeyTaken([PageOf(v, LONG_KEYS)], 0, Str(t), None)
      && PageViews.Insert(v, Stored([Str(t)])).Ok?
      && var w := PageViews.Insert(v, Stored([Str(t)])).value;
         ViewOk(w, LONG_KEYS) && LiveRows([PageOf(w, LONG_KEYS)]) == [[Str("")], [Str("")]]
         && !UniqueKeys([PageOf(w, LONG_KEYS)], 0)
  {
    StoredAsEmpty(s);
    StoredAsEmpty(t);
    LongKeyIsCut(s, ctx);
    TwoEmptyKeys();
    hide Stored, Padded, PageViews.Insert, ViewOk, UniqueKeys, LiveRows;
    assert PrimaryKey(LONG_KEYS) == Some(0);
  }

  lemma LongKeyIsCut(s: Text, ctx: Context)
    requires |s| == 0x1_0000 && ctx.schema == LONG_KEYS && RowSize([Str(s)]) == 65539
    ensures InsertMeaning([], ctx, [Str(s)]).1 == Err(RowCut)
  {
    assert WellTyped([Str(s)], LONG_KEYS);
    InsertSucceedsIff([], ctx, [Str(s)]);
    hide InsertMeaning, RowSize;
  }

  lemma TwoEmptyKeys()
    ensures PageViews.Insert(PageViews.EmptyView, Padded([Str("")])).Ok?
    ensures var v := PageViews.Insert(PageViews.EmptyView, Padded([Str("")])).value;
      && ViewOk(v, LONG_KEYS)
      && (forall t: Text :: |t| == 0x1_0000 ==> !KeyTaken([PageOf(v, LONG_KEYS)], 0, Str(t), None))
      && PageViews.Insert(v, Padded([Str("")])).Ok?
      && var w := PageViews.Insert(v, Padded([Str("")])).value;
         ViewOk(w, LONG_KEYS) && LiveRows([PageOf(w, LONG_KEYS)]) == [[Str("")], [Str("")]]
         && !UniqueKeys([PageOf(w, LONG_KEYS)], 0)
  {
    var empty: Row := [Str("")];
    assert WellTyped(empty, LONG_KEYS) && TextsFit(empty) && RowSize(empty) == 3 == |Padded(empty)|;
    hide Padded, WellTyped, RowSize;
    var v := PageViews.Insert(PageViews.EmptyView, Padded(empty)).value;
    InsertedView(PageViews.EmptyView, empty, LONG_KEYS);
    InsertedView(v, empty, LONG_KEYS);
    var w := PageViews.Insert(v, Padded(empty)).value;
    hide ViewOk, PageViews.Insert;
    assert PageOf(PageViews.EmptyView, LONG_KEYS).rows == [];
    EmptyKeyOnPage(PageOf(v, LONG_KEYS));
    EmptyKeysOnPage(PageOf(w, LONG_KEYS));
  }

  lemma EmptyKeyOnPage(page: TablePage)
    requires page.rows == [Some([Str("")])]
    ensures forall t: Text :: |t| == 0x1_0000 ==> !KeyTaken([page], 0, Str(t), None)
  {
  }

  lemma EmptyKeysOnPage(page: TablePage)
    requires page.rows == [Some([Str("")]), Some([Str("")])]
    ensures LiveRows([page]) == [[Str("")], [Str("")]] && !UniqueKeys([page], 0)
  {
    var rest := page.rows[1..];
    assert rest == [Some([Str("")])];
    OneRowPage([Str("")]);
    assert PageRows(page.rows) == [[Str("")]] + PageRows(rest);
    LiveRowsOfOne(page);
    assert IsLive([page], 0, 0) && IsLive([page], 0, 1);
  }

  // No evaluation cuts a row.

  lemma {:induction false} EvalCutsNothing(t: Tree, env: Env, row: Row)
    ensures Eval(t, env, row) != Err(RowCut)
  {
    match t
    case Tip(_) =>
    case Node(_, l, r) =>
      EvalCutsNothing(l, env, row);
      EvalCutsNothing(r, env, row);
    case Prefix(_, x) => EvalCutsNothing(x, env, row);
  }

  lemma {:induction false} HoldsCutsNothing(t: Tree, env: Env, row: Row)
    ensures Holds(t, env, row) != Err(RowCut)
  {
    hide Eval;
    if t.Node? {
      EvalCutsNothing(t.left, env, row);
      EvalCutsNothing(t.right, env, row);
      HoldsCutsNothing(t.left, env, row);
      HoldsCutsNothing(t.right, env, row);
    }
  }

  lemma MatchCutsNothing(where: Option<Tree>, env: Env, row: Row)
    ensures Matches(where, env, row) != Err(RowCut)
  {
    if where.Some? {
      HoldsCutsNothing(where.value, env, row);
    }
  }

  lemma {:induction false} SelectCutsNothing(rows: seq<Row>, where: Option<Tree>, env: Env)
    ensures SelectRows(rows, where, env) != Err(RowCut)
  {
    hide Matches;
    if rows != [] {
      MatchCutsNothing(where, env, rows[0]);
      SelectCutsNothing(rows[1..], where, env);
    }
  }

  lemma {:induction false} ListCutsNothing(values: seq<Tree>, env: Env)
    ensures EvalAll(values, env) != Err(RowCut)
  {
    if values != [] {
      EvalCutsNothing(values[0], env, []);
      ListCutsNothing(values[1..], env);
    }
  }

  lemma {:induction false} NamesCutNothing(schema: Schema, names: seq<Text>, values: seq<Tree>, env: Env)
    requires |names| <= |values|
    ensures NamedRow(schema, names, values, env) != Err(RowCut)
  {
    if schema != [] {
      var i := IndexOf(names, schema[0].name);
      if i.Some? {
        EvalCutsNothing(values[i.value], env, []);
      }
      NamesCutNothing(schema[1..], names, values, env);
    }
  }

  lemma {:induction false} AssignmentCutsNothing(before: Row, row: Row, assignments: seq<(Text, Tree)>, env: Env)
    requires |row| == |env.columns|
    ensures Assigned(before, row, assignments, env) != Err(RowCut)
    decreases |assignments|
  {
    if assignments != [] {
      EvalCutsNothing(assignments[0].1, env, before);
      var i, v := IndexOf(env.columns, assignments[0].0), Eval(assignments[0].1, env, before);
      if i.Some? && v.Ok? {
        AssignmentCutsNothing(before, row[i.value := v.value], assignments[1..], env);
      }
    }
  }

  // Under a schema that fits, no statement does.

  lemma CastIsHarmless(row: Row, schema: Schema)
    requires WellTyped(row, schema) && Fits(schema)
    ensures Cast16(RowSize(row)) == 0 || Cast16(RowSize(row)) == RowSize(row)
  {
    RowSizeAtMostMax(row, schema);
  }

  lemma InsertCutsNothing(t: Table, ctx: Context, row: Row)
    requires |row| == |ctx.schema| && Fits(ctx.schema)
    ensures InsertMeaning(t, ctx, row).1 != Err(RowCut)
  {
    SerializedIffWellTyped(row, ctx.schema);
    SerializedSize(row, ctx.schema);
    if WellTyped(row, ctx.schema) {
      CastIsHarmless(row, ctx.schema);
    }
    hide WellTyped, KeyTaken, Serialized, RowSize, PrimaryKey, Cast16, FirstFit;
  }

  lemma StepCutsNothing(t: Table, p: nat, s: nat, change: Change, ctx: Context)
    requires IsCell(t, p, s) && Typed(t, ctx.schema) && Fits(ctx.schema)
    ensures Step(t, p, s, change, ctx) != Err(RowCut)
  {
    if t[p].rows[s].Some? {
      assert IsLive(t, p, s);
      var row := t[p].rows[s].value;
      MatchCutsNothing(change.where, TableEnv(ctx), row);
      if change.Assignment? {
        AssignmentCutsNothing(row, row, change.assignments, TableEnv(ctx));
        var updated := Assigned(row, row, change.assignments, TableEnv(ctx));
        if updated.Ok? && WellTyped(updated.value, ctx.schema) {
          CastIsHarmless(updated.value, ctx.schema);
        }
        if updated.Ok? {
          SerializedIffWellTyped(updated.value, ctx.schema);
          SerializedSize(updated.value, ctx.schema);
        }
      }
      hide WellTyped, Typed, Serialized, KeyTaken, AssignsKey, Assigned, Matches, RowSize, PrimaryKey, Cast16;
    }
  }

  lemma {:induction false} ScanCutsNothing(t: Table, p: nat, s: nat, count: nat, change: Change, ctx: Context)
    requires p < |t| && s <= |t[p].rows| && Typed(t, ctx.schema) && Fits(ctx.schema)
    ensures ScanPage(t, p, s, count, change, ctx) != Err(RowCut)
    decreases |t[p].rows| - s
  {
    hide Typed, Step, Fits;
    if s < |t[p].rows| {
      StepCutsNothing(t, p, s, change, ctx);
      var step := Step(t, p, s, change, ctx);
      if step.Ok? {
        StepKeepsTyped(t, p, s, change, ctx);
        ScanCutsNothing(t[p := step.value.0], p, s + 1, count + step.value.1, change, ctx);
      }
    }
  }

  lemma ChangeCutsNothing(t: Table, change: Change, ctx: Context)
    requires Typed(t, ctx.schema) && Fits(ctx.schema)
    ensures ScanTable(t, 0, 0, change, ctx).1 != Err(RowCut)
  {
    hide ScanTable, ScanPage, Typed, Fits, Mapped;
    var failed := ScanMaps(t, 0, 0, change, ctx);
    var (u, r) := ScanTable(t, 0, 0, change, ctx);
    if r.Err? {
      var n :| ScanPage(u, failed, 0, n, change, ctx) == Err(r.error);
      ScanCutsNothing(u, failed, 0, n, change, ctx);
    }
  }

  lemma QueryCutsNothing(t: Table, ctx: Context, q: Query)
    requires Typed(t, ctx.schema) && Executable(q) && Fits(ctx.schema)
    ensures QueryMeaning(t, ctx, q).1 != Failed(RowCut)
  {
    hide Typed, Fits, ScanTable, InsertMeaning, SelectRows, LiveRows, ResultColumns, EvalAll, NamedRow;
    match q
    case SelectQuery(columns, _, where) =>
      SelectCutsNothing(LiveRows(t), where, Env(ResultColumns(columns, ctx.schema), ctx.floats));
    case InsertQuery(_, names, values) =>
      var env := Env(NO_COLUMNS, ctx.floats);
      ListCutsNothing(values, env);
      NamesCutNothing(ctx.schema, names, values, env);
      var row := InsertedRow(ctx, names, values);
      if row.Ok? {
        InsertCutsNothing(t, ctx, row.value);
      }
    case DeleteQuery(_, where) => ChangeCutsNothing(t, Removal(where), ctx);
    case UpdateQuery(_, assignments, where) => ChangeCutsNothing(t, Assignment(assignments, where), ctx);
    case _ =>
  }

  lemma {:induction false} RunCutsNothing(t: Table, ctx: Context, qs: seq<Option<Query>>)
    requires Typed(t, ctx.schema) && AllExecutable(qs) && Fits(ctx.schema)
    ensures !EndedByCut(RunMeaning(t, ctx, qs).1)
  {
    hide Typed, Fits, QueryMeaning, Ended;
    if qs != [] {
      var last := |qs| - 1;
      RunCutsNothing(t, ctx, qs[..last]);
      var (u, outcomes) := RunMeaning(t, ctx, qs[..last]);
      if !Ended(outcomes) && qs[last].Some? {
        QueryCutsNothing(u, ctx, qs[last].value);
      }
    }
  }

  // Under any other schema, one INSERT of literals does.

  /** Literals for a row of the same size; a FLOAT is whatever `0.0` is. */
  lemma {:induction false} LiteralRow(row: Row, schema: Schema, env: Env) returns (values: seq<Tree>, written: Row)
    requires WellTyped(row, schema)
    ensures EvalAll(values, env) == Ok(written) && WellTyped(written, schema) && RowSize(written) == RowSize(row)
  {
    if row == [] {
      values, written := [], [];
    } else {
      var rest, writtenRest := LiteralRow(row[1..], schema[1..], env);
      var first := match row[0]
        case Int(i) => LiteralInt(i)
        case Flt(_) => LiteralFloat("0.0")
        case Str(s) => LiteralText(s)
        case Bool(b) => LiteralBool(b)
        case Null => LiteralNull;
      values, written := [Tip(first)] + rest, [EvalAtom(first, env, []).value] + writtenRest;
      assert values[1..] == rest && written[1..] == writtenRest;
    }
  }

  lemma InsertIsCut(ctx: Context) returns (q: Query)
    requires !Fits(ctx.schema)
    ensures Executable(q) && Typed([], ctx.schema) && QueryMeaning([], ctx, q) == ([], Failed(RowCut))
  {
    var row := CutRow(ctx.schema);
    var values, written := LiteralRow(row, ctx.schema, Env(NO_COLUMNS, ctx.floats));
    q := InsertQuery(ctx.name, NO_COLUMNS, values);
    InsertSucceedsIff([], ctx, written);
    SerializedIffWellTyped(written, ctx.schema);
    hide WellTyped, Fits, RowSize, EvalAll, Store, Serialized;
    assert InsertedRow(ctx, NO_COLUMNS, values) == Ok(written);
  }

  /**
   The schemas under which the model says all there is to say: a row is never cut, in any run from any
   table, if and only if no row of the schema takes more than 65536 bytes.
   */
  lemma NoRunIsCutIff(ctx: Context)
    ensures Fits(ctx.schema) <==>
      forall t, qs :: Typed(t, ctx.schema) && AllExecutable(qs) ==> !EndedByCut(RunMeaning(t, ctx, qs).1)
  {
    hide RunMeaning, Typed, EndedByCut, QueryMeaning, Fits;
    if Fits(ctx.schema) {
      forall t, qs | Typed(t, ctx.schema) && AllExecutable(qs)
        ensures !EndedByCut(RunMeaning(t, ctx, qs).1)
      {
        RunCutsNothing(t, ctx, qs);
      }
    } else {
      var q := InsertIsCut(ctx);
      assert AllExecutable([Some(q)]);
      OneStatementRun([], ctx, q);
    }
  }

  lemma OneStatementRun(t: Table, ctx: Context, q: Query)
    requires Typed(t, ctx.schema) && Executable(q) && QueryMeaning(t, ctx, q).1 == Failed(RowCut)
    ensures AllExecutable([Some(q)]) && EndedByCut(RunMeaning(t, ctx, [Some(q)]).1)
  {
    hide QueryMeaning, Typed;
    var qs := [Some(q)];
    assert qs[..0] == [];
  }
}
