/**
 INSERT beyond first fit: which value each column gets, which refused INSERTs leave a trace, and what
 repeating an INSERT does.
 */
module InsertProofs {
  import opened Bytes
  import opened Values
  import opened Expressions
  import opened Comparisons
  import opened Evaluator
  import opened RowCodec
  import opened Relation
  import opened RelationProofs
  import opened Wrappers

  // The row of an INSERT, column by column.

  /** A row from a list of values has the value of the i-th expression in column i, and exists if all evaluate. */
  lemma {:induction false} ListedColumns(values: seq<Tree>, env: Env)
    ensures EvalAll(values, env).Ok? <==> forall i :: 0 <= i < |values| ==> Eval(values[i], env, []).Ok?
    ensures EvalAll(values, env).Ok? ==>
      && |EvalAll(values, env).value| == |values|
      && forall i :: 0 <= i < |values| ==> Eval(values[i], env, []) == Ok(EvalAll(values, env).value[i])
  {
    hide Eval;
    if values != [] {
      ListedColumns(values[1..], env);
      assert values == [values[0]] + values[1..];
    }
  }

  /** The value of column `c`: that of its first name in the list, or NULL, which a NOT NULL column refuses. */
  ghost predicate ColumnGets(c: Column, names: seq<Text>, values: seq<Tree>, env: Env, v: Value)
    requires |names| <= |values|
  {
    if c.name in names
    then exists j :: 0 <= j < |names| && names[j] == c.name && c.name !in names[..j] && Eval(values[j], env, []) == Ok(v)
    else !c.notNull && v == Null
  }

  lemma NamedValueIs(c: Column, names: seq<Text>, values: seq<Tree>, env: Env, v: Value)
    requires |names| <= |values|
    ensures NamedValue(c, names, values, env) == Ok(v) <==> ColumnGets(c, names, values, env, v)
  {
    hide Eval;
    forall j | 0 <= j < |names| && names[j] == c.name && c.name !in names[..j]
      ensures IndexOf(names, c.name) == Some(j)
    {
      FirstPosition(names, c.name, j);
    }
  }

  lemma FirstPosition(names: seq<Text>, name: Text, j: nat)
    requires j < |names| && names[j] == name && name !in names[..j]
    ensures IndexOf(names, name) == Some(j)
  {
    hide *;
    var i := IndexOf(names, name);
  }

  /** The column can be given a value. */
  ghost predicate ColumnFilled(c: Column, names: seq<Text>, values: seq<Tree>, env: Env)
    requires |names| <= |values|
  {
    exists v :: ColumnGets(c, names, values, env, v)
  }

  /**
   A row from a column list exists if and only if every column gets a value, by its first name in the
   list or NULL, and then has exactly these values.
   */
  lemma {:induction false} NamedColumns(schema: Schema, names: seq<Text>, values: seq<Tree>, env: Env)
    requires |names| <= |values|
    ensures var row := NamedRow(schema, names, values, env);
      && (row.Ok? <==> forall i :: 0 <= i < |schema| ==> ColumnFilled(schema[i], names, values, env))
      && (row.Ok? ==> forall i :: 0 <= i < |schema| ==> ColumnGets(schema[i], names, values, env, row.value[i]))
  {
    hide ColumnGets, ColumnFilled, NamedValue;
    if schema != [] {
      NamedColumns(schema[1..], names, values, env);
      assert schema == [schema[0]] + schema[1..];
      ValueExistsIff(schema[0], names, values, env);
    }
  }

  lemma ValueExistsIff(c: Column, names: seq<Text>, values: seq<Tree>, env: Env)
    requires |names| <= |values|
    ensures NamedValue(c, names, values, env).Ok? <==> ColumnFilled(c, names, values, env)
    ensures NamedValue(c, names, values, env).Ok? ==>
      ColumnGets(c, names, values, env, NamedValue(c, names, values, env).value)
  {
    hide ColumnGets, NamedValue;
    var found := NamedValue(c, names, values, env);
    if found.Ok? {
      NamedValueIs(c, names, values, env, found.value);
    }
    if v :| ColumnGets(c, names, values, env, v) {
      NamedValueIs(c, names, values, env, v);
    }
  }

  /** The column cannot be given a value, for this reason. */
  ghost predicate ColumnFails(c: Column, names: seq<Text>, values: seq<Tree>, env: Env, e: ExecError)
    requires |names| <= |values|
  {
    if c.name in names
    then exists j :: 0 <= j < |names| && names[j] == c.name && c.name !in names[..j] && Eval(values[j], env, []) == Err(e)
    else c.notNull && e == NotNullViolation
  }

  lemma NamedValueFails(c: Column, names: seq<Text>, values: seq<Tree>, env: Env, e: ExecError)
    requires |names| <= |values|
    ensures NamedValue(c, names, values, env) == Err(e) <==> ColumnFails(c, names, values, env, e)
  {
    hide Eval;
    forall j | 0 <= j < |names| && names[j] == c.name && c.name !in names[..j]
      ensures IndexOf(names, c.name) == Some(j)
    {
      FirstPosition(names, c.name, j);
    }
  }

  ghost predicate FailsAtColumn(schema: Schema, i: nat, names: seq<Text>, values: seq<Tree>, env: Env, e: ExecError)
    requires |names| <= |values|
  {
    && i < |schema| && ColumnFails(schema[i], names, values, env, e)
    && forall j :: 0 <= j < i ==> ColumnFilled(schema[j], names, values, env)
  }

  /** The first column that cannot be given a value is to blame. */
  ghost predicate SomeColumnFails(schema: Schema, names: seq<Text>, values: seq<Tree>, env: Env, e: ExecError)
    requires |names| <= |values|
  {
    exists i: nat :: FailsAtColumn(schema, i, names, values, env, e)
  }

  lemma FailsAtNext(schema: Schema, i: nat, names: seq<Text>, values: seq<Tree>, env: Env, e: ExecError)
    requires |names| <= |values| && schema != [] && ColumnFilled(schema[0], names, values, env)
    ensures FailsAtColumn(schema, i + 1, names, values, env, e) <==> FailsAtColumn(schema[1..], i, names, values, env, e)
  {
    hide ColumnFails, ColumnFilled;
    var rest := schema[1..];
    if FailsAtColumn(rest, i, names, values, env, e) {
      assert forall j | 0 < j < i + 1 :: schema[j] == rest[j - 1];
    }
    if FailsAtColumn(schema, i + 1, names, values, env, e) {
      assert forall j | 0 <= j < i :: rest[j] == schema[j + 1];
    }
  }

  lemma {:induction false} NamedRowFails(schema: Schema, names: seq<Text>, values: seq<Tree>, env: Env, e: ExecError)
    requires |names| <= |values|
    ensures NamedRow(schema, names, values, env) == Err(e) <==> SomeColumnFails(schema, names, values, env, e)
  {
    hide ColumnFails, ColumnFilled, NamedValue;
    if schema != [] {
      var rest, first := schema[1..], NamedValue(schema[0], names, values, env);
      NamedRowFails(rest, names, values, env, e);
      NamedValueFails(schema[0], names, values, env, e);
      ValueExistsIff(schema[0], names, values, env);
      assert FailsAtColumn(schema, 0, names, values, env, e) <==> first.Err? && first.error == e;
      hide FailsAtColumn;
      if first.Ok? && SomeColumnFails(rest, names, values, env, e) {
        var i: nat :| FailsAtColumn(rest, i, names, values, env, e);
        FailsAtNext(schema, i, names, values, env, e);
      }
      if SomeColumnFails(schema, names, values, env, e) {
        var i: nat :| FailsAtColumn(schema, i, names, values, env, e);
        if i > 0 {
          FailsAfterFilled(schema, i, names, values, env, e);
          FailsAtNext(schema, i - 1, names, values, env, e);
        }
      }
    }
  }

  lemma FailsAfterFilled(schema: Schema, i: nat, names: seq<Text>, values: seq<Tree>, env: Env, e: ExecError)
    requires |names| <= |values| && i > 0 && FailsAtColumn(schema, i, names, values, env, e)
    ensures ColumnFilled(schema[0], names, values, env)
  {
  }

  function Evaluated(values: seq<Tree>, env: Env): (results: seq<Result<Value, ExecError>>)
    ensures |results| == |values| && forall i :: 0 <= i < |values| ==> results[i] == Eval(values[i], env, [])
  {
    seq(|values|, i requires 0 <= i < |values| => Eval(values[i], env, []))
  }

  lemma {:induction false} ListFails(values: seq<Tree>, env: Env, e: ExecError)
    ensures EvalAll(values, env) == Err(e) <==> FirstError(Evaluated(values, env), e)
  {
    hide FirstError, Eval;
    if values == [] {
      NoErrorInNone<Value>();
      assert Evaluated(values, env) == [];
    } else {
      ListFails(values[1..], env, e);
      assert Evaluated(values, env) == [Eval(values[0], env, [])] + Evaluated(values[1..], env);
      FirstErrorOfMore(Eval(values[0], env, []), Evaluated(values[1..], env), e);
    }
  }

  // The row of a statement, with and without a column list.

  /** Every column has its own value, or NULL, by name with a column list and by position without one. */
  ghost predicate RowIs(ctx: Context, names: seq<Text>, values: seq<Tree>, row: Row)
    requires |names| <= |values|
  {
    var env := Env(NO_COLUMNS, ctx.floats);
    && |row| == |ctx.schema|
    && if names == []
       then |values| == |row| && forall i :: 0 <= i < |row| ==> Eval(values[i], env, []) == Ok(row[i])
       else forall i :: 0 <= i < |row| ==> ColumnGets(ctx.schema[i], names, values, env, row[i])
  }

  ghost predicate RowFails(ctx: Context, names: seq<Text>, values: seq<Tree>, e: ExecError)
    requires |names| <= |values|
  {
    var env := Env(NO_COLUMNS, ctx.floats);
    if names != [] then SomeColumnFails(ctx.schema, names, values, env, e)
    else
      || FirstError(Evaluated(values, env), e)
      || (AllOk(Evaluated(values, env)) && |values| != |ctx.schema| && e == ColumnCountMismatch)
  }

  /** The row of an INSERT statement is this one, and is missing for this reason, exactly when so. */
  lemma RowOfInsert(ctx: Context, names: seq<Text>, values: seq<Tree>, row: Row, e: ExecError)
    requires |names| <= |values|
    ensures InsertedRow(ctx, names, values) == Ok(row) <==> RowIs(ctx, names, values, row)
    ensures InsertedRow(ctx, names, values) == Err(e) <==> RowFails(ctx, names, values, e)
  {
    if names == [] {
      ListedRow(ctx, values, row, e);
    } else {
      ListNamedRow(ctx, names, values, row, e);
    }
  }

  lemma ListedRow(ctx: Context, values: seq<Tree>, row: Row, e: ExecError)
    ensures InsertedRow(ctx, [], values) == Ok(row) <==> RowIs(ctx, [], values, row)
    ensures InsertedRow(ctx, [], values) == Err(e) <==> RowFails(ctx, [], values, e)
  {
    var env := Env(NO_COLUMNS, ctx.floats);
    ListedColumns(values, env);
    ListFails(values, env, e);
    hide Eval, EvalAll, FirstError;
    var all := EvalAll(values, env);
    if RowIs(ctx, [], values, row) {
      assert all.value == row;
    }
  }

  lemma ListNamedRow(ctx: Context, names: seq<Text>, values: seq<Tree>, row: Row, e: ExecError)
    requires names != [] && |names| <= |values|
    ensures InsertedRow(ctx, names, values) == Ok(row) <==> RowIs(ctx, names, values, row)
    ensures InsertedRow(ctx, names, values) == Err(e) <==> RowFails(ctx, names, values, e)
  {
    var env := Env(NO_COLUMNS, ctx.floats);
    NamedColumns(ctx.schema, names, values, env);
    NamedRowFails(ctx.schema, names, values, env, e);
    hide Eval, NamedRow, SomeColumnFails, ColumnGets;
    var named := NamedRow(ctx.schema, names, values, env);
    if RowIs(ctx, names, values, row) {
      forall i | 0 <= i < |row|
        ensures ColumnFilled(ctx.schema[i], names, values, env)
      {
        assert ColumnGets(ctx.schema[i], names, values, env, row[i]);
      }
      forall i | 0 <= i < |row|
        ensures named.value[i] == row[i]
      {
        OneValue(ctx.schema[i], names, values, env, row[i], named.value[i]);
      }
      assert named.value == row;
    }
  }

  lemma OneValue(c: Column, names: seq<Text>, values: seq<Tree>, env: Env, v: Value, w: Value)
    requires |names| <= |values|
    requires ColumnGets(c, names, values, env, v) && ColumnGets(c, names, values, env, w)
    ensures v == w
  {
    NamedValueIs(c, names, values, env, v);
    NamedValueIs(c, names, values, env, w);
  }

  function Without<T>(s: seq<T>, j: nat): (r: seq<T>)
    requires j < |s|
    ensures |r| == |s| - 1
  {
    s[..j] + s[j + 1..]
  }

  lemma PositionWithout(names: seq<Text>, j: nat, name: Text)
    requires j < |names| && names[j] != name
    ensures IndexOf(Without(names, j), name) == match IndexOf(names, name)
      case None => None
      case Some(i) => Some(if i < j then i else i - 1)
  {
    var rest := Without(names, j);
    var found := IndexOf(names, name);
    if found.Some? {
      var i := if found.value < j then found.value else found.value - 1;
      assert forall k | 0 <= k < i ::
        rest[k] == names[if k < j then k else k + 1] && names[..found.value][if k < j then k else k + 1] != name;
      FirstPosition(rest, name, i);
    }
  }

  /** A value for a column the table does not have is dropped, without even being evaluated. */
  lemma {:induction false} UnknownNameIsDropped(schema: Schema, names: seq<Text>, values: seq<Tree>, env: Env, j: nat)
    requires |names| <= |values| && j < |names|
    requires forall c :: c in schema ==> c.name != names[j]
    ensures NamedRow(schema, names, values, env) == NamedRow(schema, Without(names, j), Without(values, j), env)
  {
    hide Eval, Without;
    if schema != [] {
      assert schema == [schema[0]] + schema[1..];
      UnknownNameIsDropped(schema[1..], names, values, env, j);
      SameNamedValue(schema[0], names, values, env, j);
    }
  }

  lemma SameNamedValue(c: Column, names: seq<Text>, values: seq<Tree>, env: Env, j: nat)
    requires |names| <= |values| && j < |names| && c.name != names[j]
    ensures NamedValue(c, names, values, env) == NamedValue(c, Without(names, j), Without(values, j), env)
  {
    hide Eval;
    PositionWithout(names, j, c.name);
  }

  // Which error an INSERT has.

  predicate TextFits(v: Value, c: Column) {
    c.dataType == TEXT ==> v.Null? || (v.Str? && |v.s| <= TextLimit(c))
  }

  predicate LongTextAt(row: Row, schema: Schema, i: nat)
    requires |row| == |schema|
  {
    && i < |row| && schema[i].dataType == TEXT && row[i].Str? && |row[i].s| > TextLimit(schema[i])
    && forall j :: 0 <= j < i ==> TextFits(row[j], schema[j])
  }

  /** The first TEXT column that has something wrong holds a text that is too long. */
  ghost predicate LongTextFirst(row: Row, schema: Schema)
    requires |row| == |schema|
  {
    exists i: nat :: LongTextAt(row, schema, i)
  }

  lemma LongTextNext(row: Row, schema: Schema, i: nat)
    requires |row| == |schema| && row != [] && TextFits(row[0], schema[0])
    ensures LongTextAt(row, schema, i + 1) <==> LongTextAt(row[1..], schema[1..], i)
  {
    if LongTextAt(row[1..], schema[1..], i) {
      assert forall j | 0 < j < i + 1 :: row[j] == row[1..][j - 1] && schema[j] == schema[1..][j - 1];
    }
    if LongTextAt(row, schema, i + 1) {
      assert forall j | 0 <= j < i :: row[1..][j] == row[j + 1] && schema[1..][j] == schema[j + 1];
    }
  }

  lemma {:induction false} TextTooLongIff(row: Row, schema: Schema)
    requires |row| == |schema|
    ensures TextError(row, schema) == Some(TextTooLong) <==> LongTextFirst(row, schema)
  {
    if row != [] {
      TextTooLongIff(row[1..], schema[1..]);
      assert LongTextAt(row, schema, 0) <==>
        schema[0].dataType == TEXT && row[0].Str? && |row[0].s| > TextLimit(schema[0]);
      assert !TextFits(row[0], schema[0]) ==> forall i: nat | i > 0 :: !LongTextAt(row, schema, i);
      hide LongTextAt;
      if LongTextFirst(row, schema) {
        var i: nat :| LongTextAt(row, schema, i);
        if i > 0 {
          LongTextNext(row, schema, i - 1);
        }
      }
      if TextFits(row[0], schema[0]) && LongTextFirst(row[1..], schema[1..]) {
        var i: nat :| LongTextAt(row[1..], schema[1..], i);
        LongTextNext(row, schema, i);
      }
    }
  }

  /** Why a row has no encoding: the source raises an exception unless it finds a text that is too long first. */
  ghost predicate EncodingFails(row: Row, schema: Schema, e: ExecError)
    requires |row| == |schema|
  {
    !WellTyped(row, schema) && e == if LongTextFirst(row, schema) then InternalError else ExecError.BadVariantAccess
  }

  lemma EncodingFailsIff(row: Row, schema: Schema, e: ExecError)
    requires |row| == |schema|
    ensures (Serialized(row, schema).Err? && EncodingError(Serialized(row, schema).error) == e)
       <==> EncodingFails(row, schema, e)
    ensures Serialized(row, schema).Ok? ==> WellTyped(row, schema) && |Serialized(row, schema).value| == RowSize(row)
  {
    SerializedIffWellTyped(row, schema);
    TextTooLongIff(row, schema);
    SerializedSize(row, schema);
    hide WellTyped, LongTextFirst, RowSize, Padded;
  }

  /** Some row has an equal key. */
  ghost predicate KeyAmong(rows: seq<Row>, k: nat, v: Value) {
    exists i :: 0 <= i < |rows| && k < |rows[i]| && Same(rows[i][k], v)
  }

  lemma {:induction false} RowOnPage(cells: seq<Option<Row>>, row: Row)
    ensures row in PageRows(cells) <==> exists s :: 0 <= s < |cells| && cells[s] == Some(row)
  {
    if cells != [] {
      RowOnPage(cells[1..], row);
      assert cells == [cells[0]] + cells[1..];
      assert (exists s :: 0 <= s < |cells| && cells[s] == Some(row))
        <==> cells[0] == Some(row) || exists s :: 0 <= s < |cells[1..]| && cells[1..][s] == Some(row);
    }
  }

  lemma {:induction false} RowInTable(t: Table, row: Row)
    ensures row in LiveRows(t) <==> exists p, s :: IsCell(t, p, s) && t[p].rows[s] == Some(row)
  {
    if t != [] {
      var rest := t[1..];
      RowInTable(rest, row);
      RowOnPage(t[0].rows, row);
      hide PageRows;
      if row in LiveRows(rest) {
        var p, s :| IsCell(rest, p, s) && rest[p].rows[s] == Some(row);
        assert IsCell(t, p + 1, s) && t[p + 1] == rest[p];
      }
      if row in PageRows(t[0].rows) {
        var s :| 0 <= s < |t[0].rows| && t[0].rows[s] == Some(row);
        assert IsCell(t, 0, s);
      }
      if p, s :| IsCell(t, p, s) && t[p].rows[s] == Some(row) && p > 0 {
        assert IsCell(rest, p - 1, s) && rest[p - 1] == t[p];
      }
    }
  }

  /** The key check looks at all rows. */
  lemma KeyTakenIff(t: Table, k: nat, v: Value)
    ensures KeyTaken(t, k, v, None) <==> KeyAmong(LiveRows(t), k, v)
  {
    var rows := LiveRows(t);
    hide LiveRows;
    if KeyTaken(t, k, v, None) {
      var p, s :| IsLive(t, p, s) && HasKey(t[p].rows[s], k, v);
      var row := t[p].rows[s].value;
      RowInTable(t, row);
      EqualityMeans(row[k], v);
      var i :| 0 <= i < |rows| && rows[i] == row;
    }
    if KeyAmong(rows, k, v) {
      var i :| 0 <= i < |rows| && k < |rows[i]| && Same(rows[i][k], v);
      RowInTable(t, rows[i]);
      EqualityMeans(rows[i][k], v);
      var p, s :| IsCell(t, p, s) && t[p].rows[s] == Some(rows[i]);
      assert IsLive(t, p, s) && HasKey(t[p].rows[s], k, v);
    }
  }

  /** Why a row is not inserted, in the order of the checks. */
  ghost predicate Refuses(rows: seq<Row>, ctx: Context, row: Row, e: ExecError)
    requires |row| == |ctx.schema|
  {
    var k := PrimaryKey(ctx.schema);
    if k.Some? && KeyAmong(rows, k.value, row[k.value]) then e == PrimaryKeyViolation
    else if !WellTyped(row, ctx.schema) then EncodingFails(row, ctx.schema, e)
    else if !PageTakes(RowSize(row)) then e == InternalError
    else RowSize(row) >= 0x1_0000 && e == RowCut
  }

  /** An INSERT of a row has an error exactly when, and which, one of its checks says. */
  lemma InsertRefusedIff(t: Table, ctx: Context, row: Row, e: ExecError)
    requires |row| == |ctx.schema| && Spaced(t)
    ensures InsertMeaning(t, ctx, row).1 == Err(e) <==> Refuses(LiveRows(t), ctx, row, e)
  {
    var k := PrimaryKey(ctx.schema);
    if k.Some? {
      KeyTakenIff(t, k.value, row[k.value]);
    }
    EncodingFailsIff(row, ctx.schema, e);
    SerializedIffWellTyped(row, ctx.schema);
    hide WellTyped, KeyTaken, KeyAmong, Serialized, LiveRows, Store, RowSize, PrimaryKey, RowAppended, Cast16, PageTakes;
    hide EncodingFails, EncodingError;
    StoreIsFirstFit(t, row, RowSize(row));
  }

  // What a refused INSERT leaves behind.

  /**
   When an INSERT that the source refuses changes nothing at all: exactly when the key is taken, or the
   row has no encoding, or the 16-bit length of the encoding is 0 and some page has room for a slot.
   Any other refused INSERT adds one empty page.
   */
  lemma RefusedInsertChangesNothingIff(t: Table, ctx: Context, row: Row)
    requires |row| == |ctx.schema| && Spaced(t)
    requires InsertMeaning(t, ctx, row).1.Err? && InsertMeaning(t, ctx, row).1 != Err(RowCut)
    ensures var k, u := PrimaryKey(ctx.schema), InsertMeaning(t, ctx, row).0;
      && (u == t <==>
            || (k.Some? && KeyTaken(t, k.value, row[k.value], None))
            || !WellTyped(row, ctx.schema)
            || (Cast16(RowSize(row)) == 0 && SlotFree(t)))
      && (u != t ==> u == t + [TablePage([], FRESH_SPACE)])
  {
    SerializedIffWellTyped(row, ctx.schema);
    SerializedSize(row, ctx.schema);
    hide WellTyped, KeyTaken, Serialized, RowSize, PrimaryKey, Store, RowAppended, SlotFree, Cast16, PageTakes;
    StoreIsFirstFit(t, row, RowSize(row));
    assert |t + [TablePage([], FRESH_SPACE)]| != |t|;
  }

  /** A row whose 16-bit length is too long for a page is refused, and leaves an empty page in the file every time. */
  lemma LongRowAddsEmptyPage(t: Table, ctx: Context, row: Row)
    requires |row| == |ctx.schema| && Spaced(t) && WellTyped(row, ctx.schema)
    requires PrimaryKey(ctx.schema).Some? ==>
      !KeyTaken(t, PrimaryKey(ctx.schema).value, row[PrimaryKey(ctx.schema).value], None)
    requires Cast16(RowSize(row)) > MAX_ROW
    ensures InsertMeaning(t, ctx, row) == (t + [TablePage([], FRESH_SPACE)], Err(InternalError))
  {
    SerializedIffWellTyped(row, ctx.schema);
    SerializedSize(row, ctx.schema);
    hide WellTyped, KeyTaken, Serialized, RowSize, PrimaryKey, Store, RowAppended, SlotFree, Cast16;
    StoreIsFirstFit(t, row, RowSize(row));
  }

  // Repeating an INSERT.

  predicate IsNaNValue(v: Value) { v.Flt? && IsNaN(v.f) }

  /**
   Repeating an INSERT that succeeded, when the schema has a primary key: it is refused for its key
   unless the key is a NaN, which equals nothing, and it succeeds again if the key is one.
   */
  lemma InsertTwice(t: Table, ctx: Context, row: Row)
    requires |row| == |ctx.schema| && PrimaryKey(ctx.schema).Some? && Spaced(t)
    requires InsertMeaning(t, ctx, row).1.Ok?
    ensures var u, nan := InsertMeaning(t, ctx, row).0, IsNaNValue(row[PrimaryKey(ctx.schema).value]);
      && Spaced(u)
      && (InsertMeaning(u, ctx, row).1 == Err(PrimaryKeyViolation) <==> !nan)
      && (InsertMeaning(u, ctx, row).1 == Ok(()) <==> nan)
  {
    var k := PrimaryKey(ctx.schema).value;
    var u := InsertMeaning(t, ctx, row).0;
    InsertSucceedsIff(t, ctx, row);
    InsertKeepsSpaced(t, ctx, row);
    var p, s := NewestRow(t, ctx, row);
    KeyTakenAgainIff(t, u, k, row, p, s);
    hide *;
    InsertOfKnownSize(u, ctx, row);
  }

  /** With type and size in order, only the key decides. */
  lemma InsertOfKnownSize(t: Table, ctx: Context, row: Row)
    requires |row| == |ctx.schema| && PrimaryKey(ctx.schema).Some? && Spaced(t)
    requires WellTyped(row, ctx.schema) && PageTakes(RowSize(row)) && RowSize(row) < 0x1_0000
    ensures InsertMeaning(t, ctx, row).1 ==
      if KeyTaken(t, PrimaryKey(ctx.schema).value, row[PrimaryKey(ctx.schema).value], None)
      then Err(PrimaryKeyViolation) else Ok(())
  {
    InsertSucceedsIff(t, ctx, row);
    hide WellTyped, RowSize, KeyTaken, Serialized, LiveRows, Store, PrimaryKey;
  }

  lemma KeyTakenAgainIff(t: Table, u: Table, k: nat, row: Row, p: nat, s: nat)
    requires k < |row| && !KeyTaken(t, k, row[k], None) && OthersWereThere(t, u, p, s)
    requires IsLive(u, p, s) && u[p].rows[s] == Some(row)
    ensures KeyTaken(u, k, row[k], None) <==> !IsNaNValue(row[k])
  {
    if IsNaNValue(row[k]) {
      NotTakenAgain(t, u, k, row[k], p, s);
    } else {
      assert HasKey(u[p].rows[s], k, row[k]);
    }
  }

  lemma InsertKeepsSpaced(t: Table, ctx: Context, row: Row)
    requires |row| == |ctx.schema| && Spaced(t)
    ensures Spaced(InsertMeaning(t, ctx, row).0)
  {
    hide Serialized, KeyTaken;
  }

  /** Where a successful INSERT put its row; every other live row was there before. */
  lemma NewestRow(t: Table, ctx: Context, row: Row) returns (p: nat, s: nat)
    requires |row| == |ctx.schema| && PrimaryKey(ctx.schema).Some?
    requires InsertMeaning(t, ctx, row).1.Ok?
    ensures var u := InsertMeaning(t, ctx, row).0;
      IsLive(u, p, s) && u[p].rows[s] == Some(row) && OthersWereThere(t, u, p, s)
    ensures !KeyTaken(t, PrimaryKey(ctx.schema).value, row[PrimaryKey(ctx.schema).value], None)
  {
    hide Serialized, KeyTaken;
    var size := |Serialized(row, ctx.schema).value|;
    var fit := FirstFit(t, Cast16(size) + SLOT_COST);
    p := if fit.Some? then fit.value else |t|;
    s := if fit.Some? then |t[p].rows| else 0;
  }

  ghost predicate OthersWereThere(t: Table, u: Table, p: nat, s: nat) {
    forall q, r :: IsLive(u, q, r) && (q, r) != (p, s) ==> IsLive(t, q, r) && u[q].rows[r] == t[q].rows[r]
  }

  lemma NotTakenAgain(t: Table, u: Table, k: nat, v: Value, p: nat, s: nat)
    requires !KeyTaken(t, k, v, None) && OthersWereThere(t, u, p, s)
    requires IsLive(u, p, s) && !HasKey(u[p].rows[s], k, v)
    ensures !KeyTaken(u, k, v, None)
  {
    forall q, r | IsLive(u, q, r)
      ensures !HasKey(u[q].rows[r], k, v)
    {
      if (q, r) != (p, s) {
        assert IsLive(t, q, r);
      }
    }
  }
}
