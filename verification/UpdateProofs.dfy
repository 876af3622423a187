/** When an UPDATE succeeds, exactly; for statements that assign the primary key the order of the rows matters. */
module UpdateProofs {
  import opened Bytes
  import opened Values
  import opened Expressions
  import opened Evaluator
  import opened RowCodec
  import opened Relation
  import opened RelationProofs
  import opened InsertProofs
  import opened Wrappers

  /**
   The condition evaluates on the row, and if it matches, the assigned row exists and has an encoding,
   which is not empty and is stored whole.
   */
  ghost predicate CellUpdates(cell: Option<Row>, change: Change, ctx: Context)
    requires change.Assignment?
  {
    cell.Some? ==>
      && |cell.value| == |ctx.schema| && Matches(change.where, TableEnv(ctx), cell.value).Ok?
      && (Hit(change.where, TableEnv(ctx), cell.value) ==> RowUpdates(cell.value, change, ctx))
  }

  ghost predicate RowUpdates(row: Row, change: Change, ctx: Context)
    requires change.Assignment? && |row| == |ctx.schema|
  {
    && Assigned(row, row, change.assignments, TableEnv(ctx)).Ok?
    && var updated := Assigned(row, row, change.assignments, TableEnv(ctx)).value;
       WellTyped(updated, ctx.schema) && 0 < RowSize(updated) < 0x1_0000
  }

  /** The free space the cell will take: that of its new row if it grows, and nothing otherwise. */
  ghost function Growth(cell: Option<Row>, change: Change, ctx: Context): nat
    requires change.Assignment? && CellUpdates(cell, change, ctx)
  {
    if cell.None? || !Hit(change.where, TableEnv(ctx), cell.value) then 0
    else
      var size := RowSize(Assigned(cell.value, cell.value, change.assignments, TableEnv(ctx)).value);
      if size > RowSize(cell.value) then size else 0
  }

  ghost predicate AllUpdate(rows: seq<Option<Row>>, change: Change, ctx: Context)
    requires change.Assignment?
  {
    forall i :: 0 <= i < |rows| ==> CellUpdates(rows[i], change, ctx)
  }

  ghost function Growths(rows: seq<Option<Row>>, change: Change, ctx: Context): nat
    requires change.Assignment? && AllUpdate(rows, change, ctx)
  {
    if rows == [] then 0 else Growth(rows[0], change, ctx) + Growths(rows[1..], change, ctx)
  }

  /** Every row can be updated, and together the growing ones fit into the page's free space. */
  ghost predicate PageUpdates(rows: seq<Option<Row>>, free: nat, change: Change, ctx: Context)
    requires change.Assignment?
  {
    AllUpdate(rows, change, ctx) && Growths(rows, change, ctx) <= free
  }

  // Keys. While the row of one cell is checked, the rows before it are already the assigned ones.

  predicate Precedes(q: int, r: int, p: int, s: int) { q < p || (q == p && r < s) }

  /** What an UPDATE that gets past the cell makes of it. */
  ghost function Assignee(cell: Option<Row>, change: Change, ctx: Context): Option<Row>
    requires change.Assignment?
  {
    if cell.Some? && |cell.value| == |ctx.schema| && Hit(change.where, TableEnv(ctx), cell.value)
       && Assigned(cell.value, cell.value, change.assignments, TableEnv(ctx)).Ok?
    then Some(Assigned(cell.value, cell.value, change.assignments, TableEnv(ctx)).value)
    else cell
  }

  /** The cell (q, r) when the scan is at the cell (p, s). */
  ghost function CellThen(t: Table, q: nat, r: nat, p: nat, s: nat, change: Change, ctx: Context): Option<Row>
    requires IsCell(t, q, r) && change.Assignment?
  {
    if Precedes(q, r, p, s) then Assignee(t[q].rows[r], change, ctx) else t[q].rows[r]
  }

  /** If the row of the cell matches, no other row has its new key at that moment. */
  ghost predicate KeyFree(t: Table, p: nat, s: nat, change: Change, ctx: Context)
    requires IsCell(t, p, s) && change.Assignment? && PrimaryKey(ctx.schema).Some?
  {
    var k, cell := PrimaryKey(ctx.schema).value, Assignee(t[p].rows[s], change, ctx);
    cell.Some? && k < |cell.value| && Hit(change.where, TableEnv(ctx), t[p].rows[s].value) ==>
      forall q, r :: IsCell(t, q, r) && (q, r) != (p, s) ==>
        !HasKey(CellThen(t, q, r, p, s, change, ctx), k, cell.value[k])
  }

  ghost predicate AllKeysFree(t: Table, change: Change, ctx: Context)
    requires change.Assignment? && PrimaryKey(ctx.schema).Some?
  {
    forall p, s :: IsCell(t, p, s) ==> KeyFree(t, p, s, change, ctx)
  }

  ghost predicate KeysFree(t: Table, p: nat, s: nat, change: Change, ctx: Context)
    requires p < |t| && change.Assignment?
  {
    AssignsKey(ctx, change.assignments) ==> forall r :: s <= r < |t[p].rows| ==> KeyFree(t, p, r, change, ctx)
  }

  /** `u` is the table `t` when the scan is at the cell (p, s). */
  ghost predicate Reaches(t: Table, u: Table, p: nat, s: nat, change: Change, ctx: Context)
    requires change.Assignment?
  {
    && |u| == |t|
    && (forall q :: 0 <= q < |t| ==> |u[q].rows| == |t[q].rows|)
    && (forall q, r :: IsCell(t, q, r) ==> u[q].rows[r] == CellThen(t, q, r, p, s, change, ctx))
    && (forall q :: p <= q < |t| && (q == p ==> s == 0) ==> u[q].free == t[q].free)
  }

  ghost predicate StepKeyFree(t: Table, p: nat, s: nat, change: Change, ctx: Context)
    requires IsCell(t, p, s) && change.Assignment?
  {
    AssignsKey(ctx, change.assignments) && t[p].rows[s].Some? ==>
      var k, row := PrimaryKey(ctx.schema).value, t[p].rows[s].value;
      |row| == |ctx.schema| && Hit(change.where, TableEnv(ctx), row)
      && Assigned(row, row, change.assignments, TableEnv(ctx)).Ok? ==>
        !KeyTaken(t, k, Assigned(row, row, change.assignments, TableEnv(ctx)).value[k], Some((p, s)))
  }

  lemma StepSucceedsIff(t: Table, p: nat, s: nat, change: Change, ctx: Context)
    requires IsCell(t, p, s) && Typed(t, ctx.schema) && change.Assignment?
    ensures Step(t, p, s, change, ctx).Ok? <==>
      && CellUpdates(t[p].rows[s], change, ctx) && Growth(t[p].rows[s], change, ctx) <= t[p].free
      && StepKeyFree(t, p, s, change, ctx)
    ensures Step(t, p, s, change, ctx).Ok? ==>
      var page := Step(t, p, s, change, ctx).value.0;
      && page.rows == t[p].rows[s := Assignee(t[p].rows[s], change, ctx)]
      && page.free == t[p].free - Growth(t[p].rows[s], change, ctx)
  {
    if t[p].rows[s].Some? {
      assert IsLive(t, p, s) && WellTyped(t[p].rows[s].value, ctx.schema);
      if Hit(change.where, TableEnv(ctx), t[p].rows[s].value) {
        CellSucceedsIff(t, p, s, change, ctx);
      }
      hide WellTyped, Typed, UpdateCell, RowUpdates, KeyTaken, AssignsKey, Assigned, Matches, RowSize, PrimaryKey;
    }
  }

  lemma CellSucceedsIff(t: Table, p: nat, s: nat, change: Change, ctx: Context)
    requires IsLive(t, p, s) && |t[p].rows[s].value| == |ctx.schema| && change.Assignment?
    requires Hit(change.where, TableEnv(ctx), t[p].rows[s].value)
    ensures var cell := UpdateCell(t, p, s, change.assignments, ctx);
      && (cell.Ok? <==> CellUpdates(t[p].rows[s], change, ctx) && Growth(t[p].rows[s], change, ctx) <= t[p].free
                        && StepKeyFree(t, p, s, change, ctx))
      && (cell.Ok? ==> cell.value == TablePage(t[p].rows[s := Assignee(t[p].rows[s], change, ctx)],
                                               t[p].free - Growth(t[p].rows[s], change, ctx)))
  {
    var row := t[p].rows[s].value;
    var updated := Assigned(row, row, change.assignments, TableEnv(ctx));
    if updated.Ok? {
      SerializedIffWellTyped(updated.value, ctx.schema);
      SerializedSize(updated.value, ctx.schema);
    }
    hide WellTyped, Serialized, KeyTaken, AssignsKey, Assigned, RowSize, PrimaryKey;
  }

  lemma PageUpdatesStep(rows: seq<Option<Row>>, s: nat, free: nat, change: Change, ctx: Context)
    requires change.Assignment? && s < |rows|
    ensures PageUpdates(rows[s..], free, change, ctx) <==>
      && CellUpdates(rows[s], change, ctx) && Growth(rows[s], change, ctx) <= free
      && PageUpdates(rows[s + 1..], free - Growth(rows[s], change, ctx), change, ctx)
  {
    hide CellUpdates, Growth;
    var rest := rows[s..];
    assert rest[0] == rows[s] && rest[1..] == rows[s + 1..];
    assert AllUpdate(rest, change, ctx) <==> CellUpdates(rest[0], change, ctx) && AllUpdate(rest[1..], change, ctx);
  }

  lemma KeyFreeAtStep(t: Table, u: Table, p: nat, s: nat, change: Change, ctx: Context)
    requires change.Assignment? && IsCell(t, p, s) && Reaches(t, u, p, s, change, ctx)
    requires IsCell(u, p, s) && u[p].rows[s] == t[p].rows[s] && CellUpdates(t[p].rows[s], change, ctx)
    ensures StepKeyFree(u, p, s, change, ctx) <==> (AssignsKey(ctx, change.assignments) ==> KeyFree(t, p, s, change, ctx))
  {
    hide Reaches, KeyTaken, CellThen, WellTyped, RowSize;
    var cell := t[p].rows[s];
    if AssignsKey(ctx, change.assignments) && cell.Some? && Hit(change.where, TableEnv(ctx), cell.value) {
      assert RowUpdates(cell.value, change, ctx);
      var k, updated := PrimaryKey(ctx.schema).value, Assignee(cell, change, ctx).value;
      assert Assigned(cell.value, cell.value, change.assignments, TableEnv(ctx)) == Ok(updated);
      KeyTakenThenIff(t, u, p, s, k, updated[k], change, ctx);
    }
  }

  lemma KeyTakenThenIff(t: Table, u: Table, p: nat, s: nat, k: nat, v: Value, change: Change, ctx: Context)
    requires change.Assignment? && IsCell(t, p, s) && Reaches(t, u, p, s, change, ctx)
    ensures KeyTaken(u, k, v, Some((p, s))) <==>
      exists q, r :: IsCell(t, q, r) && (q, r) != (p, s) && HasKey(CellThen(t, q, r, p, s, change, ctx), k, v)
  {
    hide CellThen;
    forall q, r | IsCell(t, q, r)
      ensures IsCell(u, q, r) && u[q].rows[r] == CellThen(t, q, r, p, s, change, ctx)
    {
    }
    assert forall q, r :: IsCell(u, q, r) ==> IsCell(t, q, r);
  }

  lemma ReachesNext(t: Table, u: Table, p: nat, s: nat, page: TablePage, change: Change, ctx: Context)
    requires change.Assignment? && IsCell(t, p, s) && Reaches(t, u, p, s, change, ctx)
    requires page.rows == u[p].rows[s := Assignee(u[p].rows[s], change, ctx)]
    ensures Reaches(t, u[p := page], p, s + 1, change, ctx)
  {
    hide Assignee;
    assert u[p].rows[s] == CellThen(t, p, s, p, s, change, ctx) == t[p].rows[s];
    forall q, r | IsCell(t, q, r)
      ensures u[p := page][q].rows[r] == CellThen(t, q, r, p, s + 1, change, ctx)
    {
      assert u[q].rows[r] == CellThen(t, q, r, p, s, change, ctx);
    }
  }

  lemma ReachesPage(t: Table, u: Table, p: nat, change: Change, ctx: Context)
    requires change.Assignment? && p < |t| && Reaches(t, u, p, |t[p].rows|, change, ctx)
    ensures Reaches(t, u, p + 1, 0, change, ctx)
  {
    hide Assignee;
    forall q, r | IsCell(t, q, r)
      ensures u[q].rows[r] == CellThen(t, q, r, p + 1, 0, change, ctx)
    {
      assert u[q].rows[r] == CellThen(t, q, r, p, |t[p].rows|, change, ctx);
    }
  }

  lemma KeysFreeStep(t: Table, p: nat, s: nat, change: Change, ctx: Context)
    requires change.Assignment? && IsCell(t, p, s)
    ensures KeysFree(t, p, s, change, ctx) <==>
      (AssignsKey(ctx, change.assignments) ==> KeyFree(t, p, s, change, ctx)) && KeysFree(t, p, s + 1, change, ctx)
  {
    hide KeyFree;
  }

  /** The rest of a page succeeds exactly when its rows can be updated, fit together, and clash with no key. */
  lemma {:induction false} PageSucceedsIff(t: Table, u: Table, p: nat, s: nat, count: nat, change: Change, ctx: Context)
    requires change.Assignment? && p < |t| && s <= |t[p].rows| && Typed(u, ctx.schema)
    requires Reaches(t, u, p, s, change, ctx)
    ensures ScanPage(u, p, s, count, change, ctx).Ok? <==>
      PageUpdates(t[p].rows[s..], u[p].free, change, ctx) && KeysFree(t, p, s, change, ctx)
    ensures ScanPage(u, p, s, count, change, ctx).Ok? ==>
      Reaches(t, ScanPage(u, p, s, count, change, ctx).value.0, p + 1, 0, change, ctx)
    decreases |t[p].rows| - s
  {
    hide Typed, Step, CellUpdates, Growth, AssignsKey, KeyFree, Assignee, StepKeyFree;
    if s < |t[p].rows| {
      hide PageUpdates, KeysFree;
      CellReached(t, u, p, s, change, ctx);
      hide Reaches;
      StepSucceedsIff(u, p, s, change, ctx);
      PageUpdatesStep(t[p].rows, s, u[p].free, change, ctx);
      KeysFreeStep(t, p, s, change, ctx);
      if CellUpdates(t[p].rows[s], change, ctx) {
        KeyFreeAtStep(t, u, p, s, change, ctx);
      }
      var step := Step(u, p, s, change, ctx);
      if step.Ok? {
        StepKeepsTyped(u, p, s, change, ctx);
        ReachesNext(t, u, p, s, step.value.0, change, ctx);
        PageSucceedsIff(t, u[p := step.value.0], p, s + 1, count + step.value.1, change, ctx);
      }
    } else {
      ReachesPage(t, u, p, change, ctx);
      NothingLeft(t, p, u[p].free, change, ctx);
    }
  }

  lemma CellReached(t: Table, u: Table, p: nat, s: nat, change: Change, ctx: Context)
    requires change.Assignment? && IsCell(t, p, s) && Reaches(t, u, p, s, change, ctx)
    ensures IsCell(u, p, s) && |u[p].rows| == |t[p].rows| && u[p].rows[s] == t[p].rows[s]
  {
    assert u[p].rows[s] == CellThen(t, p, s, p, s, change, ctx);
  }

  lemma NothingLeft(t: Table, p: nat, free: nat, change: Change, ctx: Context)
    requires change.Assignment? && p < |t|
    ensures PageUpdates(t[p].rows[|t[p].rows|..], free, change, ctx) && KeysFree(t, p, |t[p].rows|, change, ctx)
  {
  }

  lemma {:induction false} PagesSucceedIff(t: Table, u: Table, p: nat, count: nat, change: Change, ctx: Context)
    requires change.Assignment? && p <= |t| && Typed(u, ctx.schema)
    requires Reaches(t, u, p, 0, change, ctx)
    ensures ScanTable(u, p, count, change, ctx).1.Ok? <==>
      forall q :: p <= q < |t| ==> PageUpdates(t[q].rows, t[q].free, change, ctx) && KeysFree(t, q, 0, change, ctx)
    decreases |t| - p
  {
    hide Typed, ScanPage, PageUpdates, AssignsKey, KeysFree, CellThen;
    if p < |t| {
      assert t[p].rows[0..] == t[p].rows && u[p].free == t[p].free;
      PageSucceedsIff(t, u, p, 0, count, change, ctx);
      hide Reaches;
      var scan := ScanPage(u, p, 0, count, change, ctx);
      if scan.Ok? {
        PagesSucceedIff(t, scan.value.0, p + 1, scan.value.1, change, ctx);
      }
    }
  }

  /** One of the assignments is to the column of the primary key. */
  ghost predicate SetsKey(assignments: seq<(Text, Tree)>, schema: Schema) {
    PrimaryKey(schema).Some? && exists a :: a in assignments && a.0 == schema[PrimaryKey(schema).value].name
  }

  lemma SetsKeyIff(assignments: seq<(Text, Tree)>, ctx: Context)
    ensures AssignsKey(ctx, assignments) <==> SetsKey(assignments, ctx.schema)
  {
    hide PrimaryKey;
  }

  /**
   When an UPDATE succeeds: if and only if, on every page, the condition evaluates on every row, every
   matching row has an assigned row that can be encoded and stored whole, the growing ones among them
   fit together into the free space of the page, and, when the key is assigned, the new key of no
   matching row is a key of another row at that moment, when the rows before it, in (page, slot) order,
   are the assigned ones already and those after it are not.
   */
  lemma UpdateSucceedsIff(t: Table, assignments: seq<(Text, Tree)>, where: Option<Tree>, ctx: Context)
    requires Typed(t, ctx.schema)
    ensures var change := Assignment(assignments, where);
      ScanTable(t, 0, 0, change, ctx).1.Ok? <==>
        && (forall q :: 0 <= q < |t| ==> PageUpdates(t[q].rows, t[q].free, change, ctx))
        && (SetsKey(assignments, ctx.schema) ==> AllKeysFree(t, change, ctx))
  {
    SetsKeyIff(assignments, ctx);
    hide Typed, ScanTable, PageUpdates, KeyFree;
    var change := Assignment(assignments, where);
    PagesSucceedIff(t, t, 0, 0, change, ctx);
    if AssignsKey(ctx, assignments) && forall q :: 0 <= q < |t| ==> KeysFree(t, q, 0, change, ctx) {
      forall p, s | IsCell(t, p, s)
        ensures KeyFree(t, p, s, change, ctx)
      {
        assert KeysFree(t, p, 0, change, ctx);
      }
    }
  }

  // Which error an UPDATE has.

  /** A row of `size` bytes cannot be put in the place of one of `was` bytes. */
  ghost predicate ReplacementFails(free: nat, was: nat, size: nat, e: ExecError) {
    if Cast16(size) == 0 || (Cast16(size) > was && Cast16(size) > free) then e == InternalError
    else size >= 0x1_0000 && e == RowCut
  }

  /** What goes wrong at a cell, in the order of the checks. */
  ghost predicate Fault(t: Table, p: nat, s: nat, change: Change, ctx: Context, e: ExecError)
    requires IsCell(t, p, s) && change.Assignment?
  {
    && t[p].rows[s].Some? && |t[p].rows[s].value| == |ctx.schema|
    && var row := t[p].rows[s].value;
       match Matches(change.where, TableEnv(ctx), row)
       case Err(x) => e == x
       case Ok(hit) => hit && RowFault(t, p, s, row, change, ctx, e)
  }

  /** What goes wrong with a row that matches. */
  ghost predicate RowFault(t: Table, p: nat, s: nat, row: Row, change: Change, ctx: Context, e: ExecError)
    requires IsCell(t, p, s) && change.Assignment? && |row| == |ctx.schema|
  {
    match Assigned(row, row, change.assignments, TableEnv(ctx))
    case Err(x) => e == x
    case Ok(updated) =>
      var k := PrimaryKey(ctx.schema);
      if AssignsKey(ctx, change.assignments) && KeyTaken(t, k.value, updated[k.value], Some((p, s)))
      then e == PrimaryKeyViolation
      else if !WellTyped(updated, ctx.schema) then EncodingFails(updated, ctx.schema, e)
      else ReplacementFails(t[p].free, RowSize(row), RowSize(updated), e)
  }

  lemma ReplaceFails(page: TablePage, s: nat, row: Row, size: nat, e: ExecError)
    requires s < |page.rows| && page.rows[s].Some?
    ensures Replace(page, s, row, size) == Err(e) <==> ReplacementFails(page.free, RowSize(page.rows[s].value), size, e)
  {
    hide RowSize;
  }

  lemma CellFails(t: Table, p: nat, s: nat, change: Change, ctx: Context, e: ExecError)
    requires IsLive(t, p, s) && |t[p].rows[s].value| == |ctx.schema| && change.Assignment?
    requires Matches(change.where, TableEnv(ctx), t[p].rows[s].value) == Ok(true)
    ensures UpdateCell(t, p, s, change.assignments, ctx) == Err(e) <==> Fault(t, p, s, change, ctx, e)
  {
    var row := t[p].rows[s].value;
    var updated := Assigned(row, row, change.assignments, TableEnv(ctx));
    if updated.Ok? {
      EncodingFailsIff(updated.value, ctx.schema, e);
      SerializedIffWellTyped(updated.value, ctx.schema);
      ReplaceFails(t[p], s, updated.value, RowSize(updated.value), e);
    }
    hide WellTyped, Serialized, KeyTaken, AssignsKey, Assigned, RowSize, PrimaryKey, Matches, Replace, ReplacementFails;
    hide EncodingFails, EncodingError;
  }

  lemma StepFails(t: Table, p: nat, s: nat, change: Change, ctx: Context, e: ExecError)
    requires IsCell(t, p, s) && Typed(t, ctx.schema) && change.Assignment?
    ensures Step(t, p, s, change, ctx) == Err(e) <==> Fault(t, p, s, change, ctx, e)
  {
    if t[p].rows[s].Some? {
      var row := t[p].rows[s].value;
      assert IsLive(t, p, s) && WellTyped(row, ctx.schema);
      if Matches(change.where, TableEnv(ctx), row) == Ok(true) {
        CellFails(t, p, s, change, ctx, e);
        hide Fault;
      }
      hide WellTyped, Typed, UpdateCell, Matches;
    }
  }

  /** The scan gets as far as the cell (p, s), where the table is `u`: all cells before it could be updated. */
  ghost predicate GetsTo(t: Table, u: Table, p: nat, s: nat, change: Change, ctx: Context)
    requires change.Assignment?
  {
    && p < |t| && s <= |t[p].rows| && Reaches(t, u, p, s, change, ctx)
    && AllUpdate(t[p].rows[..s], change, ctx)
    && t[p].free == u[p].free + Growths(t[p].rows[..s], change, ctx)
    && (forall q :: 0 <= q < p ==> PageUpdates(t[q].rows, t[q].free, change, ctx))
    && (AssignsKey(ctx, change.assignments) ==>
          forall q, r :: IsCell(t, q, r) && Precedes(q, r, p, s) ==> KeyFree(t, q, r, change, ctx))
  }

  lemma {:induction false} GrowthsSnoc(rows: seq<Option<Row>>, cell: Option<Row>, change: Change, ctx: Context)
    requires change.Assignment? && AllUpdate(rows, change, ctx) && CellUpdates(cell, change, ctx)
    ensures AllUpdate(rows + [cell], change, ctx)
    ensures Growths(rows + [cell], change, ctx) == Growths(rows, change, ctx) + Growth(cell, change, ctx)
  {
    hide CellUpdates, Growth;
    var all := rows + [cell];
    assert AllUpdate(all, change, ctx);
    if rows == [] {
      assert all == [cell] && all[1..] == [];
      assert Growths(all[1..], change, ctx) == 0;
    } else {
      assert all[1..] == rows[1..] + [cell];
      assert AllUpdate(rows[1..], change, ctx) && AllUpdate(all[1..], change, ctx);
      GrowthsSnoc(rows[1..], cell, change, ctx);
    }
  }

  lemma GetsFurther(t: Table, u: Table, p: nat, s: nat, page: TablePage, change: Change, ctx: Context)
    requires change.Assignment? && GetsTo(t, u, p, s, change, ctx) && IsCell(t, p, s) && IsCell(u, p, s)
    requires u[p].rows[s] == t[p].rows[s] && CellUpdates(t[p].rows[s], change, ctx)
    requires AssignsKey(ctx, change.assignments) ==> KeyFree(t, p, s, change, ctx)
    requires page.rows == u[p].rows[s := Assignee(u[p].rows[s], change, ctx)]
    requires u[p].free == page.free + Growth(t[p].rows[s], change, ctx)
    ensures GetsTo(t, u[p := page], p, s + 1, change, ctx)
  {
    ReachesNext(t, u, p, s, page, change, ctx);
    GrowthsSnoc(t[p].rows[..s], t[p].rows[s], change, ctx);
    hide CellUpdates, Growth, Assignee, KeyFree, Reaches, AllUpdate, PageUpdates, AssignsKey;
    assert t[p].rows[..s + 1] == t[p].rows[..s] + [t[p].rows[s]];
    assert forall q, r :: Precedes(q, r, p, s + 1) ==> Precedes(q, r, p, s) || (q, r) == (p, s);
  }

  lemma GetsToNextPage(t: Table, u: Table, p: nat, change: Change, ctx: Context)
    requires change.Assignment? && p + 1 < |t| && GetsTo(t, u, p, |t[p].rows|, change, ctx)
    ensures GetsTo(t, u, p + 1, 0, change, ctx)
  {
    ReachesPage(t, u, p, change, ctx);
    hide CellUpdates, Growth, Assignee, KeyFree, AssignsKey, CellThen;
    assert t[p].rows[..|t[p].rows|] == t[p].rows && t[p + 1].rows[..0] == [];
    assert u[p + 1].free == t[p + 1].free;
    hide Reaches;
    assert PageUpdates(t[p].rows, t[p].free, change, ctx);
    assert forall q, r :: IsCell(t, q, r) && Precedes(q, r, p + 1, 0) ==> Precedes(q, r, p, |t[p].rows|);
  }

  /** A page that fails does so at a cell the scan gets to, with the error of that cell. */
  lemma {:induction false} PageFailsWith(t: Table, u: Table, p: nat, s: nat, count: nat, change: Change, ctx: Context)
    returns (r: nat, w: Table)
    requires change.Assignment? && GetsTo(t, u, p, s, change, ctx) && Typed(u, ctx.schema)
    requires p < |u| && s <= |u[p].rows| && ScanPage(u, p, s, count, change, ctx).Err?
    ensures IsCell(t, p, r) && IsCell(w, p, r) && GetsTo(t, w, p, r, change, ctx)
    ensures Fault(w, p, r, change, ctx, ScanPage(u, p, s, count, change, ctx).error)
    decreases |t[p].rows| - s
  {
    var e := ScanPage(u, p, s, count, change, ctx).error;
    hide *;
    PageSize(t, u, p, s, count, change, ctx);
    StepFails(u, p, s, change, ctx, e);
    if Step(u, p, s, change, ctx).Err? {
      StepError(u, p, s, count, change, ctx);
      r, w := s, u;
    } else {
      var page, n, next := StepGetsFurther(t, u, p, s, count, change, ctx);
      r, w := PageFailsWith(t, next, p, s + 1, count + n, change, ctx);
    }
  }

  lemma PageSize(t: Table, u: Table, p: nat, s: nat, count: nat, change: Change, ctx: Context)
    requires change.Assignment? && GetsTo(t, u, p, s, change, ctx) && Typed(u, ctx.schema)
    requires p < |u| && s <= |u[p].rows| && ScanPage(u, p, s, count, change, ctx).Err?
    ensures IsCell(t, p, s) && IsCell(u, p, s) && |u| == |t| && |u[p].rows| == |t[p].rows|
    ensures u[p].rows[s] == t[p].rows[s]
  {
    hide Typed, Step;
    CellReached(t, u, p, s, change, ctx);
  }

  lemma StepError(u: Table, p: nat, s: nat, count: nat, change: Change, ctx: Context)
    requires IsCell(u, p, s) && Typed(u, ctx.schema) && Step(u, p, s, change, ctx).Err?
    ensures ScanPage(u, p, s, count, change, ctx) == Err(Step(u, p, s, change, ctx).error)
  {
    hide Typed, Step;
  }

  lemma StepGetsFurther(t: Table, u: Table, p: nat, s: nat, count: nat, change: Change, ctx: Context)
    returns (page: TablePage, n: nat, next: Table)
    requires change.Assignment? && GetsTo(t, u, p, s, change, ctx) && Typed(u, ctx.schema)
    requires IsCell(t, p, s) && IsCell(u, p, s) && |u[p].rows| == |t[p].rows| && u[p].rows[s] == t[p].rows[s]
    requires Step(u, p, s, change, ctx).Ok?
    ensures next == u[p := page] && |next[p].rows| == |u[p].rows| && Typed(next, ctx.schema)
    ensures GetsTo(t, next, p, s + 1, change, ctx)
    ensures ScanPage(u, p, s, count, change, ctx) == ScanPage(next, p, s + 1, count + n, change, ctx)
  {
    var step := Step(u, p, s, change, ctx).value;
    page, n := step.0, step.1;
    next := u[p := page];
    StepKeepsTyped(u, p, s, change, ctx);
    StepSucceedsIff(u, p, s, change, ctx);
    hide Typed, Step, CellUpdates, Growth, AssignsKey, KeyFree, Assignee, StepKeyFree;
    assert Reaches(t, u, p, s, change, ctx);
    KeyFreeAtStep(t, u, p, s, change, ctx);
    hide Reaches, GetsTo;
    GetsFurther(t, u, p, s, page, change, ctx);
  }

  lemma {:induction false} TableFailsWith(t: Table, u: Table, p: nat, count: nat, change: Change, ctx: Context)
    returns (q: nat, r: nat, w: Table)
    requires change.Assignment? && p < |t| == |u| && GetsTo(t, u, p, 0, change, ctx) && Typed(u, ctx.schema)
    requires ScanTable(u, p, count, change, ctx).1.Err?
    ensures IsCell(t, q, r) && IsCell(w, q, r) && GetsTo(t, w, q, r, change, ctx)
    ensures Fault(w, q, r, change, ctx, ScanTable(u, p, count, change, ctx).1.error)
    decreases |t| - p
  {
    var scan := ScanPage(u, p, 0, count, change, ctx);
    if scan.Err? {
      q := p;
      r, w := PageFailsWith(t, u, p, 0, count, change, ctx);
    } else {
      WholePageGetsFurther(t, u, p, 0, count, change, ctx);
      hide *;
      var next, n := ScanTableNext(u, p, count, change, ctx);
      GetsToNextPage(t, next, p, change, ctx);
      q, r, w := TableFailsWith(t, next, p + 1, n, change, ctx);
    }
  }

  lemma {:induction false} WholePageGetsFurther(t: Table, u: Table, p: nat, s: nat, count: nat, change: Change,
                                                ctx: Context)
    requires change.Assignment? && GetsTo(t, u, p, s, change, ctx) && Typed(u, ctx.schema) && p < |u| == |t|
    requires s <= |u[p].rows| == |t[p].rows| && ScanPage(u, p, s, count, change, ctx).Ok?
    ensures GetsTo(t, ScanPage(u, p, s, count, change, ctx).value.0, p, |t[p].rows|, change, ctx)
    decreases |t[p].rows| - s
  {
    hide Typed, Step, GetsTo, AssignsKey;
    if s < |u[p].rows| {
      CellGotTo(t, u, p, s, change, ctx);
      var page, n, next := StepGetsFurther(t, u, p, s, count, change, ctx);
      hide ScanPage;
      WholePageGetsFurther(t, next, p, s + 1, count + n, change, ctx);
    }
  }

  lemma CellGotTo(t: Table, u: Table, p: nat, s: nat, change: Change, ctx: Context)
    requires change.Assignment? && GetsTo(t, u, p, s, change, ctx) && IsCell(t, p, s)
    ensures IsCell(u, p, s) && u[p].rows[s] == t[p].rows[s]
  {
    CellReached(t, u, p, s, change, ctx);
  }

  /** An UPDATE that fails has the error of the first cell, in (page, slot) order, that goes wrong. */
  ghost predicate UpdateFails(t: Table, change: Change, ctx: Context, e: ExecError)
    requires change.Assignment?
  {
    exists p: nat, s: nat, u: Table ::
      IsCell(t, p, s) && IsCell(u, p, s) && GetsTo(t, u, p, s, change, ctx) && Fault(u, p, s, change, ctx, e)
  }

  lemma UpdateFailsWith(t: Table, assignments: seq<(Text, Tree)>, where: Option<Tree>, ctx: Context, e: ExecError)
    requires Typed(t, ctx.schema) && ScanTable(t, 0, 0, Assignment(assignments, where), ctx).1 == Err(e)
    ensures UpdateFails(t, Assignment(assignments, where), ctx, e)
  {
    var change := Assignment(assignments, where);
    if t != [] {
      StartsThere(t, change, ctx);
      hide *;
      var p, s, u := TableFailsWith(t, t, 0, 0, change, ctx);
      assert UpdateFails(t, change, ctx, e) by { Witness(t, p, s, u, change, ctx, e); }
    }
  }

  lemma Witness(t: Table, p: nat, s: nat, u: Table, change: Change, ctx: Context, e: ExecError)
    requires change.Assignment? && IsCell(t, p, s) && IsCell(u, p, s)
    requires GetsTo(t, u, p, s, change, ctx) && Fault(u, p, s, change, ctx, e)
    ensures UpdateFails(t, change, ctx, e)
  {
    hide GetsTo, Fault;
  }

  lemma StartsThere(t: Table, change: Change, ctx: Context)
    requires change.Assignment? && t != []
    ensures GetsTo(t, t, 0, 0, change, ctx)
  {
    assert t[0].rows[..0] == [];
  }

  // The order of the rows decides whether an UPDATE of the key succeeds.

  const NUMBERED: Schema := [Column("id", INTEGER, 0, false, true)]
  const ADD_ONE: Change := Assignment([("id", Node(ADD, Tip(ColumnRef("", "id")), Tip(LiteralInt(1))))], None)

  lemma OneAdded(n: int64, ctx: Context)
    requires ctx.schema == NUMBERED && n < 10
    ensures var cell := Some([Int(n)]);
      && Hit(None, TableEnv(ctx), cell.value) && Assignee(cell, ADD_ONE, ctx) == Some([Int(n + 1)])
      && CellUpdates(cell, ADD_ONE, ctx) && Growth(cell, ADD_ONE, ctx) == 0
      && WellTyped([Int(n)], ctx.schema)
  {
    var row, updated: Row := [Int(n)], [Int(n + 1)];
    var names := ColumnNames(ctx.schema);
    assert names == ["id"];
    assert IndexOf(names, "id") == Some(0);
    var sum := ADD_ONE.assignments[0].1;
    assert Eval(Tip(ColumnRef("", "id")), TableEnv(ctx), row) == Ok(Int(n));
    assert Eval(sum, TableEnv(ctx), row) == Ok(Int(n + 1));
    AssignedOne(row, row, ADD_ONE.assignments[0], TableEnv(ctx));
    assert row[0 := Int(n + 1)] == updated;
    assert Assigned(row, row, ADD_ONE.assignments, TableEnv(ctx)) == Ok(updated);
    assert row[1..] == [] && updated[1..] == [] && NUMBERED[1..] == [];
    assert RowSize(row) == RowSize(updated) == 9;
  }

  lemma PageAddsOne(n: int64, m: int64, free: nat, ctx: Context)
    requires ctx.schema == NUMBERED && n < 10 && m < 10
    ensures var rows := [Some([Int(n)]), Some([Int(m)])];
      PageUpdates(rows, free, ADD_ONE, ctx) && Typed([TablePage(rows, free)], ctx.schema)
  {
    OneAdded(n, ctx);
    OneAdded(m, ctx);
    hide CellUpdates, Growth, WellTyped;
    var rows: seq<Option<Row>> := [Some([Int(n)]), Some([Int(m)])];
    var rest := rows[1..];
    assert rest == [Some([Int(m)])] && rest[1..] == [];
    assert AllUpdate(rows, ADD_ONE, ctx) && AllUpdate(rest, ADD_ONE, ctx);
    assert Growths(rest, ADD_ONE, ctx) == 0;
  }

  /** With the keys 1 and 2 in this order adding 1 fails, and with 2 and 1 it succeeds. */
  lemma OrderDecides(ctx: Context, free: nat)
    requires ctx.schema == NUMBERED
    ensures var one, two := Some([Int(1)]), Some([Int(2)]);
      var up, down := [TablePage([one, two], free)], [TablePage([two, one], free)];
      && Typed(up, ctx.schema) && ScanTable(up, 0, 0, ADD_ONE, ctx).1.Err?
      && Typed(down, ctx.schema) && ScanTable(down, 0, 0, ADD_ONE, ctx).1.Ok?
  {
    PageAddsOne(1, 2, free, ctx);
    PageAddsOne(2, 1, free, ctx);
    assert PrimaryKey(NUMBERED) == Some(0) && ADD_ONE.assignments[0].0 == NUMBERED[0].name;
    assert AssignsKey(ctx, ADD_ONE.assignments);
    SetsKeyIff(ADD_ONE.assignments, ctx);
    hide *;
    var one, two := Some([Int(1)]), Some([Int(2)]);
    var up, down := TablePage([one, two], free), TablePage([two, one], free);
    KeysOfPage(up, 1, 2, ctx);
    KeysOfPage(down, 2, 1, ctx);
    UpdateSucceedsIff([up], ADD_ONE.assignments, None, ctx);
    UpdateSucceedsIff([down], ADD_ONE.assignments, None, ctx);
    PageAlone(up, ctx);
    PageAlone(down, ctx);
  }

  lemma PageAlone(page: TablePage, ctx: Context)
    requires PageUpdates(page.rows, page.free, ADD_ONE, ctx)
    ensures forall q :: 0 <= q < |[page]| ==> PageUpdates([page][q].rows, [page][q].free, ADD_ONE, ctx)
  {
    hide PageUpdates;
  }

  /** With two different keys, adding 1 clashes exactly when the second key is 1 more than the first. */
  lemma KeysOfPage(page: TablePage, n: int64, m: int64, ctx: Context)
    requires ctx.schema == NUMBERED && PrimaryKey(ctx.schema) == Some(0) && n < 10 && m < 10 && n != m
    requires page.rows == [Some([Int(n)]), Some([Int(m)])]
    ensures AllKeysFree([page], ADD_ONE, ctx) <==> n + 1 != m
  {
    OneAdded(n, ctx);
    OneAdded(m, ctx);
    hide Assignee, CellUpdates, Growth, Hit, AssignsKey, PrimaryKey;
    assert CellThen([page], 0, 1, 0, 0, ADD_ONE, ctx) == Some([Int(m)]);
    assert CellThen([page], 0, 0, 0, 1, ADD_ONE, ctx) == Some([Int(n + 1)]);
    assert forall p, s :: IsCell([page], p, s) ==> p == 0 && (s == 0 || s == 1);
    assert KeyFree([page], 0, 0, ADD_ONE, ctx) <==> n + 1 != m;
    assert KeyFree([page], 0, 1, ADD_ONE, ctx);
  }
}
