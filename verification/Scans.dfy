/**
 DELETE and UPDATE: the loops that visit every live slot of every data page, change the page in
 memory, and write it back whole. Each is proved to do to the rows of the file what the scan of the
 relation does, including what is left behind when a row fails part-way.
 */
module Scans {
  import opened Bytes
  import opened PageImage
  import opened Pages
  import opened TableFiles
  import opened Values
  import opened Expressions
  import opened Evaluator
  import opened RowCodec
  import opened Statements
  import opened Relation
  import opened Storage
  import opened Executor
  import opened Wrappers

  // The specification of the loops, one visit, one page and one table at a time.

  /** The scan of page `index` of a table, which has counted `start` rows when it gets there. */
  datatype PageScan = PageScan(table: Table, index: nat, start: nat, change: Change, ctx: Context)

  ghost predicate ScanOk(k: PageScan) {
    k.index < |k.table| && Typed(k.table, k.ctx.schema)
  }

  /** What a visit to slot `s` must leave of the page `before`, and the rows it counts. */
  ghost predicate Stepped(k: PageScan, before: TablePage, s: nat, page: TablePage, r: Result<nat, ExecError>) {
    && ScanOk(k) && s < |before.rows| && Typed(k.table[k.index := before], k.ctx.schema)
    && match Step(k.table[k.index := before], k.index, s, k.change, k.ctx)
       case Err(e) => r == Err(e)
       case Ok(step) => r == Ok(step.1) && page == step.0
  }

  /** What the scan must leave of the page, and the count it leads to. */
  ghost predicate Scanned(k: PageScan, page: TablePage, r: Result<nat, ExecError>)
    requires ScanOk(k)
  {
    match ScanPage(k.table, k.index, 0, k.start, k.change, k.ctx)
    case Err(e) => r == Err(e)
    case Ok(scan) => r == Ok(scan.1) && scan.0 == k.table[k.index := page]
  }

  /** The page is written back when all its slots went well, and not at all otherwise. */
  ghost predicate WrittenBack(k: PageScan, after: Table, r: Result<nat, ExecError>)
    requires ScanOk(k)
  {
    match ScanPage(k.table, k.index, 0, k.start, k.change, k.ctx)
    case Err(e) => r == Err(e) && after == k.table
    case Ok(scan) => r == Ok(scan.1) && after == scan.0
  }

  /** The scan comes to the same when resumed at slot `s` from the page in memory. */
  ghost predicate ResumesPage(k: PageScan, s: nat, count: nat, page: TablePage) {
    && ScanOk(k)
    && |page.rows| == |k.table[k.index].rows| && s <= |page.rows|
    && Typed(k.table[k.index := page], k.ctx.schema)
    && ScanPage(k.table, k.index, 0, k.start, k.change, k.ctx)
       == ScanPage(k.table[k.index := page], k.index, s, count, k.change, k.ctx)
  }

  /** Scanning the table comes to the same when resumed at page `p` of the stored table `u`. */
  ghost predicate ResumesTable(t: Table, u: Table, p: nat, count: nat, change: Change, ctx: Context)
    requires Typed(t, ctx.schema)
  {
    && |u| == |t| && p <= |u| && Typed(u, ctx.schema)
    && ScanTable(t, 0, 0, change, ctx) == ScanTable(u, p, count, change, ctx)
  }

  lemma PageScanStarts(k: PageScan)
    requires ScanOk(k)
    ensures ResumesPage(k, 0, k.start, k.table[k.index])
  {
    assert k.table[k.index := k.table[k.index]] == k.table;
  }

  lemma PageScanSteps(k: PageScan, s: nat, count: nat, page: TablePage, next: TablePage, r: Result<nat, ExecError>)
    requires ResumesPage(k, s, count, page) && Stepped(k, page, s, next, r)
    ensures r.Ok? ==> ResumesPage(k, s + 1, count + r.value, next)
    ensures r.Err? ==> ScanOk(k) && Scanned(k, next, r)
  {
    hide Step, Typed;
    var u := k.table[k.index := page];
    assert u[k.index := next] == k.table[k.index := next];
    if Step(u, k.index, s, k.change, k.ctx).Ok? {
      StepKeepsTyped(u, k.index, s, k.change, k.ctx);
    }
  }

  lemma PageScanEnds(k: PageScan, count: nat, page: TablePage)
    requires ResumesPage(k, |page.rows|, count, page)
    ensures ScanOk(k) && Scanned(k, page, Ok(count))
  {
  }

  lemma PageScanStored(k: PageScan, page: TablePage, r: Result<nat, ExecError>)
    requires ScanOk(k) && Scanned(k, page, r)
    ensures WrittenBack(k, if r.Ok? then k.table[k.index := page] else k.table, r)
  {
    hide ScanPage, Typed;
  }

  lemma TableScanStarts(pages: seq<Image>, change: Change, ctx: Context)
    requires FileOk(pages, ctx.schema)
    ensures |pages| == |TableOf(pages, ctx.schema)| + 1 && Typed(TableOf(pages, ctx.schema), ctx.schema)
    ensures ResumesTable(TableOf(pages, ctx.schema), TableOf(pages, ctx.schema), 0, 0, change, ctx)
  {
    TableTyped(pages, ctx.schema);
  }

  lemma TableScanSteps(t: Table, k: PageScan, after: Table, r: Result<nat, ExecError>)
    requires Typed(t, k.ctx.schema) && ResumesTable(t, k.table, k.index, k.start, k.change, k.ctx)
    requires ScanOk(k) && WrittenBack(k, after, r)
    ensures r.Ok? ==> ResumesTable(t, after, k.index + 1, r.value, k.change, k.ctx)
    ensures r.Err? ==> ScanTable(t, 0, 0, k.change, k.ctx) == (after, Err(r.error))
  {
    hide ScanPage, Typed;
  }

  lemma TableScanEnds(t: Table, u: Table, count: nat, change: Change, ctx: Context)
    requires Typed(t, ctx.schema) && ResumesTable(t, u, |t|, count, change, ctx)
    ensures ScanTable(t, 0, 0, change, ctx) == (u, Ok(count))
  {
  }

  // The page in memory, as the loops see it.

  ghost predicate Loaded(page: Page, schema: Schema)
    reads page, page.data
  {
    page.Valid() && ViewOk(page.View(), schema)
  }

  ghost function RowsOf(page: Page, schema: Schema): TablePage
    requires Loaded(page, schema)
    reads page, page.data
  {
    PageOf(page.View(), schema)
  }

  /** The rows of the page as it is, or those given when the page no longer holds rows. */
  ghost function Now(page: Page, schema: Schema, otherwise: TablePage): (rows: TablePage)
    reads page, page.data
    ensures Loaded(page, schema) ==> rows == RowsOf(page, schema)
  {
    if Loaded(page, schema) then RowsOf(page, schema) else otherwise
  }

  // DELETE.

  ghost function WhereRemoval(p: ParseResult): Change
    requires Linked(p) && p.statement.Delete?
  {
    Removal(WhereAt(p.expressions, p.statement.where))
  }

  ghost predicate Deletes(k: PageScan, p: ParseResult, ctx: Context) {
    Linked(p) && p.statement.Delete? && k.change == WhereRemoval(p) && k.ctx == ctx && ScanOk(k)
  }

  /** The body of the slot loop of `execDelete`. */
  method DeleteSlot(page: Page, slot: nat, p: ParseResult, ctx: Context, ghost k: PageScan)
    returns (r: Result<nat, ExecError>)
    requires Loaded(page, ctx.schema) && slot < |RowsOf(page, ctx.schema).rows|
    requires Deletes(k, p, ctx) && Typed(k.table[k.index := RowsOf(page, ctx.schema)], ctx.schema)
    modifies page.data
    ensures Loaded(page, ctx.schema)
    ensures Stepped(k, old(RowsOf(page, ctx.schema)), slot, RowsOf(page, ctx.schema), r)
  {
    hide WellFormed, WellTyped, Encoded, Decode, Matches, WhereAt, Typed, ViewOk;
    if page.SlotDeleted(slot) {
      return Ok(0);
    }
    var row := ReadSlotRow(page, slot, ctx.schema);
    var shouldDelete := EvalWhereClause(p, p.statement.where, row, TableEnv(ctx));
    if shouldDelete.Err? {
      return Err(shouldDelete.error);
    }
    if !shouldDelete.value {
      return Ok(0);
    }
    DeletedView(page.View(), slot, ctx.schema);
    var _ := page.DeleteRow(slot);
    return Ok(1);
  }

  /** The slot loop of `execDelete`, on the page in memory. */
  method DeleteFromPage(page: Page, count: nat, p: ParseResult, ctx: Context, ghost k: PageScan)
    returns (r: Result<nat, ExecError>)
    requires Loaded(page, ctx.schema)
    requires Deletes(k, p, ctx) && k.start == count && k.table[k.index] == RowsOf(page, ctx.schema)
    modifies page.data
    ensures Loaded(page, ctx.schema)
    ensures Scanned(k, RowsOf(page, ctx.schema), r)
  {
    var numSlots := page.NumSlots();
    assert numSlots == |k.table[k.index].rows|;
    hide *;
    var deletedCount: nat := count;
    PageScanStarts(k);
    for slot := 0 to numSlots
      invariant Loaded(page, ctx.schema)
      invariant ResumesPage(k, slot, deletedCount, RowsOf(page, ctx.schema))
    {
      ghost var before := RowsOf(page, ctx.schema);
      ResumeFacts(k, slot, deletedCount, before);
      r := DeleteSlot(page, slot, p, ctx, k);
      PageScanSteps(k, slot, deletedCount, before, RowsOf(page, ctx.schema), r);
      if r.Err? {
        return;
      }
      deletedCount := deletedCount + r.value;
    }
    ResumeFacts(k, numSlots, deletedCount, RowsOf(page, ctx.schema));
    PageScanEnds(k, deletedCount, RowsOf(page, ctx.schema));
    return Ok(deletedCount);
  }

  lemma ResumeFacts(k: PageScan, s: nat, count: nat, page: TablePage)
    requires ScanOk(k) && ResumesPage(k, s, count, page)
    ensures |page.rows| == |k.table[k.index].rows| && Typed(k.table[k.index := page], k.ctx.schema)
  {
  }

  /** One page of `execDelete`: read, changed in memory, and written back unless a row failed. */
  method DeletePage(file: TableFile, pageIndex: nat, count: nat, p: ParseResult, ctx: Context, ghost k: PageScan)
    returns (r: Result<nat, ExecError>)
    requires FileOk(file.pages, ctx.schema) && 1 <= pageIndex < |file.pages|
    requires Deletes(k, p, ctx) && k.start == count
    requires k.table == TableOf(file.pages, ctx.schema) && k.index == pageIndex - 1
    modifies file
    ensures FileOk(file.pages, ctx.schema) && |file.pages| == |old(file.pages)|
    ensures WrittenBack(k, TableOf(file.pages, ctx.schema), r)
  {
    assert ScanOk(k);
    hide *;
    var page := file.ReadPage(pageIndex);
    PageRead(file.pages, pageIndex, page.value, ctx.schema);
    r := DeleteFromPage(page.value, count, p, ctx, k);
    PageScanStored(k, RowsOf(page.value, ctx.schema), r);
    if r.Ok? {
      WriteBack(file, page.value, ctx.schema);
    }
  }

  /** DELETE: the rows of the file afterwards, and the count or error, are those of the scan. */
  method ExecDelete(file: TableFile, ctx: Context, p: ParseResult) returns (r: Result<nat, ExecError>)
    requires FileOk(file.pages, ctx.schema) && Linked(p) && p.statement.Delete?
    modifies file
    ensures FileOk(file.pages, ctx.schema)
    ensures Typed(old(TableOf(file.pages, ctx.schema)), ctx.schema)
    ensures (TableOf(file.pages, ctx.schema), r) ==
      ScanTable(old(TableOf(file.pages, ctx.schema)), 0, 0, WhereRemoval(p), ctx)
  {
    ghost var change := WhereRemoval(p);
    hide *;
    ghost var t := TableOf(file.pages, ctx.schema);
    TableScanStarts(file.pages, change, ctx);
    var numPages := file.NumPages();
    var deletedCount := 0;
    var pageIndex := 1;
    while pageIndex < numPages
      invariant 1 <= pageIndex <= numPages == |file.pages| == |t| + 1
      invariant FileOk(file.pages, ctx.schema)
      invariant ResumesTable(t, TableOf(file.pages, ctx.schema), pageIndex - 1, deletedCount, change, ctx)
    {
      ghost var k := PageScan(TableOf(file.pages, ctx.schema), pageIndex - 1, deletedCount, change, ctx);
      DeletesNext(t, k, p, ctx);
      r := DeletePage(file, pageIndex, deletedCount, p, ctx, k);
      TableScanSteps(t, k, TableOf(file.pages, ctx.schema), r);
      if r.Err? {
        return;
      }
      deletedCount := r.value;
      pageIndex := pageIndex + 1;
    }
    TableScanEnds(t, TableOf(file.pages, ctx.schema), deletedCount, change, ctx);
    return Ok(deletedCount);
  }

  lemma DeletesNext(t: Table, k: PageScan, p: ParseResult, ctx: Context)
    requires Linked(p) && p.statement.Delete? && k.ctx == ctx && k.change == WhereRemoval(p) && Typed(t, ctx.schema)
    requires k.index < |k.table| && ResumesTable(t, k.table, k.index, k.start, k.change, ctx)
    ensures Deletes(k, p, ctx)
  {
  }

  lemma PageRead(pages: seq<Image>, p: nat, page: Page, schema: Schema)
    requires FileOk(pages, schema) && 1 <= p < |pages| && page.data[..] == pages[p]
    ensures Loaded(page, schema)
    ensures RowsOf(page, schema) == TableOf(pages, schema)[p - 1]
  {
  }

  /** Writing a page back puts it, as it is in memory, in place of the stored one. */
  method WriteBack(file: TableFile, page: Page, ghost schema: Schema)
    requires FileOk(file.pages, schema) && 1 <= page.pageId < |file.pages|
    requires Loaded(page, schema)
    modifies file
    ensures FileOk(file.pages, schema)
    ensures |file.pages| == |old(file.pages)|
    ensures TableOf(file.pages, schema) ==
      old(TableOf(file.pages, schema))[page.pageId - 1 := RowsOf(page, schema)]
  {
    hide FileOk, ViewOk, WellFormed;
    PageWritten(file.pages, page.pageId, page.data[..], schema) by {
      ImageIsOk(page, schema);
    }
    file.WritePage(page);
  }

  lemma ImageIsOk(page: Page, schema: Schema)
    requires Loaded(page, schema)
    ensures ImageOk(page.data[..], schema)
  {
  }

  // UPDATE.

  /** Every assigned expression is evaluated on the old row. */
  method RowFromUpdate(row: Row, assignments: seq<(Text, nat)>, p: ParseResult, env: Env)
    returns (r: Result<Row, ExecError>)
    requires |row| == |env.columns| && ChildrenFirst(p.expressions) && AssignmentsInside(assignments, p.expressions)
    ensures r == Assigned(row, row, AssignmentsAt(p.expressions, assignments), env)
  {
    hide Eval, IndexOf;
    ghost var trees := AssignmentsAt(p.expressions, assignments);
    var updated := row;
    assert trees[0..] == trees;
    for k := 0 to |assignments|
      invariant |updated| == |row|
      invariant Assigned(row, row, trees, env) == Assigned(row, updated, trees[k..], env)
    {
      assert trees[k..][1..] == trees[k + 1..];
      var column := IndexOf(env.columns, assignments[k].0);
      if column.None? {
        return Err(ErrorGettingData);
      }
      var value := EvalExpr(p.expressions, assignments[k].1, env, row);
      if value.Err? {
        return Err(value.error);
      }
      updated := updated[column.value := value.value];
    }
    return Ok(updated);
  }

  /** Whether the statement assigns the primary key at all. */
  method KeyAssigned(p: ParseResult, ctx: Context) returns (pkAssigned: bool)
    requires Linked(p) && p.statement.Update?
    ensures pkAssigned <==> AssignsKey(ctx, AssignmentsAt(p.expressions, p.statement.assignments))
  {
    var k := PrimaryKeyIndex(ctx.schema);
    ghost var trees := AssignmentsAt(p.expressions, p.statement.assignments);
    if k.None? {
      return false;
    }
    hide PrimaryKey, Linked;
    for i := 0 to |p.statement.assignments|
      invariant forall j :: 0 <= j < i ==> trees[j].0 != ctx.schema[k.value].name
    {
      assert trees[i].0 == p.statement.assignments[i].0;
      if p.statement.assignments[i].0 == ctx.schema[k.value].name {
        return true;
      }
    }
    return false;
  }

  ghost function WhereAssignment(p: ParseResult): Change
    requires Linked(p) && p.statement.Update?
  {
    Assignment(AssignmentsAt(p.expressions, p.statement.assignments), WhereAt(p.expressions, p.statement.where))
  }

  ghost predicate Updates(k: PageScan, p: ParseResult, pkAssigned: bool, ctx: Context) {
    && Linked(p) && p.statement.Update? && k.change == WhereAssignment(p) && k.ctx == ctx && ScanOk(k)
    && pkAssigned == AssignsKey(ctx, k.change.assignments)
  }

  /** What replacing the row in slot `s` must leave of the page `before`. */
  ghost predicate CellUpdated(k: PageScan, before: TablePage, s: nat, page: TablePage, r: Result<nat, ExecError>)
    requires ScanOk(k) && k.change.Assignment? && s < |before.rows| && before.rows[s].Some?
    requires |before.rows[s].value| == |k.ctx.schema|
  {
    match UpdateCell(k.table[k.index := before], k.index, s, k.change.assignments, k.ctx)
    case Err(e) => r == Err(e)
    case Ok(updated) => r == Ok(1) && page == updated
  }

  /** Encodes the row and puts it in its slot. The source goes on after a row was cut; the model ends there. */
  method WriteSlot(page: Page, slot: nat, row: Row, schema: Schema) returns (r: Result<nat, ExecError>)
    requires Loaded(page, schema)
    requires slot < |RowsOf(page, schema).rows| && RowsOf(page, schema).rows[slot].Some?
    modifies page.data
    ensures r.Ok? ==> Loaded(page, schema)
    ensures match Serialized(row, schema)
      case Err(e) => r == Err(EncodingError(e))
      case Ok(bytes) =>
        SlotWritten(old(RowsOf(page, schema)), slot, row, |bytes|, Now(page, schema, old(RowsOf(page, schema))), r)
  {
    hide Serialized, WellFormed, Encoded, WellTyped, Decode, Padded, TextsFit, PageViews.Update, Replace, RowSize, Stored;
    var rowBytes := SerializeRow(row, schema);
    if rowBytes.Err? {
      return Err(EncodingError(rowBytes.error));
    }
    EncodedLength(row, schema);
    var rowSizeBytes := Cast16(rowBytes.value.Length);
    UpdatedView(page.View(), slot, row, schema);
    assert rowBytes.value[..rowSizeBytes] == Stored(row);
    var ok := page.UpdateRow(slot, rowBytes.value, rowSizeBytes);
    if ok.Err? {
      return Err(InternalError);
    }
    if rowSizeBytes != rowBytes.value.Length {
      return Err(RowCut);
    }
    return Ok(1);
  }

  ghost predicate SlotWritten(before: TablePage, s: nat, row: Row, size: nat, page: TablePage,
                              r: Result<nat, ExecError>)
    requires s < |before.rows| && before.rows[s].Some?
  {
    match Replace(before, s, row, size)
    case Err(e) => r == Err(e)
    case Ok(replaced) => r == Ok(1) && page == replaced
  }

  /** The row an UPDATE is to store, unless an expression fails or its key is taken by another row. */
  ghost function CheckedUpdate(t: Table, index: nat, s: nat, row: Row, assignments: seq<(Text, Tree)>,
                               ctx: Context): Result<Row, ExecError>
    requires |row| == |ctx.schema|
  {
    var updated :- Assigned(row, row, assignments, TableEnv(ctx));
    if AssignsKey(ctx, assignments)
       && KeyTaken(t, PrimaryKey(ctx.schema).value, updated[PrimaryKey(ctx.schema).value], Some((index, s)))
    then Err(PrimaryKeyViolation)
    else Ok(updated)
  }

  method RowToStore(file: TableFile, page: Page, pageIndex: nat, slot: nat, row: Row, p: ParseResult, pkAssigned: bool,
                    ctx: Context, ghost k: PageScan) returns (r: Result<Row, ExecError>)
    requires FileOk(file.pages, ctx.schema) && 1 <= pageIndex < |file.pages| && Loaded(page, ctx.schema)
    requires Updates(k, p, pkAssigned, ctx) && |row| == |ctx.schema|
    requires k.table == TableOf(file.pages, ctx.schema) && k.index == pageIndex - 1
    ensures r == CheckedUpdate(k.table[k.index := RowsOf(page, ctx.schema)], k.index, slot, row, k.change.assignments, ctx)
  {
    hide FileOk, Assigned, KeyTaken, WellFormed, ViewOk, Typed;
    r := RowFromUpdate(row, p.statement.assignments, p, TableEnv(ctx));
    if r.Ok? && pkAssigned {
      var key := PrimaryKeyIndex(ctx.schema);
      var taken := PrimaryKeyExists(file, ctx.schema, key.value, r.value[key.value], page, pageIndex, slot);
      if taken {
        return Err(PrimaryKeyViolation);
      }
    }
  }

  lemma CellUpdatedFrom(k: PageScan, before: TablePage, s: nat, page: TablePage, r: Result<nat, ExecError>)
    requires ScanOk(k) && k.change.Assignment? && s < |before.rows| && before.rows[s].Some?
    requires |before.rows[s].value| == |k.ctx.schema|
    requires
      var checked :=
        CheckedUpdate(k.table[k.index := before], k.index, s, before.rows[s].value, k.change.assignments, k.ctx);
      match checked
      case Err(e) => r == Err(e)
      case Ok(row) => match Serialized(row, k.ctx.schema)
        case Err(e) => r == Err(EncodingError(e))
        case Ok(bytes) => SlotWritten(before, s, row, |bytes|, page, r)
    ensures CellUpdated(k, before, s, page, r)
  {
  }

  /** The body of the slot loop of `execUpdate`. */
  method UpdateSlot(file: TableFile, page: Page, pageIndex: nat, slot: nat, p: ParseResult, pkAssigned: bool,
                    ctx: Context, ghost k: PageScan) returns (r: Result<nat, ExecError>)
    requires FileOk(file.pages, ctx.schema) && 1 <= pageIndex < |file.pages|
    requires Loaded(page, ctx.schema) && slot < |RowsOf(page, ctx.schema).rows|
    requires Updates(k, p, pkAssigned, ctx) && Typed(k.table[k.index := RowsOf(page, ctx.schema)], ctx.schema)
    requires k.table == TableOf(file.pages, ctx.schema) && k.index == pageIndex - 1
    modifies page.data
    ensures r.Ok? ==> Loaded(page, ctx.schema)
    ensures var before := old(RowsOf(page, ctx.schema)); Stepped(k, before, slot, Now(page, ctx.schema, before), r)
  {
    hide WellFormed, WellTyped, Encoded, Decode, Matches, WhereAt, Typed;
    hide ViewOk, FileOk, CheckedUpdate, UpdateCell, CellUpdated, SlotWritten;
    ghost var before := RowsOf(page, ctx.schema);
    if page.SlotDeleted(slot) {
      return Ok(0);
    }
    var row := ReadSlotRow(page, slot, ctx.schema);
    var shouldUpdate := EvalWhereClause(p, p.statement.where, row, TableEnv(ctx));
    if shouldUpdate.Err? {
      return Err(shouldUpdate.error);
    }
    if !shouldUpdate.value {
      return Ok(0);
    }
    var updated := RowToStore(file, page, pageIndex, slot, row, p, pkAssigned, ctx, k);
    if updated.Err? {
      r := Err(updated.error);
    } else {
      r := WriteSlot(page, slot, updated.value, ctx.schema);
    }
    CellUpdatedFrom(k, before, slot, Now(page, ctx.schema, before), r);
    CellGivesStep(k, before, slot, Now(page, ctx.schema, before), r);
  }

  lemma CellGivesStep(k: PageScan, before: TablePage, s: nat, page: TablePage, r: Result<nat, ExecError>)
    requires ScanOk(k) && k.change.Assignment? && s < |before.rows| && before.rows[s].Some?
    requires WellTyped(before.rows[s].value, k.ctx.schema) && Typed(k.table[k.index := before], k.ctx.schema)
    requires Matches(k.change.where, TableEnv(k.ctx), before.rows[s].value) == Ok(true)
    requires CellUpdated(k, before, s, page, r)
    ensures Stepped(k, before, s, page, r)
  {
    hide UpdateCell, Typed;
  }

  /** The slot loop of `execUpdate`, on the page in memory. */
  method UpdateOnPage(file: TableFile, page: Page, pageIndex: nat, count: nat, p: ParseResult, pkAssigned: bool,
                      ctx: Context, ghost k: PageScan) returns (r: Result<nat, ExecError>)
    requires FileOk(file.pages, ctx.schema) && 1 <= pageIndex < |file.pages| && Loaded(page, ctx.schema)
    requires Updates(k, p, pkAssigned, ctx) && k.start == count && k.table[k.index] == RowsOf(page, ctx.schema)
    requires k.table == TableOf(file.pages, ctx.schema) && k.index == pageIndex - 1
    modifies page.data
    ensures r.Ok? ==> Loaded(page, ctx.schema)
    ensures Scanned(k, Now(page, ctx.schema, k.table[k.index]), r)
  {
    var numSlots := page.NumSlots();
    assert numSlots == |k.table[k.index].rows|;
    hide *;
    var updatedCount: nat := count;
    PageScanStarts(k);
    for slot := 0 to numSlots
      invariant Loaded(page, ctx.schema)
      invariant ResumesPage(k, slot, updatedCount, RowsOf(page, ctx.schema))
    {
      ghost var before := RowsOf(page, ctx.schema);
      ResumeFacts(k, slot, updatedCount, before);
      r := UpdateSlot(file, page, pageIndex, slot, p, pkAssigned, ctx, k);
      PageScanSteps(k, slot, updatedCount, before, Now(page, ctx.schema, before), r);
      if r.Err? {
        FailedScan(k, Now(page, ctx.schema, before), Now(page, ctx.schema, k.table[k.index]), r);
        return;
      }
      updatedCount := updatedCount + r.value;
    }
    ResumeFacts(k, numSlots, updatedCount, RowsOf(page, ctx.schema));
    PageScanEnds(k, updatedCount, RowsOf(page, ctx.schema));
    return Ok(updatedCount);
  }

  /** What is in memory after a failure does not matter, since it is not written. */
  lemma FailedScan(k: PageScan, page: TablePage, other: TablePage, r: Result<nat, ExecError>)
    requires ScanOk(k) && Scanned(k, page, r) && r.Err?
    ensures Scanned(k, other, r)
  {
    hide ScanPage, Typed;
  }

  /** One page of `execUpdate`: read, changed in memory, and written back unless a row failed. */
  method UpdatePage(file: TableFile, pageIndex: nat, count: nat, p: ParseResult, pkAssigned: bool,
                    ctx: Context, ghost k: PageScan) returns (r: Result<nat, ExecError>)
    requires FileOk(file.pages, ctx.schema) && 1 <= pageIndex < |file.pages|
    requires Updates(k, p, pkAssigned, ctx) && k.start == count
    requires k.table == TableOf(file.pages, ctx.schema) && k.index == pageIndex - 1
    modifies file
    ensures FileOk(file.pages, ctx.schema) && |file.pages| == |old(file.pages)|
    ensures WrittenBack(k, TableOf(file.pages, ctx.schema), r)
  {
    assert ScanOk(k);
    hide *;
    var page := file.ReadPage(pageIndex);
    PageRead(file.pages, pageIndex, page.value, ctx.schema);
    r := UpdateOnPage(file, page.value, pageIndex, count, p, pkAssigned, ctx, k);
    PageScanStored(k, Now(page.value, ctx.schema, k.table[k.index]), r);
    if r.Ok? {
      WriteBack(file, page.value, ctx.schema);
    }
  }

  lemma UpdatesNext(t: Table, k: PageScan, p: ParseResult, pkAssigned: bool, ctx: Context)
    requires Linked(p) && p.statement.Update? && k.ctx == ctx && k.change == WhereAssignment(p) && Typed(t, ctx.schema)
    requires k.index < |k.table| && ResumesTable(t, k.table, k.index, k.start, k.change, ctx)
    requires pkAssigned == AssignsKey(ctx, AssignmentsAt(p.expressions, p.statement.assignments))
    ensures Updates(k, p, pkAssigned, ctx)
  {
  }

  /**
   UPDATE: the rows of the file afterwards, and the count or error, are those of the scan. With `RowCut`
   they are those at the moment a row was cut, where the model ends and the source goes on.
   */
  method ExecUpdate(file: TableFile, ctx: Context, p: ParseResult) returns (r: Result<nat, ExecError>)
    requires FileOk(file.pages, ctx.schema) && Linked(p) && p.statement.Update?
    modifies file
    ensures FileOk(file.pages, ctx.schema)
    ensures Typed(old(TableOf(file.pages, ctx.schema)), ctx.schema)
    ensures (TableOf(file.pages, ctx.schema), r) ==
      ScanTable(old(TableOf(file.pages, ctx.schema)), 0, 0, WhereAssignment(p), ctx)
  {
    ghost var change := WhereAssignment(p);
    hide *;
    ghost var t := TableOf(file.pages, ctx.schema);
    TableScanStarts(file.pages, change, ctx);
    var numPages := file.NumPages();
    var updatedCount := 0;
    var pkAssigned := KeyAssigned(p, ctx);
    var pageIndex := 1;
    while pageIndex < numPages
      invariant 1 <= pageIndex <= numPages == |file.pages| == |t| + 1
      invariant FileOk(file.pages, ctx.schema)
      invariant ResumesTable(t, TableOf(file.pages, ctx.schema), pageIndex - 1, updatedCount, change, ctx)
    {
      ghost var k := PageScan(TableOf(file.pages, ctx.schema), pageIndex - 1, updatedCount, change, ctx);
      UpdatesNext(t, k, p, pkAssigned, ctx);
      r := UpdatePage(file, pageIndex, updatedCount, p, pkAssigned, ctx, k);
      TableScanSteps(t, k, TableOf(file.pages, ctx.schema), r);
      if r.Err? {
        return;
      }
      updatedCount := r.value;
      pageIndex := pageIndex + 1;
    }
    TableScanEnds(t, TableOf(file.pages, ctx.schema), updatedCount, change, ctx);
    return Ok(updatedCount);
  }
}
