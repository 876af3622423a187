/**
 The executor: page and slot loops over a table file. Every statement is proved to do to the rows of
 the file exactly what the statement means on the relation, with the same result.
 */
module Executor {
  import opened Bytes
  import opened PageImage
  import opened PageViews
  import opened Pages
  import opened TableFiles
  import opened Values
  import opened Expressions
  import opened Evaluator
  import opened RowCodec
  import opened Statements
  import opened Relation
  import opened RelationProofs
  import opened Storage
  import opened Wrappers

  // Reading.

  /** A live slot of a valid page can always be read, so the error branches of the source are dead. */
  method ReadSlotRow(page: Page, slot: nat, schema: Schema) returns (row: Row)
    requires page.Valid() && ViewOk(page.View(), schema)
    requires slot < |page.View().slots| && page.View().slots[slot].Live?
    ensures PageOf(page.View(), schema).rows[slot] == Some(row)
    ensures WellTyped(row, schema)
  {
    var r, rowLen := page.ReadRow(slot);
    ghost var bytes := page.View().slots[slot].bytes;
    assert SlotOk(page.View().slots[slot], schema);
    assert bytes <= page.data[r.value..] by {
      assert page.data[r.value..][..rowLen] == page.data[r.value..r.value + rowLen];
    }
    ReadBack(bytes, page.data[r.value..], schema);
    row := DeserializeRow(page.data, r.value, schema);
  }

  /** Some row of the page, other than the one at `skip`, has a key equal to `v`. */
  ghost predicate KeyOnPage(page: TablePage, k: nat, v: Value, skip: int) {
    exists s :: 0 <= s < |page.rows| && s != skip && HasKey(page.rows[s], k, v)
  }

  ghost predicate NoKeyBefore(page: TablePage, k: nat, v: Value, skip: int, end: nat) {
    forall s :: 0 <= s < end && s < |page.rows| && s != skip ==> !HasKey(page.rows[s], k, v)
  }

  lemma NoKeyStep(page: TablePage, k: nat, v: Value, skip: int, s: nat)
    requires NoKeyBefore(page, k, v, skip, s) && s < |page.rows|
    requires s == skip || !HasKey(page.rows[s], k, v)
    ensures NoKeyBefore(page, k, v, skip, s + 1)
  {
  }

  lemma KeyScanEnds(page: TablePage, k: nat, v: Value, skip: int, s: nat)
    requires NoKeyBefore(page, k, v, skip, s)
    ensures s >= |page.rows| ==> !KeyOnPage(page, k, v, skip)
    ensures s < |page.rows| && s != skip && HasKey(page.rows[s], k, v) ==> KeyOnPage(page, k, v, skip)
  {
  }

  lemma NoKeyYet(page: TablePage, k: nat, v: Value, skip: int)
    ensures NoKeyBefore(page, k, v, skip, 0)
  {
  }

  /** The inner loop of `primaryKeyExists`. */
  method PageHasKey(page: Page, schema: Schema, k: nat, value: Value, skipSlot: int) returns (found: bool)
    requires page.Valid() && ViewOk(page.View(), schema) && k < |schema|
    ensures found <==> KeyOnPage(PageOf(page.View(), schema), k, value, skipSlot)
  {
    hide NoKeyBefore, KeyOnPage, WellFormed, Encoded, ValueEq, Decode;
    ghost var rows := PageOf(page.View(), schema);
    var numSlots := page.NumSlots();
    NoKeyYet(rows, k, value, skipSlot);
    for slot := 0 to numSlots
      invariant NoKeyBefore(rows, k, value, skipSlot, slot)
    {
      if page.SlotDeleted(slot) || slot == skipSlot {
        NoKeyStep(rows, k, value, skipSlot, slot);
        continue;
      }
      var row := ReadSlotRow(page, slot, schema);
      if ValueEq(row[k], value) {
        KeyScanEnds(rows, k, value, skipSlot, slot);
        return true;
      }
      NoKeyStep(rows, k, value, skipSlot, slot);
    }
    KeyScanEnds(rows, k, value, skipSlot, numSlots);
    return false;
  }

  /** The table with the page a statement is working on as it is in memory, not as it is stored. */
  ghost function InMemory(pages: seq<Image>, schema: Schema, page: Page?, index: nat): Table
    requires FileOk(pages, schema)
    requires page != null ==> page.Valid() && ViewOk(page.View(), schema) && 1 <= index < |pages|
    reads if page == null then {} else {page, page.data}
  {
    if page == null then TableOf(pages, schema)
    else TableOf(pages, schema)[index - 1 := PageOf(page.View(), schema)]
  }

  /** A cell to leave out: one slot of the page in memory, or none. */
  function Skipped(page: Page?, index: nat, skipSlot: int): Option<(nat, nat)>
    requires page != null ==> 1 <= index
  {
    if page != null && skipSlot >= 0 then Some((index - 1, skipSlot)) else None
  }

  function SkipOn(skip: Option<(nat, nat)>, p: nat): int {
    if skip.Some? && skip.value.0 == p then skip.value.1 else -1
  }

  ghost predicate NoKeyOnPages(t: Table, k: nat, v: Value, skip: Option<(nat, nat)>, end: nat) {
    forall p: nat :: p < end && p < |t| ==> !KeyOnPage(t[p], k, v, SkipOn(skip, p))
  }

  lemma KeyScanOfPage(t: Table, k: nat, v: Value, skip: Option<(nat, nat)>, p: nat)
    requires NoKeyOnPages(t, k, v, skip, p) && p < |t|
    ensures KeyOnPage(t[p], k, v, SkipOn(skip, p)) ==> KeyTaken(t, k, v, skip)
    ensures !KeyOnPage(t[p], k, v, SkipOn(skip, p)) ==> NoKeyOnPages(t, k, v, skip, p + 1)
  {
    if KeyOnPage(t[p], k, v, SkipOn(skip, p)) {
      var s :| 0 <= s < |t[p].rows| && s != SkipOn(skip, p) && HasKey(t[p].rows[s], k, v);
      assert IsLive(t, p, s);
    }
  }

  lemma KeyOnNoPage(t: Table, k: nat, v: Value, skip: Option<(nat, nat)>)
    requires NoKeyOnPages(t, k, v, skip, |t|)
    ensures !KeyTaken(t, k, v, skip)
  {
    forall p, s | IsLive(t, p, s) && skip != Some((p, s))
      ensures !HasKey(t[p].rows[s], k, v)
    {
      assert !KeyOnPage(t[p], k, v, SkipOn(skip, p));
    }
  }

  lemma NoKeyOnPagesYet(t: Table, k: nat, v: Value, skip: Option<(nat, nat)>)
    ensures NoKeyOnPages(t, k, v, skip, 0)
  {
  }

  lemma PageInMemory(pages: seq<Image>, schema: Schema, page: Page?, index: nat, pageIndex: nat, skipSlot: int)
    requires FileOk(pages, schema) && 1 <= pageIndex < |pages|
    requires page != null ==> page.Valid() && ViewOk(page.View(), schema) && 1 <= index < |pages|
    ensures |InMemory(pages, schema, page, index)| == |pages| - 1
    ensures SkipOn(Skipped(page, index, skipSlot), pageIndex - 1) ==
      if page != null && pageIndex == index && skipSlot >= 0 then skipSlot else -1
    ensures InMemory(pages, schema, page, index)[pageIndex - 1] ==
      if page != null && pageIndex == index then PageOf(page.View(), schema) else TableOf(pages, schema)[pageIndex - 1]
  {
  }

  /** Whether a row already holds a value in the primary key column. */
  method PrimaryKeyExists(file: TableFile, schema: Schema, k: nat, value: Value,
                          currentPage: Page?, currentPageIndex: nat, skipSlot: int) returns (exists_: bool)
    requires FileOk(file.pages, schema) && k < |schema|
    requires currentPage != null ==>
      currentPage.Valid() && ViewOk(currentPage.View(), schema) && 1 <= currentPageIndex < |file.pages|
    ensures exists_ <==> KeyTaken(InMemory(file.pages, schema, currentPage, currentPageIndex), k, value,
                                  Skipped(currentPage, currentPageIndex, skipSlot))
  {
    hide KeyTaken, KeyOnPage, NoKeyOnPages, Encoded, WellFormed, Decode;
    hide ValueEq, InMemory, Skipped, SkipOn, FileOk, ViewOk;
    ghost var t := InMemory(file.pages, schema, currentPage, currentPageIndex);
    ghost var skip := Skipped(currentPage, currentPageIndex, skipSlot);
    var numPages := file.NumPages();
    assert numPages >= 1 by { InMemorySize(file.pages, schema, currentPage, currentPageIndex); }
    NoKeyOnPagesYet(t, k, value, skip);
    for pageIndex := 1 to numPages
      invariant NoKeyOnPages(t, k, value, skip, pageIndex - 1)
    {
      var found;
      PageInMemory(file.pages, schema, currentPage, currentPageIndex, pageIndex, skipSlot);
      if currentPage != null && pageIndex == currentPageIndex {
        found := PageHasKey(currentPage, schema, k, value, if skipSlot >= 0 then skipSlot else -1);
      } else {
        found := StoredPageHasKey(file, pageIndex, schema, k, value);
      }
      KeyScanOfPage(t, k, value, skip, pageIndex - 1);
      if found {
        return true;
      }
    }
    assert |t| == numPages - 1 by { InMemorySize(file.pages, schema, currentPage, currentPageIndex); }
    KeyOnNoPage(t, k, value, skip);
    return false;
  }

  lemma InMemorySize(pages: seq<Image>, schema: Schema, page: Page?, index: nat)
    requires FileOk(pages, schema)
    requires page != null ==> page.Valid() && ViewOk(page.View(), schema) && 1 <= index < |pages|
    ensures |InMemory(pages, schema, page, index)| == |pages| - 1
  {
  }

  method StoredPageHasKey(file: TableFile, pageIndex: nat, schema: Schema, k: nat, value: Value) returns (found: bool)
    requires FileOk(file.pages, schema) && k < |schema| && 1 <= pageIndex < |file.pages|
    ensures found <==> KeyOnPage(TableOf(file.pages, schema)[pageIndex - 1], k, value, -1)
  {
    hide KeyOnPage, Encoded, WellFormed, Decode;
    var read := file.ReadPage(pageIndex);
    found := PageHasKey(read.value, schema, k, value, -1);
  }

  method EvalWhereClause(p: ParseResult, where: int, row: Row, env: Env) returns (r: Result<bool, ExecError>)
    requires ChildrenFirst(p.expressions) && WhereInside(where, p.expressions)
    ensures r == Matches(WhereAt(p.expressions, where), env, row)
  {
    if where == -1 {
      return Ok(true);
    }
    return EvalWhere(p.expressions, where, env, row);
  }

  // SELECT.

  function Prepend(first: seq<Row>, rest: Result<seq<Row>, ExecError>): Result<seq<Row>, ExecError> {
    if rest.Err? then rest else Ok(first + rest.value)
  }

  lemma PrependNothing(r: Result<seq<Row>, ExecError>)
    ensures Prepend([], r) == r
  {
    assert r.Ok? ==> [] + r.value == r.value;
  }

  method SelectFromPage(page: Page, schema: Schema, p: ParseResult, where: int, env: Env)
    returns (r: Result<seq<Row>, ExecError>)
    requires page.Valid() && ViewOk(page.View(), schema)
    requires ChildrenFirst(p.expressions) && WhereInside(where, p.expressions)
    ensures r == SelectRows(PageRows(PageOf(page.View(), schema).rows), WhereAt(p.expressions, where), env)
  {
    hide WellTyped, Encoded, WellFormed, Decode, Matches, Holds, WhereAt;
    ghost var rows := PageOf(page.View(), schema).rows;
    ghost var w := WhereAt(p.expressions, where);
    var found := [];
    assert rows[0..] == rows;
    PrependNothing(SelectRows(PageRows(rows), w, env));
    for slot := 0 to page.NumSlots()
      invariant SelectRows(PageRows(rows), w, env) == Prepend(found, SelectRows(PageRows(rows[slot..]), w, env))
    {
      RowsFrom(rows, slot);
      if page.SlotDeleted(slot) {
        continue;
      }
      var row := ReadSlotRow(page, slot, schema);
      SelectCons(found, row, PageRows(rows[slot + 1..]), w, env);
      var match_ := EvalWhereClause(p, where, row, env);
      if match_.Err? {
        return Err(match_.error);
      }
      if match_.value {
        found := found + [row];
      }
    }
    assert found + [] == found;
    return Ok(found);
  }

  lemma RowsFrom(rows: seq<Option<Row>>, s: nat)
    requires s < |rows|
    ensures PageRows(rows[s..]) ==
      if rows[s].Some? then [rows[s].value] + PageRows(rows[s + 1..]) else PageRows(rows[s + 1..])
  {
    assert rows[s..][1..] == rows[s + 1..];
  }

  lemma SelectCons(found: seq<Row>, row: Row, rest: seq<Row>, where: Option<Tree>, env: Env)
    ensures Prepend(found, SelectRows([row] + rest, where, env)) ==
      if Matches(where, env, row).Err? then Err(Matches(where, env, row).error)
      else Prepend(if Matches(where, env, row).value then found + [row] else found, SelectRows(rest, where, env))
  {
    hide Matches;
    assert ([row] + rest)[1..] == rest;
    var tail := SelectRows(rest, where, env);
    if tail.Ok? {
      assert found + ([row] + tail.value) == found + [row] + tail.value;
    }
  }

  method ExecSelect(file: TableFile, ctx: Context, p: ParseResult) returns (r: Result<(seq<Text>, seq<Row>), ExecError>)
    requires FileOk(file.pages, ctx.schema) && Linked(p) && p.statement.Select?
    ensures var names := ResultColumns(TreesAt(p.expressions, p.statement.columns), ctx.schema);
      var rows := SelectRows(LiveRows(TableOf(file.pages, ctx.schema)), WhereAt(p.expressions, p.statement.where),
                             Env(names, ctx.floats));
      r == if rows.Err? then Err(rows.error) else Ok((names, rows.value))
  {
    var columns := SelectedNames(p, ctx.schema);
    var env := Env(columns, ctx.floats);
    ghost var t := TableOf(file.pages, ctx.schema);
    ghost var w := WhereAt(p.expressions, p.statement.where);
    hide WellTyped, Encoded, WellFormed, Decode, Matches, Holds, WhereAt, SelectRows, LiveRows, PageRows, ResultColumns;
    var found := [];
    var numPages := file.NumPages();
    SelectFromAll(t, w, env);
    for pageIndex := 1 to numPages
      invariant SelectRows(LiveRows(t), w, env) == Prepend(found, SelectRows(LiveRows(t[pageIndex - 1..]), w, env))
    {
      var read := file.ReadPage(pageIndex);
      var onPage := SelectFromPage(read.value, ctx.schema, p, p.statement.where, env);
      SelectPage(t, pageIndex - 1, found, w, env);
      if onPage.Err? {
        return Err(onPage.error);
      }
      found := found + onPage.value;
    }
    SelectNothingLeft(t, found, w, env);
    return Ok((columns, found));
  }

  method SelectedNames(p: ParseResult, schema: Schema) returns (names: seq<Text>)
    requires Linked(p) && p.statement.Select?
    ensures names == ResultColumns(TreesAt(p.expressions, p.statement.columns), schema)
  {
    var columns := p.statement.columns;
    if columns == [] {
      return ColumnNames(schema);
    }
    names := [];
    for k := 0 to |columns|
      invariant |names| == k
      invariant forall i :: 0 <= i < k ==> names[i] == ColumnNameOf(TreeAt(p.expressions, columns[i]))
    {
      var e := p.expressions[columns[k]];
      names := names + [if e.Leaf? && e.atom.ColumnRef? then e.atom.name else ""];
    }
  }

  lemma SelectFromAll(t: Table, w: Option<Tree>, env: Env)
    ensures SelectRows(LiveRows(t), w, env) == Prepend([], SelectRows(LiveRows(t[0..]), w, env))
  {
    assert t[0..] == t;
    PrependNothing(SelectRows(LiveRows(t), w, env));
  }

  lemma SelectNothingLeft(t: Table, found: seq<Row>, w: Option<Tree>, env: Env)
    ensures Prepend(found, SelectRows(LiveRows(t[|t|..]), w, env)) == Ok(found)
  {
    assert found + [] == found;
  }

  lemma SelectPage(t: Table, p: nat, found: seq<Row>, w: Option<Tree>, env: Env)
    requires p < |t|
    ensures var onPage := SelectRows(PageRows(t[p].rows), w, env);
      Prepend(found, SelectRows(LiveRows(t[p..]), w, env)) ==
        if onPage.Err? then Err(onPage.error)
        else Prepend(found + onPage.value, SelectRows(LiveRows(t[p + 1..]), w, env))
  {
    hide SelectRows;
    assert t[p..][0] == t[p] && t[p..][1..] == t[p + 1..];
    SelectAppend(PageRows(t[p].rows), LiveRows(t[p + 1..]), w, env);
    var onPage, rest := SelectRows(PageRows(t[p].rows), w, env), SelectRows(LiveRows(t[p + 1..]), w, env);
    if onPage.Ok? && rest.Ok? {
      assert found + (onPage.value + rest.value) == found + onPage.value + rest.value;
    }
  }

  // INSERT.

  method RowFromInsertValues(p: ParseResult, schema: Schema, floats: FloatArith) returns (r: Result<Row, ExecError>)
    requires Linked(p) && p.statement.Insert? && |p.statement.names| <= |p.statement.values|
    ensures r == var env, trees := Env(NO_COLUMNS, floats), TreesAt(p.expressions, p.statement.values);
      if p.statement.names == [] then EvalAll(trees, env) else NamedRow(schema, p.statement.names, trees, env)
  {
    var env := Env(NO_COLUMNS, floats);
    var names, values := p.statement.names, p.statement.values;
    ghost var trees := TreesAt(p.expressions, values);
    hide Eval;
    var row := [];
    if names == [] {
      assert trees[0..] == trees;
      PrependNone(EvalAll(trees, env));
      for i := 0 to |values|
        invariant EvalAll(trees, env) == PrependValues(row, EvalAll(trees[i..], env))
      {
        EvalAllFrom(trees, i, row, env);
        var value := EvalExpr(p.expressions, values[i], env, []);
        if value.Err? {
          return Err(value.error);
        }
        row := row + [value.value];
      }
      assert row + [] == row;
      return Ok(row);
    }
    assert schema[0..] == schema;
    PrependNone(NamedRow(schema, names, trees, env));
    for i := 0 to |schema|
      invariant NamedRow(schema, names, trees, env) == PrependValues(row, NamedRow(schema[i..], names, trees, env))
    {
      NamedRowFrom(schema, i, row, names, trees, env);
      var position := IndexOf(names, schema[i].name);
      if position.Some? {
        var value := EvalExpr(p.expressions, values[position.value], env, []);
        if value.Err? {
          return Err(value.error);
        }
        row := row + [value.value];
      } else {
        if schema[i].notNull {
          return Err(NotNullViolation);
        }
        row := row + [Null];
      }
    }
    assert row + [] == row;
    return Ok(row);
  }

  function PrependValues(first: Row, rest: Result<Row, ExecError>): Result<Row, ExecError> {
    if rest.Err? then rest else Ok(first + rest.value)
  }

  lemma PrependNone(r: Result<Row, ExecError>)
    ensures PrependValues([], r) == r
  {
    assert r.Ok? ==> [] + r.value == r.value;
  }

  lemma PrependOne(first: Row, v: Value, rest: Result<Row, ExecError>)
    ensures PrependValues(first, PrependValues([v], rest)) == PrependValues(first + [v], rest)
  {
    assert rest.Ok? ==> first + ([v] + rest.value) == first + [v] + rest.value;
  }

  lemma EvalAllFrom(trees: seq<Tree>, i: nat, row: Row, env: Env)
    requires i < |trees|
    ensures var v := Eval(trees[i], env, []);
      PrependValues(row, EvalAll(trees[i..], env)) ==
        if v.Err? then Err(v.error) else PrependValues(row + [v.value], EvalAll(trees[i + 1..], env))
  {
    hide Eval;
    assert trees[i..][1..] == trees[i + 1..];
    var v := Eval(trees[i], env, []);
    if v.Ok? {
      PrependOne(row, v.value, EvalAll(trees[i + 1..], env));
    }
  }

  lemma NamedRowFrom(schema: Schema, i: nat, row: Row, names: seq<Text>, trees: seq<Tree>, env: Env)
    requires i < |schema| && |names| <= |trees|
    ensures var v := NamedValue(schema[i], names, trees, env);
      PrependValues(row, NamedRow(schema[i..], names, trees, env)) ==
        if v.Err? then Err(v.error) else PrependValues(row + [v.value], NamedRow(schema[i + 1..], names, trees, env))
  {
    hide NamedValue;
    assert schema[i..][1..] == schema[i + 1..];
    var v := NamedValue(schema[i], names, trees, env);
    if v.Ok? {
      PrependOne(row, v.value, NamedRow(schema[i + 1..], names, trees, env));
    }
  }

  method PrimaryKeyIndex(schema: Schema) returns (k: Option<nat>)
    ensures k == PrimaryKey(schema)
  {
    hide PrimaryKey;
    for i := 0 to |schema|
      invariant forall j :: 0 <= j < i ==> !schema[j].primaryKey
    {
      if schema[i].primaryKey {
        FirstKey(schema, i);
        return Some(i);
      }
    }
    return None;
  }

  lemma {:induction false} FirstKey(schema: Schema, i: nat)
    requires i < |schema| && schema[i].primaryKey
    requires forall j :: 0 <= j < i ==> !schema[j].primaryKey
    ensures PrimaryKey(schema) == Some(i)
  {
    if i > 0 {
      FirstKey(schema[1..], i - 1);
    }
  }

  // Storing bytes: what an INSERT does to the slots of the file, whether or not they come to hold a row.

  /** The bytes are one more slot at the end of page `p`, or the page refuses them and nothing changes. */
  ghost predicate BytesPut(before: seq<Image>, after: seq<Image>, p: nat, bytes: seq<byte>, r: Result<(), ExecError>) {
    && p < |before| == |after| && WellFormed(before[p])
    && match PageViews.Insert(ViewOf(before[p]), bytes)
       case Err(_) => r == Err(InternalError) && after == before
       case Ok(v) => r == Ok(()) && after == before[p := after[p]] && WellFormed(after[p]) && ViewOf(after[p]) == v
  }

  /** Puts an encoded row on a page in memory and writes the page back; nothing is written when it does not fit. */
  method InsertRowIntoPage(file: TableFile, page: Page, rowBytes: array<byte>, rowSizeBytes: nat)
    returns (r: Result<(), ExecError>)
    requires page.Valid() && page.pageId < |file.pages| && page.data[..] == file.pages[page.pageId]
    requires rowBytes != page.data && rowSizeBytes <= rowBytes.Length
    modifies file, page.data
    ensures BytesPut(old(file.pages), file.pages, page.pageId, old(rowBytes[..rowSizeBytes]), r)
    ensures r.Err? ==> r.error == InternalError
  {
    hide WellFormed, ViewOf, PageViews.Insert;
    var ok := page.InsertRow(rowBytes, rowSizeBytes);
    if ok.Err? {
      return Err(InternalError);
    }
    file.WritePage(page);
    return Ok(());
  }

  /** All pages are well formed. */
  ghost predicate Sound(pages: seq<Image>) {
    forall p :: 0 <= p < |pages| ==> WellFormed(pages[p])
  }

  /**
   The bytes went to the lowest-numbered data page with room for them and a slot, or to one new page
   when none had any.
   */
  ghost predicate BytesStored(before: seq<Image>, after: seq<Image>, p: nat, bytes: seq<byte>, r: Result<(), ExecError>)
    requires Sound(before)
  {
    && 1 <= p <= |before|
    && (forall q :: 1 <= q < p ==> ViewOf(before[q]).free < |bytes| + SLOT_COST)
    && if p < |before| then ViewOf(before[p]).free >= |bytes| + SLOT_COST && BytesPut(before, after, p, bytes, r)
       else exists empty: Image :: EmptyPut(before, empty, after, bytes, r)
  }

  /** The bytes were put on a page that was added empty. */
  ghost predicate EmptyPut(before: seq<Image>, empty: Image, after: seq<Image>, bytes: seq<byte>,
                           r: Result<(), ExecError>) {
    WellFormed(empty) && ViewOf(empty) == EmptyView && BytesPut(before + [empty], after, |before|, bytes, r)
  }

  /** The first-fit loop of `execInsert`, and the fresh page when no page has room. */
  method StoreRow(file: TableFile, rowBytes: array<byte>, rowSizeBytes: nat)
    returns (r: Result<(), ExecError>, ghost p: nat)
    requires |file.pages| > 0 && Sound(file.pages) && rowSizeBytes <= rowBytes.Length
    modifies file
    ensures BytesStored(old(file.pages), file.pages, p, old(rowBytes[..rowSizeBytes]), r)
    ensures r.Err? ==> r.error == InternalError
  {
    hide WellFormed, BytesPut, ViewOf;
    ghost var pages, bytes := file.pages, rowBytes[..rowSizeBytes];
    var numPages := file.NumPages();
    var pageIndex := 1;
    while pageIndex < numPages
      invariant 1 <= pageIndex <= numPages == |pages| && file.pages == pages && rowBytes[..rowSizeBytes] == bytes
      invariant forall q :: 1 <= q < pageIndex ==> ViewOf(pages[q]).free < |bytes| + SLOT_COST
    {
      var page := file.ReadPage(pageIndex);
      assert page.value.Valid() && page.value.View() == ViewOf(pages[pageIndex]);
      if page.value.FreeSpace() >= rowSizeBytes + SLOT_ENTRY_SIZE {
        p := pageIndex;
        r := InsertRowIntoPage(file, page.value, rowBytes, rowSizeBytes);
        return;
      }
      pageIndex := pageIndex + 1;
    }
    p := numPages;
    var newPageId := file.AllocatePage();
    ghost var empty := file.pages[newPageId];
    assert file.pages == pages + [empty];
    var page := file.ReadPage(newPageId);
    r := InsertRowIntoPage(file, page.value, rowBytes, rowSizeBytes);
    assert EmptyPut(pages, empty, file.pages, bytes, r);
  }

  // What that means for the rows.

  lemma PageStored(pages: seq<Image>, p: nat, schema: Schema)
    requires FileOk(pages, schema) && 1 <= p < |pages|
    ensures WellFormed(pages[p]) && ViewOk(ViewOf(pages[p]), schema)
    ensures PageOf(ViewOf(pages[p]), schema) == TableOf(pages, schema)[p - 1]
    ensures ViewOf(pages[p]).free == TableOf(pages, schema)[p - 1].free
  {
  }

  lemma FirstFitIs(t: Table, need: nat, p: nat)
    requires p <= |t| && forall q :: 0 <= q < p ==> t[q].free < need
    requires p < |t| ==> t[p].free >= need
    ensures FirstFit(t, need) == if p < |t| then Some(p) else None
  {
  }

  /** A whole encoding put on a page is a row put there; bytes that are refused change nothing. */
  lemma RowPut(before: seq<Image>, after: seq<Image>, p: nat, row: Row, schema: Schema, r: Result<(), ExecError>)
    requires FileOk(before, schema) && WellTyped(row, schema) && 1 <= p < |before|
    requires BytesPut(before, after, p, Stored(row), r)
    requires r.Ok? ==> RowSize(row) < 0x1_0000
    ensures FileOk(after, schema)
    ensures var t, u := TableOf(before, schema), TableOf(after, schema);
      if r.Err? then u == t
      else RowSize(row) + SLOT_COST <= t[p - 1].free
           && u == t[p - 1 := TablePage(t[p - 1].rows + [Some(row)], t[p - 1].free - RowSize(row) - SLOT_COST)]
  {
    hide Encoded, WellFormed, WellTyped, Padded, RowSize, FileOk, ViewOk, ViewOf, Stored, TextsFit;
    PageStored(before, p, schema);
    if r.Ok? {
      StoredWhole(row);
      WholeLength(row);
      InsertedView(ViewOf(before[p]), row, schema);
      PageWritten(before, p, after[p], schema) by { ImageIsOk(after[p], schema); }
    }
  }

  lemma ImageIsOk(d: Image, schema: Schema)
    requires WellFormed(d) && ViewOk(ViewOf(d), schema)
    ensures ImageOk(d, schema)
  {
  }

  lemma WholeLength(row: Row)
    ensures |Padded(row)| == RowSize(row) && |Stored(row)| == Cast16(RowSize(row))
  {
  }

  /** Storing the bytes of a row is storing the row, unless they are taken cut short. */
  lemma RowStored(before: seq<Image>, after: seq<Image>, p: nat, row: Row, schema: Schema, r: Result<(), ExecError>)
    requires FileOk(before, schema) && Sound(before) && WellTyped(row, schema)
    requires BytesStored(before, after, p, Stored(row), r)
    ensures StoredAs(before, after, row, schema, r)
  {
    var t, size := TableOf(before, schema), RowSize(row);
    WholeLength(row);
    PlaceFound(before, p, |Stored(row)| + SLOT_COST, schema);
    hide *;
    if p < |before| {
      StoredWhereRoomIs(before, after, p, row, schema, r);
    } else {
      StoredOnNewPage(before, after, row, schema, r);
    }
  }

  lemma PlaceFound(before: seq<Image>, p: nat, need: nat, schema: Schema)
    requires FileOk(before, schema) && Sound(before) && 1 <= p <= |before|
    requires forall q :: 1 <= q < p ==> ViewOf(before[q]).free < need
    requires p < |before| ==> ViewOf(before[p]).free >= need
    ensures FirstFit(TableOf(before, schema), need) == if p < |before| then Some(p - 1) else None
  {
    var t := TableOf(before, schema);
    forall q | 0 <= q < |t|
      ensures t[q].free == ViewOf(before[q + 1]).free
    {
      PageStored(before, q + 1, schema);
    }
    FirstFitIs(t, need, p - 1);
  }

  /** Both relate what `Store` says to what became of the bytes. */
  ghost predicate StoredAs(before: seq<Image>, after: seq<Image>, row: Row, schema: Schema, r: Result<(), ExecError>)
    requires FileOk(before, schema)
  {
    var (u, stored) := Store(TableOf(before, schema), row, RowSize(row));
    if r.Ok? && RowSize(row) >= 0x1_0000 then stored == Err(RowCut)
    else stored == r && FileOk(after, schema) && TableOf(after, schema) == u
  }

  lemma StoreWhereRoomIs(t: Table, row: Row, size: nat, p: nat)
    requires FirstFit(t, Cast16(size) + SLOT_COST) == Some(p)
    ensures Store(t, row, size) ==
      if Cast16(size) == 0 then (t, Err(InternalError))
      else if size >= 0x1_0000 then (t, Err(RowCut))
      else (t[p := TablePage(t[p].rows + [Some(row)], t[p].free - size - SLOT_COST)], Ok(()))
  {
    hide FirstFit;
  }

  lemma StoreOnNewPage(t: Table, row: Row, size: nat)
    requires FirstFit(t, Cast16(size) + SLOT_COST) == None
    ensures Store(t, row, size) ==
      if Cast16(size) == 0 || Cast16(size) + SLOT_COST > FRESH_SPACE
      then (t + [TablePage([], FRESH_SPACE)], Err(InternalError))
      else if size >= 0x1_0000 then (t, Err(RowCut))
      else (t + [TablePage([Some(row)], FRESH_SPACE - size - SLOT_COST)], Ok(()))
  {
    hide FirstFit;
  }

  lemma StoredWhereRoomIs(before: seq<Image>, after: seq<Image>, p: nat, row: Row, schema: Schema,
                          r: Result<(), ExecError>)
    requires FileOk(before, schema) && WellTyped(row, schema) && 1 <= p < |before|
    requires |Stored(row)| == Cast16(RowSize(row))
    requires FirstFit(TableOf(before, schema), |Stored(row)| + SLOT_COST) == Some(p - 1)
    requires WellFormed(before[p]) && ViewOf(before[p]).free >= |Stored(row)| + SLOT_COST
    requires BytesPut(before, after, p, Stored(row), r)
    ensures StoredAs(before, after, row, schema, r)
  {
    hide WellFormed, WellTyped, RowSize, FileOk, ViewOf, Stored, FirstFit, BytesPut, Store, TableOf;
    StoreWhereRoomIs(TableOf(before, schema), row, RowSize(row), p - 1);
    RefusedOnlyIfEmpty(before, after, p, Stored(row), r);
    if r.Err? || RowSize(row) < 0x1_0000 {
      RowPut(before, after, p, row, schema, r);
    }
  }

  lemma StoredOnNewPage(before: seq<Image>, after: seq<Image>, row: Row, schema: Schema, r: Result<(), ExecError>)
    requires FileOk(before, schema) && WellTyped(row, schema)
    requires |Stored(row)| == Cast16(RowSize(row))
    requires FirstFit(TableOf(before, schema), |Stored(row)| + SLOT_COST) == None
    requires exists empty: Image :: EmptyPut(before, empty, after, Stored(row), r)
    ensures StoredAs(before, after, row, schema, r)
  {
    hide WellFormed, WellTyped, RowSize, FileOk, ViewOf, Stored, FirstFit, BytesPut, Store, TableOf;
    var empty: Image :| EmptyPut(before, empty, after, Stored(row), r);
    var t, size := TableOf(before, schema), RowSize(row);
    assert WellFormed(empty) && ViewOf(empty) == EmptyView && BytesPut(before + [empty], after, |before|, Stored(row), r);
    hide EmptyPut;
    StoreOnNewPage(t, row, size);
    PageAdded(before, empty, schema);
    NewPagePut(before, empty, after, Stored(row), r);
    if r.Err? || size < 0x1_0000 {
      RowPut(before + [empty], after, |before|, row, schema, r);
      if r.Ok? {
        RowOnNewPage(t, row, size);
      }
    }
  }

  /** A page with room refuses bytes only when there are none. */
  lemma RefusedOnlyIfEmpty(before: seq<Image>, after: seq<Image>, p: nat, bytes: seq<byte>, r: Result<(), ExecError>)
    requires BytesPut(before, after, p, bytes, r) && ViewOf(before[p]).free >= |bytes| + SLOT_COST
    ensures r == if bytes == [] then Err(InternalError) else Ok(())
  {
    hide WellFormed, ViewOf;
  }

  lemma NewPagePut(before: seq<Image>, empty: Image, after: seq<Image>, bytes: seq<byte>, r: Result<(), ExecError>)
    requires EmptyPut(before, empty, after, bytes, r)
    ensures r == if bytes == [] || |bytes| + SLOT_COST > FRESH_SPACE then Err(InternalError) else Ok(())
  {
    hide WellFormed, ViewOf;
  }

  lemma RowOnNewPage(t: Table, row: Row, size: nat)
    requires size + SLOT_COST <= FRESH_SPACE
    ensures var v := t + [TablePage([], FRESH_SPACE)];
      v[|t| := TablePage(v[|t|].rows + [Some(row)], v[|t|].free - size - SLOT_COST)]
      == t + [TablePage([Some(row)], FRESH_SPACE - size - SLOT_COST)]
  {
    assert [] + [Some(row)] == [Some(row)];
  }

  /** The row of an INSERT, checked against the number of columns. */
  method CheckedRow(p: ParseResult, ctx: Context) returns (r: Result<Row, ExecError>)
    requires Linked(p) && p.statement.Insert? && |p.statement.names| <= |p.statement.values|
    ensures r == InsertedRow(ctx, p.statement.names, TreesAt(p.expressions, p.statement.values))
  {
    r := RowFromInsertValues(p, ctx.schema, ctx.floats);
    if r.Ok? && p.statement.names == [] && |r.value| != |ctx.schema| {
      return Err(ColumnCountMismatch);
    }
  }

  /** INSERT. A row that is taken cut short is reported as `RowCut` here, where the source reports success. */
  method ExecInsert(file: TableFile, ctx: Context, p: ParseResult) returns (r: Result<(), ExecError>)
    requires FileOk(file.pages, ctx.schema)
    requires Linked(p) && p.statement.Insert? && |p.statement.names| <= |p.statement.values|
    modifies file
    ensures
      var row := InsertedRow(ctx, p.statement.names, TreesAt(p.expressions, p.statement.values));
      var t := old(TableOf(file.pages, ctx.schema));
      var (u, meant) := if row.Err? then (t, Err(row.error)) else InsertMeaning(t, ctx, row.value);
      && r == meant
      && (r != Err(RowCut) ==> FileOk(file.pages, ctx.schema) && TableOf(file.pages, ctx.schema) == u)
      && (r == Err(RowCut) && row.Ok? ==> CutStored(old(file.pages), file.pages, row.value))
  {
    hide FileOk, InsertedRow, KeyTaken, Serialized, Store, TableOf, CutStored, Sound, BytesStored;
    var row := CheckedRow(p, ctx);
    if row.Err? {
      return Err(row.error);
    }
    var k := PrimaryKeyIndex(ctx.schema);
    if k.Some? {
      var taken := PrimaryKeyExists(file, ctx.schema, k.value, row.value[k.value], null, 0, -1);
      if taken {
        return Err(PrimaryKeyViolation);
      }
    }
    var rowBytes := SerializeRow(row.value, ctx.schema);
    if rowBytes.Err? {
      return Err(EncodingError(rowBytes.error));
    }
    var rowSizeBytes := Cast16(rowBytes.value.Length);
    ghost var page;
    FileIsSound(file.pages, ctx.schema);
    EncodedLength(row.value, ctx.schema);
    assert rowBytes.value[..rowSizeBytes] == Stored(row.value);
    r, page := StoreRow(file, rowBytes.value, rowSizeBytes);
    RowStored(old(file.pages), file.pages, page, row.value, ctx.schema, r);
    if r.Ok? && rowSizeBytes != rowBytes.value.Length {
      WasCut(old(file.pages), file.pages, page, row.value, r);
      return Err(RowCut);
    }
  }

  /** The bytes of the row up to its 16-bit length are the new last slot of the page first fit gives them. */
  ghost predicate CutStored(before: seq<Image>, after: seq<Image>, row: Row) {
    Sound(before) && RowSize(row) >= 0x1_0000 && exists p: nat :: BytesStored(before, after, p, Stored(row), Ok(()))
  }

  lemma WasCut(before: seq<Image>, after: seq<Image>, p: nat, row: Row, r: Result<(), ExecError>)
    requires Sound(before) && RowSize(row) >= 0x1_0000 && BytesStored(before, after, p, Stored(row), r) && r.Ok?
    ensures CutStored(before, after, row)
  {
    hide BytesStored;
    assert r.value == ();
  }

  lemma FileIsSound(pages: seq<Image>, schema: Schema)
    requires FileOk(pages, schema)
    ensures |pages| > 0 && Sound(pages)
  {
  }

  lemma EncodedLength(row: Row, schema: Schema)
    requires Serialized(row, schema).Ok?
    ensures WellTyped(row, schema) && Serialized(row, schema).value == Padded(row)
    ensures |Padded(row)| == RowSize(row) && Stored(row) == Padded(row)[..Cast16(RowSize(row))]
    ensures Cast16(RowSize(row)) == RowSize(row) <==> RowSize(row) < 0x1_0000
    ensures Cast16(RowSize(row)) <= RowSize(row)
  {
    SerializedIffWellTyped(row, schema);
  }
}
