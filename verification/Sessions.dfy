/**
 Whole sessions: texts, lexed, parsed and executed one after the other against a table file, and what
 every run keeps, whichever of its statements fail.
 */
module Sessions {
  import opened Values
  import opened Lexers
  import opened LexerProofs
  import opened PageImage
  import opened TableFiles
  import opened Evaluator
  import opened RowCodec
  import opened QueryGrammar
  import opened QueryTexts
  import opened Statements
  import opened Relation
  import opened RelationProofs
  import opened Storage
  import opened Executor
  import opened Scans
  import opened Wrappers
  import Parsers

  /**
   One statement: the rows of the file change, and the outcome is, as the statement means. Nothing is
   said of the rows once one was taken cut short.
   */
  method Execute(file: TableFile, ctx: Context, p: ParseResult) returns (outcome: Outcome)
    requires FileOk(file.pages, ctx.schema)
    requires Linked(p) && Executable(QueryOf(p))
    modifies file
    ensures Typed(old(TableOf(file.pages, ctx.schema)), ctx.schema)
    ensures outcome == QueryMeaning(old(TableOf(file.pages, ctx.schema)), ctx, QueryOf(p)).1
    ensures outcome != Failed(RowCut) ==>
      && FileOk(file.pages, ctx.schema)
      && TableOf(file.pages, ctx.schema) == QueryMeaning(old(TableOf(file.pages, ctx.schema)), ctx, QueryOf(p)).0
  {
    TableTyped(file.pages, ctx.schema);
    hide FileOk, Typed, TreesAt, WhereAt, AssignmentsAt;
    hide ScanTable, InsertMeaning, InsertedRow, SelectRows, LiveRows, ResultColumns, CutStored;
    if p.statement.SelectWithoutFrom? || p.statement.table != ctx.name {
      return Failed(TableSchemaNotFound);
    }
    match p.statement
    case Select(_, _, _) =>
      var r := ExecSelect(file, ctx, p);
      outcome := if r.Ok? then Rows(r.value.0, r.value.1) else Failed(r.error);
    case Insert(_, _, _) =>
      var r := ExecInsert(file, ctx, p);
      outcome := if r.Ok? then Inserted else Failed(r.error);
    case Delete(_, _) =>
      var r := ExecDelete(file, ctx, p);
      outcome := if r.Ok? then Outcome.Deleted(r.value) else Failed(r.error);
    case Update(_, _, _) =>
      var r := ExecUpdate(file, ctx, p);
      outcome := if r.Ok? then Updated(r.value) else Failed(r.error);
  }

  // What one statement keeps.

  /** Pages and slots are only ever added, space is only ever spent, and an emptied slot stays empty. */
  ghost predicate Grows(t: Table, u: Table) {
    && |t| <= |u|
    && (forall p :: 0 <= p < |t| ==> PageGrows(t[p], u[p]))
  }

  ghost predicate PageGrows(page: TablePage, next: TablePage) {
    && |page.rows| <= |next.rows| && next.free <= page.free
    && (forall s :: 0 <= s < |page.rows| && page.rows[s].None? ==> next.rows[s].None?)
  }

  /** Unique keys, when the schema has a primary key. */
  ghost predicate KeyedBy(t: Table, schema: Schema) {
    PrimaryKey(schema).Some? ==> UniqueKeys(t, PrimaryKey(schema).value)
  }

  lemma GrowsOn(t: Table, u: Table, v: Table)
    requires Grows(t, u) && Grows(u, v)
    ensures Grows(t, v)
  {
    forall p | 0 <= p < |t|
      ensures PageGrows(t[p], v[p])
    {
      assert PageGrows(t[p], u[p]) && PageGrows(u[p], v[p]);
    }
  }

  lemma ScanGrows(t: Table, change: Change, ctx: Context)
    requires Typed(t, ctx.schema)
    ensures Grows(t, ScanTable(t, 0, 0, change, ctx).0)
  {
    hide Typed, ScanTable;
    var _ := ScanMaps(t, 0, 0, change, ctx);
  }

  lemma InsertGrows(t: Table, ctx: Context, row: Row)
    requires |row| == |ctx.schema|
    ensures Grows(t, InsertMeaning(t, ctx, row).0)
  {
    hide Serialized, KeyTaken;
  }

  lemma QueryKeeps(t: Table, ctx: Context, q: Query)
    requires Typed(t, ctx.schema) && Executable(q)
    ensures var u := QueryMeaning(t, ctx, q).0;
      Typed(u, ctx.schema) && Grows(t, u) && (KeyedBy(t, ctx.schema) ==> KeyedBy(u, ctx.schema))
  {
    hide Typed, UniqueKeys, ScanTable, InsertMeaning, InsertedRow, SelectRows, LiveRows, ResultColumns;
    match q
    case InsertQuery(_, names, values) =>
      var row := InsertedRow(ctx, names, values);
      if row.Ok? {
        InsertKeepsTyped(t, ctx, row.value);
        InsertGrows(t, ctx, row.value);
        if PrimaryKey(ctx.schema).Some? && UniqueKeys(t, PrimaryKey(ctx.schema).value) {
          InsertKeepsUnique(t, ctx, row.value);
        }
      }
    case DeleteQuery(_, where) => ChangeKeeps(t, ctx, Removal(where));
    case UpdateQuery(_, assignments, where) => ChangeKeeps(t, ctx, Assignment(assignments, where));
    case _ =>
  }

  lemma ChangeKeeps(t: Table, ctx: Context, change: Change)
    requires Typed(t, ctx.schema)
    ensures var u := ScanTable(t, 0, 0, change, ctx).0;
      Typed(u, ctx.schema) && Grows(t, u) && (KeyedBy(t, ctx.schema) ==> KeyedBy(u, ctx.schema))
  {
    hide Typed, UniqueKeys, ScanTable;
    var _ := ScanMaps(t, 0, 0, change, ctx);
    ScanGrows(t, change, ctx);
    if PrimaryKey(ctx.schema).Some? && UniqueKeys(t, PrimaryKey(ctx.schema).value) {
      ScanKeepsUnique(t, 0, 0, change, ctx);
    }
  }

  // Runs. An input that does not parse is reported and skipped; an outcome that ends the program, or
  // what the model can say of it, is the last.

  predicate Aborts(outcome: Option<Outcome>) {
    || outcome == Some(Failed(ExecError.BadVariantAccess))
    || outcome == Some(Failed(IntegerOverflow))
    || outcome == Some(Failed(RowCut))
  }

  predicate Ended(outcomes: seq<Option<Outcome>>) { outcomes != [] && Aborts(outcomes[|outcomes| - 1]) }

  predicate EndedByCut(outcomes: seq<Option<Outcome>>) {
    outcomes != [] && outcomes[|outcomes| - 1] == Some(Failed(RowCut))
  }

  ghost predicate AllExecutable(qs: seq<Option<Query>>) {
    forall i :: 0 <= i < |qs| && qs[i].Some? ==> Executable(qs[i].value)
  }

  ghost function InputMeaning(t: Table, ctx: Context, q: Option<Query>): (r: (Table, Option<Outcome>))
    requires Typed(t, ctx.schema) && (q.Some? ==> Executable(q.value))
    ensures Typed(r.0, ctx.schema)
  {
    match q
    case None => (t, None)
    case Some(query) =>
      QueryKeeps(t, ctx, query);
      var (u, outcome) := QueryMeaning(t, ctx, query);
      (u, Some(outcome))
  }

  ghost function RunMeaning(t: Table, ctx: Context, qs: seq<Option<Query>>): (r: (Table, seq<Option<Outcome>>))
    requires Typed(t, ctx.schema) && AllExecutable(qs)
    ensures Typed(r.0, ctx.schema) && |r.1| <= |qs|
  {
    if qs == [] then (t, [])
    else
      var last := |qs| - 1;
      var (u, outcomes) := RunMeaning(t, ctx, qs[..last]);
      if Ended(outcomes) then (u, outcomes)
      else
        var (v, outcome) := InputMeaning(u, ctx, qs[last]);
        (v, outcomes + [outcome])
  }

  /** What comes after the end of a run is not executed. */
  lemma {:induction false} RunEnded(t: Table, ctx: Context, qs: seq<Option<Query>>, i: nat)
    requires Typed(t, ctx.schema) && AllExecutable(qs) && i <= |qs|
    requires Ended(RunMeaning(t, ctx, qs[..i]).1)
    ensures RunMeaning(t, ctx, qs) == RunMeaning(t, ctx, qs[..i])
  {
    hide Typed, Ended, InputMeaning;
    if i == |qs| {
      assert qs[..i] == qs;
    } else {
      assert qs[..|qs| - 1][..i] == qs[..i];
      RunEnded(t, ctx, qs[..|qs| - 1], i);
    }
  }

  /**
   Safety of every run, from every table and whichever inputs fail: rows keep an encoding under the
   schema, no position is ever given up or reused, and unique primary keys stay unique. The run ends
   before a row is cut short, if one is.
   */
  lemma {:induction false} RunKeeps(t: Table, ctx: Context, qs: seq<Option<Query>>)
    requires Typed(t, ctx.schema) && AllExecutable(qs)
    ensures var (u, outcomes) := RunMeaning(t, ctx, qs);
      && Typed(u, ctx.schema) && Grows(t, u) && (|outcomes| < |qs| ==> Ended(outcomes))
      && (KeyedBy(t, ctx.schema) ==> KeyedBy(u, ctx.schema))
  {
    hide Typed, KeyedBy, Grows, QueryMeaning, Ended;
    if qs == [] {
      GrowsSelf(t);
    } else {
      var last := |qs| - 1;
      RunKeeps(t, ctx, qs[..last]);
      var (u, outcomes) := RunMeaning(t, ctx, qs[..last]);
      if !Ended(outcomes) && qs[last].Some? {
        QueryKeeps(u, ctx, qs[last].value);
        GrowsOn(t, u, QueryMeaning(u, ctx, qs[last].value).0);
      }
    }
  }

  lemma GrowsSelf(t: Table)
    ensures Grows(t, t)
  {
  }

  /** From an empty table: after any run the stored keys are unique. */
  lemma RunFromEmpty(ctx: Context, qs: seq<Option<Query>>)
    requires AllExecutable(qs)
    ensures Typed([], ctx.schema) && KeyedBy(RunMeaning([], ctx, qs).0, ctx.schema)
  {
    RunKeeps([], ctx, qs);
  }

  /** First fit only moves on: a later row is never placed on a page that had no room for its length before. */
  lemma FirstFitMovesOn(t: Table, ctx: Context, qs: seq<Option<Query>>, need: nat)
    requires Typed(t, ctx.schema) && AllExecutable(qs)
    ensures var before, after := FirstFit(t, need), FirstFit(RunMeaning(t, ctx, qs).0, need);
      after.Some? ==> (if before.Some? then before.value else |t|) <= after.value
  {
    RunKeeps(t, ctx, qs);
    hide RunMeaning, Typed, KeyedBy;
    var u := RunMeaning(t, ctx, qs).0;
    var after := FirstFit(u, need);
    if after.Some? && after.value < |t| {
      assert PageGrows(t[after.value], u[after.value]);
    }
  }

  // Running a session on a file.

  /** The lexer returns, and the parsing and executing of the tokens are modelled. */
  ghost predicate InputOk(text: Text, isFloat: Text -> bool) {
    && Lex(text, isFloat).Some? && IsQuery(Lex(text, isFloat).value)
    && var q := ParseQuery(Lex(text, isFloat).value); q.Some? ==> Executable(q.value)
  }

  ghost function QueryIn(text: Text, isFloat: Text -> bool): (q: Option<Query>)
    requires InputOk(text, isFloat)
    ensures q.Some? ==> Executable(q.value)
  {
    ParseQuery(Lex(text, isFloat).value)
  }

  /** Submitting a query as text, in any spelling and with any blanks in it, submits that query. */
  lemma WrittenQueryIsSubmitted(q: Query, texts: seq<Text>, gaps: seq<Text>, isFloat: Text -> bool)
    requires SpellableQuery(q, isFloat) && Executable(q) && SpellsAll(texts, QueryTokens(q))
    requires |gaps| == |QueryTokens(q)| && forall i :: 0 <= i < |gaps| ==> IsGap(gaps[i])
    ensures var text := Write(texts, gaps); InputOk(text, isFloat) && QueryIn(text, isFloat) == Some(q)
  {
    hide SpellableQuery, PrintableQuery, PrintQuery, ParseQuery, IsQuery, Lex, Write, IsGap, SpellsAll;
    TextRoundTrip(q, texts, gaps, isFloat);
  }

  ghost function QueriesIn(inputs: seq<Text>, isFloat: Text -> bool): (qs: seq<Option<Query>>)
    requires forall i :: 0 <= i < |inputs| ==> InputOk(inputs[i], isFloat)
    ensures |qs| == |inputs| && AllExecutable(qs)
    ensures forall i :: 0 <= i < |inputs| ==> qs[i] == QueryIn(inputs[i], isFloat)
  {
    seq(|inputs|, i requires 0 <= i < |inputs| => QueryIn(inputs[i], isFloat))
  }

  method ParseText(text: Text, isFloat: Text -> bool) returns (p: Option<ParseResult>)
    requires InputOk(text, isFloat)
    ensures p.None? <==> QueryIn(text, isFloat).None?
    ensures p.Some? ==> Linked(p.value) && QueryIn(text, isFloat) == Some(QueryOf(p.value))
  {
    hide Linked, QueryOf, ParseQuery, IsQuery, Lex;
    var lexer := new Lexer(text, isFloat);
    var tokens := lexer.Tokenize();
    p := Parsers.Parse(tokens);
  }

  /** Lex, parse, then execute; a parse error leaves the file alone. */
  method Submit(file: TableFile, ctx: Context, text: Text, isFloat: Text -> bool) returns (outcome: Option<Outcome>)
    requires FileOk(file.pages, ctx.schema) && InputOk(text, isFloat)
    modifies file
    ensures Typed(old(TableOf(file.pages, ctx.schema)), ctx.schema)
    ensures outcome == InputMeaning(old(TableOf(file.pages, ctx.schema)), ctx, QueryIn(text, isFloat)).1
    ensures outcome != Some(Failed(RowCut)) ==>
      && FileOk(file.pages, ctx.schema)
      && TableOf(file.pages, ctx.schema)
         == InputMeaning(old(TableOf(file.pages, ctx.schema)), ctx, QueryIn(text, isFloat)).0
  {
    TableTyped(file.pages, ctx.schema);
    hide FileOk, Typed, TableOf, InputOk, QueryIn, QueryMeaning, Linked, Executable, QueryOf;
    var p := ParseText(text, isFloat);
    if p.None? {
      return None;
    }
    var executed := Execute(file, ctx, p.value);
    return Some(executed);
  }

  /** The outcomes are those of the run, and so are the rows of the file unless one was cut short. */
  ghost predicate Refines(pages: seq<Image>, schema: Schema, outcomes: seq<Option<Outcome>>,
                          run: (Table, seq<Option<Outcome>>)) {
    && outcomes == run.1
    && (!EndedByCut(outcomes) ==> FileOk(pages, schema) && TableOf(pages, schema) == run.0)
  }

  /** A whole session refines the run of its statements on the relation. */
  method RunSession(file: TableFile, ctx: Context, inputs: seq<Text>, isFloat: Text -> bool)
    returns (outcomes: seq<Option<Outcome>>)
    requires FileOk(file.pages, ctx.schema) && forall i :: 0 <= i < |inputs| ==> InputOk(inputs[i], isFloat)
    modifies file
    ensures Typed(old(TableOf(file.pages, ctx.schema)), ctx.schema)
    ensures Refines(file.pages, ctx.schema, outcomes,
                    RunMeaning(old(TableOf(file.pages, ctx.schema)), ctx, QueriesIn(inputs, isFloat)))
  {
    TableTyped(file.pages, ctx.schema);
    hide FileOk, Typed, TableOf, InputMeaning, InputOk, Ended, EndedByCut, Refines;
    ghost var t := TableOf(file.pages, ctx.schema);
    ghost var qs := QueriesIn(inputs, isFloat);
    outcomes := [];
    var i := 0;
    RefinesStart(file.pages, ctx, t);
    while i < |inputs| && !Ended(outcomes)
      invariant i <= |inputs|
      invariant Refines(file.pages, ctx.schema, outcomes, RunMeaning(t, ctx, qs[..i]))
    {
      assert qs[..i + 1][..i] == qs[..i];
      ghost var before := outcomes;
      RefinesTable(file.pages, ctx.schema, outcomes, RunMeaning(t, ctx, qs[..i]));
      var outcome := Submit(file, ctx, inputs[i], isFloat);
      outcomes := outcomes + [outcome];
      RefinesNext(file.pages, t, ctx, qs, i, before, outcome);
      i := i + 1;
    }
    assert qs[..|inputs|] == qs;
    RefinesEnd(file.pages, t, ctx, qs, i, outcomes);
  }

  lemma RefinesStart(pages: seq<Image>, ctx: Context, t: Table)
    requires FileOk(pages, ctx.schema) && t == TableOf(pages, ctx.schema) && Typed(t, ctx.schema)
    ensures Refines(pages, ctx.schema, [], RunMeaning(t, ctx, []))
  {
  }

  lemma RefinesTable(pages: seq<Image>, schema: Schema, outcomes: seq<Option<Outcome>>,
                     run: (Table, seq<Option<Outcome>>))
    requires Refines(pages, schema, outcomes, run) && !Ended(outcomes)
    ensures FileOk(pages, schema) && TableOf(pages, schema) == run.0
  {
  }

  lemma RefinesNext(pages: seq<Image>, t: Table, ctx: Context, qs: seq<Option<Query>>, i: nat,
                    outcomes: seq<Option<Outcome>>, outcome: Option<Outcome>)
    requires Typed(t, ctx.schema) && AllExecutable(qs) && i < |qs|
    requires outcomes == RunMeaning(t, ctx, qs[..i]).1 && !Ended(outcomes)
    requires
      var (v, meant) := InputMeaning(RunMeaning(t, ctx, qs[..i]).0, ctx, qs[i]);
      && outcome == meant
      && (outcome != Some(Failed(RowCut)) ==> FileOk(pages, ctx.schema) && TableOf(pages, ctx.schema) == v)
    ensures Refines(pages, ctx.schema, outcomes + [outcome], RunMeaning(t, ctx, qs[..i + 1]))
  {
    hide Typed, InputMeaning, FileOk, TableOf, RunMeaning, Ended;
    RunNext(t, ctx, qs, i);
  }

  lemma RunNext(t: Table, ctx: Context, qs: seq<Option<Query>>, i: nat)
    requires Typed(t, ctx.schema) && AllExecutable(qs) && i < |qs| && !Ended(RunMeaning(t, ctx, qs[..i]).1)
    ensures var (u, outcomes) := RunMeaning(t, ctx, qs[..i]);
      var (v, outcome) := InputMeaning(u, ctx, qs[i]);
      RunMeaning(t, ctx, qs[..i + 1]) == (v, outcomes + [outcome])
  {
    hide Typed, InputMeaning, Ended, RunMeaning;
    var part := qs[..i + 1];
    assert part[..i] == qs[..i] && part[i] == qs[i];
    RunLast(t, ctx, part);
  }

  lemma RunLast(t: Table, ctx: Context, qs: seq<Option<Query>>)
    requires Typed(t, ctx.schema) && AllExecutable(qs) && qs != [] && AllExecutable(qs[..|qs| - 1])
    ensures var (u, outcomes) := RunMeaning(t, ctx, qs[..|qs| - 1]);
      var (v, outcome) := InputMeaning(u, ctx, qs[|qs| - 1]);
      RunMeaning(t, ctx, qs) == if Ended(outcomes) then (u, outcomes) else (v, outcomes + [outcome])
  {
    hide Typed, InputMeaning, Ended, AllExecutable, Executable;
  }

  lemma SameOutcomes(pages: seq<Image>, schema: Schema, outcomes: seq<Option<Outcome>>,
                     run: (Table, seq<Option<Outcome>>))
    requires Refines(pages, schema, outcomes, run)
    ensures outcomes == run.1
  {
  }

  lemma RefinesEnd(pages: seq<Image>, t: Table, ctx: Context, qs: seq<Option<Query>>, i: nat,
                   outcomes: seq<Option<Outcome>>)
    requires Typed(t, ctx.schema) && AllExecutable(qs) && i <= |qs|
    requires Refines(pages, ctx.schema, outcomes, RunMeaning(t, ctx, qs[..i]))
    requires i == |qs| || Ended(outcomes)
    ensures Refines(pages, ctx.schema, outcomes, RunMeaning(t, ctx, qs))
  {
    hide Typed, Ended, FileOk, TableOf, RunMeaning, Refines;
    assert qs[..|qs|] == qs;
    SameOutcomes(pages, ctx.schema, outcomes, RunMeaning(t, ctx, qs[..i]));
    if Ended(outcomes) {
      RunEnded(t, ctx, qs, i);
    }
  }

  /** A session on a table that was just created, and what it leaves. */
  method RunOnNewTable(ctx: Context, inputs: seq<Text>, isFloat: Text -> bool)
    returns (file: TableFile, outcomes: seq<Option<Outcome>>)
    requires forall i :: 0 <= i < |inputs| ==> InputOk(inputs[i], isFloat)
    ensures Typed([], ctx.schema)
    ensures Refines(file.pages, ctx.schema, outcomes, RunMeaning([], ctx, QueriesIn(inputs, isFloat)))
    ensures !EndedByCut(outcomes) ==>
      FileOk(file.pages, ctx.schema) && KeyedBy(TableOf(file.pages, ctx.schema), ctx.schema)
  {
    file := new TableFile();
    NewFile(file.pages, ctx.schema);
    outcomes := RunSession(file, ctx, inputs, isFloat);
    RunFromEmpty(ctx, QueriesIn(inputs, isFloat));
  }
}
