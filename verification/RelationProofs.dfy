/**
 What the statements guarantee about the table: SELECT filters, DELETE and UPDATE act on all rows at
 once or on whole pages, INSERT is first-fit, and primary keys stay unique, also after failures.
 */
module RelationProofs {
  import opened Bytes
  import opened Values
  import opened Expressions
  import opened Evaluator
  import opened RowCodec
  import opened Relation
  import opened Wrappers

  // SELECT is a filter.

  predicate Hit(where: Option<Tree>, env: Env, row: Row) { Matches(where, env, row) == Ok(true) }

  function Filter(rows: seq<Row>, where: Option<Tree>, env: Env, keep: bool): seq<Row> {
    if rows == [] then []
    else if Hit(where, env, rows[0]) == keep then [rows[0]] + Filter(rows[1..], where, env, keep)
    else Filter(rows[1..], where, env, keep)
  }

  // The first of several results that is an error.

  predicate AllOk<T>(rs: seq<Result<T, ExecError>>) { forall i :: 0 <= i < |rs| ==> rs[i].Ok? }

  predicate ErrorAt<T>(rs: seq<Result<T, ExecError>>, i: nat, e: ExecError) {
    i < |rs| && rs[i].Err? && rs[i].error == e && AllOk(rs[..i])
  }

  ghost predicate FirstError<T>(rs: seq<Result<T, ExecError>>, e: ExecError) { exists i: nat :: ErrorAt(rs, i, e) }

  lemma ErrorInEither<T>(a: seq<Result<T, ExecError>>, b: seq<Result<T, ExecError>>, i: nat, e: ExecError)
    ensures ErrorAt(a + b, i, e) <==> if i < |a| then ErrorAt(a, i, e) else AllOk(a) && ErrorAt(b, i - |a|, e)
  {
    var s := a + b;
    if i < |a| {
      assert s[..i] == a[..i];
    } else if i < |s| {
      assert s[..i] == a + b[..i - |a|];
      AllOkOfBoth(a, b[..i - |a|]);
    }
  }

  lemma AllOkOfBoth<T>(a: seq<Result<T, ExecError>>, b: seq<Result<T, ExecError>>)
    ensures AllOk(a + b) <==> AllOk(a) && AllOk(b)
  {
    if AllOk(a + b) {
      assert forall i | 0 <= i < |a| :: a[i] == (a + b)[i];
      assert forall i | 0 <= i < |b| :: b[i] == (a + b)[|a| + i];
    }
  }

  lemma FirstErrorOfBoth<T>(a: seq<Result<T, ExecError>>, b: seq<Result<T, ExecError>>, e: ExecError)
    ensures FirstError(a + b, e) <==> FirstError(a, e) || (AllOk(a) && FirstError(b, e))
    ensures AllOk(a + b) <==> AllOk(a) && AllOk(b)
  {
    AllOkOfBoth(a, b);
    forall i: nat
      ensures ErrorAt(a + b, i, e) <==> if i < |a| then ErrorAt(a, i, e) else AllOk(a) && ErrorAt(b, i - |a|, e)
    {
      ErrorInEither(a, b, i, e);
    }
    if FirstError(a, e) {
      var i: nat :| ErrorAt(a, i, e);
      assert ErrorAt(a + b, i, e);
    }
    if AllOk(a) && FirstError(b, e) {
      var i: nat :| ErrorAt(b, i, e);
      assert ErrorAt(a + b, |a| + i, e);
    }
  }

  lemma FirstErrorOfOne<T>(r: Result<T, ExecError>, e: ExecError)
    ensures FirstError([r], e) <==> r.Err? && r.error == e
    ensures AllOk([r]) <==> r.Ok?
  {
    assert [r][0] == r && [r][..0] == [];
    assert r.Err? && r.error == e ==> ErrorAt([r], 0, e);
  }

  ghost predicate AllEvaluate(rows: seq<Row>, where: Option<Tree>, env: Env) {
    forall i :: 0 <= i < |rows| ==> Matches(where, env, rows[i]).Ok?
  }

  /** What the condition says on every row. */
  function Checks(rows: seq<Row>, where: Option<Tree>, env: Env): (checks: seq<Result<bool, ExecError>>)
    ensures |checks| == |rows| && forall i :: 0 <= i < |rows| ==> checks[i] == Matches(where, env, rows[i])
  {
    seq(|rows|, i requires 0 <= i < |rows| => Matches(where, env, rows[i]))
  }

  /** SELECT succeeds exactly when the condition evaluates on every row, and then returns the matching ones. */
  lemma {:induction false} SelectIsFilter(rows: seq<Row>, where: Option<Tree>, env: Env)
    ensures SelectRows(rows, where, env).Ok? <==> AllEvaluate(rows, where, env)
    ensures SelectRows(rows, where, env).Ok? ==>
      SelectRows(rows, where, env).value == Filter(rows, where, env, true)
  {
    if rows != [] {
      SelectIsFilter(rows[1..], where, env);
      assert rows == [rows[0]] + rows[1..];
    }
  }

  lemma FirstErrorOfMore<T>(first: Result<T, ExecError>, rest: seq<Result<T, ExecError>>, e: ExecError)
    ensures FirstError([first] + rest, e) <==> if first.Err? then first.error == e else FirstError(rest, e)
  {
    FirstErrorOfBoth([first], rest, e);
    FirstErrorOfOne(first, e);
  }

  /** Otherwise it has the error of the first row where the condition does not evaluate. */
  lemma {:induction false} SelectFailsFirst(rows: seq<Row>, where: Option<Tree>, env: Env, e: ExecError)
    ensures SelectRows(rows, where, env) == Err(e) <==> FirstError(Checks(rows, where, env), e)
  {
    hide FirstError, Matches;
    if rows == [] {
      NoErrorInNone<bool>();
      assert Checks(rows, where, env) == [];
    } else {
      SelectFailsFirst(rows[1..], where, env, e);
      assert Checks(rows, where, env) == [Matches(where, env, rows[0])] + Checks(rows[1..], where, env);
      FirstErrorOfMore(Matches(where, env, rows[0]), Checks(rows[1..], where, env), e);
    }
  }

  lemma NoErrorInNone<T>()
    ensures forall e :: !FirstError<T>([], e)
  {
  }

  lemma {:induction false} FilterAppend(a: seq<Row>, b: seq<Row>, where: Option<Tree>, env: Env, keep: bool)
    ensures Filter(a + b, where, env, keep) == Filter(a, where, env, keep) + Filter(b, where, env, keep)
  {
    hide Hit;
    if a == [] {
      assert a + b == b;
    } else {
      FilterAppend(a[1..], b, where, env, keep);
      assert (a + b)[1..] == a[1..] + b;
    }
  }

  lemma {:induction false} FilterSizes(rows: seq<Row>, where: Option<Tree>, env: Env)
    ensures |Filter(rows, where, env, false)| + |Filter(rows, where, env, true)| == |rows|
  {
    if rows != [] {
      FilterSizes(rows[1..], where, env);
    }
  }

  /** One list of rows and then another, failing at the first failure. */
  function Both(a: Result<seq<Row>, ExecError>, b: Result<seq<Row>, ExecError>): Result<seq<Row>, ExecError> {
    if a.Err? then a else if b.Err? then b else Ok(a.value + b.value)
  }

  lemma {:induction false} SelectAppend(a: seq<Row>, b: seq<Row>, where: Option<Tree>, env: Env)
    ensures SelectRows(a + b, where, env) == Both(SelectRows(a, where, env), SelectRows(b, where, env))
  {
    hide Matches;
    if a == [] {
      assert a + b == b;
      assert forall second: seq<Row> :: [] + second == second;
    } else {
      SelectAppend(a[1..], b, where, env);
      assert (a + b)[1..] == a[1..] + b;
      var rest, second := SelectRows(a[1..], where, env), SelectRows(b, where, env);
      if rest.Ok? && second.Ok? {
        assert forall first: seq<Row> :: first + rest.value + second.value == first + (rest.value + second.value);
      }
    }
  }

  // What a successful DELETE or UPDATE makes of one cell.

  /**
   A change carried out on one cell. The condition evaluated on the row; a row that matches is gone, or
   is the row assigned from it, which has an encoding; any other cell is what it was.
   */
  ghost predicate Becomes(cell: Option<Row>, after: Option<Row>, change: Change, ctx: Context) {
    if cell.None? then after.None?
    else
      && |cell.value| == |ctx.schema|
      && match Matches(change.where, TableEnv(ctx), cell.value)
         case Err(_) => false
         case Ok(hit) => if hit then Replaced(cell.value, after, change, ctx) else after == cell
  }

  ghost predicate Replaced(row: Row, after: Option<Row>, change: Change, ctx: Context)
    requires |row| == |ctx.schema|
  {
    match change
    case Removal(_) => after.None?
    case Assignment(assignments, _) =>
      after.Some? && Assigned(row, row, assignments, TableEnv(ctx)) == Ok(after.value) && WellTyped(after.value, ctx.schema)
  }

  ghost predicate AllBecome(rows: seq<Option<Row>>, after: seq<Option<Row>>, change: Change, ctx: Context) {
    |after| == |rows| && forall i :: 0 <= i < |rows| ==> Becomes(rows[i], after[i], change, ctx)
  }

  function IsHit(cell: Option<Row>, change: Change, ctx: Context): nat {
    if cell.Some? && Hit(change.where, TableEnv(ctx), cell.value) then 1 else 0
  }

  function Hits(rows: seq<Option<Row>>, change: Change, ctx: Context): nat {
    if rows == [] then 0 else IsHit(rows[0], change, ctx) + Hits(rows[1..], change, ctx)
  }

  lemma StepMaps(t: Table, p: nat, s: nat, change: Change, ctx: Context)
    requires IsCell(t, p, s) && Typed(t, ctx.schema) && Step(t, p, s, change, ctx).Ok?
    ensures var (page, n) := Step(t, p, s, change, ctx).value;
      && page.rows == t[p].rows[s := page.rows[s]]
      && Becomes(t[p].rows[s], page.rows[s], change, ctx)
      && n == IsHit(t[p].rows[s], change, ctx)
      && page.free <= t[p].free
      && (change.Removal? ==> page.free == t[p].free)
  {
    if t[p].rows[s].Some? {
      assert IsLive(t, p, s);
      var row := t[p].rows[s].value;
      assert WellTyped(row, ctx.schema);
      if change.Assignment? {
        var updated := Assigned(row, row, change.assignments, TableEnv(ctx));
        if updated.Ok? {
          SerializedIffWellTyped(updated.value, ctx.schema);
        }
      }
      ReplaceAny(t[p], s);
      hide WellTyped, Typed, Serialized, KeyTaken, AssignsKey, Replace, Assigned, Matches, PrimaryKey, RowSize;
    }
  }

  lemma ReplaceAny(page: TablePage, s: nat)
    requires s < |page.rows| && page.rows[s].Some?
    ensures forall row, size :: Replace(page, s, row, size).Ok? ==>
      && Replace(page, s, row, size).value.rows == page.rows[s := Some(row)]
      && Replace(page, s, row, size).value.free <= page.free
  {
  }

  /** On page `p` of `u` the change has been carried out on the slots from `s` on of `t`, and on nothing else. */
  ghost predicate PageMapped(t: Table, u: Table, p: nat, s: nat, change: Change, ctx: Context) {
    && p < |t| && s <= |t[p].rows|
    && |u| == |t| && u == t[p := u[p]]
    && |u[p].rows| == |t[p].rows| && u[p].rows[..s] == t[p].rows[..s]
    && AllBecome(t[p].rows[s..], u[p].rows[s..], change, ctx)
    && u[p].free <= t[p].free
    && (change.Removal? ==> u[p].free == t[p].free)
  }

  lemma PageMappedStep(t: Table, next: Table, u: Table, p: nat, s: nat, change: Change, ctx: Context)
    requires p < |t| == |next| && s < |t[p].rows| && next == t[p := next[p]]
    requires |next[p].rows| == |t[p].rows| && next[p].rows == t[p].rows[s := next[p].rows[s]]
    requires Becomes(t[p].rows[s], next[p].rows[s], change, ctx)
    requires next[p].free <= t[p].free && (change.Removal? ==> next[p].free == t[p].free)
    requires PageMapped(next, u, p, s + 1, change, ctx)
    ensures PageMapped(t, u, p, s, change, ctx)
  {
    hide Becomes;
    assert u[p].rows[s] == u[p].rows[..s + 1][s] == next[p].rows[s];
    forall i | s < i < |t[p].rows|
      ensures Becomes(t[p].rows[i], u[p].rows[i], change, ctx)
    {
      assert next[p].rows[s + 1..][i - s - 1] == t[p].rows[i] && u[p].rows[s + 1..][i - s - 1] == u[p].rows[i];
    }
  }

  lemma HitsStep(rows: seq<Option<Row>>, next: seq<Option<Row>>, s: nat, change: Change, ctx: Context)
    requires s < |rows| == |next| && next == rows[s := next[s]]
    ensures Hits(rows[s..], change, ctx) == IsHit(rows[s], change, ctx) + Hits(next[s + 1..], change, ctx)
  {
    hide IsHit;
    assert next[s + 1..] == rows[s + 1..] == rows[s..][1..];
  }

  lemma ScanPageNext(t: Table, p: nat, s: nat, count: nat, change: Change, ctx: Context)
    returns (next: Table, page: TablePage, n: nat)
    requires p < |t| && s < |t[p].rows| && Typed(t, ctx.schema)
    requires ScanPage(t, p, s, count, change, ctx).Ok?
    ensures IsCell(t, p, s) && Step(t, p, s, change, ctx) == Ok((page, n))
    ensures |next| == |t| && next == t[p := page] && next[p] == page
    ensures |page.rows| == |t[p].rows| && Typed(next, ctx.schema)
    ensures ScanPage(t, p, s, count, change, ctx) == ScanPage(next, p, s + 1, count + n, change, ctx)
  {
    hide Typed, Step;
    var step := Step(t, p, s, change, ctx).value;
    page, n := step.0, step.1;
    next := t[p := page];
    StepKeepsTyped(t, p, s, change, ctx);
  }

  lemma {:induction false} ScanPageMaps(t: Table, p: nat, s: nat, count: nat, change: Change, ctx: Context)
    requires p < |t| && s <= |t[p].rows| && Typed(t, ctx.schema)
    requires ScanPage(t, p, s, count, change, ctx).Ok?
    ensures PageMapped(t, ScanPage(t, p, s, count, change, ctx).value.0, p, s, change, ctx)
    ensures ScanPage(t, p, s, count, change, ctx).value.1 == count + Hits(t[p].rows[s..], change, ctx)
    decreases |t[p].rows| - s
  {
    hide *;
    if s < |t[p].rows| {
      var next, page, n := ScanPageNext(t, p, s, count, change, ctx);
      StepMaps(t, p, s, change, ctx);
      ScanPageMaps(next, p, s + 1, count + n, change, ctx);
      PageMappedStep(t, next, ScanPage(t, p, s, count, change, ctx).value.0, p, s, change, ctx);
      HitsStep(t[p].rows, page.rows, s, change, ctx);
    } else {
      PageEnds(t, p, count, change, ctx);
    }
  }

  lemma PageEnds(t: Table, p: nat, count: nat, change: Change, ctx: Context)
    requires p < |t| && Typed(t, ctx.schema)
    ensures ScanPage(t, p, |t[p].rows|, count, change, ctx) == Ok((t, count))
    ensures PageMapped(t, t, p, |t[p].rows|, change, ctx)
    ensures Hits(t[p].rows[|t[p].rows|..], change, ctx) == 0
  {
    hide Typed, Step, Becomes;
  }

  /** The change has been carried out on the pages `from` to `to`, and the others are as they were. */
  ghost predicate Mapped(t: Table, u: Table, from: nat, to: nat, change: Change, ctx: Context) {
    && |u| == |t|
    && (forall q :: from <= q < to && q < |t| ==> AllBecome(t[q].rows, u[q].rows, change, ctx))
    && (forall q :: from <= q < to && q < |t| ==> u[q].free <= t[q].free)
    && (forall q :: from <= q < to && q < |t| && change.Removal? ==> u[q].free == t[q].free)
    && (forall q :: 0 <= q < |t| && !(from <= q < to) ==> u[q] == t[q])
  }

  function AllHits(t: Table, from: nat, change: Change, ctx: Context): nat
    requires from <= |t|
    decreases |t| - from
  {
    if from == |t| then 0 else Hits(t[from].rows, change, ctx) + AllHits(t, from + 1, change, ctx)
  }

  lemma {:induction false} AllHitsLocal(t: Table, u: Table, from: nat, change: Change, ctx: Context)
    requires |t| == |u| && from <= |t| && t[from..] == u[from..]
    ensures AllHits(t, from, change, ctx) == AllHits(u, from, change, ctx)
    decreases |t| - from
  {
    if from < |t| {
      assert t[from] == t[from..][0] == u[from];
      assert t[from + 1..] == t[from..][1..] == u[from + 1..];
      AllHitsLocal(t, u, from + 1, change, ctx);
    }
  }

  /** The scan failed while it worked on page `p` of `u`. */
  ghost predicate FailsOnPage(u: Table, p: nat, error: ExecError, change: Change, ctx: Context) {
    p < |u| && Typed(u, ctx.schema) && exists n :: ScanPage(u, p, 0, n, change, ctx) == Err(error)
  }

  /**
   DELETE and UPDATE, whole or page by page. On success the change has been carried out on every row
   from page `p` on, each at its old position and from the old row alone, and the count is the number
   of matching rows. On failure there is one page where it happened: the change has been carried out
   on the pages before it, and that page and all later ones are exactly as stored before. A row about
   to be cut short counts as a failure here; the source goes on.
   */
  lemma {:induction false} ScanMaps(t: Table, p: nat, count: nat, change: Change, ctx: Context) returns (failed: nat)
    requires p <= |t| && Typed(t, ctx.schema)
    ensures p <= failed <= |t|
    ensures Typed(ScanTable(t, p, count, change, ctx).0, ctx.schema)
    ensures Mapped(t, ScanTable(t, p, count, change, ctx).0, p, failed, change, ctx)
    ensures ScanTable(t, p, count, change, ctx).1.Ok? ==>
      failed == |t| && ScanTable(t, p, count, change, ctx).1.value == count + AllHits(t, p, change, ctx)
    ensures ScanTable(t, p, count, change, ctx).1.Err? ==>
      FailsOnPage(ScanTable(t, p, count, change, ctx).0, failed, ScanTable(t, p, count, change, ctx).1.error, change, ctx)
    decreases |t| - p
  {
    hide *;
    failed := p;
    if p < |t| && ScanPage(t, p, 0, count, change, ctx).Ok? {
      var next, n := ScanTableNext(t, p, count, change, ctx);
      ScanPageMaps(t, p, 0, count, change, ctx);
      failed := ScanMaps(next, p + 1, n, change, ctx);
      FirstPageMapped(t, next, p, n, count, change, ctx);
      MappedBoth(t, next, ScanTable(next, p + 1, n, change, ctx).0, p, failed, change, ctx);
    } else {
      ScanStops(t, p, count, change, ctx);
    }
  }

  lemma ScanTableNext(t: Table, p: nat, count: nat, change: Change, ctx: Context) returns (next: Table, n: nat)
    requires p < |t| && Typed(t, ctx.schema) && ScanPage(t, p, 0, count, change, ctx).Ok?
    ensures ScanPage(t, p, 0, count, change, ctx) == Ok((next, n))
    ensures |next| == |t| && Typed(next, ctx.schema)
    ensures ScanTable(t, p, count, change, ctx) == ScanTable(next, p + 1, n, change, ctx)
  {
    hide ScanPage, Typed;
    var scan := ScanPage(t, p, 0, count, change, ctx).value;
    next, n := scan.0, scan.1;
  }

  /** At the end of the table, or on the page that fails. */
  lemma ScanStops(t: Table, p: nat, count: nat, change: Change, ctx: Context)
    requires p <= |t| && Typed(t, ctx.schema)
    requires p < |t| ==> ScanPage(t, p, 0, count, change, ctx).Err?
    ensures ScanTable(t, p, count, change, ctx).0 == t
    ensures Mapped(t, t, p, p, change, ctx)
    ensures p == |t| ==> ScanTable(t, p, count, change, ctx).1 == Ok(count + AllHits(t, p, change, ctx))
    ensures p < |t| ==> ScanTable(t, p, count, change, ctx).1.Err?
    ensures p < |t| ==> FailsOnPage(t, p, ScanTable(t, p, count, change, ctx).1.error, change, ctx)
  {
    hide ScanPage, Typed;
  }

  lemma FirstPageMapped(t: Table, next: Table, p: nat, n: nat, count: nat, change: Change, ctx: Context)
    requires PageMapped(t, next, p, 0, change, ctx)
    requires n == count + Hits(t[p].rows[0..], change, ctx)
    ensures Mapped(t, next, p, p + 1, change, ctx)
    ensures n + AllHits(next, p + 1, change, ctx) == count + AllHits(t, p, change, ctx)
  {
    hide AllBecome, Hits;
    assert t[p].rows[0..] == t[p].rows && next[p].rows[0..] == next[p].rows;
    AllHitsLocal(t, next, p + 1, change, ctx);
  }

  lemma MappedBoth(t: Table, middle: Table, u: Table, p: nat, to: nat, change: Change, ctx: Context)
    requires p < |t| && p + 1 <= to
    requires Mapped(t, middle, p, p + 1, change, ctx) && Mapped(middle, u, p + 1, to, change, ctx)
    ensures Mapped(t, u, p, to, change, ctx)
  {
    hide AllBecome;
  }

  // DELETE is the complement of SELECT.

  lemma {:induction false} RemovedRows(rows: seq<Option<Row>>, after: seq<Option<Row>>, where: Option<Tree>, ctx: Context)
    requires AllBecome(rows, after, Removal(where), ctx)
    ensures PageRows(after) == Filter(PageRows(rows), where, TableEnv(ctx), false)
    ensures Hits(rows, Removal(where), ctx) == |Filter(PageRows(rows), where, TableEnv(ctx), true)|
  {
    hide Matches;
    if rows != [] {
      RemovedRows(rows[1..], after[1..], where, ctx);
      assert Becomes(rows[0], after[0], Removal(where), ctx);
      assert rows[0].Some? ==> PageRows(rows)[1..] == PageRows(rows[1..]);
    }
  }

  lemma {:induction false} RemovedFromTable(t: Table, u: Table, where: Option<Tree>, ctx: Context)
    requires |u| == |t| && forall q :: 0 <= q < |t| ==> AllBecome(t[q].rows, u[q].rows, Removal(where), ctx)
    ensures LiveRows(u) == Filter(LiveRows(t), where, TableEnv(ctx), false)
    ensures AllHits(t, 0, Removal(where), ctx) == |Filter(LiveRows(t), where, TableEnv(ctx), true)|
  {
    hide AllBecome, Filter, PageRows, Hits;
    var env := TableEnv(ctx);
    if t == [] {
      NothingFiltered(where, env);
    } else {
      RemovedRows(t[0].rows, u[0].rows, where, ctx);
      RemovedFromTable(t[1..], u[1..], where, ctx);
      FilterAppend(PageRows(t[0].rows), LiveRows(t[1..]), where, env, false);
      FilterAppend(PageRows(t[0].rows), LiveRows(t[1..]), where, env, true);
      AllHitsShift(t, 0, Removal(where), ctx);
    }
  }

  lemma NothingFiltered(where: Option<Tree>, env: Env)
    ensures Filter([], where, env, true) == Filter([], where, env, false) == []
  {
  }

  lemma {:induction false} AllHitsShift(t: Table, from: nat, change: Change, ctx: Context)
    requires t != [] && from < |t|
    ensures AllHits(t[1..], from, change, ctx) == AllHits(t, from + 1, change, ctx)
    decreases |t| - from
  {
    if from + 1 < |t| {
      AllHitsShift(t, from + 1, change, ctx);
    }
  }

  /** Both succeed, or both fail with the same error. */
  predicate SameFailure<T, U>(a: Result<T, ExecError>, b: Result<U, ExecError>) {
    a.Ok? == b.Ok? && (a.Err? ==> a.error == b.error)
  }

  lemma RemovalStepFails(t: Table, p: nat, s: nat, where: Option<Tree>, ctx: Context)
    requires IsCell(t, p, s) && Typed(t, ctx.schema)
    ensures var step := Step(t, p, s, Removal(where), ctx);
      var select := SelectRows(PageRows(t[p].rows[s..]), where, TableEnv(ctx));
      if step.Err? then select == Err(step.error)
      else step.value.0.rows[s + 1..] == t[p].rows[s + 1..]
           && SameFailure(select, SelectRows(PageRows(t[p].rows[s + 1..]), where, TableEnv(ctx)))
  {
    hide Matches, Typed;
    assert t[p].rows[s..][0] == t[p].rows[s] && t[p].rows[s..][1..] == t[p].rows[s + 1..];
    assert t[p].rows[s].Some? ==> PageRows(t[p].rows[s..])[1..] == PageRows(t[p].rows[s + 1..]);
  }

  /** DELETE's scan of a page meets the errors SELECT would meet on the page's rows, and no others. */
  lemma {:induction false} RemovalFailsAsSelect(t: Table, p: nat, s: nat, count: nat, where: Option<Tree>, ctx: Context)
    requires p < |t| && s <= |t[p].rows| && Typed(t, ctx.schema)
    ensures SameFailure(ScanPage(t, p, s, count, Removal(where), ctx),
                        SelectRows(PageRows(t[p].rows[s..]), where, TableEnv(ctx)))
    decreases |t[p].rows| - s
  {
    hide Typed, Step, Matches;
    if s < |t[p].rows| {
      hide SelectRows;
      RemovalStepFails(t, p, s, where, ctx);
      var step := Step(t, p, s, Removal(where), ctx);
      if step.Ok? {
        StepKeepsTyped(t, p, s, Removal(where), ctx);
        RemovalFailsAsSelect(t[p := step.value.0], p, s + 1, count + step.value.1, where, ctx);
      }
    }
  }

  lemma {:induction false} RemovalFailsAsSelectFrom(t: Table, p: nat, count: nat, where: Option<Tree>, ctx: Context)
    requires p <= |t| && Typed(t, ctx.schema)
    ensures SameFailure(ScanTable(t, p, count, Removal(where), ctx).1,
                        SelectRows(LiveRows(t[p..]), where, TableEnv(ctx)))
    decreases |t| - p
  {
    if p < |t| {
      assert t[p..][0] == t[p] && t[p..][1..] == t[p + 1..] && t[p].rows[0..] == t[p].rows;
      RemovalFailsAsSelect(t, p, 0, count, where, ctx);
      SelectAppend(PageRows(t[p].rows), LiveRows(t[p + 1..]), where, TableEnv(ctx));
      var scan := ScanPage(t, p, 0, count, Removal(where), ctx);
      if scan.Ok? {
        ScanPageMaps(t, p, 0, count, Removal(where), ctx);
        assert scan.value.0[p + 1..] == t[p + 1..];
        RemovalFailsAsSelectFrom(scan.value.0, p + 1, scan.value.1, where, ctx);
      }
    }
  }

  /**
   DELETE against SELECT with the same condition: it fails exactly when SELECT fails, with the same
   error; otherwise the rows left are the others in their order, their number dropped by exactly the
   reported count, and no surviving row or free byte moved.
   */
  lemma DeleteIsComplementOfSelect(t: Table, where: Option<Tree>, ctx: Context)
    requires Typed(t, ctx.schema)
    ensures SelectRows(LiveRows(t), where, TableEnv(ctx)).Err? ==>
      ScanTable(t, 0, 0, Removal(where), ctx).1 == Err(SelectRows(LiveRows(t), where, TableEnv(ctx)).error)
    ensures SelectRows(LiveRows(t), where, TableEnv(ctx)).Ok? ==>
      && ScanTable(t, 0, 0, Removal(where), ctx).1 == Ok(|SelectRows(LiveRows(t), where, TableEnv(ctx)).value|)
      && LiveRows(ScanTable(t, 0, 0, Removal(where), ctx).0) == Filter(LiveRows(t), where, TableEnv(ctx), false)
      && Mapped(t, ScanTable(t, 0, 0, Removal(where), ctx).0, 0, |t|, Removal(where), ctx)
  {
    assert t[0..] == t;
    RemovalFailsAsSelectFrom(t, 0, 0, where, ctx);
    SelectIsFilter(LiveRows(t), where, TableEnv(ctx));
    hide *;
    if ScanTable(t, 0, 0, Removal(where), ctx).1.Ok? {
      RowsLeft(t, where, ctx);
    }
  }

  lemma RowsLeft(t: Table, where: Option<Tree>, ctx: Context)
    requires Typed(t, ctx.schema) && ScanTable(t, 0, 0, Removal(where), ctx).1.Ok?
    ensures LiveRows(ScanTable(t, 0, 0, Removal(where), ctx).0) == Filter(LiveRows(t), where, TableEnv(ctx), false)
    ensures ScanTable(t, 0, 0, Removal(where), ctx).1.value == |Filter(LiveRows(t), where, TableEnv(ctx), true)|
    ensures Mapped(t, ScanTable(t, 0, 0, Removal(where), ctx).0, 0, |t|, Removal(where), ctx)
  {
    hide ScanTable, Filter, LiveRows, Typed, AllHits, AllBecome;
    var failed := ScanMaps(t, 0, 0, Removal(where), ctx);
    RemovedFromTable(t, ScanTable(t, 0, 0, Removal(where), ctx).0, where, ctx);
  }

  lemma {:induction false} FilterTwice(rows: seq<Row>, where: Option<Tree>, env: Env)
    ensures AllEvaluate(rows, where, env) ==> AllEvaluate(Filter(rows, where, env, false), where, env)
    ensures Filter(Filter(rows, where, env, false), where, env, true) == []
  {
    if rows != [] {
      FilterTwice(rows[1..], where, env);
      var rest := Filter(rows[1..], where, env, false);
      assert ([rows[0]] + rest)[1..] == rest;
      assert forall i | 0 < i < |rows| :: rows[i] == rows[1..][i - 1];
    }
  }

  /** Repeating a DELETE that succeeded removes no row. */
  lemma DeleteTwice(t: Table, where: Option<Tree>, ctx: Context)
    requires Typed(t, ctx.schema)
    requires ScanTable(t, 0, 0, Removal(where), ctx).1.Ok?
    ensures var u := ScanTable(t, 0, 0, Removal(where), ctx).0;
      Typed(u, ctx.schema) && ScanTable(u, 0, 0, Removal(where), ctx).1 == Ok(0)
  {
    var u := ScanTable(t, 0, 0, Removal(where), ctx).0;
    var _ := ScanMaps(t, 0, 0, Removal(where), ctx);
    DeleteIsComplementOfSelect(t, where, ctx);
    DeleteIsComplementOfSelect(u, where, ctx);
    SelectIsFilter(LiveRows(t), where, TableEnv(ctx));
    SelectIsFilter(LiveRows(u), where, TableEnv(ctx));
    FilterTwice(LiveRows(t), where, TableEnv(ctx));
  }

  // UPDATE is a map over the rows.

  /** Row by row, the UPDATE has been carried out: what did not match is kept, what matched is the assigned row. */
  ghost predicate RowsUpdated(before: seq<Row>, after: seq<Row>, change: Change, ctx: Context) {
    |after| == |before| && forall i :: 0 <= i < |before| ==> Becomes(Some(before[i]), Some(after[i]), change, ctx)
  }

  lemma RowsUpdatedBoth(a: seq<Row>, b: seq<Row>, c: seq<Row>, d: seq<Row>, change: Change, ctx: Context)
    requires RowsUpdated(a, b, change, ctx) && RowsUpdated(c, d, change, ctx)
    ensures RowsUpdated(a + c, b + d, change, ctx)
  {
    hide Becomes;
  }

  lemma {:induction false} UpdatedPage(rows: seq<Option<Row>>, after: seq<Option<Row>>, change: Change, ctx: Context)
    requires change.Assignment? && AllBecome(rows, after, change, ctx)
    ensures RowsUpdated(PageRows(rows), PageRows(after), change, ctx)
    ensures Hits(rows, change, ctx) == |Filter(PageRows(rows), change.where, TableEnv(ctx), true)|
  {
    if rows != [] {
      UpdatedPage(rows[1..], after[1..], change, ctx);
      assert Becomes(rows[0], after[0], change, ctx);
      if rows[0].Some? {
        assert RowsUpdated([rows[0].value], [after[0].value], change, ctx);
        hide Becomes, RowsUpdated, Hit;
        RowsUpdatedBoth([rows[0].value], [after[0].value], PageRows(rows[1..]), PageRows(after[1..]), change, ctx);
        assert PageRows(rows)[1..] == PageRows(rows[1..]);
      }
    }
  }

  lemma {:induction false} UpdatedTable(t: Table, u: Table, change: Change, ctx: Context)
    requires change.Assignment? && |u| == |t|
    requires forall q :: 0 <= q < |t| ==> AllBecome(t[q].rows, u[q].rows, change, ctx)
    ensures RowsUpdated(LiveRows(t), LiveRows(u), change, ctx)
    ensures AllHits(t, 0, change, ctx) == |Filter(LiveRows(t), change.where, TableEnv(ctx), true)|
  {
    hide AllBecome, Becomes, Filter, PageRows, Hits;
    if t == [] {
      assert LiveRows(t) == [] && LiveRows(u) == [];
      NothingFiltered(change.where, TableEnv(ctx));
    } else {
      UpdatedPage(t[0].rows, u[0].rows, change, ctx);
      UpdatedTable(t[1..], u[1..], change, ctx);
      hide RowsUpdated;
      RowsUpdatedBoth(PageRows(t[0].rows), PageRows(u[0].rows), LiveRows(t[1..]), LiveRows(u[1..]), change, ctx);
      FilterAppend(PageRows(t[0].rows), LiveRows(t[1..]), change.where, TableEnv(ctx), true);
      AllHitsShift(t, 0, change, ctx);
    }
  }

  /**
   UPDATE, when it succeeds: the condition evaluated on every row, as SELECT with it would show; every
   row that matched is now the row assigned from it, which exists and has an encoding, every other row
   is what it was, all in their order; and the count is the number of rows SELECT would have returned.
   */
  lemma UpdateIsMap(t: Table, assignments: seq<(Text, Tree)>, where: Option<Tree>, ctx: Context)
    requires Typed(t, ctx.schema) && ScanTable(t, 0, 0, Assignment(assignments, where), ctx).1.Ok?
    ensures var (u, count) := ScanTable(t, 0, 0, Assignment(assignments, where), ctx);
      var before, after, env := LiveRows(t), LiveRows(u), TableEnv(ctx);
      && SelectRows(before, where, env).Ok? && count.value == |SelectRows(before, where, env).value|
      && |after| == |before|
      && forall i :: 0 <= i < |before| ==>
           && |before[i]| == |ctx.schema| && Matches(where, env, before[i]).Ok?
           && (if Matches(where, env, before[i]).value
               then Assigned(before[i], before[i], assignments, env) == Ok(after[i]) && WellTyped(after[i], ctx.schema)
               else after[i] == before[i])
  {
    var change := Assignment(assignments, where);
    var u := ScanTable(t, 0, 0, change, ctx).0;
    var _ := ScanMaps(t, 0, 0, change, ctx);
    UpdatedTable(t, u, change, ctx);
    assert forall i | 0 <= i < |LiveRows(t)| :: Becomes(Some(LiveRows(t)[i]), Some(LiveRows(u)[i]), change, ctx);
    SelectIsFilter(LiveRows(t), where, TableEnv(ctx));
    hide ScanTable, Filter, LiveRows, Typed, AllHits, Mapped, SelectRows, Assigned, Matches, WellTyped;
  }

  // UPDATE assigns simultaneously.

  /** The position of the last assignment to column `i`. */
  function LastAssignment(assignments: seq<(Text, Tree)>, columns: seq<Text>, i: nat): (j: Option<nat>)
    ensures j.Some? ==> j.value < |assignments|
  {
    if assignments == [] then None
    else
      var last := |assignments| - 1;
      if IndexOf(columns, assignments[last].0) == Some(i) then Some(last)
      else LastAssignment(assignments[..last], columns, i)
  }

  lemma {:induction false} AssignedFails(before: Row, row: Row, assignments: seq<(Text, Tree)>, env: Env)
    requires |row| == |env.columns|
    ensures Assigned(before, row, assignments, env).Ok? <==>
      forall a :: a in assignments ==> a.0 in env.columns && Eval(a.1, env, before).Ok?
    decreases |assignments|
  {
    hide Eval;
    if assignments != [] {
      assert assignments == [assignments[0]] + assignments[1..];
      var i := IndexOf(env.columns, assignments[0].0);
      if i.Some? && Eval(assignments[0].1, env, before).Ok? {
        AssignedFails(before, row[i.value := Eval(assignments[0].1, env, before).value], assignments[1..], env);
      }
    }
  }

  lemma {:induction false} AssignedSplit(before: Row, row: Row, a: seq<(Text, Tree)>, b: seq<(Text, Tree)>, env: Env)
    requires |row| == |env.columns|
    ensures Assigned(before, row, a + b, env) ==
      if Assigned(before, row, a, env).Err? then Assigned(before, row, a, env)
      else Assigned(before, Assigned(before, row, a, env).value, b, env)
    decreases |a|
  {
    hide Eval;
    if a == [] {
      assert a + b == b;
    } else {
      assert (a + b)[1..] == a[1..] + b;
      var i := IndexOf(env.columns, a[0].0);
      if i.Some? && Eval(a[0].1, env, before).Ok? {
        AssignedSplit(before, row[i.value := Eval(a[0].1, env, before).value], a[1..], b, env);
      }
    }
  }

  /**
   The assignments of an UPDATE are simultaneous: column `i` of the new row is the value of the last
   expression assigned to it, evaluated on the old row, and the old value without one.
   */
  lemma {:induction false} AssignedSimultaneously(row: Row, assignments: seq<(Text, Tree)>, env: Env, i: nat)
    requires |row| == |env.columns| && i < |row|
    requires Assigned(row, row, assignments, env).Ok?
    ensures var updated := Assigned(row, row, assignments, env).value;
      match LastAssignment(assignments, env.columns, i)
      case None => updated[i] == row[i]
      case Some(j) => Eval(assignments[j].1, env, row) == Ok(updated[i])
    decreases |assignments|
  {
    if assignments != [] {
      hide Eval;
      var last := |assignments| - 1;
      var a := assignments[last];
      assert assignments == assignments[..last] + [a];
      AssignedSplit(row, row, assignments[..last], [a], env);
      AssignedSimultaneously(row, assignments[..last], env, i);
      AssignedOne(row, Assigned(row, row, assignments[..last], env).value, a, env);
    }
  }

  lemma AssignedOne(before: Row, row: Row, a: (Text, Tree), env: Env)
    requires |row| == |env.columns|
    ensures Assigned(before, row, [a], env).Ok? ==>
      && IndexOf(env.columns, a.0).Some? && Eval(a.1, env, before).Ok?
      && Assigned(before, row, [a], env).value == row[IndexOf(env.columns, a.0).value := Eval(a.1, env, before).value]
  {
    hide Eval;
    assert [a][1..] == [];
  }

  lemma {:induction false} NoAssignment(assignments: seq<(Text, Tree)>, columns: seq<Text>, i: nat)
    requires i < |columns|
    requires forall j :: 0 <= j < |assignments| ==> assignments[j].0 != columns[i]
    ensures LastAssignment(assignments, columns, i).None?
  {
    if assignments != [] {
      NoAssignment(assignments[..|assignments| - 1], columns, i);
    }
  }

  // Primary keys stay unique.

  /** An UPDATE that does not name the key column leaves the key alone. */
  lemma KeyUntouched(row: Row, assignments: seq<(Text, Tree)>, ctx: Context)
    requires |row| == |ctx.schema| && PrimaryKey(ctx.schema).Some?
    requires !AssignsKey(ctx, assignments)
    requires Assigned(row, row, assignments, TableEnv(ctx)).Ok?
    ensures var k := PrimaryKey(ctx.schema).value;
      Assigned(row, row, assignments, TableEnv(ctx)).value[k] == row[k]
  {
    var k := PrimaryKey(ctx.schema).value;
    NoAssignment(assignments, ColumnNames(ctx.schema), k);
    AssignedSimultaneously(row, assignments, TableEnv(ctx), k);
  }

  /** Putting a row whose key no other row holds into one cell. */
  lemma UniqueAfterPut(t: Table, u: Table, k: nat, p: nat, s: nat)
    requires UniqueKeys(t, k) && IsCell(u, p, s) && |t| <= |u|
    requires forall q, r :: IsLive(u, q, r) && (q, r) != (p, s) ==> IsLive(t, q, r) && u[q].rows[r] == t[q].rows[r]
    requires u[p].rows[s].Some? && k < |u[p].rows[s].value| ==>
      !KeyTaken(t, k, u[p].rows[s].value[k], Some((p, s)))
    ensures UniqueKeys(u, k)
  {
    forall q, r, v, w | IsLive(u, q, r) && IsLive(u, v, w) && (q, r) != (v, w) && k < |u[q].rows[r].value|
      ensures !HasKey(u[v].rows[w], k, u[q].rows[r].value[k])
    {
      if k < |u[v].rows[w].value| {
        ValueEqSymmetric(u[q].rows[r].value[k], u[v].rows[w].value[k]);
      }
      if (q, r) != (p, s) {
        assert IsLive(t, q, r) && u[q].rows[r] == t[q].rows[r];
      }
      if (v, w) != (p, s) {
        assert IsLive(t, v, w) && u[v].rows[w] == t[v].rows[w];
      }
    }
  }

  /** In a table with unique keys no other row has the key of a stored row. */
  lemma OwnKeyNotTaken(t: Table, k: nat, p: nat, s: nat)
    requires UniqueKeys(t, k) && IsLive(t, p, s) && k < |t[p].rows[s].value|
    ensures !KeyTaken(t, k, t[p].rows[s].value[k], Some((p, s)))
  {
  }

  lemma StepKeepsUnique(t: Table, p: nat, s: nat, change: Change, ctx: Context)
    requires IsCell(t, p, s) && Typed(t, ctx.schema) && Step(t, p, s, change, ctx).Ok?
    requires PrimaryKey(ctx.schema).Some? && UniqueKeys(t, PrimaryKey(ctx.schema).value)
    ensures UniqueKeys(t[p := Step(t, p, s, change, ctx).value.0], PrimaryKey(ctx.schema).value)
  {
    var k := PrimaryKey(ctx.schema).value;
    var page := Step(t, p, s, change, ctx).value.0;
    var u := t[p := page];
    StepKeepsTyped(t, p, s, change, ctx);
    StepMaps(t, p, s, change, ctx);
    if page == t[p] {
      assert u == t;
    } else {
      assert IsLive(t, p, s);
      var row := t[p].rows[s].value;
      assert WellTyped(row, ctx.schema);
      if change.Assignment? {
        NewKeyNotTaken(t, p, s, change, ctx);
      }
      hide Step, UniqueKeys, KeyTaken, Typed;
      UniqueAfterPut(t, u, k, p, s);
    }
  }

  lemma NewKeyNotTaken(t: Table, p: nat, s: nat, change: Change, ctx: Context)
    requires IsLive(t, p, s) && Typed(t, ctx.schema) && Step(t, p, s, change, ctx).Ok? && change.Assignment?
    requires PrimaryKey(ctx.schema).Some? && UniqueKeys(t, PrimaryKey(ctx.schema).value)
    requires Step(t, p, s, change, ctx).value.0 != t[p]
    ensures var k, page := PrimaryKey(ctx.schema).value, Step(t, p, s, change, ctx).value.0;
      page.rows[s].Some? && k < |page.rows[s].value| && !KeyTaken(t, k, page.rows[s].value[k], Some((p, s)))
  {
    var k, row := PrimaryKey(ctx.schema).value, t[p].rows[s].value;
    assert WellTyped(row, ctx.schema);
    OwnKeyNotTaken(t, k, p, s);
    hide *;
    var updated := UpdatedRow(t, p, s, change, ctx);
    if !AssignsKey(ctx, change.assignments) {
      KeyUntouched(row, change.assignments, ctx);
    }
  }

  /** The row an UPDATE that changed a page wrote there, and the check it passed. */
  lemma UpdatedRow(t: Table, p: nat, s: nat, change: Change, ctx: Context) returns (updated: Row)
    requires IsLive(t, p, s) && Typed(t, ctx.schema) && Step(t, p, s, change, ctx).Ok? && change.Assignment?
    requires PrimaryKey(ctx.schema).Some? && Step(t, p, s, change, ctx).value.0 != t[p]
    ensures |t[p].rows[s].value| == |ctx.schema| == |updated| == |ColumnNames(ctx.schema)|
    ensures s < |Step(t, p, s, change, ctx).value.0.rows|
    ensures Step(t, p, s, change, ctx).value.0.rows[s] == Some(updated)
    ensures Assigned(t[p].rows[s].value, t[p].rows[s].value, change.assignments, TableEnv(ctx)) == Ok(updated)
    ensures AssignsKey(ctx, change.assignments) ==>
      !KeyTaken(t, PrimaryKey(ctx.schema).value, updated[PrimaryKey(ctx.schema).value], Some((p, s)))
  {
    var row := t[p].rows[s].value;
    assert WellTyped(row, ctx.schema);
    hide KeyTaken, Typed, AssignsKey, Serialized, Matches, WellTyped, PrimaryKey, Replace, RowSize;
    ReplaceAny(t[p], s);
    updated := Assigned(row, row, change.assignments, TableEnv(ctx)).value;
  }

  lemma {:induction false} ScanPageKeepsUnique(t: Table, p: nat, s: nat, count: nat, change: Change, ctx: Context)
    requires p < |t| && s <= |t[p].rows| && Typed(t, ctx.schema) && ScanPage(t, p, s, count, change, ctx).Ok?
    requires PrimaryKey(ctx.schema).Some? && UniqueKeys(t, PrimaryKey(ctx.schema).value)
    ensures UniqueKeys(ScanPage(t, p, s, count, change, ctx).value.0, PrimaryKey(ctx.schema).value)
    decreases |t[p].rows| - s
  {
    hide *;
    if s == |t[p].rows| {
      PageEnds(t, p, count, change, ctx);
    } else {
      var next, page, n := ScanPageNext(t, p, s, count, change, ctx);
      StepKeepsUnique(t, p, s, change, ctx);
      ScanPageKeepsUnique(next, p, s + 1, count + n, change, ctx);
    }
  }

  /** Also when the statement stops half-way, or before a row is cut short: what is stored then has unique keys. */
  lemma {:induction false} ScanKeepsUnique(t: Table, p: nat, count: nat, change: Change, ctx: Context)
    requires p <= |t| && Typed(t, ctx.schema)
    requires PrimaryKey(ctx.schema).Some? && UniqueKeys(t, PrimaryKey(ctx.schema).value)
    ensures UniqueKeys(ScanTable(t, p, count, change, ctx).0, PrimaryKey(ctx.schema).value)
    decreases |t| - p
  {
    if p < |t| {
      hide UniqueKeys;
      var scan := ScanPage(t, p, 0, count, change, ctx);
      if scan.Ok? {
        ScanPageKeepsUnique(t, p, 0, count, change, ctx);
        ScanKeepsUnique(scan.value.0, p + 1, scan.value.1, change, ctx);
      }
    }
  }

  // INSERT is first-fit.

  /** A page with one more row at its end. */
  ghost predicate RowAppended(t: Table, u: Table, p: nat, row: Row, size: nat) {
    && p < |t| == |u|
    && t[p].free >= size + SLOT_COST
    && (forall q :: 0 <= q < p ==> t[q].free < size + SLOT_COST)
    && u == t[p := TablePage(t[p].rows + [Some(row)], t[p].free - size - SLOT_COST)]
  }

  /** A page has room for a slot, with no bytes. */
  ghost predicate SlotFree(t: Table) {
    exists q :: 0 <= q < |t| && t[q].free >= SLOT_COST
  }

  /**
   INSERT of a row that passed the key check, by the size of its encoding. The source reports success
   exactly when the 16-bit length is one of 1 to 4076, and the row is stored exactly when that length
   is also the size: as the new last slot of the lowest-numbered page with room for it, or the only
   slot of one new page when no page has room. A row the source refuses adds one empty page, unless
   its length is 0 and some page has room for a slot, when nothing changes.
   */
  lemma StoreIsFirstFit(t: Table, row: Row, size: nat)
    requires Spaced(t)
    ensures var (u, r) := Store(t, row, size);
      && (r == Ok(()) <==> PageTakes(size) && size < 0x1_0000)
      && (r == Err(RowCut) <==> PageTakes(size) && size >= 0x1_0000)
      && (r.Ok? ==>
            || (exists p: nat :: RowAppended(t, u, p, row, size))
            || ((forall q :: 0 <= q < |t| ==> t[q].free < size + SLOT_COST)
                && u == t + [TablePage([Some(row)], FRESH_SPACE - size - SLOT_COST)]))
      && (r == Err(RowCut) ==> u == t)
      && (!PageTakes(size) ==> r == Err(InternalError))
      && (!PageTakes(size) ==> u == if Cast16(size) == 0 && SlotFree(t) then t else t + [TablePage([], FRESH_SPACE)])
  {
    var fit := FirstFit(t, Cast16(size) + SLOT_COST);
    if fit.Some? && PageTakes(size) && size < 0x1_0000 {
      assert RowAppended(t, Store(t, row, size).0, fit.value, row, size);
    }
  }

  lemma {:induction false} LiveRowsAppend(a: Table, b: Table)
    ensures LiveRows(a + b) == LiveRows(a) + LiveRows(b)
  {
    if a == [] {
      assert a + b == b;
      assert [] + LiveRows(b) == LiveRows(b);
    } else {
      assert (a + b)[1..] == a[1..] + b;
      LiveRowsAppend(a[1..], b);
      assert PageRows(a[0].rows) + LiveRows(a[1..]) + LiveRows(b) == PageRows(a[0].rows) + (LiveRows(a[1..]) + LiveRows(b));
    }
  }

  lemma {:induction false} PageRowsSnoc(rows: seq<Option<Row>>, row: Row)
    ensures PageRows(rows + [Some(row)]) == PageRows(rows) + [row]
  {
    if rows == [] {
      assert rows + [Some(row)] == [Some(row)];
    } else {
      assert (rows + [Some(row)])[1..] == rows[1..] + [Some(row)];
      PageRowsSnoc(rows[1..], row);
    }
  }

  lemma LiveRowsOfOne(page: TablePage)
    ensures LiveRows([page]) == PageRows(page.rows)
  {
    assert [page][1..] == [];
    assert PageRows(page.rows) + [] == PageRows(page.rows);
  }

  /** A successful INSERT adds exactly its row to the table, and a failed one none. */
  lemma StoreAddsOneRow(t: Table, row: Row, size: nat)
    ensures Store(t, row, size).1.Ok? ==>
      multiset(LiveRows(Store(t, row, size).0)) == multiset(LiveRows(t)) + multiset{row}
    ensures Store(t, row, size).1.Err? ==> LiveRows(Store(t, row, size).0) == LiveRows(t)
  {
    hide LiveRows, Cast16;
    NewPageRows(t, TablePage([], FRESH_SPACE));
    var (u, r) := Store(t, row, size);
    var fit := FirstFit(t, Cast16(size) + SLOT_COST);
    hide FirstFit, Store;
    if r.Ok? && fit.None? {
      NewPageRows(t, TablePage([Some(row)], FRESH_SPACE - size - SLOT_COST));
      OneRowPage(row);
      assert multiset(LiveRows(t) + [row]) == multiset(LiveRows(t)) + multiset{row};
    } else if r.Ok? {
      AppendedRows(t, fit.value, row, t[fit.value].free - size - SLOT_COST);
    } else {
      assert LiveRows(t) + [] == LiveRows(t);
    }
  }

  lemma NewPageRows(t: Table, page: TablePage)
    ensures LiveRows(t + [page]) == LiveRows(t) + PageRows(page.rows)
  {
    LiveRowsAppend(t, [page]);
    LiveRowsOfOne(page);
  }

  lemma OneRowPage(row: Row)
    ensures PageRows([Some(row)]) == [row]
  {
    assert [Some(row)][1..] == [];
  }

  lemma AppendedRows(t: Table, p: nat, row: Row, free: nat)
    requires p < |t|
    ensures multiset(LiveRows(t[p := TablePage(t[p].rows + [Some(row)], free)])) == multiset(LiveRows(t)) + multiset{row}
  {
    var page := TablePage(t[p].rows + [Some(row)], free);
    var before, after := t[..p], t[p + 1..];
    assert t == before + ([t[p]] + after);
    assert t[p := page] == before + ([page] + after);
    LiveRowsAppend(before, [t[p]] + after);
    LiveRowsAppend([t[p]], after);
    LiveRowsAppend(before, [page] + after);
    LiveRowsAppend([page], after);
    LiveRowsOfOne(page);
    LiveRowsOfOne(t[p]);
    PageRowsSnoc(t[p].rows, row);
  }

  /**
   When an INSERT of a row succeeds: exactly when no stored row has its key, every value has its
   column's type and size, and the 16-bit length of the encoding is one of 1 to 4076. What is stored
   then is the row, except exactly when the encoding has 65536 bytes or more. Otherwise the rows stay
   what they were.
   */
  lemma InsertSucceedsIff(t: Table, ctx: Context, row: Row)
    requires |row| == |ctx.schema| && Spaced(t)
    ensures var k, (u, r) := PrimaryKey(ctx.schema), InsertMeaning(t, ctx, row);
      && (r == Ok(()) || r == Err(RowCut) <==>
            && (k.None? || !KeyTaken(t, k.value, row[k.value], None))
            && WellTyped(row, ctx.schema)
            && PageTakes(RowSize(row)))
      && (r == Ok(()) ==> RowSize(row) < 0x1_0000 && multiset(LiveRows(u)) == multiset(LiveRows(t)) + multiset{row})
      && (r == Err(RowCut) ==> RowSize(row) >= 0x1_0000)
      && (r.Err? ==> LiveRows(u) == LiveRows(t))
  {
    SerializedIffWellTyped(row, ctx.schema);
    SerializedSize(row, ctx.schema);
    hide WellTyped, KeyTaken, Serialized, LiveRows, Store, RowSize, PrimaryKey, RowAppended, Cast16;
    StoreIsFirstFit(t, row, RowSize(row));
    StoreAddsOneRow(t, row, RowSize(row));
  }

  lemma SerializedSize(row: Row, schema: Schema)
    ensures Serialized(row, schema).Ok? ==> |Serialized(row, schema).value| == RowSize(row)
  {
    hide WellTyped, TextError;
  }

  lemma NewKeyNotThere(t: Table, k: nat, v: Value, p: nat, s: nat)
    requires !KeyTaken(t, k, v, None)
    ensures !KeyTaken(t, k, v, Some((p, s)))
  {
  }

  /** An INSERT, refused or not, as long as it does not cut its row. */
  lemma InsertKeepsUnique(t: Table, ctx: Context, row: Row)
    requires |row| == |ctx.schema|
    requires PrimaryKey(ctx.schema).Some? && UniqueKeys(t, PrimaryKey(ctx.schema).value)
    ensures UniqueKeys(InsertMeaning(t, ctx, row).0, PrimaryKey(ctx.schema).value)
  {
    var k := PrimaryKey(ctx.schema).value;
    hide UniqueKeys, KeyTaken, Serialized;
    if !KeyTaken(t, k, row[k], None) && Serialized(row, ctx.schema).Ok? {
      StoreKeepsUnique(t, row, |Serialized(row, ctx.schema).value|, k);
    }
  }

  lemma StoreKeepsUnique(t: Table, row: Row, size: nat, k: nat)
    requires UniqueKeys(t, k) && k < |row| && !KeyTaken(t, k, row[k], None)
    ensures UniqueKeys(Store(t, row, size).0, k)
  {
    var u := Store(t, row, size).0;
    var fit := FirstFit(t, Cast16(size) + SLOT_COST);
    var p := if fit.Some? then fit.value else |t|;
    var s := if fit.Some? then |t[p].rows| else 0;
    NewKeyNotThere(t, k, row[k], p, s);
    hide UniqueKeys, KeyTaken;
    if u == t + [TablePage([], FRESH_SPACE)] {
      EmptyPageKeepsUnique(t, u, k);
    } else if u != t {
      UniqueAfterPut(t, u, k, p, s);
    }
  }

  lemma EmptyPageKeepsUnique(t: Table, u: Table, k: nat)
    requires UniqueKeys(t, k) && u == t + [TablePage([], FRESH_SPACE)]
    ensures UniqueKeys(u, k)
  {
    forall p, s | IsLive(u, p, s)
      ensures IsLive(t, p, s) && u[p] == t[p]
    {
    }
  }

  lemma InsertKeepsTyped(t: Table, ctx: Context, row: Row)
    requires |row| == |ctx.schema| && Typed(t, ctx.schema)
    ensures Typed(InsertMeaning(t, ctx, row).0, ctx.schema)
  {
    SerializedIffWellTyped(row, ctx.schema);
    hide WellTyped, KeyTaken, Serialized;
    var u := InsertMeaning(t, ctx, row).0;
    forall p, s | IsLive(u, p, s)
      ensures WellTyped(u[p].rows[s].value, ctx.schema)
    {
      assert IsLive(t, p, s) || u[p].rows[s] == Some(row);
    }
  }
}
