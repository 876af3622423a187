/** Statements as the parser returns them, with indices into the arena, and as queries over trees. */
module Statements {
  import opened Values
  import opened Expressions
  import opened Wrappers

  /** `where` is -1 without a WHERE clause; no columns mean `SELECT *`; no names mean all columns. */
  datatype Statement =
    | Select(columns: seq<nat>, table: Text, where: int)
    | SelectWithoutFrom(columns: seq<nat>)
    | Insert(table: Text, names: seq<Text>, values: seq<nat>)
    | Delete(table: Text, where: int)
    | Update(table: Text, assignments: seq<(Text, nat)>, where: int)

  datatype ParseResult = ParseResult(expressions: Arena, statement: Statement)

  datatype Query =
    | SelectQuery(columns: seq<Tree>, table: Text, where: Option<Tree>)
    | ValuesQuery(columns: seq<Tree>)
    | InsertQuery(table: Text, names: seq<Text>, values: seq<Tree>)
    | DeleteQuery(table: Text, where: Option<Tree>)
    | UpdateQuery(table: Text, assignments: seq<(Text, Tree)>, where: Option<Tree>)

  predicate IndicesInside(indices: seq<nat>, arena: Arena) {
    forall k :: 0 <= k < |indices| ==> indices[k] < |arena|
  }

  predicate WhereInside(where: int, arena: Arena) { -1 <= where < |arena| }

  predicate AssignmentsInside(assignments: seq<(Text, nat)>, arena: Arena) {
    forall k :: 0 <= k < |assignments| ==> assignments[k].1 < |arena|
  }

  /** Every index a statement uses is an index of its arena. */
  predicate Linked(p: ParseResult) {
    && ChildrenFirst(p.expressions)
    && match p.statement
       case Select(columns, _, where) => IndicesInside(columns, p.expressions) && WhereInside(where, p.expressions)
       case SelectWithoutFrom(columns) => IndicesInside(columns, p.expressions)
       case Insert(_, _, values) => IndicesInside(values, p.expressions)
       case Delete(_, where) => WhereInside(where, p.expressions)
       case Update(_, assignments, where) =>
         AssignmentsInside(assignments, p.expressions) && WhereInside(where, p.expressions)
  }

  function TreesAt(arena: Arena, indices: seq<nat>): (trees: seq<Tree>)
    requires ChildrenFirst(arena) && IndicesInside(indices, arena)
    ensures |trees| == |indices|
    ensures forall k :: 0 <= k < |trees| ==> trees[k] == TreeAt(arena, indices[k])
  {
    seq(|indices|, k requires 0 <= k < |indices| => TreeAt(arena, indices[k]))
  }

  function WhereAt(arena: Arena, where: int): Option<Tree>
    requires ChildrenFirst(arena) && WhereInside(where, arena)
  {
    if where == -1 then None else Some(TreeAt(arena, where))
  }

  function AssignmentsAt(arena: Arena, assignments: seq<(Text, nat)>): (trees: seq<(Text, Tree)>)
    requires ChildrenFirst(arena) && AssignmentsInside(assignments, arena)
    ensures |trees| == |assignments|
    ensures forall k :: 0 <= k < |trees| ==> trees[k] == (assignments[k].0, TreeAt(arena, assignments[k].1))
  {
    seq(|assignments|, k requires 0 <= k < |assignments| => (assignments[k].0, TreeAt(arena, assignments[k].1)))
  }

  function QueryOf(p: ParseResult): Query
    requires Linked(p)
  {
    match p.statement
    case Select(columns, table, where) =>
      SelectQuery(TreesAt(p.expressions, columns), table, WhereAt(p.expressions, where))
    case SelectWithoutFrom(columns) => ValuesQuery(TreesAt(p.expressions, columns))
    case Insert(table, names, values) => InsertQuery(table, names, TreesAt(p.expressions, values))
    case Delete(table, where) => DeleteQuery(table, WhereAt(p.expressions, where))
    case Update(table, assignments, where) =>
      UpdateQuery(table, AssignmentsAt(p.expressions, assignments), WhereAt(p.expressions, where))
  }

  /** Reading on does not change what earlier indices stand for. */
  ghost predicate Grown(arena: Arena, all: Arena) {
    arena <= all && ChildrenFirst(all) && ChildrenFirst(arena)
  }

  lemma TreesAtGrows(arena: Arena, all: Arena, indices: seq<nat>)
    requires Grown(arena, all) && IndicesInside(indices, arena)
    ensures IndicesInside(indices, all) && TreesAt(all, indices) == TreesAt(arena, indices)
  {
    forall k | 0 <= k < |indices|
      ensures TreeAt(all, indices[k]) == TreeAt(arena, indices[k])
    {
      TreeAtGrows(arena, all, indices[k]);
    }
  }

  lemma AssignmentsAtGrows(arena: Arena, all: Arena, assignments: seq<(Text, nat)>)
    requires Grown(arena, all) && AssignmentsInside(assignments, arena)
    ensures AssignmentsInside(assignments, all)
    ensures AssignmentsAt(all, assignments) == AssignmentsAt(arena, assignments)
  {
    forall k | 0 <= k < |assignments|
      ensures TreeAt(all, assignments[k].1) == TreeAt(arena, assignments[k].1)
    {
      TreeAtGrows(arena, all, assignments[k].1);
    }
  }
}
