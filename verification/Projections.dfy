/**
 SELECT with a column list: its WHERE clause is resolved against the selected names while rows keep
 all their columns. When that still means what the schema's names mean, exactly.
 */
module Projections {
  import opened Values
  import opened Expressions
  import opened Evaluator
  import opened RowCodec
  import opened Relation
  import opened Wrappers

  /** The cell a name reads from a row of `width` values. */
  function Position(names: seq<Text>, name: Text, width: nat): (i: Option<nat>)
    ensures i.Some? ==> i.value < width && i.value < |names| && names[i.value] == name
  {
    match IndexOf(names, name)
    case Some(i) => if i < width then Some(i) else None
    case None => None
  }

  /** The columns a condition names, without a table prefix. */
  function NamesIn(t: Tree): set<Text> {
    match t
    case Tip(a) => if a.ColumnRef? && a.prefix == "" then {a.name} else {}
    case Node(_, l, r) => NamesIn(l) + NamesIn(r)
    case Prefix(_, x) => NamesIn(x)
  }

  ghost predicate SamePositions(used: set<Text>, names: seq<Text>, other: seq<Text>, width: nat) {
    forall name :: name in used ==> Position(names, name, width) == Position(other, name, width)
  }

  lemma {:induction false} SameValue(t: Tree, names: seq<Text>, other: seq<Text>, floats: FloatArith, row: Row)
    requires SamePositions(NamesIn(t), names, other, |row|)
    ensures Eval(t, Env(names, floats), row) == Eval(t, Env(other, floats), row)
  {
    hide Position;
    match t
    case Tip(a) => SameCell(a, names, other, floats, row);
    case Node(_, l, r) =>
      SameValue(l, names, other, floats, row);
      SameValue(r, names, other, floats, row);
    case Prefix(_, x) => SameValue(x, names, other, floats, row);
  }

  lemma SameCell(a: Atom, names: seq<Text>, other: seq<Text>, floats: FloatArith, row: Row)
    requires SamePositions(NamesIn(Tip(a)), names, other, |row|)
    ensures EvalAtom(a, Env(names, floats), row) == EvalAtom(a, Env(other, floats), row)
  {
    if a.ColumnRef? && a.prefix == "" {
      assert a.name in NamesIn(Tip(a));
    }
  }

  /** One condition: safe when the names in it read the same cells by both lists, whatever other names do. */
  lemma {:induction false} SameTruth(t: Tree, names: seq<Text>, other: seq<Text>, floats: FloatArith, row: Row)
    requires SamePositions(NamesIn(t), names, other, |row|)
    ensures Holds(t, Env(names, floats), row) == Holds(t, Env(other, floats), row)
  {
    hide Position, Eval;
    if t.Node? {
      SameTruth(t.left, names, other, floats, row);
      SameTruth(t.right, names, other, floats, row);
      SameValue(t.left, names, other, floats, row);
      SameValue(t.right, names, other, floats, row);
    }
  }

  /** One query: it selects what it would select by the schema's names. */
  lemma {:induction false} SelectsBySchema(rows: seq<Row>, where: Option<Tree>, names: seq<Text>, schema: Schema,
                                           floats: FloatArith)
    requires forall i :: 0 <= i < |rows| ==> WellTyped(rows[i], schema)
    requires where.Some? ==> SamePositions(NamesIn(where.value), names, ColumnNames(schema), |schema|)
    ensures SelectRows(rows, where, Env(names, floats)) == SelectRows(rows, where, Env(ColumnNames(schema), floats))
  {
    hide SamePositions, Holds, NamesIn;
    if rows != [] {
      SelectsBySchema(rows[1..], where, names, schema, floats);
      if where.Some? {
        SameTruth(where.value, names, ColumnNames(schema), floats, rows[0]);
      }
    }
  }

  function PlainValue(t: DataType): Value {
    match t
    case INTEGER => Int(0)
    case FLOAT => Flt(0)
    case TEXT => Str("")
    case BOOLEAN => Bool(false)
  }

  /** NULL in one cell, and some value of its type in every other. */
  function NullAt(schema: Schema, i: nat): (row: Row)
    ensures WellTyped(row, schema)
    ensures forall k :: 0 <= k < |row| ==> (row[k] == Null <==> k == i)
  {
    seq(|schema|, k requires 0 <= k < |schema| => if k == i then Null else PlainValue(schema[k].dataType))
  }

  /** A name that reads different cells: `name = NULL` tells the two lists apart on a row of the schema. */
  lemma ToldApart(names: seq<Text>, other: seq<Text>, schema: Schema, name: Text, floats: FloatArith)
    returns (t: Tree, row: Row)
    requires Position(names, name, |schema|) != Position(other, name, |schema|)
    ensures NamesIn(t) == {name} && WellTyped(row, schema)
    ensures Holds(t, Env(names, floats), row) != Holds(t, Env(other, floats), row)
  {
    t := Node(EQUAL, Tip(ColumnRef("", name)), Tip(LiteralNull));
    var i, j := Position(names, name, |schema|), Position(other, name, |schema|);
    row := NullAt(schema, if i.Some? then i.value else j.value);
    hide WellTyped, NullAt;
  }

  ghost predicate SameMeaning(names: seq<Text>, schema: Schema, floats: FloatArith) {
    forall t, row :: WellTyped(row, schema) ==>
      Holds(t, Env(names, floats), row) == Holds(t, Env(ColumnNames(schema), floats), row)
  }

  /**
   Every condition means the same under the selected names as under the schema's names, on all rows a
   table of the schema can hold, if and only if every name in either list reads the same cell by both:
   so it does when the list starts with all columns in their order, but not for most others.
   */
  lemma ColumnListIff(names: seq<Text>, schema: Schema, floats: FloatArith)
    ensures SameMeaning(names, schema, floats) <==>
      SamePositions((set name | name in names) + (set name | name in ColumnNames(schema)),
                    names, ColumnNames(schema), |schema|)
  {
    var columns := ColumnNames(schema);
    var used := (set name | name in names) + (set name | name in columns);
    if SamePositions(used, names, columns, |schema|) {
      forall t, row | WellTyped(row, schema)
        ensures Holds(t, Env(names, floats), row) == Holds(t, Env(columns, floats), row)
      {
        UnusedNamesAgree(names, columns, |schema|, NamesIn(t));
        SameTruth(t, names, columns, floats, row);
      }
    } else {
      var name :| name in used && Position(names, name, |schema|) != Position(columns, name, |schema|);
      var t, row := ToldApart(names, columns, schema, name, floats);
    }
  }

  /** A name in neither list is not found by either. */
  lemma UnusedNamesAgree(names: seq<Text>, other: seq<Text>, width: nat, used: set<Text>)
    requires SamePositions((set name | name in names) + (set name | name in other), names, other, width)
    ensures SamePositions(used, names, other, width)
  {
  }

  /** `SELECT b FROM t WHERE b = 1` on columns a and b returns the row (1, 2). */
  lemma SelectedNameReadsFirstColumn(floats: FloatArith)
    ensures var where := Node(EQUAL, Tip(ColumnRef("", "b")), Tip(LiteralInt(1)));
      && SelectRows([[Int(1), Int(2)]], Some(where), Env(["b"], floats)) == Ok([[Int(1), Int(2)]])
      && SelectRows([[Int(1), Int(2)]], Some(where), Env(["a", "b"], floats)) == Ok([])
  {
    var row: Row := [Int(1), Int(2)];
    var where := Node(EQUAL, Tip(ColumnRef("", "b")), Tip(LiteralInt(1)));
    assert [row][1..] == [];
    assert IndexOf(["b"], "b") == Some(0) && IndexOf(["a", "b"], "b") == Some(1);
    assert SelectRows([], Some(where), Env(["b"], floats)) == Ok([]) && [row] + [] == [row];
  }
}
