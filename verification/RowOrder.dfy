/** The rows of a table in (page, slot) order, said by positions. */
module RowOrder {
  import opened Values
  import opened Relation
  import opened Wrappers

  predicate Earlier(a: (nat, nat), b: (nat, nat)) { a.0 < b.0 || (a.0 == b.0 && a.1 < b.1) }

  /** The slots are those of the rows from `s` on, in increasing order. */
  ghost predicate SlotsOf(slots: seq<nat>, cells: seq<Option<Row>>, s: nat, rows: seq<Row>) {
    && |slots| == |rows|
    && (forall i :: 0 <= i < |slots| ==> s <= slots[i] < |cells| && cells[slots[i]] == Some(rows[i]))
    && (forall i, j :: 0 <= i < j < |slots| ==> slots[i] < slots[j])
    && forall r :: s <= r < |cells| && cells[r].Some? ==> r in slots
  }

  lemma {:induction false} SlotsInOrder(cells: seq<Option<Row>>, s: nat) returns (slots: seq<nat>)
    requires s <= |cells|
    ensures SlotsOf(slots, cells, s, PageRows(cells[s..]))
    decreases |cells| - s
  {
    slots := [];
    if s < |cells| {
      assert cells[s..][1..] == cells[s + 1..];
      slots := SlotsInOrder(cells, s + 1);
      if cells[s].Some? {
        slots := [s] + slots;
      }
    }
  }

  /** The positions are those of the live rows from page `p` on, each once, and each earlier than the next ones. */
  ghost predicate PositionsOf(at: seq<(nat, nat)>, t: Table, p: nat, rows: seq<Row>) {
    && |at| == |rows|
    && (forall i :: 0 <= i < |at| ==> p <= at[i].0 && IsLive(t, at[i].0, at[i].1) && t[at[i].0].rows[at[i].1] == Some(rows[i]))
    && (forall i, j :: 0 <= i < j < |at| ==> Earlier(at[i], at[j]))
    && forall q, r :: p <= q && IsLive(t, q, r) ==> (q, r) in at
  }

  lemma OnPage(slots: seq<nat>, t: Table, p: nat, rows: seq<Row>) returns (at: seq<(nat, nat)>)
    requires p < |t| && SlotsOf(slots, t[p].rows, 0, rows)
    ensures PositionsOf(at, t[..p + 1], p, rows)
  {
    at := seq(|slots|, i requires 0 <= i < |slots| => (p, slots[i]));
    forall q, r | p <= q && IsLive(t[..p + 1], q, r)
      ensures (q, r) in at
    {
      var i :| 0 <= i < |slots| && slots[i] == r;
      assert at[i] == (q, r);
    }
  }

  lemma PageAndRest(a: seq<(nat, nat)>, b: seq<(nat, nat)>, t: Table, p: nat, rows: seq<Row>, rest: seq<Row>)
    requires p < |t| && PositionsOf(a, t[..p + 1], p, rows) && PositionsOf(b, t, p + 1, rest)
    ensures PositionsOf(a + b, t, p, rows + rest)
  {
    forall q, r | p <= q && IsLive(t, q, r)
      ensures (q, r) in a + b
    {
      if q == p {
        assert IsLive(t[..p + 1], q, r);
      }
    }
    forall i | 0 <= i < |a|
      ensures a[i].0 == p && IsLive(t, p, a[i].1) && t[p].rows[a[i].1] == Some(rows[i])
    {
    }
  }

  /** Every live row of the table stands in the list once, and the rows stand in (page, slot) order. */
  lemma {:induction false} LiveRowsInOrder(t: Table, p: nat) returns (at: seq<(nat, nat)>)
    requires p <= |t|
    ensures PositionsOf(at, t, p, LiveRows(t[p..]))
    decreases |t| - p
  {
    if p == |t| {
      at := [];
    } else {
      assert t[p..][0] == t[p] && t[p..][1..] == t[p + 1..] && t[p].rows[0..] == t[p].rows;
      var rest := LiveRowsInOrder(t, p + 1);
      var slots := SlotsInOrder(t[p].rows, 0);
      var here := OnPage(slots, t, p, PageRows(t[p].rows));
      hide PositionsOf, SlotsOf;
      PageAndRest(here, rest, t, p, PageRows(t[p].rows), LiveRows(t[p + 1..]));
      at := here + rest;
    }
  }
}
