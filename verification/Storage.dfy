/**
 What the bytes of a table file stand for: every live slot of a data page holds the encoding of
 exactly one row, and page 0 is empty.
 */
module Storage {
  import opened Bytes
  import opened PageImage
  import opened PageViews
  import opened Values
  import opened Evaluator
  import opened RowCodec
  import opened Relation
  import opened Wrappers

  /** `b` is the encoding of a row of the schema. */
  ghost predicate Encoded(b: seq<byte>, schema: Schema) {
    && Decode(b, schema).Some?
    && var row := Decode(b, schema).value.0;
       WellTyped(row, schema) && TextsFit(row) && Padded(row) == b
  }

  ghost predicate SlotOk(s: Slot, schema: Schema) {
    s.Live? ==> Encoded(s.bytes, schema)
  }

  ghost function CellOf(s: Slot, schema: Schema): Option<Row>
    requires SlotOk(s, schema)
  {
    match s
    case Deleted => None
    case Live(b) => Some(Decode(b, schema).value.0)
  }

  ghost predicate ViewOk(v: View, schema: Schema) {
    && v.free <= FRESH_SPACE
    && forall i :: 0 <= i < |v.slots| ==> SlotOk(v.slots[i], schema)
  }

  ghost function PageOf(v: View, schema: Schema): (page: TablePage)
    requires ViewOk(v, schema)
    ensures |page.rows| == |v.slots| && page.free == v.free
    ensures forall i :: 0 <= i < |v.slots| ==> page.rows[i] == CellOf(v.slots[i], schema)
  {
    TablePage(seq(|v.slots|, i requires 0 <= i < |v.slots| => CellOf(v.slots[i], schema)), v.free)
  }

  ghost predicate ImageOk(d: Image, schema: Schema) {
    WellFormed(d) && ViewOk(ViewOf(d), schema)
  }

  ghost predicate FileOk(pages: seq<Image>, schema: Schema) {
    && |pages| > 0
    && (forall p :: 0 <= p < |pages| ==> ImageOk(pages[p], schema))
    && ViewOf(pages[0]) == EmptyView
  }

  /** The rows of the data pages, which start at page 1 of the file. */
  ghost function TableOf(pages: seq<Image>, schema: Schema): (t: Table)
    requires FileOk(pages, schema)
    ensures |t| == |pages| - 1
    ensures forall p :: 0 <= p < |t| ==> t[p] == PageOf(ViewOf(pages[p + 1]), schema)
  {
    seq(|pages| - 1, p requires 0 <= p < |pages| - 1 => PageOf(ViewOf(pages[p + 1]), schema))
  }

  // Slots and rows.

  lemma EncodedRow(row: Row, schema: Schema)
    requires WellTyped(row, schema) && TextsFit(row)
    ensures Encoded(Padded(row), schema) && Decode(Padded(row), schema) == Some((row, |Padded(row)|))
  {
    RoundTripIff(row, schema);
    assert Padded(row) + [] == Padded(row);
  }

  /** Reading from the start of a slot, with the bytes of other rows after it, gives the row of the slot. */
  lemma ReadBack(b: seq<byte>, d: seq<byte>, schema: Schema)
    requires Encoded(b, schema) && b <= d
    ensures Decode(d, schema).Some? && Decode(d, schema).value.0 == Decode(b, schema).value.0
  {
    var row := Decode(b, schema).value.0;
    RoundTripIff(row, schema);
    assert Padded(row) + d[|b|..] == d;
  }

  lemma CellTyped(s: Slot, schema: Schema)
    requires SlotOk(s, schema) && s.Live?
    ensures CellOf(s, schema).Some? && WellTyped(CellOf(s, schema).value, schema)
    ensures RowSize(CellOf(s, schema).value) == |s.bytes|
  {
  }

  lemma TableTyped(pages: seq<Image>, schema: Schema)
    requires FileOk(pages, schema)
    ensures Typed(TableOf(pages, schema), schema) && Spaced(TableOf(pages, schema))
  {
    hide WellTyped, Encoded;
    var t := TableOf(pages, schema);
    forall p, s | IsLive(t, p, s)
      ensures WellTyped(t[p].rows[s].value, schema)
    {
      CellTyped(ViewOf(pages[p + 1]).slots[s], schema);
    }
  }

  // Page operations on rows.

  lemma InsertedView(v: View, row: Row, schema: Schema)
    requires ViewOk(v, schema) && WellTyped(row, schema) && TextsFit(row)
    requires Insert(v, Padded(row)).Ok?
    ensures var w := Insert(v, Padded(row)).value;
      ViewOk(w, schema) && PageOf(w, schema)
        == TablePage(PageOf(v, schema).rows + [Some(row)], v.free - RowSize(row) - SLOT_COST)
  {
    EncodedRow(row, schema);
    hide Encoded, WellTyped, Padded, Decode;
    var w := Insert(v, Padded(row)).value;
    assert PageOf(w, schema).rows == PageOf(v, schema).rows + [Some(row)];
  }

  lemma DeletedView(v: View, i: nat, schema: Schema)
    requires ViewOk(v, schema) && Delete(v, i).Ok?
    ensures var w := Delete(v, i).value;
      ViewOk(w, schema) && PageOf(w, schema) == PageOf(v, schema).(rows := PageOf(v, schema).rows[i := None])
  {
    hide Encoded;
    var w := Delete(v, i).value;
    assert PageOf(w, schema).rows == PageOf(v, schema).rows[i := None];
  }

  /** Replacing the bytes of a slot by those of a row: the row is there, unless it was taken cut short. */
  lemma UpdatedView(v: View, i: nat, row: Row, schema: Schema)
    requires ViewOk(v, schema) && WellTyped(row, schema)
    requires i < |v.slots| && v.slots[i].Live?
    ensures PageOf(v, schema).rows[i].Some?
    ensures var update, replaced := Update(v, i, Stored(row)), Replace(PageOf(v, schema), i, row, RowSize(row));
      && (update.Err? ==> replaced == Err(InternalError))
      && (update.Ok? && RowSize(row) >= 0x1_0000 ==> replaced == Err(RowCut))
      && (update.Ok? && RowSize(row) < 0x1_0000 ==>
            ViewOk(update.value, schema) && replaced == Ok(PageOf(update.value, schema)))
  {
    hide *;
    var length := Cast16(RowSize(row));
    StoredLength(row);
    LiveCell(v, i, schema);
    UpdateOfLive(v, i, Stored(row));
    ReplaceOfLive(PageOf(v, schema), i, row, RowSize(row));
    if RowSize(row) < 0x1_0000 {
      WholeRowFilled(v, i, row, v.free, schema);
      if length <= v.free {
        WholeRowFilled(v, i, row, v.free - length, schema);
      }
    }
  }

  lemma StoredLength(row: Row)
    ensures |Stored(row)| == Cast16(RowSize(row))
    ensures Stored(row) == [] <==> Cast16(RowSize(row)) == 0
  {
  }

  lemma LiveCell(v: View, i: nat, schema: Schema)
    requires ViewOk(v, schema) && i < |v.slots| && v.slots[i].Live?
    ensures PageOf(v, schema).rows[i].Some? && RowSize(PageOf(v, schema).rows[i].value) == |v.slots[i].bytes|
    ensures PageOf(v, schema).free == v.free
  {
    CellTyped(v.slots[i], schema);
  }

  lemma WholeRowFilled(v: View, i: nat, row: Row, free: nat, schema: Schema)
    requires ViewOk(v, schema) && WellTyped(row, schema) && RowSize(row) < 0x1_0000 && free <= v.free
    requires i < |v.slots| && v.slots[i].Live?
    ensures var w := View(v.slots[i := Live(Stored(row))], free);
      ViewOk(w, schema) && PageOf(w, schema) == TablePage(PageOf(v, schema).rows[i := Some(row)], free)
  {
    hide ViewOk, Encoded, WellTyped, Padded, Stored, RowSize, Decode;
    StoredWhole(row);
    EncodedRow(row, schema);
    SlotFilled(v, i, row, free, schema);
  }

  lemma UpdateOfLive(v: View, i: nat, bytes: seq<byte>)
    requires i < |v.slots| && v.slots[i].Live?
    ensures var slots := v.slots[i := Live(bytes)];
      if bytes == [] || (|bytes| > |v.slots[i].bytes| && v.free < |bytes|) then Update(v, i, bytes).Err?
      else Update(v, i, bytes) == Ok(View(slots, if |bytes| <= |v.slots[i].bytes| then v.free else v.free - |bytes|))
  {
  }

  lemma ReplaceOfLive(page: TablePage, i: nat, row: Row, size: nat)
    requires i < |page.rows| && page.rows[i].Some?
    ensures var rows, was, length := page.rows[i := Some(row)], RowSize(page.rows[i].value), Cast16(size);
      && (size < 0x1_0000 ==> length == size)
      && (size >= 0x1_0000 ==> length != size)
      && Replace(page, i, row, size) ==
           (if length == 0 || (length > was && page.free < length) then Err(InternalError)
            else if length != size then Err(RowCut)
            else Ok(TablePage(rows, if length <= was then page.free else page.free - size)))
  {
    hide RowSize;
  }

  /** Putting the encoding of a row into a live slot puts the row into its cell. */
  lemma SlotFilled(v: View, i: nat, row: Row, free: nat, schema: Schema)
    requires ViewOk(v, schema) && Encoded(Padded(row), schema) && free <= v.free
    requires Decode(Padded(row), schema) == Some((row, |Padded(row)|))
    requires i < |v.slots| && v.slots[i].Live?
    ensures var w := View(v.slots[i := Live(Padded(row))], free);
      ViewOk(w, schema) && PageOf(w, schema) == TablePage(PageOf(v, schema).rows[i := Some(row)], free)
  {
    hide Encoded, WellTyped, Decode, RowSize, Padded;
    var w := View(v.slots[i := Live(Padded(row))], free);
    assert PageOf(w, schema).rows == PageOf(v, schema).rows[i := Some(row)];
  }

  lemma PageWritten(pages: seq<Image>, p: nat, d: Image, schema: Schema)
    requires FileOk(pages, schema) && 1 <= p < |pages| && ImageOk(d, schema)
    ensures FileOk(pages[p := d], schema)
    ensures TableOf(pages[p := d], schema) == TableOf(pages, schema)[p - 1 := PageOf(ViewOf(d), schema)]
  {
  }

  lemma PageAdded(pages: seq<Image>, d: Image, schema: Schema)
    requires FileOk(pages, schema) && WellFormed(d) && ViewOf(d) == EmptyView
    ensures ImageOk(d, schema) && FileOk(pages + [d], schema)
    ensures TableOf(pages + [d], schema) == TableOf(pages, schema) + [TablePage([], FRESH_SPACE)]
  {
    assert PageOf(ViewOf(d), schema).rows == [];
  }

  /** A file as CREATE TABLE leaves it is the empty table. */
  lemma NewFile(pages: seq<Image>, schema: Schema)
    requires |pages| == 1 && WellFormed(pages[0]) && ViewOf(pages[0]) == EmptyView
    ensures FileOk(pages, schema) && TableOf(pages, schema) == []
  {
  }
}
