/** Runs of operations on the bytes of a page, and why the live rows of a page always fit into it. */
module PageRuns {
  import opened Bytes
  import opened PageImage
  import opened PageViews
  import opened Pages

  function Range(from: nat, count: nat): (s: set<nat>)
    ensures forall k: nat :: k in s <==> from <= k < from + count
    ensures |s| == count
    decreases count
  {
    if count == 0 then {} else {from} + Range(from + 1, count - 1)
  }

  /** The places from the free pointer on. */
  ghost function RowSpace(d: Image): set<nat>
    requires WellFormed(d)
  {
    Range(FreePtr(d), PAGE_SIZE - FreePtr(d))
  }

  /** The places of the bytes of slot `i`. */
  ghost function Region(d: Image, i: nat): set<nat>
    requires WellFormed(d) && i < NumSlots(d)
  {
    EntryMeaning(d, i);
    if SlotLength(d, i) == 0 then {} else Range(SlotOffset(d, i), SlotLength(d, i))
  }

  /** The places of the bytes of the first `n` slots. */
  ghost function Covered(d: Image, n: nat): set<nat>
    requires WellFormed(d) && n <= NumSlots(d)
  {
    if n == 0 then {} else Covered(d, n - 1) + Region(d, n - 1)
  }

  lemma {:induction false} CoveredBefore(d: Image, n: nat, i: nat)
    requires WellFormed(d) && n <= i < NumSlots(d)
    ensures Covered(d, n) !! Region(d, i)
  {
    hide WellFormed, Region, NumSlots;
    if n > 0 {
      CoveredBefore(d, n - 1, i);
      RegionsApart(d, n - 1, i);
    }
  }

  lemma RegionsApart(d: Image, i: nat, j: nat)
    requires WellFormed(d) && i < NumSlots(d) && j < NumSlots(d) && i != j
    ensures Region(d, i) !! Region(d, j)
  {
    assert SlotsDisjoint(d, i, j);
    hide WellFormed, SlotLength, SlotOffset;
  }

  lemma RegionInside(d: Image, i: nat)
    requires WellFormed(d) && i < NumSlots(d)
    ensures Region(d, i) <= RowSpace(d)
    ensures |Region(d, i)| == LiveBytes([ViewOf(d).slots[i]])
  {
    assert SlotInside(d, i);
    EntryMeaning(d, i);
    LiveBytesOne(ViewOf(d).slots[i]);
  }

  lemma {:induction false} CoveredIsLive(d: Image, n: nat)
    requires WellFormed(d) && n <= NumSlots(d)
    ensures Covered(d, n) <= RowSpace(d)
    ensures |Covered(d, n)| == LiveBytes(ViewOf(d).slots[..n])
  {
    if n > 0 {
      CoveredIsLive(d, n - 1);
      RegionInside(d, n - 1);
      CoveredBefore(d, n - 1, n - 1);
      var slots := ViewOf(d).slots;
      assert slots[..n][..n - 1] == slots[..n - 1];
      LiveBytesOne(slots[n - 1]);
      hide WellFormed, Region, ViewOf;
    }
  }

  /** Disjoint rows between the free pointer and the end of the page cannot have more bytes than lie there. */
  lemma LiveBytesFit(d: Image)
    requires WellFormed(d)
    ensures LiveBytes(ViewOf(d).slots) <= PAGE_SIZE - FreePtr(d)
  {
    var n := NumSlots(d);
    CoveredIsLive(d, n);
    assert ViewOf(d).slots[..n] == ViewOf(d).slots;
    var all := RowSpace(d);
    assert all == Covered(d, n) + (all - Covered(d, n));
  }

  method BytesOf(row: seq<byte>) returns (bytes: array<byte>)
    ensures fresh(bytes) && bytes[..] == row && bytes[..|row|] == row
  {
    bytes := new byte[|row|];
    forall k | 0 <= k < |row| {
      bytes[k] := row[k];
    }
  }

  /** One operation on the bytes of a page, refused or not. */
  method ApplyToPage(page: Page, op: PageOp)
    requires page.Valid()
    modifies page.data
    ensures page.Valid()
    ensures page.View() == if Apply(old(page.View()), op).Ok? then Apply(old(page.View()), op).value else old(page.View())
  {
    hide WellFormed, ViewOf;
    match op
    case InsertOp(row) =>
      var bytes := BytesOf(row);
      var _ := page.InsertRow(bytes, |row|);
    case DeleteOp(i) =>
      var _ := page.DeleteRow(i);
    case UpdateOp(i, row) =>
      var bytes := BytesOf(row);
      var _ := page.UpdateRow(i, bytes, |row|);
  }

  /** Any run of operations does to the slots of the page what it does to the abstract page. */
  method RunOnPage(page: Page, ops: seq<PageOp>)
    requires page.Valid()
    modifies page.data
    ensures page.Valid() && page.View() == Run(old(page.View()), ops)
  {
    hide WellFormed, ViewOf, Apply;
    ghost var v := page.View();
    assert ops[0..] == ops;
    for i := 0 to |ops|
      invariant page.Valid() && Run(v, ops) == Run(page.View(), ops[i..])
    {
      assert ops[i..][0] == ops[i] && ops[i..][1..] == ops[i + 1..];
      ApplyToPage(page, ops[i]);
    }
  }
}
