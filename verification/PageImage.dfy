/**
 The 4096-byte slotted page as a value: where its fields lie, when an image is well formed,
 and the abstract view (slots and remaining space) that the operations of `Page` act on.
 */
module PageImage {
  import opened Bytes

  const PAGE_SIZE := 4096
  const HEADER_SIZE := 16
  const SLOT_ENTRY_SIZE := 4
  const HEADER_OFFSET_NUM_SLOTS := 4
  const HEADER_OFFSET_FREE_PTR := 6

  datatype Slot = Live(bytes: seq<byte>) | Deleted

  /** What a caller of the page operations can observe: the slots in order, and the bytes still free. */
  datatype View = View(slots: seq<Slot>, free: nat)

  type Image = d: seq<byte> | |d| == PAGE_SIZE witness seq(PAGE_SIZE, i => 0)

  function NumSlots(d: Image): nat { U16At(d, HEADER_OFFSET_NUM_SLOTS) }

  function FreePtr(d: Image): nat { U16At(d, HEADER_OFFSET_FREE_PTR) }

  function DirEnd(slots: nat): nat { HEADER_SIZE + slots * SLOT_ENTRY_SIZE }

  function SlotOffset(d: Image, i: nat): nat
    requires DirEnd(i + 1) <= PAGE_SIZE
  {
    U16At(d, DirEnd(i))
  }

  function SlotLength(d: Image, i: nat): nat
    requires DirEnd(i + 1) <= PAGE_SIZE
  {
    U16At(d, DirEnd(i) + 2)
  }

  /** Slot `i` is deleted, or its row lies between the free pointer and the end of the page. */
  ghost predicate SlotInside(d: Image, i: nat)
    requires DirEnd(i + 1) <= PAGE_SIZE
  {
    SlotLength(d, i) == 0 || FreePtr(d) <= SlotOffset(d, i) <= SlotOffset(d, i) + SlotLength(d, i) <= PAGE_SIZE
  }

  ghost predicate SlotsDisjoint(d: Image, i: nat, j: nat)
    requires DirEnd(i + 1) <= PAGE_SIZE && DirEnd(j + 1) <= PAGE_SIZE
  {
    || SlotLength(d, i) == 0
    || SlotLength(d, j) == 0
    || SlotOffset(d, i) + SlotLength(d, i) <= SlotOffset(d, j)
    || SlotOffset(d, j) + SlotLength(d, j) <= SlotOffset(d, i)
  }

  /** The representation invariant of a page. */
  ghost predicate WellFormed(d: Image) {
    && DirEnd(NumSlots(d)) <= FreePtr(d) <= PAGE_SIZE
    && (forall i: nat :: i < NumSlots(d) ==> SlotInside(d, i))
    && (forall i: nat, j: nat :: i < NumSlots(d) && j < NumSlots(d) && i != j ==> SlotsDisjoint(d, i, j))
  }

  ghost function SlotAt(d: Image, i: nat): Slot
    requires WellFormed(d) && i < NumSlots(d)
  {
    assert SlotInside(d, i);
    if SlotLength(d, i) == 0 then Deleted
    else Live(d[SlotOffset(d, i)..SlotOffset(d, i) + SlotLength(d, i)])
  }

  ghost function Slots(d: Image): (s: seq<Slot>)
    requires WellFormed(d)
    ensures |s| == NumSlots(d)
    ensures forall i: nat :: i < |s| ==> s[i] == SlotAt(d, i)
  {
    seq(NumSlots(d), i requires 0 <= i < NumSlots(d) => SlotAt(d, i))
  }

  ghost function ViewOf(d: Image): View
    requires WellFormed(d)
  {
    View(Slots(d), FreePtr(d) - DirEnd(NumSlots(d)))
  }

  /** What a directory entry says about its slot. */
  lemma EntryMeaning(d: Image, i: nat)
    requires WellFormed(d) && i < NumSlots(d)
    ensures DirEnd(i + 1) <= FreePtr(d) <= PAGE_SIZE
    ensures SlotLength(d, i) == 0 ==> ViewOf(d).slots[i] == Deleted
    ensures SlotLength(d, i) > 0 ==>
      && SlotOffset(d, i) + SlotLength(d, i) <= PAGE_SIZE
      && ViewOf(d).slots[i] == Live(d[SlotOffset(d, i)..SlotOffset(d, i) + SlotLength(d, i)])
  {
    assert ViewOf(d).slots[i] == SlotAt(d, i) && SlotInside(d, i);
  }

  // What each mutator's writes mean. The lemmas take the image after every write of the source.

  lemma StartsEmpty(d: Image)
    requires NumSlots(d) == 0 && FreePtr(d) == PAGE_SIZE
    ensures WellFormed(d)
    ensures ViewOf(d) == View([], PAGE_SIZE - HEADER_SIZE)
  {
  }

  /** The bytes the directory of `d` gives to slot `j` are the same in `e`. */
  ghost predicate SameBytes(d: Image, e: Image, j: nat)
    requires DirEnd(j + 1) <= PAGE_SIZE
  {
    forall k :: SlotOffset(d, j) <= k < SlotOffset(d, j) + SlotLength(d, j) <= PAGE_SIZE ==> e[k] == d[k]
  }

  /**
   The frame argument shared by all mutators: at most slot `i` (possibly new) changed, into a row
   that is deleted, lies inside its old place, or lies in what was free space; then the page is
   still well formed and every other slot reads back byte for byte as before.
   */
  lemma WellFormedAfter(d: Image, e: Image, i: nat)
    requires WellFormed(d)
    requires NumSlots(e) == NumSlots(d) || i == NumSlots(d) == NumSlots(e) - 1
    requires i < NumSlots(e)
    requires DirEnd(NumSlots(e)) <= FreePtr(e) <= FreePtr(d)
    requires forall j: nat :: j < NumSlots(e) && j != i ==>
      SlotOffset(e, j) == SlotOffset(d, j) && SlotLength(e, j) == SlotLength(d, j)
    requires forall j: nat :: j < NumSlots(d) && j != i ==> SameBytes(d, e, j)
    requires
      || SlotLength(e, i) == 0
      || FreePtr(e) <= SlotOffset(e, i) <= SlotOffset(e, i) + SlotLength(e, i) <= FreePtr(d)
      || (i < NumSlots(d) && SlotOffset(e, i) == SlotOffset(d, i) && SlotLength(e, i) <= SlotLength(d, i))
    ensures WellFormed(e)
    ensures forall j: nat :: j < NumSlots(e) && j != i ==> SlotAt(e, j) == SlotAt(d, j)
  {
    forall j: nat | j < NumSlots(e)
      ensures SlotInside(e, j)
    {
      assert j < NumSlots(d) ==> SlotInside(d, j);
    }
    forall j: nat, k: nat | j < NumSlots(e) && k < NumSlots(e) && j != k
      ensures SlotsDisjoint(e, j, k)
    {
      assert j < NumSlots(d) ==> SlotInside(d, j);
      assert k < NumSlots(d) ==> SlotInside(d, k);
      assert j < NumSlots(d) && k < NumSlots(d) ==> SlotsDisjoint(d, j, k);
    }
    forall j: nat | j < NumSlots(e) && j != i
      ensures SlotAt(e, j) == SlotAt(d, j)
    {
      assert SlotInside(d, j) && SameBytes(d, e, j);
    }
  }

  /** Writing only below the free pointer, or only inside slot `i`, leaves the bytes of the other slots. */
  lemma KeptBytes(d: Image, e: Image, i: nat)
    requires WellFormed(d) && i < NumSlots(d)
    requires forall k ::
      FreePtr(d) <= k < PAGE_SIZE && !(SlotOffset(d, i) <= k < SlotOffset(d, i) + SlotLength(d, i)) ==> e[k] == d[k]
    ensures forall j: nat :: j < NumSlots(d) && j != i ==> SameBytes(d, e, j)
  {
    forall j: nat | j < NumSlots(d) && j != i
      ensures SameBytes(d, e, j)
    {
      assert SlotInside(d, i) && SlotInside(d, j) && SlotsDisjoint(d, i, j);
    }
  }

  /** `e` is `d` with `row` written just below the free pointer and named by slot `i`. */
  ghost predicate RowPlaced(d: Image, e: Image, i: nat, row: seq<byte>)
    requires |row| <= FreePtr(d) <= PAGE_SIZE
  {
    var o := FreePtr(d) - |row|;
    && (NumSlots(e) == NumSlots(d) || i == NumSlots(d) == NumSlots(e) - 1)
    && i < NumSlots(e)
    && DirEnd(NumSlots(e)) <= FreePtr(e) == o
    && SlotOffset(e, i) == o
    && SlotLength(e, i) == |row|
    && (forall j: nat :: j < NumSlots(e) && j != i ==>
          SlotOffset(e, j) == SlotOffset(d, j) && SlotLength(e, j) == SlotLength(d, j))
    && e[o..o + |row|] == row
    && (forall k :: FreePtr(d) <= k < PAGE_SIZE ==> e[k] == d[k])
  }

  lemma RowPlacedMeaning(d: Image, e: Image, i: nat, row: seq<byte>)
    requires WellFormed(d) && row != [] && |row| <= FreePtr(d)
    requires RowPlaced(d, e, i, row)
    ensures WellFormed(e)
    ensures ViewOf(e).free == FreePtr(d) - |row| - DirEnd(NumSlots(e))
    ensures i < NumSlots(d) ==> Slots(e) == Slots(d)[i := Live(row)]
    ensures i == NumSlots(d) ==> Slots(e) == Slots(d) + [Live(row)]
  {
    forall j: nat | j < NumSlots(d) && j != i
      ensures SameBytes(d, e, j)
    {
      assert SlotInside(d, j);
    }
    WellFormedAfter(d, e, i);
    assert SlotAt(e, i) == Live(row);
  }

  /** Entries of different slots occupy different bytes of the directory. */
  lemma EntriesApart(i: nat, j: nat)
    requires i != j
    ensures DirEnd(i) + SLOT_ENTRY_SIZE <= DirEnd(j) || DirEnd(j) + SLOT_ENTRY_SIZE <= DirEnd(i)
  {
  }

  lemma AppendsSlot(d: Image, d1: Image, d2: Image, d3: Image, d4: Image, e: Image, row: seq<byte>)
    requires WellFormed(d)
    requires row != [] && |row| + SLOT_ENTRY_SIZE <= ViewOf(d).free
    requires Wrote(d, d1, FreePtr(d) - |row|, row)
    requires Wrote16(d1, d2, DirEnd(NumSlots(d)), FreePtr(d) - |row|)
    requires Wrote16(d2, d3, DirEnd(NumSlots(d)) + 2, |row|)
    requires Wrote16(d3, d4, HEADER_OFFSET_FREE_PTR, FreePtr(d) - |row|)
    requires Wrote16(d4, e, HEADER_OFFSET_NUM_SLOTS, NumSlots(d) + 1)
    ensures WellFormed(e)
    ensures ViewOf(e) == View(ViewOf(d).slots + [Live(row)], ViewOf(d).free - |row| - SLOT_ENTRY_SIZE)
  {
    var n, o := NumSlots(d), FreePtr(d) - |row|;
    assert RowPlaced(d, e, n, row) by {
      forall i: nat | i < n
        ensures SlotOffset(e, i) == SlotOffset(d, i) && SlotLength(e, i) == SlotLength(d, i)
      {
        EntriesApart(i, n);
      }
      assert e[o..o + |row|] == row;
    }
    RowPlacedMeaning(d, e, n, row);
  }

  lemma ClearsSlot(d: Image, e: Image, i: nat)
    requires WellFormed(d) && i < NumSlots(d)
    requires Wrote16(d, e, DirEnd(i) + 2, 0)
    ensures WellFormed(e)
    ensures ViewOf(e) == ViewOf(d).(slots := ViewOf(d).slots[i := Deleted])
  {
    forall j: nat | j < NumSlots(d) && j != i
      ensures SlotOffset(e, j) == SlotOffset(d, j) && SlotLength(e, j) == SlotLength(d, j)
    {
      EntriesApart(i, j);
    }
    KeptBytes(d, e, i);
    WellFormedAfter(d, e, i);
    assert Slots(e) == Slots(d)[i := Deleted];
  }

  lemma ShrinksSlot(d: Image, d1: Image, e: Image, i: nat, row: seq<byte>)
    requires WellFormed(d) && i < NumSlots(d)
    requires row != [] && |row| <= SlotLength(d, i)
    requires Wrote(d, d1, SlotOffset(d, i), row)
    requires Wrote16(d1, e, DirEnd(i) + 2, |row|)
    ensures WellFormed(e)
    ensures ViewOf(e) == ViewOf(d).(slots := ViewOf(d).slots[i := Live(row)])
    ensures SlotOffset(d, i) + |row| <= PAGE_SIZE
    ensures e[SlotOffset(d, i)..SlotOffset(d, i) + |row|] == row
  {
    assert SlotInside(d, i);
    var o := SlotOffset(d, i);
    forall j: nat | j < NumSlots(d)
      ensures SlotOffset(e, j) == SlotOffset(d, j)
      ensures SlotLength(e, j) == if i == j then |row| else SlotLength(d, j)
    {
      if i != j {
        EntriesApart(i, j);
      }
    }
    assert e[o..o + |row|] == row;
    hide Wrote, Wrote16;
    KeptBytes(d, e, i);
    WellFormedAfter(d, e, i);
    assert Slots(e) == Slots(d)[i := Live(row)];
  }

  lemma MovesSlot(d: Image, d1: Image, d2: Image, d3: Image, e: Image, i: nat, row: seq<byte>)
    requires WellFormed(d) && i < NumSlots(d)
    requires row != [] && |row| <= ViewOf(d).free
    requires Wrote(d, d1, FreePtr(d) - |row|, row)
    requires Wrote16(d1, d2, DirEnd(i), FreePtr(d) - |row|)
    requires Wrote16(d2, d3, DirEnd(i) + 2, |row|)
    requires Wrote16(d3, e, HEADER_OFFSET_FREE_PTR, FreePtr(d) - |row|)
    ensures WellFormed(e)
    ensures ViewOf(e) == View(ViewOf(d).slots[i := Live(row)], ViewOf(d).free - |row|)
    ensures e[FreePtr(d) - |row|..FreePtr(d)] == row
  {
    var o := FreePtr(d) - |row|;
    assert RowPlaced(d, e, i, row) by {
      forall j: nat | j < NumSlots(d) && j != i
        ensures SlotOffset(e, j) == SlotOffset(d, j) && SlotLength(e, j) == SlotLength(d, j)
      {
        EntriesApart(i, j);
      }
      assert e[o..o + |row|] == row;
    }
    RowPlacedMeaning(d, e, i, row);
  }
}
