/**
 `Page` and `TableFile`: pages are changed in place byte by byte, and the file is the growing
 sequence of their images.
 */
module Pages {
  import opened Bytes
  import opened PageImage
  import opened PageViews
  import opened Wrappers

  class Page {
    const data: array<byte>
    var pageId: nat

    ghost predicate Valid()
      reads data
    {
      data.Length == PAGE_SIZE && WellFormed(data[..])
    }

    ghost function View(): View
      requires Valid()
      reads data
    {
      ViewOf(data[..])
    }

    /** A page as `new Page{}` leaves it, all zero; it is not `Valid` before `Init` or a read. */
    constructor ()
      ensures fresh(data) && data.Length == PAGE_SIZE
    {
      data := new byte[PAGE_SIZE](_ => 0);
      pageId := 0;
    }

    function Read16(offset: nat): (v: nat)
      requires offset + 2 <= data.Length
      reads data
      ensures v == U16At(data[..], offset)
    {
      var low: nat, high: nat := data[offset], data[offset + 1];
      low + 256 * high
    }

    method Write16(offset: nat, value: nat)
      requires offset + 2 <= data.Length && value < 0x1_0000
      modifies data
      ensures Wrote16(old(data[..]), data[..], offset, value)
    {
      data[offset], data[offset + 1] := value % 256, value / 256;
    }

    /** `memcpy(data + offset, bytes, length)`. */
    method Copy(offset: nat, bytes: array<byte>, length: nat)
      requires length <= bytes.Length && offset + length <= data.Length && bytes != data
      modifies data
      ensures Wrote(old(data[..]), data[..], offset, old(bytes[..length]))
    {
      forall k | 0 <= k < length {
        data[offset + k] := bytes[k];
      }
    }

    function NumSlots(): (n: nat)
      requires data.Length == PAGE_SIZE
      reads data
      ensures n == PageImage.NumSlots(data[..])
    {
      Read16(HEADER_OFFSET_NUM_SLOTS)
    }

    /** The 16-bit subtraction cannot wrap on a well-formed page, so it is the free space of the view. */
    function FreeSpace(): (n: nat)
      requires Valid()
      reads data
      ensures n == View().free
    {
      Cast16(Read16(HEADER_OFFSET_FREE_PTR) - (HEADER_SIZE + NumSlots() * SLOT_ENTRY_SIZE))
    }

    predicate SlotDeleted(slot: nat)
      requires Valid() && slot < NumSlots()
      reads data
      ensures SlotDeleted(slot) <==> View().slots[slot] == Deleted
    {
      EntryMeaning(data[..], slot);
      Read16(HEADER_SIZE + slot * SLOT_ENTRY_SIZE + 2) == 0
    }

    method Init(id: nat)
      requires data.Length == PAGE_SIZE
      modifies this, data
      ensures pageId == id && Valid() && View() == EmptyView
    {
      pageId := id;
      forall k | 0 <= k < PAGE_SIZE {
        data[k] := 0;
      }
      Write16(HEADER_OFFSET_NUM_SLOTS, 0);
      Write16(HEADER_OFFSET_FREE_PTR, PAGE_SIZE);
      StartsEmpty(data[..]);
    }

    /** Appends a slot, or changes no byte and says why. */
    method InsertRow(rowBytes: array<byte>, rowLen: nat) returns (r: Result<(), PageError>)
      requires Valid() && rowLen <= rowBytes.Length && rowBytes != data
      modifies data
      ensures Valid()
      ensures match Insert(old(View()), rowBytes[..rowLen])
        case Ok(v) => r == Ok(()) && View() == v
        case Err(e) => r == Err(e) && data[..] == old(data[..])
    {
      if rowLen == 0 {
        return Err(InvalidRowLength);
      }
      var slots := NumSlots();
      var freePtr := Read16(HEADER_OFFSET_FREE_PTR);
      var slotDirEnd := HEADER_SIZE + slots * SLOT_ENTRY_SIZE;
      if FreeSpace() < rowLen + SLOT_ENTRY_SIZE {
        return Err(PageFull);
      }
      var offset := Cast16(freePtr - rowLen);
      WriteInserted(slots, slotDirEnd, offset, rowBytes, rowLen);
      return Ok(());
    }

    /** The writes of `InsertRow`. */
    method WriteInserted(slots: nat, slotDirEnd: nat, offset: nat, rowBytes: array<byte>, rowLen: nat)
      requires Valid() && rowLen <= rowBytes.Length && rowBytes != data
      requires 0 < rowLen && rowLen + SLOT_ENTRY_SIZE <= View().free
      requires slots == NumSlots() && slotDirEnd == DirEnd(slots) && offset == FreePtr(data[..]) - rowLen
      modifies data
      ensures Valid()
      ensures View() == PageImage.View(
        old(View()).slots + [Live(rowBytes[..rowLen])], old(View()).free - rowLen - SLOT_ENTRY_SIZE)
    {
      hide Wrote, Wrote16, SlotAt, SlotInside;
      ghost var d := data[..];
      Copy(offset, rowBytes, rowLen);
      ghost var d1 := data[..];
      Write16(slotDirEnd, offset);
      ghost var d2 := data[..];
      Write16(slotDirEnd + 2, rowLen);
      ghost var d3 := data[..];
      Write16(HEADER_OFFSET_FREE_PTR, offset);
      ghost var d4 := data[..];
      Write16(HEADER_OFFSET_NUM_SLOTS, Cast16(slots + 1));
      AppendsSlot(d, d1, d2, d3, d4, data[..], rowBytes[..rowLen]);
    }

    /** The offset stands for the returned pointer into `data`. */
    method ReadRow(slot: nat) returns (r: Result<nat, PageError>, rowLen: nat)
      requires Valid()
      ensures match Lookup(View(), slot)
        case Ok(bytes) => r.Ok? && rowLen == |bytes| && r.value + rowLen <= data.Length
                          && data[r.value..r.value + rowLen] == bytes
        case Err(e) => r == Err(e)
    {
      rowLen := 0;
      if slot >= NumSlots() {
        return Err(SlotOutOfBounds), rowLen;
      }
      if SlotDeleted(slot) {
        return Err(PageError.SlotDeleted), rowLen;
      }
      var entry := HEADER_SIZE + slot * SLOT_ENTRY_SIZE;
      rowLen := Read16(entry + 2);
      EntryMeaning(data[..], slot);
      return Ok(Read16(entry)), rowLen;
    }

    method DeleteRow(slot: nat) returns (r: Result<(), PageError>)
      requires Valid()
      modifies data
      ensures Valid()
      ensures match Delete(old(View()), slot)
        case Ok(v) => r == Ok(()) && View() == v
        case Err(e) => r == Err(e) && data[..] == old(data[..])
    {
      if slot >= NumSlots() {
        return Err(SlotOutOfBounds);
      }
      if SlotDeleted(slot) {
        return Err(PageError.SlotDeleted);
      }
      Write16(HEADER_SIZE + slot * SLOT_ENTRY_SIZE + 2, 0);
      ClearsSlot(old(data[..]), data[..], slot);
      return Ok(());
    }

    /** Replaces one slot, in its old place when the row fits there and at the free pointer otherwise. */
    method UpdateRow(slot: nat, rowBytes: array<byte>, rowLen: nat) returns (r: Result<nat, PageError>)
      requires Valid() && rowLen <= rowBytes.Length && rowBytes != data
      modifies data
      ensures Valid()
      ensures match Update(old(View()), slot, rowBytes[..rowLen])
        case Ok(v) => r.Ok? && View() == v && r.value + rowLen <= data.Length
                      && data[r.value..r.value + rowLen] == rowBytes[..rowLen]
        case Err(e) => r == Err(e) && data[..] == old(data[..])
    {
      hide WellFormed, SlotAt;
      if slot >= NumSlots() {
        return Err(SlotOutOfBounds);
      }
      if SlotDeleted(slot) {
        return Err(PageError.SlotDeleted);
      }
      if rowLen == 0 {
        return Err(InvalidRowLength);
      }
      EntryMeaning(data[..], slot);
      var slotOffset := HEADER_SIZE + slot * SLOT_ENTRY_SIZE;
      var oldRowOffset := Read16(slotOffset);
      var oldRowLen := Read16(slotOffset + 2);
      if rowLen > oldRowLen {
        r := MoveRow(slot, slotOffset, rowBytes, rowLen);
        return;
      }
      WriteShrunk(slot, slotOffset, oldRowOffset, rowBytes, rowLen);
      return Ok(oldRowOffset);
    }

    /** The part of `UpdateRow` for a row longer than the old one: it moves to the free pointer. */
    method MoveRow(ghost slot: nat, slotOffset: nat, rowBytes: array<byte>, rowLen: nat)
      returns (r: Result<nat, PageError>)
      requires Valid() && rowLen <= rowBytes.Length && rowBytes != data
      requires slot < NumSlots() && 0 < rowLen && slotOffset == DirEnd(slot)
      modifies data
      ensures Valid()
      ensures if old(View()).free < rowLen then r == Err(PageFull) && data[..] == old(data[..])
        else && View() == PageImage.View(old(View()).slots[slot := Live(rowBytes[..rowLen])], old(View()).free - rowLen)
             && r.Ok? && r.value + rowLen <= data.Length && data[r.value..r.value + rowLen] == rowBytes[..rowLen]
    {
      if FreeSpace() < rowLen {
        return Err(PageFull);
      }
      var freePtr := Read16(HEADER_OFFSET_FREE_PTR);
      var newRowOffset := Cast16(freePtr - rowLen);
      WriteGrown(slot, slotOffset, newRowOffset, rowBytes, rowLen);
      return Ok(newRowOffset);
    }

    method WriteGrown(ghost slot: nat, slotOffset: nat, newRowOffset: nat, rowBytes: array<byte>, rowLen: nat)
      requires Valid() && rowLen <= rowBytes.Length && rowBytes != data
      requires slot < NumSlots() && 0 < rowLen <= View().free
      requires slotOffset == DirEnd(slot) && newRowOffset == FreePtr(data[..]) - rowLen
      modifies data
      ensures Valid()
      ensures View() == PageImage.View(old(View()).slots[slot := Live(rowBytes[..rowLen])], old(View()).free - rowLen)
      ensures data[newRowOffset..newRowOffset + rowLen] == rowBytes[..rowLen]
    {
      hide Wrote, Wrote16, SlotAt, SlotInside;
      ghost var d := data[..];
      Copy(newRowOffset, rowBytes, rowLen);
      ghost var d1 := data[..];
      Write16(slotOffset, newRowOffset);
      ghost var d2 := data[..];
      Write16(slotOffset + 2, rowLen);
      ghost var d3 := data[..];
      Write16(HEADER_OFFSET_FREE_PTR, newRowOffset);
      MovesSlot(d, d1, d2, d3, data[..], slot, rowBytes[..rowLen]);
    }

    /** The writes of `UpdateRow` when the new row fits in the old place. */
    method WriteShrunk(ghost slot: nat, slotOffset: nat, oldRowOffset: nat, rowBytes: array<byte>, rowLen: nat)
      requires Valid() && rowLen <= rowBytes.Length && rowBytes != data
      requires slot < NumSlots() && 0 < rowLen <= SlotLength(data[..], slot)
      requires slotOffset == DirEnd(slot) && oldRowOffset == SlotOffset(data[..], slot)
      modifies data
      ensures oldRowOffset + rowLen <= PAGE_SIZE
      ensures Valid()
      ensures View() == old(View()).(slots := old(View()).slots[slot := Live(rowBytes[..rowLen])])
      ensures data[oldRowOffset..oldRowOffset + rowLen] == rowBytes[..rowLen]
    {
      hide Wrote, Wrote16, SlotAt;
      ghost var d := data[..];
      assert SlotInside(d, slot);
      Copy(oldRowOffset, rowBytes, rowLen);
      ghost var d1 := data[..];
      Write16(slotOffset + 2, rowLen);
      ShrinksSlot(d, d1, data[..], slot, rowBytes[..rowLen]);
    }
  }
}
