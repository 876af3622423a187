/**
 The page operations on the abstract view, with their error conditions, and what holds over
 every run of them: space is only ever spent, so a page that refuses a row refuses it for ever.
 */
module PageViews {
  import opened Bytes
  import opened PageImage
  import opened Wrappers

  datatype PageError = InvalidRowLength | PageFull | SlotOutOfBounds | SlotDeleted

  function Insert(v: View, row: seq<byte>): Result<View, PageError> {
    if row == [] then Err(InvalidRowLength)
    else if v.free < |row| + SLOT_ENTRY_SIZE then Err(PageFull)
    else Ok(View(v.slots + [Live(row)], v.free - |row| - SLOT_ENTRY_SIZE))
  }

  function Lookup(v: View, i: nat): Result<seq<byte>, PageError> {
    if i >= |v.slots| then Err(SlotOutOfBounds)
    else if v.slots[i] == Deleted then Err(SlotDeleted)
    else Ok(v.slots[i].bytes)
  }

  function Delete(v: View, i: nat): Result<View, PageError> {
    var _ :- Lookup(v, i);
    Ok(v.(slots := v.slots[i := Deleted]))
  }

  function Update(v: View, i: nat, row: seq<byte>): Result<View, PageError> {
    var was :- Lookup(v, i);
    if row == [] then Err(InvalidRowLength)
    else if |row| <= |was| then Ok(v.(slots := v.slots[i := Live(row)]))
    else if v.free < |row| then Err(PageFull)
    else Ok(View(v.slots[i := Live(row)], v.free - |row|))
  }

  datatype PageOp = InsertOp(row: seq<byte>) | DeleteOp(i: nat) | UpdateOp(i: nat, row: seq<byte>)

  function Apply(v: View, op: PageOp): Result<View, PageError> {
    match op
    case InsertOp(row) => Insert(v, row)
    case DeleteOp(i) => Delete(v, i)
    case UpdateOp(i, row) => Update(v, i, row)
  }

  /** The slot an operation is about. */
  function Target(v: View, op: PageOp): nat {
    match op
    case InsertOp(_) => |v.slots|
    case DeleteOp(i) => i
    case UpdateOp(i, _) => i
  }

  /** The reason an operation is refused, if there is one. */
  ghost predicate RefusedFor(v: View, op: PageOp, e: PageError) {
    var i := Target(v, op);
    if !op.InsertOp? && i >= |v.slots| then e == SlotOutOfBounds
    else if !op.InsertOp? && v.slots[i].Deleted? then e == SlotDeleted
    else if !op.DeleteOp? && op.row == [] then e == InvalidRowLength
    else
      && e == PageFull
      && match op
         case InsertOp(row) => v.free < |row| + 4
         case DeleteOp(_) => false
         case UpdateOp(_, row) => |row| > |v.slots[i].bytes| && v.free < |row|
  }

  /**
   What each operation does, as reading shows it: its own slot reads as the row put there, or as
   deleted, and every other slot as before; and when it is refused, and why.
   */
  lemma OperationMeans(v: View, op: PageOp, j: nat, e: PageError)
    ensures Apply(v, op) == Err(e) <==> RefusedFor(v, op, e)
    ensures Apply(v, op).Ok? ==>
      Lookup(Apply(v, op).value, j) ==
        if j != Target(v, op) then Lookup(v, j)
        else if op.DeleteOp? then Err(SlotDeleted)
        else Ok(op.row)
  {
  }

  /** A refused operation leaves the page as it was. */
  function Run(v: View, ops: seq<PageOp>): View
    decreases |ops|
  {
    if ops == [] then v
    else match Apply(v, ops[0])
      case Ok(w) => Run(w, ops[1..])
      case Err(_) => Run(v, ops[1..])
  }

  /** The bytes one operation takes from the free space for good. */
  function Charge(v: View, op: PageOp): nat {
    if Apply(v, op).Err? then 0
    else match op
      case InsertOp(row) => |row| + SLOT_ENTRY_SIZE
      case DeleteOp(_) => 0
      case UpdateOp(i, row) => if |row| > |v.slots[i].bytes| then |row| else 0
  }

  function Charges(v: View, ops: seq<PageOp>): nat
    decreases |ops|
  {
    if ops == [] then 0
    else
      var rest := if Apply(v, ops[0]).Ok? then Apply(v, ops[0]).value else v;
      Charge(v, ops[0]) + Charges(rest, ops[1..])
  }

  function LiveBytes(slots: seq<Slot>): nat {
    if slots == [] then 0
    else (match slots[|slots| - 1] case Live(b) => |b| case Deleted => 0) + LiveBytes(slots[..|slots| - 1])
  }

  const EmptyView := View([], PAGE_SIZE - HEADER_SIZE)

  lemma {:induction false} LiveBytesUpdate(slots: seq<Slot>, i: nat, s: Slot)
    requires i < |slots|
    ensures LiveBytes(slots[i := s]) == LiveBytes(slots) - LiveBytes([slots[i]]) + LiveBytes([s])
  {
    var n := |slots| - 1;
    assert [slots[i]][..0] == [] && [s][..0] == [];
    if i < n {
      assert slots[i := s][..n] == slots[..n][i := s];
      LiveBytesUpdate(slots[..n], i, s);
    } else {
      assert slots[i := s][..n] == slots[..n];
    }
  }

  /** What a page never loses: room for its directory and its live rows, and five bytes a slot. */
  ghost predicate Accounted(v: View) {
    && LiveBytes(v.slots) + SLOT_ENTRY_SIZE * |v.slots| + v.free <= PAGE_SIZE - HEADER_SIZE
    && 5 * |v.slots| + v.free <= PAGE_SIZE - HEADER_SIZE
    && (forall i :: 0 <= i < |v.slots| ==> v.slots[i] != Live([]))
  }

  lemma InsertAccounts(v: View, row: seq<byte>)
    requires Accounted(v)
    ensures Insert(v, row).Ok? ==> Accounted(Insert(v, row).value)
  {
    assert (v.slots + [Live(row)])[..|v.slots|] == v.slots;
  }

  lemma ReplaceAccounts(v: View, i: nat, s: Slot, free: nat)
    requires Accounted(v) && i < |v.slots| && v.slots[i].Live?
    requires s != Live([])
    requires free <= v.free
    requires s.Live? ==> |s.bytes| <= |v.slots[i].bytes| + v.free - free
    ensures Accounted(View(v.slots[i := s], free))
  {
    LiveBytesUpdate(v.slots, i, s);
    LiveBytesOne(s);
    LiveBytesOne(v.slots[i]);
  }

  lemma LiveBytesOne(s: Slot)
    ensures LiveBytes([s]) == if s.Live? then |s.bytes| else 0
  {
    assert [s][..0] == [];
  }

  lemma StepAccounts(v: View, op: PageOp)
    requires Accounted(v)
    ensures Apply(v, op).Ok? ==> Accounted(Apply(v, op).value)
    ensures Apply(v, op).Ok? ==> v.free == Apply(v, op).value.free + Charge(v, op)
  {
    hide Accounted;
    match op
    case InsertOp(row) =>
      InsertAccounts(v, row);
    case DeleteOp(i) =>
      if Delete(v, i).Ok? {
        ReplaceAccounts(v, i, Deleted, v.free);
      }
    case UpdateOp(i, row) =>
      if Update(v, i, row).Ok? {
        ReplaceAccounts(v, i, Live(row), Update(v, i, row).value.free);
      }
  }

  /**
   Space conservation over every run from a fresh page: the space spent is exactly the charges of
   the accepted operations, so live rows always fit and there are never more than 816 slots.
   */
  lemma {:induction false} RunAccounts(v: View, ops: seq<PageOp>)
    requires Accounted(v)
    ensures v.free - Run(v, ops).free == Charges(v, ops)
    ensures Accounted(Run(v, ops))
    ensures LiveBytes(Run(v, ops).slots) <= PAGE_SIZE - HEADER_SIZE - Run(v, ops).free
    ensures |Run(v, ops).slots| <= 816
    decreases |ops|
  {
    if ops != [] {
      StepAccounts(v, ops[0]);
      match Apply(v, ops[0])
      case Ok(w) => RunAccounts(w, ops[1..]);
      case Err(_) => RunAccounts(v, ops[1..]);
    }
  }

  /** A page that once refused an insert refuses every row at least as long, for ever. */
  lemma RefusedForEver(v: View, row: seq<byte>, ops: seq<PageOp>, longer: seq<byte>)
    requires Accounted(v)
    requires Insert(v, row) == Err(PageFull)
    requires |row| <= |longer|
    ensures Insert(Run(v, ops), longer) == Err(PageFull)
  {
    RunAccounts(v, ops);
  }
}
