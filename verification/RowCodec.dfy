/**
 The row format: for every column a null flag byte, then 8 bytes for INTEGER and FLOAT, 1 byte for
 BOOLEAN, and for TEXT a 16-bit length and the characters. The reader gets no length, so the format
 has to delimit itself.
 */
module RowCodec {
  import opened Bytes
  import opened Values
  import opened Wrappers

  /** `BadVariantAccess` is the exception `std::get` throws; the others are the source's `RowError`. */
  datatype RowError = SchemaMismatch | TextTooLong | BadVariantAccess

  // Fixed-width little-endian numbers and text.

  function Capacity(n: nat): nat {
    if n == 0 then 1 else 256 * Capacity(n - 1)
  }

  function LittleEndian(v: nat, n: nat): (b: seq<byte>)
    ensures |b| == n
  {
    if n == 0 then [] else [v % 256] + LittleEndian(v / 256, n - 1)
  }

  function FromLittleEndian(b: seq<byte>): (v: nat)
    ensures v < Capacity(|b|)
  {
    if b == [] then 0
    else
      var low: nat := b[0];
      low + 256 * FromLittleEndian(b[1..])
  }

  lemma {:induction false} LittleEndianInverse(v: nat, n: nat)
    requires v < Capacity(n)
    ensures FromLittleEndian(LittleEndian(v, n)) == v
  {
    if n > 0 {
      LittleEndianInverse(v / 256, n - 1);
      assert LittleEndian(v, n)[1..] == LittleEndian(v / 256, n - 1);
    }
  }

  lemma CapacityOf8()
    ensures Capacity(8) == TWO64 && Capacity(2) == 0x1_0000
  {
    assert Capacity(4) == 256 * 256 * 256 * 256;
    assert Capacity(6) == 256 * 256 * Capacity(4);
  }

  /** The two's complement bit pattern. */
  function IntBits(i: int64): (bits: nat)
    ensures bits < TWO64
  {
    if i < 0 then i + TWO64 else i
  }

  function IntOfBits(bits: nat): int64
    requires bits < TWO64
  {
    if bits < TWO63 then bits else bits - TWO64
  }

  function TextBytes(s: Text): (b: seq<byte>)
    ensures |b| == |s|
  {
    seq(|s|, k requires 0 <= k < |s| => s[k] as int)
  }

  function BytesText(b: seq<byte>): (s: Text)
    ensures |s| == |b|
  {
    seq(|b|, k requires 0 <= k < |b| => b[k] as char)
  }

  lemma TextInverse(s: Text)
    ensures BytesText(TextBytes(s)) == s
  {
  }

  // Which rows have an encoding.

  /** `static_cast<size_t>(textLength)`. */
  function TextLimit(c: Column): nat {
    if c.textLength < 0 then c.textLength + TWO64 else c.textLength
  }

  predicate HasType(v: Value, t: DataType) {
    match v
    case Null => true
    case Int(_) => t == INTEGER
    case Flt(_) => t == FLOAT
    case Str(_) => t == TEXT
    case Bool(_) => t == BOOLEAN
  }

  predicate Storable(v: Value, c: Column) {
    HasType(v, c.dataType) && (v.Str? ==> |v.s| <= TextLimit(c))
  }

  predicate WellTyped(row: Row, schema: Schema) {
    |row| == |schema| && forall i :: 0 <= i < |row| ==> Storable(row[i], schema[i])
  }

  /** The bytes the second pass writes for one value; the length of a text is cast to 16 bits. */
  function ValueBytes(v: Value): (b: seq<byte>)
    ensures |b| > 0
  {
    match v
    case Null => [1]
    case Bool(x) => [0] + [if x then 1 else 0]
    case Int(i) => [0] + LittleEndian(IntBits(i), 8)
    case Flt(f) => [0] + LittleEndian(f, 8)
    case Str(s) => [0] + LittleEndian(Cast16(|s|), 2) + TextBytes(s[..Cast16(|s|)])
  }

  function RowBytes(row: Row): (b: seq<byte>)
    ensures |b| >= |row|
  {
    if row == [] then [] else ValueBytes(row[0]) + RowBytes(row[1..])
  }

  /** What the first pass counts for one value. */
  function ValueSize(v: Value): nat {
    match v
    case Null => 1
    case Bool(_) => 2
    case Int(_) => 9
    case Flt(_) => 9
    case Str(s) => 3 + |s|
  }

  function RowSize(row: Row): nat {
    if row == [] then 0 else ValueSize(row[0]) + RowSize(row[1..])
  }

  /** The value that is left of `v` when a text is cut to its cast length. */
  function Truncated(v: Value): Value {
    if v.Str? then Str(v.s[..Cast16(|v.s|)]) else v
  }

  function TruncatedRow(row: Row): (r: Row)
    ensures |r| == |row|
  {
    seq(|row|, i requires 0 <= i < |row| => Truncated(row[i]))
  }

  predicate TextsFit(row: Row) {
    forall i :: 0 <= i < |row| && row[i].Str? ==> |row[i].s| < 0x1_0000
  }

  function Zeros(n: nat): seq<byte> {
    seq(n, i => 0)
  }

  /** The bytes lost by the cast stay zero at the end of the output vector. */
  function Padded(row: Row): (b: seq<byte>)
    ensures |b| == RowSize(row)
    ensures RowBytes(row) <= b
  {
    RowBytesAtMostRowSize(row);
    RowBytes(row) + Zeros(RowSize(row) - |RowBytes(row)|)
  }

  lemma {:induction false} RowBytesAtMostRowSize(row: Row)
    ensures |RowBytes(row)| <= RowSize(row)
    ensures |RowBytes(row)| == RowSize(row) <==> TextsFit(row)
  {
    if row != [] {
      RowBytesAtMostRowSize(row[1..]);
      assert |ValueBytes(row[0])| == ValueSize(row[0]) <==> row[0].Str? ==> |row[0].s| < 0x1_0000;
      assert TextsFit(row) <==> TextsFit(row[..1]) && TextsFit(row[1..]) by {
        assert row == row[..1] + row[1..];
      }
    }
  }

  /** The error of the first pass: the first TEXT column whose value is not a text, or is too long. */
  function TextError(row: Row, schema: Schema): (e: Option<RowError>)
    requires |row| == |schema|
    ensures e != Some(SchemaMismatch)
  {
    if row == [] then None
    else if row[0].Null? || schema[0].dataType != TEXT then TextError(row[1..], schema[1..])
    else if !row[0].Str? then Some(BadVariantAccess)
    else if |row[0].s| > TextLimit(schema[0]) then Some(TextTooLong)
    else TextError(row[1..], schema[1..])
  }

  /** The outcome of `serializeRow`. */
  function Serialized(row: Row, schema: Schema): Result<seq<byte>, RowError> {
    if |row| != |schema| then Err(SchemaMismatch)
    else if TextError(row, schema).Some? then Err(TextError(row, schema).value)
    else if !WellTyped(row, schema) then Err(BadVariantAccess)
    else Ok(Padded(row))
  }

  lemma {:induction false} WellTypedHasNoTextError(row: Row, schema: Schema)
    requires WellTyped(row, schema)
    ensures TextError(row, schema).None?
  {
    if row != [] {
      WellTypedHasNoTextError(row[1..], schema[1..]);
    }
  }

  lemma SerializedIffWellTyped(row: Row, schema: Schema)
    ensures Serialized(row, schema).Ok? <==> WellTyped(row, schema)
  {
    if WellTyped(row, schema) {
      WellTypedHasNoTextError(row, schema);
    }
  }

  // Reading a row back.

  /** `None` when the reader would leave the bytes it is given. */
  function DecodeValue(d: seq<byte>, t: DataType): (r: Option<(Value, nat)>)
    ensures r.Some? ==> 0 < r.value.1 <= |d|
  {
    if |d| == 0 then None
    else if d[0] != 0 then Some((Null, 1))
    else match t
      case BOOLEAN => if |d| < 2 then None else Some((Bool(d[1] != 0), 2))
      case INTEGER => if |d| < 9 then None else
        CapacityOf8();
        Some((Int(IntOfBits(FromLittleEndian(d[1..9]))), 9))
      case FLOAT => if |d| < 9 then None else
        CapacityOf8();
        Some((Flt(FromLittleEndian(d[1..9])), 9))
      case TEXT =>
        if |d| < 3 then None else
        var n := FromLittleEndian(d[1..3]);
        if |d| < 3 + n then None else Some((Str(BytesText(d[3..3 + n])), 3 + n))
  }

  /** The row at the start of `d`, and how many bytes it takes. */
  function Decode(d: seq<byte>, schema: Schema): (r: Option<(Row, nat)>)
    ensures r.Some? ==> r.value.1 <= |d| && |r.value.0| == |schema|
    decreases |schema|
  {
    if schema == [] then Some(([], 0))
    else
      var first := DecodeValue(d, schema[0].dataType);
      if first.None? then None else
      var rest := Decode(d[first.value.1..], schema[1..]);
      if rest.None? then None else
      Some(([first.value.0] + rest.value.0, first.value.1 + rest.value.1))
  }

  lemma DecodeValueBytes(v: Value, t: DataType, d: seq<byte>)
    requires HasType(v, t)
    requires ValueBytes(v) <= d
    ensures DecodeValue(d, t) == Some((Truncated(v), |ValueBytes(v)|))
  {
    hide LittleEndian, FromLittleEndian, TextBytes, BytesText, IntBits, IntOfBits;
    CapacityOf8();
    match v
    case Null =>
    case Bool(_) =>
    case Int(i) =>
      assert d[1..9] == LittleEndian(IntBits(i), 8);
      LittleEndianInverse(IntBits(i), 8);
      IntInverse(i);
    case Flt(f) =>
      assert d[1..9] == LittleEndian(f, 8);
      LittleEndianInverse(f, 8);
    case Str(s) => DecodeTextBytes(s, d);
  }

  lemma IntInverse(i: int64)
    ensures IntOfBits(IntBits(i)) == i && (IntBits(i) - i) % TWO64 == 0
  {
  }

  lemma DecodeTextBytes(s: Text, d: seq<byte>)
    requires ValueBytes(Str(s)) <= d
    ensures DecodeValue(d, TEXT) == Some((Truncated(Str(s)), |ValueBytes(Str(s))|))
  {
    hide LittleEndian, FromLittleEndian, TextBytes, BytesText;
    var n := Cast16(|s|);
    assert d[1..3] == LittleEndian(n, 2);
    LittleEndianInverse(n, 2);
    assert d[3..3 + n] == TextBytes(s[..n]);
    TextInverse(s[..n]);
  }

  lemma DecodeCons(d: seq<byte>, v: Value, size: nat, rest: Row, n: nat, schema: Schema)
    requires schema != [] && size <= |d|
    requires DecodeValue(d, schema[0].dataType) == Some((v, size))
    requires Decode(d[size..], schema[1..]) == Some((rest, n))
    ensures Decode(d, schema) == Some(([v] + rest, size + n))
  {
    hide DecodeValue;
  }

  /** The shape of a non-empty row's bytes at the start of `d`. */
  lemma RowBytesCons(row: Row, d: seq<byte>)
    requires row != [] && RowBytes(row) <= d
    ensures ValueBytes(row[0]) <= d
    ensures RowBytes(row[1..]) <= d[|ValueBytes(row[0])|..]
    ensures TruncatedRow(row) == [Truncated(row[0])] + TruncatedRow(row[1..])
  {
    assert RowBytes(row)[|ValueBytes(row[0])|..] == RowBytes(row[1..]);
  }

  /** Whatever follows a row, reading it stops exactly at its end and yields its values, cut texts included. */
  lemma {:induction false} DecodeRowBytes(row: Row, schema: Schema, d: seq<byte>)
    requires WellTyped(row, schema)
    requires RowBytes(row) <= d
    ensures Decode(d, schema) == Some((TruncatedRow(row), |RowBytes(row)|))
  {
    hide DecodeValue, ValueBytes;
    if row == [] {
      assert TruncatedRow(row) == [];
    } else {
      var size, rest := |ValueBytes(row[0])|, row[1..];
      RowBytesCons(row, d);
      DecodeValueBytes(row[0], schema[0].dataType, d);
      DecodeRowBytes(rest, schema[1..], d[size..]);
      DecodeCons(d, Truncated(row[0]), size, TruncatedRow(rest), |RowBytes(rest)|, schema);
    }
  }

  lemma TruncatedIffTextsLong(row: Row)
    ensures TruncatedRow(row) == row <==> TextsFit(row)
  {
    if TextsFit(row) {
      assert forall i | 0 <= i < |row| :: Truncated(row[i]) == row[i];
    } else {
      var i :| 0 <= i < |row| && row[i].Str? && |row[i].s| >= 0x1_0000;
      assert TruncatedRow(row)[i] == Truncated(row[i]);
    }
  }

  /**
   The codec is self-delimiting exactly on the rows whose texts have at most 65535 characters: only
   for those does reading the serialized bytes, whatever follows them, give the row and its length.
   */
  lemma RoundTripIff(row: Row, schema: Schema)
    requires WellTyped(row, schema)
    ensures TextsFit(row) <==>
      forall tail :: Decode(Padded(row) + tail, schema) == Some((row, |Padded(row)|))
  {
    TruncatedIffTextsLong(row);
    RowBytesAtMostRowSize(row);
    forall tail
      ensures Decode(Padded(row) + tail, schema) == Some((TruncatedRow(row), |RowBytes(row)|))
    {
      DecodeRowBytes(row, schema, Padded(row) + tail);
    }
    assert Decode(Padded(row) + [], schema) == Some((TruncatedRow(row), |RowBytes(row)|));
  }

  /**
   Of two rows of one schema of which one's encoding is a prefix of the other's, both are read back as
   the same row: they agree but for what is cut from TEXTs over 65535 characters. Without such TEXTs
   they are one row, so the bytes of a slot determine it.
   */
  lemma PrefixFree(row: Row, other: Row, schema: Schema)
    requires WellTyped(row, schema) && WellTyped(other, schema)
    requires Padded(row) <= Padded(other)
    ensures TruncatedRow(row) == TruncatedRow(other)
    ensures TextsFit(row) && TextsFit(other) ==> row == other
  {
    var rest := Padded(other)[|Padded(row)|..];
    assert Padded(other) == Padded(row) + rest;
    RowBytesAtMostRowSize(row);
    RowBytesAtMostRowSize(other);
    DecodeRowBytes(row, schema, Padded(other));
    DecodeRowBytes(other, schema, Padded(other));
    TruncatedIffTextsLong(row);
    TruncatedIffTextsLong(other);
  }

  // The two loops over an output buffer, and the loop over a page's bytes.

  /** What the first pass adds for a value of column `c`, whose text has been checked. */
  function CountedValue(v: Value, c: Column): nat {
    if v.Null? then 1
    else match c.dataType
      case TEXT => 3 + (if v.Str? then |v.s| else 0)
      case BOOLEAN => 2
      case INTEGER => 9
      case FLOAT => 9
  }

  function CountedRow(row: Row, schema: Schema): nat
    requires |row| == |schema|
  {
    if row == [] then 0 else CountedValue(row[0], schema[0]) + CountedRow(row[1..], schema[1..])
  }

  lemma {:induction false} CountedIsRowSize(row: Row, schema: Schema)
    requires WellTyped(row, schema)
    ensures CountedRow(row, schema) == RowSize(row)
  {
    if row != [] {
      CountedIsRowSize(row[1..], schema[1..]);
    }
  }

  /** The first pass: the buffer size, or why there is none. */
  method MeasureRow(row: Row, schema: Schema) returns (r: Result<nat, RowError>)
    requires |row| == |schema|
    ensures match TextError(row, schema)
      case None => r == Ok(CountedRow(row, schema))
      case Some(e) => r == Err(e)
  {
    var totalSize := 0;
    for i := 0 to |row|
      invariant totalSize + CountedRow(row[i..], schema[i..]) == CountedRow(row, schema)
      invariant TextError(row[i..], schema[i..]) == TextError(row, schema)
    {
      assert row[i..][1..] == row[i + 1..] && schema[i..][1..] == schema[i + 1..];
      totalSize := totalSize + 1;
      if row[i].Null? {
        continue;
      }
      match schema[i].dataType
      case TEXT =>
        if !row[i].Str? {
          return Err(BadVariantAccess);
        }
        if |row[i].s| > TextLimit(schema[i]) {
          return Err(TextTooLong);
        }
        totalSize := totalSize + 2 + |row[i].s|;
      case BOOLEAN => totalSize := totalSize + 1;
      case INTEGER => totalSize := totalSize + 8;
      case FLOAT => totalSize := totalSize + 8;
    }
    return Ok(totalSize);
  }

  method CopyInto(output: array<byte>, offset: nat, bytes: seq<byte>)
    requires offset + |bytes| <= output.Length
    modifies output
    ensures Wrote(old(output[..]), output[..], offset, bytes)
  {
    forall k | 0 <= k < |bytes| {
      output[offset + k] := bytes[k];
    }
  }

  /** One step of the second pass; `Err` when the value is not of the column's type. */
  method WriteValue(v: Value, c: Column, output: array<byte>, offset: nat) returns (r: Result<nat, RowError>)
    requires offset + CountedValue(v, c) <= output.Length
    requires c.dataType == TEXT && !v.Null? ==> v.Str?
    modifies output
    ensures r.Ok? <==> HasType(v, c.dataType)
    ensures r.Ok? ==> r.value == offset + |ValueBytes(v)| && Wrote(old(output[..]), output[..], offset, ValueBytes(v))
    ensures r.Err? ==> r.error == BadVariantAccess
  {
    hide LittleEndian, IntBits, TextBytes, Wrote;
    if v.Null? {
      CopyInto(output, offset, [1]);
      return Ok(offset + 1);
    }
    ghost var d := output[..];
    CopyInto(output, offset, [0]);
    ghost var d1 := output[..];
    match c.dataType
    case BOOLEAN =>
      if !v.Bool? {
        return Err(BadVariantAccess);
      }
      CopyInto(output, offset + 1, [if v.b then 1 else 0]);
      WroteBoth(d, d1, output[..], offset, [0], [if v.b then 1 else 0]);
      return Ok(offset + 2);
    case INTEGER =>
      if !v.Int? {
        return Err(BadVariantAccess);
      }
      CopyInto(output, offset + 1, LittleEndian(IntBits(v.i), 8));
      WroteBoth(d, d1, output[..], offset, [0], LittleEndian(IntBits(v.i), 8));
      return Ok(offset + 9);
    case FLOAT =>
      if !v.Flt? {
        return Err(BadVariantAccess);
      }
      CopyInto(output, offset + 1, LittleEndian(v.f, 8));
      WroteBoth(d, d1, output[..], offset, [0], LittleEndian(v.f, 8));
      return Ok(offset + 9);
    case TEXT =>
      var len := Cast16(|v.s|);
      CopyInto(output, offset + 1, LittleEndian(len, 2));
      ghost var d2 := output[..];
      CopyInto(output, offset + 3, TextBytes(v.s[..len]));
      WroteBoth(d, d1, d2, offset, [0], LittleEndian(len, 2));
      WroteBoth(d, d2, output[..], offset, [0] + LittleEndian(len, 2), TextBytes(v.s[..len]));
      return Ok(offset + 3 + len);
  }

  lemma {:induction false} NoTextErrorAt(row: Row, schema: Schema, i: nat)
    requires |row| == |schema| && i < |row| && TextError(row, schema).None?
    ensures schema[i].dataType == TEXT && !row[i].Null? ==> row[i].Str? && |row[i].s| <= TextLimit(schema[i])
  {
    if i > 0 {
      NoTextErrorAt(row[1..], schema[1..], i - 1);
    }
  }

  lemma ValueBytesAtMostCounted(v: Value, c: Column)
    requires HasType(v, c.dataType)
    ensures |ValueBytes(v)| <= CountedValue(v, c) == ValueSize(v)
  {
    hide LittleEndian, TextBytes, IntBits;
  }

  /** The first `i` values have been written, `offset` bytes in all; the rest of the buffer is still zero. */
  ghost predicate WrittenUpTo(d: seq<byte>, offset: nat, row: Row, schema: Schema, i: nat)
    requires |row| == |schema|
  {
    && i <= |row|
    && offset <= |d|
    && offset + CountedRow(row[i..], schema[i..]) <= |d|
    && d[..offset] + RowBytes(row[i..]) == RowBytes(row)
    && d[offset..] == Zeros(|d| - offset)
    && (forall k :: 0 <= k < i ==> Storable(row[k], schema[k]))
  }

  lemma RowBytesFrom(row: Row, i: nat)
    requires i < |row|
    ensures RowBytes(row[i..]) == ValueBytes(row[i]) + RowBytes(row[i + 1..])
  {
    assert row[i..][1..] == row[i + 1..];
  }

  lemma CountedRowFrom(row: Row, schema: Schema, i: nat)
    requires |row| == |schema| && i < |row|
    ensures CountedRow(row[i..], schema[i..])
         == CountedValue(row[i], schema[i]) + CountedRow(row[i + 1..], schema[i + 1..])
  {
    assert row[i..][1..] == row[i + 1..] && schema[i..][1..] == schema[i + 1..];
  }

  lemma PrefixGrows(d: seq<byte>, e: seq<byte>, o: nat, b: seq<byte>, rest: seq<byte>)
    requires Wrote(d, e, o, b)
    requires d[o..] == Zeros(|d| - o)
    ensures e[..o + |b|] + rest == d[..o] + (b + rest)
    ensures e[o + |b|..] == Zeros(|d| - o - |b|)
  {
    assert e[..o + |b|] == e[..o] + e[o..o + |b|];
    forall k | o + |b| <= k < |e|
      ensures e[k] == 0
    {
      assert e[k] == d[k] == d[o..][k - o];
    }
  }

  lemma WrittenOneMore(d: seq<byte>, e: seq<byte>, offset: nat, row: Row, schema: Schema, i: nat)
    requires |row| == |schema| && i < |row|
    requires WrittenUpTo(d, offset, row, schema, i)
    requires Storable(row[i], schema[i])
    requires Wrote(d, e, offset, ValueBytes(row[i]))
    ensures WrittenUpTo(e, offset + |ValueBytes(row[i])|, row, schema, i + 1)
  {
    hide ValueBytes;
    ValueBytesAtMostCounted(row[i], schema[i]);
    RowBytesFrom(row, i);
    CountedRowFrom(row, schema, i);
    PrefixGrows(d, e, offset, ValueBytes(row[i]), RowBytes(row[i + 1..]));
  }

  lemma WrittenNothing(d: seq<byte>, row: Row, schema: Schema)
    requires |row| == |schema|
    requires |d| == CountedRow(row, schema) && d == Zeros(|d|)
    ensures WrittenUpTo(d, 0, row, schema, 0)
  {
    assert row[0..] == row && schema[0..] == schema;
  }

  /** After the last value the row was well typed, and the bytes it left unused are the padding. */
  lemma WrittenAll(d: seq<byte>, offset: nat, row: Row, schema: Schema)
    requires |row| == |schema| && |d| == CountedRow(row, schema)
    requires WrittenUpTo(d, offset, row, schema, |row|)
    ensures WellTyped(row, schema)
    ensures d == Padded(row)
  {
    CountedIsRowSize(row, schema);
    assert d == d[..offset] + d[offset..];
    assert row[|row|..] == [];
  }

  /** Before the second pass meets value `i` the buffer has room for it, and its text has been checked. */
  lemma RoomForNext(d: seq<byte>, offset: nat, row: Row, schema: Schema, i: nat)
    requires |row| == |schema| && i < |row| && TextError(row, schema).None?
    requires WrittenUpTo(d, offset, row, schema, i)
    ensures offset + CountedValue(row[i], schema[i]) <= |d|
    ensures schema[i].dataType == TEXT && !row[i].Null? ==> row[i].Str?
    ensures HasType(row[i], schema[i].dataType) <==> Storable(row[i], schema[i])
  {
    NoTextErrorAt(row, schema, i);
    CountedRowFrom(row, schema, i);
  }

  lemma MistypedRow(row: Row, schema: Schema, i: nat)
    requires |row| == |schema| && i < |row| && !HasType(row[i], schema[i].dataType)
    ensures !WellTyped(row, schema)
  {
  }

  /** `serializeRow`: every byte of the buffer is written once, or is padding that the cast left over. */
  method SerializeRow(row: Row, schema: Schema) returns (r: Result<array<byte>, RowError>)
    ensures r.Ok? ==> fresh(r.value)
    ensures match Serialized(row, schema)
      case Ok(b) => r.Ok? && r.value[..] == b
      case Err(e) => r == Err(e)
  {
    if |row| != |schema| {
      return Err(SchemaMismatch);
    }
    var measured := MeasureRow(row, schema);
    if measured.Err? {
      return Err(measured.error);
    }
    var output := new byte[measured.value](_ => 0);
    var ok := WriteRow(row, schema, output);
    if !ok {
      return Err(BadVariantAccess);
    }
    return Ok(output);
  }

  /** The second pass, over the zeroed buffer of the size the first pass found. */
  method WriteRow(row: Row, schema: Schema, output: array<byte>) returns (ok: bool)
    requires |row| == |schema| && TextError(row, schema).None?
    requires output.Length == CountedRow(row, schema)
    requires output[..] == Zeros(output.Length)
    modifies output
    ensures ok <==> WellTyped(row, schema)
    ensures ok ==> output[..] == Padded(row)
  {
    hide *;
    var offset: nat := 0;
    WrittenNothing(output[..], row, schema);
    for i := 0 to |row|
      invariant WrittenUpTo(output[..], offset, row, schema, i)
    {
      RoomForNext(output[..], offset, row, schema, i);
      ghost var d := output[..];
      var written := WriteValue(row[i], schema[i], output, offset);
      if written.Err? {
        assert !WellTyped(row, schema) by { MistypedRow(row, schema, i); }
        return false;
      }
      WrittenOneMore(d, output[..], offset, row, schema, i);
      offset := written.value;
    }
    WrittenAll(output[..], offset, row, schema);
    return true;
  }

  /** `deserializeRow` on the bytes from `start` on: it stops by itself, without being told a length. */
  method DeserializeRow(data: array<byte>, start: nat, schema: Schema) returns (row: Row)
    requires start <= data.Length && Decode(data[start..], schema).Some?
    ensures row == Decode(data[start..], schema).value.0
  {
    hide DecodeValue;
    row := [];
    var offset := start;
    ghost var all := Decode(data[start..], schema).value.0;
    for i := 0 to |schema|
      invariant start <= offset <= data.Length
      invariant Decode(data[offset..], schema[i..]).Some?
      invariant row + Decode(data[offset..], schema[i..]).value.0 == all
    {
      assert schema[i..][1..] == schema[i + 1..];
      var value, size := ReadValue(data, offset, schema[i].dataType);
      assert data[offset..][size..] == data[offset + size..];
      row := row + [value];
      offset := offset + size;
    }
  }

  /** One step of the reader: the null flag, then the field. */
  method ReadValue(data: array<byte>, offset: nat, t: DataType) returns (value: Value, size: nat)
    requires offset <= data.Length && DecodeValue(data[offset..], t).Some?
    ensures DecodeValue(data[offset..], t) == Some((value, size))
  {
    if data[offset] != 0 {
      return Null, 1;
    }
    CapacityOf8();
    match t
    case BOOLEAN => return Bool(data[offset + 1] != 0), 2;
    case INTEGER =>
      assert data[offset..][1..9] == data[offset + 1..offset + 9];
      return Int(IntOfBits(FromLittleEndian(data[offset + 1..offset + 9]))), 9;
    case FLOAT =>
      assert data[offset..][1..9] == data[offset + 1..offset + 9];
      return Flt(FromLittleEndian(data[offset + 1..offset + 9])), 9;
    case TEXT =>
      assert data[offset..][1..3] == data[offset + 1..offset + 3];
      var n := FromLittleEndian(data[offset + 1..offset + 3]);
      assert data[offset..][3..3 + n] == data[offset + 3..offset + 3 + n];
      return Str(BytesText(data[offset + 3..offset + 3 + n])), 3 + n;
  }

  // The 16-bit cast of the row length that every caller of a page operation makes.

  /** The longest row a page takes: a page of 4096 bytes with its header and one slot entry. */
  const MAX_ROW: nat := 4076

  /** Whether an empty page takes an encoding of this size, whole or cut: only the 16-bit length counts. */
  predicate PageTakes(size: nat) { 1 <= Cast16(size) <= MAX_ROW }

  /** The bytes that reach the page. */
  function Stored(row: Row): seq<byte> {
    Padded(row)[..Cast16(|Padded(row)|)]
  }

  function WidestValue(c: Column): Value {
    match c.dataType
    case INTEGER => Int(0)
    case FLOAT => Flt(0)
    case BOOLEAN => Bool(false)
    case TEXT => Str(seq(TextLimit(c), i => 'x'))
  }

  /** The most bytes a row of this schema can take. */
  function MaxRowSize(schema: Schema): (n: nat)
    ensures n >= 2 * |schema|
  {
    if schema == [] then 0 else ValueSize(WidestValue(schema[0])) + MaxRowSize(schema[1..])
  }

  /** No row takes more than 65536 bytes, and one of exactly 65536 has the cast length 0, which a page refuses. */
  predicate Fits(schema: Schema) {
    MaxRowSize(schema) <= 0x1_0000
  }

  lemma {:induction false} RowSizeAtMostMax(row: Row, schema: Schema)
    requires WellTyped(row, schema)
    ensures RowSize(row) <= MaxRowSize(schema)
  {
    if row != [] {
      RowSizeAtMostMax(row[1..], schema[1..]);
    }
  }

  lemma {:induction false} ValueSizeAtMostRowSize(row: Row, i: nat)
    requires i < |row|
    ensures ValueSize(row[i]) <= RowSize(row)
  {
    if i > 0 {
      ValueSizeAtMostRowSize(row[1..], i - 1);
    }
  }

  lemma {:induction false} WidestRow(schema: Schema) returns (row: Row)
    ensures WellTyped(row, schema)
    ensures RowSize(row) == MaxRowSize(schema)
  {
    if schema == [] {
      row := [];
    } else {
      var rest := WidestRow(schema[1..]);
      row := [WidestValue(schema[0])] + rest;
      assert row[1..] == rest;
    }
  }

  /** A value of at most `n` bytes, and at most 7 fewer, when the column can take as many. */
  lemma ValueOfSize(c: Column, n: nat) returns (v: Value)
    requires 1 <= n <= ValueSize(WidestValue(c))
    ensures Storable(v, c) && n - 7 <= ValueSize(v) <= n
  {
    v := Null;
    if c.dataType == TEXT && n >= 3 {
      v := Str(seq(n - 3, i => 'x'));
    } else if n == ValueSize(WidestValue(c)) {
      v := WidestValue(c);
    }
  }

  /** Between one byte a column and the widest row, no eight sizes in a row are missing. */
  lemma {:induction false} RowOfSize(schema: Schema, n: nat) returns (row: Row)
    requires |schema| <= n <= MaxRowSize(schema)
    ensures WellTyped(row, schema) && n - 7 <= RowSize(row) <= n
  {
    if schema == [] {
      row := [];
    } else {
      var rest, v;
      if n - 1 <= MaxRowSize(schema[1..]) {
        v := Null;
        rest := RowOfSize(schema[1..], n - 1);
      } else {
        rest := WidestRow(schema[1..]);
        v := ValueOfSize(schema[0], n - MaxRowSize(schema[1..]));
      }
      row := [v] + rest;
      assert row[1..] == rest;
    }
  }

  /** A schema that does not fit has a row that a page takes cut short. */
  lemma CutRow(schema: Schema) returns (row: Row)
    requires !Fits(schema)
    ensures WellTyped(row, schema) && RowSize(row) >= 0x1_0000 && PageTakes(RowSize(row))
  {
    if MaxRowSize(schema) <= 0x1_0000 + MAX_ROW {
      row := WidestRow(schema);
    } else {
      var k := if |schema| <= 0x1_0000 + MAX_ROW then 1 else (|schema| - MAX_ROW + 0xFFFF) / 0x1_0000;
      row := RowOfSize(schema, 0x1_0000 * k + MAX_ROW);
      assert 0x1_0000 * k + MAX_ROW - 7 <= RowSize(row) <= 0x1_0000 * k + MAX_ROW;
      hide RowSize, MaxRowSize, WellTyped;
      CastOfSum(RowSize(row) - 0x1_0000 * k, k);
    }
  }

  lemma CastOfSum(n: nat, k: nat)
    requires n < 0x1_0000
    ensures Cast16(n + 0x1_0000 * k) == n
  {
  }

  /**
   When the cast is harmless, exactly: every row that a page takes is read back from the
   bytes that reach the page, whatever follows them, if and only if no row of the schema takes more
   than 65536 bytes, which the column definitions alone decide.
   */
  lemma StoredFaithfullyIffFits(schema: Schema)
    ensures Fits(schema) <==>
      forall row, tail :: WellTyped(row, schema) && PageTakes(RowSize(row)) ==>
        Decode(Stored(row) + tail, schema) == Some((row, |Stored(row)|))
  {
    if Fits(schema) {
      forall row, tail | WellTyped(row, schema) && PageTakes(RowSize(row))
        ensures Decode(Stored(row) + tail, schema) == Some((row, |Stored(row)|))
      {
        RowSizeAtMostMax(row, schema);
        StoredWhole(row);
        RoundTripIff(row, schema);
      }
    } else {
      var row := CutRow(schema);
      var tail := Padded(row)[|Stored(row)|..];
      assert Stored(row) + tail == Padded(row);
      CutRowIsLost(row, schema, tail);
    }
  }

  /** Below 65536 bytes the cast changes no length. */
  lemma StoredWhole(row: Row)
    requires RowSize(row) < 0x1_0000
    ensures TextsFit(row)
    ensures Stored(row) == Padded(row)
  {
    WholeSlice(Padded(row));
    hide RowSize, Padded, RowBytes;
    forall i | 0 <= i < |row| && row[i].Str?
      ensures |row[i].s| < 0x1_0000
    {
      ValueSizeAtMostRowSize(row, i);
    }
  }

  lemma WholeSlice(b: seq<byte>)
    requires |b| < 0x1_0000
    ensures b[..Cast16(|b|)] == b
  {
  }

  lemma CutRowIsLost(row: Row, schema: Schema, tail: seq<byte>)
    requires WellTyped(row, schema) && RowSize(row) >= 0x1_0000
    requires Stored(row) + tail == Padded(row)
    ensures Decode(Stored(row) + tail, schema) != Some((row, |Stored(row)|))
  {
    DecodeRowBytes(row, schema, Padded(row));
    TruncatedIffTextsLong(row);
    RowBytesAtMostRowSize(row);
  }
}
