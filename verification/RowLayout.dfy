/** Where the bytes of a row lie and what they are, field by field, apart from how they are written and read. */
module RowLayouts {
  import opened Bytes
  import opened Values
  import opened RowCodec

  function Power256(n: nat): nat { if n == 0 then 1 else 256 * Power256(n - 1) }

  /** The number whose byte `j` counts 256 to the power of `j`. */
  function Weighted(b: seq<byte>): nat {
    if b == [] then 0
    else
      var last: nat := b[|b| - 1];
      Weighted(b[..|b| - 1]) + last * Power256(|b| - 1)
  }

  lemma {:induction false} WeightedFromFront(b: seq<byte>)
    requires b != []
    ensures Weighted(b) == b[0] as int + 256 * Weighted(b[1..])
  {
    var n := |b| - 1;
    if n == 0 {
      assert b[..0] == [] && b[1..] == [];
    } else {
      WeightedFromFront(b[..n]);
      assert b[..n][1..] == b[1..][..n - 1] && b[1..][n - 1] == b[n];
      Scaled(b[n], Power256(n - 1));
    }
  }

  lemma Scaled(x: nat, p: nat)
    ensures x * (256 * p) == 256 * (x * p)
  {
  }

  lemma {:induction false} LittleEndianIsWeighted(v: nat, n: nat)
    requires v < Capacity(n)
    ensures Weighted(LittleEndian(v, n)) == v
  {
    if n > 0 {
      var b := LittleEndian(v, n);
      LittleEndianIsWeighted(v / 256, n - 1);
      WeightedFromFront(b);
      assert b[1..] == LittleEndian(v / 256, n - 1);
    }
  }

  /** What the bytes of one value are, after the byte that says whether it is NULL. */
  ghost predicate FieldIs(b: seq<byte>, v: Value) {
    && b != [] && b[0] == (if v.Null? then 1 else 0)
    && match v
       case Null => |b| == 1
       case Bool(x) => |b| == 2 && b[1] == (if x then 1 else 0)
       case Int(i) => |b| == 9 && (Weighted(b[1..]) - i) % TWO64 == 0
       case Flt(f) => |b| == 9 && Weighted(b[1..]) == f
       case Str(s) =>
         var n := |s| % 0x1_0000;
         && |b| == 3 + n && b[1] as int + 256 * b[2] as int == n
         && forall j :: 0 <= j < n ==> b[3 + j] == s[j] as int
  }

  lemma {:induction false} ValueBytesAre(v: Value)
    ensures FieldIs(ValueBytes(v), v)
  {
    CapacityOf8();
    match v
    case Int(i) =>
      LittleEndianIsWeighted(IntBits(i), 8);
      IntInverse(i);
      hide LittleEndian, Weighted, IntBits;
      assert ValueBytes(v)[1..] == LittleEndian(IntBits(i), 8);
    case Flt(f) =>
      LittleEndianIsWeighted(f, 8);
      hide LittleEndian, Weighted;
      assert ValueBytes(v)[1..] == LittleEndian(f, 8);
    case Str(s) => TextBytesAre(s);
    case _ =>
  }

  lemma {:induction false} TextBytesAre(s: Text)
    ensures FieldIs(ValueBytes(Str(s)), Str(s))
  {
    var n := Cast16(|s|);
    CapacityOf8();
    LittleEndianIsWeighted(n, 2);
    var length := LittleEndian(n, 2);
    WeightedFromFront(length);
    WeightedFromFront(length[1..]);
    assert length[1..][1..] == [] && Weighted([]) == 0;
    hide LittleEndian, Weighted;
    var b := ValueBytes(Str(s));
    assert b == [0] + length + TextBytes(s[..n]);
    assert b[1] == length[0] && b[2] == length[1];
    forall j | 0 <= j < n
      ensures b[3 + j] == s[j] as int
    {
      assert b[3 + j] == TextBytes(s[..n])[j];
    }
  }

  /** Where the field of column `i` begins. */
  function Offset(row: Row, i: nat): nat
    requires i <= |row|
  {
    if i == 0 then 0 else Offset(row, i - 1) + |ValueBytes(row[i - 1])|
  }

  lemma {:induction false} OffsetOfRest(row: Row, i: nat)
    requires 0 < i <= |row|
    ensures Offset(row, i) == |ValueBytes(row[0])| + Offset(row[1..], i - 1)
  {
    hide ValueBytes;
    if i > 1 {
      OffsetOfRest(row, i - 1);
      assert row[1..][i - 2] == row[i - 1];
    }
  }

  /** The fields of a row lie one after the other, in the order of the columns, from its first byte on. */
  lemma {:induction false} RowIsLaidOut(row: Row, i: nat)
    requires i < |row|
    ensures var at, n := Offset(row, i), |ValueBytes(row[i])|;
      && at + n == Offset(row, i + 1) <= |RowBytes(row)| <= |Padded(row)|
      && Padded(row)[at..at + n] == ValueBytes(row[i]) && FieldIs(Padded(row)[at..at + n], row[i])
  {
    FieldAt(row, i);
    ValueBytesAre(row[i]);
    hide ValueBytes, FieldIs, RowBytes, Padded;
    PrefixSlice(RowBytes(row), Padded(row), Offset(row, i), |ValueBytes(row[i])|);
  }

  lemma PrefixSlice(a: seq<byte>, b: seq<byte>, at: nat, n: nat)
    requires a <= b && at + n <= |a|
    ensures b[at..at + n] == a[at..at + n]
  {
  }

  lemma SuffixSlice(a: seq<byte>, b: seq<byte>, at: nat, n: nat)
    requires at + n <= |b|
    ensures (a + b)[|a| + at..|a| + at + n] == b[at..at + n]
  {
  }

  lemma {:induction false} FieldAt(row: Row, i: nat)
    requires i < |row|
    ensures Offset(row, i) + |ValueBytes(row[i])| <= |RowBytes(row)|
    ensures RowBytes(row)[Offset(row, i)..Offset(row, i) + |ValueBytes(row[i])|] == ValueBytes(row[i])
  {
    hide ValueBytes;
    if i > 0 {
      FieldAt(row[1..], i - 1);
      OffsetOfRest(row, i);
      var n, at, k := |ValueBytes(row[0])|, Offset(row[1..], i - 1), |ValueBytes(row[i])|;
      SuffixSlice(ValueBytes(row[0]), RowBytes(row[1..]), at, k);
    }
  }
}
