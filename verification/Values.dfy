/** SQL values, columns and rows, with the value equality and order of the source. */
module Values {

  const TWO63: int := 0x8000_0000_0000_0000
  const TWO64: int := 0x1_0000_0000_0000_0000

  /** `char`: the source's strings are sequences of 8-bit characters. */
  type char8 = c: char | c as int < 256
  type Text = seq<char8>

  type int64 = i: int | -TWO63 <= i < TWO63

  type int32 = i: int | -0x8000_0000 <= i < 0x8000_0000

  /** A `double`, kept as its 64-bit pattern. */
  type Float = bits: nat | bits < TWO64

  /** The alternatives of the variant, in the order of the source; `Null` is `nullptr_t`. */
  datatype Value = Int(i: int64) | Flt(f: Float) | Str(s: Text) | Bool(b: bool) | Null

  datatype DataType = INTEGER | FLOAT | TEXT | BOOLEAN

  datatype Column = Column(name: Text, dataType: DataType, textLength: int32, notNull: bool, primaryKey: bool)

  type Row = seq<Value>
  type Schema = seq<Column>

  function ColumnNames(schema: Schema): (names: seq<Text>)
    ensures |names| == |schema|
    ensures forall i :: 0 <= i < |schema| ==> names[i] == schema[i].name
  {
    seq(|schema|, i requires 0 <= i < |schema| => schema[i].name)
  }

  // IEEE 754 binary64: sign bit, 11 exponent bits, 52 fraction bits.

  const INFINITY: nat := 0x7FF0_0000_0000_0000

  function Magnitude(f: Float): nat { f % TWO63 }

  predicate IsNaN(f: Float) { Magnitude(f) > INFINITY }

  /** Numbers other than NaN are ordered as their signed magnitudes; both zeros are 0 here. */
  function SignedMagnitude(f: Float): int { if f < TWO63 then Magnitude(f) else -(Magnitude(f) as int) }

  predicate FloatEq(a: Float, b: Float) { !IsNaN(a) && !IsNaN(b) && SignedMagnitude(a) == SignedMagnitude(b) }

  predicate FloatLess(a: Float, b: Float) { !IsNaN(a) && !IsNaN(b) && SignedMagnitude(a) < SignedMagnitude(b) }

  function FloatNegate(f: Float): Float { (f + TWO63) % TWO64 }

  /** Rounding arithmetic and number parsing are the platform's: any functions will do for the model. */
  datatype FloatArith = FloatArith(
    add: (Float, Float) -> Float,
    subtract: (Float, Float) -> Float,
    multiply: (Float, Float) -> Float,
    divide: (Float, Float) -> Float,
    parse: Text -> Float)

  /** `==` of two variants: the same alternative, and equal as that type. */
  predicate ValueEq(a: Value, b: Value) {
    match (a, b)
    case (Flt(x), Flt(y)) => FloatEq(x, y)
    case (_, _) => a == b
  }

  lemma ValueEqSymmetric(a: Value, b: Value)
    ensures ValueEq(a, b) == ValueEq(b, a)
  {
  }

  function CompareText(a: Text, b: Text): int {
    if a == [] then (if b == [] then 0 else -1)
    else if b == [] then 1
    else if a[0] != b[0] then (if a[0] < b[0] then -1 else 1)
    else CompareText(a[1..], b[1..])
  }
}
