/**
 What comparing two values means, apart from how it is computed: integers as integers, texts as in a
 dictionary, FLOATs as the numbers that IEEE 754 gives their bit patterns.
 */
module Comparisons {
  import opened Values
  import opened Expressions
  import opened Evaluator
  import opened Wrappers

  // The number a FLOAT stands for, in units of 2^-1074, the smallest positive one.

  const FRACTION: nat := 0x10_0000_0000_0000

  function Fraction(f: Float): nat { f % FRACTION }

  function Exponent(f: Float): nat { f / FRACTION % 2048 }

  predicate Negative(f: Float) { f / FRACTION >= 2048 }

  function Power2(n: nat): (p: nat)
    ensures p >= 1
  {
    if n == 0 then 1 else 2 * Power2(n - 1)
  }

  /** Subnormal below exponent 1; an infinity counts as the next number after the largest finite one. */
  function Size(exponent: nat, fraction: nat): nat {
    if exponent == 0 then fraction else (FRACTION + fraction) * Power2(exponent - 1)
  }

  function Units(f: Float): int {
    if Negative(f) then 0 - Size(Exponent(f), Fraction(f)) else Size(Exponent(f), Fraction(f))
  }

  predicate NotANumber(f: Float) { Exponent(f) == 2047 && Fraction(f) != 0 }

  lemma {:induction false} Power2Grows(m: nat, n: nat)
    requires m <= n
    ensures Power2(m) <= Power2(n)
  {
    if m < n {
      Power2Grows(m, n - 1);
    }
  }

  lemma TimesGrows(a: nat, b: nat, k: nat)
    requires k >= 1
    ensures a < b <==> a * k < b * k
    ensures a <= b <==> a * k <= b * k
  {
    if a < b {
      TimesLess(a, b, k);
    } else if b < a {
      TimesLess(b, a, k);
    }
  }

  lemma {:induction false} TimesLess(a: nat, b: nat, k: nat)
    requires a < b && k >= 1
    ensures a * k < b * k
  {
    if k > 1 {
      TimesLess(a, b, k - 1);
      assert a * k == a * (k - 1) + a && b * k == b * (k - 1) + b;
    }
  }

  lemma SizeBelow(exponent: nat, fraction: nat)
    requires fraction < FRACTION
    ensures Size(exponent, fraction) < FRACTION * Power2(exponent)
    ensures exponent > 0 ==> FRACTION * Power2(exponent - 1) <= Size(exponent, fraction)
  {
    if exponent > 0 {
      TimesGrows(FRACTION + fraction, 2 * FRACTION, Power2(exponent - 1));
      TimesGrows(FRACTION, FRACTION + fraction, Power2(exponent - 1));
    }
  }

  /** Numbers grow with their bit patterns. */
  lemma SizeGrows(e: nat, f: nat, d: nat, g: nat)
    requires f < FRACTION && g < FRACTION
    ensures FRACTION * e + f < FRACTION * d + g <==> Size(e, f) < Size(d, g)
  {
    if e == d {
      if e > 0 {
        TimesGrows(FRACTION + f, FRACTION + g, Power2(e - 1));
      }
    } else if e < d {
      SizeApart(e, f, d, g);
    } else {
      SizeApart(d, g, e, f);
    }
  }

  lemma SizeApart(e: nat, f: nat, d: nat, g: nat)
    requires f < FRACTION && g < FRACTION && e < d
    ensures FRACTION * e + f < FRACTION * d + g && Size(e, f) < Size(d, g)
  {
    SizeBelow(e, f);
    SizeBelow(d, g);
    Power2Grows(e, d - 1);
    TimesGrows(Power2(e), Power2(d - 1), FRACTION);
    TimesGrows(e + 1, d, FRACTION);
  }

  lemma Fields(f: Float)
    ensures Fraction(f) < FRACTION && Exponent(f) < 2048
    ensures f == FRACTION * Exponent(f) + Fraction(f) + (if Negative(f) then TWO63 else 0)
    ensures Magnitude(f) == FRACTION * Exponent(f) + Fraction(f)
    ensures Negative(f) <==> f >= TWO63
  {
    assert TWO63 == FRACTION * 2048;
  }

  /** A FLOAT is the number its pattern stands for: equality and order are those of the numbers, without NaNs. */
  lemma FloatsCompareAsNumbers(a: Float, b: Float)
    ensures IsNaN(a) <==> NotANumber(a)
    ensures FloatEq(a, b) <==> !NotANumber(a) && !NotANumber(b) && Units(a) == Units(b)
    ensures FloatLess(a, b) <==> !NotANumber(a) && !NotANumber(b) && Units(a) < Units(b)
  {
    Fields(a);
    Fields(b);
    assert INFINITY == FRACTION * 2047;
    SizeGrows(Exponent(a), Fraction(a), Exponent(b), Fraction(b));
    SizeGrows(Exponent(b), Fraction(b), Exponent(a), Fraction(a));
    SizeGrows(0, 0, Exponent(a), Fraction(a));
    SizeGrows(0, 0, Exponent(b), Fraction(b));
    hide Size, Fraction, Exponent, Negative, Magnitude;
  }

  /** Negation changes the sign of the number and keeps a NaN one. */
  lemma NegatedFloat(f: Float)
    ensures Units(FloatNegate(f)) == -Units(f) && (NotANumber(FloatNegate(f)) <==> NotANumber(f))
    ensures FloatNegate(FloatNegate(f)) == f && FloatNegate(f) != f
  {
    Fields(f);
    SignFlipped(f);
    Fields(FloatNegate(f));
    hide FloatNegate;
    SameFields(Exponent(f), Fraction(f), Exponent(FloatNegate(f)), Fraction(FloatNegate(f)));
    hide Size, Fraction, Exponent, Negative;
  }

  lemma SignFlipped(f: Float)
    ensures FloatNegate(f) == if f < TWO63 then f + TWO63 else f - TWO63
    ensures FloatNegate(FloatNegate(f)) == f
  {
  }

  lemma SameFields(e: nat, f: nat, d: nat, g: nat)
    requires f < FRACTION && g < FRACTION && FRACTION * e + f == FRACTION * d + g
    ensures e == d && f == g
  {
    if e < d {
      SizeApart(e, f, d, g);
    } else if d < e {
      SizeApart(d, g, e, f);
    }
  }

  // Texts.

  /** The texts agree up to `i`, and there `a` ends or has the smaller code. */
  predicate BeforeAt(a: Text, b: Text, i: nat) {
    i <= |a| && i < |b| && a[..i] == b[..i] && (i == |a| || a[i] as int < b[i] as int)
  }

  ghost predicate ComesBefore(a: Text, b: Text) {
    exists i: nat :: BeforeAt(a, b, i)
  }

  lemma OneFurther(a: Text, b: Text, i: nat)
    requires a != [] && b != [] && a[0] == b[0]
    ensures BeforeAt(a, b, i + 1) <==> BeforeAt(a[1..], b[1..], i)
  {
    if i < |a| && i < |b| {
      assert a[..i + 1] == [a[0]] + a[1..][..i] && b[..i + 1] == [b[0]] + b[1..][..i];
      assert a[..i + 1][1..] == a[1..][..i] && b[..i + 1][1..] == b[1..][..i];
    }
  }

  lemma FirstOfBoth(a: Text, b: Text)
    requires a != [] && b != [] && a[0] == b[0]
    ensures ComesBefore(a, b) <==> ComesBefore(a[1..], b[1..])
  {
    assert !BeforeAt(a, b, 0);
    hide BeforeAt;
    if ComesBefore(a, b) {
      var i: nat :| BeforeAt(a, b, i);
      OneFurther(a, b, i - 1);
    }
    if ComesBefore(a[1..], b[1..]) {
      var i: nat :| BeforeAt(a[1..], b[1..], i);
      OneFurther(a, b, i);
    }
  }

  lemma FirstDiffers(a: Text, b: Text)
    requires b != [] && (a == [] || a[0] != b[0])
    ensures ComesBefore(a, b) <==> a == [] || a[0] as int < b[0] as int
  {
    assert a[..0] == b[..0];
    assert BeforeAt(a, b, 0) <==> a == [] || a[0] as int < b[0] as int;
    forall i: nat | i > 0
      ensures !BeforeAt(a, b, i)
    {
      if 0 < i <= |a| && i < |b| {
        assert a[..i][0] == a[0] && b[..i][0] == b[0];
      }
    }
  }

  lemma {:induction false} TextsCompareAsInADictionary(a: Text, b: Text)
    ensures CompareText(a, b) == 0 <==> a == b
    ensures CompareText(a, b) < 0 <==> ComesBefore(a, b)
    ensures CompareText(a, b) > 0 <==> ComesBefore(b, a)
  {
    hide ComesBefore;
    if a == [] || b == [] || a[0] != b[0] {
      if b != [] {
        FirstDiffers(a, b);
      } else {
        NothingBefore(a);
      }
      if a != [] {
        FirstDiffers(b, a);
      } else {
        NothingBefore(b);
      }
    } else {
      FirstOfBoth(a, b);
      FirstOfBoth(b, a);
      TextsCompareAsInADictionary(a[1..], b[1..]);
      assert a == [a[0]] + a[1..] && b == [b[0]] + b[1..];
    }
  }

  lemma NothingBefore(a: Text)
    ensures !ComesBefore(a, [])
  {
  }

  // Values.

  /** Equal values of one type: a FLOAT equals what stands for the same number, and a NaN nothing. */
  predicate Same(l: Value, r: Value) {
    match l
    case Int(i) => r.Int? && i == r.i
    case Flt(f) => r.Flt? && !NotANumber(f) && !NotANumber(r.f) && Units(f) == Units(r.f)
    case Str(s) => r.Str? && s == r.s
    case Bool(b) => r.Bool? && b == r.b
    case Null => r.Null?
  }

  /** Two numbers of one type, or two texts. */
  predicate Comparable(l: Value, r: Value) {
    (l.Int? && r.Int?) || (l.Flt? && r.Flt?) || (l.Str? && r.Str?)
  }

  ghost predicate Less(l: Value, r: Value) {
    match l
    case Int(i) => r.Int? && i < r.i
    case Flt(f) => r.Flt? && !NotANumber(f) && !NotANumber(r.f) && Units(f) < Units(r.f)
    case Str(s) => r.Str? && ComesBefore(s, r.s)
    case _ => false
  }

  /** A NaN takes part, which the source counts as greater on either side. */
  predicate Unordered(l: Value, r: Value) {
    l.Flt? && r.Flt? && (NotANumber(l.f) || NotANumber(r.f))
  }

  predicate Orders(op: BinaryOperator) {
    op == LESS_THAN || op == LESS_THAN_OR_EQUAL || op == GREATER_THAN || op == GREATER_THAN_OR_EQUAL
  }

  predicate Compares(op: BinaryOperator) {
    Orders(op) || op == EQUAL || op == NOT_EQUAL || op == IS || op == IS_NOT
  }

  /** What a comparison says of two values. */
  ghost predicate Says(op: BinaryOperator, l: Value, r: Value)
    requires Compares(op)
  {
    match op
    case EQUAL => Same(l, r)
    case IS => Same(l, r)
    case NOT_EQUAL => !Same(l, r)
    case IS_NOT => !Same(l, r)
    case LESS_THAN => Less(l, r)
    case LESS_THAN_OR_EQUAL => Less(l, r) || Same(l, r)
    case GREATER_THAN => Less(r, l) || Unordered(l, r)
    case GREATER_THAN_OR_EQUAL => Less(r, l) || Same(l, r) || Unordered(l, r)
  }

  lemma EqualityMeans(l: Value, r: Value)
    ensures ValueEq(l, r) <==> Same(l, r)
  {
    if l.Flt? && r.Flt? {
      FloatsCompareAsNumbers(l.f, r.f);
      hide FloatEq, Units, NotANumber;
    }
  }

  /** Equal values other than FLOATs are one and the same value. */
  lemma EqualValuesAreTheSame(l: Value, r: Value)
    requires ValueEq(l, r)
    ensures l == r || (l.Flt? && r.Flt? && Units(l.f) == Units(r.f))
  {
    EqualityMeans(l, r);
  }

  lemma OrderMeans(l: Value, r: Value)
    ensures CompareValues(l, r) == Err(TypeMismatch) <==> !Comparable(l, r)
    ensures CompareValues(l, r).Err? <==> !Comparable(l, r)
    ensures Comparable(l, r) ==>
      && (CompareValues(l, r).value < 0 <==> Less(l, r))
      && (CompareValues(l, r).value == 0 <==> Same(l, r))
      && (CompareValues(l, r).value > 0 <==> Less(r, l) || Unordered(l, r))
  {
    if l.Flt? && r.Flt? {
      FloatsCompareAsNumbers(l.f, r.f);
      FloatsCompareAsNumbers(r.f, l.f);
    } else if l.Str? && r.Str? {
      TextsCompareAsInADictionary(l.s, r.s);
    }
    hide FloatEq, FloatLess, Units, NotANumber, CompareText, ComesBefore;
  }

  /**
   Every comparison of every two values: it says what it means, an ordering of values that have no
   order is a type mismatch, and no other operator compares.
   */
  lemma ComparisonMeans(op: BinaryOperator, l: Value, r: Value)
    ensures ApplyCondition(op, l, r) ==
      if !Compares(op) then Err(NotImplemented)
      else if Orders(op) && !Comparable(l, r) then Err(TypeMismatch)
      else Ok(Says(op, l, r))
  {
    EqualityMeans(l, r);
    OrderMeans(l, r);
    hide ValueEq, CompareValues, Same, Less, Unordered, Comparable;
    assert Same(Null, Null) && (l.Null? != r.Null? ==> !Same(l, r)) by {
      NullEqualsNull(l, r);
    }
  }

  lemma NullEqualsNull(l: Value, r: Value)
    ensures Same(Null, Null) && (l.Null? != r.Null? ==> !Same(l, r))
  {
  }

  // The orderings agree with one another.

  lemma {:induction false} BeforeIsTransitive(a: Text, b: Text, c: Text)
    requires ComesBefore(a, b) && ComesBefore(b, c)
    ensures ComesBefore(a, c)
  {
    var i: nat :| BeforeAt(a, b, i);
    var j: nat :| BeforeAt(b, c, j);
    var k := if i < j then i else j;
    assert a[..k] == a[..i][..k] && b[..i][..k] == b[..k] == b[..j][..k] && c[..j][..k] == c[..k];
    if i < j {
      assert b[i] == b[..j][i] == c[..j][i] == c[i];
    } else if j < i {
      assert a[j] == a[..i][j] == b[..i][j] == b[j];
    }
    assert BeforeAt(a, c, k);
  }

  /** Of two comparable values exactly one is less, or they are the same, or a NaN takes part; and less is transitive. */
  lemma LessIsAnOrder(l: Value, m: Value, r: Value)
    requires Comparable(l, r)
    ensures Less(l, r) || Same(l, r) || Less(r, l) || Unordered(l, r)
    ensures !(Less(l, r) && Less(r, l)) && !(Less(l, r) && Same(l, r)) && !(Less(l, r) && Unordered(l, r))
    ensures !(Same(l, r) && Unordered(l, r))
    ensures Less(l, m) && Less(m, r) ==> Less(l, r)
    ensures Less(l, m) && Same(m, r) ==> Less(l, r)
    ensures Same(l, m) && Less(m, r) ==> Less(l, r)
  {
    OrderMeans(l, r);
    OrderMeans(r, l);
    if l.Str? && m.Str? && ComesBefore(l.s, m.s) && ComesBefore(m.s, r.s) {
      BeforeIsTransitive(l.s, m.s, r.s);
    }
    hide CompareValues, Units, NotANumber, ComesBefore;
  }
}
