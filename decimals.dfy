/** Exact decimal numbers, standing in for the floating-point values that the
    dashboard's numeric coercion produces. A value is mantissa * 10^-scale. */
module Decimals {

  datatype Decimal = Decimal(mantissa: int, scale: nat)

  function Pow10(n: nat): (p: nat)
    ensures p >= 1
  {
    if n == 0 then 1 else 10 * Pow10(n - 1)
  }

  /** The canonical representative of a value: no trailing zero in the
      mantissa while there are fractional digits. */
  predicate Canonical(d: Decimal) {
    d.scale == 0 || d.mantissa % 10 != 0
  }

  /** Numbers produced by parsing; two of them are equal exactly when they
      denote the same value (lemma SameValueIsEqual). */
  type Number = d: Decimal | Canonical(d) witness Decimal(0, 0)

  /** The two decimals denote the same rational value. */
  predicate SameValue(a: Decimal, b: Decimal) {
    a.mantissa * Pow10(b.scale) == b.mantissa * Pow10(a.scale)
  }

  /** Numeric order on values, as Python compares two floats. */
  predicate Less(a: Decimal, b: Decimal) {
    a.mantissa * Pow10(b.scale) < b.mantissa * Pow10(a.scale)
  }

  predicate LessEq(a: Decimal, b: Decimal) {
    a.mantissa * Pow10(b.scale) <= b.mantissa * Pow10(a.scale)
  }

  /** Drops trailing zeros of the mantissa, keeping the value. */
  function Normalise(d: Decimal): (r: Number)
    ensures SameValue(r, d)
    ensures r.scale <= d.scale
    decreases d.scale
  {
    if d.scale > 0 && d.mantissa % 10 == 0 then
      var d' := Decimal(d.mantissa / 10, d.scale - 1);
      var r := Normalise(d');
      assert d.mantissa == 10 * d'.mantissa;
      assert Pow10(d.scale) == 10 * Pow10(d'.scale);
      calc {
        r.mantissa * Pow10(d.scale);
        10 * (r.mantissa * Pow10(d'.scale));
        10 * (d'.mantissa * Pow10(r.scale));
        d.mantissa * Pow10(r.scale);
      }
      r
    else
      d
  }

  lemma Pow10Add(m: nat, n: nat)
    ensures Pow10(m + n) == Pow10(m) * Pow10(n)
  {
    if n > 0 {
      Pow10Add(m, n - 1);
      assert Pow10(m + n) == 10 * Pow10(m + n - 1);
    }
  }

  lemma MulDistrib(x: int, y: int, z: int)
    ensures (x + y) * z == x * z + y * z
  {
  }

  lemma MulAssoc(x: int, y: int, z: int)
    ensures x * (y * z) == (x * y) * z
  {
  }

  lemma MulLessMono(x: int, y: int, k: int)
    requires x < y && k > 0
    ensures x * k < y * k
  {
    assert y * k - x * k == (y - x) * k;
  }

  lemma MulCancel(x: int, y: int, k: int)
    requires k > 0 && x * k == y * k
    ensures x == y
  {
    if x < y {
      MulLessMono(x, y, k);
    } else if y < x {
      MulLessMono(y, x, k);
    }
  }

  /** Two canonical decimals with the same value are the same decimal, so
      deduplicating Numbers deduplicates values. */
  lemma SameValueIsEqual(a: Number, b: Number)
    requires SameValue(a, b)
    ensures a == b
  {
    if a.scale < b.scale {
      ScaleGapTrailingZero(a, b);
    } else if b.scale < a.scale {
      ScaleGapTrailingZero(b, a);
    } else {
      MulCancel(a.mantissa, b.mantissa, Pow10(a.scale));
    }
  }

  /** With equal values, the decimal of larger scale has a mantissa ending
      in zero, so it cannot be canonical. */
  lemma ScaleGapTrailingZero(a: Decimal, b: Decimal)
    requires SameValue(a, b) && a.scale < b.scale
    ensures b.mantissa % 10 == 0
  {
    var k: nat := b.scale - a.scale;
    var pa, pk := Pow10(a.scale), Pow10(k);
    Pow10Add(a.scale, k);
    assert a.mantissa * (pa * pk) == b.mantissa * pa;
    CancelFactor(a.mantissa, b.mantissa, pa, pk);
    assert pk == 10 * Pow10(k - 1);
    TenDivides(a.mantissa, b.mantissa, Pow10(k - 1));
  }

  lemma CancelFactor(x: int, y: int, p: int, q: int)
    requires p > 0 && x * (p * q) == y * p
    ensures y == x * q
  {
    MulAssoc(x, q, p);
    assert x * (p * q) == x * (q * p);
    MulCancel(x * q, y, p);
  }

  lemma TenDivides(x: int, y: int, p: int)
    requires y == x * (10 * p)
    ensures y % 10 == 0
  {
    assert x * (10 * p) == 10 * (x * p);
  }

  lemma MulLeMono(x: int, y: int, k: int)
    requires x <= y && k > 0
    ensures x * k <= y * k
  {
    if x < y {
      MulLessMono(x, y, k);
    }
  }

  lemma Regroup(x: int, y: int, z: int)
    ensures (x * y) * z == (x * z) * y
  {
    MulAssoc(x, y, z);
    MulAssoc(x, z, y);
  }

  /** Comparing by cross-multiplication is transitive when the second step
      is strict, whether the first one is strict or not. */
  lemma CrossTransitive(am: int, bm: int, cm: int, pa: int, pb: int, pc: int)
    requires pa > 0 && pb > 0 && pc > 0
    requires am * pb <= bm * pa && bm * pc < cm * pb
    ensures am * pc < cm * pa
  {
    MulLeMono(am * pb, bm * pa, pc);
    MulLessMono(bm * pc, cm * pb, pa);
    Regroup(am, pb, pc);
    Regroup(bm, pa, pc);
    Regroup(cm, pb, pa);
    assert (am * pc) * pb < (cm * pa) * pb;
    if cm * pa <= am * pc {
      MulLeMono(cm * pa, am * pc, pb);
    }
  }

  lemma LessTransitive(a: Decimal, b: Decimal, c: Decimal)
    requires Less(a, b) && Less(b, c)
    ensures Less(a, c)
  {
    CrossTransitive(a.mantissa, b.mantissa, c.mantissa, Pow10(a.scale), Pow10(b.scale), Pow10(c.scale));
  }

  lemma LessEqOfLess(a: Decimal, b: Decimal)
    requires Less(a, b)
    ensures LessEq(a, b) && !LessEq(b, a)
  {
  }

  lemma LessLessEqTransitive(a: Decimal, b: Decimal, c: Decimal)
    requires LessEq(a, b) && Less(b, c)
    ensures Less(a, c)
  {
    CrossTransitive(a.mantissa, b.mantissa, c.mantissa, Pow10(a.scale), Pow10(b.scale), Pow10(c.scale));
  }

  /** Numbers are totally ordered: distinct ones are strictly comparable. */
  lemma Trichotomy(a: Number, b: Number)
    ensures a == b || Less(a, b) || Less(b, a)
  {
    if !Less(a, b) && !Less(b, a) {
      SameValueIsEqual(a, b);
    }
  }

  lemma LessIrreflexive(a: Decimal)
    ensures !Less(a, a)
  {
  }
}
