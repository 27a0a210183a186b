/** Numbers as a column stores them: integers as doubles, and doubles cut to integers. */
module Conversions {
  import opened ByteCodec
  import K = IndexKeys

  // The number of the smallest positive doubles that make up 1 is two to this power.
  const UNIT: nat := 1074

  // --- Powers of two ------------------------------------------------------------------------------------------------

  lemma {:induction false} PowersAdd(a: nat, b: nat)
    ensures Pow2(a + b) == Pow2(a) * Pow2(b)
  {
    if a > 0 {
      PowersAdd(a - 1, b);
      Twice(Pow2(a - 1), Pow2(b));
    }
  }

  lemma Twice(x: nat, y: nat)
    ensures 2 * (x * y) == (2 * x) * y
  {
  }

  lemma SmallPowers()
    ensures Pow2(4) == 16 && Pow2(16) == 65536
  {
    assert Pow2(4) == 2 * Pow2(3) && Pow2(2) == 2 * Pow2(1);
    hide Pow2;
    PowersAdd(4, 4);
    PowersAdd(8, 8);
  }

  lemma BigPowers()
    ensures Pow2(32) == 0x1_0000_0000 && Pow2(52) == K.FRACTION
  {
    hide Pow2;
    SmallPowers();
    PowersAdd(16, 16);
    PowersAdd(32, 16);
    PowersAdd(48, 4);
  }

  /** The place of the highest bit. */
  function HighBit(m: nat): (p: nat)
    requires m > 0
    ensures Pow2(p) <= m < 2 * Pow2(p)
  {
    if m == 1 then 0 else 1 + HighBit(m / 2)
  }

  lemma HighBitOfInt(m: nat)
    requires 0 < m <= 0x8000_0000
    ensures HighBit(m) <= 31
  {
    hide Pow2, HighBit;
    BigPowers();
    if HighBit(m) >= 32 { K.PowGrows(32, HighBit(m)); }
  }

  // --- An integer as a double ----------------------------------------------------------------------------------------

  function Size(i: int32): nat {
    if i < 0 then 0 - i else i as int
  }

  /** The fraction field of a whole number with its highest bit at `p`. */
  function Fraction(m: nat, p: nat): nat
    requires Pow2(p) <= m && p <= 52
  {
    (m - Pow2(p)) * Pow2(52 - p)
  }

  lemma FractionFits(m: nat, p: nat)
    requires Pow2(p) <= m < 2 * Pow2(p) && p <= 52
    ensures Fraction(m, p) < K.FRACTION
    ensures K.FRACTION + Fraction(m, p) == m * Pow2(52 - p)
  {
    hide Pow2;
    BigPowers();
    PowersAdd(p, 52 - p);
    var w, q := Pow2(p), Pow2(52 - p);
    Distribute(m - w, w, q);
    K.Below(m - w, w, q);
  }

  lemma Distribute(a: nat, b: nat, w: nat)
    ensures (a + b) * w == a * w + b * w
  {
  }

  /** The double with the value of an integer, which always exists. */
  function DoubleOf(i: int32): bits64 {
    if i == 0 then 0
    else
      var m := Size(i);
      var p := HighBit(m);
      HighBitOfInt(m);
      FractionFits(m, p);
      (if i < 0 then K.TWO63 else 0) + (1023 + p) * K.FRACTION + Fraction(m, p)
  }

  lemma DoubleOfValue(i: int32)
    ensures DoubleOf(i) % K.TWO63 < K.INFINITY
    ensures K.Value(DoubleOf(i)) == i * Pow2(UNIT)
  {
    hide Pow2, HighBit, Fraction, K.Scaled;
    if i == 0 {
      ZeroValue();
    } else {
      var m, p := Size(i), HighBit(Size(i));
      HighBitOfInt(m);
      FractionFits(m, p);
      var e, f := 1023 + p, Fraction(m, p);
      FieldsOf(e, f);
      assert DoubleOf(i) % K.TWO63 == e * K.FRACTION + f;
      ScaledIs(m, p, f);
      Negated(m, Pow2(UNIT));
    }
  }

  lemma Negated(a: int, b: int)
    ensures (0 - a) * b == 0 - a * b
  {
  }

  lemma ZeroValue()
    ensures K.Value(0) == 0
  {
  }

  lemma FieldsOf(e: nat, f: nat)
    requires f < K.FRACTION && e < 2047
    ensures (e * K.FRACTION + f) / K.FRACTION == e && (e * K.FRACTION + f) % K.FRACTION == f
    ensures e * K.FRACTION + f < K.INFINITY
  {
  }

  lemma ScaledIs(m: nat, p: nat, f: nat)
    requires p <= 52 && K.FRACTION + f == m * Pow2(52 - p)
    ensures K.Scaled(1023 + p, f) == m * Pow2(UNIT)
  {
    ScaledUp(1023 + p, f);
    hide Pow2, K.Scaled;
    PowersAdd(52 - p, 1022 + p);
    Associate(m, Pow2(52 - p), Pow2(1022 + p));
  }

  lemma ScaledUp(e: nat, f: nat)
    requires e > 0
    ensures K.Scaled(e, f) == (K.FRACTION + f) * Pow2(e - 1)
  {
  }

  lemma Associate(a: nat, b: nat, c: nat)
    ensures (a * b) * c == a * (b * c)
  {
  }

  // --- A double cut to an integer ---------------------------------------------------------------------------------------

  /** The value of a finite double without its fraction. */
  function Cut(d: bits64): int {
    var v, unit := K.Value(d), Pow2(UNIT);
    if v >= 0 then v / unit else -((-v) / unit)
  }

  /** A cast to a 32-bit integer is defined for finite doubles in its range. */
  predicate CanCast(d: bits64) {
    d % K.TWO63 < K.INFINITY && -0x8000_0000 <= Cut(d) < 0x8000_0000
  }

  /** Cutting goes towards zero, by less than one. */
  lemma CutTowardsZero(d: bits64)
    ensures
      var v, k, unit := K.Value(d), Cut(d), Pow2(UNIT);
      if v >= 0 then k * unit <= v < (k + 1) * unit else (k - 1) * unit < v <= k * unit
  {
    hide Pow2, K.Value;
    var v, unit := K.Value(d), Pow2(UNIT);
    Divided(if v >= 0 then v else -v, unit);
  }

  lemma Divided(v: int, unit: int)
    requires v >= 0 && unit >= 1
    ensures (v / unit) * unit <= v < (v / unit + 1) * unit
    ensures (0 - v / unit - 1) * unit < 0 - v <= (0 - v / unit) * unit
  {
    var q := v / unit;
    assert v == q * unit + v % unit;
    assert (q + 1) * unit == q * unit + unit;
    Negated(q, unit);
    Negated(q + 1, unit);
  }

  /** An integer that was made a double comes back. */
  lemma CutOfDouble(i: int32)
    ensures CanCast(DoubleOf(i)) && Cut(DoubleOf(i)) == i
  {
    hide K.Value, Pow2, DoubleOf;
    DoubleOfValue(i);
    Whole(Size(i), Pow2(UNIT));
    Negated(Size(i), Pow2(UNIT));
    SignOfProduct(Size(i), Pow2(UNIT));
  }

  lemma Whole(m: nat, unit: nat)
    requires unit >= 1
    ensures (m * unit) / unit == m
  {
    var q := (m * unit) / unit;
    Divided(m * unit, unit);
    if q < m { K.Scale(q + 1, m, unit, unit); }
    if m < q { K.Below(m, q, unit); }
  }

  lemma SignOfProduct(m: nat, unit: nat)
    requires unit >= 1
    ensures m > 0 ==> m * unit > 0
  {
  }
}
