/** Index keys: 128 bytes that compare byte by byte in the order of the values they encode. */
module IndexKeys {
  import BPlusTreeModel
  import opened ByteCodec

  const KEY_SIZE: nat := BPlusTreeModel.KEY_SIZE
  const TWO31: nat := 0x8000_0000
  const TWO63: nat := 0x8000_0000_0000_0000

  datatype DbObject = DbInt(i: int32) | DbDouble(d: bits64) | DbString(s: Bytes) | DbBool(b: bool) | DbNull

  // --- Comparing byte by byte ----------------------------------------------------------------------------

  /** Negative, zero or positive, by the first byte that differs. */
  function Compare(a: Bytes, b: Bytes): (r: int)
    requires |a| == |b|
    ensures -1 <= r <= 1
    ensures r == 0 <==> a == b
  {
    if a == [] then 0
    else if a[0] < b[0] then -1
    else if a[0] > b[0] then 1
    else Compare(a[1..], b[1..])
  }

  /** The bytes as one number, the first byte the most significant. */
  ghost function Rank(a: Bytes): int {
    if a == [] then 0 else (a[0] as int) * BPlusTreeModel.KeySpace(|a| - 1) + Rank(a[1..])
  }

  lemma {:induction false} RankBound(a: Bytes)
    ensures 0 <= Rank(a) < BPlusTreeModel.KeySpace(|a|)
  {
    if a != [] {
      RankBound(a[1..]);
      var w := BPlusTreeModel.KeySpace(|a| - 1);
      Gap(a[0], 256, Rank(a[1..]), 0, w);
      assert 0 <= (a[0] as int) * w;
    }
  }

  /** Comparing keys byte by byte is comparing the numbers they spell. */
  lemma {:induction false} CompareByRank(a: Bytes, b: Bytes)
    requires |a| == |b|
    ensures Compare(a, b) < 0 <==> Rank(a) < Rank(b)
    ensures Compare(a, b) == 0 <==> Rank(a) == Rank(b)
  {
    if a != [] {
      CompareByRank(a[1..], b[1..]);
      RankBound(a[1..]);
      RankBound(b[1..]);
      var w := BPlusTreeModel.KeySpace(|a| - 1);
      if a[0] < b[0] { Gap(a[0], b[0], Rank(a[1..]), Rank(b[1..]), w); }
      if b[0] < a[0] { Gap(b[0], a[0], Rank(b[1..]), Rank(a[1..]), w); }
    }
  }

  lemma Gap(x: int, y: int, r: int, s: int, w: int)
    requires x < y && 0 <= r < w && 0 <= s
    ensures x * w + r < y * w + s
  {
    assert x * w + w == (x + 1) * w;
    assert (x + 1) * w <= y * w;
  }

  /** The key of all zero bytes comes first, the key of all 0xFF bytes last. */
  lemma {:induction false} LowestRank(n: nat)
    ensures Rank(Zeros(n)) == 0
  {
    if n > 0 {
      LowestRank(n - 1);
      assert Zeros(n)[1..] == Zeros(n - 1);
    }
  }

  function Ones(n: nat): (r: Bytes)
    ensures |r| == n && forall i | 0 <= i < n :: r[i] == 255
  {
    seq(n, _ => 255)
  }

  lemma {:induction false} HighestRank(n: nat)
    ensures Rank(Ones(n)) == BPlusTreeModel.KeySpace(n) - 1
  {
    if n > 0 {
      HighestRank(n - 1);
      assert Ones(n)[1..] == Ones(n - 1);
    }
  }

  lemma {:induction false} CompareConcat(a: Bytes, b: Bytes, x: Bytes, y: Bytes)
    requires |a| == |b| && |x| == |y|
    ensures Compare(a + x, b + y) == if a == b then Compare(x, y) else Compare(a, b)
  {
    if a == [] {
      assert a + x == x && b + y == y;
    } else {
      CompareConcat(a[1..], b[1..], x, y);
      assert (a + x)[1..] == a[1..] + x && (b + y)[1..] == b[1..] + y;
    }
  }

  // --- Fixed-width numbers -----------------------------------------------------------------------------------

  /** `x` in `n` bytes, the most significant first. */
  function Big(x: nat, n: nat): (r: Bytes)
    ensures |r| == n
  {
    if n == 0 then [] else Big(x / 256, n - 1) + [x % 256]
  }

  lemma {:induction false} RankSnoc(a: Bytes, z: byte)
    ensures Rank(a + [z]) == 256 * Rank(a) + z
  {
    if a == [] {
      assert (a + [z])[1..] == [];
    } else {
      RankSnoc(a[1..], z);
      assert (a + [z])[1..] == a[1..] + [z];
      Factor(a[0], BPlusTreeModel.KeySpace(|a| - 1), Rank(a[1..]));
    }
  }

  lemma Factor(x: int, w: int, r: int)
    ensures x * (256 * w) + 256 * r == 256 * (x * w + r)
  {
  }

  lemma {:induction false} RankOfBig(x: nat, n: nat)
    requires x < BPlusTreeModel.KeySpace(n)
    ensures Rank(Big(x, n)) == x
  {
    if n > 0 {
      RankOfBig(x / 256, n - 1);
      RankSnoc(Big(x / 256, n - 1), x % 256);
    }
  }

  /** A signed integer with its sign bit flipped. */
  function FlipSign(i: int32): nat {
    var u := if i < 0 then i + 2 * TWO31 else i;
    if u >= TWO31 then u - TWO31 else u + TWO31
  }

  /** A negative double with all bits flipped, another one with its sign bit flipped. */
  function FlipDouble(d: bits64): nat {
    if d >= TWO63 then 2 * TWO63 - 1 - d else d + TWO63
  }

  // --- The order the keys are meant to have -------------------------------------------------------------------

  /** Doubles in the order of section 5.10 of IEEE 754-2019 (totalOrder): by sign, and by magnitude under the sign. */
  function TotalOrder(d: bits64): int {
    if d < TWO63 then d else -1 - (d - TWO63)
  }

  function Sign(x: int): int {
    if x < 0 then -1 else if x > 0 then 1 else 0
  }

  /** Byte strings in lexicographic order, a proper prefix first. */
  function CompareStrings(s: Bytes, t: Bytes): int {
    if s == [] && t == [] then 0
    else if s == [] then -1
    else if t == [] then 1
    else if s[0] != t[0] then Sign((s[0] as int) - (t[0] as int))
    else CompareStrings(s[1..], t[1..])
  }

  /** Both are integers, both doubles or both strings. */
  predicate SameType(a: DbObject, b: DbObject) {
    (a.DbInt? && b.DbInt?) || (a.DbDouble? && b.DbDouble?) || (a.DbString? && b.DbString?)
  }

  function CompareValues(a: DbObject, b: DbObject): int
    requires SameType(a, b)
  {
    match a
    case DbInt(i) => Sign(i - b.i)
    case DbDouble(d) => Sign(TotalOrder(d) - TotalOrder(b.d))
    case DbString(s) => CompareStrings(s, b.s)
  }

  /** Equally typed tuples of integers and doubles; the last value may also be a string without NUL bytes. */
  predicate Comparable(a: seq<DbObject>, b: seq<DbObject>) {
    && |a| == |b|
    && forall k | 0 <= k < |a| ::
         && SameType(a[k], b[k])
         && (a[k].DbString? ==> k == |a| - 1 && 0 !in a[k].s && 0 !in b[k].s)
  }

  /** Lexicographic by value. */
  function CompareTuples(a: seq<DbObject>, b: seq<DbObject>): int
    requires Comparable(a, b)
  {
    if a == [] then 0
    else
      var c := CompareValues(a[0], b[0]);
      if c != 0 then c else CompareTuples(a[1..], b[1..])
  }

  // --- Building a key ----------------------------------------------------------------------------------------------

  function ValueBytes(v: DbObject): Bytes {
    match v
    case DbInt(i) => Big(FlipSign(i), 4)
    case DbDouble(d) => Big(FlipDouble(d), 8)
    case DbString(s) => s
    case DbBool(b) => Big(FlipSign(if b then 1 else 0), 4)
    case DbNull => [0]
  }

  function TupleBytes(values: seq<DbObject>): Bytes {
    if values == [] then [] else ValueBytes(values[0]) + TupleBytes(values[1..])
  }

  function Fill(bytes: Bytes, n: nat): (r: Bytes)
    requires |bytes| <= n
    ensures |r| == n
  {
    bytes + Zeros(n - |bytes|)
  }

  predicate Fits(values: seq<DbObject>) {
    |TupleBytes(values)| <= KEY_SIZE
  }

  function KeyBytes(values: seq<DbObject>): (r: Bytes)
    requires Fits(values)
    ensures |r| == KEY_SIZE
  {
    Fill(TupleBytes(values), KEY_SIZE)
  }

  // --- The keys have that order -----------------------------------------------------------------------------------

  lemma KeySpaces()
    ensures BPlusTreeModel.KeySpace(4) == 0x1_0000_0000
    ensures BPlusTreeModel.KeySpace(8) == 0x1_0000_0000_0000_0000
  {
    assert BPlusTreeModel.KeySpace(2) == 256 * BPlusTreeModel.KeySpace(1) == 65536;
    assert BPlusTreeModel.KeySpace(4) == 256 * BPlusTreeModel.KeySpace(3);
    assert BPlusTreeModel.KeySpace(6) == 256 * BPlusTreeModel.KeySpace(5);
    assert BPlusTreeModel.KeySpace(8) == 256 * BPlusTreeModel.KeySpace(7);
  }

  /** Integers and doubles take a fixed number of bytes, which compare as the values do. */
  lemma NumberOrder(a: DbObject, b: DbObject)
    requires SameType(a, b) && !a.DbString?
    ensures |ValueBytes(a)| == |ValueBytes(b)|
    ensures Compare(ValueBytes(a), ValueBytes(b)) == CompareValues(a, b)
  {
    KeySpaces();
    CompareByRank(ValueBytes(a), ValueBytes(b));
    match a
    case DbInt(i) =>
      RankOfBig(FlipSign(i), 4);
      RankOfBig(FlipSign(b.i), 4);
    case DbDouble(d) =>
      RankOfBig(FlipDouble(d), 8);
      RankOfBig(FlipDouble(b.d), 8);
  }

  /** Strings without NUL bytes compare as strings when both are filled up with NULs. */
  lemma {:induction false} StringOrder(s: Bytes, t: Bytes, n: nat)
    requires |s| <= n && |t| <= n && 0 !in s && 0 !in t
    ensures Compare(Fill(s, n), Fill(t, n)) == CompareStrings(s, t)
  {
    if s == [] && t == [] {
      assert Fill(s, n) == Fill(t, n);
    } else if s != [] && t != [] {
      StringOrder(s[1..], t[1..], n - 1);
      assert Fill(s, n)[1..] == Fill(s[1..], n - 1) && Fill(t, n)[1..] == Fill(t[1..], n - 1);
    } else if s == [] {
      assert t[0] in t && Fill(s, n)[0] == 0 && Fill(t, n)[0] == t[0];
    } else {
      assert s[0] in s && Fill(t, n)[0] == 0 && Fill(s, n)[0] == s[0];
    }
  }

  lemma LastStringOrder(a: seq<DbObject>, b: seq<DbObject>, n: nat)
    requires Comparable(a, b) && |a| == 1 && a[0].DbString? && |TupleBytes(a)| <= n && |TupleBytes(b)| <= n
    ensures Compare(Fill(TupleBytes(a), n), Fill(TupleBytes(b), n)) == CompareTuples(a, b)
  {
    var s, t := a[0].s, b[0].s;
    assert a[1..] == [] && b[1..] == [];
    assert TupleBytes(a) == s + [] == s && TupleBytes(b) == t + [] == t;
    StringOrder(s, t, n);
  }

  lemma {:induction false} TupleOrder(a: seq<DbObject>, b: seq<DbObject>, n: nat)
    requires Comparable(a, b) && |TupleBytes(a)| <= n && |TupleBytes(b)| <= n
    ensures Compare(Fill(TupleBytes(a), n), Fill(TupleBytes(b), n)) == CompareTuples(a, b)
    decreases |a|
  {
    if a == [] {
      assert Fill(TupleBytes(a), n) == Fill(TupleBytes(b), n);
    } else {
      var x, y := ValueBytes(a[0]), ValueBytes(b[0]);
      assert SameType(a[0], b[0]);
      if a[0].DbString? {
        LastStringOrder(a, b, n);
      } else {
        NumberOrder(a[0], b[0]);
        hide ValueBytes, CompareValues;
        assert Comparable(a[1..], b[1..]);
        TupleOrder(a[1..], b[1..], n - |x|);
        CompareConcat(x, y, Fill(TupleBytes(a[1..]), n - |x|), Fill(TupleBytes(b[1..]), n - |x|));
        assert Fill(TupleBytes(a), n) == x + Fill(TupleBytes(a[1..]), n - |x|);
        assert Fill(TupleBytes(b), n) == y + Fill(TupleBytes(b[1..]), n - |x|);
      }
    }
  }

  lemma {:induction false} SameTuples(a: seq<DbObject>, b: seq<DbObject>)
    requires Comparable(a, b)
    ensures CompareTuples(a, b) == 0 <==> a == b
  {
    if a != [] {
      assert SameType(a[0], b[0]);
      if a[0].DbString? { SameStrings(a[0].s, b[0].s); }
      assert Comparable(a[1..], b[1..]);
      SameTuples(a[1..], b[1..]);
      assert a == [a[0]] + a[1..] && b == [b[0]] + b[1..];
    }
  }

  lemma {:induction false} SameStrings(s: Bytes, t: Bytes)
    ensures CompareStrings(s, t) == 0 <==> s == t
  {
    if s != [] && t != [] {
      SameStrings(s[1..], t[1..]);
      assert s == [s[0]] + s[1..] && t == [t[0]] + t[1..];
    }
  }

  /** Keys compare as the tuples they are built from, and different tuples have different keys. */
  lemma KeyOrder(a: seq<DbObject>, b: seq<DbObject>)
    requires Comparable(a, b) && Fits(a) && Fits(b)
    ensures Compare(KeyBytes(a), KeyBytes(b)) == CompareTuples(a, b)
    ensures KeyBytes(a) == KeyBytes(b) <==> a == b
    ensures Rank(KeyBytes(a)) < Rank(KeyBytes(b)) <==> CompareTuples(a, b) < 0
  {
    TupleOrder(a, b, KEY_SIZE);
    SameTuples(a, b);
    CompareByRank(KeyBytes(a), KeyBytes(b));
  }

  // --- Where different tuples share a key ----------------------------------------------------------------------------

  /** A string that is not the last value runs into the next one. */
  lemma StringsRunTogether()
    ensures KeyBytes([DbString([97]), DbString([98, 99])]) == KeyBytes([DbString([97, 98]), DbString([99])])
  {
    assert TupleBytes([DbString([97]), DbString([98, 99])]) == [97] + TupleBytes([DbString([98, 99])]);
    assert TupleBytes([DbString([97, 98]), DbString([99])]) == [97, 98] + TupleBytes([DbString([99])]);
    assert TupleBytes([DbString([98, 99])]) == [98, 99] + TupleBytes([]);
    assert TupleBytes([DbString([99])]) == [99] + TupleBytes([]);
  }

  /** NULL shares its key with the smallest integer and with the empty string. */
  lemma NullIsSmallestInt()
    ensures Fits([DbNull]) && Fits([DbInt(-0x8000_0000)])
    ensures KeyBytes([DbNull]) == KeyBytes([DbInt(-0x8000_0000)]) == KeyBytes([DbString([])])
  {
    var low := DbInt(-0x8000_0000);
    assert Big(0, 4) == [0, 0, 0, 0] by {
      assert Big(0, 1) == Big(0, 0) + [0];
      assert Big(0, 2) == Big(0, 1) + [0];
      assert Big(0, 3) == Big(0, 2) + [0];
    }
    assert TupleBytes([low]) == [0, 0, 0, 0] + TupleBytes([]);
    assert TupleBytes([DbNull]) == [0] + TupleBytes([]);
    assert TupleBytes([DbString([])]) == [] + TupleBytes([]);
  }

  /** The bytes without the zeros at their end. */
  function Trim(b: Bytes): (r: Bytes)
    ensures |r| <= |b| && r == b[..|r|] && (r == [] || r[|r| - 1] != 0)
    ensures forall i | |r| <= i < |b| :: b[i] == 0
  {
    if b == [] || b[|b| - 1] != 0 then b else Trim(b[..|b| - 1])
  }

  lemma FillBytes(b: Bytes, n: nat)
    requires |b| <= n
    ensures forall i | 0 <= i < n :: Fill(b, n)[i] == if i < |b| then b[i] else 0
  {
  }

  lemma TrimOfFilled(b: Bytes, n: nat)
    requires |b| <= n
    ensures Trim(Fill(b, n)) == Trim(b)
  {
    FillBytes(b, n);
    hide Trim, Fill;
    SameTrim(Fill(b, n), Trim(b));
  }

  /** What is left after trimming is what nothing but zeros follow. */
  lemma SameTrim(b: Bytes, t: Bytes)
    requires |t| <= |b| && t == b[..|t|] && (t == [] || t[|t| - 1] != 0)
    requires forall i | |t| <= i < |b| :: b[i] == 0
    ensures Trim(b) == t
  {
    var r := Trim(b);
    assert |t| <= |r|;
    assert |r| <= |t|;
  }

  /** Two lists of values have the same key exactly when their bytes differ in nothing but zeros at the end. */
  lemma KeysCollide(a: seq<DbObject>, b: seq<DbObject>)
    requires Fits(a) && Fits(b)
    ensures KeyBytes(a) == KeyBytes(b) <==> Trim(TupleBytes(a)) == Trim(TupleBytes(b))
  {
    hide TupleBytes, Trim;
    var x, y := TupleBytes(a), TupleBytes(b);
    TrimOfFilled(x, KEY_SIZE);
    TrimOfFilled(y, KEY_SIZE);
    if Trim(x) == Trim(y) {
      forall i | 0 <= i < KEY_SIZE ensures KeyBytes(a)[i] == KeyBytes(b)[i] {
        FilledAt(x, i);
        FilledAt(y, i);
      }
    }
  }

  lemma FilledAt(b: Bytes, i: nat)
    requires |b| <= KEY_SIZE && i < KEY_SIZE
    ensures Fill(b, KEY_SIZE)[i] == if i < |Trim(b)| then Trim(b)[i] else 0
  {
  }

  predicate AllStrings(values: seq<DbObject>) {
    forall k | 0 <= k < |values| :: values[k].DbString?
  }

  function Concatenated(values: seq<DbObject>): Bytes
    requires AllStrings(values)
  {
    if values == [] then [] else values[0].s + Concatenated(values[1..])
  }

  /** For tuples of strings: exactly when the strings run together to the same text, zeros at its end aside. */
  lemma {:induction false} StringKeysCollide(a: seq<DbObject>, b: seq<DbObject>)
    requires AllStrings(a) && AllStrings(b) && Fits(a) && Fits(b)
    ensures KeyBytes(a) == KeyBytes(b) <==> Trim(Concatenated(a)) == Trim(Concatenated(b))
  {
    StringBytes(a);
    StringBytes(b);
    KeysCollide(a, b);
  }

  lemma {:induction false} StringBytes(values: seq<DbObject>)
    requires AllStrings(values)
    ensures TupleBytes(values) == Concatenated(values)
  {
    if values != [] {
      StringBytes(values[1..]);
    }
  }

  predicate AllZero(b: Bytes) {
    forall k | 0 <= k < |b| :: b[k] == 0
  }

  /** The values that share the key of NULL: the smallest integer, the double of all ones, and strings of NULs. */
  predicate KeyedLikeNull(v: DbObject) {
    match v
    case DbInt(i) => i == -0x8000_0000
    case DbDouble(d) => d == 0xFFFF_FFFF_FFFF_FFFF
    case DbString(s) => AllZero(s)
    case DbBool(_) => false
    case DbNull => true
  }

  lemma NullKeyExact(v: DbObject)
    requires Fits([v])
    ensures KeyBytes([DbNull]) == KeyBytes([v]) <==> KeyedLikeNull(v)
  {
    hide Trim, TupleBytes, ValueBytes, AllZero, KeyedLikeNull;
    NullIsSmallestInt();
    OneValue(v);
    OneValue(DbNull);
    KeysCollide([DbNull], [v]);
    TrimsAway(ValueBytes(v));
    TrimsAway(ValueBytes(DbNull));
    ZeroBytes(v);
    ZeroBytes(DbNull);
    NullIsNull();
  }

  lemma NullIsNull()
    ensures KeyedLikeNull(DbNull)
  {
  }

  lemma ZeroBytes(v: DbObject)
    ensures AllZero(ValueBytes(v)) <==> KeyedLikeNull(v)
  {
    hide AllZero, Big;
    KeySpaces();
    match v
    case DbInt(i) => BigIsZero(FlipSign(i), 4);
    case DbDouble(d) => BigIsZero(FlipDouble(d), 8);
    case DbString(_) =>
    case DbBool(b) => BigIsZero(FlipSign(if b then 1 else 0), 4);
    case DbNull => ZeroByte();
  }

  lemma ZeroByte()
    ensures AllZero([0])
  {
  }

  lemma OneValue(v: DbObject)
    ensures TupleBytes([v]) == ValueBytes(v)
  {
    assert TupleBytes([v]) == ValueBytes(v) + TupleBytes([]);
  }

  lemma TrimsAway(b: Bytes)
    ensures Trim(b) == [] <==> AllZero(b)
  {
    if AllZero(b) { SameTrim(b, []); }
  }

  lemma {:induction false} BigIsZero(x: nat, n: nat)
    requires x < BPlusTreeModel.KeySpace(n)
    ensures AllZero(Big(x, n)) <==> x == 0
  {
    if n > 0 {
      BigIsZero(x / 256, n - 1);
      var front := Big(x / 256, n - 1);
      assert forall k | 0 <= k < n - 1 :: Big(x, n)[k] == front[k];
      assert Big(x, n)[n - 1] == x % 256;
    }
  }

  // --- What the order of doubles means ------------------------------------------------------------------------------

  const FRACTION: nat := 0x10_0000_0000_0000
  const INFINITY: nat := 0x7FF0_0000_0000_0000

  /** The magnitude of a finite double with exponent field `e` and fraction `f`, in units of the smallest positive one. */
  function Scaled(e: nat, f: nat): nat {
    if e == 0 then f else (FRACTION + f) * Pow2(e - 1)
  }

  function Magnitude(m: nat): nat {
    Scaled(m / FRACTION, m % FRACTION)
  }

  /** The value of a finite double, in those units. */
  function Value(d: bits64): int {
    if d < TWO63 then Magnitude(d) else -(Magnitude(d - TWO63) as int)
  }

  lemma {:induction false} PowGrows(m: nat, n: nat)
    requires m <= n
    ensures Pow2(m) <= Pow2(n)
  {
    if m < n { PowGrows(m, n - 1); }
  }

  lemma ScaledGrows(e: nat, f: nat, e': nat, f': nat)
    requires f < FRACTION && f' < FRACTION && (e < e' || (e == e' && f < f'))
    ensures Scaled(e, f) < Scaled(e', f')
  {
    if e == e' {
      if e > 0 { Below(FRACTION + f, FRACTION + f', Pow2(e - 1)); }
    } else {
      PowGrows(e, e' - 1);
      Scale(FRACTION, FRACTION + f', Pow2(e), Pow2(e' - 1));
      if e > 0 { Below(FRACTION + f, 2 * FRACTION, Pow2(e - 1)); }
    }
  }

  lemma Below(a: nat, b: nat, w: nat)
    requires a < b && w >= 1
    ensures a * w < b * w
  {
    assert b * w == a * w + (b - a) * w;
  }

  lemma MagnitudeGrows(m: nat, n: nat)
    requires m < n
    ensures Magnitude(m) < Magnitude(n)
  {
    hide Scaled;
    ScaledGrows(m / FRACTION, m % FRACTION, n / FRACTION, n % FRACTION);
  }

  lemma Scale(a: nat, b: nat, x: nat, y: nat)
    requires a <= b && x <= y
    ensures a * x <= b * y
  {
    assert a * x <= b * x <= b * y;
  }

  /** For finite doubles the order is that of their values, except that -0 comes before +0. */
  lemma DoubleOrder(c: bits64, d: bits64)
    requires c % TWO63 < INFINITY && d % TWO63 < INFINITY
    ensures Value(c) < Value(d) ==> TotalOrder(c) < TotalOrder(d)
    ensures TotalOrder(c) < TotalOrder(d) ==> Value(c) < Value(d) || (c == TWO63 && d == 0)
  {
    hide Magnitude;
    var m, n := c % TWO63, d % TWO63;
    ZeroMagnitude(m);
    ZeroMagnitude(n);
    if m < n { MagnitudeGrows(m, n); }
    if n < m { MagnitudeGrows(n, m); }
  }

  lemma ZeroMagnitude(m: nat)
    ensures Magnitude(m) == 0 <==> m == 0
  {
    if m > 0 { MagnitudeGrows(0, m); }
  }

  class IndexKey {
    const data: array<byte>

    constructor ()
      ensures fresh(data) && data[..] == Zeros(KEY_SIZE)
    {
      data := new byte[KEY_SIZE](_ => 0);
    }

    /** Puts the bytes at `offset`, or reports that they do not fit. */
    method WriteBytes(bytes: Bytes, offset: nat) returns (ok: bool)
      requires data.Length == KEY_SIZE
      modifies data
      ensures ok == (offset + |bytes| <= KEY_SIZE)
      ensures data[..] == if ok then old(data[..offset]) + bytes + old(data[offset + |bytes|..]) else old(data[..])
    {
      if offset + |bytes| > KEY_SIZE {
        return false;
      }
      CopyInto(data, offset, bytes);
      ok := true;
    }

    /** The key of a list of values, or null when they do not fit. */
    static method FromValues(values: seq<DbObject>) returns (key: IndexKey?)
      ensures key != null <==> |TupleBytes(values)| <= 128
      ensures key != null ==> fresh(key) && key.data[..] == KeyBytes(values)
    {
      hide ValueBytes;
      var k := new IndexKey();
      var offset := 0;
      assert k.data[..] == Fill([], KEY_SIZE);
      for i := 0 to |values|
        invariant k.data.Length == KEY_SIZE && fresh(k.data)
        invariant offset == |TupleBytes(values[..i])| <= KEY_SIZE
        invariant k.data[..] == Fill(TupleBytes(values[..i]), KEY_SIZE)
      {
        ghost var done := TupleBytes(values[..i]);
        TupleSnoc(values, i);
        var bytes := ValueBytes(values[i]);
        var ok := k.WriteBytes(bytes, offset);
        if !ok {
          TupleGrows(values, i + 1);
          return null;
        }
        offset := offset + |bytes|;
        assert k.data[..] == Fill(done + bytes, KEY_SIZE);
      }
      assert values[..|values|] == values;
      key := k;
    }

    method CompareTo(other: IndexKey) returns (r: int)
      requires data.Length == other.data.Length == KEY_SIZE
      ensures r == Compare(data[..], other.data[..])
    {
      for i := 0 to KEY_SIZE
        invariant Compare(data[..], other.data[..]) == Compare(data[i..], other.data[i..])
      {
        assert data[i..][1..] == data[i + 1..] && other.data[i..][1..] == other.data[i + 1..];
        if data[i] < other.data[i] { return -1; }
        if data[i] > other.data[i] { return 1; }
      }
      r := 0;
    }
  }

  lemma Regroup(x: Bytes, y: Bytes, z: Bytes)
    ensures x + (y + z) == x + y + z
  {
  }

  lemma {:induction false} TupleAppend(a: seq<DbObject>, b: seq<DbObject>)
    ensures TupleBytes(a + b) == TupleBytes(a) + TupleBytes(b)
  {
    hide ValueBytes;
    if a == [] {
      assert a + b == b;
    } else {
      TupleAppend(a[1..], b);
      assert (a + b)[1..] == a[1..] + b;
      Regroup(ValueBytes(a[0]), TupleBytes(a[1..]), TupleBytes(b));
    }
  }

  lemma TupleSnoc(values: seq<DbObject>, i: nat)
    requires i < |values|
    ensures TupleBytes(values[..i + 1]) == TupleBytes(values[..i]) + ValueBytes(values[i])
  {
    assert values[..i + 1] == values[..i] + [values[i]];
    TupleAppend(values[..i], [values[i]]);
    assert TupleBytes([values[i]]) == ValueBytes(values[i]) + TupleBytes([]);
  }

  lemma TupleGrows(values: seq<DbObject>, i: nat)
    requires i <= |values|
    ensures |TupleBytes(values[..i])| <= |TupleBytes(values)|
  {
    TupleAppend(values[..i], values[i..]);
    assert values[..i] + values[i..] == values;
  }
}
