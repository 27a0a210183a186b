/** When the key that a statement's values make is the key of the row stored for them. */
module StoredKeys {
  import opened ByteCodec
  import opened Options
  import opened RowSerializer
  import BPlusTreeModel
  import Conversions
  import K = IndexKeys

  function AsObject(v: Value): K.DbObject {
    match v
    case IntValue(i) => K.DbInt(i)
    case FloatValue(d) => K.DbDouble(d)
    case BoolValue(b) => K.DbBool(b)
    case StrValue(s) => K.DbString(s)
    case _ => K.DbNull
  }

  /** The values of the columns of an index. */
  function Picked(row: seq<Value>, columns: seq<nat>): (r: seq<K.DbObject>)
    requires forall j | 0 <= j < |columns| :: columns[j] < |row|
    ensures |r| == |columns| && forall j | 0 <= j < |r| :: r[j] == AsObject(row[columns[j]])
  {
    seq(|columns|, j requires 0 <= j < |columns| => AsObject(row[columns[j]]))
  }

  /** A key as a number. */
  ghost function KeyOf(values: seq<K.DbObject>): int
    requires K.Fits(values)
  {
    K.Rank(K.KeyBytes(values))
  }

  /** The row as it is read back once it is stored. */
  function StoredRow(lib: Library, cols: seq<ColumnType>, given: seq<Value>): (r: seq<Value>)
    requires Storable(cols, given)
    ensures |r| == |given| && forall i | 0 <= i < |r| :: r[i] == Shown(cols[i], Converted(lib, cols[i], given[i]))
  {
    seq(|given|, i requires 0 <= i < |given| => Shown(cols[i], Converted(lib, cols[i], given[i])))
  }

  /** The key of the row that an image holds; 0 for an image that cannot be read, or a key that is too long. */
  ghost function ImageKey(cols: seq<ColumnType>, columns: seq<nat>, behind: nat -> byte, image: Bytes): int {
    if |cols| > MAX_COLUMNS || |image| != RowSize(cols) || exists j :: 0 <= j < |columns| && columns[j] >= |cols| then 0
    else
      var row := Decoded(cols, image, behind);
      if exists i | 0 <= i < |row| :: row[i].None? then 0
      else
        var values := Picked(seq(|row|, i requires 0 <= i < |row| => row[i].value), columns);
        if K.Fits(values) then KeyOf(values) else 0
  }

  lemma {:induction false} ImageKeyFits(cols: seq<ColumnType>, columns: seq<nat>, behind: nat -> byte, image: Bytes)
    ensures 0 <= ImageKey(cols, columns, behind, image) < BPlusTreeModel.KeySpace(K.KEY_SIZE)
  {
    hide Decoded, Picked, K.KeyBytes, K.Rank, BPlusTreeModel.KeySpace, K.Fits;
    KeyBound();
  }

  lemma KeyBound()
    ensures 0 < BPlusTreeModel.KeySpace(K.KEY_SIZE)
    ensures forall values | K.Fits(values) :: 0 <= KeyOf(values) < BPlusTreeModel.KeySpace(K.KEY_SIZE)
  {
    hide K.KeyBytes, K.Rank, BPlusTreeModel.KeySpace, K.Fits;
    forall values | K.Fits(values) ensures 0 <= KeyOf(values) < BPlusTreeModel.KeySpace(K.KEY_SIZE) {
      K.RankBound(K.KeyBytes(values));
    }
  }

  lemma {:induction false} ImageKeyIs(lib: Library, cols: seq<ColumnType>, columns: seq<nat>, behind: nat -> byte, given: seq<Value>)
    requires Storable(cols, given) && forall j | 0 <= j < |columns| :: columns[j] < |cols|
    requires forall i | 0 <= i < |cols| :: Survives(cols, Coerced(lib, cols, given), behind, i)
    requires K.Fits(Picked(StoredRow(lib, cols, given), columns))
    ensures ImageKey(cols, columns, behind, Image(cols, Coerced(lib, cols, given)))
         == KeyOf(Picked(StoredRow(lib, cols, given), columns))
  {
    hide Image, Survives, Converted, Shown, KeyOf, AsObject, K.Fits;
    var row, image := Coerced(lib, cols, given), Image(cols, Coerced(lib, cols, given));
    RowRoundTrip(cols, row, behind);
    var read := Decoded(cols, image, behind);
    assert forall i | 0 <= i < |read| :: read[i] == Some(StoredRow(lib, cols, given)[i]);
    assert seq(|read|, i requires 0 <= i < |read| => read[i].value) == StoredRow(lib, cols, given);
  }

  lemma SameKey(a: seq<K.DbObject>, b: seq<K.DbObject>)
    requires K.Fits(a) && K.Fits(b)
    ensures KeyOf(a) == KeyOf(b) <==> K.KeyBytes(a) == K.KeyBytes(b)
    ensures KeyOf(a) == KeyOf(b) <==> K.Trim(K.TupleBytes(a)) == K.Trim(K.TupleBytes(b))
  {
    hide K.KeyBytes, K.Rank;
    K.CompareByRank(K.KeyBytes(a), K.KeyBytes(b));
    K.KeysCollide(a, b);
  }

  /** The statement's values make the key of the stored row exactly if their bytes differ in nothing but zeros at the end. */
  lemma {:induction false} KeyStoredExact(lib: Library, cols: seq<ColumnType>, columns: seq<nat>, given: seq<Value>)
    requires Storable(cols, given) && forall j | 0 <= j < |columns| :: columns[j] < |cols|
    requires K.Fits(Picked(given, columns)) && K.Fits(Picked(StoredRow(lib, cols, given), columns))
    ensures KeyOf(Picked(given, columns)) == KeyOf(Picked(StoredRow(lib, cols, given), columns)) <==>
              K.Trim(K.TupleBytes(Picked(given, columns))) == K.Trim(K.TupleBytes(Picked(StoredRow(lib, cols, given), columns)))
  {
    hide KeyOf, K.Fits;
    SameKey(Picked(given, columns), Picked(StoredRow(lib, cols, given), columns));
  }

  /** Values of their columns' types make the key of the stored row. */
  lemma {:induction false} TypedKeyIsStored(lib: Library, cols: seq<ColumnType>, columns: seq<nat>, given: seq<Value>)
    requires Storable(cols, given) && forall j | 0 <= j < |columns| :: columns[j] < |cols|
    requires forall j | 0 <= j < |columns| :: HasType(given[columns[j]], cols[columns[j]]) && !given[columns[j]].Blank?
    ensures Picked(given, columns) == Picked(StoredRow(lib, cols, given), columns)
  {
    hide Converted, HasType;
    var a, b := Picked(given, columns), Picked(StoredRow(lib, cols, given), columns);
    forall j | 0 <= j < |columns| ensures a[j] == b[j] {
      StoredAsIs(lib, cols[columns[j]], given[columns[j]]);
    }
  }

  // --- An integer and a double under one key -----------------------------------------------------------------------

  lemma Extended(x: nat)
    ensures K.Big(x * 0x1_0000_0000, 8) == K.Big(x, 4) + [0, 0, 0, 0]
  {
    hide K.Big;
    ShiftedOut(x * 0x100_0000, 7);
    ShiftedOut(x * 0x1_0000, 6);
    ShiftedOut(x * 0x100, 5);
    ShiftedOut(x, 4);
  }

  lemma ShiftedOut(x: nat, n: nat)
    ensures K.Big(x * 256, n + 1) == K.Big(x, n) + [0]
  {
    assert (x * 256) / 256 == x && (x * 256) % 256 == 0;
  }

  lemma FlipsFit(i: int32, d: bits64)
    ensures K.FlipSign(i) * 0x1_0000_0000 < 0x1_0000_0000_0000_0000 && K.FlipDouble(d) < 0x1_0000_0000_0000_0000
  {
  }

  lemma BigSame(x: nat, y: nat)
    requires x < 0x1_0000_0000_0000_0000 && y < 0x1_0000_0000_0000_0000
    ensures K.Big(x, 8) == K.Big(y, 8) <==> x == y
  {
    hide K.Big, K.Rank;
    K.KeySpaces();
    K.RankOfBig(x, 8);
    K.RankOfBig(y, 8);
  }

  lemma KeyOfOne(v: K.DbObject)
    requires !v.DbString?
    ensures K.Fits([v]) && K.KeyBytes([v]) == K.ValueBytes(v) + Zeros(K.KEY_SIZE - |K.ValueBytes(v)|)
  {
    hide K.Big;
    K.OneValue(v);
  }

  /** An integer and a double have the same key exactly if the double's first four bytes are the integer's and the others zero. */
  lemma IntAndDouble(i: int32, d: bits64)
    ensures K.Fits([K.DbInt(i)]) && K.Fits([K.DbDouble(d)])
    ensures KeyOf([K.DbInt(i)]) == KeyOf([K.DbDouble(d)]) <==> K.FlipSign(i) * 0x1_0000_0000 == K.FlipDouble(d)
  {
    hide K.Big, K.FlipSign, K.FlipDouble, K.TupleBytes, K.Trim, KeyOf, K.KeyBytes, K.Fits;
    var a, b := K.Big(K.FlipSign(i), 4), K.Big(K.FlipDouble(d), 8);
    KeyOfOne(K.DbInt(i));
    KeyOfOne(K.DbDouble(d));
    SameKey([K.DbInt(i)], [K.DbDouble(d)]);
    Extended(K.FlipSign(i));
    FlipsFit(i, d);
    BigSame(K.FlipSign(i) * 0x1_0000_0000, K.FlipDouble(d));
    assert a + Zeros(124) == (a + [0, 0, 0, 0]) + Zeros(120);
    assert (a + [0, 0, 0, 0] + Zeros(120))[..8] == a + [0, 0, 0, 0] && (b + Zeros(120))[..8] == b;
  }

  lemma IntKeysDiffer(i: int32, j: int32)
    ensures K.Fits([K.DbInt(i)]) && K.Fits([K.DbInt(j)])
    ensures KeyOf([K.DbInt(i)]) == KeyOf([K.DbInt(j)]) <==> i == j
  {
    hide K.Big, K.FlipSign, K.TupleBytes, K.Trim, KeyOf, K.KeyBytes, K.Fits;
    KeyOfOne(K.DbInt(i));
    KeyOfOne(K.DbInt(j));
    SameKey([K.DbInt(i)], [K.DbInt(j)]);
    var a, b := K.Big(K.FlipSign(i), 4), K.Big(K.FlipSign(j), 4);
    assert (a + Zeros(124))[..4] == a && (b + Zeros(124))[..4] == b;
    WordsSame(i, j);
  }

  lemma WordsSame(i: int32, j: int32)
    ensures K.Big(K.FlipSign(i), 4) == K.Big(K.FlipSign(j), 4) <==> i == j
  {
    hide K.Big, K.Rank;
    K.KeySpaces();
    K.RankOfBig(K.FlipSign(i), 4);
    K.RankOfBig(K.FlipSign(j), 4);
  }

  // --- The input ---------------------------------------------------------------------------------------------------

  // The bit pattern of 5.5.
  const FIVE_AND_A_HALF: bits64 := 0x4016_0000_0000_0000

  lemma CutFiveAndAHalf()
    ensures Conversions.CanCast(FIVE_AND_A_HALF) && Conversions.Cut(FIVE_AND_A_HALF) == 5
  {
    hide Pow2, K.Value, K.Scaled;
    var w := Pow2(1073);
    OneMorePower(1073);
    FiveAndAHalfValue();
    PowerOf49();
    Conversions.PowersAdd(49, 1024);
    Conversions.Associate(11, Pow2(49), Pow2(1024));
    Conversions.Divided(11 * w, 2 * w);
    Between(11 * w / (2 * w), w);
  }

  lemma OneMorePower(n: nat)
    ensures Pow2(n + 1) == 2 * Pow2(n)
  {
  }

  lemma FiveAndAHalfValue()
    ensures K.Value(FIVE_AND_A_HALF) == (K.FRACTION + 0x6_0000_0000_0000) * Pow2(1024)
  {
    hide Pow2;
    Conversions.FieldsOf(1025, 0x6_0000_0000_0000);
  }

  lemma PowerOf49()
    ensures Pow2(49) * 11 == K.FRACTION + 0x6_0000_0000_0000
  {
    assert Pow2(52) == 2 * Pow2(51) && Pow2(50) == 2 * Pow2(49);
    hide Pow2;
    Conversions.BigPowers();
  }

  lemma Between(q: int, w: nat)
    requires w >= 1 && q >= 0 && q * (2 * w) <= 11 * w < (q + 1) * (2 * w)
    ensures q == 5
  {
    if q >= 6 { K.Scale(6, q, 2 * w, 2 * w); }
    if 0 <= q <= 4 { K.Scale(q + 1, 5, 2 * w, 2 * w); }
  }

  /** An integer column stores 5 for 5.5, and the key of 5.5 is that of no other integer than 1075183616. */
  lemma FractionalKey(lib: Library, i: int32)
    ensures Converted(lib, IntColumn, FloatValue(FIVE_AND_A_HALF)) == IntValue(5)
    ensures K.Fits([K.DbInt(i)]) && K.Fits([K.DbDouble(FIVE_AND_A_HALF)])
    ensures KeyOf([K.DbInt(i)]) == KeyOf([K.DbDouble(FIVE_AND_A_HALF)]) <==> i == 1075183616
  {
    hide Conversions.Cut, K.TupleBytes, KeyOf;
    CutFiveAndAHalf();
    IntAndDouble(i, FIVE_AND_A_HALF);
  }
}
