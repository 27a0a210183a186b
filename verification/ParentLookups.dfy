/** When the index that is asked for a parent gives the answer that the rows give. */
module ParentLookups {
  import opened ByteCodec
  import opened ForeignKeys
  import K = IndexKeys
  import StoredKeys

  /** The rows of the referenced table hold such values in the referenced column, and have keys. */
  ghost predicate Holds(s: Schema, rows: Rows, f: ForeignKey, has: Value -> bool)
    requires f.refTable < |s.tables|
  {
    forall p | p in rows && p.table == f.refTable ::
      has(Cell(rows[p], f.refColumn)) && K.Fits(KeyValues(s, f.refTable, rows[p]))
  }

  /** The index is on the referenced column alone, and a value has the key of exactly the values it equals. */
  ghost predicate KeyDecides(s: Schema, f: ForeignKey, v: Value, has: Value -> bool)
    requires f.refTable < |s.tables| && forall w | has(w) :: K.Fits([w])
  {
    && s.tables[f.refTable].key == [f.refColumn] && K.Fits([v])
    && forall w | has(w) :: AreEqual(s.same, v, w) <==> K.KeyBytes([v]) == K.KeyBytes([w])
  }

  ghost predicate AlwaysRight(s: Schema, f: ForeignKey, v: Value, has: Value -> bool)
    requires f.refTable < |s.tables|
  {
    forall rows: Rows | Holds(s, rows, f, has) :: Found(s, rows, f, v) <==> HasParent(s, rows, f, v)
  }

  /** Values that leave room for another byte in a key. */
  ghost predicate Short(has: Value -> bool) {
    forall w | has(w) :: |K.ValueBytes(w)| < K.KEY_SIZE
  }

  lemma ShortFits(w: Value)
    requires |K.ValueBytes(w)| < K.KEY_SIZE
    ensures K.Fits([w])
  {
    K.OneValue(w);
  }

  predicate Distinct(columns: seq<string>) {
    forall i, j | 0 <= i < j < |columns| :: columns[i] != columns[j]
  }

  lemma RightIfDecided(s: Schema, f: ForeignKey, v: Value, has: Value -> bool)
    requires f.refTable < |s.tables| && Short(has) && (forall w | has(w) :: K.Fits([w])) && KeyDecides(s, f, v, has)
    ensures AlwaysRight(s, f, v, has)
  {
    hide K.Fits, K.KeyBytes, AreEqual;
    forall rows: Rows | Holds(s, rows, f, has) ensures Found(s, rows, f, v) <==> HasParent(s, rows, f, v) {
      forall p | p in rows && p.table == f.refTable
        ensures K.Fits(KeyValues(s, f.refTable, rows[p]))
        ensures AreEqual(s.same, v, Cell(rows[p], f.refColumn)) <==> K.KeyBytes(KeyValues(s, f.refTable, rows[p])) == K.KeyBytes([v])
      {
        assert KeyValues(s, f.refTable, rows[p]) == [Cell(rows[p], f.refColumn)];
      }
    }
  }

  /** A table with one row. */
  function Only(f: ForeignKey, row: Row): Rows {
    map[Id(f.refTable, 0, 0) := row]
  }

  lemma OnlyRow(s: Schema, f: ForeignKey, row: Row, v: Value)
    requires f.refTable < |s.tables|
    ensures HasParent(s, Only(f, row), f, v) <==> AreEqual(s.same, v, Cell(row, f.refColumn))
    ensures K.Fits([v]) && K.Fits(KeyValues(s, f.refTable, row)) ==>
              (Found(s, Only(f, row), f, v) <==> K.KeyBytes(KeyValues(s, f.refTable, row)) == K.KeyBytes([v]))
    ensures Found(s, Only(f, row), f, v) ==> K.Fits([v]) && K.Fits(KeyValues(s, f.refTable, row))
  {
    hide K.Fits, K.KeyBytes, AreEqual;
    var p := Id(f.refTable, 0, 0);
    assert p in Only(f, row) && Only(f, row)[p] == row;
  }

  lemma DecidedIfRight(s: Schema, f: ForeignKey, v: Value, has: Value -> bool, w: Value)
    requires f.refTable < |s.tables| && s.tables[f.refTable].key == [f.refColumn]
    requires AlwaysRight(s, f, v, has) && Short(has) && has(w)
    ensures K.Fits([w]) && (AreEqual(s.same, v, w) <==> K.Fits([v]) && K.KeyBytes([v]) == K.KeyBytes([w]))
  {
    hide K.Fits, K.KeyBytes, AreEqual;
    ShortFits(w);
    var row := Row(map[f.refColumn := w]);
    assert KeyValues(s, f.refTable, row) == [w];
    OnlyRow(s, f, row, v);
    assert Holds(s, Only(f, row), f, has);
  }

  // --- A key of several columns ---------------------------------------------------------------------------------------

  /** `w` in the referenced column, one byte in another column of the key, and nothing in the rest. */
  function Padded(key: seq<string>, column: string, w: Value, other: string, z: byte): Row {
    Row(map c | c in key :: if c == column then w else if c == other then K.DbString([z]) else K.DbString([]))
  }

  predicate Blank(v: Value) {
    v == K.DbString([])
  }

  lemma {:induction false} AllBlank(values: seq<Value>)
    requires forall m | 0 <= m < |values| :: Blank(values[m])
    ensures K.TupleBytes(values) == []
  {
    if values != [] {
      AllBlank(values[1..]);
    }
  }

  lemma OneNotBlank(values: seq<Value>, i: nat)
    requires i < |values| && forall m | 0 <= m < |values| && m != i :: Blank(values[m])
    ensures K.TupleBytes(values) == K.ValueBytes(values[i])
  {
    hide K.ValueBytes;
    AllBlank(values[..i]);
    AllBlank(values[i + 1..]);
    assert values == values[..i] + [values[i]] + values[i + 1..];
    K.TupleAppend(values[..i] + [values[i]], values[i + 1..]);
    K.TupleSnoc(values, i);
    assert values[..i + 1] == values[..i] + [values[i]];
  }

  /** The bytes of a padded key: the other column's byte somewhere among those of the value. */
  lemma PaddedBytes(values: seq<Value>, i: nat, j: nat, z: byte)
    requires i < |values| && j < |values| && i != j && values[j] == K.DbString([z])
    requires forall m | 0 <= m < |values| && m != i && m != j :: Blank(values[m])
    ensures K.TupleBytes(values) == K.TupleBytes(values[..j]) + [z] + K.TupleBytes(values[j + 1..])
    ensures |K.TupleBytes(values)| == |K.ValueBytes(values[i])| + 1
  {
    hide K.TupleBytes;
    var a, c := values[..j], values[j + 1..];
    assert K.ValueBytes(values[j]) == [z];
    hide K.ValueBytes;
    K.TupleSnoc(values, j);
    assert values == values[..j + 1] + c;
    K.TupleAppend(values[..j + 1], c);
    if i < j {
      OneNotBlank(a, i);
      AllBlank(c);
    } else {
      AllBlank(a);
      OneNotBlank(c, i - j - 1);
    }
  }

  /** Two padded keys with different bytes in the other column. */
  lemma PaddedDiffer(a: seq<Value>, b: seq<Value>, i: nat, j: nat)
    requires |a| == |b| && i < |a| && j < |a| && i != j && a[j] == K.DbString([1]) && b[j] == K.DbString([2])
    requires forall m | 0 <= m < |a| && m != j :: a[m] == b[m] && (m != i ==> Blank(a[m]))
    requires |K.ValueBytes(a[i])| < K.KEY_SIZE
    ensures K.Fits(a) && K.Fits(b) && K.KeyBytes(a) != K.KeyBytes(b)
  {
    hide K.TupleBytes, K.ValueBytes;
    PaddedBytes(a, i, j, 1);
    PaddedBytes(b, i, j, 2);
    assert a[..j] == b[..j];
    var n := |K.TupleBytes(a[..j])|;
    assert K.KeyBytes(a)[n] == 1 && K.KeyBytes(b)[n] == 2;
  }

  lemma PaddedValues(s: Schema, f: ForeignKey, w: Value, i: nat, j: nat, z: byte)
    requires Names(s.tables, f) && Distinct(s.tables[f.refTable].key)
    requires
      var key := s.tables[f.refTable].key;
      i < |key| && j < |key| && i != j && key[i] == f.refColumn
    ensures
      var key := s.tables[f.refTable].key;
      var row := Padded(key, f.refColumn, w, key[j], z);
      var values := KeyValues(s, f.refTable, row);
      && Cell(row, f.refColumn) == w && values[i] == w && values[j] == K.DbString([z])
      && forall m | 0 <= m < |key| && m != i && m != j :: Blank(values[m])
  {
    var key := s.tables[f.refTable].key;
    var row := Padded(key, f.refColumn, w, key[j], z);
    assert key[i] != key[j];
    forall m | 0 <= m < |key| && m != i && m != j ensures Blank(Cell(row, key[m])) {
      assert key[m] != key[i] && key[m] != key[j];
    }
  }

  /** With other columns in the key, a row with an equal value is missed, whatever the value looked for. */
  lemma CompositeIsWrong(s: Schema, f: ForeignKey, v: Value, has: Value -> bool, w: Value)
    requires Names(s.tables, f) && Distinct(s.tables[f.refTable].key) && s.tables[f.refTable].key != [f.refColumn]
    requires Short(has) && has(w) && AreEqual(s.same, v, w)
    ensures !AlwaysRight(s, f, v, has)
  {
    hide K.Fits, K.KeyBytes, AreEqual;
    var key := s.tables[f.refTable].key;
    var i: nat :| i < |key| && key[i] == f.refColumn;
    var j: nat := if i == 0 then 1 else 0;
    var one, two := Padded(key, f.refColumn, w, key[j], 1), Padded(key, f.refColumn, w, key[j], 2);
    PaddedValues(s, f, w, i, j, 1);
    PaddedValues(s, f, w, i, j, 2);
    hide Padded;
    PaddedDiffer(KeyValues(s, f.refTable, one), KeyValues(s, f.refTable, two), i, j);
    OnlyRow(s, f, one, v);
    OnlyRow(s, f, two, v);
    assert Holds(s, Only(f, one), f, has) && Holds(s, Only(f, two), f, has);
  }

  /**
   For a value that some row could have: whatever rows there are, the lookup finds a key exactly when one of
   them has the value, if and only if the referenced column is the whole primary key, and the value has the key
   of exactly the values that it equals.
   */
  lemma LookupExact(s: Schema, f: ForeignKey, v: Value, has: Value -> bool)
    requires Names(s.tables, f) && Distinct(s.tables[f.refTable].key) && Short(has)
    requires exists w :: has(w) && AreEqual(s.same, v, w)
    ensures forall w | has(w) :: K.Fits([w])
    ensures AlwaysRight(s, f, v, has) <==> KeyDecides(s, f, v, has)
  {
    hide K.Fits, K.KeyBytes, AreEqual, K.ValueBytes;
    var w :| has(w) && AreEqual(s.same, v, w);
    forall w | has(w) ensures K.Fits([w]) {
      ShortFits(w);
    }
    if KeyDecides(s, f, v, has) {
      RightIfDecided(s, f, v, has);
    }
    if AlwaysRight(s, f, v, has) {
      hide AlwaysRight;
      if s.tables[f.refTable].key != [f.refColumn] {
        CompositeIsWrong(s, f, v, has, w);
      }
      forall u | has(u)
        ensures AreEqual(s.same, v, u) <==> K.Fits([v]) && K.KeyBytes([v]) == K.KeyBytes([u])
      {
        DecidedIfRight(s, f, v, has, u);
      }
    }
  }

  // --- Integer keys -----------------------------------------------------------------------------------------------

  lemma IntKeysDecide(s: Schema, f: ForeignKey, i: int32)
    requires f.refTable < |s.tables| && s.tables[f.refTable].key == [f.refColumn]
    requires forall a, b :: s.same(K.DbInt(a), K.DbInt(b)) <==> a == b
    ensures Short((w: Value) => w.DbInt?) && (forall w: Value | w.DbInt? :: K.Fits([w]))
    ensures KeyDecides(s, f, K.DbInt(i), (w: Value) => w.DbInt?)
  {
    hide K.TupleBytes, K.Trim, StoredKeys.KeyOf, K.KeyBytes, K.Fits, K.Big, K.FlipSign;
    forall w: Value | w.DbInt?
      ensures K.Fits([K.DbInt(i)]) && K.Fits([w]) && (w.i == i <==> K.KeyBytes([K.DbInt(i)]) == K.KeyBytes([w]))
    {
      StoredKeys.IntKeysDiffer(i, w.i);
      StoredKeys.SameKey([K.DbInt(i)], [w]);
    }
    StoredKeys.IntKeysDiffer(i, i);
  }

  /**
   Foreign keys to integer columns that are primary keys by themselves, with integers or nulls in the statement:
   the check accepts exactly what leaves every reference of the row intact.
   */
  lemma IntForeignKeys(s: Schema, rows: Rows, table: nat, given: Row, row: Row, checked: set<string>)
    requires Ordered(s) && forall a, b :: s.same(K.DbInt(a), K.DbInt(b)) <==> a == b
    requires forall f | f in s.fks && f.fromTable == table && f.column in checked ::
               && s.tables[f.refTable].key == [f.refColumn]
               && Cell(row, f.column) == Cell(given, f.column) && (Cell(given, f.column).DbInt? || Cell(given, f.column).DbNull?)
               && forall p | p in rows && p.table == f.refTable :: Cell(rows[p], f.refColumn).DbInt?
    ensures Accepted(s, rows, table, given, checked) <==> ParentsFound(s, rows, table, row, checked)
  {
    hide K.Fits, K.KeyBytes, AreEqual, Accepted, ParentsFound, Found, HasParent, KeyDecides;
    forall f | f in s.fks && f.fromTable == table && f.column in checked ensures Judged(s, rows, f, given, row) {
      var v := Cell(given, f.column);
      if v.DbInt? {
        IntKeysDecide(s, f, v.i);
        RightIfDecided(s, f, v, (w: Value) => w.DbInt?);
        forall p | p in rows && p.table == f.refTable ensures K.Fits(KeyValues(s, f.refTable, rows[p])) {
          assert KeyValues(s, f.refTable, rows[p]) == [Cell(rows[p], f.refColumn)];
        }
        assert Holds(s, rows, f, (w: Value) => w.DbInt?);
      }
    }
    AcceptedRightly(s, rows, table, given, row, checked);
  }

  // --- Inputs on which the check is wrong --------------------------------------------------------------------------

  function Text(b: Bytes): Value {
    K.DbString(b)
  }

  lemma TwoColumnBytes()
    ensures K.Fits([Text([120]), Text([121])]) && K.Fits([Text([120, 121])]) && K.Fits([Text([120])])
    ensures K.KeyBytes([Text([120]), Text([121])]) == K.KeyBytes([Text([120, 121])])
    ensures K.KeyBytes([Text([120]), Text([121])]) != K.KeyBytes([Text([120])])
  {
    K.OneValue(Text([121]));
    K.OneValue(Text([120]));
    K.OneValue(Text([120, 121]));
    var both := [Text([120]), Text([121])];
    assert both[1..] == [Text([121])];

    var x: Bytes, y: Bytes := [120], [121];
    assert x + y == [120, 121];
    assert K.KeyBytes(both)[1] == 121 && K.KeyBytes([Text([120])])[1] == 0;
  }

  /** Of a primary key (a, b) that holds ('x', 'y'), 'xy' is accepted as a value of a, and 'x' is refused. */
  lemma CompositeKey(s: Schema, f: ForeignKey)
    requires f.refTable < |s.tables| && s.tables[f.refTable].key == ["a", "b"] && f.refColumn == "a"
    requires s.same(Text([120]), Text([120])) && !s.same(Text([120, 121]), Text([120]))
    ensures
      var rows := Only(f, Row(map["a" := Text([120]), "b" := Text([121])]));
      && Found(s, rows, f, Text([120, 121])) && !HasParent(s, rows, f, Text([120, 121]))
      && HasParent(s, rows, f, Text([120])) && !Found(s, rows, f, Text([120]))
  {
    hide K.Fits, K.KeyBytes;
    var row := Row(map["a" := Text([120]), "b" := Text([121])]);
    assert "a" != "b";
    assert KeyValues(s, f.refTable, row) == [Text([120]), Text([121])];
    TwoColumnBytes();
    OnlyRow(s, f, row, Text([120, 121]));
    OnlyRow(s, f, row, Text([120]));
  }

  // The bit pattern of 5.0.
  const FIVE: bits64 := 0x4014_0000_0000_0000

  /** 5.0 is refused where the parent has 5, though 5 is what an integer column would store for it. */
  lemma DoubleForInt(s: Schema, f: ForeignKey)
    requires f.refTable < |s.tables| && s.tables[f.refTable].key == [f.refColumn]
    requires s.same(K.DbDouble(FIVE), K.DbInt(5)) && s.same(K.DbInt(5), K.DbInt(5))
    ensures
      var rows := Only(f, Row(map[f.refColumn := K.DbInt(5)]));
      && HasParent(s, rows, f, K.DbDouble(FIVE)) && HasParent(s, rows, f, K.DbInt(5)) && !Found(s, rows, f, K.DbDouble(FIVE))
  {
    StoredKeys.IntAndDouble(5, FIVE);
    assert K.FlipSign(5) * 0x1_0000_0000 != K.FlipDouble(FIVE);
    hide K.TupleBytes, K.Trim, StoredKeys.KeyOf, K.KeyBytes, K.Fits;
    StoredKeys.SameKey([K.DbInt(5)], [K.DbDouble(FIVE)]);
    var row := Row(map[f.refColumn := K.DbInt(5)]);
    assert KeyValues(s, f.refTable, row) == [K.DbInt(5)];
    OnlyRow(s, f, row, K.DbDouble(FIVE));
    OnlyRow(s, f, row, K.DbInt(5));
  }
}
