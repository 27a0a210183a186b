/**
 Rows that refer to rows of other tables: what INSERT and UPDATE look up, and deletion, which checks everything
 first and then deletes what depends on each row before the row.
 */
module ForeignKeys {
  import opened Options
  import K = IndexKeys

  type Value = K.DbObject

  /** What two non-null values being equal means. */
  type Same = (Value, Value) -> bool

  datatype Row = Row(cells: map<string, Value>)

  /** Tables are named by the order of their creation. */
  datatype Id = Id(table: nat, page: int, slot: int)

  type Rows = map<Id, Row>

  datatype ForeignKey = ForeignKey(fromTable: nat, column: string, refTable: nat, refColumn: string, cascade: bool)

  function Cell(row: Row, column: string): Value {
    if column in row.cells then row.cells[column] else K.DbNull
  }

  /** Two nulls are equal; a null and a value are not. */
  predicate AreEqual(same: Same, a: Value, b: Value) {
    if a.DbNull? || b.DbNull? then a.DbNull? && b.DbNull? else same(a, b)
  }

  datatype Table = Table(columns: seq<string>, key: seq<string>)

  datatype Schema = Schema(fks: seq<ForeignKey>, tables: seq<Table>, same: Same)

  /** A foreign key names a column of a primary key, in one of these tables. */
  predicate Names(tables: seq<Table>, f: ForeignKey) {
    && f.refTable < |tables|
    && f.refColumn in tables[f.refTable].columns && f.refColumn in tables[f.refTable].key
  }

  /** It only names a table that existed when its own table was created. */
  predicate Ordered(s: Schema) {
    forall f | f in s.fks :: f.refTable < f.fromTable < |s.tables| && Names(s.tables, f)
  }

  /** Row `c` refers to row `p` through foreign key `f`. */
  predicate Refers(s: Schema, rows: Rows, f: ForeignKey, c: Id, p: Id)
  {
    && c in rows && p in rows && c.table == f.fromTable && p.table == f.refTable
    && AreEqual(s.same, Cell(rows[c], f.column), Cell(rows[p], f.refColumn))
  }

  /** A row refers to another by an equal value, or if both are null; then a key forbids the deletion, or cascades. */
  lemma RefersExact(s: Schema, rows: Rows, f: ForeignKey, c: Id, p: Id)
    requires f in s.fks && c in rows && p in rows && c.table == f.fromTable && p.table == f.refTable
    ensures
      var x, y := Cell(rows[c], f.column), Cell(rows[p], f.refColumn);
      && (Refers(s, rows, f, c, p) <==>
            (x == K.DbNull && y == K.DbNull) || (x != K.DbNull && y != K.DbNull && s.same(x, y)))
      && (Refers(s, rows, f, c, p) ==> if f.cascade then Takes(s, rows, p, c) else !Free(s, rows, p))
  {
  }

  /** Deleting `p` takes `c` along. */
  predicate Takes(s: Schema, rows: Rows, p: Id, c: Id) {
    exists f | f in s.fks :: f.cascade && Refers(s, rows, f, c, p)
  }

  ghost predicate Path(s: Schema, rows: Rows, ids: seq<Id>) {
    && |ids| >= 1 && ids[0] in rows
    && forall i | 0 <= i < |ids| - 1 :: Takes(s, rows, ids[i], ids[i + 1])
  }

  ghost predicate Reaches(s: Schema, rows: Rows, a: Id, b: Id) {
    exists ids :: Path(s, rows, ids) && ids[0] == a && ids[|ids| - 1] == b
  }

  /** The row itself and everything that depends on it through cascading keys. */
  ghost function Closure(s: Schema, rows: Rows, a: Id): set<Id> {
    set b | b in rows && Reaches(s, rows, a, b)
  }

  ghost function ClosureOf(s: Schema, rows: Rows, selected: seq<Id>): set<Id> {
    set b | b in rows && exists a | a in selected :: Reaches(s, rows, a, b)
  }

  /** Every non-null foreign key value has a parent row. */
  ghost predicate Integrity(s: Schema, rows: Rows) {
    forall f, c | f in s.fks && c in rows && c.table == f.fromTable && !Cell(rows[c], f.column).DbNull? ::
      exists p :: Refers(s, rows, f, c, p)
  }

  /** No row refers to this one through a key that forbids its deletion. */
  ghost predicate Free(s: Schema, rows: Rows, p: Id) {
    forall f, c | f in s.fks && !f.cascade :: !Refers(s, rows, f, c, p)
  }

  ghost predicate Deletable(s: Schema, rows: Rows, a: Id) {
    forall b | b in rows && Reaches(s, rows, a, b) :: Free(s, rows, b)
  }

  // --- Reachability ------------------------------------------------------------------------------------------

  lemma ReachesSelf(s: Schema, rows: Rows, a: Id)
    requires a in rows
    ensures Reaches(s, rows, a, a)
  {
    assert Path(s, rows, [a]);
  }

  /** Reaching is taking one step, or none. */
  lemma ReachesFirst(s: Schema, rows: Rows, a: Id, b: Id)
    requires a in rows
    ensures Reaches(s, rows, a, b) <==> a == b || exists c :: Takes(s, rows, a, c) && Reaches(s, rows, c, b)
  {
    ReachesSelf(s, rows, a);
    if ids :| Path(s, rows, ids) && ids[0] == a && ids[|ids| - 1] == b {
      if |ids| > 1 {
        assert Takes(s, rows, ids[0], ids[1]);
        assert Path(s, rows, ids[1..]) by {
          forall i | 0 <= i < |ids| - 2 ensures Takes(s, rows, ids[1..][i], ids[1..][i + 1]) {
            assert Takes(s, rows, ids[i + 1], ids[i + 2]);
          }
        }
        assert Reaches(s, rows, ids[1], b);
      }
    }
    if c :| Takes(s, rows, a, c) && Reaches(s, rows, c, b) {
      var rest :| Path(s, rows, rest) && rest[0] == c && rest[|rest| - 1] == b;
      var ids := [a] + rest;
      assert Path(s, rows, ids) by {
        forall i | 0 <= i < |ids| - 1 ensures Takes(s, rows, ids[i], ids[i + 1]) {
          if i > 0 { assert Takes(s, rows, rest[i - 1], rest[i]); }
        }
      }
    }
  }

  /** Only later tables are reached. */
  lemma {:induction false} ReachesLater(s: Schema, rows: Rows, ids: seq<Id>)
    requires Ordered(s) && Path(s, rows, ids)
    ensures ids[0].table <= ids[|ids| - 1].table
    ensures |ids| > 1 ==> ids[0].table < ids[|ids| - 1].table
  {
    if |ids| > 1 {
      var n := |ids| - 1;
      assert Path(s, rows, ids[..n]) by {
        forall i | 0 <= i < n - 1 ensures Takes(s, rows, ids[..n][i], ids[..n][i + 1]) {
          assert Takes(s, rows, ids[i], ids[i + 1]);
        }
      }
      ReachesLater(s, rows, ids[..n]);
      assert Takes(s, rows, ids[n - 1], ids[n]);
    }
  }

  /** A set of rows that holds everything its members take along. */
  ghost predicate Closed(s: Schema, rows: Rows, gone: set<Id>) {
    forall a, b | a in gone && a in rows && Takes(s, rows, a, b) :: b in gone
  }

  /** Once a closed set is gone, a row reaches what it reached before, less that set. */
  lemma {:induction false} ReachesInRest(s: Schema, rows: Rows, gone: set<Id>, ids: seq<Id>)
    requires Closed(s, rows, gone) && Path(s, rows, ids) && ids[|ids| - 1] !in gone
    ensures Path(s, rows - gone, ids)
  {
    var rest := rows - gone;
    forall i | 0 <= i < |ids| ensures ids[i] !in gone {
      NotBefore(s, rows, gone, ids, i);
    }
    forall i | 0 <= i < |ids| - 1 ensures Takes(s, rest, ids[i], ids[i + 1]) {
      assert Takes(s, rows, ids[i], ids[i + 1]);
      var f :| f in s.fks && f.cascade && Refers(s, rows, f, ids[i + 1], ids[i]);
      assert Refers(s, rest, f, ids[i + 1], ids[i]);
    }
  }

  lemma {:induction false} NotBefore(s: Schema, rows: Rows, gone: set<Id>, ids: seq<Id>, i: nat)
    requires Closed(s, rows, gone) && Path(s, rows, ids) && i < |ids| && ids[|ids| - 1] !in gone
    ensures ids[i] !in gone
    decreases |ids| - i
  {
    if i < |ids| - 1 {
      NotBefore(s, rows, gone, ids, i + 1);
      assert Takes(s, rows, ids[i], ids[i + 1]);
    }
  }

  lemma TakesInRest(s: Schema, rows: Rows, gone: set<Id>, a: Id, b: Id)
    ensures Takes(s, rows - gone, a, b) ==> Takes(s, rows, a, b)
  {
    if Takes(s, rows - gone, a, b) {
      var f :| f in s.fks && f.cascade && Refers(s, rows - gone, f, b, a);
      assert Refers(s, rows, f, b, a);
    }
  }

  lemma PathInAll(s: Schema, rows: Rows, gone: set<Id>, ids: seq<Id>)
    requires Path(s, rows - gone, ids)
    ensures Path(s, rows, ids)
  {
    forall i | 0 <= i < |ids| - 1 ensures Takes(s, rows, ids[i], ids[i + 1]) {
      TakesInRest(s, rows, gone, ids[i], ids[i + 1]);
    }
  }

  lemma ClosureInRest(s: Schema, rows: Rows, gone: set<Id>, a: Id)
    requires Closed(s, rows, gone)
    ensures Closure(s, rows - gone, a) == Closure(s, rows, a) - gone
  {
    forall b ensures b in Closure(s, rows - gone, a) <==> b in Closure(s, rows, a) - gone {
      if b in Closure(s, rows - gone, a) {
        var ids :| Path(s, rows - gone, ids) && ids[0] == a && ids[|ids| - 1] == b;
        PathInAll(s, rows, gone, ids);
      }
      if b in Closure(s, rows, a) - gone {
        var ids :| Path(s, rows, ids) && ids[0] == a && ids[|ids| - 1] == b;
        ReachesInRest(s, rows, gone, ids);
      }
    }
  }

  lemma ClosureClosed(s: Schema, rows: Rows, a: Id)
    ensures Closed(s, rows, Closure(s, rows, a))
  {
    forall b, c | b in Closure(s, rows, a) && Takes(s, rows, b, c) ensures c in Closure(s, rows, a) {
      var ids :| Path(s, rows, ids) && ids[0] == a && ids[|ids| - 1] == b;
      assert Path(s, rows, ids + [c]) by {
        forall i | 0 <= i < |ids| ensures Takes(s, rows, (ids + [c])[i], (ids + [c])[i + 1]) {
          if i < |ids| - 1 { assert Takes(s, rows, ids[i], ids[i + 1]); }
        }
      }
    }
  }

  lemma ClosedUnion(s: Schema, rows: Rows, x: set<Id>, y: set<Id>)
    requires Closed(s, rows, x) && Closed(s, rows, y)
    ensures Closed(s, rows, x + y)
  {
  }

  lemma TakenClosure(s: Schema, rows: Rows, a: Id, c: Id)
    requires a in rows && Takes(s, rows, a, c)
    ensures Closure(s, rows, c) <= Closure(s, rows, a)
  {
    forall b | b in Closure(s, rows, c) ensures b in Closure(s, rows, a) {
      ReachesFirst(s, rows, a, b);
    }
  }

  /** What a row takes along, and the row. */
  lemma ClosureIs(s: Schema, rows: Rows, a: Id, gone: set<Id>)
    requires a in rows && Closed(s, rows, gone) && gone <= Closure(s, rows, a)
    requires forall c | Takes(s, rows, a, c) :: c in gone
    ensures Closure(s, rows, a) == gone + {a}
  {
    ReachesSelf(s, rows, a);
    forall b | b in Closure(s, rows, a) ensures b in gone + {a} {
      var ids :| Path(s, rows, ids) && ids[0] == a && ids[|ids| - 1] == b;
      if |ids| > 1 {
        assert Takes(s, rows, ids[0], ids[1]);
        ClosedPath(s, rows, gone, ids, |ids| - 1);
      }
    }
  }

  lemma {:induction false} ClosedPath(s: Schema, rows: Rows, gone: set<Id>, ids: seq<Id>, i: nat)
    requires Closed(s, rows, gone) && Path(s, rows, ids) && 1 <= i < |ids| && ids[1] in gone
    ensures ids[i] in gone
  {
    if i > 1 {
      ClosedPath(s, rows, gone, ids, i - 1);
      assert Takes(s, rows, ids[i - 1], ids[i]);
    }
  }

  lemma NotReachedBack(s: Schema, rows: Rows, a: Id, b: Id)
    requires Ordered(s) && b in Closure(s, rows, a)
    ensures b == a || a.table < b.table
  {
    var ids :| Path(s, rows, ids) && ids[0] == a && ids[|ids| - 1] == b;
    ReachesLater(s, rows, ids);
  }

  lemma DeletableFirst(s: Schema, rows: Rows, a: Id)
    requires a in rows
    ensures Deletable(s, rows, a) <==> Free(s, rows, a) && forall c | Takes(s, rows, a, c) :: Deletable(s, rows, c)
  {
    forall b ensures Reaches(s, rows, a, b) <==> a == b || exists c :: Takes(s, rows, a, c) && Reaches(s, rows, c, b) {
      ReachesFirst(s, rows, a, b);
    }
  }

  lemma DeletableInRest(s: Schema, rows: Rows, gone: set<Id>, a: Id)
    requires Deletable(s, rows, a)
    ensures Deletable(s, rows - gone, a)
  {
    var rest := rows - gone;
    forall b | b in rest && Reaches(s, rest, a, b) ensures Free(s, rest, b) {
      var ids :| Path(s, rest, ids) && ids[0] == a && ids[|ids| - 1] == b;
      PathInAll(s, rows, gone, ids);
      assert Free(s, rows, b);
      forall f, c | f in s.fks && !f.cascade ensures !Refers(s, rest, f, c, b) {
        assert !Refers(s, rows, f, c, b);
      }
    }
  }

  /** Taking out a row that nothing refers to keeps every other row's parent. */
  lemma IntegrityWithout(s: Schema, rows: Rows, p: Id)
    requires Integrity(s, rows) && forall f, c | f in s.fks :: !Refers(s, rows, f, c, p)
    ensures Integrity(s, rows - {p})
  {
    var rest := rows - {p};
    forall f, c | f in s.fks && c in rest && c.table == f.fromTable && !Cell(rest[c], f.column).DbNull?
      ensures exists q :: Refers(s, rest, f, c, q)
    {
      var q :| Refers(s, rows, f, c, q);
      assert q != p;
      assert Refers(s, rest, f, c, q);
    }
  }

  // --- New and changed rows --------------------------------------------------------------------------------------

  /** Some row of the referenced table has the value. */
  ghost predicate HasParent(s: Schema, rows: Rows, f: ForeignKey, v: Value) {
    exists p :: p in rows && p.table == f.refTable && AreEqual(s.same, v, Cell(rows[p], f.refColumn))
  }

  /** Every non-null value that the row has in these foreign key columns has a parent. */
  ghost predicate ParentsFound(s: Schema, rows: Rows, table: nat, row: Row, checked: set<string>) {
    forall f | f in s.fks && f.fromTable == table && f.column in checked && !Cell(row, f.column).DbNull? ::
      HasParent(s, rows, f, Cell(row, f.column))
  }

  /** What the index on the primary key is made of. */
  function KeyValues(s: Schema, table: nat, row: Row): (r: seq<Value>)
    requires table < |s.tables|
    ensures |r| == |s.tables[table].key| && forall i | 0 <= i < |r| :: r[i] == Cell(row, s.tables[table].key[i])
  {
    var key := s.tables[table].key;
    seq(|key|, i requires 0 <= i < |key| => Cell(row, key[i]))
  }

  /** The first index of the referenced table holds the key that this one value makes. */
  predicate Found(s: Schema, rows: Rows, f: ForeignKey, v: Value)
    requires f.refTable < |s.tables|
  {
    && K.Fits([v])
    && exists p :: p in rows && p.table == f.refTable && var values := KeyValues(s, f.refTable, rows[p]);
                   K.Fits(values) && K.KeyBytes(values) == K.KeyBytes([v])
  }

  /** What INSERT and UPDATE check of the values they are given. */
  predicate Accepted(s: Schema, rows: Rows, table: nat, given: Row, checked: set<string>)
    requires Ordered(s)
  {
    forall f | f in s.fks && f.fromTable == table && f.column in checked && !Cell(given, f.column).DbNull? ::
      Found(s, rows, f, Cell(given, f.column))
  }

  /** The lookup for this key lets the given value through exactly if the stored value is one that may be there. */
  ghost predicate Judged(s: Schema, rows: Rows, f: ForeignKey, given: Row, row: Row)
    requires f.refTable < |s.tables|
  {
    (Cell(given, f.column).DbNull? || Found(s, rows, f, Cell(given, f.column)))
    <==> (Cell(row, f.column).DbNull? || HasParent(s, rows, f, Cell(row, f.column)))
  }

  lemma AcceptedRightly(s: Schema, rows: Rows, table: nat, given: Row, row: Row, checked: set<string>)
    requires Ordered(s)
    requires forall f | f in s.fks && f.fromTable == table && f.column in checked :: Judged(s, rows, f, given, row)
    ensures Accepted(s, rows, table, given, checked) <==> ParentsFound(s, rows, table, row, checked)
  {
    hide Found, HasParent;
    if Accepted(s, rows, table, given, checked) {
      forall f | f in s.fks && f.fromTable == table && f.column in checked && !Cell(row, f.column).DbNull?
        ensures HasParent(s, rows, f, Cell(row, f.column))
      {
        assert Judged(s, rows, f, given, row);
      }
    }
    if ParentsFound(s, rows, table, row, checked) {
      forall f | f in s.fks && f.fromTable == table && f.column in checked && !Cell(given, f.column).DbNull?
        ensures Found(s, rows, f, Cell(given, f.column))
      {
        assert Judged(s, rows, f, given, row);
      }
    }
  }

  predicate Columns(s: Schema, checked: set<string>) {
    forall f | f in s.fks :: f.column in checked
  }

  /** Rows that refer to row `p`, and that lose their only parent when it becomes `row`. */
  ghost predicate Orphans(s: Schema, rows: Rows, p: Id, row: Row) {
    exists f, c :: f in s.fks && Refers(s, rows, f, c, p) && !Cell(rows[c], f.column).DbNull?
                   && !HasParent(s, rows[p := row], f, Cell(rows[c], f.column))
  }

  lemma IntegrityMeans(s: Schema, rows: Rows)
    ensures Integrity(s, rows) <==>
              forall f, c | f in s.fks && c in rows && c.table == f.fromTable && !Cell(rows[c], f.column).DbNull? ::
                HasParent(s, rows, f, Cell(rows[c], f.column))
  {
    forall f, c | f in s.fks && c in rows && c.table == f.fromTable
      ensures HasParent(s, rows, f, Cell(rows[c], f.column)) <==> exists p :: Refers(s, rows, f, c, p)
    {
      if p :| Refers(s, rows, f, c, p) {
        assert p in rows;
      }
      if HasParent(s, rows, f, Cell(rows[c], f.column)) {
        var p :| p in rows && p.table == f.refTable && AreEqual(s.same, Cell(rows[c], f.column), Cell(rows[p], f.refColumn));
        assert Refers(s, rows, f, c, p);
      }
    }
  }

  /** Another table's parents are the same. */
  lemma ParentElsewhere(s: Schema, rows: Rows, id: Id, row: Row, f: ForeignKey, v: Value)
    requires f.refTable != id.table
    ensures HasParent(s, rows[id := row], f, v) == HasParent(s, rows, f, v)
  {
    if p :| p in rows && p.table == f.refTable && AreEqual(s.same, v, Cell(rows[p], f.refColumn)) {
      assert p in rows[id := row];
    }
  }

  lemma ParentAdded(s: Schema, rows: Rows, id: Id, row: Row, f: ForeignKey, v: Value)
    requires id !in rows && HasParent(s, rows, f, v)
    ensures HasParent(s, rows[id := row], f, v)
  {
    var p :| p in rows && p.table == f.refTable && AreEqual(s.same, v, Cell(rows[p], f.refColumn));
    assert p in rows[id := row];
  }

  /** A new row leaves every reference intact exactly if its own values have their parents. */
  lemma InsertIntegrity(s: Schema, rows: Rows, id: Id, row: Row, checked: set<string>)
    requires Ordered(s) && Integrity(s, rows) && id !in rows && Columns(s, checked)
    ensures Integrity(s, rows[id := row]) <==> ParentsFound(s, rows, id.table, row, checked)
  {
    var rows' := rows[id := row];
    IntegrityMeans(s, rows);
    IntegrityMeans(s, rows');
    hide Integrity, HasParent;
    forall f | f in s.fks && f.fromTable == id.table
      ensures HasParent(s, rows', f, Cell(row, f.column)) == HasParent(s, rows, f, Cell(row, f.column))
    {
      ParentElsewhere(s, rows, id, row, f, Cell(row, f.column));
    }
    forall f, c | f in s.fks && c in rows && c.table == f.fromTable && !Cell(rows[c], f.column).DbNull?
      ensures HasParent(s, rows', f, Cell(rows[c], f.column))
    {
      ParentAdded(s, rows, id, row, f, Cell(rows[c], f.column));
    }
    if Integrity(s, rows') {
      assert id in rows';
    }
  }

  lemma OrphansAt(s: Schema, rows: Rows, p: Id, row: Row, f: ForeignKey, c: Id)
    requires f in s.fks && c in rows && c.table == f.fromTable && !Cell(rows[c], f.column).DbNull? && c != p && p in rows
    requires HasParent(s, rows, f, Cell(rows[c], f.column)) && !Orphans(s, rows, p, row)
    ensures HasParent(s, rows[p := row], f, Cell(rows[c], f.column))
  {
    var q :| q in rows && q.table == f.refTable && AreEqual(s.same, Cell(rows[c], f.column), Cell(rows[q], f.refColumn));
    if q == p {
      assert Refers(s, rows, f, c, p);
    } else {
      assert q in rows[p := row];
    }
  }

  /**
   A changed row leaves all references intact exactly if its own changed values have their parents and it
   orphans no row that refers to it. The source checks nothing of the second.
   */
  lemma UpdateIntegrity(s: Schema, rows: Rows, id: Id, row: Row, checked: set<string>)
    requires Ordered(s) && Integrity(s, rows) && id in rows
    requires forall column :: column !in checked ==> Cell(row, column) == Cell(rows[id], column)
    ensures Integrity(s, rows[id := row]) <==> ParentsFound(s, rows, id.table, row, checked) && !Orphans(s, rows, id, row)
  {
    var rows' := rows[id := row];
    IntegrityMeans(s, rows);
    IntegrityMeans(s, rows');
    hide Integrity, HasParent;
    forall f | f in s.fks && f.fromTable == id.table
      ensures HasParent(s, rows', f, Cell(row, f.column)) == HasParent(s, rows, f, Cell(row, f.column))
    {
      ParentElsewhere(s, rows, id, row, f, Cell(row, f.column));
    }
    if Orphans(s, rows, id, row) {
      var f, c :| f in s.fks && Refers(s, rows, f, c, id) && !Cell(rows[c], f.column).DbNull? && !HasParent(s, rows', f, Cell(rows[c], f.column));
      assert c in rows' && c != id;
    } else if ParentsFound(s, rows, id.table, row, checked) {
      forall f, c | f in s.fks && c in rows' && c.table == f.fromTable && !Cell(rows'[c], f.column).DbNull?
        ensures HasParent(s, rows', f, Cell(rows'[c], f.column))
      {
        if c == id {
          assert f.column !in checked ==> HasParent(s, rows, f, Cell(rows[id], f.column));
        } else {
          OrphansAt(s, rows, id, row, f, c);
        }
      }
    } else {
      assert id in rows';
    }
  }

  function OneKey(f: ForeignKey): Schema {
    Schema([f], seq(f.fromTable + 1, _ => Table([f.refColumn], [f.refColumn])), (x, y) => x == y)
  }

  /** A row `c` that refers to a row `p`. */
  function Pair(f: ForeignKey, p: Id, c: Id, v: Value): Rows {
    map[p := Row(map[f.refColumn := v]), c := Row(map[f.column := v])]
  }

  lemma PairRefers(f: ForeignKey, p: Id, c: Id, v: Value)
    requires f.refTable == p.table < f.fromTable == c.table && f.column != f.refColumn && !v.DbNull?
    ensures var s, rows := OneKey(f), Pair(f, p, c, v);
            && Ordered(s) && Refers(s, rows, f, c, p) && Integrity(s, rows)
            && Cell(rows[c], f.column) == v && !HasParent(s, rows - {p}, f, v)
  {
    var s, rows := OneKey(f), Pair(f, p, c, v);
    assert Refers(s, rows, f, c, p);
  }

  /** A department gets another number while an employee still has the old one. */
  lemma UpdateOrphans(f: ForeignKey, p: Id, c: Id)
    requires f.refTable == p.table < f.fromTable == c.table && f.column != f.refColumn
    ensures
      var s, rows := OneKey(f), Pair(f, p, c, K.DbInt(1));
      var row := Row(map[f.refColumn := K.DbInt(2)]);
      && Ordered(s) && Integrity(s, rows) && Accepted(s, rows, p.table, row, {f.refColumn})
      && ParentsFound(s, rows, p.table, row, {f.refColumn}) && Orphans(s, rows, p, row)
  {
    var s, rows := OneKey(f), Pair(f, p, c, K.DbInt(1));
    var row := Row(map[f.refColumn := K.DbInt(2)]);
    PairRefers(f, p, c, K.DbInt(1));
    hide Found, Integrity;
    assert f in s.fks && !HasParent(s, rows[p := row], f, Cell(rows[c], f.column));
  }


  // --- What the checks of DELETE rely on ----------------------------------------------------------------------------

  /** What an index on a foreign key column of a table says about a value; none if there is no such index. */
  type Lookups = (nat, string, Value) -> Option<bool>

  /** Whether some row refers to `p`: the answer of an index, or that of a scan. */
  ghost predicate Says(s: Schema, rows: Rows, look: Lookups, f: ForeignKey, p: Id)
    requires p in rows
  {
    match look(f.fromTable, f.column, Cell(rows[p], f.refColumn))
    case Some(b) => b
    case None => exists c :: Refers(s, rows, f, c, p)
  }

  function Later(s: Schema, p: Id): nat {
    if p.table < |s.tables| then |s.tables| - p.table else 0
  }

  /** What the check lets go. */
  ghost predicate Allowed(s: Schema, rows: Rows, look: Lookups, p: Id)
    requires Ordered(s) && p in rows
    decreases Later(s, p)
  {
    forall f | f in s.fks && f.refTable == p.table && Says(s, rows, look, f, p) ::
      f.cascade && forall c | Refers(s, rows, f, c, p) :: Allowed(s, rows, look, c)
  }

  /** The check is told of no referring row where there is one that forbids the deletion. */
  ghost predicate Overlooks(s: Schema, rows: Rows, look: Lookups, p: Id)
    requires Ordered(s) && p in rows
    decreases Later(s, p)
  {
    exists f | f in s.fks && f.refTable == p.table ::
      if Says(s, rows, look, f, p)
      then f.cascade && exists c | Refers(s, rows, f, c, p) :: Overlooks(s, rows, look, c)
      else exists c | Refers(s, rows, f, c, p) :: !f.cascade || !Deletable(s, rows, c)
  }

  /** The check is told of a row that forbids the deletion where there is none. */
  ghost predicate Imagines(s: Schema, rows: Rows, look: Lookups, p: Id)
    requires Ordered(s) && p in rows
    decreases Later(s, p)
  {
    exists f | f in s.fks && f.refTable == p.table && Says(s, rows, look, f, p) ::
      if f.cascade then exists c | Refers(s, rows, f, c, p) :: Imagines(s, rows, look, c)
      else forall c :: !Refers(s, rows, f, c, p)
  }

  /** Every answer about the row, and about what depends on it, is right. */
  ghost predicate AnswersRight(s: Schema, rows: Rows, look: Lookups, p: Id) {
    forall f, b | f in s.fks && b in Closure(s, rows, p) && f.refTable == b.table ::
      Says(s, rows, look, f, b) <==> exists c :: Refers(s, rows, f, c, b)
  }

  lemma DeletableBy(s: Schema, rows: Rows, a: Id)
    requires a in rows
    ensures Deletable(s, rows, a) <==>
              forall f, c | f in s.fks && Refers(s, rows, f, c, a) :: f.cascade && Deletable(s, rows, c)
  {
    DeletableFirst(s, rows, a);
    hide Deletable;
    if Deletable(s, rows, a) {
      forall f, c | f in s.fks && Refers(s, rows, f, c, a) ensures f.cascade && Deletable(s, rows, c) {
        assert f.cascade ==> Takes(s, rows, a, c);
      }
    }
  }

  /**
   What the check lets go may go, unless the check was told of no referring row where there is one that forbids
   it; and what may go it lets go, unless it was told of one where there is none.
   */
  lemma {:induction false} CheckExact(s: Schema, rows: Rows, look: Lookups, p: Id)
    requires Ordered(s) && p in rows
    ensures Allowed(s, rows, look, p) ==> (Deletable(s, rows, p) <==> !Overlooks(s, rows, look, p))
    ensures Deletable(s, rows, p) ==> (Allowed(s, rows, look, p) <==> !Imagines(s, rows, look, p))
    decreases Later(s, p)
  {
    DeletableBy(s, rows, p);
    hide Deletable, Says;
    forall f, c | f in s.fks && Refers(s, rows, f, c, p)
      ensures Allowed(s, rows, look, c) ==> (Deletable(s, rows, c) <==> !Overlooks(s, rows, look, c))
      ensures Deletable(s, rows, c) ==> (Allowed(s, rows, look, c) <==> !Imagines(s, rows, look, c))
    {
      CheckExact(s, rows, look, c);
    }
  }

  /** With right answers the check is right. */
  lemma {:induction false} RightAnswers(s: Schema, rows: Rows, look: Lookups, p: Id)
    requires Ordered(s) && p in rows && AnswersRight(s, rows, look, p)
    ensures Allowed(s, rows, look, p) <==> Deletable(s, rows, p)
    decreases Later(s, p)
  {
    DeletableBy(s, rows, p);
    ReachesSelf(s, rows, p);
    assert p in Closure(s, rows, p);
    forall f, c | f in s.fks && f.cascade && Refers(s, rows, f, c, p)
      ensures Allowed(s, rows, look, c) <==> Deletable(s, rows, c)
    {
      assert Takes(s, rows, p, c);
      TakenClosure(s, rows, p, c);
      RightAnswers(s, rows, look, c);
    }
  }

  /** Without an index on a foreign key column, every answer is that of a scan. */
  lemma ScansAreRight(s: Schema, rows: Rows, look: Lookups, p: Id)
    requires forall f, v | f in s.fks :: look(f.fromTable, f.column, v) == None
    ensures AnswersRight(s, rows, look, p)
  {
  }

  /** Rows that are left behind by the deletion of a parent, through a key that forbids it. */
  ghost predicate Strands(s: Schema, rows: Rows, gone: set<Id>) {
    exists f, c, p :: f in s.fks && !f.cascade && c !in gone && p in gone && Refers(s, rows, f, c, p)
                      && !Cell(rows[c], f.column).DbNull? && !HasParent(s, rows - gone, f, Cell(rows[c], f.column))
  }

  lemma RestIntegrity(s: Schema, rows: Rows, gone: set<Id>)
    requires Integrity(s, rows) && Closed(s, rows, gone)
    ensures Integrity(s, rows - gone) <==> !Strands(s, rows, gone)
  {
    var rest := rows - gone;
    IntegrityMeans(s, rows);
    IntegrityMeans(s, rest);
    hide Integrity;
    if Strands(s, rows, gone) {
      var f, c, p :| f in s.fks && !f.cascade && c !in gone && p in gone && Refers(s, rows, f, c, p)
                     && !Cell(rows[c], f.column).DbNull? && !HasParent(s, rest, f, Cell(rows[c], f.column));
      assert c in rest;
    } else {
      forall f, c | f in s.fks && c in rest && c.table == f.fromTable && !Cell(rest[c], f.column).DbNull?
        ensures HasParent(s, rest, f, Cell(rest[c], f.column))
      {
        var p :| p in rows && p.table == f.refTable && AreEqual(s.same, Cell(rows[c], f.column), Cell(rows[p], f.refColumn));
        assert Refers(s, rows, f, c, p);
        if p in gone {
          assert f.cascade ==> Takes(s, rows, p, c);
        } else {
          assert p in rest;
        }
      }
    }
  }

  /** An index that says no where an employee refers to the department: it goes, and the employee stays behind. */
  lemma WrongNo(f: ForeignKey, p: Id, c: Id)
    requires f.refTable == p.table < f.fromTable == c.table && f.column != f.refColumn && !f.cascade
    ensures
      var s, rows := OneKey(f), Pair(f, p, c, K.DbInt(20));
      var look: Lookups := (_, _, _) => Some(false);
      && Ordered(s) && Integrity(s, rows) && Allowed(s, rows, look, p) && !Deletable(s, rows, p)
      && Strands(s, rows, {p})
  {
    var s, rows := OneKey(f), Pair(f, p, c, K.DbInt(20));
    PairRefers(f, p, c, K.DbInt(20));
    ToldNo(s, rows, (_, _, _) => Some(false), p);
    hide Allowed, Integrity, Deletable, HasParent;
    DeletableBy(s, rows, p);
    assert Strands(s, rows, {p}) by {
      assert f in s.fks && c !in {p} && Refers(s, rows, f, c, p);
    }
  }

  /** With nothing said to refer to it, any row may go. */
  lemma ToldNo(s: Schema, rows: Rows, look: Lookups, p: Id)
    requires Ordered(s) && p in rows && forall t, column, v :: look(t, column, v) == Some(false)
    ensures Allowed(s, rows, look, p)
  {
  }


  /** Every state the tables pass through from `n` on has its references intact. */
  ghost predicate AllIntact(s: Schema, states: seq<Rows>, n: nat) {
    forall i | n <= i < |states| :: Integrity(s, states[i])
  }

  class Database {
    var schema: Schema
    var rows: Rows
    // The tables after every single row deletion.
    ghost var states: seq<Rows>

    constructor ()
      ensures schema == Schema([], [], (x, y) => x == y) && rows == map[] && states == []
      ensures Ordered(schema) && Integrity(schema, rows)
    {
      schema, rows, states := Schema([], [], (x, y) => x == y), map[], [];
    }

    /** A new table; its foreign keys must name primary key columns of tables that exist. */
    method CreateTable(table: Table, fks: seq<ForeignKey>) returns (ok: bool)
      requires Ordered(schema) && forall f | f in fks :: f.fromTable == |schema.tables|
      modifies this`schema
      ensures ok <==> forall f | f in fks ::
                        && f.refTable < |old(schema.tables)|
                        && f.refColumn in old(schema.tables)[f.refTable].columns && f.refColumn in old(schema.tables)[f.refTable].key
      ensures Ordered(schema)
      ensures schema == if ok then old(schema).(fks := old(schema.fks) + fks, tables := old(schema.tables) + [table]) else old(schema)
    {
      for i := 0 to |fks|
        invariant forall j | 0 <= j < i :: Names(schema.tables, fks[j])
      {
        var f := fks[i];
        assert f in fks;
        if f.refTable >= |schema.tables| {
          return false;
        }
        var refDef := schema.tables[f.refTable];
        if f.refColumn !in refDef.columns || f.refColumn !in refDef.key {
          return false;
        }
      }
      schema := schema.(fks := schema.fks + fks, tables := schema.tables + [table]);
      ok := true;
    }

    method CheckParents(table: nat, given: Row, checked: set<string>) returns (ok: bool)
      requires Ordered(schema)
      ensures ok <==> Accepted(schema, rows, table, given, checked)
    {
      hide Found;
      for i := 0 to |schema.fks|
        invariant forall j | 0 <= j < i :: var f := schema.fks[j];
                    f.fromTable == table && f.column in checked && !Cell(given, f.column).DbNull? ==> Found(schema, rows, f, Cell(given, f.column))
      {
        var f := schema.fks[i];
        if f.fromTable == table && f.column in checked && !Cell(given, f.column).DbNull? {
          if !Found(schema, rows, f, Cell(given, f.column)) {
            return false;
          }
        }
      }
      ok := true;
    }

    /** Adds a row after checking its foreign keys: the values given are looked up, and `row` is stored for them. */
    method ExecuteInsert(id: Id, given: Row, row: Row) returns (ok: bool)
      requires Ordered(schema) && Integrity(schema, rows) && id !in rows
      modifies this`rows
      ensures ok <==> forall f | f in schema.fks && f.fromTable == id.table && !Cell(given, f.column).DbNull? ::
                        Found(schema, old(rows), f, Cell(given, f.column))
      ensures rows == if ok then old(rows)[id := row] else old(rows)
      ensures Integrity(schema, rows) <==>
                !ok || forall f | f in schema.fks && f.fromTable == id.table && !Cell(row, f.column).DbNull? ::
                  HasParent(schema, old(rows), f, Cell(row, f.column))
      ensures (forall f | f in schema.fks && f.fromTable == id.table :: Judged(schema, old(rows), f, given, row)) ==>
                (ok <==> Integrity(schema, old(rows)[id := row]))
    {
      hide Found, HasParent, Integrity, Judged;
      var checked := set f | f in schema.fks :: f.column;
      InsertIntegrity(schema, rows, id, row, checked);
      ok := CheckParents(id.table, given, checked);
      if forall f | f in schema.fks && f.fromTable == id.table :: Judged(schema, rows, f, given, row) {
        AcceptedRightly(schema, rows, id.table, given, row, checked);
      }
      if ok {
        rows := rows[id := row];
      }
    }

    /** Changes a row after checking the foreign keys among the assigned columns. */
    method ExecuteUpdate(id: Id, given: Row, row: Row, changed: set<string>) returns (ok: bool)
      requires Ordered(schema) && Integrity(schema, rows) && id in rows
      requires forall column :: column !in changed ==> Cell(row, column) == Cell(rows[id], column)
      modifies this`rows
      ensures ok <==> Accepted(schema, old(rows), id.table, given, changed)
      ensures rows == if ok then old(rows)[id := row] else old(rows)
      ensures Integrity(schema, rows) <==>
                !ok || (ParentsFound(schema, old(rows), id.table, row, changed) && !Orphans(schema, old(rows), id, row))
      ensures (forall f | f in schema.fks && f.fromTable == id.table && f.column in changed ::
                 Judged(schema, old(rows), f, given, row)) ==>
                (Integrity(schema, old(rows)[id := row]) <==> ok && !Orphans(schema, old(rows), id, row))
    {
      hide Found, HasParent, Integrity, Judged;
      UpdateIntegrity(schema, rows, id, row, changed);
      ok := CheckParents(id.table, given, changed);
      if forall f | f in schema.fks && f.fromTable == id.table && f.column in changed :: Judged(schema, rows, f, given, row) {
        AcceptedRightly(schema, rows, id.table, given, row, changed);
      }
      if ok {
        rows := rows[id := row];
      }
    }

    method FullScan(table: nat) returns (entries: seq<Id>)
      ensures forall id :: id in entries <==> id in rows && id.table == table
      ensures forall i, j | 0 <= i < j < |entries| :: entries[i] != entries[j]
    {
      var left := set id | id in rows && id.table == table;
      entries := [];
      ghost var all := left;
      while left != {}
        invariant left <= all
        invariant forall id :: id in all <==> id in entries || id in left
        invariant forall id | id in entries :: id !in left
        invariant forall i, j | 0 <= i < j < |entries| :: entries[i] != entries[j]
        decreases left
      {
        var id :| id in left;
        entries := entries + [id];
        left := left - {id};
      }
    }

    /** Some row of the referring table has this value in its foreign key column; an index on it is trusted. */
    method HasDependents(f: ForeignKey, value: Value, look: Lookups) returns (r: bool)
      ensures r <==> match look(f.fromTable, f.column, value)
                     case Some(b) => b
                     case None => exists c :: c in rows && c.table == f.fromTable
                                              && AreEqual(schema.same, Cell(rows[c], f.column), value)
    {
      var answer := look(f.fromTable, f.column, value);
      if answer.Some? {
        return answer.value;
      }
      var entries := FullScan(f.fromTable);
      for i := 0 to |entries|
        invariant forall j | 0 <= j < i :: !AreEqual(schema.same, Cell(rows[entries[j]], f.column), value)
      {
        assert entries[i] in entries;
        if AreEqual(schema.same, Cell(rows[entries[i]], f.column), value) {
          return true;
        }
      }
      r := false;
    }

    /** One key stands in the way if rows are said to refer, and it forbids deletion or one of them may not go itself. */
    method CanDeleteThrough(f: ForeignKey, p: Id, look: Lookups) returns (ok: bool)
      requires Ordered(schema) && p in rows && p.table < |schema.tables| && f in schema.fks && f.refTable == p.table
      ensures ok <==> Says(schema, rows, look, f, p) ==>
                        f.cascade && forall c | Refers(schema, rows, f, c, p) :: Allowed(schema, rows, look, c)
      decreases |schema.tables| - p.table, 0
    {
      hide Allowed;
      var pk := Cell(rows[p], f.refColumn);
      var has := HasDependents(f, pk, look);
      assert forall c | c in rows && c.table == f.fromTable && AreEqual(schema.same, Cell(rows[c], f.column), pk) ::
          Refers(schema, rows, f, c, p);
      if !has {
        return true;
      }
      if !f.cascade {
        return false;
      }
      var entries := FullScan(f.fromTable);
      for k := 0 to |entries|
        invariant forall m | 0 <= m < k :: Refers(schema, rows, f, entries[m], p) ==> Allowed(schema, rows, look, entries[m])
      {
        var c := entries[k];
        assert c in entries;
        if AreEqual(schema.same, Cell(rows[c], f.column), pk) {
          assert Refers(schema, rows, f, c, p);
          var childOk := CanDelete(c, look);
          if !childOk {
            return false;
          }
        }
      }
      ok := true;
    }

    /**
     Accepts a row exactly when nothing in its closure is held by a key that forbids deletion, provided that no
     index on a foreign key column gives a wrong answer; `CheckExact` says what wrong answers do.
     */
    method CanDelete(p: Id, look: Lookups) returns (ok: bool)
      requires Ordered(schema) && p in rows && p.table < |schema.tables|
      ensures ok <==> Allowed(schema, rows, look, p)
      ensures AnswersRight(schema, rows, look, p) ==> (ok <==> Deletable(schema, rows, p))
      decreases |schema.tables| - p.table, 1
    {
      if AnswersRight(schema, rows, look, p) {
        RightAnswers(schema, rows, look, p);
      }
      hide Deletable, AnswersRight, Says;
      for i := 0 to |schema.fks|
        invariant forall f | f in schema.fks[..i] && f.refTable == p.table && Says(schema, rows, look, f, p) ::
                    f.cascade && forall c | Refers(schema, rows, f, c, p) :: Allowed(schema, rows, look, c)
      {
        var f := schema.fks[i];
        assert schema.fks[..i + 1] == schema.fks[..i] + [f];
        if f.refTable == p.table {
          var through := CanDeleteThrough(f, p, look);
          if !through {
            return false;
          }
        }
      }
      assert schema.fks[..|schema.fks|] == schema.fks;
      ok := true;
    }

    /** Deletes, through one cascading key, every row that refers to `p`, each after what depends on it. */
    method DeleteThrough(f: ForeignKey, p: Id, ghost all: Rows, ghost gone: set<Id>, ghost safe: bool) returns (ghost gone': set<Id>)
      requires Ordered(schema) && p in rows && p.table < |schema.tables|
      requires f in schema.fks && f.cascade && f.refTable == p.table
      requires rows == all - gone && Closed(schema, all, gone) && gone <= Closure(schema, all, p)
      requires safe ==> Integrity(schema, rows) && Deletable(schema, all, p)
      modifies this`rows, this`states
      ensures rows == all - gone' && Closed(schema, all, gone') && gone <= gone' <= Closure(schema, all, p)
      ensures p in rows && (safe ==> Integrity(schema, rows))
      ensures forall c | Refers(schema, all, f, c, p) :: c in gone'
      ensures old(states) <= states && (safe ==> AllIntact(schema, states, |old(states)|))
      decreases |schema.tables| - p.table, 0
    {
      hide Deletable, Closed, Integrity, Closure;
      gone' := gone;
      var pk := Cell(rows[p], f.refColumn);
      var entries := FullScan(f.fromTable);
      for k := 0 to |entries|
        invariant rows == all - gone' && Closed(schema, all, gone') && gone <= gone' <= Closure(schema, all, p)
        invariant p in rows && (safe ==> Integrity(schema, rows))
        invariant forall m | 0 <= m < k && Refers(schema, all, f, entries[m], p) :: entries[m] in gone'
        invariant forall m | k <= m < |entries| :: entries[m] in rows
        invariant old(states) <= states && (safe ==> AllIntact(schema, states, |old(states)|))
      {
        var c := entries[k];
        assert c in entries;
        if AreEqual(schema.same, Cell(rows[c], f.column), pk) {
          assert Refers(schema, all, f, c, p);
          ChildFacts(schema, all, gone', p, c, f);
          DoDelete(c, safe);
          gone' := gone' + Closure(schema, all, c);
        }
      }
    }

    /** Deletes a row after everything that depends on it through cascading keys. */
    method DoDelete(p: Id, ghost safe: bool)
      requires Ordered(schema) && p in rows && p.table < |schema.tables|
      requires safe ==> Integrity(schema, rows) && Deletable(schema, rows, p)
      modifies this`rows, this`states
      ensures rows == old(rows) - Closure(schema, old(rows), p)
      ensures safe ==> Integrity(schema, rows)
      ensures old(states) <= states && (safe ==> AllIntact(schema, states, |old(states)|))
      decreases |schema.tables| - p.table, 1
    {
      hide Deletable, Closed, Integrity, Closure;
      ghost var all, gone: set<Id> := rows, {};
      NothingGone(schema, all, p);
      assert rows == all - gone;
      for i := 0 to |schema.fks|
        invariant rows == all - gone && Closed(schema, all, gone) && gone <= Closure(schema, all, p)
        invariant p in rows && (safe ==> Integrity(schema, rows))
        invariant forall f | f in schema.fks[..i] && f.cascade :: forall c | Refers(schema, all, f, c, p) :: c in gone
        invariant old(states) <= states && (safe ==> AllIntact(schema, states, |old(states)|))
      {
        var f := schema.fks[i];
        assert schema.fks[..i + 1] == schema.fks[..i] + [f];
        if f.refTable == p.table && f.cascade {
          gone := DeleteThrough(f, p, all, gone, safe);
        }
      }
      assert schema.fks[..|schema.fks|] == schema.fks;
      LastToGo(schema, all, p, gone, safe);
      rows := rows - {p};
      states := states + [rows];
      assert rows == all - Closure(schema, all, p);
    }

    /**
     Deletes the selected rows of a table: either the check lets every one of them go, and then exactly their
     closure goes; or nothing changes at all. If they may all go, every reference is intact after each single
     row. If the check was misled, they are intact in the end unless a row is stranded.
     */
    method ExecuteDelete(selected: seq<Id>, table: nat, look: Lookups) returns (ok: bool)
      requires Ordered(schema) && Integrity(schema, rows) && table < |schema.tables|
      requires forall id | id in selected :: id in rows && id.table == table
      requires forall i, j | 0 <= i < j < |selected| :: selected[i] != selected[j]
      modifies this`rows, this`states
      ensures ok <==> forall id | id in selected :: Allowed(schema, old(rows), look, id)
      ensures (forall id | id in selected :: AnswersRight(schema, old(rows), look, id)) ==>
                (ok <==> forall id | id in selected :: Deletable(schema, old(rows), id))
      ensures !ok ==> rows == old(rows) && states == old(states)
      ensures ok ==> rows == old(rows) - ClosureOf(schema, old(rows), selected)
      ensures Integrity(schema, rows) <==> !ok || !Strands(schema, old(rows), ClosureOf(schema, old(rows), selected))
      ensures old(states) <= states
      ensures (forall id | id in selected :: Deletable(schema, old(rows), id)) ==>
                Integrity(schema, rows) && AllIntact(schema, states, |old(states)|)
    {
      hide Deletable, Closed, Integrity, Closure, ClosureOf, Allowed, AnswersRight, Strands;
      if forall id | id in selected :: AnswersRight(schema, rows, look, id) {
        forall id | id in selected ensures Allowed(schema, rows, look, id) <==> Deletable(schema, rows, id) {
          RightAnswers(schema, rows, look, id);
        }
      }
      for k := 0 to |selected|
        modifies {}
        invariant forall m | 0 <= m < k :: Allowed(schema, rows, look, selected[m])
      {
        var can := CanDelete(selected[k], look);
        if !can {
          return false;
        }
      }
      ghost var safe := forall id | id in selected :: Deletable(schema, rows, id);
      ghost var all, gone: set<Id> := rows, {};
      NoneSelected(schema, all);
      for k := 0 to |selected|
        invariant rows == all - gone && Closed(schema, all, gone) && gone == ClosureOf(schema, all, selected[..k])
        invariant forall m | k <= m < |selected| :: selected[m] in rows
        invariant safe ==> Integrity(schema, rows)
        invariant old(states) <= states && (safe ==> AllIntact(schema, states, |old(states)|))
      {
        var p := selected[k];
        OneMoreSelected(schema, all, selected, k, gone);
        DoDelete(p, safe);
        gone := gone + Closure(schema, all, p);
      }
      assert selected[..|selected|] == selected;
      RestIntegrity(schema, all, gone);
      ok := true;
    }
  }

  lemma NothingGone(s: Schema, rows: Rows, p: Id)
    ensures Closed(s, rows, {}) && {} <= Closure(s, rows, p)
  {
  }

  /** What deleting a row that `p` takes along needs and does, in terms of the tables before anything was deleted. */
  lemma ChildFacts(s: Schema, all: Rows, gone: set<Id>, p: Id, c: Id, f: ForeignKey)
    requires Ordered(s) && f in s.fks && f.cascade && Refers(s, all, f, c, p)
    requires Closed(s, all, gone)
    ensures p.table < c.table < |s.tables| && (Deletable(s, all, p) ==> Deletable(s, all - gone, c))
    ensures Closure(s, all - gone, c) == Closure(s, all, c) - gone
    ensures Closed(s, all, gone + Closure(s, all, c)) && c in Closure(s, all, c) && Closure(s, all, c) <= Closure(s, all, p)
    ensures (all - gone) - Closure(s, all - gone, c) == all - (gone + Closure(s, all, c))
    ensures forall b | b in Closure(s, all, c) :: b == c || c.table < b.table
  {
    assert Takes(s, all, p, c);
    if Deletable(s, all, p) {
      DeletableFirst(s, all, p);
      DeletableInRest(s, all, gone, c);
    }
    ClosureInRest(s, all, gone, c);
    ClosureClosed(s, all, c);
    ClosedUnion(s, all, gone, Closure(s, all, c));
    TakenClosure(s, all, p, c);
    ReachesSelf(s, all, c);
    forall b | b in Closure(s, all, c) ensures b == c || c.table < b.table {
      NotReachedBack(s, all, c, b);
    }
  }

  /** Once everything that a row takes along is gone, and nothing else refers to the row, it can go too. */
  lemma LastToGo(s: Schema, all: Rows, p: Id, gone: set<Id>, safe: bool)
    requires p in all && p !in gone && Closed(s, all, gone) && gone <= Closure(s, all, p)
    requires safe ==> Deletable(s, all, p) && Integrity(s, all - gone)
    requires forall f | f in s.fks && f.cascade :: forall c | Refers(s, all, f, c, p) :: c in gone
    ensures Closure(s, all, p) == gone + {p}
    ensures safe ==> Integrity(s, all - gone - {p})
  {
    ClosureIs(s, all, p, gone);
    if safe {
      DeletableFirst(s, all, p);
      var rest := all - gone;
      forall f, c | f in s.fks ensures !Refers(s, rest, f, c, p) {
        assert Refers(s, rest, f, c, p) ==> Refers(s, all, f, c, p);
      }
      IntegrityWithout(s, rest, p);
    }
  }

  lemma NoneSelected(s: Schema, all: Rows)
    ensures ClosureOf(s, all, []) == {} && Closed(s, all, {})
  {
  }

  lemma OneMoreSelected(s: Schema, all: Rows, selected: seq<Id>, k: nat, gone: set<Id>)
    requires Ordered(s) && k < |selected| && Closed(s, all, gone)
    requires gone == ClosureOf(s, all, selected[..k])
    ensures Deletable(s, all, selected[k]) ==> Deletable(s, all - gone, selected[k])
    ensures ClosureOf(s, all, selected[..k + 1]) == gone + Closure(s, all, selected[k])
    ensures Closed(s, all, gone + Closure(s, all, selected[k]))
    ensures (all - gone) - Closure(s, all - gone, selected[k]) == all - (gone + Closure(s, all, selected[k]))
    ensures forall b | b in Closure(s, all, selected[k]) :: b == selected[k] || selected[k].table < b.table
  {
    var p := selected[k];
    if Deletable(s, all, p) {
      DeletableInRest(s, all, gone, p);
    }
    ClosureInRest(s, all, gone, p);
    ClosureClosed(s, all, p);
    ClosedUnion(s, all, gone, Closure(s, all, p));
    assert selected[..k + 1] == selected[..k] + [p];
    forall b | b in Closure(s, all, p) ensures b == p || p.table < b.table {
      NotReachedBack(s, all, p, b);
    }
  }
}
