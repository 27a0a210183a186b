/** What the uniqueness checks of INSERT and UPDATE let through, and whether the indexes still agree with the table. */
module Constraints {
  import opened Transactions
  import opened RowSerializer
  import opened ByteCodec
  import StoredKeys
  import K = IndexKeys

  // --- INSERT ------------------------------------------------------------------------------------------------------

  /**
   The checks as written: the primary key must not be there yet, but the key for every other unique index
   must be. `keys` are built from the values in the statement.
   */
  predicate AcceptsInsert(indexes: seq<Index>, keys: seq<int>)
    requires |keys| == |indexes| >= 1
  {
    keys[0] !in indexes[0] && forall i | 1 <= i < |indexes| :: keys[i] in indexes[i]
  }

  /** Every index gets the new place under the statement's key. */
  function InsertKeys(indexes: seq<Index>, keys: seq<int>, loc: Loc): (r: seq<Index>)
    requires |keys| == |indexes|
    ensures |r| == |indexes| && forall i | 0 <= i < |r| :: r[i] == indexes[i][keys[i] := loc]
  {
    seq(|indexes|, i requires 0 <= i < |indexes| => indexes[i][keys[i] := loc])
  }

  /** Some live row has the key. */
  ghost predicate Taken(rows: map<Loc, Bytes>, def: IndexDef, key: int) {
    exists l | l in rows :: l.table == def.table && def.key(rows[l]) == key
  }

  /** Some live row other than the one at `loc` has the key. */
  ghost predicate TakenByOther(rows: map<Loc, Bytes>, def: IndexDef, key: int, loc: Loc) {
    exists l | l in rows :: l != loc && l.table == def.table && def.key(rows[l]) == key
  }

  lemma TakenInIndex(rows: map<Loc, Bytes>, def: IndexDef, idx: Index, key: int)
    requires Agrees(rows, def, idx)
    ensures key in idx <==> Taken(rows, def, key)
  {
  }

  /**
   For indexes that agree with the table: INSERT is accepted exactly if no live row has the statement's primary
   key and, by the inverted test, some live row has its key under every other unique index.
   */
  lemma AcceptsExact(rows: map<Loc, Bytes>, defs: seq<IndexDef>, indexes: seq<Index>, keys: seq<int>)
    requires AllAgree(rows, defs, indexes) && |keys| == |indexes| >= 1
    ensures AcceptsInsert(indexes, keys) <==>
              !Taken(rows, defs[0], keys[0]) && forall i | 1 <= i < |defs| :: Taken(rows, defs[i], keys[i])
  {
    hide Agrees, Taken;
    forall i | 0 <= i < |defs| ensures keys[i] in indexes[i] <==> Taken(rows, defs[i], keys[i]) {
      TakenInIndex(rows, defs[i], indexes[i], keys[i]);
    }
  }

  /** A table whose only index is its primary one accepts every new key. */
  lemma NewKeysAccepted(rows: map<Loc, Bytes>, defs: seq<IndexDef>, indexes: seq<Index>, keys: seq<int>)
    requires AllAgree(rows, defs, indexes) && |keys| == |indexes| == 1
    requires forall l | l in rows && l.table == defs[0].table :: defs[0].key(rows[l]) != keys[0]
    ensures AcceptsInsert(indexes, keys)
  {
    hide Agrees;
    AcceptsExact(rows, defs, indexes, keys);
  }

  method ExecuteInsert(rows: map<Loc, Bytes>, defs: seq<IndexDef>, indexes: seq<Index>, loc: Loc, row: Bytes, keys: seq<int>)
    returns (ok: bool, rows': map<Loc, Bytes>, indexes': seq<Index>)
    requires |keys| == |indexes| >= 1
    ensures ok == AcceptsInsert(indexes, keys)
    ensures AllAgree(rows, defs, indexes) ==>
              (ok <==> !Taken(rows, defs[0], keys[0]) && forall i | 1 <= i < |defs| :: Taken(rows, defs[i], keys[i]))
    ensures !ok ==> rows' == rows && indexes' == indexes
    ensures ok ==> rows' == rows[loc := row] && indexes' == InsertKeys(indexes, keys, loc)
  {
    hide Agrees, Taken;
    if AllAgree(rows, defs, indexes) {
      AcceptsExact(rows, defs, indexes, keys);
    }
    rows', indexes' := rows, indexes;
    if keys[0] in indexes[0] {
      return false, rows, indexes;
    }
    for i := 1 to |indexes|
      invariant forall j | 1 <= j < i :: keys[j] in indexes[j]
    {
      if keys[i] !in indexes[i] {
        return false, rows, indexes;
      }
    }
    rows' := rows[loc := row];
    for i := 0 to |indexes|
      invariant |indexes'| == |indexes|
      invariant forall j | 0 <= j < i :: indexes'[j] == indexes[j][keys[j] := loc]
      invariant forall j | i <= j < |indexes| :: indexes'[j] == indexes[j]
    {
      indexes' := indexes'[i := indexes'[i][keys[i] := loc]];
    }
    ok := true;
  }

  /** One index after an insert agrees exactly if the key is that of the stored row and was not there. */
  lemma InsertAgrees(rows: map<Loc, Bytes>, def: IndexDef, idx: Index, loc: Loc, row: Bytes, key: int)
    requires Agrees(rows, def, idx) && loc !in rows && loc.table == def.table
    ensures Agrees(rows[loc := row], def, idx[key := loc]) <==> key == def.key(row) && key !in idx
  {
    var rows', idx' := rows[loc := row], idx[key := loc];
    assert loc in rows' && forall k | k in idx :: idx[k] in rows && idx[k] != loc && rows'[idx[k]] == rows[idx[k]];
    assert key in idx && idx[key] in rows' ==> def.key(rows'[idx[key]]) == key;
    if key == def.key(row) && key !in idx {
      assert forall l | l in rows' :: l == loc || (l in rows && rows'[l] == rows[l]);
      assert forall k | k in idx' :: k == key || (k in idx && idx'[k] == idx[k]);
    }
  }

  /**
   An accepted INSERT leaves the indexes in agreement with the table if and only if the table has no unique
   index besides its primary one, and the primary key in the statement is the one that is stored.
   */
  lemma InsertExact(rows: map<Loc, Bytes>, defs: seq<IndexDef>, indexes: seq<Index>, loc: Loc, row: Bytes, keys: seq<int>)
    requires AllAgree(rows, defs, indexes) && |keys| == |defs| >= 1 && loc !in rows
    requires forall i | 0 <= i < |defs| :: defs[i].table == loc.table
    requires AcceptsInsert(indexes, keys)
    ensures AllAgree(rows[loc := row], defs, InsertKeys(indexes, keys, loc)) <==> |defs| == 1 && keys[0] == defs[0].key(row)
  {
    forall i | 0 <= i < |defs|
      ensures Agrees(rows[loc := row], defs[i], indexes[i][keys[i] := loc]) <==> keys[i] == defs[i].key(row) && keys[i] !in indexes[i]
    {
      InsertAgrees(rows, defs[i], indexes[i], loc, row, keys[i]);
    }
    hide Agrees;
    if |defs| > 1 {
      assert !Agrees(rows[loc := row], defs[1], InsertKeys(indexes, keys, loc)[1]);
    }
  }

  // --- UPDATE ------------------------------------------------------------------------------------------------------------

  /** What is stored, and for every index the key that the values in the statement make. */
  datatype RowChange = RowChange(loc: Loc, row: Bytes, keys: seq<int>)

  /** There is a key for every one of `n` indexes. */
  predicate KeyedFor(changes: seq<RowChange>, n: nat) {
    forall c | c in changes :: |c.keys| == n
  }

  /** A change is checked against index `i` as it was before the statement. */
  predicate Passes(rows: map<Loc, Bytes>, def: IndexDef, idx: Index, c: RowChange, i: nat)
    requires c.loc in rows && i < |c.keys|
  {
    def.key(rows[c.loc]) == c.keys[i] || c.keys[i] !in idx
  }

  function UpdateRows(rows: map<Loc, Bytes>, changes: seq<RowChange>): map<Loc, Bytes> {
    if changes == [] then rows
    else
      var c := changes[|changes| - 1];
      UpdateRows(rows, changes[..|changes| - 1])[c.loc := c.row]
  }

  /** The entry is moved from the key of the row as it was to the key of the statement, if they differ. */
  function MoveEntry(idx: Index, def: IndexDef, loc: Loc, row: Bytes, key: int): Index {
    if def.table != loc.table || def.key(row) == key then idx else (idx - {def.key(row)})[key := loc]
  }

  /** The writes happen one after another, each with the old and new key computed beforehand. */
  function UpdateIndex(rows: map<Loc, Bytes>, def: IndexDef, idx: Index, changes: seq<RowChange>, i: nat): Index
    requires forall c | c in changes :: c.loc in rows && i < |c.keys|
  {
    if changes == [] then idx
    else
      var c := changes[|changes| - 1];
      MoveEntry(UpdateIndex(rows, def, idx, changes[..|changes| - 1], i), def, c.loc, rows[c.loc], c.keys[i])
  }

  ghost predicate Validated(rows: map<Loc, Bytes>, def: IndexDef, idx: Index, changes: seq<RowChange>, i: nat) {
    && (forall c | c in changes :: c.loc in rows && c.loc.table == def.table && i < |c.keys| && Passes(rows, def, idx, c, i))
    && (forall a, b | 0 <= a < b < |changes| :: changes[a].loc != changes[b].loc)
  }

  /** No two changed rows get the same key. */
  ghost predicate DistinctKeys(def: IndexDef, changes: seq<RowChange>) {
    forall a, b | 0 <= a < b < |changes| :: def.key(changes[a].row) != def.key(changes[b].row)
  }

  /** The statement's values make the keys of the rows that are stored. */
  ghost predicate KeysStored(def: IndexDef, changes: seq<RowChange>, i: nat) {
    forall c | c in changes :: i < |c.keys| && c.keys[i] == def.key(c.row)
  }

  lemma {:induction false} UpdatedRow(rows: map<Loc, Bytes>, changes: seq<RowChange>, l: Loc)
    requires forall c | c in changes :: c.loc in rows
    requires forall a, b | 0 <= a < b < |changes| :: changes[a].loc != changes[b].loc
    ensures UpdateRows(rows, changes).Keys == rows.Keys
    ensures l in rows ==>
              || (UpdateRows(rows, changes)[l] == rows[l] && forall k | 0 <= k < |changes| :: changes[k].loc != l)
              || exists k | 0 <= k < |changes| :: changes[k].loc == l && UpdateRows(rows, changes)[l] == changes[k].row
    ensures forall k | 0 <= k < |changes| :: changes[k].loc == l ==> UpdateRows(rows, changes)[l] == changes[k].row
  {
    if changes != [] {
      var n := |changes| - 1;
      assert changes[n] in changes && forall k | 0 <= k < n :: changes[..n][k] == changes[k];
      assert forall c | c in changes[..n] :: c in changes;
      UpdatedRow(rows, changes[..n], l);
    }
  }

  /** The rows keep their keys apart exactly if the new keys are apart. */
  lemma UpdateUnique(rows: map<Loc, Bytes>, def: IndexDef, idx: Index, changes: seq<RowChange>, i: nat)
    requires Agrees(rows, def, idx) && Validated(rows, def, idx, changes, i) && KeysStored(def, changes, i)
    ensures UniqueKeys(UpdateRows(rows, changes), def) <==> DistinctKeys(def, changes)
  {
    var rows' := UpdateRows(rows, changes);
    assert forall k | 0 <= k < |changes| :: changes[k] in changes;
    UpdatedRow(rows, changes, Loc("", 0, 0));
    if UniqueKeys(rows', def) {
      forall a, b | 0 <= a < b < |changes| ensures def.key(changes[a].row) != def.key(changes[b].row) {
        UpdatedRow(rows, changes, changes[a].loc);
        UpdatedRow(rows, changes, changes[b].loc);
      }
    }
    if DistinctKeys(def, changes) {
      forall l, m | l in rows' && m in rows' && l != m && l.table == m.table == def.table
        ensures def.key(rows'[l]) != def.key(rows'[m])
      {
        UpdatedRow(rows, changes, l);
        UpdatedRow(rows, changes, m);
      }
    }
  }

  /** The entries of the rows changed so far are under the keys of the statement, all others where they were. */
  lemma {:induction false} EntryKeys(rows: map<Loc, Bytes>, def: IndexDef, idx: Index, changes: seq<RowChange>, i: nat, k: int)
    requires Agrees(rows, def, idx) && Validated(rows, def, idx, changes, i)
    ensures
      var idx' := UpdateIndex(rows, def, idx, changes, i);
      k in idx' ==>
        && (forall c | c in changes && c.loc == idx'[k] :: k == c.keys[i])
        && ((forall c | c in changes :: c.loc != idx'[k]) ==> k in idx && idx[k] == idx'[k])
  {
    if changes != [] {
      var n := |changes| - 1;
      var front, c := changes[..n], changes[n];
      assert c in changes && forall d | d in front :: d in changes;
      forall a, b | 0 <= a < b < n ensures front[a].loc != front[b].loc {
        assert front[a] == changes[a] && front[b] == changes[b];
      }
      EntryKeys(rows, def, idx, front, i, k);
      forall d | d in changes ensures d == c || (d in front && d.loc != c.loc) {
        var m :| 0 <= m < |changes| && changes[m] == d;
        assert m < n ==> front[m] == d;
      }
    }
  }

  lemma KeysMustBeStored(rows: map<Loc, Bytes>, def: IndexDef, idx: Index, changes: seq<RowChange>, i: nat)
    requires Agrees(rows, def, idx) && Validated(rows, def, idx, changes, i)
    requires Agrees(UpdateRows(rows, changes), def, UpdateIndex(rows, def, idx, changes, i))
    ensures KeysStored(def, changes, i)
  {
    var rows', idx' := UpdateRows(rows, changes), UpdateIndex(rows, def, idx, changes, i);
    forall c | c in changes ensures c.keys[i] == def.key(c.row) {
      var m :| 0 <= m < |changes| && changes[m] == c;
      UpdatedRow(rows, changes, c.loc);
      assert c.loc in rows'.Keys && rows'[c.loc] == c.row;
      EntryKeys(rows, def, idx, changes, i, def.key(c.row));
    }
  }

  /**
   A validated UPDATE leaves the index in agreement with the table if and only if no two of the rows it
   changes get the same key, and the values in the statement make the keys of the rows that are stored.
   */
  lemma UpdateExact(rows: map<Loc, Bytes>, def: IndexDef, idx: Index, changes: seq<RowChange>, i: nat)
    requires Agrees(rows, def, idx) && Validated(rows, def, idx, changes, i)
    ensures Agrees(UpdateRows(rows, changes), def, UpdateIndex(rows, def, idx, changes, i)) <==>
              DistinctKeys(def, changes) && KeysStored(def, changes, i)
  {
    hide UpdateRows, UpdateIndex, Agrees, UniqueKeys;
    if Agrees(UpdateRows(rows, changes), def, UpdateIndex(rows, def, idx, changes, i)) {
      KeysMustBeStored(rows, def, idx, changes, i);
      UpdateUnique(rows, def, idx, changes, i);
      AgreesUnique(UpdateRows(rows, changes), def, UpdateIndex(rows, def, idx, changes, i));
    }
    if DistinctKeys(def, changes) && KeysStored(def, changes, i) {
      UpdateKeepsAgreement(rows, def, idx, changes, i);
    }
  }

  lemma {:induction false} UpdateKeepsAgreement(rows: map<Loc, Bytes>, def: IndexDef, idx: Index, changes: seq<RowChange>, i: nat)
    requires Agrees(rows, def, idx) && Validated(rows, def, idx, changes, i)
    requires DistinctKeys(def, changes) && KeysStored(def, changes, i)
    ensures Agrees(UpdateRows(rows, changes), def, UpdateIndex(rows, def, idx, changes, i))
    decreases |changes|
  {
    hide Agrees, UniqueKeys;
    if changes != [] {
      var n := |changes| - 1;
      var front, c := changes[..n], changes[n];
      assert c in changes && forall d | d in front :: d in changes;
      UpdateKeepsAgreement(rows, def, idx, front, i);
      UpdateUnique(rows, def, idx, changes, i);
      UpdatedRow(rows, front, c.loc);
      MoveAgrees(UpdateRows(rows, front), def, UpdateIndex(rows, def, idx, front, i), c.loc, c.row);
    }
  }

  /** A key passes exactly if no live row but the changed one has it. */
  lemma PassesExact(rows: map<Loc, Bytes>, def: IndexDef, idx: Index, c: RowChange, i: nat)
    requires Agrees(rows, def, idx) && c.loc in rows && c.loc.table == def.table && i < |c.keys|
    ensures Passes(rows, def, idx, c, i) <==> !TakenByOther(rows, def, c.keys[i], c.loc)
  {
  }

  /** Checks one row against every index. */
  method CheckRow(rows: map<Loc, Bytes>, defs: seq<IndexDef>, indexes: seq<Index>, c: RowChange) returns (ok: bool)
    requires |defs| == |indexes| == |c.keys| && c.loc in rows
    ensures ok <==> forall i | 0 <= i < |defs| :: Passes(rows, defs[i], indexes[i], c, i)
  {
    for i := 0 to |defs|
      invariant forall j | 0 <= j < i :: Passes(rows, defs[j], indexes[j], c, j)
    {
      if !Passes(rows, defs[i], indexes[i], c, i) {
        return false;
      }
    }
    ok := true;
  }

  /** Moves one row's entry in every index. */
  method MoveEntries(rows: map<Loc, Bytes>, defs: seq<IndexDef>, indexes: seq<Index>, c: RowChange) returns (indexes': seq<Index>)
    requires |defs| == |indexes| == |c.keys| && c.loc in rows
    ensures |indexes'| == |indexes|
    ensures forall i | 0 <= i < |defs| :: indexes'[i] == MoveEntry(indexes[i], defs[i], c.loc, rows[c.loc], c.keys[i])
  {
    indexes' := indexes;
    for i := 0 to |defs|
      invariant |indexes'| == |indexes|
      invariant forall j | 0 <= j < i :: indexes'[j] == MoveEntry(indexes[j], defs[j], c.loc, rows[c.loc], c.keys[j])
      invariant forall j | i <= j < |defs| :: indexes'[j] == indexes[j]
    {
      indexes' := indexes'[i := MoveEntry(indexes'[i], defs[i], c.loc, rows[c.loc], c.keys[i])];
    }
  }

  method CheckRows(rows: map<Loc, Bytes>, defs: seq<IndexDef>, indexes: seq<Index>, changes: seq<RowChange>) returns (ok: bool)
    requires |defs| == |indexes| && KeyedFor(changes, |defs|) && forall c | c in changes :: c.loc in rows
    ensures ok <==> forall i, k | 0 <= i < |defs| && 0 <= k < |changes| :: Passes(rows, defs[i], indexes[i], changes[k], i)
  {
    hide Passes;
    for k := 0 to |changes|
      invariant forall i, m | 0 <= i < |defs| && 0 <= m < k :: Passes(rows, defs[i], indexes[i], changes[m], i)
    {
      assert changes[k] in changes;
      ok := CheckRow(rows, defs, indexes, changes[k]);
      if !ok {
        return;
      }
    }
    ok := true;
  }

  /** The changed rows are rows of the table that the indexes are for. */
  predicate InTable(rows: map<Loc, Bytes>, defs: seq<IndexDef>, changes: seq<RowChange>) {
    forall c, i | c in changes && 0 <= i < |defs| :: c.loc in rows && c.loc.table == defs[i].table
  }

  /** For indexes that agree with the table: UPDATE is accepted exactly if no new key is that of another live row. */
  lemma UpdateAccepted(rows: map<Loc, Bytes>, defs: seq<IndexDef>, indexes: seq<Index>, changes: seq<RowChange>)
    requires AllAgree(rows, defs, indexes) && InTable(rows, defs, changes)
    requires KeyedFor(changes, |defs|) && forall c | c in changes :: c.loc in rows
    ensures (forall i, k | 0 <= i < |defs| && 0 <= k < |changes| :: Passes(rows, defs[i], indexes[i], changes[k], i)) <==>
              forall i, k | 0 <= i < |defs| && 0 <= k < |changes| :: !TakenByOther(rows, defs[i], changes[k].keys[i], changes[k].loc)
  {
    hide Agrees, Passes, TakenByOther;
    forall i, k | 0 <= i < |defs| && 0 <= k < |changes|
      ensures Passes(rows, defs[i], indexes[i], changes[k], i) <==> !TakenByOther(rows, defs[i], changes[k].keys[i], changes[k].loc)
    {
      assert changes[k] in changes;
      PassesExact(rows, defs[i], indexes[i], changes[k], i);
    }
  }

  /** A statement that changes no key is accepted. */
  lemma UnchangedKeysPass(rows: map<Loc, Bytes>, defs: seq<IndexDef>, indexes: seq<Index>, changes: seq<RowChange>)
    requires AllAgree(rows, defs, indexes) && InTable(rows, defs, changes)
    requires KeyedFor(changes, |defs|) && forall c | c in changes :: c.loc in rows
    requires forall c, i | c in changes && 0 <= i < |defs| :: c.keys[i] == defs[i].key(rows[c.loc])
    ensures forall i, k | 0 <= i < |defs| && 0 <= k < |changes| :: Passes(rows, defs[i], indexes[i], changes[k], i)
  {
    forall i, k | 0 <= i < |defs| && 0 <= k < |changes| ensures Passes(rows, defs[i], indexes[i], changes[k], i) {
      assert changes[k] in changes && Agrees(rows, defs[i], indexes[i]);
      PassesExact(rows, defs[i], indexes[i], changes[k], i);
    }
  }

  /** Checks every row before it writes any. */
  method ExecuteUpdate(rows: map<Loc, Bytes>, defs: seq<IndexDef>, indexes: seq<Index>, changes: seq<RowChange>)
    returns (ok: bool, rows': map<Loc, Bytes>, indexes': seq<Index>)
    requires |defs| == |indexes| && KeyedFor(changes, |defs|) && forall c | c in changes :: c.loc in rows
    ensures ok <==> forall i, k | 0 <= i < |defs| && 0 <= k < |changes| :: Passes(rows, defs[i], indexes[i], changes[k], i)
    ensures AllAgree(rows, defs, indexes) && InTable(rows, defs, changes) ==>
              (ok <==> forall i, k | 0 <= i < |defs| && 0 <= k < |changes| ::
                 !TakenByOther(rows, defs[i], changes[k].keys[i], changes[k].loc))
    ensures !ok ==> rows' == rows && indexes' == indexes
    ensures ok ==> rows' == UpdateRows(rows, changes) && |indexes'| == |defs|
    ensures ok ==> forall i | 0 <= i < |defs| :: indexes'[i] == UpdateIndex(rows, defs[i], indexes[i], changes, i)
  {
    hide Passes, MoveEntry, Agrees, TakenByOther, InTable;
    if AllAgree(rows, defs, indexes) && InTable(rows, defs, changes) {
      UpdateAccepted(rows, defs, indexes, changes);
    }
    rows', indexes' := rows, indexes;
    ok := CheckRows(rows, defs, indexes, changes);
    if !ok {
      return;
    }
    for k := 0 to |changes|
      invariant rows' == UpdateRows(rows, changes[..k]) && |indexes'| == |defs|
      invariant forall i | 0 <= i < |defs| :: indexes'[i] == UpdateIndex(rows, defs[i], indexes[i], changes[..k], i)
    {
      var c := changes[k];
      assert c in changes && changes[..k + 1][..k] == changes[..k] && forall d | d in changes[..k + 1] :: d in changes;
      rows' := rows'[c.loc := c.row];
      indexes' := MoveEntries(rows, defs, indexes', c);
    }
    assert changes[..|changes|] == changes;
  }

  /** Two rows set to the same new key pass the checks, and end up with the same key. */
  lemma SameKeyTwicePasses(a: Loc, b: Loc, def: IndexDef, x: Bytes, y: Bytes, z: Bytes)
    requires a != b && a.table == b.table == def.table
    requires def.key(x) != def.key(y) && def.key(z) != def.key(x) && def.key(z) != def.key(y)
    ensures
      var rows, idx := map[a := x, b := y], map[def.key(x) := a, def.key(y) := b];
      var changes := [RowChange(a, z, [def.key(z)]), RowChange(b, z, [def.key(z)])];
      && Agrees(rows, def, idx) && Validated(rows, def, idx, changes, 0)
      && KeysStored(def, changes, 0) && !DistinctKeys(def, changes)
  {
    var changes := [RowChange(a, z, [def.key(z)]), RowChange(b, z, [def.key(z)])];
    assert changes[0].row == changes[1].row;
  }

  /** The primary index of a table with one column of integers. */
  ghost function IntKey(table: string, behind: nat -> byte): IndexDef {
    IndexDef(table, image => StoredKeys.ImageKey([IntColumn], [0], behind, image))
  }

  function IntRow(i: int32): Bytes {
    Image([IntColumn], [IntValue(i)])
  }

  lemma IntRowKey(table: string, behind: nat -> byte, lib: Library, i: int32)
    ensures K.Fits([K.DbInt(i)])
    ensures IntKey(table, behind).key(IntRow(i)) == StoredKeys.KeyOf([K.DbInt(i)])
  {
    var given := [IntValue(i)];
    StoredKeys.IntKeysDiffer(i, i);
    assert Coerced(lib, [IntColumn], given) == given;
    assert StoredKeys.Picked(StoredKeys.StoredRow(lib, [IntColumn], given), [0]) == [K.DbInt(i)];
    ShortStringsSurvive([IntColumn], given, behind);
    StoredKeys.ImageKeyIs(lib, [IntColumn], [0], behind, given);
  }

  /**
   `UPDATE t SET { id = 5.5 }` on a table whose one row has the integer key 1 passes all checks: 5 is stored, and
   the index gets the key of 5.5.
   */
  lemma FractionalKeyPasses(table: string, behind: nat -> byte, lib: Library, loc: Loc)
    requires loc.table == table
    ensures K.Fits([K.DbDouble(StoredKeys.FIVE_AND_A_HALF)])
    ensures
      var def, given := IntKey(table, behind), [FloatValue(StoredKeys.FIVE_AND_A_HALF)];
      var rows, idx := map[loc := IntRow(1)], map[def.key(IntRow(1)) := loc];
      var changes := [RowChange(loc, Image([IntColumn], Coerced(lib, [IntColumn], given)),
                                [StoredKeys.KeyOf([K.DbDouble(StoredKeys.FIVE_AND_A_HALF)])])];
      && changes[0].row == IntRow(5) && Agrees(rows, def, idx) && Validated(rows, def, idx, changes, 0)
      && DistinctKeys(def, changes) && !KeysStored(def, changes, 0)
      && !Agrees(UpdateRows(rows, changes), def, UpdateIndex(rows, def, idx, changes, 0))
  {
    hide StoredKeys.KeyOf, K.Fits, Image, StoredKeys.ImageKey;
    var def, given := IntKey(table, behind), [FloatValue(StoredKeys.FIVE_AND_A_HALF)];
    IntRowKey(table, behind, lib, 1);
    IntRowKey(table, behind, lib, 5);
    StoredKeys.FractionalKey(lib, 1);
    StoredKeys.FractionalKey(lib, 5);
    assert Coerced(lib, [IntColumn], given) == [IntValue(5)];
    var rows, idx := map[loc := IntRow(1)], map[def.key(IntRow(1)) := loc];
    var changes := [RowChange(loc, Image([IntColumn], Coerced(lib, [IntColumn], given)),
                              [StoredKeys.KeyOf([K.DbDouble(StoredKeys.FIVE_AND_A_HALF)])])];
    assert changes[0] in changes;
    UpdateExact(rows, def, idx, changes, 0);
  }

  // --- Whole runs of statements ------------------------------------------------------------------------------------------

  datatype Statement =
    | Insert(loc: Loc, row: Bytes, keys: seq<int>)
    | Update(changes: seq<RowChange>)
    | Delete(locs: seq<Loc>)

  datatype Table = Table(rows: map<Loc, Bytes>, indexes: seq<Index>)

  /** The rows a statement works on were found in the table, and there is a key for every index. */
  predicate Applies(t: Table, s: Statement) {
    match s
    case Insert(_, _, keys) => |keys| == |t.indexes| >= 1
    case Update(changes) => KeyedFor(changes, |t.indexes|) && forall c | c in changes :: c.loc in t.rows
    case Delete(locs) => forall l | l in locs :: l in t.rows
  }

  function DropEntries(rows: map<Loc, Bytes>, def: IndexDef, idx: Index, locs: seq<Loc>): Index
    requires forall l | l in locs :: l in rows
  {
    if locs == [] then idx
    else IndexDrop(DropEntries(rows, def, idx, locs[1..]), def, locs[0], rows[locs[0]])
  }

  /** After a DELETE the indexes agree with the rows that are left. */
  lemma {:induction false} DeleteKeepsAgreement(rows: map<Loc, Bytes>, def: IndexDef, idx: Index, locs: seq<Loc>)
    requires Agrees(rows, def, idx) && forall l | l in locs :: l in rows
    ensures Agrees(map l | l in rows && l !in locs :: rows[l], def, DropEntries(rows, def, idx, locs))
  {
    if locs == [] {
      assert (map l | l in rows && l !in locs :: rows[l]) == rows;
    } else {
      DeleteKeepsAgreement(rows, def, idx, locs[1..]);
      var rest := map l | l in rows && l !in locs[1..] :: rows[l];
      assert forall l :: l in locs <==> l == locs[0] || l in locs[1..];
      assert (map l | l in rows && l !in locs :: rows[l]) == rest - {locs[0]};
    }
  }

  /** A statement that fails a check leaves the table alone. */
  function After(t: Table, defs: seq<IndexDef>, s: Statement): Table
    requires |t.indexes| == |defs| && Applies(t, s)
    ensures |After(t, defs, s).indexes| == |defs|
  {
    match s
    case Insert(loc, row, keys) =>
      if AcceptsInsert(t.indexes, keys) then Table(t.rows[loc := row], InsertKeys(t.indexes, keys, loc)) else t
    case Update(changes) =>
      if forall i, k | 0 <= i < |defs| && 0 <= k < |changes| :: Passes(t.rows, defs[i], t.indexes[i], changes[k], i) then
        Table(UpdateRows(t.rows, changes),
              seq(|defs|, i requires 0 <= i < |defs| => UpdateIndex(t.rows, defs[i], t.indexes[i], changes, i)))
      else t
    case Delete(locs) =>
      Table(map l | l in t.rows && l !in locs :: t.rows[l],
            seq(|defs|, i requires 0 <= i < |defs| => DropEntries(t.rows, defs[i], t.indexes[i], locs)))
  }

  /** The tables before each statement and after the last one. */
  ghost predicate Ran(tables: seq<Table>, defs: seq<IndexDef>, statements: seq<Statement>) {
    && |tables| == |statements| + 1
    && (forall k | 0 <= k <= |statements| :: |tables[k].indexes| == |defs|)
    && forall k | 0 <= k < |statements| ::
         Applies(tables[k], statements[k]) && tables[k + 1] == After(tables[k], defs, statements[k])
  }

  /**
   What a statement needs beyond its checks for the indexes to agree with the table: no second unique index for
   INSERT, different new keys for UPDATE, and keys of the values that are stored.
   */
  ghost predicate KeysMatch(t: Table, defs: seq<IndexDef>, s: Statement)
    requires |t.indexes| == |defs| && Applies(t, s)
  {
    match s
    case Insert(loc, row, keys) => loc !in t.rows && |defs| == 1 && loc.table == defs[0].table && keys[0] == defs[0].key(row)
    case Update(changes) =>
      && InTable(t.rows, defs, changes) && (forall a, b | 0 <= a < b < |changes| :: changes[a].loc != changes[b].loc)
      && forall i | 0 <= i < |defs| :: DistinctKeys(defs[i], changes) && KeysStored(defs[i], changes, i)
    case Delete(_) => true
  }

  lemma StatementKeepsAgreement(t: Table, defs: seq<IndexDef>, s: Statement)
    requires AllAgree(t.rows, defs, t.indexes) && Applies(t, s) && KeysMatch(t, defs, s)
    ensures var t' := After(t, defs, s); AllAgree(t'.rows, defs, t'.indexes)
  {
    hide Agrees, UpdateRows, UpdateIndex, DropEntries;
    var t' := After(t, defs, s);
    match s
    case Insert(loc, row, keys) =>
      if AcceptsInsert(t.indexes, keys) {
        InsertExact(t.rows, defs, t.indexes, loc, row, keys);
      }
    case Update(changes) =>
      UpdateAccepted(t.rows, defs, t.indexes, changes);
      if forall i, k | 0 <= i < |defs| && 0 <= k < |changes| :: Passes(t.rows, defs[i], t.indexes[i], changes[k], i) {
        forall i | 0 <= i < |defs| ensures Agrees(t'.rows, defs[i], t'.indexes[i]) {
          forall c | c in changes ensures Passes(t.rows, defs[i], t.indexes[i], c, i) {
            var k :| 0 <= k < |changes| && changes[k] == c;
          }
          UpdateExact(t.rows, defs[i], t.indexes[i], changes, i);
        }
      }
    case Delete(locs) =>
      forall i | 0 <= i < |defs| ensures Agrees(t'.rows, defs[i], t'.indexes[i]) {
        DeleteKeepsAgreement(t.rows, defs[i], t.indexes[i], locs);
      }
  }

  /** Through every run of such statements the indexes agree with the table. */
  lemma {:induction false} RunKeepsAgreement(tables: seq<Table>, defs: seq<IndexDef>, statements: seq<Statement>)
    requires Ran(tables, defs, statements) && AllAgree(tables[0].rows, defs, tables[0].indexes)
    requires forall k | 0 <= k < |statements| :: KeysMatch(tables[k], defs, statements[k])
    ensures forall k | 0 <= k <= |statements| :: AllAgree(tables[k].rows, defs, tables[k].indexes)
  {
    hide After, KeysMatch, Applies, AllAgree;
    if statements != [] {
      var n := |statements| - 1;
      assert forall k | 0 <= k <= n :: tables[..n + 1][k] == tables[k];
      assert forall k | 0 <= k < n :: statements[..n][k] == statements[k];
      RunKeepsAgreement(tables[..n + 1], defs, statements[..n]);
      StatementKeepsAgreement(tables[n], defs, statements[n]);
    }
  }

  lemma NoMembers<T>(s: seq<T>)
    ensures s == [] || s[0] in s
  {
  }

  lemma EmptyStays(t: Table, defs: seq<IndexDef>, s: Statement)
    requires |t.indexes| == |defs| > 1 && t.rows == map[] && (forall i | 0 <= i < |defs| :: t.indexes[i] == map[])
    requires Applies(t, s)
    ensures s.Insert? ==> !AcceptsInsert(t.indexes, s.keys)
    ensures After(t, defs, s) == t
  {
    match s
    case Insert(_, _, keys) =>
      assert keys[1] !in t.indexes[1];
    case Update(changes) =>
      NoMembers(changes);
    case Delete(locs) =>
      NoMembers(locs);
  }

  /** A table that has a second unique index and starts empty accepts no row, ever. */
  lemma {:induction false} NothingGetsIn(tables: seq<Table>, defs: seq<IndexDef>, statements: seq<Statement>)
    requires Ran(tables, defs, statements) && |defs| > 1
    requires tables[0].rows == map[] && forall i | 0 <= i < |defs| :: tables[0].indexes[i] == map[]
    ensures forall k | 0 <= k <= |statements| :: tables[k] == tables[0]
    ensures forall k | 0 <= k < |statements| && statements[k].Insert? :: !AcceptsInsert(tables[k].indexes, statements[k].keys)
  {
    if statements != [] {
      var n := |statements| - 1;
      NothingGetsIn(tables[..n + 1], defs, statements[..n]);
      assert tables[..n + 1][n] == tables[n];
      EmptyStays(tables[n], defs, statements[n]);
      forall k | 0 <= k <= n + 1 ensures tables[k] == tables[0] {
        if k <= n {
          assert tables[k] == tables[..n + 1][k];
        }
      }
      forall k | 0 <= k <= n && statements[k].Insert? ensures !AcceptsInsert(tables[k].indexes, statements[k].keys) {
        if k < n {
          assert tables[..n + 1][k] == tables[k] && statements[..n][k] == statements[k];
        }
      }
    }
  }
}
