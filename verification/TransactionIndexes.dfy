/**
 What statements and rollback do to the tree of a unique index, and exactly when the tree goes on holding
 what the rows say.
 */
module TransactionIndexes {
  import opened Transactions
  import opened IndexTrees
  import BPlusTreeModel

  // --- What statements and rollback ask -------------------------------------------------------------------

  function Place(l: Loc): BPlusTreeModel.Location {
    BPlusTreeModel.Location(l.page, l.slot)
  }

  /** An index of one table, without the table's name. */
  function PlacesOf(idx: Index): Places {
    map k | k in idx :: Place(idx[k])
  }

  /** The keys of an index are those of 128 bytes. */
  ghost predicate KeysFit(def: IndexDef) {
    forall row :: KeyFits(def.key(row))
  }

  function MoveOps(def: IndexDef, loc: Loc, row: Bytes, key: int): seq<TreeOp> {
    if def.key(row) == key then [] else [Drop(def.key(row)), Add(BPlusTreeModel.Entry(key, Place(loc)))]
  }

  /** INSERT, UPDATE or DELETE of one row; `key` is what the values in the statement make. */
  function StepOps(def: IndexDef, c: Change, key: int): seq<TreeOp> {
    if c.loc.table != def.table then []
    else match c
      case Inserted(loc) => [Add(BPlusTreeModel.Entry(key, Place(loc)))]
      case Updated(loc, before) => MoveOps(def, loc, before, key)
      case Deleted(_, before) => [Drop(def.key(before))]
  }

  /** The key of the statement is that of the row that is stored. */
  predicate KeyStored(def: IndexDef, c: Change, row: Bytes, key: int) {
    c.loc.table != def.table || c.Deleted? || key == def.key(row)
  }

  /** Rolling one change back, given the slots before it is undone. */
  function UndoOps(slots: Slots, def: IndexDef, c: Change): seq<TreeOp> {
    if c.loc.table != def.table || c.loc !in slots then []
    else match c
      case Inserted(loc) => [Drop(def.key(slots[loc].row))]
      case Updated(loc, before) => MoveOps(def, loc, slots[loc].row, def.key(before))
      case Deleted(loc, before) => [Add(BPlusTreeModel.Entry(def.key(before), Place(loc)))]
  }

  /** Rolling all changes back, the last one first. */
  function UndoOpsAll(slots: Slots, def: IndexDef, changes: seq<Change>): seq<TreeOp>
    decreases |changes|
  {
    if changes == [] then []
    else
      var c := changes[|changes| - 1];
      UndoOps(slots, def, c) + UndoOpsAll(Undo(slots, c), def, changes[..|changes| - 1])
  }

  lemma AddPlaces(idx: Index, def: IndexDef, loc: Loc, row: Bytes)
    requires loc.table == def.table
    ensures PlacesOf(IndexAdd(idx, def, loc, row)) == PlacesOf(idx)[def.key(row) := Place(loc)]
  {
  }

  lemma DropPlaces(idx: Index, def: IndexDef, loc: Loc, row: Bytes)
    requires loc.table == def.table
    ensures PlacesOf(IndexDrop(idx, def, loc, row)) == PlacesOf(idx) - {def.key(row)}
  {
  }

  lemma MovePlaces(idx: Index, def: IndexDef, loc: Loc, row: Bytes, row': Bytes)
    requires loc.table == def.table && KeysFit(def)
    requires def.key(row) != def.key(row') ==> def.key(row') !in idx
    ensures Legal(PlacesOf(idx), MoveOps(def, loc, row, def.key(row')))
    ensures AfterAll(PlacesOf(idx), MoveOps(def, loc, row, def.key(row'))) == PlacesOf(IndexMove(idx, def, loc, row, row'))
  {
    if def.key(row) != def.key(row') {
      hide KeyFits, Legal, AfterAll, PlacesOf;
      var d, a := Drop(def.key(row)), Add(BPlusTreeModel.Entry(def.key(row'), Place(loc)));
      var m := PlacesOf(idx);
      AllAppend(Torn, m, [d], [a]);
      assert [d] + [a] == [d, a];
      OneOp(m, d);
      OneOp(After(m, d), a);
      DropPlaces(idx, def, loc, row);
      AddPlaces(IndexDrop(idx, def, loc, row), def, loc, row');
      SameKeys(idx);
    }
  }

  lemma SameKeys(idx: Index)
    ensures PlacesOf(idx).Keys == idx.Keys
  {
  }

  /** What undoing one change asks of the index is allowed, and means what it should. */
  lemma UndoPlaces(a: Slots, c: Change, b: Slots, now: Slots, def: IndexDef, idx: Index)
    requires Does(a, c, b) && SameButDead(now, b) && KeysFit(def)
    requires UniqueKeys(LiveRows(a), def) && Agrees(LiveRows(b), def, idx)
    ensures Legal(PlacesOf(idx), UndoOps(now, def, c))
    ensures AfterAll(PlacesOf(idx), UndoOps(now, def, c)) == PlacesOf(UndoIndex(now, def, idx, c))
  {
    hide Legal, AfterAll, PlacesOf, KeyFits, MoveOps;
    SameKeys(idx);
    if c.loc.table != def.table {
      NoOps(PlacesOf(idx));
    } else {
      match c
      case Inserted(loc) =>
        OneOp(PlacesOf(idx), Drop(def.key(now[loc].row)));
        DropPlaces(idx, def, loc, now[loc].row);
      case Updated(loc, before) =>
        if def.key(now[loc].row) != def.key(before) {
          FreeKey(a, c, b, def, idx, before);
        }
        MovePlaces(idx, def, loc, now[loc].row, before);
      case Deleted(loc, before) =>
        FreeKey(a, c, b, def, idx, before);
        OneOp(PlacesOf(idx), Add(BPlusTreeModel.Entry(def.key(before), Place(loc))));
        AddPlaces(idx, def, loc, before);
    }
  }

  /** No other row has the key that is put back. */
  lemma FreeKey(a: Slots, c: Change, b: Slots, def: IndexDef, idx: Index, before: Bytes)
    requires Does(a, c, b) && UniqueKeys(LiveRows(a), def) && Agrees(LiveRows(b), def, idx)
    requires c.loc.table == def.table && c.loc in a && a[c.loc] == Slot(before, false)
    requires c.loc in LiveRows(b) ==> def.key(b[c.loc].row) != def.key(before)
    ensures def.key(before) !in idx
  {
    var k := def.key(before);
    assert c.loc in LiveRows(a) && LiveRows(a)[c.loc] == before;
    forall m | m in LiveRows(b) && m.table == def.table ensures def.key(LiveRows(b)[m]) != k {
      if m != c.loc {
        assert m in LiveRows(a) && LiveRows(a)[m] == LiveRows(b)[m];
      }
    }
  }

  /** So it is for a whole rollback. */
  lemma {:induction false} UndoAllPlaces(history: seq<Slots>, changes: seq<Change>, now: Slots, def: IndexDef,
                                         idx: Index)
    requires Recorded(history, changes) && SameButDead(now, history[|changes|]) && KeysFit(def)
    requires forall k | 0 <= k < |history| :: UniqueKeys(LiveRows(history[k]), def)
    requires Agrees(LiveRows(history[|changes|]), def, idx)
    ensures Legal(PlacesOf(idx), UndoOpsAll(now, def, changes))
    ensures AfterAll(PlacesOf(idx), UndoOpsAll(now, def, changes)) == PlacesOf(UndoIndexAll(now, def, idx, changes))
    decreases |changes|
  {
    hide Legal, AfterAll, PlacesOf, KeyFits, Does, SameButDead, UniqueKeys, Agrees, LiveRows, UndoIndex, Undo, UndoOps, KeysFit;
    if changes == [] {
      NoOps(PlacesOf(idx));
    } else {
      var n := |changes| - 1;
      var a, c, b := history[n], changes[n], history[n + 1];
      assert Does(a, c, b);
      UndoInverts(a, c, b, now);
      UndoIndexInverts(a, c, b, now, def, idx);
      UndoPlaces(a, c, b, now, def, idx);
      UndoAllPlaces(history[..n + 1], changes[..n], Undo(now, c), def, UndoIndex(now, def, idx, c));
      AllAppend(Torn, PlacesOf(idx), UndoOps(now, def, c), UndoOpsAll(Undo(now, c), def, changes[..n]));
    }
  }

  /**
   Rolling back: throughout, the tree of a unique index is whole and holds what the rows say, if and only if
   no deletion on the way takes a broken branch; and then it holds in the end what it held at BEGIN.
   */
  lemma RollbackRestoresTree(history: seq<Slots>, changes: seq<Change>, now: Slots, def: IndexDef,
                             idx: Index, idx0: Index, x: IndexTree)
    requires Recorded(history, changes) && SameButDead(now, history[|changes|]) && KeysFit(def)
    requires forall k | 0 <= k < |history| :: UniqueKeys(LiveRows(history[k]), def)
    requires Agrees(LiveRows(history[|changes|]), def, idx) && Agrees(LiveRows(history[0]), def, idx0)
    requires Keeps(x, PlacesOf(idx))
    ensures var ops := UndoOpsAll(now, def, changes);
            && (Follows(x, PlacesOf(idx), ops) <==> !MeetsFault(x, ops))
            && (!MeetsFault(x, ops) ==> Keeps(PerformAll(x, ops), PlacesOf(idx0)))
  {
    hide Legal, AfterAll, PlacesOf, KeyFits, Keeps, Follows, MeetsFault, UndoOpsAll;
    RollbackRestoresIndex(history, changes, now, def, idx, idx0);
    UndoAllPlaces(history, changes, now, def, idx);
    FollowsExact(x, PlacesOf(idx), UndoOpsAll(now, def, changes));
  }

  /** One change undone. */
  lemma UndoKeepsTree(a: Slots, c: Change, b: Slots, now: Slots, def: IndexDef, idx: Index, x: IndexTree)
    requires Does(a, c, b) && SameButDead(now, b) && KeysFit(def)
    requires UniqueKeys(LiveRows(a), def) && Agrees(LiveRows(b), def, idx) && Keeps(x, PlacesOf(idx))
    ensures var ops := UndoOps(now, def, c);
            && (Follows(x, PlacesOf(idx), ops) <==> !MeetsFault(x, ops))
            && (!MeetsFault(x, ops) ==> Keeps(PerformAll(x, ops), PlacesOf(UndoIndex(now, def, idx, c))))
  {
    UndoPlaces(a, c, b, now, def, idx);
    hide *;
    FollowsExact(x, PlacesOf(idx), UndoOps(now, def, c));
  }

  /** The tree holds what the rows say. */
  ghost predicate HoldsRows(x: IndexTree, rows: map<Loc, Bytes>, def: IndexDef) {
    exists idx: Index | Agrees(rows, def, idx) :: Keeps(x, PlacesOf(idx))
  }

  /** What the checks of UPDATE let through, and those of INSERT for a primary key: no other row has the key. */
  ghost predicate Checked(def: IndexDef, rows: map<Loc, Bytes>, c: Change, key: int) {
    || c.loc.table != def.table || c.Deleted? || (c.Updated? && def.key(c.before) == key)
    || forall l | l in rows && l.table == def.table :: def.key(rows[l]) != key
  }

  /**
   INSERT, UPDATE or DELETE of one row: throughout, the tree is whole and holds what it should, if and only if
   no deletion on the way takes a broken branch. Then it holds what the rows say afterwards if and only if
   the key of the statement is that of the row that is stored.
   */
  lemma StepKeepsTree(a: Slots, c: Change, b: Slots, def: IndexDef, idx: Index, x: IndexTree, key: int)
    requires Does(a, c, b) && KeysFit(def) && KeyFits(key) && Checked(def, LiveRows(a), c, key)
    requires Agrees(LiveRows(a), def, idx) && UniqueKeys(LiveRows(b), def) && Keeps(x, PlacesOf(idx))
    ensures var ops := StepOps(def, c, key);
            && (Follows(x, PlacesOf(idx), ops) <==> !MeetsFault(x, ops))
            && (!MeetsFault(x, ops) ==>
                  (HoldsRows(PerformAll(x, ops), LiveRows(b), def) <==> KeyStored(def, c, b[c.loc].row, key)))
  {
    var ops := StepOps(def, c, key);
    StepLegal(a, c, b, def, idx, key);
    hide Does, KeysFit, KeyFits, Agrees, UniqueKeys, Follows, MeetsFault, PerformAll, StepOps, KeyStored, Checked, LiveRows,
         Keeps, Legal, AfterAll, PlacesOf;
    FollowsExact(x, PlacesOf(idx), ops);
    if !MeetsFault(x, ops) {
      if KeyStored(def, c, b[c.loc].row, key) {
        StepHolds(a, c, b, def, idx, x, key);
      } else if HoldsRows(PerformAll(x, ops), LiveRows(b), def) {
        var idx' :| Agrees(LiveRows(b), def, idx') && Keeps(PerformAll(x, ops), PlacesOf(idx'));
        KeepsOne(PerformAll(x, ops), AfterAll(PlacesOf(idx), ops), PlacesOf(idx'));
        EntryUnderKey(a, c, b, def, idx, idx', key);
      }
    }
  }

  lemma KeepsOne(x: IndexTree, m: Places, m': Places)
    requires Keeps(x, m) && Keeps(x, m')
    ensures m == m'
  {
  }

  /** With the stored key, the index is what the rows say. */
  lemma StepHolds(a: Slots, c: Change, b: Slots, def: IndexDef, idx: Index, x: IndexTree, key: int)
    requires Does(a, c, b) && KeysFit(def) && KeyStored(def, c, b[c.loc].row, key)
    requires Agrees(LiveRows(a), def, idx) && UniqueKeys(LiveRows(b), def)
    requires var ops := StepOps(def, c, key); Keeps(PerformAll(x, ops), AfterAll(PlacesOf(idx), ops))
    ensures HoldsRows(PerformAll(x, StepOps(def, c, key)), LiveRows(b), def)
    ensures Agrees(LiveRows(b), def, IndexStep(def, idx, c, b[c.loc].row))
    ensures Keeps(PerformAll(x, StepOps(def, c, key)), PlacesOf(IndexStep(def, idx, c, b[c.loc].row)))
  {
    IndexStepAgrees(a, c, b, def, idx);
    StepPlaces(a, c, b, def, idx, key);
    hide Does, KeysFit, KeyFits, Agrees, UniqueKeys, PerformAll, StepOps, KeyStored, LiveRows, Keeps, AfterAll, PlacesOf, IndexStep;
  }

  /** The entry that was added lies under the statement's key; if the index is what the rows say, that is the row's. */
  lemma EntryUnderKey(a: Slots, c: Change, b: Slots, def: IndexDef, idx: Index, idx': Index, key: int)
    requires Does(a, c, b) && Agrees(LiveRows(a), def, idx) && Agrees(LiveRows(b), def, idx')
    requires AfterAll(PlacesOf(idx), StepOps(def, c, key)) == PlacesOf(idx')
    ensures KeyStored(def, c, b[c.loc].row, key)
  {
    if c.loc.table == def.table && !c.Deleted? {
      hide AfterAll, Agrees, Does;
      AddedPlace(def, idx, c, key);
      SameKeys(idx');
      PlaceOfRow(a, c, b, def, idx, idx', key);
    }
  }

  lemma PlaceOfRow(a: Slots, c: Change, b: Slots, def: IndexDef, idx: Index, idx': Index, key: int)
    requires Does(a, c, b) && Agrees(LiveRows(a), def, idx) && Agrees(LiveRows(b), def, idx')
    requires c.loc.table == def.table && !c.Deleted?
    requires if StepOps(def, c, key) == [] then PlacesOf(idx') == PlacesOf(idx)
             else key in idx' && Place(idx'[key]) == Place(c.loc)
    ensures key == def.key(b[c.loc].row)
  {
    var rows, rows' := LiveRows(a), LiveRows(b);
    if StepOps(def, c, key) == [] {
      assert c.loc in rows && def.key(rows[c.loc]) == key;
      assert key in idx && idx[key] == c.loc;
      assert key in PlacesOf(idx) && PlacesOf(idx)[key] == Place(c.loc);
      assert key in PlacesOf(idx') && Place(idx'[key]) == Place(c.loc);
    }
    assert idx'[key] in rows' && idx'[key] == c.loc;
  }

  lemma AddedPlace(def: IndexDef, idx: Index, c: Change, key: int)
    requires c.loc.table == def.table && !c.Deleted?
    ensures
      var ops, m := StepOps(def, c, key), AfterAll(PlacesOf(idx), StepOps(def, c, key));
      if ops == [] then m == PlacesOf(idx) else key in m && m[key] == Place(c.loc)
  {
    hide PlacesOf;
    var m, add := PlacesOf(idx), Add(BPlusTreeModel.Entry(key, Place(c.loc)));
    match c
    case Inserted(loc) => OneOp(m, add);
    case Updated(loc, before) =>
      if def.key(before) == key {
        NoOps(m);
      } else {
        var d := Drop(def.key(before));
        assert [d, add] == [d] + [add];
        AllAppend(Torn, m, [d], [add]);
        OneOp(m, d);
        OneOp(After(m, d), add);
      }
  }

  /** A statement that passed its checks only adds what is not there. */
  lemma StepLegal(a: Slots, c: Change, b: Slots, def: IndexDef, idx: Index, key: int)
    requires Does(a, c, b) && KeysFit(def) && KeyFits(key) && Checked(def, LiveRows(a), c, key) && Agrees(LiveRows(a), def, idx)
    ensures Legal(PlacesOf(idx), StepOps(def, c, key))
  {
    CheckedIsFree(a, c, b, def, idx, key);
    hide Legal, AfterAll, PlacesOf, Agrees, Does, Checked, LiveRows;
    SameKeys(idx);
    var m, add := PlacesOf(idx), Add(BPlusTreeModel.Entry(key, Place(c.loc)));
    if c.loc.table != def.table {
      NoOps(m);
    } else {
      match c
      case Inserted(loc) => OneOp(m, add);
      case Updated(loc, before) =>
        if def.key(before) == key {
          NoOps(m);
        } else {
          var d := Drop(def.key(before));
          assert [d, add] == [d] + [add];
          AllAppend(Torn, m, [d], [add]);
          OneOp(m, d);
          OneOp(After(m, d), add);
        }
      case Deleted(_, before) => OneOp(m, Drop(def.key(before)));
    }
  }

  lemma CheckedIsFree(a: Slots, c: Change, b: Slots, def: IndexDef, idx: Index, key: int)
    requires Does(a, c, b) && Checked(def, LiveRows(a), c, key) && Agrees(LiveRows(a), def, idx)
    ensures c.loc.table == def.table && (c.Inserted? || (c.Updated? && def.key(c.before) != key)) ==> key !in idx
  {
  }

  lemma StepPlaces(a: Slots, c: Change, b: Slots, def: IndexDef, idx: Index, key: int)
    requires Does(a, c, b) && KeysFit(def) && Agrees(LiveRows(a), def, idx) && UniqueKeys(LiveRows(b), def)
    requires KeyStored(def, c, b[c.loc].row, key)
    ensures Legal(PlacesOf(idx), StepOps(def, c, key))
    ensures AfterAll(PlacesOf(idx), StepOps(def, c, key)) == PlacesOf(IndexStep(def, idx, c, b[c.loc].row))
  {
    hide Legal, AfterAll, PlacesOf, KeyFits, MoveOps;
    SameKeys(idx);
    var row := b[c.loc].row;
    if c.loc.table != def.table {
      NoOps(PlacesOf(idx));
    } else {
      match c
      case Inserted(loc) =>
        NewKey(a, c, b, def, idx);
        OneOp(PlacesOf(idx), Add(BPlusTreeModel.Entry(def.key(row), Place(loc))));
        AddPlaces(idx, def, loc, row);
      case Updated(loc, before) =>
        if def.key(before) != def.key(row) {
          NewKey(a, c, b, def, idx);
        }
        MovePlaces(idx, def, loc, before, row);
      case Deleted(loc, before) =>
        OneOp(PlacesOf(idx), Drop(def.key(before)));
        DropPlaces(idx, def, loc, before);
    }
  }

  /** No other row has the new key. */
  lemma NewKey(a: Slots, c: Change, b: Slots, def: IndexDef, idx: Index)
    requires Does(a, c, b) && Agrees(LiveRows(a), def, idx) && UniqueKeys(LiveRows(b), def)
    requires c.loc.table == def.table && !b[c.loc].deleted
    requires c.loc in LiveRows(a) ==> def.key(LiveRows(a)[c.loc]) != def.key(b[c.loc].row)
    ensures def.key(b[c.loc].row) !in idx
  {
    var k := def.key(b[c.loc].row);
    assert c.loc in LiveRows(b) && LiveRows(b)[c.loc] == b[c.loc].row;
    forall m | m in LiveRows(a) && m.table == def.table ensures def.key(LiveRows(a)[m]) != k {
      if m != c.loc {
        assert m in LiveRows(b) && LiveRows(b)[m] == LiveRows(a)[m];
      }
    }
  }

  // --- Whole transactions --------------------------------------------------------------------------------------------

  /** What the statements of a transaction ask, one after another. */
  function ForwardOps(def: IndexDef, changes: seq<Change>, keys: seq<int>): seq<TreeOp>
    requires |keys| == |changes|
    decreases |changes|
  {
    if changes == [] then [] else StepOps(def, changes[0], keys[0]) + ForwardOps(def, changes[1..], keys[1..])
  }

  /** The key of every statement is that of the row it stores. */
  ghost predicate AllStored(def: IndexDef, history: seq<Slots>, changes: seq<Change>, keys: seq<int>)
    requires Recorded(history, changes) && |keys| == |changes|
  {
    forall k | 0 <= k < |changes| :: KeyStored(def, changes[k], history[k + 1][changes[k].loc].row, keys[k])
  }

  ghost predicate AllChecked(def: IndexDef, history: seq<Slots>, changes: seq<Change>, keys: seq<int>)
    requires Recorded(history, changes) && |keys| == |changes|
  {
    forall k | 0 <= k < |changes| :: KeyFits(keys[k]) && Checked(def, LiveRows(history[k]), changes[k], keys[k])
  }

  /** The tree follows every statement, and holds what the rows say before the first and after each. */
  ghost predicate Tracks(x: IndexTree, def: IndexDef, history: seq<Slots>, changes: seq<Change>, keys: seq<int>)
    requires |history| == |changes| + 1 && |keys| == |changes|
    decreases |changes|
  {
    && HoldsRows(x, LiveRows(history[0]), def)
    && (changes != [] ==>
          var ops := StepOps(def, changes[0], keys[0]);
          && (exists idx: Index | Agrees(LiveRows(history[0]), def, idx) :: Follows(x, PlacesOf(idx), ops))
          && Tracks(PerformAll(x, ops), def, history[1..], changes[1..], keys[1..]))
  }

  /**
   From BEGIN on, the tree of a unique index follows every statement and holds what the rows say after each, if
   and only if every statement's key is that of the row it stores and no deletion takes a broken branch.
   */
  lemma {:induction false} TransactionTracks(x: IndexTree, def: IndexDef, history: seq<Slots>, changes: seq<Change>, keys: seq<int>)
    requires Recorded(history, changes) && |keys| == |changes| && KeysFit(def) && AllChecked(def, history, changes, keys)
    requires forall k | 0 <= k < |history| :: UniqueKeys(LiveRows(history[k]), def)
    requires HoldsRows(x, LiveRows(history[0]), def)
    ensures Tracks(x, def, history, changes, keys) <==>
              AllStored(def, history, changes, keys) && !MeetsFault(x, ForwardOps(def, changes, keys))
    decreases |changes|
  {
    hide Does, KeysFit, KeyFits, UniqueKeys, Follows, PerformAll, StepOps, KeyStored, Checked, LiveRows, Keeps,
         PlacesOf, MeetsFault, HoldsRows, Agrees;
    if changes == [] {
      NoFault(x);
    } else {
      var a, c, b, key, ops := history[0], changes[0], history[1], keys[0], StepOps(def, changes[0], keys[0]);
      assert Does(a, c, b) && KeyFits(key) && Checked(def, LiveRows(a), c, key);
      WrittenSlot(a, c, b);
      FirstStep(x, def, a, c, b, key);
      AllAppend(x, map[], ops, ForwardOps(def, changes[1..], keys[1..]));
      StoredTail(def, history, changes, keys);
      if !MeetsFault(x, ops) && KeyStored(def, c, b[c.loc].row, key) {
        TransactionTracks(PerformAll(x, ops), def, history[1..], changes[1..], keys[1..]);
      }
    }
  }

  lemma WrittenSlot(a: Slots, c: Change, b: Slots)
    requires Does(a, c, b)
    ensures c.loc in b
  {
  }

  lemma NoFault(x: IndexTree)
    ensures !MeetsFault(x, [])
  {
  }

  lemma FirstStep(x: IndexTree, def: IndexDef, a: Slots, c: Change, b: Slots, key: int)
    requires Does(a, c, b) && KeysFit(def) && KeyFits(key) && Checked(def, LiveRows(a), c, key)
    requires UniqueKeys(LiveRows(b), def) && HoldsRows(x, LiveRows(a), def)
    ensures
      var ops := StepOps(def, c, key);
      && ((exists idx: Index | Agrees(LiveRows(a), def, idx) :: Follows(x, PlacesOf(idx), ops)) <==> !MeetsFault(x, ops))
      && (!MeetsFault(x, ops) ==> (HoldsRows(PerformAll(x, ops), LiveRows(b), def) <==> KeyStored(def, c, b[c.loc].row, key)))
  {
    hide Does, KeysFit, KeyFits, UniqueKeys, Follows, PerformAll, StepOps, KeyStored, Checked, LiveRows, Keeps,
         PlacesOf, MeetsFault, Agrees;
    var idx: Index :| Agrees(LiveRows(a), def, idx) && Keeps(x, PlacesOf(idx));
    StepKeepsTree(a, c, b, def, idx, x, key);
    forall other: Index | Agrees(LiveRows(a), def, other) ensures other == idx {
      AgreesDetermines(LiveRows(a), def, other, idx);
    }
  }

  lemma StoredTail(def: IndexDef, history: seq<Slots>, changes: seq<Change>, keys: seq<int>)
    requires Recorded(history, changes) && |keys| == |changes| > 0
    ensures Recorded(history[1..], changes[1..])
    ensures AllStored(def, history, changes, keys) <==>
              && KeyStored(def, changes[0], history[1][changes[0].loc].row, keys[0])
              && AllStored(def, history[1..], changes[1..], keys[1..])
    ensures AllChecked(def, history, changes, keys) ==> AllChecked(def, history[1..], changes[1..], keys[1..])
  {
    hide KeyStored, Checked, KeyFits, LiveRows;
    var n := |changes|;
    forall k | 0 <= k < n - 1 ensures Does(history[1..][k], changes[1..][k], history[1..][k + 1]) {
      assert Does(history[k + 1], changes[k + 1], history[k + 2]);
    }
    if AllStored(def, history[1..], changes[1..], keys[1..]) && KeyStored(def, changes[0], history[1][changes[0].loc].row, keys[0]) {
      forall k | 0 <= k < n ensures KeyStored(def, changes[k], history[k + 1][changes[k].loc].row, keys[k]) {
        if k > 0 {
          assert KeyStored(def, changes[1..][k - 1], history[1..][k][changes[1..][k - 1].loc].row, keys[1..][k - 1]);
        }
      }
    }
    if AllStored(def, history, changes, keys) {
      forall k | 0 <= k < n - 1 ensures KeyStored(def, changes[1..][k], history[1..][k + 1][changes[1..][k].loc].row, keys[1..][k]) {
        assert KeyStored(def, changes[k + 1], history[k + 2][changes[k + 1].loc].row, keys[k + 1]);
      }
    }
    if AllChecked(def, history, changes, keys) {
      forall k | 0 <= k < n - 1
        ensures KeyFits(keys[1..][k]) && Checked(def, LiveRows(history[1..][k]), changes[1..][k], keys[1..][k])
      {
        assert KeyFits(keys[k + 1]) && Checked(def, LiveRows(history[k + 1]), changes[k + 1], keys[k + 1]);
      }
    }
  }

  lemma {:induction false} TracksToTheEnd(x: IndexTree, def: IndexDef, history: seq<Slots>, changes: seq<Change>, keys: seq<int>)
    requires |history| == |changes| + 1 && |keys| == |changes| && Tracks(x, def, history, changes, keys)
    ensures HoldsRows(PerformAll(x, ForwardOps(def, changes, keys)), LiveRows(history[|changes|]), def)
    decreases |changes|
  {
    hide Follows, StepOps, LiveRows, Keeps, PlacesOf, HoldsRows, Agrees;
    if changes != [] {
      var ops := StepOps(def, changes[0], keys[0]);
      TracksToTheEnd(PerformAll(x, ops), def, history[1..], changes[1..], keys[1..]);
      AllAppend(x, map[], ops, ForwardOps(def, changes[1..], keys[1..]));
    }
  }

  /**
   A transaction whose keys are all those of the rows it stores, and its rollback: unless a deletion on the way
   takes a broken branch, every unique index holds in the end what it held at BEGIN.
   */
  lemma TransactionRollsBack(x: IndexTree, def: IndexDef, history: seq<Slots>, changes: seq<Change>, keys: seq<int>, idx0: Index)
    requires Recorded(history, changes) && |keys| == |changes| && KeysFit(def) && AllChecked(def, history, changes, keys)
    requires forall k | 0 <= k < |history| :: UniqueKeys(LiveRows(history[k]), def)
    requires Agrees(LiveRows(history[0]), def, idx0) && Keeps(x, PlacesOf(idx0)) && AllStored(def, history, changes, keys)
    requires !MeetsFault(x, ForwardOps(def, changes, keys) + UndoOpsAll(history[|changes|], def, changes))
    ensures Keeps(PerformAll(x, ForwardOps(def, changes, keys) + UndoOpsAll(history[|changes|], def, changes)), PlacesOf(idx0))
  {
    hide Does, KeysFit, UniqueKeys, Follows, PerformAll, LiveRows, Keeps, PlacesOf, MeetsFault, Agrees, AllStored, AllChecked,
         ForwardOps, UndoOpsAll, Tracks;
    var forward, back, now := ForwardOps(def, changes, keys), UndoOpsAll(history[|changes|], def, changes), history[|changes|];
    AllAppend(x, map[], forward, back);
    TransactionTracks(x, def, history, changes, keys);
    TracksToTheEnd(x, def, history, changes, keys);
    var idx: Index :| Agrees(LiveRows(now), def, idx) && Keeps(PerformAll(x, forward), PlacesOf(idx));
    RollbackRestoresTree(history, changes, now, def, idx, idx0, PerformAll(x, forward));
  }

  /**
   A row inserted under a key that is not the one of what is stored, as `{ id: 5.5 }` is, and rolled back: no
   deletion takes a broken branch, the key of the stored row is looked for in vain, and the entry stays.
   */
  lemma InsertStays(def: IndexDef, loc: Loc, row: Bytes, key: int, x: IndexTree, m: Places)
    requires loc.table == def.table && KeyFits(key) && KeyFits(def.key(row)) && Keeps(x, m)
    requires key !in m && def.key(row) !in m && key != def.key(row)
    ensures
      var ops := StepOps(def, Inserted(loc), key) + UndoOps(map[loc := Slot(row, false)], def, Inserted(loc));
      && !MeetsFault(x, ops) && Keeps(PerformAll(x, ops), m[key := Place(loc)])
  {
    hide Keeps, Perform, PerformAll, MeetsFault;
    var add, drop := Add(BPlusTreeModel.Entry(key, Place(loc))), Drop(def.key(row));
    var after := m[key := Place(loc)];
    AddKeeps(x, m, add.e);
    AbsentDrop(Perform(x, add), after, drop.key);
    AllAppend(x, m, [add], [drop]);
    OneStep(x, add);
    OneStep(Perform(x, add), drop);
  }
}
