/**
 Table slots, the changes a transaction records about them, and what undoing those changes does to
 the rows and to the unique indexes.
 */
module Transactions {
  import ByteCodec

  type Bytes = ByteCodec.Bytes

  datatype Loc = Loc(table: string, page: int, slot: int)

  /** A row slot. Deleting a row only sets its flag; the bytes stay. */
  datatype Slot = Slot(row: Bytes, deleted: bool)

  type Slots = map<Loc, Slot>

  datatype Change =
    | Inserted(loc: Loc)
    | Updated(loc: Loc, before: Bytes)
    | Deleted(loc: Loc, before: Bytes)

  /** The rows a full scan finds. */
  function LiveRows(slots: Slots): map<Loc, Bytes> {
    map l | l in slots && !slots[l].deleted :: slots[l].row
  }

  function UndoSlot(s: Slot, c: Change): Slot {
    match c
    case Inserted(_) => s.(deleted := true)
    case Updated(_, before) => Slot(before, false)
    case Deleted(_, _) => s.(deleted := false)
  }

  function Undo(slots: Slots, c: Change): Slots {
    if c.loc in slots then slots[c.loc := UndoSlot(slots[c.loc], c)] else slots
  }

  /** Undoes the changes, the last one first. */
  function UndoAll(slots: Slots, changes: seq<Change>): Slots {
    if changes == [] then slots
    else UndoAll(Undo(slots, changes[|changes| - 1]), changes[..|changes| - 1])
  }

  // --- Unique indexes ------------------------------------------------------------------------------

  /** A primary or unique index: the table it is on, and the key it takes from a row. */
  datatype IndexDef = IndexDef(table: string, key: Bytes -> int)

  type Index = map<int, Loc>

  /** The index maps the key of every live row to its place, and holds nothing else. */
  ghost predicate Agrees(rows: map<Loc, Bytes>, def: IndexDef, idx: Index) {
    && (forall l | l in rows && l.table == def.table :: def.key(rows[l]) in idx && idx[def.key(rows[l])] == l)
    && (forall k | k in idx :: idx[k] in rows && idx[k].table == def.table && def.key(rows[idx[k]]) == k)
  }

  /** Every index agrees with the rows. */
  ghost predicate AllAgree(rows: map<Loc, Bytes>, defs: seq<IndexDef>, indexes: seq<Index>) {
    && |indexes| == |defs|
    && forall i | 0 <= i < |defs| :: Agrees(rows, defs[i], indexes[i])
  }

  /** No two live rows of the index's table share a key. */
  ghost predicate UniqueKeys(rows: map<Loc, Bytes>, def: IndexDef) {
    forall l, m | l in rows && m in rows && l != m && l.table == m.table == def.table ::
      def.key(rows[l]) != def.key(rows[m])
  }

  function IndexAdd(idx: Index, def: IndexDef, loc: Loc, row: Bytes): Index {
    if def.table == loc.table then idx[def.key(row) := loc] else idx
  }

  function IndexDrop(idx: Index, def: IndexDef, loc: Loc, row: Bytes): Index {
    if def.table == loc.table then idx - {def.key(row)} else idx
  }

  /** The entry is only touched when the key changes. */
  function IndexMove(idx: Index, def: IndexDef, loc: Loc, row: Bytes, row': Bytes): Index {
    if def.key(row) == def.key(row') then idx
    else IndexAdd(IndexDrop(idx, def, loc, row), def, loc, row')
  }

  lemma AgreesUnique(rows: map<Loc, Bytes>, def: IndexDef, idx: Index)
    requires Agrees(rows, def, idx)
    ensures UniqueKeys(rows, def)
  {
  }

  /** The rows determine the index. */
  lemma AgreesDetermines(rows: map<Loc, Bytes>, def: IndexDef, a: Index, b: Index)
    requires Agrees(rows, def, a) && Agrees(rows, def, b)
    ensures a == b
  {
    forall k ensures k in a <==> k in b {
      if k in a { assert a[k] in rows; }
      if k in b { assert b[k] in rows; }
    }
    forall k | k in a ensures a[k] == b[k] {
      assert a[k] in rows;
    }
  }

  /** The same places hold rows of the index's table, with the same keys. */
  ghost predicate SameKeys(a: map<Loc, Bytes>, b: map<Loc, Bytes>, def: IndexDef) {
    forall l: Loc | l.table == def.table :: (l in a <==> l in b) && (l in a ==> def.key(a[l]) == def.key(b[l]))
  }

  /** An index that agrees with some rows agrees with others exactly if those have the same keys. */
  lemma AgreesStill(rows: map<Loc, Bytes>, rows': map<Loc, Bytes>, def: IndexDef, idx: Index)
    requires Agrees(rows, def, idx)
    ensures Agrees(rows', def, idx) <==> SameKeys(rows, rows', def)
  {
    if Agrees(rows', def, idx) {
      forall l: Loc | l.table == def.table
        ensures (l in rows <==> l in rows') && (l in rows ==> def.key(rows[l]) == def.key(rows'[l]))
      {
        if l in rows {
          var k := def.key(rows[l]);
          assert k in idx && idx[k] == l;
          assert idx[k] in rows' && def.key(rows'[idx[k]]) == k;
        }
        if l in rows' {
          var k := def.key(rows'[l]);
          assert k in idx && idx[k] == l;
          assert idx[k] in rows && def.key(rows[idx[k]]) == k;
        }
      }
    }
  }

  lemma AddAgrees(rows: map<Loc, Bytes>, def: IndexDef, idx: Index, loc: Loc, row: Bytes)
    requires Agrees(rows, def, idx) && loc !in rows
    ensures Agrees(rows[loc := row], def, IndexAdd(idx, def, loc, row)) <==> UniqueKeys(rows[loc := row], def)
  {
    var rows', idx' := rows[loc := row], IndexAdd(idx, def, loc, row);
    if UniqueKeys(rows', def) {
      forall l | l in rows' && l.table == def.table ensures def.key(rows'[l]) in idx' && idx'[def.key(rows'[l])] == l {
        assert loc in rows';
      }
    } else {
      if Agrees(rows', def, idx') { AgreesUnique(rows', def, idx'); }
    }
  }

  lemma DropAgrees(rows: map<Loc, Bytes>, def: IndexDef, idx: Index, loc: Loc)
    requires Agrees(rows, def, idx) && loc in rows
    ensures Agrees(rows - {loc}, def, IndexDrop(idx, def, loc, rows[loc]))
  {
    var rows', idx' := rows - {loc}, IndexDrop(idx, def, loc, rows[loc]);
    forall l | l in rows' && l.table == def.table ensures def.key(rows'[l]) in idx' {
      assert l in rows;
    }
    forall k | k in idx' ensures idx'[k] in rows' && def.key(rows'[idx'[k]]) == k {
      assert k in idx && idx[k] in rows;
    }
  }

  lemma MoveAgrees(rows: map<Loc, Bytes>, def: IndexDef, idx: Index, loc: Loc, row: Bytes)
    requires Agrees(rows, def, idx) && loc in rows
    ensures Agrees(rows[loc := row], def, IndexMove(idx, def, loc, rows[loc], row)) <==> UniqueKeys(rows[loc := row], def)
  {
    var rows', idx' := rows[loc := row], IndexMove(idx, def, loc, rows[loc], row);
    if UniqueKeys(rows', def) {
      if def.key(rows[loc]) == def.key(row) {
        assert forall l | l in rows :: def.key(rows'[l]) == def.key(rows[l]);
      } else {
        DropAgrees(rows, def, idx, loc);
        assert rows' == (rows - {loc})[loc := row];
        AddAgrees(rows - {loc}, def, IndexDrop(idx, def, loc, rows[loc]), loc, row);
      }
    } else {
      if Agrees(rows', def, idx') { AgreesUnique(rows', def, idx'); }
    }
  }

  /** What rollback does to an index for one change, given the slots before that change is undone. */
  function UndoIndex(slots: Slots, def: IndexDef, idx: Index, c: Change): Index {
    if c.loc !in slots then idx
    else match c
      case Inserted(loc) => IndexDrop(idx, def, loc, slots[loc].row)
      case Updated(loc, before) => IndexMove(idx, def, loc, slots[loc].row, before)
      case Deleted(loc, before) => IndexAdd(idx, def, loc, before)
  }

  function UndoIndexAll(slots: Slots, def: IndexDef, idx: Index, changes: seq<Change>): Index
    decreases |changes|
  {
    if changes == [] then idx
    else
      var c := changes[|changes| - 1];
      UndoIndexAll(Undo(slots, c), def, UndoIndex(slots, def, idx, c), changes[..|changes| - 1])
  }

  // --- Rolling back -----------------------------------------------------------------------------------

  /** Slots `b` come from `a` by one row change, recorded as `c`. */
  ghost predicate Does(a: Slots, c: Change, b: Slots) {
    && c.loc in b
    && b == a[c.loc := b[c.loc]]
    && match c
       case Inserted(loc) => loc !in a && !b[loc].deleted
       case Updated(loc, before) => loc in a && a[loc] == Slot(before, false) && !b[loc].deleted
       case Deleted(loc, before) => loc in a && a[loc] == Slot(before, false) && b[loc] == Slot(before, true)
  }

  /** The slots went through `history`, one recorded change after another. */
  ghost predicate Recorded(history: seq<Slots>, changes: seq<Change>) {
    && |history| == |changes| + 1
    && forall k | 0 <= k < |changes| :: Does(history[k], changes[k], history[k + 1])
  }

  /** What one change does to an index. */
  function IndexStep(def: IndexDef, idx: Index, c: Change, row: Bytes): Index {
    match c
    case Inserted(loc) => IndexAdd(idx, def, loc, row)
    case Updated(loc, before) => IndexMove(idx, def, loc, before, row)
    case Deleted(loc, before) => IndexDrop(idx, def, loc, before)
  }

  /** The indexes keep agreeing with the rows exactly as long as no two rows share a key. */
  lemma IndexStepAgrees(a: Slots, c: Change, b: Slots, def: IndexDef, idx: Index)
    requires Does(a, c, b) && Agrees(LiveRows(a), def, idx)
    ensures Agrees(LiveRows(b), def, IndexStep(def, idx, c, b[c.loc].row)) <==> UniqueKeys(LiveRows(b), def)
  {
    var rows, rows' := LiveRows(a), LiveRows(b);
    match c
    case Inserted(loc) =>
      assert rows' == rows[loc := b[loc].row];
      AddAgrees(rows, def, idx, loc, b[loc].row);
    case Updated(loc, before) =>
      assert rows' == rows[loc := b[loc].row];
      MoveAgrees(rows, def, idx, loc, b[loc].row);
    case Deleted(loc, before) =>
      assert rows' == rows - {loc};
      DropAgrees(rows, def, idx, loc);
      AgreesUnique(rows', def, IndexDrop(idx, def, loc, before));
  }

  /** `a` is `b` with nothing but dead slots added. */
  ghost predicate SameButDead(a: Slots, b: Slots) {
    && (forall l | l in b :: l in a && a[l] == b[l])
    && (forall l | l in a && l !in b :: a[l].deleted)
  }

  lemma SameLive(a: Slots, b: Slots)
    requires SameButDead(a, b)
    ensures LiveRows(a) == LiveRows(b)
  {
  }

  lemma UndoInverts(a: Slots, c: Change, b: Slots, now: Slots)
    requires Does(a, c, b) && SameButDead(now, b)
    ensures SameButDead(Undo(now, c), a)
  {
  }

  /** Undoing one change also takes the index back. */
  lemma UndoIndexInverts(a: Slots, c: Change, b: Slots, now: Slots, def: IndexDef, idx: Index)
    requires Does(a, c, b) && SameButDead(now, b)
    requires UniqueKeys(LiveRows(a), def) && Agrees(LiveRows(b), def, idx)
    ensures Agrees(LiveRows(a), def, UndoIndex(now, def, idx, c))
  {
    var rows, rows' := LiveRows(a), LiveRows(b);
    match c
    case Inserted(loc) =>
      DropAgrees(rows', def, idx, loc);
      assert rows == rows' - {loc};
    case Updated(loc, before) =>
      MoveAgrees(rows', def, idx, loc, before);
      assert rows == rows'[loc := before];
    case Deleted(loc, before) =>
      AddAgrees(rows', def, idx, loc, before);
      assert rows == rows'[loc := before];
  }

  /**
   Rolling back restores the rows: every slot that was there at the start is as it was, and the slots
   added since are dead.
   */
  lemma {:induction false} RollbackRestoresRows(history: seq<Slots>, changes: seq<Change>, now: Slots)
    requires Recorded(history, changes) && SameButDead(now, history[|changes|])
    ensures SameButDead(UndoAll(now, changes), history[0])
    ensures LiveRows(UndoAll(now, changes)) == LiveRows(history[0])
    decreases |changes|
  {
    if changes == [] {
      SameLive(now, history[0]);
    } else {
      var n := |changes| - 1;
      assert Does(history[n], changes[n], history[n + 1]);
      UndoInverts(history[n], changes[n], history[n + 1], now);
      RollbackRestoresRows(history[..n + 1], changes[..n], Undo(now, changes[n]));
    }
  }

  /** And it restores every unique index exactly. */
  lemma {:induction false} RollbackRestoresIndex(history: seq<Slots>, changes: seq<Change>, now: Slots,
                                                 def: IndexDef, idx: Index, idx0: Index)
    requires Recorded(history, changes) && SameButDead(now, history[|changes|])
    requires forall k | 0 <= k < |history| :: UniqueKeys(LiveRows(history[k]), def)
    requires Agrees(LiveRows(history[|changes|]), def, idx) && Agrees(LiveRows(history[0]), def, idx0)
    ensures UndoIndexAll(now, def, idx, changes) == idx0
    decreases |changes|
  {
    if changes == [] {
      AgreesDetermines(LiveRows(history[0]), def, idx, idx0);
    } else {
      var n := |changes| - 1;
      assert Does(history[n], changes[n], history[n + 1]);
      UndoInverts(history[n], changes[n], history[n + 1], now);
      UndoIndexInverts(history[n], changes[n], history[n + 1], now, def, idx);
      RollbackRestoresIndex(history[..n + 1], changes[..n], Undo(now, changes[n]),
                            def, UndoIndex(now, def, idx, changes[n]), idx0);
    }
  }

  // --- Rolling back cascaded deletes --------------------------------------------------------------------

  /** The rows in `cascaded` are deleted along with the recorded change, but no change is recorded for them. */
  function Flagged(slots: Slots, cascaded: set<Loc>): Slots {
    map l | l in slots :: if l in cascaded then slots[l].(deleted := true) else slots[l]
  }

  ghost predicate DoesAndCascades(a: Slots, c: Change, cascaded: set<Loc>, b: Slots) {
    && c.loc !in cascaded
    && (forall l | l in cascaded :: l in a && !a[l].deleted)
    && (cascaded != {} ==> c.Deleted?)
    && exists mid :: Does(a, c, mid) && b == Flagged(mid, cascaded)
  }

  ghost predicate RecordedWithCascades(history: seq<Slots>, changes: seq<Change>, cascades: seq<set<Loc>>) {
    && |history| == |changes| + 1 && |cascades| == |changes|
    && forall k | 0 <= k < |changes| :: DoesAndCascades(history[k], changes[k], cascades[k], history[k + 1])
  }

  /** The rows still missing once all changes are undone, when `missing` are missing before. */
  function Lost(changes: seq<Change>, cascades: seq<set<Loc>>, missing: set<Loc>): set<Loc>
    requires |cascades| == |changes|
  {
    if changes == [] then missing
    else
      var n := |changes| - 1;
      var c := changes[n];
      Lost(changes[..n], cascades[..n], missing + cascades[n] - (if c.Deleted? then {} else {c.loc}))
  }

  /** Some earlier insert or update of the same transaction takes care of the row. */
  predicate Recovers(changes: seq<Change>, l: Loc) {
    exists j | 0 <= j < |changes| :: changes[j].loc == l && !changes[j].Deleted?
  }

  lemma {:induction false} LostMeaning(changes: seq<Change>, cascades: seq<set<Loc>>, missing: set<Loc>, l: Loc)
    requires |cascades| == |changes|
    requires forall k | 0 <= k < |changes| :: changes[k].loc !in cascades[k]
    ensures l in Lost(changes, cascades, missing) <==>
              || (l in missing && !Recovers(changes, l))
              || exists k | 0 <= k < |changes| :: l in cascades[k] && !Recovers(changes[..k], l)
    decreases |changes|
  {
    if changes != [] {
      var n := |changes| - 1;
      var c, cs, es := changes[n], changes[..n], cascades[..n];
      var missing' := missing + cascades[n] - (if c.Deleted? then {} else {c.loc});
      LostMeaning(cs, es, missing', l);
      assert Recovers(changes, l) <==> Recovers(cs, l) || (c.loc == l && !c.Deleted?) by {
        assert changes[n] == c;
        assert forall j | 0 <= j < n :: cs[j] == changes[j];
      }
      assert forall k | 0 <= k < n :: cs[..k] == changes[..k] && es[k] == cascades[k];
      assert changes[..n] == cs;
    }
  }

  /** `a` is `b` with the rows in `lost` dead, and nothing but dead slots added. */
  ghost predicate SameButLost(a: Slots, b: Slots, lost: set<Loc>) {
    && (forall l | l in b :: l in a && a[l] == if l in lost then b[l].(deleted := true) else b[l])
    && (forall l | l in a && l !in b :: a[l].deleted)
    && (forall l | l in lost :: l in b && !b[l].deleted)
  }

  lemma UndoLoses(a: Slots, c: Change, cascaded: set<Loc>, b: Slots, now: Slots, lost: set<Loc>)
    requires DoesAndCascades(a, c, cascaded, b) && SameButLost(now, b, lost)
    ensures SameButLost(Undo(now, c), a, lost + cascaded - (if c.Deleted? then {} else {c.loc}))
  {
    hide LiveRows, UndoAll;
    var mid :| Does(a, c, mid) && b == Flagged(mid, cascaded);
    assert b.Keys == mid.Keys;
  }

  lemma {:induction false} RollbackLoses(history: seq<Slots>, changes: seq<Change>, cascades: seq<set<Loc>>,
                                         now: Slots, missing: set<Loc>)
    requires RecordedWithCascades(history, changes, cascades) && SameButLost(now, history[|changes|], missing)
    ensures SameButLost(UndoAll(now, changes), history[0], Lost(changes, cascades, missing))
    decreases |changes|
  {
    hide SameButLost, DoesAndCascades, Undo;
    if changes != [] {
      var n := |changes| - 1;
      assert DoesAndCascades(history[n], changes[n], cascades[n], history[n + 1]);
      UndoLoses(history[n], changes[n], cascades[n], history[n + 1], now, missing);
      RollbackLoses(history[..n + 1], changes[..n], cascades[..n], Undo(now, changes[n]),
                    missing + cascades[n] - (if changes[n].Deleted? then {} else {changes[n].loc}));
    }
  }

  lemma RowsLost(a: Slots, b: Slots, lost: set<Loc>)
    requires SameButLost(a, b, lost)
    ensures LiveRows(a) == LiveRows(b) <==> lost == {}
  {
    if l :| l in lost {
      assert l in LiveRows(b) && l !in LiveRows(a);
    } else {
      SameLive(a, b);
    }
  }

  /**
   With cascades, rolling back restores the rows if and only if every row that a cascade removed had been
   inserted or updated before by the same transaction.
   */
  lemma RollbackRestoresIff(history: seq<Slots>, changes: seq<Change>, cascades: seq<set<Loc>>)
    requires RecordedWithCascades(history, changes, cascades)
    ensures LiveRows(UndoAll(history[|changes|], changes)) == LiveRows(history[0]) <==>
              forall k, l | 0 <= k < |changes| && l in cascades[k] :: Recovers(changes[..k], l)
  {
    hide UndoAll, LiveRows, Lost;
    var now := history[|changes|];
    var lost := Lost(changes, cascades, {});
    assert SameButLost(now, now, {});
    RollbackLoses(history, changes, cascades, now, {});
    forall k | 0 <= k < |changes| ensures changes[k].loc !in cascades[k] {
      assert DoesAndCascades(history[k], changes[k], cascades[k], history[k + 1]);
    }
    forall l ensures l in lost <==> exists k | 0 <= k < |changes| :: l in cascades[k] && !Recovers(changes[..k], l) {
      LostMeaning(changes, cascades, {}, l);
    }
    RowsLost(UndoAll(now, changes), history[0], lost);
    if k, l :| 0 <= k < |changes| && l in cascades[k] && !Recovers(changes[..k], l) {
      assert l in lost;
    } else {
      assert lost == {};
    }
  }

  /** A cascade over a row the transaction had not touched: rolling back brings the parent back without its child. */
  lemma CascadeIsNotUndone(parent: Loc, child: Loc, p: Bytes, c: Bytes)
    requires parent != child
    ensures
      var before := map[parent := Slot(p, false), child := Slot(c, false)];
      var after := map[parent := Slot(p, true), child := Slot(c, true)];
      var changes := [Deleted(parent, p)];
      && RecordedWithCascades([before, after], changes, [{child}])
      && LiveRows(UndoAll(after, changes)) == map[parent := p] != LiveRows(before)
  {
    var before := map[parent := Slot(p, false), child := Slot(c, false)];
    var after := map[parent := Slot(p, true), child := Slot(c, true)];
    assert Does(before, Deleted(parent, p), before[parent := Slot(p, true)]);
    assert after == Flagged(before[parent := Slot(p, true)], {child});
    var undone := Undo(after, Deleted(parent, p));
    assert UndoAll(after, [Deleted(parent, p)]) == UndoAll(undone, []) == undone;
    assert child in LiveRows(before) && child !in LiveRows(undone);
  }
}
