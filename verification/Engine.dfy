/** Transactions as the executor runs them over tables and unique indexes, and recovery at start-up. */
module Engine {
  import opened Options
  import opened Transactions
  import opened IndexTrees
  import opened TransactionIndexes
  import opened Recovery
  import opened CrashRuns

  datatype TxnEntry = TxnEntry(active: bool, changes: seq<Change>)

  class TransactionManager {
    var wal: Log
    var nextTxnId: nat
    // 0 when no transaction is active.
    var activeTxnId: nat
    var txns: map<nat, TxnEntry>

    ghost predicate Valid()
      reads this
    {
      && nextTxnId >= 1 && activeTxnId < nextTxnId
      && (activeTxnId != 0 ==> activeTxnId in txns)
      && (forall u | u in txns :: 0 != u < nextTxnId && txns[u].changes == ChangesOf(wal, u))
      && (forall u | u in txns :: txns[u].active <==> u == activeTxnId)
      && (forall i | 0 <= i < |wal| :: wal[i].txn in txns)
    }

    ghost function Changes(): seq<Change>
      reads this
    {
      ChangesOf(wal, activeTxnId)
    }

    constructor ()
      ensures Valid() && wal == [] && activeTxnId == 0 && nextTxnId == 1
    {
      wal, nextTxnId, activeTxnId, txns := [], 1, 0, map[];
    }

    /** There can be only one transaction at a time: 0 if one is active already. */
    method Begin() returns (id: nat)
      requires Valid()
      modifies this
      ensures Valid()
      ensures old(activeTxnId) != 0 ==> id == 0 && wal == old(wal) && nextTxnId == old(nextTxnId) && activeTxnId == old(activeTxnId)
      ensures old(activeTxnId) == 0 ==>
                && id == activeTxnId == old(nextTxnId) && nextTxnId == id + 1
                && wal == old(wal) + [Recovery.Begin(id)] && Changes() == []
    {
      if activeTxnId != 0 {
        return 0;
      }
      id := nextTxnId;
      nextTxnId := nextTxnId + 1;
      NoChangesYet(wal, id);
      LogChangesOf(wal, Recovery.Begin(id));
      wal := wal + [Recovery.Begin(id)];
      txns := txns[id := TxnEntry(true, [])];
      activeTxnId := id;
    }

    method End(txnId: nat)
      requires Valid() && txnId == activeTxnId
      modifies this
      ensures Valid() && activeTxnId == 0 && wal == old(wal) && nextTxnId == old(nextTxnId)
    {
      if txnId in txns {
        txns := txns[txnId := txns[txnId].(active := false)];
      }
      activeTxnId := 0;
    }

    /** Logs how the transaction ended, and ends it. */
    method Finish(txnId: nat, record: Record)
      requires Valid() && txnId == activeTxnId != 0
      requires record == Recovery.Commit(txnId) || record == Recovery.Rollback(txnId)
      modifies this
      ensures Valid() && activeTxnId == 0 && wal == old(wal) + [record] && nextTxnId == old(nextTxnId)
    {
      LogChangesOf(wal, record);
      wal := wal + [record];
      End(txnId);
    }

    method Record(txnId: nat, change: Change)
      requires Valid() && txnId == activeTxnId != 0
      modifies this
      ensures Valid() && activeTxnId == txnId && nextTxnId == old(nextTxnId)
      ensures wal == old(wal) + [Changed(txnId, change)] && Changes() == old(Changes()) + [change]
    {
      LogChangesOf(wal, Changed(txnId, change));
      wal := wal + [Changed(txnId, change)];
      txns := txns[txnId := txns[txnId].(changes := txns[txnId].changes + [change])];
    }
  }

  lemma LogChangesOf(log: Log, x: Recovery.Record)
    ensures forall u ::
      ChangesOf(log + [x], u) == ChangesOf(log, u) + if x.Changed? && x.txn == u then [x.change] else []
    ensures !x.Changed? ==> forall u :: ChangesOf(log + [x], u) == ChangesOf(log, u)
  {
    forall u ensures ChangesOf(log + [x], u)
                  == ChangesOf(log, u) + if x.Changed? && x.txn == u then [x.change] else [] {
      ChangesOfSnoc(log, x, u);
    }
  }

  lemma {:induction false} NoChangesYet(log: Log, u: nat)
    requires forall i | 0 <= i < |log| :: log[i].txn != u
    ensures ChangesOf(log, u) == []
  {
    if log != [] {
      NoChangesYet(log[..|log| - 1], u);
    }
  }

  /** Every index but the hurt ones: no two of the rows have the same key in it. */
  ghost predicate AllUnique(slots: Slots, defs: seq<IndexDef>, hurt: set<int>) {
    forall i | 0 <= i < |defs| && i !in hurt :: UniqueKeys(LiveRows(slots), defs[i])
  }

  /** Every index but the hurt ones: the map says what the rows say. */
  ghost predicate MapsAgree(slots: Slots, defs: seq<IndexDef>, maps: seq<Index>, hurt: set<int>) {
    && |maps| == |defs|
    && forall i | 0 <= i < |defs| && i !in hurt :: Agrees(LiveRows(slots), defs[i], maps[i])
  }

  lemma MapsAgreeUnique(slots: Slots, defs: seq<IndexDef>, maps: seq<Index>, hurt: set<int>)
    requires MapsAgree(slots, defs, maps, hurt)
    ensures AllUnique(slots, defs, hurt)
  {
    forall i | 0 <= i < |defs| && i !in hurt ensures UniqueKeys(LiveRows(slots), defs[i]) {
      AgreesUnique(LiveRows(slots), defs[i], maps[i]);
    }
  }

  /** `changes` took the slots through `history` up to `slots`; at its start the indexes were `begun`. */
  ghost predicate Traced(history: seq<Slots>, changes: seq<Change>, slots: Slots, defs: seq<IndexDef>, begun: seq<Index>,
                         hurt: set<int>)
  {
    && Recorded(history, changes)
    && history[|changes|] == slots
    && (forall k | 0 <= k < |history| :: AllUnique(history[k], defs, hurt))
    && MapsAgree(history[0], defs, begun, hurt)
  }

  lemma TraceStarts(slots: Slots, defs: seq<IndexDef>, begun: seq<Index>, hurt: set<int>)
    requires MapsAgree(slots, defs, begun, hurt)
    ensures Traced([slots], [], slots, defs, begun, hurt)
  {
    MapsAgreeUnique(slots, defs, begun, hurt);
  }

  lemma TraceGrows(history: seq<Slots>, changes: seq<Change>, slots: Slots, defs: seq<IndexDef>, begun: seq<Index>,
                   hurt: set<int>, c: Change, slots': Slots, hurt': set<int>)
    requires Traced(history, changes, slots, defs, begun, hurt) && Does(slots, c, slots')
    requires hurt <= hurt' && AllUnique(slots', defs, hurt')
    ensures Traced(history + [slots'], changes + [c], slots', defs, begun, hurt')
  {
    hide Does, UniqueKeys, LiveRows, Agrees;
  }

  /** Every index but the hurt ones is a whole tree that holds its map. */
  ghost predicate TreesKept(indexes: seq<IndexTree>, maps: seq<Index>, hurt: set<int>) {
    && |indexes| == |maps|
    && forall i | 0 <= i < |maps| && i !in hurt :: Keeps(indexes[i], PlacesOf(maps[i]))
  }

  /** Index `i` has performed the operations, and is hurt if it was, if they took a broken branch or were not sound. */
  ghost predicate Performed(before: seq<IndexTree>, hurt: set<int>, after: seq<IndexTree>, hurt': set<int>, i: int, ops: seq<TreeOp>,
                            sound: bool)
  {
    && 0 <= i < |before| == |after|
    && after[i] == PerformAll(before[i], ops)
    && (i in hurt' <==> i in hurt || !sound || MeetsFault(before[i], ops))
  }

  /** What a change has to keep in an index: the key put in is that of the stored row, and no other row has it. */
  ghost predicate Sound(def: IndexDef, c: Change, slots: Slots, key: int)
    requires c.loc in slots
  {
    KeyStored(def, c, slots[c.loc].row, key) && UniqueKeys(LiveRows(slots), def)
  }

  ghost predicate AllFit(defs: seq<IndexDef>) {
    forall i | 0 <= i < |defs| :: KeysFit(defs[i])
  }

  /** A sound change of the slots, carried out by an index that said what the rows said. */
  lemma SoundStep(a: Slots, c: Change, b: Slots, def: IndexDef, idx: Index, x: IndexTree, key: int)
    requires Does(a, c, b) && Sound(def, c, b, key) && KeysFit(def)
    requires Agrees(LiveRows(a), def, idx) && Keeps(x, PlacesOf(idx))
    ensures Agrees(LiveRows(b), def, IndexStep(def, idx, c, b[c.loc].row))
    ensures !MeetsFault(x, StepOps(def, c, key)) ==>
              Keeps(PerformAll(x, StepOps(def, c, key)), PlacesOf(IndexStep(def, idx, c, b[c.loc].row)))
  {
    IndexStepAgrees(a, c, b, def, idx);
    StepPlaces(a, c, b, def, idx, key);
    hide *;
    FollowsExact(x, PlacesOf(idx), StepOps(def, c, key));
  }

  /** Doing `rest` from `y` on comes to what doing `ops` from `x` on comes to. */
  ghost predicate Resumes(x: IndexTree, hurtX: bool, ops: seq<TreeOp>, y: IndexTree, hurtY: bool, rest: seq<TreeOp>) {
    && PerformAll(y, rest) == PerformAll(x, ops)
    && (hurtY || MeetsFault(y, rest) <==> hurtX || MeetsFault(x, ops))
  }

  lemma ResumesLater(x: IndexTree, hurtX: bool, ops: seq<TreeOp>, y: IndexTree, hurtY: bool, first: seq<TreeOp>,
                     rest: seq<TreeOp>, z: IndexTree, hurtZ: bool)
    requires Resumes(x, hurtX, ops, y, hurtY, first + rest)
    requires z == PerformAll(y, first) && (hurtZ <==> hurtY || MeetsFault(y, first))
    ensures Resumes(x, hurtX, ops, z, hurtZ, rest)
  {
    hide PerformAll, MeetsFault;
    AllAppend(y, map[], first, rest);
  }

  lemma UndoOpsLast(slots: Slots, def: IndexDef, changes: seq<Change>)
    requires changes != []
    ensures UndoOpsAll(slots, def, changes)
         == UndoOps(slots, def, changes[|changes| - 1])
            + UndoOpsAll(Undo(slots, changes[|changes| - 1]), def, changes[..|changes| - 1])
  {
  }

  lemma NothingLeft(slots: Slots, def: IndexDef, x: IndexTree)
    ensures UndoOpsAll(slots, def, []) == [] && PerformAll(x, []) == x && !MeetsFault(x, [])
  {
  }

  class Executor {
    const txnManager: TransactionManager
    const defs: seq<IndexDef>
    var slots: Slots
    var indexes: seq<IndexTree>
    // What every index should hold, and the indexes in which a deletion has taken a broken branch.
    ghost var maps: seq<Index>
    ghost var hurt: set<int>
    // The slots when the active transaction began and after each of its changes, and the maps at the start.
    ghost var history: seq<Slots>
    ghost var begun: seq<Index>
    // The same run as a state machine.
    ghost var run: Run

    ghost predicate Valid()
      reads this, txnManager
    {
      && txnManager.Valid()
      && MapsAgree(slots, defs, maps, hurt) && AllFit(defs) && TreesKept(indexes, maps, hurt)
      && Inv(run) && run.slots == slots && run.log == txnManager.wal
      && run.next == txnManager.nextTxnId && run.active == txnManager.activeTxnId
      && (txnManager.activeTxnId != 0 ==> Traced(history, txnManager.Changes(), slots, defs, begun, hurt))
    }

    /** After recovery, in a run on a new log or on one with the records of earlier runs. */
    constructor (slots: Slots, defs: seq<IndexDef>, indexes: seq<IndexTree>, ghost maps: seq<Index>, ghost start: Run)
      requires MapsAgree(slots, defs, maps, {}) && AllFit(defs) && TreesKept(indexes, maps, {})
      requires Inv(start) && start.slots == slots && start.log == [] && start.next == 1 && start.active == 0
      ensures Valid() && fresh(txnManager)
      ensures this.slots == slots && this.defs == defs && this.indexes == indexes && run == start && hurt == {}
    {
      txnManager := new TransactionManager();
      this.slots, this.defs, this.indexes := slots, defs, indexes;
      this.maps, hurt := maps, {};
      history, begun, run := [], [], start;
    }

    method ExecuteBegin() returns (ok: bool)
      requires Valid()
      modifies this`history, this`begun, this`run, txnManager
      ensures Valid() && ok == (old(txnManager.activeTxnId) == 0)
      ensures run == Step(old(run), BeginOp)
      ensures ok ==> history[0] == slots && begun == maps
      ensures !ok ==> history == old(history) && begun == old(begun)
    {
      hide Agrees, UniqueKeys, Inv, ChangesOf, LiveRows, MapsAgree, AllFit, TreesKept, Traced;
      var id := txnManager.Begin();
      StepKeeps(run, BeginOp);
      ok := id != 0;
      if ok {
        history, begun := [slots], maps;
        TraceStarts(slots, defs, maps, hurt);
      }
      run := Step(run, BeginOp);
    }

    method ExecuteCommit() returns (ok: bool)
      requires Valid()
      modifies this`run, txnManager
      ensures Valid() && ok == (old(txnManager.activeTxnId) != 0)
      ensures run == Step(old(run), CommitOp)
    {
      hide Agrees, UniqueKeys, Inv, ChangesOf, LiveRows, MapsAgree, AllFit, TreesKept, Traced;
      var id := txnManager.activeTxnId;
      StepKeeps(run, CommitOp);
      if id == 0 {
        return false;
      }
      txnManager.Finish(id, Recovery.Commit(id));
      run := Step(run, CommitOp);
      ok := true;
    }

    /** Performs the operations on index `i`, which should then hold `m` if they are sound. */
    method Move(i: nat, ops: seq<TreeOp>, ghost sound: bool, ghost m: Index)
      requires i < |indexes| && TreesKept(indexes, maps, hurt)
      requires i !in hurt && sound && !MeetsFault(indexes[i], ops) ==> Keeps(PerformAll(indexes[i], ops), PlacesOf(m))
      modifies this`indexes, this`maps, this`hurt
      ensures indexes == old(indexes)[i := PerformAll(old(indexes)[i], ops)]
      ensures |maps| == |indexes| && maps == old(maps)[i := m]
      ensures hurt == old(hurt) + if !sound || MeetsFault(old(indexes)[i], ops) then {i} else {}
      ensures TreesKept(indexes, maps, hurt)
    {
      hide Keeps, PlacesOf, PerformAll, MeetsFault;
      if !sound || MeetsFault(indexes[i], ops) {
        hurt := hurt + {i};
      }
      maps := maps[i := m];
      indexes := indexes[i := PerformAll(indexes[i], ops)];
    }

    /** Every index follows a change that was just made to the slots; `keys` are those of the statement's values. */
    method UpdateIndexes(ghost before: Slots, c: Change, keys: seq<int>)
      requires MapsAgree(before, defs, maps, hurt) && Does(before, c, slots) && |keys| == |defs|
      requires AllFit(defs) && TreesKept(indexes, maps, hurt)
      modifies this`indexes, this`maps, this`hurt
      ensures MapsAgree(slots, defs, maps, hurt) && TreesKept(indexes, maps, hurt) && old(hurt) <= hurt
      ensures c.loc in slots && forall i | 0 <= i < |defs| ::
                Performed(old(indexes), old(hurt), indexes, hurt, i, StepOps(defs[i], c, keys[i]), Sound(defs[i], c, slots, keys[i]))
    {
      hide Agrees, UniqueKeys, Does, LiveRows, Keeps, PlacesOf, KeysFit, KeyStored, StepOps, PerformAll, MeetsFault, Follows,
           IndexStep;
      WrittenSlot(before, c, slots);
      for i := 0 to |defs|
        invariant |maps| == |indexes| == |defs| && old(hurt) <= hurt
        invariant forall j | 0 <= j < i && j !in hurt :: Agrees(LiveRows(slots), defs[j], maps[j])
        invariant forall j | i <= j < |defs| :: maps[j] == old(maps)[j] && indexes[j] == old(indexes)[j]
        invariant forall j | i <= j < |defs| :: j in hurt <==> j in old(hurt)
        invariant forall j | 0 <= j < i ::
                    Performed(old(indexes), old(hurt), indexes, hurt, j, StepOps(defs[j], c, keys[j]), Sound(defs[j], c, slots, keys[j]))
        invariant TreesKept(indexes, maps, hurt)
      {
        ghost var sound := Sound(defs[i], c, slots, keys[i]);
        if i !in hurt && sound {
          SoundStep(before, c, slots, defs[i], maps[i], indexes[i], keys[i]);
        }
        Move(i, StepOps(defs[i], c, keys[i]), sound, IndexStep(defs[i], maps[i], c, slots[c.loc].row));
      }
    }

    /**
     One row change inside the active transaction: the slot is written, the change recorded, the indexes follow,
     each with the key that the statement's values make for it.
     */
    method Change(c: Change, slot: Slot, keys: seq<int>)
      requires Valid() && txnManager.activeTxnId != 0
      requires Does(slots, c, slots[c.loc := slot]) && |keys| == |defs|
      modifies this`slots, this`indexes, this`maps, this`hurt, this`history, this`run, txnManager
      ensures Valid() && txnManager.activeTxnId == old(txnManager.activeTxnId)
      ensures slots == old(slots)[c.loc := slot]
      ensures run == Step(old(run), WriteOp(c, slot))
      ensures history == old(history) + [slots] && begun == old(begun)
      ensures forall i | 0 <= i < |defs| ::
                Performed(old(indexes), old(hurt), indexes, hurt, i, StepOps(defs[i], c, keys[i]), Sound(defs[i], c, slots, keys[i]))
    {
      hide Agrees, UniqueKeys, Inv, ChangesOf, LiveRows, Traced, AllUnique, MapsAgree, AllFit, TreesKept, StepOps,
           PerformAll, MeetsFault, Performed, Does, Sound;
      ghost var before, wasHurt := slots, hurt;
      StepKeeps(run, WriteOp(c, slot));
      slots := slots[c.loc := slot];
      UpdateIndexes(before, c, keys);
      MapsAgreeUnique(slots, defs, maps, hurt);
      TraceGrows(history, txnManager.Changes(), before, defs, begun, wasHurt, c, slots, hurt);
      txnManager.Record(txnManager.activeTxnId, c);
      history := history + [slots];
      run := Step(run, WriteOp(c, slot));
    }

    /** Every index follows a change that is about to be undone. */
    method UndoIndexes(c: Change, ghost before: Slots, ghost after: Slots)
      requires Does(before, c, after) && SameButDead(slots, after)
      requires AllUnique(before, defs, hurt) && MapsAgree(after, defs, maps, hurt) && AllFit(defs) && TreesKept(indexes, maps, hurt)
      modifies this`indexes, this`maps, this`hurt
      ensures MapsAgree(before, defs, maps, hurt) && TreesKept(indexes, maps, hurt) && old(hurt) <= hurt
      ensures forall i | 0 <= i < |defs| ::
                Performed(old(indexes), old(hurt), indexes, hurt, i, UndoOps(slots, defs[i], c), true)
    {
      hide Agrees, UniqueKeys, Does, LiveRows, UndoIndex, SameButDead, Keeps, PlacesOf, KeysFit, UndoOps, PerformAll,
           MeetsFault, Follows;
      for i := 0 to |defs|
        invariant |maps| == |indexes| == |defs| && old(hurt) <= hurt
        invariant forall j | 0 <= j < i && j !in hurt :: Agrees(LiveRows(before), defs[j], maps[j])
        invariant forall j | i <= j < |defs| :: maps[j] == old(maps)[j] && indexes[j] == old(indexes)[j]
        invariant forall j | i <= j < |defs| :: j in hurt <==> j in old(hurt)
        invariant forall j | 0 <= j < i :: Performed(old(indexes), old(hurt), indexes, hurt, j, UndoOps(slots, defs[j], c), true)
        invariant TreesKept(indexes, maps, hurt)
      {
        if i !in hurt {
          UndoIndexInverts(before, c, after, slots, defs[i], maps[i]);
          UndoKeepsTree(before, c, after, slots, defs[i], maps[i], indexes[i]);
        }
        Move(i, UndoOps(slots, defs[i], c), true, UndoIndex(slots, defs[i], maps[i], c));
      }
    }

    /** Undoes one change in the table and in every index. */
    method UndoChange(c: Change, ghost before: Slots, ghost after: Slots)
      requires Does(before, c, after) && SameButDead(slots, after)
      requires AllUnique(before, defs, hurt) && MapsAgree(after, defs, maps, hurt) && AllFit(defs) && TreesKept(indexes, maps, hurt)
      modifies this`slots, this`indexes, this`maps, this`hurt
      ensures slots == Undo(old(slots), c) && SameButDead(slots, before)
      ensures MapsAgree(before, defs, maps, hurt) && TreesKept(indexes, maps, hurt) && old(hurt) <= hurt
      ensures forall i | 0 <= i < |defs| ::
                Performed(old(indexes), old(hurt), indexes, hurt, i, UndoOps(old(slots), defs[i], c), true)
    {
      hide Does, Undo, SameButDead, AllUnique, MapsAgree, AllFit, TreesKept, Performed, UndoOps;
      UndoInverts(before, c, after, slots);
      UndoIndexes(c, before, after);
      slots := Undo(slots, c);
    }

    /**
     Rolls the active transaction back: the rows are as they were when it began, and so is every unique index
     that is not hurt. An index is hurt by a deletion that takes a broken branch, here or earlier, and by a
     statement that puts in a key which is not that of the row it stores, or which another row has.
     */
    method ExecuteRollback() returns (ok: bool)
      requires Valid()
      modifies this`slots, this`indexes, this`maps, this`hurt, this`run, txnManager
      ensures Valid() && ok == (old(txnManager.activeTxnId) != 0)
      ensures !ok ==> slots == old(slots) && indexes == old(indexes) && hurt == old(hurt)
      ensures ok ==> LiveRows(slots) == old(LiveRows(history[0]))
      ensures ok ==> forall i | 0 <= i < |defs| ::
                && Performed(old(indexes), old(hurt), indexes, hurt, i, UndoOpsAll(old(slots), defs[i], old(txnManager.Changes())), true)
                && |old(begun)| == |defs| && (i !in hurt ==> Keeps(indexes[i], PlacesOf(old(begun)[i])))
      ensures run == Step(old(run), RollbackOp)
    {
      hide Agrees, UniqueKeys, Inv, ChangesOf, LiveRows, Does, Undo, UndoOps, UndoOpsAll, PerformAll, MeetsFault,
           KeysFit, Keeps, PlacesOf;
      StepKeeps(run, RollbackOp);
      var id := txnManager.activeTxnId;
      if id == 0 {
        return false;
      }
      var changes := txnManager.txns[id].changes;
      var i := |changes|;
      assert changes[..i] == changes;
      while i > 0
        modifies this`slots, this`indexes, this`maps, this`hurt
        invariant 0 <= i <= |changes| && MapsAgree(history[i], defs, maps, hurt) && SameButDead(slots, history[i])
        invariant old(hurt) <= hurt
        invariant UndoAll(slots, changes[..i]) == UndoAll(old(slots), changes)
        invariant TreesKept(indexes, maps, hurt)
        invariant forall j | 0 <= j < |defs| ::
                    Resumes(old(indexes)[j], j in old(hurt), UndoOpsAll(old(slots), defs[j], changes),
                            indexes[j], j in hurt, UndoOpsAll(slots, defs[j], changes[..i]))
      {
        i := i - 1;
        assert changes[..i + 1][..i] == changes[..i];
        label Before:
        UndoChange(changes[i], history[i], history[i + 1]);
        forall j | 0 <= j < |defs|
          ensures Resumes(old(indexes)[j], j in old(hurt), UndoOpsAll(old(slots), defs[j], changes),
                          indexes[j], j in hurt, UndoOpsAll(slots, defs[j], changes[..i]))
        {
          UndoOpsLast(old@Before(slots), defs[j], changes[..i + 1]);
          ResumesLater(old(indexes)[j], j in old(hurt), UndoOpsAll(old(slots), defs[j], changes),
                       old@Before(indexes)[j], j in old@Before(hurt), UndoOps(old@Before(slots), defs[j], changes[i]),
                       UndoOpsAll(slots, defs[j], changes[..i]), indexes[j], j in hurt);
        }
      }
      SameLive(slots, history[0]);
      forall j | 0 <= j < |defs| && j !in hurt ensures maps[j] == begun[j] {
        AgreesDetermines(LiveRows(history[0]), defs[j], maps[j], begun[j]);
      }
      forall j | 0 <= j < |defs|
        ensures Performed(old(indexes), old(hurt), indexes, hurt, j, UndoOpsAll(old(slots), defs[j], changes), true)
      {
        NothingLeft(slots, defs[j], indexes[j]);
      }
      txnManager.Finish(id, Recovery.Rollback(id));
      run := Step(run, RollbackOp);
      ok := true;
    }
  }

  class AkatsukiEngine {
    const wal: Log
    var slots: Slots

    constructor (wal: Log, slots: Slots)
      ensures this.wal == wal && this.slots == slots
    {
      this.wal, this.slots := wal, slots;
    }

    /** The ids with a commit record anywhere in the log. */
    method FindCommitted() returns (committed: set<nat>)
      ensures committed == Committed(wal)
    {
      committed := {};
      for i := 0 to |wal|
        invariant committed == Committed(wal[..i])
      {
        assert wal[..i + 1] == wal[..i] + [wal[i]];
        CommittedSnoc(wal[..i], wal[i]);
        if wal[i].Commit? {
          committed := committed + {wal[i].txn};
        }
      }
      assert wal[..|wal|] == wal;
    }

    /** The changes of every other transaction, in log order. */
    method CollectUncommitted(committed: set<nat>) returns (uncommitted: map<nat, seq<Change>>)
      requires committed == Committed(wal)
      ensures uncommitted.Keys == Undone(wal)
      ensures forall u | u in uncommitted :: uncommitted[u] == ChangesOf(wal, u)
    {
      hide Writers, ChangesOf, Undone, Committed;
      uncommitted := map[];
      EmptyLog();
      NoWriters();
      for i := 0 to |wal|
        invariant uncommitted.Keys == Writers(wal[..i]) - committed
        invariant forall u | u !in committed ::
                    ChangesOf(wal[..i], u) == if u in uncommitted then uncommitted[u] else []
      {
        var rec := wal[i];
        assert wal[..i + 1] == wal[..i] + [rec];
        LogChangesOf(wal[..i], rec);
        WritersSnoc(wal[..i], rec);
        if rec.Changed? && rec.txn !in committed {
          uncommitted := uncommitted[rec.txn := (if rec.txn in uncommitted then uncommitted[rec.txn] else []) + [rec.change]];
        }
      }
      assert wal[..|wal|] == wal;
      UndoneWriters(wal);
    }

    /** Undoes one transaction's changes in the table, the last one first. */
    method UndoChanges(changes: seq<Change>)
      modifies this`slots
      ensures slots == UndoAll(old(slots), changes)
    {
      var i := |changes|;
      assert changes[..i] == changes;
      while i > 0
        invariant 0 <= i <= |changes|
        invariant UndoAll(slots, changes[..i]) == UndoAll(old(slots), changes)
      {
        i := i - 1;
        assert changes[..i + 1][..i] == changes[..i];
        slots := Undo(slots, changes[i]);
      }
    }

    /** Recovery: the uncommitted transactions are undone in whatever order the map yields them. */
    method Recover() returns (ghost order: seq<nat>)
      modifies this`slots
      ensures Visits(order, wal) && slots == RecoverIn(old(slots), wal, order)
    {
      hide Undone, Committed, ChangesOf, UndoAll, RecoverIn;
      var committed := FindCommitted();
      var uncommitted := CollectUncommitted(committed);
      order := [];
      RecoverNone(slots, wal);
      assert forall u :: u in uncommitted <==> u in uncommitted.Keys;
      ghost var all := Undone(wal);
      while uncommitted != map[]
        invariant forall u | u in uncommitted :: u in all && uncommitted[u] == ChangesOf(wal, u)
        invariant forall u :: u in all <==> u in order || u in uncommitted
        invariant forall u | u in order :: u !in uncommitted
        invariant forall i, j | 0 <= i < j < |order| :: order[i] != order[j]
        invariant slots == RecoverIn(old(slots), wal, order)
        decreases |uncommitted|
      {
        var u :| u in uncommitted;
        UndoChanges(uncommitted[u]);
        RecoverSnoc(old(slots), wal, order, u);
        order := order + [u];
        ghost var before := uncommitted;
        uncommitted := uncommitted - {u};
        assert before == uncommitted[u := before[u]];
      }
    }
  }

  lemma RecoverNone(slots: Slots, log: Log)
    ensures RecoverIn(slots, log, []) == slots
  {
  }

  function Writers(log: Log): set<nat> {
    set r | r in log && r.Changed? :: r.txn
  }

  lemma NoWriters()
    ensures Writers([]) == {} && forall u :: ChangesOf([], u) == []
  {
  }

  lemma WritersSnoc(log: Log, x: Recovery.Record)
    ensures Writers(log + [x]) == Writers(log) + if x.Changed? then {x.txn} else {}
  {
    assert forall y :: y in log + [x] <==> y in log || y == x;
    forall u ensures u in Writers(log + [x]) <==> u in Writers(log) || (x.Changed? && u == x.txn) {
      if u in Writers(log) {
        var y :| y in log && y.Changed? && y.txn == u;
        assert y in log + [x];
      }
      if x.Changed? && u == x.txn { assert x in log + [x]; }
    }
  }

  lemma UndoneWriters(log: Log)
    ensures Undone(log) == Writers(log) - Committed(log)
  {
  }

  lemma {:induction false} RecoverSnoc(slots: Slots, log: Log, order: seq<nat>, u: nat)
    ensures RecoverIn(slots, log, order + [u]) == UndoAll(RecoverIn(slots, log, order), ChangesOf(log, u))
    decreases |order|
  {
    if order == [] {
      assert (order + [u])[1..] == [];
    } else {
      assert (order + [u])[1..] == order[1..] + [u];
      RecoverSnoc(UndoAll(slots, ChangesOf(log, order[0])), log, order[1..], u);
    }
  }
}
