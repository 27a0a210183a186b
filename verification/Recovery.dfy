/**
 Recovery at start-up: the changes of every transaction without a commit record are undone, each
 transaction's last change first, the transactions in any order.
 */
module Recovery {
  import opened Options
  import opened Transactions

  datatype Record =
    | Begin(txn: nat)
    | Changed(txn: nat, change: Change)
    | Commit(txn: nat)
    | Rollback(txn: nat)

  type Log = seq<Record>

  function Committed(log: Log): set<nat> {
    set r | r in log && r.Commit? :: r.txn
  }

  /** The transactions that recovery undoes. */
  function Undone(log: Log): set<nat> {
    set r | r in log && r.Changed? && r.txn !in Committed(log) :: r.txn
  }

  function ChangesOf(log: Log, txn: nat): seq<Change> {
    if log == [] then []
    else
      var r := log[|log| - 1];
      ChangesOf(log[..|log| - 1], txn) + if r.Changed? && r.txn == txn then [r.change] else []
  }

  /** Undoes the given transactions, the first one first. */
  function RecoverIn(slots: Slots, log: Log, order: seq<nat>): Slots
    decreases |order|
  {
    if order == [] then slots else RecoverIn(UndoAll(slots, ChangesOf(log, order[0])), log, order[1..])
  }

  /** An order in which the transactions to undo may be visited. */
  ghost predicate Visits(order: seq<nat>, log: Log) {
    && (forall u :: u in order <==> u in Undone(log))
    && (forall i, j | 0 <= i < j < |order| :: order[i] != order[j])
  }

  // --- What undoing does to one slot -------------------------------------------------------------------

  /** The row bytes and the delete flag that undoing leaves, where it sets them. */
  datatype Effect = Effect(row: Option<Bytes>, deleted: Option<bool>)

  const KEEP := Effect(None, None)

  function Apply(e: Effect, s: Slot): Slot {
    Slot(if e.row.Some? then e.row.value else s.row, if e.deleted.Some? then e.deleted.value else s.deleted)
  }

  /** Effect `b`, and then effect `a`. */
  function Over(a: Effect, b: Effect): Effect {
    Effect(if a.row.Some? then a.row else b.row, if a.deleted.Some? then a.deleted else b.deleted)
  }

  function EffectOf(c: Change, l: Loc): Effect {
    if c.loc != l then KEEP
    else match c
      case Inserted(_) => Effect(None, Some(true))
      case Updated(_, before) => Effect(Some(before), Some(false))
      case Deleted(_, _) => Effect(None, Some(false))
  }

  /** What undoing all the changes, the last one first, does to slot `l`. */
  function Net(changes: seq<Change>, l: Loc): (e: Effect)
    ensures e.row.Some? ==> e.deleted.Some?
  {
    if changes == [] then KEEP
    else Over(Net(changes[..|changes| - 1], l), EffectOf(changes[|changes| - 1], l))
  }

  function NetOf(log: Log, u: nat, l: Loc): Effect {
    Net(ChangesOf(log, u), l)
  }

  function NetIn(log: Log, order: seq<nat>, l: Loc): Effect {
    if order == [] then KEEP else Over(NetIn(log, order[1..], l), NetOf(log, order[0], l))
  }

  lemma {:induction false} NetUndo(slots: Slots, changes: seq<Change>, l: Loc)
    ensures UndoAll(slots, changes).Keys == slots.Keys
    ensures l in slots ==> UndoAll(slots, changes)[l] == Apply(Net(changes, l), slots[l])
    decreases |changes|
  {
    if changes != [] {
      var n := |changes| - 1;
      NetUndo(Undo(slots, changes[n]), changes[..n], l);
    }
  }

  lemma {:induction false} NetRecover(slots: Slots, log: Log, order: seq<nat>, l: Loc)
    ensures RecoverIn(slots, log, order).Keys == slots.Keys
    ensures l in slots ==> RecoverIn(slots, log, order)[l] == Apply(NetIn(log, order, l), slots[l])
    decreases |order|
  {
    if order != [] {
      NetUndo(slots, ChangesOf(log, order[0]), l);
      NetRecover(UndoAll(slots, ChangesOf(log, order[0])), log, order[1..], l);
    }
  }

  /** The transaction visited last has the last word. */
  lemma {:induction false} NetLast(log: Log, order: seq<nat>, u: nat, l: Loc)
    ensures NetIn(log, order + [u], l) == Over(NetOf(log, u, l), NetIn(log, order, l))
  {
    if order == [] {
      assert (order + [u])[1..] == [];
    } else {
      NetLast(log, order[1..], u, l);
      assert (order + [u])[1..] == order[1..] + [u];
    }
  }

  /** Whatever the whole recovery sets was set by one of the transactions. */
  lemma {:induction false} NetInFrom(log: Log, order: seq<nat>, l: Loc)
    ensures NetIn(log, order, l).deleted.Some? <==> exists u | u in order :: NetOf(log, u, l).deleted.Some?
    ensures NetIn(log, order, l).row.Some? <==> exists u | u in order :: NetOf(log, u, l).row.Some?
    ensures NetIn(log, order, l).deleted.Some? ==>
              exists u | u in order :: NetOf(log, u, l).deleted == NetIn(log, order, l).deleted
    ensures NetIn(log, order, l).row.Some? ==>
              exists u | u in order :: NetOf(log, u, l).row == NetIn(log, order, l).row
  {
    if order != [] {
      NetInFrom(log, order[1..], l);
      assert forall u :: u in order <==> u == order[0] || u in order[1..];
    }
  }

  // --- When recovery is right ----------------------------------------------------------------------------

  ghost predicate Touched(log: Log, l: Loc) {
    exists u | u in Undone(log) :: NetOf(log, u, l) != KEEP
  }

  ghost predicate Rewritten(log: Log, l: Loc) {
    exists u | u in Undone(log) :: NetOf(log, u, l).row.Some?
  }

  /** What a transaction puts back at `l` is what is committed there. */
  predicate Fits(e: Effect, rows: map<Loc, Bytes>, l: Loc) {
    || e == KEEP
    || (e.deleted == Some(l !in rows) && (l in rows && e.row.Some? ==> e.row.value == rows[l]))
  }

  /** The slot holds the committed row, or no live row if there is none. */
  predicate Shows(s: Slot, rows: map<Loc, Bytes>, l: Loc) {
    s.deleted == (l !in rows) && (l in rows ==> s.row == rows[l])
  }

  /** The slots recovery does not set already hold what is committed. */
  ghost predicate RestFits(log: Log, image: Slots, rows: map<Loc, Bytes>) {
    && (forall l | l in rows :: l in image)
    && (forall l | l in image && !Touched(log, l) :: Shows(image[l], rows, l))
    && (forall l | l in image && !Rewritten(log, l) && l in rows :: image[l].row == rows[l])
  }

  lemma ShowsAll(slots: Slots, rows: map<Loc, Bytes>)
    ensures LiveRows(slots) == rows <==>
              (forall l | l in rows :: l in slots) && (forall l | l in slots :: Shows(slots[l], rows, l))
  {
    if LiveRows(slots) == rows {
      forall l | l in slots ensures Shows(slots[l], rows, l) {
        assert l in LiveRows(slots) <==> l in rows;
      }
      forall l | l in rows ensures l in slots {
        assert l in LiveRows(slots);
      }
    }
  }

  lemma RecoversWhenFits(log: Log, image: Slots, rows: map<Loc, Bytes>, order: seq<nat>)
    requires Visits(order, log) && RestFits(log, image, rows)
    requires forall u, l | u in Undone(log) && l in image :: Fits(NetOf(log, u, l), rows, l)
    ensures LiveRows(RecoverIn(image, log, order)) == rows
  {
    hide NetOf, RecoverIn;
    var after := RecoverIn(image, log, order);
    forall l ensures after.Keys == image.Keys && (l in image ==> Shows(after[l], rows, l)) {
      NetRecover(image, log, order, l);
      NetInFrom(log, order, l);
    }
    assert forall l | l in rows :: l in after.Keys;
    ShowsAll(after, rows);
  }

  lemma {:induction false} Enumerate(ids: set<nat>) returns (order: seq<nat>)
    ensures forall u :: u in order <==> u in ids
    ensures forall i, j | 0 <= i < j < |order| :: order[i] != order[j]
    decreases |ids|
  {
    if ids == {} {
      order := [];
    } else {
      var u :| u in ids;
      var rest := Enumerate(ids - {u});
      order := [u] + rest;
    }
  }

  /** If every order recovers the rows, then every transaction fits: visit it last. */
  lemma FitsWhenRecovers(log: Log, image: Slots, rows: map<Loc, Bytes>, u: nat, l: Loc)
    requires forall order | Visits(order, log) :: LiveRows(RecoverIn(image, log, order)) == rows
    requires u in Undone(log) && l in image
    ensures Fits(NetOf(log, u, l), rows, l)
  {
    var rest := Enumerate(Undone(log) - {u});
    var order := rest + [u];
    assert Visits(order, log);
    NetRecover(image, log, order, l);
    NetLast(log, rest, u, l);
    ShowsAll(RecoverIn(image, log, order), rows);
  }

  lemma RestFitsWhenRecovers(log: Log, image: Slots, rows: map<Loc, Bytes>)
    requires forall order | Visits(order, log) :: LiveRows(RecoverIn(image, log, order)) == rows
    ensures RestFits(log, image, rows)
  {
    var order := Enumerate(Undone(log));
    assert Visits(order, log);
    var after := RecoverIn(image, log, order);
    ShowsAll(after, rows);
    forall l ensures after.Keys == image.Keys
      && (l in image && !Touched(log, l) ==> Shows(image[l], rows, l))
      && (l in image && !Rewritten(log, l) && l in rows ==> image[l].row == rows[l])
    {
      NetRecover(image, log, order, l);
      NetInFrom(log, order, l);
    }
  }

  /**
   For any log, any image of the slots and any rows meant to be committed: recovery yields exactly those
   rows in whatever order it visits the transactions, if and only if what each undone transaction puts
   back is what is committed there, and the slots it does not set hold what is committed.
   */
  lemma RecoveryExact(log: Log, image: Slots, rows: map<Loc, Bytes>)
    ensures (forall order | Visits(order, log) :: LiveRows(RecoverIn(image, log, order)) == rows) <==>
              RestFits(log, image, rows)
              && forall u, l | u in Undone(log) && l in image :: Fits(NetOf(log, u, l), rows, l)
  {
    if forall order | Visits(order, log) :: LiveRows(RecoverIn(image, log, order)) == rows {
      RestFitsWhenRecovers(log, image, rows);
      forall u, l | u in Undone(log) && l in image ensures Fits(NetOf(log, u, l), rows, l) {
        FitsWhenRecovers(log, image, rows, u, l);
      }
    }
    if RestFits(log, image, rows) && forall u, l | u in Undone(log) && l in image :: Fits(NetOf(log, u, l), rows, l) {
      forall order | Visits(order, log) ensures LiveRows(RecoverIn(image, log, order)) == rows {
        RecoversWhenFits(log, image, rows, order);
      }
    }
  }

  /**
   Recovery leaves the indexes alone. One that agreed with the table before agrees with it afterwards if and
   only if what is undone kills no row, brings none back and gives none another key.
   */
  lemma IndexAfterRecovery(log: Log, image: Slots, order: seq<nat>, def: IndexDef, idx: Index)
    requires Agrees(LiveRows(image), def, idx)
    ensures Agrees(LiveRows(RecoverIn(image, log, order)), def, idx) <==>
              forall l: Loc | l in image && l.table == def.table ::
                var s, s' := image[l], Apply(NetIn(log, order, l), image[l]);
                s'.deleted == s.deleted && (!s.deleted ==> def.key(s'.row) == def.key(s.row))
  {
    hide RecoverIn, NetIn, Apply, Agrees;
    var after := RecoverIn(image, log, order);
    AgreesStill(LiveRows(image), LiveRows(after), def, idx);
    forall l ensures after.Keys == image.Keys && (l in image ==> after[l] == Apply(NetIn(log, order, l), image[l])) {
      NetRecover(image, log, order, l);
    }
    assert forall l :: l in after <==> l in after.Keys;
    if SameKeys(LiveRows(image), LiveRows(after), def) {
      forall l: Loc | l in image && l.table == def.table
        ensures after[l].deleted == image[l].deleted && (!image[l].deleted ==> def.key(after[l].row) == def.key(image[l].row))
      {
        assert l in LiveRows(image) <==> l in LiveRows(after);
      }
    }
  }
}
