/**
 Whole lives of a database: runs of transactions, the crash images they can leave, and what the recovery at
 the next start makes of those. The log is never cut short, and ids start at 1 again in every run.
 */
module CrashRuns {
  import opened Options
  import opened Transactions
  import opened Recovery

  /**
   The state of a run: the slots in memory, the logs of the runs before and of this one, the next transaction
   id and the active transaction (0 for none), the rows as of the last commit, and for every slot the values
   that a crash may find on disk: those it took on since a committed transaction last wrote it, or since
   this run found it at its start.
   */
  datatype Run = Run(slots: Slots, past: seq<Log>, log: Log, next: nat, active: nat,
                     rows: map<Loc, Bytes>, held: map<Loc, set<Slot>>)

  datatype Op = BeginOp | WriteOp(change: Change, slot: Slot) | CommitOp | RollbackOp | RestartOp(image: Slots, order: seq<nat>)

  function Start(slots: Slots): Run {
    Run(slots, [], [], 1, 0, LiveRows(slots), map l | l in slots :: {slots[l]})
  }

  function Joined(logs: seq<Log>): Log {
    if logs == [] then [] else Joined(logs[..|logs| - 1]) + logs[|logs| - 1]
  }

  /** The log file. */
  function Whole(r: Run): Log {
    Joined(r.past) + r.log
  }

  function Held(r: Run, l: Loc): set<Slot> {
    if l in r.held then r.held[l] else {}
  }

  predicate Writes(log: Log, txn: nat, l: Loc) {
    exists i | 0 <= i < |log| :: log[i].Changed? && log[i].txn == txn && log[i].change.loc == l
  }

  ghost predicate InsertedByUndone(log: Log, l: Loc) {
    exists u | u in Undone(log) :: NetOf(log, u, l).deleted == Some(true)
  }

  /**
   A crash may leave any value a slot took on since a committed transaction last wrote it, and anything at
   all where a transaction of this run without a commit added a row.
   */
  ghost predicate Plausible(image: Slots, r: Run) {
    && image.Keys == r.slots.Keys
    && forall l | l in r.slots :: image[l] in Held(r, l) || InsertedByUndone(r.log, l)
  }

  /** The values slot `l` takes on while the changes are undone, the last one first. */
  function Trail(slots: Slots, changes: seq<Change>, l: Loc): set<Slot>
    decreases |changes|
  {
    (if l in slots then {slots[l]} else {}) +
    if changes == [] then {} else Trail(Undo(slots, changes[|changes| - 1]), changes[..|changes| - 1], l)
  }

  /** The values it takes on during a whole recovery. */
  function TrailIn(slots: Slots, log: Log, order: seq<nat>, l: Loc): set<Slot>
    decreases |order|
  {
    if order == [] then Trail(slots, [], l)
    else Trail(slots, ChangesOf(log, order[0]), l) + TrailIn(UndoAll(slots, ChangesOf(log, order[0])), log, order[1..], l)
  }

  /** One operation. What is not possible in the state leaves it alone. */
  ghost function Step(r: Run, op: Op): Run {
    match op
    case BeginOp =>
      if r.active != 0 then r
      else r.(log := r.log + [Begin(r.next)], next := r.next + 1, active := r.next)
    case WriteOp(c, s) =>
      if r.active == 0 || !Does(r.slots, c, r.slots[c.loc := s]) then r
      else r.(slots := r.slots[c.loc := s], log := r.log + [Changed(r.active, c)],
              held := r.held[c.loc := Held(r, c.loc) + {s}])
    case CommitOp =>
      if r.active == 0 then r
      else r.(log := r.log + [Commit(r.active)], active := 0, rows := LiveRows(r.slots),
              held := map l | l in r.slots :: if Writes(r.log, r.active, l) then {r.slots[l]} else Held(r, l))
    case RollbackOp =>
      if r.active == 0 then r
      else
        var slots := UndoAll(r.slots, ChangesOf(r.log, r.active));
        r.(slots := slots, log := r.log + [Rollback(r.active)], active := 0,
           held := map l | l in slots :: Held(r, l) + {slots[l]})
    case RestartOp(image, order) =>
      if !Plausible(image, r) || !Visits(order, Whole(r)) then r
      else
        var slots := RecoverIn(image, Whole(r), order);
        Run(slots, r.past + [r.log], [], 1, 0, r.rows, map l | l in slots :: TrailIn(image, Whole(r), order, l))
  }

  ghost function RunOf(slots: Slots, ops: seq<Op>): Run {
    if ops == [] then Start(slots) else Step(RunOf(slots, ops[..|ops| - 1]), ops[|ops| - 1])
  }

  // --- What every run keeps ----------------------------------------------------------------------------------

  /** In one run, ids are handed out in order, one transaction at a time, and a commit ends its transaction. */
  ghost predicate IdsInOrder(r: Run) {
    && r.next >= 1 && r.active < r.next
    && (forall i | 0 <= i < |r.log| :: r.log[i].txn < r.next && r.log[i].txn != 0)
    && (r.active != 0 ==> forall i | 0 <= i < |r.log| :: r.log[i].txn <= r.active && r.log[i] != Commit(r.active))
    && (forall i, j | 0 <= i < j < |r.log| :: r.log[i].txn <= r.log[j].txn)
  }

  ghost predicate SlotsKnown(r: Run) {
    && r.held.Keys == r.slots.Keys
    && (forall l | l in r.slots :: r.slots[l] in r.held[l])
    && (forall l | l in r.rows :: l in r.slots)
    && (forall i | 0 <= i < |Whole(r)| && Whole(r)[i].Changed? :: Whole(r)[i].change.loc in r.slots)
  }

  /** Undoing the active transaction would show the committed rows. */
  ghost predicate ActiveUndoes(r: Run, l: Loc)
    requires l in r.slots
  {
    var e := NetOf(r.log, r.active, l);
    && Shows(if r.active == 0 then r.slots[l] else Apply(e, r.slots[l]), r.rows, l)
    && (r.active != 0 && e == Effect(None, Some(false)) ==> r.slots[l].deleted)
  }

  /** What a crash may leave in the slot is right in so far as recovery does not set it. */
  ghost predicate HeldFits(r: Run, l: Loc)
    requires l in r.held
  {
    && (!Touched(Whole(r), l) ==> forall v | v in r.held[l] :: Shows(v, r.rows, l))
    && (!Rewritten(Whole(r), l) && l in r.rows ==> forall v | v in r.held[l] :: v.row == r.rows[l])
  }

  /** A row that an undone transaction inserted is dead and stays dead. */
  ghost predicate InsertsDead(r: Run, u: nat, l: Loc) {
    NetOf(r.log, u, l).deleted == Some(true) ==>
      l !in r.rows && l in r.slots && (u != r.active ==> r.slots[l].deleted)
  }

  /** A committed transaction wrote the slot after `u` did. */
  predicate Overwritten(log: Log, u: nat, l: Loc) {
    exists i, j | 0 <= i < j < |log| ::
      && log[i].Changed? && log[i].txn == u && log[i].change.loc == l
      && log[j].Changed? && log[j].txn in Committed(log) && log[j].change.loc == l
  }

  ghost predicate FitsUnlessOverwritten(r: Run, u: nat, l: Loc) {
    Overwritten(Whole(r), u, l) || Fits(NetOf(Whole(r), u, l), r.rows, l)
  }

  /** In the run with that log, transaction `u` wrote the slot and did not commit. */
  predicate LeftBy(log: Log, u: nat, l: Loc) {
    Writes(log, u, l) && u !in Committed(log)
  }

  predicate Unsettled(r: Run, u: nat, l: Loc) {
    LeftBy(r.log, u, l) || exists k | 0 <= k < |r.past| :: LeftBy(r.past[k], u, l)
  }

  /** A transaction wrote the slot and did not commit, but another one with its id did, in another run. */
  predicate Hidden(r: Run, l: Loc) {
    exists u | u in Committed(Whole(r)) :: Unsettled(r, u, l)
  }

  ghost predicate Inv(r: Run) {
    && IdsInOrder(r) && SlotsKnown(r)
    && (forall l | l in r.slots :: ActiveUndoes(r, l) && (Hidden(r, l) || HeldFits(r, l)))
    && (forall u, l | u in Undone(r.log) :: InsertsDead(r, u, l))
    && (forall u, l | u in Undone(Whole(r)) :: FitsUnlessOverwritten(r, u, l))
  }

  // --- How the log grows -----------------------------------------------------------------------------------------

  lemma ChangesOfSnoc(log: Log, x: Record, u: nat)
    ensures ChangesOf(log + [x], u) == ChangesOf(log, u) + if x.Changed? && x.txn == u then [x.change] else []
  {
    assert (log + [x])[..|log|] == log;
  }

  lemma NetSnoc(log: Log, x: Record, u: nat, l: Loc)
    ensures NetOf(log + [x], u, l)
         == if x.Changed? && x.txn == u then Over(NetOf(log, u, l), EffectOf(x.change, l)) else NetOf(log, u, l)
  {
    ChangesOfSnoc(log, x, u);
    var cs := ChangesOf(log, u);
    if x.Changed? && x.txn == u {
      assert (cs + [x.change])[..|cs|] == cs;
    } else {
      assert cs + [] == cs;
    }
  }

  lemma NetOfNothing(u: nat, l: Loc)
    ensures NetOf([], u, l) == KEEP
  {
  }

  lemma OverInTurn(a: Effect, b: Effect, c: Effect)
    ensures Over(Over(a, b), c) == Over(a, Over(b, c)) && Over(a, KEEP) == a
  {
  }

  /** What is undone last has the last word: the older log's changes. */
  lemma {:induction false} NetJoin(a: Log, b: Log, u: nat, l: Loc)
    ensures NetOf(a + b, u, l) == Over(NetOf(a, u, l), NetOf(b, u, l))
  {
    hide NetOf, Over, EffectOf;
    if b == [] {
      assert a + b == a;
      NetOfNothing(u, l);
      OverInTurn(NetOf(a, u, l), KEEP, KEEP);
    } else {
      var n := |b| - 1;
      if b[n].Changed? {
        OverInTurn(NetOf(a, u, l), NetOf(b[..n], u, l), EffectOf(b[n].change, l));
      }
      NetJoin(a, b[..n], u, l);
      NetSnoc(a + b[..n], b[n], u, l);
      NetSnoc(b[..n], b[n], u, l);
      assert a + b == (a + b[..n]) + [b[n]] && b == b[..n] + [b[n]];
    }
  }

  lemma CommittedSnoc(log: Log, x: Record)
    ensures Committed(log + [x]) == Committed(log) + if x.Commit? then {x.txn} else {}
  {
    forall u ensures u in Committed(log + [x]) <==> u in Committed(log) || (x.Commit? && u == x.txn) {
      assert forall y :: y in log + [x] <==> y in log || y == x;
      if u in Committed(log) { assert Commit(u) in log + [x]; }
      if x.Commit? && u == x.txn { assert x in log + [x]; }
    }
  }

  lemma UndoneSnoc(log: Log, x: Record)
    ensures Undone(log + [x]) == Undone(log) + (if x.Changed? && x.txn !in Committed(log) then {x.txn} else {})
                                             - (if x.Commit? then {x.txn} else {})
  {
    CommittedSnoc(log, x);
    assert forall y :: y in log + [x] <==> y in log || y == x;
    forall u ensures u in Undone(log + [x]) <==>
      (u in Undone(log) || (x.Changed? && x.txn !in Committed(log) && u == x.txn)) && !(x.Commit? && u == x.txn)
    {
      if u in Undone(log) && !(x.Commit? && u == x.txn) {
        var y :| y in log && y.Changed? && y.txn == u;
        assert y in log + [x];
      }
      if x.Changed? && x.txn !in Committed(log) && u == x.txn { assert x in log + [x]; }
    }
  }

  lemma WritesSnoc(log: Log, x: Record, u: nat, l: Loc)
    ensures Writes(log + [x], u, l) <==> Writes(log, u, l) || (x.Changed? && x.txn == u && x.change.loc == l)
  {
    assert (log + [x])[|log|] == x;
    if i :| 0 <= i < |log| && log[i].Changed? && log[i].txn == u && log[i].change.loc == l {
      assert (log + [x])[i] == log[i];
    }
  }

  lemma {:induction false} NetKeeps(log: Log, u: nat, l: Loc)
    ensures NetOf(log, u, l) == KEEP <==> !Writes(log, u, l)
  {
    if log != [] {
      var n := |log| - 1;
      var log0, x := log[..n], log[n];
      assert log == log0 + [x];
      NetSnoc(log0, x, u, l);
      WritesSnoc(log0, x, u, l);
      NetKeeps(log0, u, l);
    }
  }

  lemma OverwrittenSnoc(log: Log, x: Record, u: nat, l: Loc)
    requires Overwritten(log, u, l)
    ensures Overwritten(log + [x], u, l)
  {
    CommittedSnoc(log, x);
    var i, j :| 0 <= i < j < |log| &&
      log[i].Changed? && log[i].txn == u && log[i].change.loc == l &&
      log[j].Changed? && log[j].txn in Committed(log) && log[j].change.loc == l;
    assert (log + [x])[i] == log[i] && (log + [x])[j] == log[j];
  }

  lemma OverwrittenStays(log: Log, x: Record)
    ensures forall u, l :: Overwritten(log, u, l) ==> Overwritten(log + [x], u, l)
  {
    forall u, l | Overwritten(log, u, l) ensures Overwritten(log + [x], u, l) { OverwrittenSnoc(log, x, u, l); }
  }

  lemma Untouched(log: Log, u: nat, l: Loc)
    requires u !in Undone(log) && u !in Committed(log)
    ensures NetOf(log, u, l) == KEEP
  {
    NetKeeps(log, u, l);
    assert forall i | 0 <= i < |log| :: log[i] in log;
  }

  lemma UndoneByWrite(log: Log, u: nat, l: Loc)
    requires Writes(log, u, l) && u !in Committed(log)
    ensures u in Undone(log) && NetOf(log, u, l) != KEEP
  {
    NetKeeps(log, u, l);
    var i :| 0 <= i < |log| && log[i].Changed? && log[i].txn == u && log[i].change.loc == l;
    assert log[i] in log;
  }

  /** Only what the record itself changes can change which transactions are to be undone at `l`. */
  lemma TouchedSnoc(log: Log, x: Record, l: Loc)
    requires x.Changed? ==> x.change.loc != l
    requires x.Commit? ==> x.txn in Committed(log) || NetOf(log, x.txn, l) == KEEP
    ensures Touched(log + [x], l) == Touched(log, l) && Rewritten(log + [x], l) == Rewritten(log, l)
  {
    hide ChangesOf, Net, NetOf, Committed, Undone;
    UndoneSnoc(log, x);
    forall u ensures NetOf(log + [x], u, l) == NetOf(log, u, l) {
      NetSnoc(log, x, u, l);
    }
    NotBoth(log);
    if x.Changed? && x.txn !in Undone(log) && x.txn !in Committed(log) {
      Untouched(log, x.txn, l);
    }
  }

  lemma NotBoth(log: Log)
    ensures Undone(log) !! Committed(log)
  {
  }

  // --- The logs of several runs -------------------------------------------------------------------------------

  lemma WholeSnoc(past: seq<Log>, log: Log, x: Record)
    ensures Joined(past) + (log + [x]) == (Joined(past) + log) + [x]
  {
  }

  lemma JoinedSnoc(past: seq<Log>, log: Log)
    ensures Joined(past + [log]) + [] == Joined(past) + log
  {
    assert (past + [log])[..|past|] == past;
  }

  lemma CommittedJoin(a: Log, b: Log)
    ensures Committed(a + b) == Committed(a) + Committed(b)
  {
    forall u ensures u in Committed(a + b) <==> u in Committed(a) || u in Committed(b) {
      if u in Committed(a + b) { assert Commit(u) in a || Commit(u) in b; }
      if u in Committed(a) || u in Committed(b) { assert Commit(u) in a + b; }
    }
  }

  lemma WritesJoin(a: Log, b: Log, u: nat, l: Loc)
    ensures Writes(a + b, u, l) <==> Writes(a, u, l) || Writes(b, u, l)
  {
    NetJoin(a, b, u, l);
    NetKeeps(a, u, l);
    NetKeeps(b, u, l);
    NetKeeps(a + b, u, l);
  }

  /** A transaction without a commit anywhere is left by every run in which it wrote. */
  lemma {:induction false} JoinedLeft(logs: seq<Log>, u: nat, l: Loc)
    ensures (exists k | 0 <= k < |logs| :: LeftBy(logs[k], u, l)) ==> Writes(Joined(logs), u, l)
    ensures Writes(Joined(logs), u, l) && u !in Committed(Joined(logs)) ==>
              exists k | 0 <= k < |logs| :: LeftBy(logs[k], u, l)
  {
    if logs != [] {
      var n := |logs| - 1;
      hide Writes, Committed;
      JoinedLeft(logs[..n], u, l);
      WritesJoin(Joined(logs[..n]), logs[n], u, l);
      CommittedJoin(Joined(logs[..n]), logs[n]);
      if k :| 0 <= k < n && LeftBy(logs[..n][k], u, l) {
        assert LeftBy(logs[k], u, l);
      }
      if k :| 0 <= k < n && LeftBy(logs[k], u, l) {
        assert LeftBy(logs[..n][k], u, l);
      }
    }
  }

  lemma UnsettledWrites(r: Run, u: nat, l: Loc)
    ensures Unsettled(r, u, l) ==> Writes(Whole(r), u, l)
    ensures Writes(Whole(r), u, l) && u !in Committed(Whole(r)) ==> Unsettled(r, u, l)
  {
    hide Writes, Committed;
    JoinedLeft(r.past, u, l);
    WritesJoin(Joined(r.past), r.log, u, l);
    CommittedJoin(Joined(r.past), r.log);
  }

  lemma LeftSnoc(log: Log, x: Record, u: nat, l: Loc)
    requires LeftBy(log, u, l) && x != Commit(u)
    ensures LeftBy(log + [x], u, l)
  {
    WritesSnoc(log, x, u, l);
    CommittedSnoc(log, x);
  }

  /** What is hidden stays hidden, unless its own transaction commits. */
  lemma HiddenGrows(r: Run, r': Run, x: Record, l: Loc)
    requires r'.past == r.past && r'.log == r.log + [x]
    requires x.Commit? ==> !Writes(r.log, x.txn, l)
    ensures Hidden(r, l) ==> Hidden(r', l)
  {
    hide Writes, Committed;
    if u :| u in Committed(Whole(r)) && Unsettled(r, u, l) {
      WholeSnoc(r.past, r.log, x);
      CommittedSnoc(Whole(r), x);
      if LeftBy(r.log, u, l) {
        LeftSnoc(r.log, x, u, l);
      }
      assert Unsettled(r', u, l);
    }
  }

  lemma ActiveNotCommitted(r: Run)
    requires IdsInOrder(r) && r.active != 0
    ensures r.active !in Committed(r.log)
  {
  }

  lemma NewIdUnused(r: Run, l: Loc)
    requires Inv(r)
    ensures NetOf(r.log, r.next, l) == KEEP
  {
    NetKeeps(r.log, r.next, l);
  }

  lemma IdsKept(r: Run, op: Op)
    requires IdsInOrder(r)
    ensures IdsInOrder(Step(r, op))
  {
    hide ChangesOf, UndoAll, LiveRows, Does, Writes, Plausible, Visits, TrailIn, RecoverIn;
  }

  lemma SlotsKept(r: Run, op: Op)
    requires SlotsKnown(r) && !op.RestartOp?
    ensures SlotsKnown(Step(r, op))
  {
    hide ChangesOf, UndoAll, Writes, Joined;
    if op.RollbackOp? && r.active != 0 {
      NetUndo(r.slots, ChangesOf(r.log, r.active), Loc("", 0, 0));
    }
    var r' := Step(r, op);
    if |r'.log| > |r.log| {
      var x := r'.log[|r.log|];
      WholeSnoc(r.past, r.log, x);
      assert r'.log == r.log + [x];
      assert Whole(r') == Whole(r) + [x];
      forall i | 0 <= i < |Whole(r')| && Whole(r')[i].Changed? ensures Whole(r')[i].change.loc in r'.slots {
        assert i < |Whole(r)| ==> Whole(r')[i] == Whole(r)[i];
      }
    }
  }

  // --- What the invariant says of one slot and of one transaction ------------------------------------------------

  lemma At(r: Run, l: Loc)
    requires Inv(r) && l in r.slots
    ensures l in r.held && ActiveUndoes(r, l) && (Hidden(r, l) || HeldFits(r, l))
    ensures Held(r, l) == r.held[l] && r.slots[l] in r.held[l]
  {
  }

  lemma Of(r: Run, u: nat, l: Loc)
    requires Inv(r)
    ensures u in Undone(r.log) ==> InsertsDead(r, u, l)
    ensures u in Undone(Whole(r)) ==> FitsUnlessOverwritten(r, u, l)
  {
  }

  lemma Ordered(r: Run)
    requires Inv(r)
    ensures IdsInOrder(r)
  {
  }

  lemma RowsHaveSlots(r: Run, l: Loc)
    requires Inv(r)
    ensures l in r.rows ==> l in r.slots
  {
  }

  lemma StillActive(r: Run)
    requires Inv(r) && r.active != 0
    ensures r.active !in Committed(r.log)
  {
    ActiveNotCommitted(r);
  }

  /** No transaction has touched a slot that does not exist yet. */
  lemma FreshUnwritten(r: Run, u: nat, l: Loc)
    requires Inv(r)
    ensures l !in r.slots ==> NetOf(Whole(r), u, l) == KEEP
  {
    NetKeeps(Whole(r), u, l);
  }

  /** What is to be undone at `l`, in the whole log, includes what is in this run's. */
  lemma NetWhole(r: Run, u: nat, l: Loc)
    ensures NetOf(Whole(r), u, l) == Over(NetOf(Joined(r.past), u, l), NetOf(r.log, u, l))
  {
    NetJoin(Joined(r.past), r.log, u, l);
  }

  // --- Every operation keeps the invariant ----------------------------------------------------------------------

  /** An operation that leaves the slot, its held values and its row alone, and only adds a record about others. */
  lemma QuietAt(r: Run, r': Run, x: Record, l: Loc)
    requires Inv(r) && l in r.slots && r'.past == r.past && r'.log == r.log + [x]
    requires l in r'.held && r'.held[l] == Held(r, l)
    requires (l in r'.rows <==> l in r.rows) && (l in r.rows ==> r'.rows[l] == r.rows[l])
    requires x.Changed? ==> x.change.loc != l
    requires x.Commit? ==> !Writes(r.log, x.txn, l)
    ensures Hidden(r', l) || HeldFits(r', l)
  {
    hide Inv, ChangesOf, Net, NetOf, Touched, Rewritten, Writes, Committed, Hidden;
    At(r, l);
    WholeSnoc(r.past, r.log, x);
    HiddenGrows(r, r', x, l);
    if x.Commit? && x.txn !in Committed(Whole(r)) && NetOf(Whole(r), x.txn, l) != KEEP {
      CommitHides(r, r', x.txn, l);
    } else {
      TouchedSnoc(Whole(r), x, l);
    }
  }

  /** A commit hides what an earlier run's transaction of the same id wrote and never committed. */
  lemma CommitHides(r: Run, r': Run, u: nat, l: Loc)
    requires r'.past == r.past && r'.log == r.log + [Commit(u)]
    requires u !in Committed(Whole(r)) && NetOf(Whole(r), u, l) != KEEP && !Writes(r.log, u, l)
    ensures Hidden(r', l)
  {
    hide Committed, ChangesOf, Net, NetOf;
    NetKeeps(Whole(r), u, l);
    hide Writes;
    UnsettledWrites(r, u, l);
    WholeSnoc(r.past, r.log, Commit(u));
    CommittedSnoc(Whole(r), Commit(u));
    assert Unsettled(r', u, l);
  }

  lemma BeginKeepsAt(r: Run, l: Loc)
    requires Inv(r) && r.active == 0 && l in r.slots
    ensures ActiveUndoes(Step(r, BeginOp), l)
  {
    hide Inv, ChangesOf, Net, NetOf;
    At(r, l);
    NewIdUnused(r, l);
    NetSnoc(r.log, Begin(r.next), r.next, l);
  }

  /** A record that is neither a change nor a commit leaves what undone transactions put back alone. */
  lemma MarkFits(r: Run, r': Run, x: Record, u: nat, l: Loc)
    requires Inv(r) && r'.past == r.past && r'.log == r.log + [x] && r'.rows == r.rows && !x.Changed? && !x.Commit?
    requires u in Undone(Whole(r'))
    ensures FitsUnlessOverwritten(r', u, l)
  {
    hide Inv, ChangesOf, Net, NetOf, Undone, Committed, Overwritten;
    WholeSnoc(r.past, r.log, x);
    UndoneSnoc(Whole(r), x);
    Of(r, u, l);
    NetSnoc(Whole(r), x, u, l);
    OverwrittenStays(Whole(r), x);
  }

  lemma BeginKeeps(r: Run)
    requires Inv(r) && r.active == 0
    ensures Inv(Step(r, BeginOp))
  {
    var r', x := Step(r, BeginOp), Begin(r.next);
    IdsKept(r, BeginOp);
    SlotsKept(r, BeginOp);
    hide ChangesOf, Net, NetOf, Undone, Committed, IdsInOrder, SlotsKnown, ActiveUndoes, HeldFits, Hidden,
         FitsUnlessOverwritten;
    forall l | l in r.slots ensures l in r'.held && ActiveUndoes(r', l) && (Hidden(r', l) || HeldFits(r', l)) {
      At(r, l);
      BeginKeepsAt(r, l);
      QuietAt(r, r', x, l);
    }
    UndoneSnoc(r.log, x);
    forall u, l | u in Undone(r'.log) ensures InsertsDead(r', u, l) {
      Of(r, u, l);
      NetSnoc(r.log, x, u, l);
    }
    forall u, l | u in Undone(Whole(r')) ensures FitsUnlessOverwritten(r', u, l) {
      MarkFits(r, r', x, u, l);
    }
  }

  lemma RolledBackSlots(r: Run, l: Loc)
    requires r.active != 0
    ensures Step(r, RollbackOp).slots.Keys == r.slots.Keys
    ensures l in r.slots ==> Step(r, RollbackOp).slots[l] == Apply(NetOf(r.log, r.active, l), r.slots[l])
  {
    NetUndo(r.slots, ChangesOf(r.log, r.active), l);
  }

  /** What the active transaction wrote is undone, or hidden by an earlier commit of its id. */
  lemma ActiveTouches(r: Run, l: Loc)
    requires Inv(r) && r.active != 0 && NetOf(r.log, r.active, l) != KEEP && !Hidden(r, l)
    ensures Touched(Whole(r), l) && (NetOf(r.log, r.active, l).row.Some? ==> Rewritten(Whole(r), l))
  {
    hide ChangesOf, Net, Committed;
    StillActive(r);
    NetKeeps(r.log, r.active, l);
    NetWhole(r, r.active, l);
    hide NetOf, Writes, Inv;
    assert Unsettled(r, r.active, l);
    UnsettledWrites(r, r.active, l);
    UndoneByWrite(Whole(r), r.active, l);
  }

  lemma RollbackKeepsAt(r: Run, l: Loc)
    requires Inv(r) && r.active != 0 && l in r.slots
    ensures l in Step(r, RollbackOp).slots && l in Step(r, RollbackOp).held
    ensures ActiveUndoes(Step(r, RollbackOp), l)
    ensures Hidden(Step(r, RollbackOp), l) || HeldFits(Step(r, RollbackOp), l)
  {
    hide Inv, ChangesOf, Net, NetOf, Touched, Rewritten, UndoAll, Writes, Committed, Hidden;
    var r', x := Step(r, RollbackOp), Rollback(r.active);
    At(r, l);
    RolledBackSlots(r, l);
    HiddenGrows(r, r', x, l);
    WholeSnoc(r.past, r.log, x);
    TouchedSnoc(Whole(r), x, l);
    if !Hidden(r, l) && NetOf(r.log, r.active, l) != KEEP {
      ActiveTouches(r, l);
    }
  }

  /** Undoing the active transaction leaves the dead rows of others dead. */
  lemma DeadStaysDead(r: Run, u: nat, l: Loc)
    requires Inv(r) && r.active != 0 && u in Undone(r.log)
    ensures NetOf(r.log, u, l).deleted == Some(true) ==>
              l in r.slots && Apply(NetOf(r.log, r.active, l), r.slots[l]).deleted
  {
    hide Inv, ChangesOf, Net, NetOf;
    Of(r, u, l);
    if l in r.slots {
      At(r, l);
    }
  }

  lemma RollbackDead(r: Run, u: nat, l: Loc)
    requires Inv(r) && r.active != 0 && u in Undone(r.log)
    ensures InsertsDead(Step(r, RollbackOp), u, l)
  {
    hide Inv, ChangesOf, Net, NetOf, UndoAll, Undone, Committed, Apply;
    Of(r, u, l);
    DeadStaysDead(r, u, l);
    RolledBackSlots(r, l);
    NetSnoc(r.log, Rollback(r.active), u, l);
  }

  lemma RollbackKeeps(r: Run)
    requires Inv(r) && r.active != 0
    ensures Inv(Step(r, RollbackOp))
  {
    hide ChangesOf, Net, NetOf, UndoAll, Undone, Committed, IdsInOrder, SlotsKnown, ActiveUndoes, HeldFits, Apply,
         InsertsDead, FitsUnlessOverwritten, Hidden;
    var r' := Step(r, RollbackOp);
    IdsKept(r, RollbackOp);
    SlotsKept(r, RollbackOp);
    RolledBackSlots(r, Loc("", 0, 0));
    forall l | l in r.slots ensures l in r'.held && ActiveUndoes(r', l) && (Hidden(r', l) || HeldFits(r', l)) {
      RollbackKeepsAt(r, l);
    }
    UndoneSnoc(r.log, Rollback(r.active));
    forall u, l | u in Undone(r'.log) ensures InsertsDead(r', u, l) {
      RollbackDead(r, u, l);
    }
    forall u, l | u in Undone(Whole(r')) ensures FitsUnlessOverwritten(r', u, l) {
      MarkFits(r, r', Rollback(r.active), u, l);
    }
  }

  /** A slot the committing transaction did not write shows the rows as they were. */
  lemma CommitLeaves(r: Run, l: Loc)
    requires Inv(r) && r.active != 0 && !Writes(r.log, r.active, l)
    ensures l in r.rows <==> l in LiveRows(r.slots)
    ensures l in r.rows ==> r.rows[l] == LiveRows(r.slots)[l]
  {
    RowsHaveSlots(r, l);
    hide Inv, ChangesOf, Net;
    NetKeeps(r.log, r.active, l);
    if l in r.slots {
      At(r, l);
    }
  }

  lemma CommitKeepsAt(r: Run, l: Loc)
    requires Inv(r) && r.active != 0 && l in r.slots
    ensures l in Step(r, CommitOp).held && ActiveUndoes(Step(r, CommitOp), l)
    ensures Hidden(Step(r, CommitOp), l) || HeldFits(Step(r, CommitOp), l)
  {
    hide Inv, ChangesOf, Net, NetOf, Touched, Rewritten, Writes, Hidden;
    At(r, l);
    if !Writes(r.log, r.active, l) {
      CommitLeaves(r, l);
      QuietAt(r, Step(r, CommitOp), Commit(r.active), l);
    }
  }

  lemma CommitDead(r: Run, u: nat, l: Loc)
    requires Inv(r) && r.active != 0 && u in Undone(r.log) && u != r.active
    ensures InsertsDead(Step(r, CommitOp), u, l)
  {
    hide Inv, ChangesOf, Net, NetOf, Undone, Committed, Writes;
    Of(r, u, l);
    NetSnoc(r.log, Commit(r.active), u, l);
  }

  /** If the committing transaction wrote the slot, it did so after every transaction undone before it. */
  lemma CommitOverwrites(r: Run, u: nat, l: Loc)
    requires IdsInOrder(r) && r.active != 0 && u != r.active
    requires Writes(Whole(r), u, l) && Writes(r.log, r.active, l)
    ensures Overwritten(Whole(r) + [Commit(r.active)], u, l)
  {
    CommittedSnoc(Whole(r), Commit(r.active));
    var log, n := Whole(r), |Joined(r.past)|;
    var i :| 0 <= i < |log| && log[i].Changed? && log[i].txn == u && log[i].change.loc == l;
    var j :| 0 <= j < |r.log| && r.log[j].Changed? && r.log[j].txn == r.active && r.log[j].change.loc == l;
    assert log[n + j] == r.log[j];
    assert i < n + j by {
      if i >= n { assert log[i] == r.log[i - n]; }
    }
    var log' := log + [Commit(r.active)];
    assert log'[i] == log[i] && log'[n + j] == log[n + j];
  }

  lemma CommitFits(r: Run, u: nat, l: Loc)
    requires Inv(r) && r.active != 0 && u in Undone(Whole(r)) && u != r.active
    ensures FitsUnlessOverwritten(Step(r, CommitOp), u, l)
  {
    hide Inv, ChangesOf, Net, NetOf, Undone, Committed, Overwritten, Writes, IdsInOrder, LiveRows;
    Ordered(r);
    NetKeeps(Whole(r), u, l);
    Of(r, u, l);
    WholeSnoc(r.past, r.log, Commit(r.active));
    NetSnoc(Whole(r), Commit(r.active), u, l);
    OverwrittenStays(Whole(r), Commit(r.active));
    if !Writes(r.log, r.active, l) {
      CommitLeaves(r, l);
    } else if Writes(Whole(r), u, l) {
      CommitOverwrites(r, u, l);
    }
  }

  lemma CommitKeeps(r: Run)
    requires Inv(r) && r.active != 0
    ensures Inv(Step(r, CommitOp))
  {
    var r' := Step(r, CommitOp);
    IdsKept(r, CommitOp);
    SlotsKept(r, CommitOp);
    hide ChangesOf, Net, NetOf, Undone, Committed, IdsInOrder, SlotsKnown, ActiveUndoes, HeldFits, Hidden,
         InsertsDead, FitsUnlessOverwritten;
    forall l | l in r.slots ensures l in r'.held && ActiveUndoes(r', l) && (Hidden(r', l) || HeldFits(r', l)) {
      CommitKeepsAt(r, l);
    }
    UndoneSnoc(r.log, Commit(r.active));
    forall u, l | u in Undone(r'.log) ensures InsertsDead(r', u, l) {
      CommitDead(r, u, l);
    }
    WholeSnoc(r.past, r.log, Commit(r.active));
    UndoneSnoc(Whole(r), Commit(r.active));
    forall u, l | u in Undone(Whole(r')) ensures FitsUnlessOverwritten(r', u, l) {
      CommitFits(r, u, l);
    }
  }

  /** Undoing a change that was just made takes the slot back to what undoing the rest would have shown. */
  lemma WriteUndoes(r: Run, c: Change, s: Slot, l: Loc)
    requires Inv(r) && r.active != 0 && Does(r.slots, c, r.slots[c.loc := s])
    requires l in Step(r, WriteOp(c, s)).slots
    ensures l in Step(r, WriteOp(c, s)).held && ActiveUndoes(Step(r, WriteOp(c, s)), l)
  {
    hide Inv, ChangesOf, Net, NetOf;
    NetSnoc(r.log, Changed(r.active, c), r.active, l);
    if l in r.slots {
      At(r, l);
    } else {
      RowsHaveSlots(r, l);
      FreshUnwritten(r, r.active, l);
      NetWhole(r, r.active, l);
    }
  }

  /** The slot just written is to be undone, or hidden by an earlier commit of the same id. */
  lemma WriteTouches(r: Run, c: Change, r': Run)
    requires Inv(r) && r.active != 0 && r'.past == r.past && r'.log == r.log + [Changed(r.active, c)]
    ensures Hidden(r', c.loc) || (Touched(Whole(r'), c.loc) && (c.Updated? ==> Rewritten(Whole(r'), c.loc)))
  {
    hide Inv, ChangesOf, Net, NetOf, Undone, Committed, Writes;
    var x, l := Changed(r.active, c), c.loc;
    StillActive(r);
    WritesSnoc(r.log, x, r.active, l);
    CommittedSnoc(r.log, x);
    WholeSnoc(r.past, r.log, x);
    CommittedSnoc(Whole(r), x);
    assert Unsettled(r', r.active, l);
    if r.active !in Committed(Whole(r)) {
      UnsettledWrites(r', r.active, l);
      UndoneByWrite(Whole(r'), r.active, l);
      NetSnoc(Whole(r), x, r.active, l);
    }
  }

  lemma RewrittenGrows(log: Log, x: Record, l: Loc)
    requires x.Changed?
    ensures Rewritten(log, l) ==> Rewritten(log + [x], l)
  {
    hide ChangesOf, Net, NetOf, Undone, Committed;
    UndoneSnoc(log, x);
    forall u ensures NetOf(log, u, l).row.Some? ==> NetOf(log + [x], u, l).row.Some? {
      NetSnoc(log, x, u, l);
    }
  }

  lemma WriteKeepsAt(r: Run, c: Change, s: Slot, l: Loc)
    requires Inv(r) && r.active != 0 && Does(r.slots, c, r.slots[c.loc := s])
    requires l in Step(r, WriteOp(c, s)).slots
    ensures l in Step(r, WriteOp(c, s)).held
    ensures Hidden(Step(r, WriteOp(c, s)), l) || HeldFits(Step(r, WriteOp(c, s)), l)
  {
    hide Inv, ChangesOf, Net, NetOf, Touched, Rewritten, Hidden, Writes, Committed;
    var r', x := Step(r, WriteOp(c, s)), Changed(r.active, c);
    if l != c.loc {
      At(r, l);
      QuietAt(r, r', x, l);
    } else {
      WriteTouches(r, c, r');
      HiddenGrows(r, r', x, l);
      WholeSnoc(r.past, r.log, x);
      RewrittenGrows(Whole(r), x, l);
      RowsHaveSlots(r, l);
      if l in r.slots {
        At(r, l);
      }
    }
  }

  lemma WriteDead(r: Run, c: Change, s: Slot, u: nat, l: Loc)
    requires Inv(r) && r.active != 0 && Does(r.slots, c, r.slots[c.loc := s])
    requires u in Undone(r.log) || u == r.active
    ensures InsertsDead(Step(r, WriteOp(c, s)), u, l)
  {
    hide Inv, ChangesOf, Net, NetOf, Undone, Committed;
    if u !in Undone(r.log) {
      StillActive(r);
      Untouched(r.log, u, l);
    }
    Of(r, u, l);
    NetSnoc(r.log, Changed(r.active, c), u, l);
    RowsHaveSlots(r, l);
  }

  lemma WriteFitsOther(r: Run, c: Change, s: Slot, u: nat, l: Loc)
    requires Inv(r) && r.active != 0 && Does(r.slots, c, r.slots[c.loc := s])
    requires u in Undone(Whole(r)) && (u != r.active || l != c.loc)
    ensures FitsUnlessOverwritten(Step(r, WriteOp(c, s)), u, l)
  {
    hide Inv, ChangesOf, Net, NetOf, Undone, Committed, Overwritten;
    var x := Changed(r.active, c);
    Of(r, u, l);
    WholeSnoc(r.past, r.log, x);
    NetSnoc(Whole(r), x, u, l);
    OverwrittenStays(Whole(r), x);
  }

  /** Where the active transaction writes, undoing all that bears its id still puts back what is committed. */
  lemma WriteFitsActive(r: Run, c: Change, s: Slot)
    requires Inv(r) && r.active != 0 && Does(r.slots, c, r.slots[c.loc := s]) && r.active !in Committed(Whole(r))
    ensures FitsUnlessOverwritten(Step(r, WriteOp(c, s)), r.active, c.loc)
  {
    hide Inv, ChangesOf, Net, NetOf, Undone, Committed, Overwritten;
    var x, u, l := Changed(r.active, c), r.active, c.loc;
    if u !in Undone(Whole(r)) {
      Untouched(Whole(r), u, l);
    }
    Of(r, u, l);
    WholeSnoc(r.past, r.log, x);
    NetSnoc(Whole(r), x, u, l);
    NetWhole(r, u, l);
    OverwrittenStays(Whole(r), x);
    FreshUnwritten(r, u, l);
    RowsHaveSlots(r, l);
    if l in r.slots {
      At(r, l);
    }
  }

  lemma WriteFits(r: Run, c: Change, s: Slot, u: nat, l: Loc)
    requires Inv(r) && r.active != 0 && Does(r.slots, c, r.slots[c.loc := s])
    requires u in Undone(Whole(Step(r, WriteOp(c, s))))
    ensures FitsUnlessOverwritten(Step(r, WriteOp(c, s)), u, l)
  {
    hide Inv, ChangesOf, Net, NetOf, Undone, Committed, Overwritten, FitsUnlessOverwritten, Does;
    var x := Changed(r.active, c);
    WholeSnoc(r.past, r.log, x);
    UndoneSnoc(Whole(r), x);
    NotBoth(Whole(r));
    if u == r.active && l == c.loc {
      WriteFitsActive(r, c, s);
    } else if u in Undone(Whole(r)) {
      WriteFitsOther(r, c, s, u, l);
    } else {
      Untouched(Whole(r), u, l);
      NetSnoc(Whole(r), x, u, l);
      KeptFits(Step(r, WriteOp(c, s)), u, l);
    }
  }

  lemma KeptFits(r: Run, u: nat, l: Loc)
    requires NetOf(Whole(r), u, l) == KEEP
    ensures FitsUnlessOverwritten(r, u, l)
  {
  }

  lemma WriteKeeps(r: Run, c: Change, s: Slot)
    requires Inv(r) && r.active != 0 && Does(r.slots, c, r.slots[c.loc := s])
    ensures Inv(Step(r, WriteOp(c, s)))
  {
    hide ChangesOf, Net, NetOf, UndoAll, Undone, Committed, IdsInOrder, SlotsKnown, ActiveUndoes, HeldFits, Hidden,
         InsertsDead, FitsUnlessOverwritten, Does;
    var r' := Step(r, WriteOp(c, s));
    IdsKept(r, WriteOp(c, s));
    SlotsKept(r, WriteOp(c, s));
    forall l | l in r'.slots ensures l in r'.held && ActiveUndoes(r', l) && (Hidden(r', l) || HeldFits(r', l)) {
      WriteUndoes(r, c, s, l);
      WriteKeepsAt(r, c, s, l);
    }
    UndoneSnoc(r.log, Changed(r.active, c));
    forall u, l | u in Undone(r'.log) ensures InsertsDead(r', u, l) {
      WriteDead(r, c, s, u, l);
    }
    forall u, l | u in Undone(Whole(r')) ensures FitsUnlessOverwritten(r', u, l) {
      WriteFits(r, c, s, u, l);
    }
  }

  // --- A restart ----------------------------------------------------------------------------------------------------

  lemma {:induction false} ChangeShows(changes: seq<Change>, c: Change, l: Loc)
    requires c in changes && c.loc == l
    ensures Net(changes, l) != KEEP && (c.Updated? ==> Net(changes, l).row.Some?)
  {
    var n := |changes| - 1;
    if c != changes[n] {
      ChangeShows(changes[..n], c, l);
    }
  }

  /** Every value on the trail, and the last one, agree with the first in what none of the changes sets. */
  lemma {:induction false} TrailStays(slots: Slots, changes: seq<Change>, l: Loc)
    requires l in slots
    ensures l in UndoAll(slots, changes) && slots[l] in Trail(slots, changes, l)
    ensures UndoAll(slots, changes)[l] in Trail(slots, changes, l)
    ensures Net(changes, l) == KEEP ==> forall v | v in Trail(slots, changes, l) :: v == slots[l]
    ensures Net(changes, l).row.None? ==> forall v | v in Trail(slots, changes, l) :: v.row == slots[l].row
    decreases |changes|
  {
    if changes != [] {
      var n := |changes| - 1;
      TrailStays(Undo(slots, changes[n]), changes[..n], l);
    }
  }

  lemma {:induction false} TrailInStays(slots: Slots, log: Log, order: seq<nat>, l: Loc)
    requires l in slots && forall u | u in order :: u in Undone(log)
    ensures l in RecoverIn(slots, log, order) && slots[l] in TrailIn(slots, log, order, l)
    ensures RecoverIn(slots, log, order)[l] in TrailIn(slots, log, order, l)
    ensures !Touched(log, l) ==> forall v | v in TrailIn(slots, log, order, l) :: v == slots[l]
    ensures !Rewritten(log, l) ==> forall v | v in TrailIn(slots, log, order, l) :: v.row == slots[l].row
    decreases |order|
  {
    if order != [] {
      hide ChangesOf, Net, Undone, UndoAll, Trail;
      var changes := ChangesOf(log, order[0]);
      var slots' := UndoAll(slots, changes);
      TrailStays(slots, changes, l);
      TrailInStays(slots', log, order[1..], l);
      assert NetOf(log, order[0], l) == Net(changes, l) && order[0] in Undone(log);
      assert TrailIn(slots, log, order, l) == Trail(slots, changes, l) + TrailIn(slots', log, order[1..], l);
    }
  }

  lemma RestartKeepsAt(r: Run, op: Op, l: Loc)
    requires op.RestartOp? && Plausible(op.image, r) && Visits(op.order, Whole(r)) && l in op.image
    requires LiveRows(Step(r, op).slots) == r.rows
    ensures l in Step(r, op).slots && l in Step(r, op).held && Step(r, op).slots[l] in Step(r, op).held[l]
    ensures ActiveUndoes(Step(r, op), l) && HeldFits(Step(r, op), l)
  {
    hide RecoverIn, TrailIn, Touched, Rewritten, Joined, NetOf;
    var r' := Step(r, op);
    TrailInStays(op.image, Whole(r), op.order, l);
    JoinedSnoc(r.past, r.log);
    ShowsAll(r'.slots, r.rows);
  }

  lemma RestartKeys(r: Run, op: Op)
    requires op.RestartOp? && Plausible(op.image, r) && Visits(op.order, Whole(r))
    ensures Step(r, op).slots.Keys == Step(r, op).held.Keys == op.image.Keys == r.slots.Keys
    ensures Whole(Step(r, op)) == Whole(r) && Step(r, op).rows == r.rows
    ensures Step(r, op).log == [] && Step(r, op).next == 1 && Step(r, op).active == 0
  {
    NetRecover(op.image, Whole(r), op.order, Loc("", 0, 0));
    JoinedSnoc(r.past, r.log);
    hide RecoverIn, TrailIn, Undone, Visits, Joined, InsertedByUndone;
    assert Step(r, op).slots.Keys == op.image.Keys;
  }

  lemma RowsAreSlots(slots: Slots)
    ensures forall l | l in LiveRows(slots) :: l in slots
  {
  }

  lemma RestartSlots(r: Run, op: Op)
    requires op.RestartOp? && Plausible(op.image, r) && Visits(op.order, Whole(r)) && SlotsKnown(r)
    requires LiveRows(Step(r, op).slots) == r.rows
    ensures SlotsKnown(Step(r, op))
  {
    hide Step, Plausible, Visits, ActiveUndoes, HeldFits, Joined, LiveRows;
    var r' := Step(r, op);
    RestartKeys(r, op);
    RowsAreSlots(r'.slots);
    forall l | l in r'.slots ensures r'.slots[l] in r'.held[l] {
      assert l in op.image.Keys;
      RestartKeepsAt(r, op, l);
    }
    assert forall l | l in r.slots.Keys :: l in r'.slots.Keys;
  }

  /** A restart that brings the committed rows back keeps the invariant. */
  lemma RestartKeeps(r: Run, op: Op)
    requires Inv(r) && op.RestartOp? && Plausible(op.image, r) && Visits(op.order, Whole(r))
    requires LiveRows(Step(r, op).slots) == r.rows
    ensures Inv(Step(r, op))
  {
    hide ChangesOf, Net, NetOf, Undone, Committed, SlotsKnown, ActiveUndoes, HeldFits, Hidden, Overwritten,
         Plausible, Joined, InsertsDead, Fits, LiveRows, Visits, Step;
    var r' := Step(r, op);
    RestartKeys(r, op);
    RestartSlots(r, op);
    NothingYet();
    forall l | l in r'.slots ensures l in r'.held && ActiveUndoes(r', l) && (Hidden(r', l) || HeldFits(r', l)) {
      assert l in op.image.Keys;
      RestartKeepsAt(r, op, l);
    }
    forall u, l | u in Undone(Whole(r')) ensures FitsUnlessOverwritten(r', u, l) {
      Of(r, u, l);
    }
  }

  lemma NothingYet()
    ensures Undone([]) == {}
  {
  }

  // --- Lives ----------------------------------------------------------------------------------------------------------

  /** If the operation is a restart, it brings back the committed rows. */
  ghost predicate WellStarted(r: Run, op: Op) {
    op.RestartOp? && Plausible(op.image, r) && Visits(op.order, Whole(r)) ==> LiveRows(Step(r, op).slots) == r.rows
  }

  /** Every restart so far brought back the rows that were committed. */
  ghost predicate WellStartedSoFar(slots: Slots, ops: seq<Op>) {
    ops == [] ||
    (WellStartedSoFar(slots, ops[..|ops| - 1]) && WellStarted(RunOf(slots, ops[..|ops| - 1]), ops[|ops| - 1]))
  }

  lemma StepKeeps(r: Run, op: Op)
    requires Inv(r) && WellStarted(r, op)
    ensures Inv(Step(r, op))
  {
    hide Inv;
    match op
    case BeginOp => if r.active == 0 { BeginKeeps(r); }
    case WriteOp(c, s) => if r.active != 0 && Does(r.slots, c, r.slots[c.loc := s]) { WriteKeeps(r, c, s); }
    case CommitOp => if r.active != 0 { CommitKeeps(r); }
    case RollbackOp => if r.active != 0 { RollbackKeeps(r); }
    case RestartOp(image, order) => if Plausible(image, r) && Visits(order, Whole(r)) { RestartKeeps(r, op); }
  }

  /** Every life keeps the invariant up to the first restart that brings back other rows. */
  lemma {:induction false} RunKeeps(slots: Slots, ops: seq<Op>)
    requires WellStartedSoFar(slots, ops)
    ensures Inv(RunOf(slots, ops))
  {
    if ops != [] {
      hide Inv, WellStarted, Step;
      RunKeeps(slots, ops[..|ops| - 1]);
      StepKeeps(RunOf(slots, ops[..|ops| - 1]), ops[|ops| - 1]);
    }
  }

  // --- What recovery makes of a crash -----------------------------------------------------------------------------------

  /** What the crash left in the slot is right in so far as recovery does not set it. */
  ghost predicate ImageFits(image: Slots, r: Run, l: Loc)
    requires l in image
  {
    && (!Touched(Whole(r), l) ==> Shows(image[l], r.rows, l))
    && (!Rewritten(Whole(r), l) && l in r.rows ==> image[l].row == r.rows[l])
  }

  lemma PlausibleAt(image: Slots, r: Run, l: Loc)
    requires Inv(r) && Plausible(image, r) && l in image && !Hidden(r, l)
    ensures ImageFits(image, r, l)
  {
    assert image.Keys == r.slots.Keys;
    hide Inv, ChangesOf, Net, NetOf, Undone, Rewritten;
    At(r, l);
    if InsertedByUndone(r.log, l) {
      InsertTouches(r, l);
    }
  }

  /** Where a transaction without a commit added a row, nothing is committed. */
  lemma InsertTouches(r: Run, l: Loc)
    requires Inv(r) && InsertedByUndone(r.log, l)
    ensures l !in r.rows && (Hidden(r, l) || Touched(Whole(r), l))
  {
    var u :| u in Undone(r.log) && NetOf(r.log, u, l).deleted == Some(true);
    Of(r, u, l);
    NetKeeps(r.log, u, l);
    NotBoth(r.log);
    hide Inv, ChangesOf, Net, NetOf, Undone, Writes, Committed;
    assert Unsettled(r, u, l);
    UnsettledWrites(r, u, l);
    if u !in Committed(Whole(r)) {
      UndoneByWrite(Whole(r), u, l);
    }
  }

  lemma RowsKept(r: Run, image: Slots)
    requires Inv(r) && image.Keys == r.slots.Keys
    ensures forall l | l in r.rows :: l in image
  {
    forall l | l in r.rows ensures l in image {
      assert l in r.slots.Keys;
    }
  }

  /**
   In every life, for every crash image its last run can leave: recovery yields exactly the committed rows,
   in whatever order it visits the transactions, if and only if every row that an undone transaction updated
   is still committed as it was before, every row it deleted is still there, and the slots hidden by a commit
   of an earlier or later run hold what is committed.
   */
  lemma RecoversIff(slots: Slots, ops: seq<Op>, image: Slots)
    requires WellStartedSoFar(slots, ops) && Plausible(image, RunOf(slots, ops))
    ensures
      var r := RunOf(slots, ops);
      (forall order | Visits(order, Whole(r)) :: LiveRows(RecoverIn(image, Whole(r), order)) == r.rows) <==>
        && (forall u, l | u in Undone(Whole(r)) && l in image :: Fits(NetOf(Whole(r), u, l), r.rows, l))
        && (forall l | l in image && Hidden(r, l) :: ImageFits(image, r, l))
  {
    var r := RunOf(slots, ops);
    assert image.Keys == r.slots.Keys;
    hide ChangesOf, Net, NetOf, Undone, Inv, Visits, Plausible, Hidden, Touched, Rewritten;
    RunKeeps(slots, ops);
    RowsKept(r, image);
    forall l | l in image && !Hidden(r, l) ensures ImageFits(image, r, l) {
      PlausibleAt(image, r, l);
    }
    RecoveryExact(Whole(r), image, r.rows);
    RestFitsAt(r, image);
  }

  lemma RestFitsAt(r: Run, image: Slots)
    requires forall l | l in r.rows :: l in image
    ensures RestFits(Whole(r), image, r.rows) <==> forall l | l in image :: ImageFits(image, r, l)
  {
    hide Touched, Rewritten, Shows;
    if RestFits(Whole(r), image, r.rows) {
      forall l | l in image ensures ImageFits(image, r, l) {
      }
    }
    if forall l | l in image :: ImageFits(image, r, l) {
      forall l | l in image
        ensures !Touched(Whole(r), l) ==> Shows(image[l], r.rows, l)
        ensures !Rewritten(Whole(r), l) && l in r.rows ==> image[l].row == r.rows[l]
      {
        assert ImageFits(image, r, l);
      }
    }
  }

  /** In the first run nothing is hidden. */
  lemma NothingHidden(r: Run, l: Loc)
    requires r.past == []
    ensures !Hidden(r, l)
  {
    assert Whole(r) == r.log;
  }

  /**
   Before the crash: what undone transactions put back is committed, and whatever the crash may leave in a
   hidden slot is what is committed there.
   */
  ghost predicate Recoverable(r: Run) {
    && (forall u, l | u in Undone(Whole(r)) && l in r.slots :: Fits(NetOf(Whole(r), u, l), r.rows, l))
    && (forall l | l in r.slots && Hidden(r, l) ::
          l in r.held && HeldFits(r, l) && (InsertedByUndone(r.log, l) ==> Touched(Whole(r), l)))
  }

  /** The image in which slot `l` holds `v`, and every other slot what it holds in memory. */
  function ImageWith(r: Run, l: Loc, v: Slot): Slots
    requires l in r.slots
  {
    r.slots[l := v]
  }

  lemma ImageWithPlausible(r: Run, l: Loc, v: Slot)
    requires Inv(r) && l in r.slots && (v in Held(r, l) || InsertedByUndone(r.log, l))
    ensures Plausible(ImageWith(r, l, v), r)
  {
    var image := ImageWith(r, l, v);
    assert image.Keys == r.slots.Keys;
    hide Inv, InsertedByUndone;
    forall m | m in r.slots ensures image[m] in Held(r, m) || InsertedByUndone(r.log, m) {
      At(r, m);
    }
  }

  ghost predicate AlwaysRecovers(r: Run) {
    forall image, order | Plausible(image, r) && Visits(order, Whole(r)) ::
      LiveRows(RecoverIn(image, Whole(r), order)) == r.rows
  }

  lemma ImageFitsWhenRecovers(r: Run, image: Slots, l: Loc)
    requires AlwaysRecovers(r) && Plausible(image, r) && l in image
    ensures ImageFits(image, r, l)
    ensures forall u | u in Undone(Whole(r)) :: Fits(NetOf(Whole(r), u, l), r.rows, l)
  {
    hide Touched, Rewritten, NetOf, Undone, Visits, Plausible;
    RecoveryExact(Whole(r), image, r.rows);
  }

  lemma RecoverableAt(r: Run, l: Loc)
    requires Inv(r) && AlwaysRecovers(r) && l in r.slots
    ensures forall u | u in Undone(Whole(r)) :: Fits(NetOf(Whole(r), u, l), r.rows, l)
    ensures l in r.held && HeldFits(r, l) && (InsertedByUndone(r.log, l) ==> Touched(Whole(r), l))
  {
    hide Inv, ChangesOf, Net, NetOf, Touched, Rewritten, AlwaysRecovers, InsertedByUndone, Hidden, Undone;
    At(r, l);
    forall v | v in r.held[l] ensures ImageFits(ImageWith(r, l, v), r, l) {
      ImageWithPlausible(r, l, v);
      ImageFitsWhenRecovers(r, ImageWith(r, l, v), l);
    }
    ImageWithPlausible(r, l, r.slots[l]);
    ImageFitsWhenRecovers(r, ImageWith(r, l, r.slots[l]), l);
    if InsertedByUndone(r.log, l) {
      InsertTouches(r, l);
      var v := Slot([], false);
      ImageWithPlausible(r, l, v);
      ImageFitsWhenRecovers(r, ImageWith(r, l, v), l);
    }
  }

  lemma RecoversAt(r: Run, image: Slots, l: Loc)
    requires Inv(r) && Recoverable(r) && Plausible(image, r) && l in image
    ensures ImageFits(image, r, l)
    ensures forall u | u in Undone(Whole(r)) :: Fits(NetOf(Whole(r), u, l), r.rows, l)
  {
    assert l in r.slots.Keys;
    hide Inv, ChangesOf, Net, NetOf, Undone, Rewritten, Hidden, Touched;
    if !Hidden(r, l) {
      PlausibleAt(image, r, l);
    } else if InsertedByUndone(r.log, l) {
      InsertTouches(r, l);
    }
  }

  /**
   In every life, as things stand before a crash: recovery yields exactly the committed rows, whatever the
   crash leaves and in whatever order recovery visits the transactions, if and only if the state is
   recoverable.
   */
  lemma RecoversAlwaysIff(slots: Slots, ops: seq<Op>)
    requires WellStartedSoFar(slots, ops)
    ensures AlwaysRecovers(RunOf(slots, ops)) <==> Recoverable(RunOf(slots, ops))
  {
    var r := RunOf(slots, ops);
    RunKeeps(slots, ops);
    hide Inv, ChangesOf, Net, NetOf, Undone, Touched, Rewritten, Hidden, HeldFits, InsertedByUndone, Fits;
    if AlwaysRecovers(r) {
      forall l | l in r.slots
        ensures forall u | u in Undone(Whole(r)) :: Fits(NetOf(Whole(r), u, l), r.rows, l)
        ensures l in r.held && HeldFits(r, l) && (InsertedByUndone(r.log, l) ==> Touched(Whole(r), l))
      {
        RecoverableAt(r, l);
      }
    }
    if Recoverable(r) {
      forall image, order | Plausible(image, r) && Visits(order, Whole(r))
        ensures LiveRows(RecoverIn(image, Whole(r), order)) == r.rows
      {
        RecoverableRecovers(r, image, order);
      }
    }
  }

  lemma RecoverableRecovers(r: Run, image: Slots, order: seq<nat>)
    requires Inv(r) && Recoverable(r) && Plausible(image, r) && Visits(order, Whole(r))
    ensures LiveRows(RecoverIn(image, Whole(r), order)) == r.rows
  {
    RowsKept(r, image);
    hide Inv, ChangesOf, Net, NetOf, Undone, Touched, Rewritten, Recoverable, Visits, Plausible, Fits, RecoverIn, Joined;
    forall l | l in image
      ensures ImageFits(image, r, l)
      ensures forall u | u in Undone(Whole(r)) :: Fits(NetOf(Whole(r), u, l), r.rows, l)
    {
      RecoversAt(r, image, l);
    }
    RestFitsAt(r, image);
    RecoversWhenFits(Whole(r), image, r.rows, order);
  }

  /** Every restart in the life starts from a recoverable state. */
  ghost predicate RecoverableSoFar(slots: Slots, ops: seq<Op>) {
    ops == [] ||
    (RecoverableSoFar(slots, ops[..|ops| - 1]) && (ops[|ops| - 1].RestartOp? ==> Recoverable(RunOf(slots, ops[..|ops| - 1]))))
  }

  /** As long as every crash finds a recoverable state, every restart brings the committed rows back. */
  lemma {:induction false} RestartsGoWell(slots: Slots, ops: seq<Op>)
    requires RecoverableSoFar(slots, ops)
    ensures WellStartedSoFar(slots, ops)
  {
    if ops != [] {
      var ops', op := ops[..|ops| - 1], ops[|ops| - 1];
      hide Recoverable, Visits, Plausible, RecoverIn, TrailIn;
      RestartsGoWell(slots, ops');
      RecoversAlwaysIff(slots, ops');
    }
  }

  /** It does so whenever nothing is hidden, and no committed transaction wrote a slot after an undone one did. */
  lemma RecoversUnlessOverwritten(slots: Slots, ops: seq<Op>)
    requires WellStartedSoFar(slots, ops)
    requires forall l :: !Hidden(RunOf(slots, ops), l)
    requires forall u, l | u in Undone(Whole(RunOf(slots, ops))) :: !Overwritten(Whole(RunOf(slots, ops)), u, l)
    ensures AlwaysRecovers(RunOf(slots, ops))
  {
    var r := RunOf(slots, ops);
    RunKeeps(slots, ops);
    hide ChangesOf, Net, NetOf, Undone, Inv, Overwritten, Hidden;
    forall u, l | u in Undone(Whole(r)) && l in r.slots ensures Fits(NetOf(Whole(r), u, l), r.rows, l) {
      Of(r, u, l);
    }
    RecoversAlwaysIff(slots, ops);
  }

  // --- Recovery interrupted ---------------------------------------------------------------------------------------------

  ghost predicate UndoneChange(log: Log, c: Change) {
    exists u | u in Undone(log) :: c in ChangesOf(log, u)
  }

  /** Every slot of `image'` is the one in `image` with some of the changes of undone transactions undone, in some order. */
  ghost predicate PartlyRecovered(image: Slots, image': Slots, log: Log) {
    && image'.Keys == image.Keys
    && forall l | l in image :: exists changes ::
         (forall c | c in changes :: UndoneChange(log, c)) &&
         image'[l] == Apply(Net(changes, l), image[l])
  }

  /** Undoing changes of undone transactions only sets what some undone transaction sets. */
  lemma {:induction false} NetWithin(log: Log, changes: seq<Change>, l: Loc)
    requires forall c | c in changes :: UndoneChange(log, c)
    ensures Net(changes, l) != KEEP ==> Touched(log, l)
    ensures Net(changes, l).row.Some? ==> Rewritten(log, l)
  {
    if changes != [] {
      var n := |changes| - 1;
      assert UndoneChange(log, changes[n]);
      NetWithin(log, changes[..n], l);
      var u :| u in Undone(log) && changes[n] in ChangesOf(log, u);
      if changes[n].loc == l {
        ChangeShows(ChangesOf(log, u), changes[n], l);
        assert NetOf(log, u, l) == Net(ChangesOf(log, u), l);
      }
    }
  }

  /**
   A recovery cut short anywhere, with any of its writes lost, can simply be run again: where recovery is
   right, it is right again, whatever orders the two runs visit the transactions in.
   */
  lemma RecoveryRestarts(log: Log, image: Slots, image': Slots, rows: map<Loc, Bytes>, order: seq<nat>)
    requires forall order | Visits(order, log) :: LiveRows(RecoverIn(image, log, order)) == rows
    requires PartlyRecovered(image, image', log) && Visits(order, log)
    ensures LiveRows(RecoverIn(image', log, order)) == rows
  {
    hide ChangesOf, Net, NetOf, Undone, Touched, Rewritten, Visits;
    RecoveryExact(log, image, rows);
    forall l | l in image'
      ensures !Touched(log, l) ==> Shows(image'[l], rows, l)
      ensures !Rewritten(log, l) && l in rows ==> image'[l].row == rows[l]
    {
      assert l in image;
      var changes :| (forall c | c in changes :: UndoneChange(log, c)) &&
                     image'[l] == Apply(Net(changes, l), image[l]);
      NetWithin(log, changes, l);
    }
    assert forall l | l in rows :: l in image';
    RecoversWhenFits(log, image', rows, order);
  }

  // --- Where recovery goes wrong --------------------------------------------------------------------------------------------

  /** The log of a transaction that updates a row, with one more record after it. */
  lemma OneUpdate(l: Loc, a: Bytes, b: Bytes)
    ensures
      var log := [Begin(1), Changed(1, Updated(l, a))];
      && ChangesOf(log, 1) == [Updated(l, a)] && Undone(log) == {1} && Committed(log) == {}
      && UndoAll(map[l := Slot(b, false)], ChangesOf(log, 1)) == map[l := Slot(a, false)]
  {
    hide ChangesOf, Undone, Committed, UndoAll;
    var x, y := Begin(1), Changed(1, Updated(l, a));
    EmptyLog();
    assert [] + [x] == [x] && [x] + [y] == [x, y];
    ChangesOfSnoc([], x, 1);
    CommittedSnoc([], x);
    UndoneSnoc([], x);
    ChangesOfSnoc([x], y, 1);
    CommittedSnoc([x], y);
    UndoneSnoc([x], y);
    UndoOne(map[l := Slot(b, false)], l, a);
  }

  lemma EmptyLog()
    ensures ChangesOf([], 1) == [] && Undone([]) == {} && Committed([]) == {}
  {
  }

  lemma UndoOne(slots: Slots, l: Loc, a: Bytes)
    requires l in slots
    ensures UndoAll(slots, [Updated(l, a)]) == slots[l := Slot(a, false)]
  {
    assert UndoAll(slots, [Updated(l, a)]) == UndoAll(Undo(slots, Updated(l, a)), []);
  }

  lemma LiveOne(l: Loc, a: Bytes)
    ensures LiveRows(map[l := Slot(a, false)]) == map[l := a]
  {
  }

  lemma VisitsOne(log: Log, u: nat)
    requires Undone(log) == {u}
    ensures Visits([u], log)
  {
    hide Undone;
  }

  lemma RecoverOne(slots: Slots, log: Log, u: nat)
    ensures RecoverIn(slots, log, [u]) == UndoAll(slots, ChangesOf(log, u))
  {
    assert RecoverIn(slots, log, [u]) == RecoverIn(UndoAll(slots, ChangesOf(log, u)), log, []);
  }

  lemma UpdateStep(r: Run, l: Loc, a: Bytes, b: Bytes)
    requires r.active != 0 && r.slots == map[l := Slot(a, false)]
    ensures
      var r' := Step(r, WriteOp(Updated(l, a), Slot(b, false)));
      && r'.slots == map[l := Slot(b, false)] && r'.log == r.log + [Changed(r.active, Updated(l, a))]
      && r'.active == r.active && r'.next == r.next && r'.rows == r.rows
  {
    assert Does(r.slots, Updated(l, a), r.slots[l := Slot(b, false)]);
  }

  /** Begin, update, roll back: the row is as before. */
  lemma RolledBackRun(l: Loc, a: Bytes, b: Bytes)
    ensures
      var r := Step(Step(Step(Start(map[l := Slot(a, false)]), BeginOp), WriteOp(Updated(l, a), Slot(b, false))), RollbackOp);
      && r.slots == map[l := Slot(a, false)] && r.active == 0 && r.next == 2
      && r.log == [Begin(1), Changed(1, Updated(l, a))] + [Rollback(1)]
  {
    hide ChangesOf, Undone, Committed, UndoAll, Does;
    var r1 := Step(Start(map[l := Slot(a, false)]), BeginOp);
    UpdateStep(r1, l, a, b);
    var r2 := Step(r1, WriteOp(Updated(l, a), Slot(b, false)));
    assert r2.log == [Begin(1), Changed(1, Updated(l, a))];
    OneUpdate(l, a, b);
  }

  lemma CommittedRun(r: Run, l: Loc, a: Bytes, c: Bytes)
    requires r.active == 0 && r.next != 0 && r.slots == map[l := Slot(a, false)]
    ensures
      var r' := Step(Step(Step(r, BeginOp), WriteOp(Updated(l, a), Slot(c, false))), CommitOp);
      && r'.slots == map[l := Slot(c, false)] && r'.rows == map[l := c]
      && r'.log == r.log + [Begin(r.next)] + [Changed(r.next, Updated(l, a))] + [Commit(r.next)]
  {
    hide ChangesOf, Undone, Committed, UndoAll, Does;
    UpdateStep(Step(r, BeginOp), l, a, c);
  }

  /**
   A transaction updates a row and is rolled back; the next one updates the same row and commits. Recovery
   undoes the first again and loses the committed update.
   */
  lemma RollbackThenCommitIsLost(l: Loc, a: Bytes, b: Bytes, c: Bytes)
    requires a != c
    ensures
      var r := Step(Step(Step(Start(map[l := Slot(a, false)]), BeginOp), WriteOp(Updated(l, a), Slot(b, false))), RollbackOp);
      var r' := Step(Step(Step(r, BeginOp), WriteOp(Updated(l, a), Slot(c, false))), CommitOp);
      && r'.rows == map[l := c] == LiveRows(r'.slots) && Visits([1], r'.log)
      && LiveRows(RecoverIn(r'.slots, r'.log, [1])) == map[l := a]
  {
    hide ChangesOf, Undone, Committed, UndoAll, Does, Step, RecoverIn, LiveRows, Visits;
    var r := Step(Step(Step(Start(map[l := Slot(a, false)]), BeginOp), WriteOp(Updated(l, a), Slot(b, false))), RollbackOp);
    var r' := Step(Step(Step(r, BeginOp), WriteOp(Updated(l, a), Slot(c, false))), CommitOp);
    RolledBackRun(l, a, b);
    CommittedRun(r, l, a, c);
    OneUpdate(l, a, c);
    LaterCommit([Begin(1), Changed(1, Updated(l, a))], l, a);
    VisitsOne(r'.log, 1);
    RecoverOne(r'.slots, r'.log, 1);
    LiveOne(l, a);
    LiveOne(l, c);
  }

  /** A rollback and a later committed transaction leave what is to be undone alone. */
  lemma LaterCommit(log: Log, l: Loc, a: Bytes)
    requires Undone(log) == {1} && Committed(log) == {}
    ensures
      var log' := log + [Rollback(1)] + [Begin(2)] + [Changed(2, Updated(l, a))] + [Commit(2)];
      Undone(log') == {1} && ChangesOf(log', 1) == ChangesOf(log, 1)
  {
    hide ChangesOf, Undone, Committed;
    var l1 := log + [Rollback(1)];
    var l2 := l1 + [Begin(2)];
    var l3 := l2 + [Changed(2, Updated(l, a))];
    CommittedSnoc(log, Rollback(1));
    CommittedSnoc(l1, Begin(2));
    CommittedSnoc(l2, Changed(2, Updated(l, a)));
    UndoneSnoc(log, Rollback(1));
    UndoneSnoc(l1, Begin(2));
    UndoneSnoc(l2, Changed(2, Updated(l, a)));
    UndoneSnoc(l3, Commit(2));
    ChangesOfSnoc(log, Rollback(1), 1);
    ChangesOfSnoc(l1, Begin(2), 1);
    ChangesOfSnoc(l2, Changed(2, Updated(l, a)), 1);
    ChangesOfSnoc(l3, Commit(2), 1);
    var cs := ChangesOf(log, 1);
    assert cs + [] + [] + [] + [] == cs;
  }

  /** Transaction 1 only begins and commits. */
  lemma IdleRun(r: Run)
    requires r.log == [] && r.next == 1 && r.active == 0 && r.held.Keys == r.slots.Keys
    ensures Step(Step(r, BeginOp), CommitOp)
         == r.(log := [Begin(1), Commit(1)], next := 2, rows := LiveRows(r.slots))
  {
    var r1 := Step(r, BeginOp);
    assert r1.log == [Begin(1)];
    assert forall l :: !Writes(r1.log, 1, l);
    assert Step(r1, CommitOp).held == r.held;
  }

  /** Transaction 1 updates a row. */
  lemma OpenRun(r: Run, l: Loc, a: Bytes, b: Bytes)
    requires r.log == [] && r.next == 1 && r.active == 0 && r.slots == map[l := Slot(a, false)]
    ensures Step(Step(r, BeginOp), WriteOp(Updated(l, a), Slot(b, false)))
         == r.(slots := map[l := Slot(b, false)], log := [Begin(1), Changed(1, Updated(l, a))], next := 2, active := 1,
               held := r.held[l := Held(r, l) + {Slot(b, false)}])
  {
    var r1 := Step(r, BeginOp);
    assert Does(r1.slots, Updated(l, a), r1.slots[l := Slot(b, false)]);
  }

  /** A log with a commit of its only transaction undoes nothing. */
  lemma OnlyCommitted(log: Log)
    requires Commit(1) in log && forall x | x in log :: x.txn == 1
    ensures Committed(log) == {1} && Visits([], log)
  {
  }

  lemma RecoverNothing(slots: Slots, log: Log, l: Loc, v: Slot)
    requires slots == map[l := v]
    ensures RecoverIn(slots, log, []) == slots && TrailIn(slots, log, [], l) == {v}
  {
  }

  /** The run after a restart on a table of one slot. */
  function Restarted(log: Log, rows: map<Loc, Bytes>, l: Loc, v: Slot, held: set<Slot>): Run {
    Run(map[l := v], [log], [], 1, 0, rows, map[l := held])
  }

  lemma JoinedOne(log: Log, log': Log)
    ensures Joined([]) + log == log && Joined([log]) + log' == log + log'
  {
    assert [log][..0] == [];
  }

  const IDLE: Log := [Begin(1), Commit(1)]

  function Open(l: Loc, a: Bytes): Log {
    [Begin(1), Changed(1, Updated(l, a))]
  }

  /** Recovery undoes nothing when a commit bears the only id. */
  lemma NothingUndone(l: Loc, a: Bytes)
    ensures forall log | log in {IDLE, IDLE + Open(l, a), Open(l, a) + IDLE} :: Visits([], log)
  {
    hide Undone, Visits;
    forall log | log in {IDLE, IDLE + Open(l, a), Open(l, a) + IDLE} ensures Visits([], log) {
      assert IDLE[1] == Commit(1);
      OnlyCommitted(log);
    }
  }

  lemma PlausibleOne(r: Run, l: Loc, v: Slot)
    requires r.slots.Keys == {l} && v in Held(r, l)
    ensures Plausible(map[l := v], r)
  {
  }

  lemma LostIn(r: Run, log: Log, l: Loc, v: Slot)
    requires Whole(r) == log && Visits([], log) && Plausible(map[l := v], r) && LiveRows(map[l := v]) != r.rows
    ensures LiveRows(RecoverIn(map[l := v], Whole(r), [])) == LiveRows(map[l := v]) && !AlwaysRecovers(r)
  {
    hide Visits, Plausible, LiveRows, Undone;
    RecoverNothing(map[l := v], log, l, v);
  }

  lemma RestartOne(r: Run, image: Slots, order: seq<nat>, l: Loc, v: Slot)
    requires r.past == [] && Plausible(image, r) && Visits(order, r.log) && RecoverIn(image, r.log, order) == map[l := v]
    ensures Step(r, RestartOp(image, order)) == Restarted(r.log, r.rows, l, v, TrailIn(image, r.log, order, l))
  {
    hide RecoverIn, TrailIn, Plausible, Visits;
    assert Whole(r) == r.log;
  }

  lemma IdleRestart(l: Loc, a: Bytes)
    ensures
      var slots := map[l := Slot(a, false)];
      var first := Step(Step(Start(slots), BeginOp), CommitOp);
      Step(first, RestartOp(slots, [])) == Restarted(IDLE, map[l := a], l, Slot(a, false), {Slot(a, false)})
  {
    hide Step, RecoverIn, TrailIn, Plausible, Visits, LiveRows, Restarted;
    var slots := map[l := Slot(a, false)];
    LiveOne(l, a);
    IdleRun(Start(slots));
    var first := Step(Step(Start(slots), BeginOp), CommitOp);
    PlausibleOne(first, l, Slot(a, false));
    NothingUndone(l, a);
    RecoverNothing(slots, IDLE, l, Slot(a, false));
    RestartOne(first, slots, [], l, Slot(a, false));
  }

  lemma OpenRestart(l: Loc, a: Bytes, b: Bytes)
    ensures
      var first := Step(Step(Start(map[l := Slot(a, false)]), BeginOp), WriteOp(Updated(l, a), Slot(b, false)));
      && first.slots == map[l := Slot(b, false)]
      && exists held | Slot(b, false) in held ::
           Step(first, RestartOp(first.slots, [1])) == Restarted(Open(l, a), map[l := a], l, Slot(a, false), held)
  {
    hide Step, Undone, Committed, RecoverIn, TrailIn, ChangesOf, UndoAll, LiveRows, Plausible, Restarted, Touched, Rewritten;
    var start := Start(map[l := Slot(a, false)]);
    var first := Step(Step(start, BeginOp), WriteOp(Updated(l, a), Slot(b, false)));
    LiveOne(l, a);
    OpenRun(start, l, a, b);
    OneUpdate(l, a, b);
    PlausibleOne(first, l, Slot(b, false));
    RecoverOne(first.slots, first.log, 1);
    RestartOne(first, first.slots, [1], l, Slot(a, false));
    TrailInStays(first.slots, first.log, [1], l);
  }

  /**
   Ids start at 1 again in every run. A commit in an earlier run makes a transaction of the same id in a
   later run look committed: recovery leaves its uncommitted update in place.
   */
  lemma ReusedIdIsNotUndone(l: Loc, a: Bytes, b: Bytes)
    requires a != b
    ensures
      var slots := map[l := Slot(a, false)];
      var first := Step(Step(Start(slots), BeginOp), CommitOp);
      var second := Step(first, RestartOp(slots, []));
      var r := Step(Step(second, BeginOp), WriteOp(Updated(l, a), Slot(b, false)));
      && LiveRows(second.slots) == second.rows == r.rows == map[l := a]
      && Plausible(r.slots, r) && Visits([], Whole(r)) && LiveRows(RecoverIn(r.slots, Whole(r), [])) == map[l := b]
      && !AlwaysRecovers(r)
  {
    hide Step, RecoverIn, Visits, Plausible, Joined, AlwaysRecovers, LiveRows;
    var slots := map[l := Slot(a, false)];
    var first := Step(Step(Start(slots), BeginOp), CommitOp);
    IdleRestart(l, a);
    var second := Step(first, RestartOp(slots, []));
    OpenRun(second, l, a, b);
    var r := Step(Step(second, BeginOp), WriteOp(Updated(l, a), Slot(b, false)));
    JoinedOne(IDLE, Open(l, a));
    NothingUndone(l, a);
    LiveOne(l, a);
    LiveOne(l, b);
    assert map[l := a][l] == a && map[l := b][l] == b;
    PlausibleOne(r, l, Slot(b, false));
    LostIn(r, IDLE + Open(l, a), l, Slot(b, false));
  }

  /**
   A restart undoes an open update, but the page is not written back. If the next run commits a transaction
   of the same id and crashes, the update is not undone again: a row that was never committed is there.
   */
  lemma LaterCommitHides(l: Loc, a: Bytes, b: Bytes)
    requires a != b
    ensures
      var first := Step(Step(Start(map[l := Slot(a, false)]), BeginOp), WriteOp(Updated(l, a), Slot(b, false)));
      var second := Step(first, RestartOp(first.slots, [1]));
      var r := Step(Step(second, BeginOp), CommitOp);
      && LiveRows(second.slots) == second.rows == r.rows == map[l := a]
      && Plausible(first.slots, r) && Visits([], Whole(r))
      && LiveRows(RecoverIn(first.slots, Whole(r), [])) == map[l := b] && !AlwaysRecovers(r)
  {
    hide Step, RecoverIn, Visits, Plausible, Joined, AlwaysRecovers, LiveRows;
    var first := Step(Step(Start(map[l := Slot(a, false)]), BeginOp), WriteOp(Updated(l, a), Slot(b, false)));
    OpenRestart(l, a, b);
    var second := Step(first, RestartOp(first.slots, [1]));
    IdleRun(second);
    var r := Step(Step(second, BeginOp), CommitOp);
    JoinedOne(Open(l, a), IDLE);
    NothingUndone(l, a);
    LiveOne(l, a);
    LiveOne(l, b);
    assert map[l := a][l] == a && map[l := b][l] == b;
    PlausibleOne(r, l, Slot(b, false));
    LostIn(r, Open(l, a) + IDLE, l, Slot(b, false));
  }
}
