/** A scan through the tree of a unique index, from the plan to the rows. */
module IndexScans {
  import opened Options
  import opened ByteCodec
  import opened ScanPlans
  import opened BPlusTreeChain
  import opened BPlusTrees
  import BPlusTreeModel
  import K = IndexKeys

  /** The index holds each row under the key of its value in the column, and nothing else. */
  ghost predicate HoldsColumn(m: Meaning, idx: map<int, Location>, rows: map<Location, Row>, column: string) {
    && (forall k | k in idx :: idx[k] in rows && KeyRank(m, Cell(rows[idx[k]], column)) == k)
    && (forall l | l in rows :: var k := KeyRank(m, Cell(rows[l], column)); k in idx && idx[k] == l)
  }

  /** The keys that a plan hands to the index. */
  ghost function StartKey(m: Meaning, g: Range): int {
    if g.fromMin then K.Rank(Zeros(K.KEY_SIZE)) else KeyRank(m, g.start)
  }

  ghost function EndKey(m: Meaning, g: Range): int {
    if g.end.None? then K.Rank(K.Ones(K.KEY_SIZE)) else KeyRank(m, g.end.value)
  }

  predicate StartOpen(g: Range) {
    !g.fromMin && g.startOpen
  }

  predicate EndOpen(g: Range) {
    g.end.Some? && g.endOpen
  }

  /** The source throws for a literal that is too long for a key. */
  predicate LiteralsFit(m: Meaning, g: Range) {
    (g.fromMin || K.Fits([ToDb(m, g.start)])) && (g.end.Some? ==> K.Fits([ToDb(m, g.end.value)]))
  }

  lemma StartKeyFits(m: Meaning, g: Range)
    requires LiteralsFit(m, g)
    ensures 0 <= StartKey(m, g) < Limit()
  {
    hide K.Rank, K.Fits, K.KeyBytes;
    K.RankBound(Zeros(K.KEY_SIZE));
    if !g.fromMin {
      K.RankBound(K.KeyBytes([ToDb(m, g.start)]));
    }
  }

  lemma KeyInside(m: Meaning, g: Range, k: int)
    ensures KeyInRange(m, g, k) <==> Inside(k, StartKey(m, g), EndKey(m, g), StartOpen(g), EndOpen(g))
  {
    hide K.Rank, KeyRank;
  }

  /** What lies between the keys of a plan is the rows in its range, each once. */
  lemma FoundIsRight(m: Meaning, g: Range, idx: map<int, Location>, rows: map<Location, Row>, found: seq<Location>)
    requires HoldsColumn(m, idx, rows, g.column)
    requires ListsInside(found, idx, StartKey(m, g), EndKey(m, g), StartOpen(g), EndOpen(g))
    ensures forall l :: l in found <==> l in rows && InRange(m, g, rows[l])
    ensures forall i, j | 0 <= i < j < |found| :: found[i] != found[j]
  {
    hide StartKey, EndKey, StartOpen, EndOpen, Inside, KeyInRange, KeyRank;
    var keys :| ListedBy(found, keys, idx, StartKey(m, g), EndKey(m, g), StartOpen(g), EndOpen(g));
    forall k ensures KeyInRange(m, g, k) <==> Inside(k, StartKey(m, g), EndKey(m, g), StartOpen(g), EndOpen(g)) {
      KeyInside(m, g, k);
    }
    forall l | l in rows && InRange(m, g, rows[l]) ensures l in found {
      var k := KeyRank(m, Cell(rows[l], g.column));
      assert k in keys;
      var i :| 0 <= i < |keys| && keys[i] == k;
      assert found[i] == l;
    }
  }

  /** A lookup of one key, as an interval. */
  lemma OneKey(idx: map<int, Location>, k: int)
    ensures ListsInside(if k in idx then [idx[k]] else [], idx, k, k, false, false)
  {
    var found := if k in idx then [idx[k]] else [];
    var keys := if k in idx then [k] else [];
    assert ListedBy(found, keys, idx, k, k, false, false);
  }

  /**
   Runs an index plan on the tree of a unique index: if the tree holds each row under the key of its column, the
   scan returns exactly the rows of the plan, in the order of a full scan.
   */
  method ScanByIndex(m: Meaning, tree: BPlusTree, rows: map<Location, Row>, plan: Plan, point: bool,
                     start: int, end: int) returns (result: seq<Location>)
    requires tree.Valid() && plan.Indexed? && LiteralsFit(m, plan.range)
    requires start == StartKey(m, plan.range) && end == EndKey(m, plan.range)
    requires point ==> start == end && !StartOpen(plan.range) && !EndOpen(plan.range)
    requires HoldsColumn(m, tree.Contents(), rows, plan.range.column)
    ensures Lists(result, ByPlan(m, plan, rows))
  {
    hide StartKey, EndKey, StartOpen, EndOpen, LiteralsFit, HoldsColumn, ListsInside, Lists, ByPlan, InRange;
    StartKeyFits(m, plan.range);
    ghost var idx := tree.Contents();
    var found: seq<Location>;
    if point {
      found := tree.PointQuery(start);
      OneKey(idx, start);
    } else {
      found := tree.RangeQuery(start, end, StartOpen(plan.range), EndOpen(plan.range));
    }
    FoundIsRight(m, plan.range, idx, rows, found);
    result := GetScannedRows(m, rows, [], found, plan);
  }
}
