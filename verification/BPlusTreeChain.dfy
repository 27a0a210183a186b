/**
 The leaves in tree order: where a search ends, what an insertion or a deletion does to the list of
 leaves, and what a walk along the leaves from a search on reads.
 */
module BPlusTreeChain {
  import opened Slots
  import opened BPlusTreeModel
  import opened BPlusTreeInsert
  import opened BPlusTreeDelete
  import opened BPlusTreeFault

  /** The leaf a search for `k` reaches. */
  function LeafFor(t: Tree, k: int): (r: Tree)
    requires Shape(t)
    ensures r.Leaf?
  {
    if t.Leaf? then t else LeafFor(t.kids[Descend(t.keys, k)], k)
  }

  lemma {:induction false} LeafIndexFinds(t: Tree, k: int)
    requires Shape(t)
    ensures LeafIndex(t, k) < |Leaves(t)| && Leaves(t)[LeafIndex(t, k)] == LeafFor(t, k)
  {
    if t.Node? {
      var d := Descend(t.keys, k);
      LeafIndexFinds(t.kids[d], k);
      LeavesOfSplit(t.kids, d);
    }
  }

  lemma AbsentBelow(t: Tree, least: int, lo: int, hi: int, h: nat, k: int)
    requires WF(t, least, lo, hi, h) && t.Node?
    requires lo <= k < hi && !HasKey(Flat(t), k)
    ensures |t.kids| == |t.keys| + 1
    ensures var d := Descend(t.keys, k);
            && WF(t.kids[d], MIN_KEYS, LoBound(t.keys, d, lo), HiBound(t.keys, d, hi), h - 1)
            && LoBound(t.keys, d, lo) <= k < HiBound(t.keys, d, hi)
            && !HasKey(Flat(t.kids[d]), k)
  {
    var keys, kids := t.keys, t.kids;
    var d := Descend(keys, k);
    Sandwich(keys, kids, lo, hi, h - 1, k);
    assert WF(kids[d], MIN_KEYS, LoBound(keys, d, lo), HiBound(keys, d, hi), h - 1);
    FlatSorted(kids[d], MIN_KEYS, LoBound(keys, d, lo), HiBound(keys, d, hi), h - 1);
    LeafPosBetween(FlatOf(kids[..d]), Flat(kids[d]), FlatOf(kids[d + 1..]), k);
  }

  /** One leaf of a list replaced by one or two. */
  ghost predicate Replaced(old_: seq<Tree>, x: nat, parts: seq<Tree>, new_: seq<Tree>) {
    x < |old_| && new_ == old_[..x] + parts + old_[x + 1..]
  }

  /** An insertion replaces the one leaf its search reaches and leaves the others alone. */
  lemma {:induction false} InsertRecLeaves(t: Tree, least: int, lo: int, hi: int, h: nat, e: Entry, next: int)
    requires WF(t, least, lo, hi, h)
    requires Shape(t) && least <= MIN_KEYS && lo <= e.key < hi
    requires !HasKey(Flat(t), e.key)
    ensures Replaced(Leaves(t), LeafIndex(t, e.key), LeafParts(LeafFor(t, e.key), e, next),
                     OutcomeLeaves(InsertRec(t, e, next)))
    decreases h
  {
    if t.Leaf? {
      FlatLeaf(t);
      LeafPartsCorrect(t, least, lo, hi, e, next);
    } else {
      var d := Descend(t.keys, e.key);
      AbsentBelow(t, least, lo, hi, h, e.key);
      InsertRecLeaves(t.kids[d], MIN_KEYS, LoBound(t.keys, d, lo), HiBound(t.keys, d, hi), h - 1, e, next);
      ReplacedOneLevelUp(t, least, lo, hi, h, e, next);
    }
  }

  lemma ReplacedOneLevelUp(t: Tree, least: int, lo: int, hi: int, h: nat, e: Entry, next: int)
    requires WF(t, least, lo, hi, h) && t.Node?
    requires Shape(t) && least <= MIN_KEYS && lo <= e.key < hi
    requires !HasKey(Flat(t), e.key)
    requires var c := t.kids[Descend(t.keys, e.key)];
             Replaced(Leaves(c), LeafIndex(c, e.key), LeafParts(LeafFor(c, e.key), e, next),
                      OutcomeLeaves(InsertRec(c, e, next)))
    ensures Replaced(Leaves(t), LeafIndex(t, e.key), LeafParts(LeafFor(t, e.key), e, next),
                     OutcomeLeaves(InsertRec(t, e, next)))
  {
    hide LeavesOf, Entries, LeafParts, InsertRec, Rebuild, Replaced, OutcomeLeaves;
    var keys, kids := t.keys, t.kids;
    var d := Descend(keys, e.key);
    var c := kids[d];
    var r := InsertRec(c, e, next);
    AbsentBelow(t, least, lo, hi, h, e.key);
    InsertRecCorrect(c, MIN_KEYS, LoBound(keys, d, lo), HiBound(keys, d, hi), h - 1, e, next);
    InsertRecNode(t, e, next);
    RebuildCorrect(t.id, keys, kids, lo, hi, h - 1, least, d, r);
    ReplacedBelow(kids, d, LeafIndex(c, e.key), LeafParts(LeafFor(c, e.key), e, next), OutcomeLeaves(r));
  }

  lemma InsertRecNode(t: Tree, e: Entry, next: int)
    requires Shape(t) && t.Node?
    ensures var d := Descend(t.keys, e.key);
            InsertRec(t, e, next) == Rebuild(t.id, t.keys, t.kids, d, InsertRec(t.kids[d], e, next))
  {
  }

  lemma ReplacedBelow(kids: seq<Tree>, d: nat, y: nat, parts: seq<Tree>, below: seq<Tree>)
    requires d < |kids|
    requires Replaced(Leaves(kids[d]), y, parts, below)
    ensures Replaced(LeavesOf(kids), |LeavesOf(kids[..d])| + y, parts,
                     LeavesOf(kids[..d]) + below + LeavesOf(kids[d + 1..]))
  {
    NestedLeaves(kids, d, y, parts);
  }

  lemma NestedLeaves(kids: seq<Tree>, d: nat, y: nat, parts: seq<Tree>)
    requires d < |kids| && y < |Leaves(kids[d])|
    ensures var x := |LeavesOf(kids[..d])| + y;
            && x < |LeavesOf(kids)|
            && LeavesOf(kids[..d]) + (Leaves(kids[d])[..y] + parts + Leaves(kids[d])[y + 1..]) + LeavesOf(kids[d + 1..])
                 == LeavesOf(kids)[..x] + parts + LeavesOf(kids)[x + 1..]
  {
    LeavesOfSplit(kids, d);
    Nested(LeavesOf(kids[..d]), Leaves(kids[d]), LeavesOf(kids[d + 1..]), y, parts);
  }

  lemma Nested(a: seq<Tree>, m: seq<Tree>, b: seq<Tree>, x: nat, parts: seq<Tree>)
    requires x < |m|
    ensures a + (m[..x] + parts + m[x + 1..]) + b
         == (a + m + b)[..|a| + x] + parts + (a + m + b)[|a| + x + 1..]
  {
    assert (a + m + b)[..|a| + x] == a + m[..x];
    assert (a + m + b)[|a| + x + 1..] == m[x + 1..] + b;
  }

  lemma SandwichRanges(keys: seq<int>, kids: seq<Tree>, lo: int, hi: int, h: nat, k: int)
    requires KidsOk(keys, kids, lo, hi, h)
    requires lo <= k < hi
    ensures var d := Descend(keys, k);
            && LoBound(keys, d, lo) <= k < HiBound(keys, d, hi)
            && InRange(FlatOf(kids[..d]), lo, k)
            && InRange(FlatOf(kids[d + 1..]), k + 1, hi)
            && lo <= LoBound(keys, d, lo) && HiBound(keys, d, hi) <= hi
            && WF(kids[d], MIN_KEYS, LoBound(keys, d, lo), HiBound(keys, d, hi), h)
  {
    Sandwich(keys, kids, lo, hi, h, k);
  }

  lemma {:induction false} LeafForWF(t: Tree, least: int, lo: int, hi: int, h: nat, k: int)
    requires WF(t, least, lo, hi, h) && Shape(t)
    requires lo <= k < hi
    ensures Sorted(LeafFor(t, k).es) && |LeafFor(t, k).es| <= LEAF_ORDER
    decreases h
  {
    if t.Node? {
      var d := Descend(t.keys, k);
      SandwichRanges(t.keys, t.kids, lo, hi, h - 1, k);
      LeafForWF(t.kids[d], MIN_KEYS, LoBound(t.keys, d, lo), HiBound(t.keys, d, hi), h - 1, k);
    }
  }

  /** All entries in leaves left of leaf `x` lie below the key, those in leaves to its right above. */
  ghost predicate Parts(leaves: seq<Tree>, x: nat, lo: int, hi: int, k: int) {
    && x < |leaves|
    && InRange(Entries(leaves[..x]), lo, k)
    && InRange(Entries(leaves[x + 1..]), k + 1, hi)
  }

  /** The leaf a search ends in parts the leaves at the key. */
  lemma {:induction false} LeafIndexParts(t: Tree, least: int, lo: int, hi: int, h: nat, k: int)
    requires WF(t, least, lo, hi, h) && Shape(t)
    requires lo <= k < hi
    ensures Parts(Leaves(t), LeafIndex(t, k), lo, hi, k)
    decreases h
  {
    hide LeavesOf, Entries, Parts, WF, FlatOf, InRange, KidsOk;
    if t.Leaf? {
      LoneLeafParts(t, lo, hi, k);
    } else {
      KidsOfNode(t, least, lo, hi, h);
      var d := Descend(t.keys, k);
      SandwichRanges(t.keys, t.kids, lo, hi, h - 1, k);
      LeafIndexParts(t.kids[d], MIN_KEYS, LoBound(t.keys, d, lo), HiBound(t.keys, d, hi), h - 1, k);
      PartsBelow(t.kids, d, LeafIndex(t.kids[d], k), LoBound(t.keys, d, lo), HiBound(t.keys, d, hi), lo, hi, k);
    }
  }

  lemma LoneLeafParts(t: Tree, lo: int, hi: int, k: int)
    requires t.Leaf?
    ensures Parts(Leaves(t), 0, lo, hi, k)
  {
    assert Leaves(t)[..0] == [] && Leaves(t)[1..] == [];
    assert Entries([]) == [];
  }

  lemma KidsOfNode(t: Tree, least: int, lo: int, hi: int, h: nat)
    requires WF(t, least, lo, hi, h) && t.Node?
    ensures h > 0 && KidsOk(t.keys, t.kids, lo, hi, h - 1)
  {
  }

  lemma PartsBelow(kids: seq<Tree>, d: nat, y: nat, lo': int, hi': int, lo: int, hi: int, k: int)
    requires d < |kids| && lo <= lo' && hi' <= hi && lo <= k < hi
    requires InRange(FlatOf(kids[..d]), lo, k) && InRange(FlatOf(kids[d + 1..]), k + 1, hi)
    requires Parts(Leaves(kids[d]), y, lo', hi', k)
    ensures Parts(LeavesOf(kids), |LeavesOf(kids[..d])| + y, lo, hi, k)
  {
    hide LeavesOf, Entries, Leaves;
    LeavesOfSplit(kids, d);
    AroundLeaf(LeavesOf(kids[..d]), Leaves(kids[d]), LeavesOf(kids[d + 1..]), y);
  }

  lemma AroundLeaf(a: seq<Tree>, m: seq<Tree>, b: seq<Tree>, y: nat)
    requires y < |m|
    ensures Entries((a + m + b)[..|a| + y]) == Entries(a) + Entries(m[..y])
    ensures Entries((a + m + b)[|a| + y + 1..]) == Entries(m[y + 1..]) + Entries(b)
  {
    assert (a + m + b)[..|a| + y] == a + m[..y];
    assert (a + m + b)[|a| + y + 1..] == m[y + 1..] + b;
    EntriesAppend(a, m[..y]);
    EntriesAppend(m[y + 1..], b);
  }

  lemma {:induction false} LeavesAreLeaves(t: Tree)
    ensures forall i | 0 <= i < |Leaves(t)| :: Leaves(t)[i].Leaf?
    ensures Shape(t) ==> |Leaves(t)| >= 1
  {
    if t.Node? {
      KidsLeavesAreLeaves(t.kids);
      if Shape(t) {
        LeavesAreLeaves(t.kids[0]);
        LeavesOfSplit(t.kids, 0);
      }
    }
  }

  lemma {:induction false} KidsLeavesAreLeaves(kids: seq<Tree>)
    ensures forall i | 0 <= i < |LeavesOf(kids)| :: LeavesOf(kids)[i].Leaf?
  {
    if kids != [] {
      LeavesAreLeaves(kids[0]);
      KidsLeavesAreLeaves(kids[1..]);
    }
  }

  // --- Positions in the run of all entries ---------------------------------------------------------

  /** Leaves other than a lone root are never empty. */
  lemma {:induction false} LeavesFilled(t: Tree, least: int, lo: int, hi: int, h: nat)
    requires WF(t, least, lo, hi, h) && t.Node?
    ensures forall i | 0 <= i < |Leaves(t)| :: Leaves(t)[i].Leaf? && |Leaves(t)[i].es| >= MIN_KEYS
    decreases h, 0
  {
    KidsLeavesFilled(t.keys, t.kids, lo, hi, h - 1);
  }

  lemma {:induction false} KidsLeavesFilled(keys: seq<int>, kids: seq<Tree>, lo: int, hi: int, h: nat)
    requires KidsOk(keys, kids, lo, hi, h)
    ensures forall i | 0 <= i < |LeavesOf(kids)| :: LeavesOf(kids)[i].Leaf? && |LeavesOf(kids)[i].es| >= MIN_KEYS
    decreases h, 1, |kids|
  {
    assert WF(kids[0], MIN_KEYS, LoBound(keys, 0, lo), HiBound(keys, 0, hi), h);
    if kids[0].Node? {
      LeavesFilled(kids[0], MIN_KEYS, LoBound(keys, 0, lo), HiBound(keys, 0, hi), h);
    }
    if |keys| > 0 {
      KidsSlice(keys, kids, lo, hi, h, 0);
      KidsLeavesFilled(keys[1..], kids[1..], keys[0], hi, h);
    }
  }

  /** Where the entries of leaf `j` begin. */
  function Offset(leaves: seq<Tree>, j: nat): nat
    requires j <= |leaves|
  {
    |Entries(leaves[..j])|
  }

  lemma EntriesOfOne(leaf: Tree)
    requires leaf.Leaf?
    ensures Entries([leaf]) == leaf.es
  {
    FlatLeaf(leaf);
  }

  lemma InTheMiddle(a: seq<Entry>, m: seq<Entry>, b: seq<Entry>, all: seq<Entry>)
    requires all == a + m + b
    ensures |a| + |m| <= |all| && forall i | 0 <= i < |m| :: all[|a| + i] == m[i]
  {
  }

  lemma AroundOne(leaves: seq<Tree>, j: nat)
    requires j < |leaves|
    ensures leaves == leaves[..j] + [leaves[j]] + leaves[j + 1..]
    ensures leaves[..j + 1] == leaves[..j] + [leaves[j]]
  {
  }

  lemma OffsetStep(leaves: seq<Tree>, j: nat)
    requires j < |leaves| && leaves[j].Leaf?
    ensures Offset(leaves, j + 1) == Offset(leaves, j) + |leaves[j].es|
    ensures Offset(leaves, j + 1) <= |Entries(leaves)|
    ensures forall i | 0 <= i < |leaves[j].es| :: Entries(leaves)[Offset(leaves, j) + i] == leaves[j].es[i]
  {
    hide Entries;
    var a, m, b := leaves[..j], [leaves[j]], leaves[j + 1..];
    AroundOne(leaves, j);
    EntriesThree(a, m, b);
    EntriesAppend(a, m);
    EntriesOfOne(leaves[j]);
    InTheMiddle(Entries(a), leaves[j].es, Entries(b), Entries(leaves));
  }

  /** A search for `k` ends exactly where `k` belongs among all entries. */
  lemma SearchPosition(t: Tree, least: int, lo: int, hi: int, h: nat, k: int)
    requires WF(t, least, lo, hi, h) && Shape(t)
    requires lo <= k < hi
    ensures LeafIndex(t, k) < |Leaves(t)| && Leaves(t)[LeafIndex(t, k)] == LeafFor(t, k)
    ensures LeafPos(Flat(t), k) == Offset(Leaves(t), LeafIndex(t, k)) + LeafPos(LeafFor(t, k).es, k)
  {
    var leaves, x, leaf := Leaves(t), LeafIndex(t, k), LeafFor(t, k);
    LeafIndexFinds(t, k);
    LeafIndexParts(t, least, lo, hi, h, k);
    LeafForWF(t, least, lo, hi, h, k);
    var a, m, b := leaves[..x], [leaf], leaves[x + 1..];
    assert leaves == a + m + b;
    EntriesThree(a, m, b);
    EntriesOfOne(leaf);
    LeafPosBetween(Entries(a), leaf.es, Entries(b), k);
  }

  // --- What a range query asks for -------------------------------------------------------------------

  predicate Inside(k: int, start: int, end: int, startOpen: bool, endOpen: bool) {
    && (if startOpen then start < k else start <= k)
    && (if endOpen then k < end else k <= end)
  }

  /** The locations of the entries from place `p` on that lie in an interval, in key order. */
  function Select(es: seq<Entry>, p: nat, start: int, end: int, startOpen: bool, endOpen: bool): seq<Location>
    requires p <= |es|
    decreases |es| - p
  {
    if p == |es| then []
    else (if Inside(es[p].key, start, end, startOpen, endOpen) then [es[p].loc] else [])
         + Select(es, p + 1, start, end, startOpen, endOpen)
  }

  lemma SelectStep(es: seq<Entry>, p: nat, start: int, end: int, so: bool, eo: bool, sofar: seq<Location>)
    requires p < |es|
    ensures sofar + Select(es, p, start, end, so, eo)
         == (if Inside(es[p].key, start, end, so, eo) then sofar + [es[p].loc] else sofar)
            + Select(es, p + 1, start, end, so, eo)
  {
  }

  /** Entries below the interval contribute nothing. */
  lemma {:induction false} SelectSkips(es: seq<Entry>, p: nat, q: nat, start: int, end: int, so: bool, eo: bool)
    requires p <= q <= |es|
    requires forall i | p <= i < q :: es[i].key < start
    ensures Select(es, p, start, end, so, eo) == Select(es, q, start, end, so, eo)
    decreases q - p
  {
    if p < q {
      SelectSkips(es, p + 1, q, start, end, so, eo);
    }
  }

  /** Neither do the entries behind it. */
  lemma {:induction false} SelectEnds(es: seq<Entry>, p: nat, start: int, end: int, so: bool, eo: bool)
    requires Sorted(es) && p <= |es|
    requires p < |es| ==> es[p].key > end || (eo && es[p].key == end)
    ensures Select(es, p, start, end, so, eo) == []
    decreases |es| - p
  {
    if p < |es| {
      SelectEnds(es, p + 1, start, end, so, eo);
    }
  }

  // --- Deletion ----------------------------------------------------------------------------------

  /** The place of the leaf that takes over its right neighbour's entries, or -1 when no leaves merge. */
  function MergeSpot(t: Tree, k: int): int
    requires Shape(t)
  {
    if t.Leaf? then -1
    else
      var d, i := Descend(t.keys, k), LowerBound(t.keys, k);
      if t.kids[d].Leaf? then
        if Underflows(t.kids[d], k) && !Lends(t.keys, t.kids, i) then (if i > 0 then i - 1 else i) else -1
      else
        var s := MergeSpot(t.kids[d], k);
        if s < 0 then -1 else |LeavesOf(t.kids[..d])| + s
  }

  lemma {:induction false} MergeSpotInside(t: Tree, k: int)
    requires Shape(t)
    ensures MergeSpot(t, k) >= 0 ==> MergeSpot(t, k) + 1 < |Leaves(t)|
  {
    if t.Node? {
      var d := Descend(t.keys, k);
      if t.kids[d].Leaf? {
        LeavesOfLeaves(t.kids);
      } else {
        MergeSpotInside(t.kids[d], k);
        LeavesOfSplit(t.kids, d);
      }
    }
  }

  /** The same pages in the same order, but for the one right of the merging leaf. */
  ghost predicate Dropped(old_: seq<Tree>, spot: int, new_: seq<Tree>) {
    && -1 <= spot && (spot >= 0 ==> spot + 1 < |old_|)
    && |new_| == |old_| - (if spot >= 0 then 1 else 0)
    && forall i | 0 <= i < |new_| :: new_[i].id == old_[if spot < 0 || i <= spot then i else i + 1].id
  }

  lemma {:induction false} LeavesOfLeaves(kids: seq<Tree>)
    requires forall i | 0 <= i < |kids| :: kids[i].Leaf?
    ensures LeavesOf(kids) == kids
  {
    if kids != [] {
      LeavesOfLeaves(kids[1..]);
    }
  }

  lemma RebalanceLeafIds(id: int, keys: seq<int>, kids: seq<Tree>, d: nat, i: nat)
    requires |kids| == |keys| + 1 && |keys| >= 1
    requires d < |kids| && i <= |keys| && kids[d].Count() < MIN_KEYS
    requires d == i || d == i + 1
    requires SameKind(kids) && OthersShaped(kids, d) && kids[0].Leaf?
    ensures var r := Rebalance(id, keys, kids, d, i);
            r.Removed? ==>
              && (forall j | 0 <= j < |r.t.kids| :: r.t.kids[j].Leaf?)
              && Dropped(kids, if Lends(keys, kids, i) then -1 else if i > 0 then i - 1 else i, r.t.kids)
  {
    if i > 0 && kids[i - 1].Count() > MIN_KEYS {
      assert Dropped(kids, -1, BorrowFromLeft(id, keys, kids, i, d).kids);
    } else if i < |keys| && kids[i + 1].Count() > MIN_KEYS {
      assert Dropped(kids, -1, BorrowFromRight(id, keys, kids, i, d).kids);
    } else {
      MergeLeafIds(id, keys, kids, if i > 0 then i - 1 else i);
    }
  }

  lemma MergeLeafIds(id: int, keys: seq<int>, kids: seq<Tree>, p: nat)
    requires p < |keys| < |kids| && SameKind(kids) && kids[0].Leaf?
    ensures var r := MergeChildren(id, keys, kids, p);
            r.Removed? ==>
              && (forall j | 0 <= j < |r.t.kids| :: r.t.kids[j].Leaf?)
              && Dropped(kids, p, r.t.kids)
  {
  }

  lemma LowestLevelLeafIds(t: Tree, k: int, least: int, lo: int, hi: int, h: nat)
    requires WF(t, least, lo, hi, h) && Shape(t) && t.Node?
    requires lo < hi && !Fault(t, k) && t.kids[0].Leaf?
    ensures var r := DeleteRec(t, k);
            r.Removed? ==> Dropped(Leaves(t), MergeSpot(t, k), Leaves(r.t))
  {
    hide LeavesOf, Rebalance, WF, KidsOk;
    var keys, kids := t.keys, t.kids;
    var d, i := Descend(keys, k), LowerBound(keys, k);
    var r := DeleteRec(t, k);
    BelowRestored(t, k, least, lo, hi, h);
    if r.Removed? {
      var c := DeleteRec(kids[d], k).t;
      if c.Count() < MIN_KEYS {
        RebalanceLeafIds(t.id, keys, kids[d := c], d, i);
      }
      LeavesOfLeaves(kids);
      LeavesOfLeaves(r.t.kids);
    }
  }

  /** A deletion that keeps the tree whole drops at most the one leaf that was merged away. */
  lemma LeafStays(t: Tree, k: int)
    requires t.Leaf?
    ensures var r := DeleteRec(t, k); r.Removed? ==> Dropped(Leaves(t), MergeSpot(t, k), Leaves(r.t))
  {
  }

  lemma {:induction false} DeleteRecLeafIds(t: Tree, k: int, least: int, lo: int, hi: int, h: nat)
    requires WF(t, least, lo, hi, h) && Shape(t)
    requires lo < hi && !Fault(t, k)
    ensures var r := DeleteRec(t, k);
            r.Removed? ==> Dropped(Leaves(t), MergeSpot(t, k), Leaves(r.t))
    decreases h
  {
    hide LeavesOf, Rebalance, Dropped, Entries;
    if t.Leaf? {
      LeafStays(t, k);
    } else {
      var keys, kids := t.keys, t.kids;
      var d := Descend(keys, k);
      assert WF(kids[d], MIN_KEYS, LoBound(keys, d, lo), HiBound(keys, d, hi), h - 1);
      if kids[0].Leaf? {
        LowestLevelLeafIds(t, k, least, lo, hi, h);
      } else if DeleteRec(t, k).Removed? {
        HigherLevelLeaves(t, k, least, lo, hi, h);
        DeleteRecLeafIds(kids[d], k, MIN_KEYS, LoBound(keys, d, lo), HiBound(keys, d, hi), h - 1);
        DroppedBelow(kids, d, MergeSpot(kids[d], k), Leaves(DeleteRec(kids[d], k).t));
      }
    }
  }

  lemma DroppedBelow(kids: seq<Tree>, d: nat, s: int, below: seq<Tree>)
    requires d < |kids|
    requires Dropped(Leaves(kids[d]), s, below)
    ensures Dropped(LeavesOf(kids), if s < 0 then -1 else |LeavesOf(kids[..d])| + s,
                    LeavesOf(kids[..d]) + below + LeavesOf(kids[d + 1..]))
  {
    LeavesOfSplit(kids, d);
  }

  lemma HigherLevelLeaves(t: Tree, k: int, least: int, lo: int, hi: int, h: nat)
    requires WF(t, least, lo, hi, h) && Shape(t) && t.Node?
    requires lo < hi && !Fault(t, k) && t.kids[0].Node?
    ensures var d := Descend(t.keys, k);
            var r := DeleteRec(t, k);
            r.Removed? ==>
              && DeleteRec(t.kids[d], k).Removed?
              && Leaves(r.t) == LeavesOf(t.kids[..d]) + Leaves(DeleteRec(t.kids[d], k).t) + LeavesOf(t.kids[d + 1..])
  {
    var keys, kids := t.keys, t.kids;
    var d, i := Descend(keys, k), LowerBound(keys, k);
    var r := DeleteRec(kids[d], k);
    hide LeavesOf, Fault, Entries;
    if r.Removed? {
      assert WF(kids[d], MIN_KEYS, LoBound(keys, d, lo), HiBound(keys, d, hi), h - 1);
      DeleteRestoresShape(kids[d], k, MIN_KEYS, LoBound(keys, d, lo), HiBound(keys, d, hi), h - 1);
      LeavesOneForOne(kids, d, r.t);
      if r.t.Count() < MIN_KEYS {
        RebalanceCorrect(t.id, keys, kids, lo, hi, h - 1, d, i, r.t);
        RebalanceFlat(t.id, keys, kids[d := r.t], d, i);
      }
    }
  }
}
