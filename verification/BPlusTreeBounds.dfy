/** How full a well-formed tree is, and trees on which deletion goes wrong. */
module BPlusTreeBounds {
  import opened BPlusTreeModel
  import opened BPlusTreeDelete
  import opened BPlusTreeFault

  // --- Size against height ---------------------------------------------------------------------

  /** The fewest entries below a node of height `h` that is not the root. */
  function FewestEntries(h: nat): (r: nat)
    ensures r >= MIN_KEYS
  {
    if h == 0 then MIN_KEYS else (MIN_KEYS + 1) * FewestEntries(h - 1)
  }

  function MostEntries(h: nat): (r: nat)
    ensures r >= LEAF_ORDER
  {
    if h == 0 then LEAF_ORDER else (INTERNAL_ORDER + 1) * MostEntries(h - 1)
  }

  lemma NodeSize(n: nat, total: nat, few: nat, most: nat)
    requires n * few <= total <= n * most && n <= 31
    ensures total <= 31 * most
    ensures n >= 2 ==> total >= 2 * few
    ensures n >= 16 ==> total >= 16 * few
  {
    assert (31 - n) * most >= 0;
    assert n >= 2 ==> (n - 2) * few >= 0;
    assert n >= 16 ==> (n - 16) * few >= 0;
  }

  lemma SizesAbove(h: nat)
    requires h > 0
    ensures FewestEntries(h) == 16 * FewestEntries(h - 1) && MostEntries(h) == 31 * MostEntries(h - 1)
  {
  }

  lemma {:induction false} EntriesOfHeight(t: Tree, least: int, lo: int, hi: int, h: nat)
    requires WF(t, least, lo, hi, h)
    ensures |Flat(t)| <= MostEntries(h)
    ensures least >= MIN_KEYS ==> |Flat(t)| >= FewestEntries(h)
    ensures t.Node? && least >= 1 ==> |Flat(t)| >= 2 * FewestEntries(h - 1)
    decreases h, 0
  {
    if t.Leaf? {
      FlatLeaf(t);
    } else {
      hide LeavesOf, Entries, FewestEntries, MostEntries;
      SizesAbove(h);
      EntriesOfKids(t.keys, t.kids, lo, hi, h - 1);
      NodeSize(|t.kids|, |FlatOf(t.kids)|, FewestEntries(h - 1), MostEntries(h - 1));
    }
  }

  lemma FirstKid(keys: seq<int>, kids: seq<Tree>, lo: int, hi: int, h: nat)
    requires KidsOk(keys, kids, lo, hi, h)
    ensures |kids| == |keys| + 1 && WF(kids[0], MIN_KEYS, LoBound(keys, 0, lo), HiBound(keys, 0, hi), h)
  {
  }

  lemma OneMore(n: nat, size: nat)
    ensures (n + 1) * size == n * size + size
  {
  }

  lemma {:induction false} EntriesOfKids(keys: seq<int>, kids: seq<Tree>, lo: int, hi: int, h: nat)
    requires KidsOk(keys, kids, lo, hi, h)
    ensures |kids| * FewestEntries(h) <= |FlatOf(kids)| <= |kids| * MostEntries(h)
    decreases h, 1, |kids|
  {
    hide Entries, LeavesOf, FewestEntries, MostEntries;
    FirstKid(keys, kids, lo, hi, h);
    EntriesOfHeight(kids[0], MIN_KEYS, LoBound(keys, 0, lo), HiBound(keys, 0, hi), h);
    if |keys| == 0 {
      assert kids == [kids[0]];
      FlatOfOne(kids[0]);
    } else {
      FlatOfAppend([kids[0]], kids[1..]);
      FlatOfOne(kids[0]);
      assert kids == [kids[0]] + kids[1..];
      KidsSlice(keys, kids, lo, hi, h, 0);
      EntriesOfKids(keys[1..], kids[1..], keys[0], hi, h);
      OneMore(|kids| - 1, FewestEntries(h));
      OneMore(|kids| - 1, MostEntries(h));
    }
  }

  /** A tree of height h >= 1 above its leaves holds between 30 * 16^(h-1) and 30 * 31^h entries. */
  lemma HeightBounds(t: Tree, lo: int, hi: int, h: nat)
    requires RootWF(t, lo, hi, h)
    ensures |Flat(t)| <= MostEntries(h)
    ensures h >= 1 ==> |Flat(t)| >= 2 * FewestEntries(h - 1)
  {
    EntriesOfHeight(t, if t.Leaf? then 0 else 1, lo, hi, h);
  }

  // --- Trees that deletion breaks ----------------------------------------------------------------

  /** `n` consecutive keys from `from` on. */
  function Run(from: int, n: nat): (r: seq<Entry>)
    ensures |r| == n
    ensures forall i | 0 <= i < n :: r[i].key == from + i
  {
    seq(n, i => Entry(from + i, Location(1, 0)))
  }

  /** Two leaves, of which the left is full and the right half full. */
  function TwoLeaves(): Tree {
    Node(3, [30], [Leaf(1, Run(0, 30)), Leaf(2, Run(30, 15))])
  }

  lemma TwoLeavesWF()
    ensures RootWF(TwoLeaves(), 0, 100, 1) && Shape(TwoLeaves())
  {
    var t := TwoLeaves();
    assert WF(t.kids[0], MIN_KEYS, LoBound(t.keys, 0, 0), HiBound(t.keys, 0, 100), 0);
    assert WF(t.kids[1], MIN_KEYS, LoBound(t.keys, 1, 0), HiBound(t.keys, 1, 100), 0);
    assert KidsOk(t.keys, t.kids, 0, 100, 0);
  }

  /**
   Deleting the key that separates the two leaves makes the code take the right leaf for its left
   neighbour's place, and merge 30 and 14 entries into one page.
   */
  lemma SeparatorDeletionOverruns()
    ensures Shape(TwoLeaves())
    ensures Fault(TwoLeaves(), 30) && Delete(TwoLeaves(), 30) == Overrun
  {
    TwoLeavesWF();
    var t := TwoLeaves();
    LowerBoundUnique(t.keys, 30, 0);
    LeafPosUnique(t.kids[1].es, 30, 0);
    assert t.kids[1].es[0].key == 30;
    assert HasKey(t.kids[1].es, 30);
    assert Underflows(t.kids[1], 30);
  }

  /** An internal node over `n + 1` half-full leaves of consecutive keys from `from` on. */
  function Row(id: int, from: int, n: nat): (r: Tree)
    ensures r.Node? && |r.keys| == n && |r.kids| == n + 1
  {
    Node(id, seq(n, i => from + 15 * (i + 1)), seq(n + 1, i => Leaf(id + 1 + i, Run(from + 15 * i, 15))))
  }

  lemma RowWF(id: int, from: int, n: nat, lo: int, hi: int)
    requires 15 <= n <= 30 && lo <= from && from + 15 * (n + 1) <= hi
    ensures WF(Row(id, from, n), MIN_KEYS, lo, hi, 1)
  {
    var t := Row(id, from, n);
    forall i | 0 <= i < |t.kids|
      ensures WF(t.kids[i], MIN_KEYS, LoBound(t.keys, i, lo), HiBound(t.keys, i, hi), 0)
    {
    }
    assert KidsOk(t.keys, t.kids, lo, hi, 0);
  }

  /** Two rows, of which the right one has a child to spare. */
  function TwoRows(): Tree {
    Node(100, [240], [Row(200, 0, 15), Row(300, 240, 16)])
  }

  lemma TwoRowsWF()
    ensures RootWF(TwoRows(), 0, 1000, 2) && Shape(TwoRows())
  {
    var t := TwoRows();
    RowWF(200, 0, 15, 0, 240);
    RowWF(300, 240, 16, 240, 1000);
    assert WF(t.kids[0], MIN_KEYS, LoBound(t.keys, 0, 0), HiBound(t.keys, 0, 1000), 1);
    assert WF(t.kids[1], MIN_KEYS, LoBound(t.keys, 1, 0), HiBound(t.keys, 1, 1000), 1);
    assert KidsOk(t.keys, t.kids, 0, 1000, 1);
    ShapeOfWF(t, 1, 0, 1000, 2);
  }

  /** Deleting the very first key merges two leaves, and the row above borrows from its right neighbour. */
  lemma InternalBorrowBreaks()
    ensures Shape(TwoRows()) && Fault(TwoRows(), 0)
    ensures !DeletesExactly(TwoRows(), 0, 0, 1000)
  {
    TwoRowsWF();
    var t := TwoRows();
    var row := t.kids[0];
    assert t.keys[0] == 240 && row.keys[0] == 15 && row.kids[0].es[0].key == 0;
    LowerBoundUnique(t.keys, 0, 0);
    LowerBoundUnique(row.keys, 0, 0);
    assert Shrinks(row.kids[0], 0);
    assert Underflows(row.kids[0], 0);
    assert row.kids[1].Count() == 15;
    assert Shrinks(row, 0);
    assert Underflows(row, 0);
    assert BadRebalance(t.keys, t.kids, 0, 0);
    DeleteUnsound(t, 0, 0, 1000, 2);
  }
}
