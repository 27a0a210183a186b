/** The pages that one operation on an index fetches: so few that none of them leaves the cache before the operation ends. */
module TreeHandles {
  import opened BPlusTreeModel
  import opened BPlusTreeDelete
  import opened BPlusTreeFault
  import opened BPlusTreeChain
  import opened BPlusTreeBounds
  import opened BPlusTrees
  import LruOrder
  import BufferPools
  import BPlusTreeInsert

  // The page that holds the place of the root.
  const HEADER := 0

  /** A search, down to its leaf. */
  function SearchFetches(t: Tree, k: int): seq<int>
    requires Shape(t)
  {
    [t.id] + if t.Leaf? then [] else SearchFetches(t.kids[Descend(t.keys, k)], k)
  }

  /**
   An insertion: the path down, and on the way back a new page for every node that splits; behind a leaf that
   splits, the leaf after it as well, if there is one (`after`).
   */
  function InsertFetches(t: Tree, e: Entry, next: int, after: seq<int>): seq<int>
    requires Shape(t)
  {
    match t
    case Leaf(id, es) => [id] + if |es| < LEAF_ORDER then [] else [next] + after
    case Node(id, keys, kids) =>
      var d := Descend(keys, e.key);
      var below := BPlusTreeInsert.InsertRec(kids[d], e, next);
      [id] + InsertFetches(kids[d], e, next, after)
      + if BPlusTreeInsert.Rebuild(id, keys, kids, d, below).Split? then [below.next] else []
  }

  /** With a new root if the old one splits, and then the header page. */
  function InsertAllFetches(t: Tree, e: Entry, next: int, after: seq<int>): seq<int>
    requires Shape(t)
  {
    var r := BPlusTreeInsert.InsertRec(t, e, next);
    InsertFetches(t, e, next, after) + if r.Split? then [r.next, HEADER] else []
  }

  /** The siblings looked at for a node that underflows, and the two nodes of a merge once more. */
  function RebalanceFetches(keys: seq<int>, kids: seq<Tree>, i: nat, after: seq<int>): seq<int>
    requires |kids| == |keys| + 1 && 1 <= |keys| && i <= |keys|
  {
    var left := if i > 0 then [kids[i - 1].id] else [];
    if i > 0 && kids[i - 1].Count() > MIN_KEYS then left
    else
      var right := if i < |keys| then [kids[i + 1].id] else [];
      if i < |keys| && kids[i + 1].Count() > MIN_KEYS then left + right
      else
        var p := if i > 0 then i - 1 else i;
        left + right + [kids[p].id, kids[p + 1].id] + if kids[p].Leaf? then after else []
  }

  function DeleteFetches(t: Tree, k: int, after: seq<int>): seq<int>
    requires Shape(t)
  {
    match t
    case Leaf(id, _) => [id]
    case Node(id, keys, kids) =>
      var d := Descend(keys, k);
      var below := DeleteRec(kids[d], k);
      [id] + DeleteFetches(kids[d], k, after)
      + if below.Removed? && below.t.Count() < MIN_KEYS
        then RebalanceFetches(keys, kids[d := below.t], LowerBound(keys, k), after) else []
  }

  /** With the header page if the root gives way to its only child. */
  function DeleteAllFetches(t: Tree, k: int, after: seq<int>): seq<int>
    requires Shape(t)
  {
    DeleteFetches(t, k, after) + [HEADER]
  }

  // --- How many ------------------------------------------------------------------------------------------------------

  lemma ChildAt(t: Tree, least: int, lo: int, hi: int, h: nat, d: nat)
    requires WF(t, least, lo, hi, h) && t.Node? && d < |t.kids|
    ensures h > 0 && d <= |t.keys| && WF(t.kids[d], MIN_KEYS, LoBound(t.keys, d, lo), HiBound(t.keys, d, hi), h - 1)
  {
  }

  lemma {:induction false} InsertFetchesFew(t: Tree, e: Entry, next: int, after: seq<int>, least: int, lo: int, hi: int, h: nat)
    requires WF(t, least, lo, hi, h) && Shape(t) && |after| <= 1
    ensures |InsertFetches(t, e, next, after)| <= 2 * h + 3
    decreases h
  {
    hide WF, Shape, BPlusTreeInsert.InsertRec, BPlusTreeInsert.Rebuild, LoBound, HiBound;
    if t.Node? {
      var d := ShapedChild(t, e.key);
      ChildAt(t, least, lo, hi, h, d);
      InsertFetchesFew(t.kids[d], e, next, after, MIN_KEYS, LoBound(t.keys, d, lo), HiBound(t.keys, d, hi), h - 1);
    }
  }

  lemma ShapedChild(t: Tree, k: int) returns (d: nat)
    requires Shape(t) && t.Node?
    ensures d == Descend(t.keys, k) && d < |t.kids| == |t.keys| + 1 && 1 <= |t.keys| && Shape(t.kids[d])
  {
    d := Descend(t.keys, k);
  }

  lemma {:induction false} DeleteFetchesFew(t: Tree, k: int, after: seq<int>, least: int, lo: int, hi: int, h: nat)
    requires WF(t, least, lo, hi, h) && Shape(t) && |after| <= 1
    ensures |DeleteFetches(t, k, after)| <= 6 * h + 1
    decreases h
  {
    hide WF, Shape, DeleteRec, LoBound, HiBound, RebalanceFetches;
    if t.Node? {
      var d := ShapedChild(t, k);
      ChildAt(t, least, lo, hi, h, d);
      DeleteFetchesFew(t.kids[d], k, after, MIN_KEYS, LoBound(t.keys, d, lo), HiBound(t.keys, d, hi), h - 1);
      var below := DeleteRec(t.kids[d], k);
      if below.Removed? {
        RebalanceFetchesFew(t.keys, t.kids[d := below.t], LowerBound(t.keys, k), after);
      }
    }
  }

  lemma RebalanceFetchesFew(keys: seq<int>, kids: seq<Tree>, i: nat, after: seq<int>)
    requires |kids| == |keys| + 1 && 1 <= |keys| && i <= |keys| && |after| <= 1
    ensures |RebalanceFetches(keys, kids, i, after)| <= 5
  {
  }

  lemma {:induction false} SearchFetchesFew(t: Tree, k: int, least: int, lo: int, hi: int, h: nat)
    requires WF(t, least, lo, hi, h) && Shape(t)
    ensures |SearchFetches(t, k)| == h + 1
    decreases h
  {
    hide WF, Shape, LoBound, HiBound;
    if t.Node? {
      var d := ShapedChild(t, k);
      ChildAt(t, least, lo, hi, h, d);
      SearchFetchesFew(t.kids[d], k, MIN_KEYS, LoBound(t.keys, d, lo), HiBound(t.keys, d, hi), h - 1);
    } else {
      LeafHeight(t, least, lo, hi, h);
    }
  }

  lemma LeafHeight(t: Tree, least: int, lo: int, hi: int, h: nat)
    requires WF(t, least, lo, hi, h) && t.Leaf?
    ensures h == 0
  {
  }

  /** Rows have a page of 32 bits and a slot of 16, so there are fewer than 2^48. */
  const MOST_ROWS: nat := 0x1_0000_0000_0000

  lemma {:induction false} FewestGrows(a: nat, b: nat)
    requires a <= b
    ensures FewestEntries(a) <= FewestEntries(b)
  {
    if a < b {
      FewestGrows(a, b - 1);
      SizesAbove(b);
    }
  }

  lemma HighTrees()
    ensures 2 * FewestEntries(11) > MOST_ROWS
  {
    hide FewestEntries;
    LeafLevel();
    SizesAbove(1);
    SizesAbove(2);
    SizesAbove(3);
    SizesAbove(4);
    SizesAbove(5);
    SizesAbove(6);
    SizesAbove(7);
    SizesAbove(8);
    SizesAbove(9);
    SizesAbove(10);
    SizesAbove(11);
  }

  lemma LeafLevel()
    ensures FewestEntries(0) == MIN_KEYS
  {
  }

  /** No index of a table is higher than that. */
  lemma HeightOfIndex(t: Tree, lo: int, hi: int, h: nat)
    requires RootWF(t, lo, hi, h) && |Flat(t)| <= MOST_ROWS
    ensures h <= 11
  {
    hide FewestEntries, MostEntries;
    HeightBounds(t, lo, hi, h);
    if h > 11 {
      FewestGrows(11, h - 1);
      HighTrees();
    }
  }

  // --- None is lost ----------------------------------------------------------------------------------------------------------

  /** Every page that is fetched is still in the cache when the last one is, whatever was fetched before. */
  ghost predicate AllHeld(fetched: seq<int>) {
    forall before: seq<int>, i, j | 0 <= i < j <= |fetched| ::
      fetched[i] in LruOrder.Run(before + fetched[..j], BufferPools.MAX_CAPACITY)
  }

  lemma {:induction false} DistinctFew(ids: seq<int>, x: int)
    ensures |set y | y in ids && y != x| <= |ids|
  {
    if ids != [] {
      DistinctFew(ids[1..], x);
      var rest := set y | y in ids[1..] && y != x;
      LruOrder.SubsetIsSmaller((set y | y in ids && y != x), rest + {ids[0]});
    }
  }

  lemma FewAreHeld(fetched: seq<int>)
    requires |fetched| <= BufferPools.MAX_CAPACITY
    ensures AllHeld(fetched)
  {
    hide LruOrder.Run;
    forall before: seq<int>, i, j | 0 <= i < j <= |fetched|
      ensures fetched[i] in LruOrder.Run(before + fetched[..j], BufferPools.MAX_CAPACITY)
    {
      var x, more := fetched[i], fetched[i + 1..];
      DistinctFew(more, x);
      LruOrder.HeldThroughout(before + fetched[..i], x, more, BufferPools.MAX_CAPACITY, j - i - 1);
      assert before + fetched[..i] + [x] + more[..j - i - 1] == before + fetched[..j];
    }
  }

  /**
   From the first page that an insertion, a deletion or a search fetches to its last: every page is still in the
   cache, so that no write through a node that is held is lost.
   */
  lemma OperationsHoldTheirPages(t: Tree, lo: int, hi: int, h: nat, e: Entry, next: int, k: int, after: seq<int>)
    requires RootWF(t, lo, hi, h) && Shape(t) && |Flat(t)| <= MOST_ROWS && |after| <= 1
    ensures AllHeld(SearchFetches(t, k)) && AllHeld(InsertAllFetches(t, e, next, after)) && AllHeld(DeleteAllFetches(t, k, after))
  {
    hide AllHeld, WF, Shape, SearchFetches, InsertFetches, DeleteFetches, Flat;
    HeightOfIndex(t, lo, hi, h);
    var least := if t.Leaf? then 0 else 1;
    SearchFetchesFew(t, k, least, lo, hi, h);
    InsertFetchesFew(t, e, next, after, least, lo, hi, h);
    DeleteFetchesFew(t, k, after, least, lo, hi, h);
    FewAreHeld(SearchFetches(t, k));
    FewAreHeld(InsertAllFetches(t, e, next, after));
    FewAreHeld(DeleteAllFetches(t, k, after));
  }
}
