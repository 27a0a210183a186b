/**
 Insertion into the B+ tree, as the change it makes to the tree its pages hold, and the proof that it
 adds exactly one entry to the sorted run and restores the whole invariant.
 */
module BPlusTreeInsert {
  import opened Slots
  import opened BPlusTreeModel

  /**
   What an insertion below a node leaves: one tree, or two with the key that now separates them.
   `next` is the id of the first page not yet allocated.
   */
  datatype Outcome =
    | Fits(t: Tree, next: int)
    | Split(left: Tree, key: int, right: Tree, next: int)

  /** The leaf a new entry goes to, replaced by one leaf or, when it was full, by two. */
  function LeafParts(leaf: Tree, e: Entry, next: int): (r: seq<Tree>)
    requires leaf.Leaf?
    ensures forall i | 0 <= i < |r| :: r[i].Leaf?
  {
    var all := InsertAt(leaf.es, LeafPos(leaf.es, e.key), e);
    if |leaf.es| < LEAF_ORDER then [Leaf(leaf.id, all)]
    else
      var mid := |all| / 2;
      [Leaf(leaf.id, all[..mid]), Leaf(next, all[mid..])]
  }

  function InsertRec(t: Tree, e: Entry, next: int): Outcome
    requires Shape(t)
  {
    match t
    case Leaf(_, _) =>
      var parts := LeafParts(t, e, next);
      if |parts| == 1 then Fits(parts[0], next)
      else Split(parts[0], parts[1].es[0].key, parts[1], next + 1)
    case Node(id, keys, kids) =>
      var d := Descend(keys, e.key);
      Rebuild(id, keys, kids, d, InsertRec(kids[d], e, next))
  }

  /** Takes what is left of child `d` back into its parent. */
  function Rebuild(id: int, keys: seq<int>, kids: seq<Tree>, d: nat, r: Outcome): Outcome
    requires d < |kids| == |keys| + 1
  {
    match r
    case Fits(c, n) => Fits(Node(id, keys, kids[d := c]), n)
    case Split(l, k, r, n) =>
      var j := LowerBound(keys, k);
      MakeNode(id, InsertAt(keys, j, k), InsertAt(kids[d := l], j + 1, r), n)
  }

  /** An internal node, or two when it would hold more keys than fit its page. */
  function MakeNode(id: int, keys: seq<int>, kids: seq<Tree>, next: int): Outcome
    requires |kids| == |keys| + 1
  {
    if |keys| <= INTERNAL_ORDER then Fits(Node(id, keys, kids), next)
    else
      var mid := |keys| / 2;
      Split(Node(id, keys[..mid], kids[..mid + 1]), keys[mid],
            Node(next, keys[mid + 1..], kids[mid + 1..]), next + 1)
  }

  /** Insertion at the root, which grows a new root above a root that split. */
  function Insert(t: Tree, e: Entry, next: int): (Tree, int)
    requires Shape(t)
  {
    match InsertRec(t, e, next)
    case Fits(t', n) => (t', n)
    case Split(l, k, r, n) => (Node(n, [k], [l, r]), n + 1)
  }

  function OutcomeLeaves(r: Outcome): seq<Tree> {
    if r.Fits? then Leaves(r.t) else Leaves(r.left) + Leaves(r.right)
  }

  /** The place, among all leaves, of the leaf a search for `k` reaches. */
  function LeafIndex(t: Tree, k: int): nat
    requires Shape(t)
  {
    if t.Leaf? then 0
    else
      var d := Descend(t.keys, k);
      |LeavesOf(t.kids[..d])| + LeafIndex(t.kids[d], k)
  }

  ghost predicate OutcomeWF(r: Outcome, least: int, lo: int, hi: int, h: nat) {
    match r
    case Fits(t, _) => WF(t, least, lo, hi, h)
    case Split(l, k, r, _) => lo < k < hi && WF(l, MIN_KEYS, lo, k, h) && WF(r, MIN_KEYS, k, hi, h)
  }

  // --- Leaves ----------------------------------------------------------------------------------

  lemma LeafPartsCorrect(t: Tree, least: int, lo: int, hi: int, e: Entry, next: int)
    requires WF(t, least, lo, hi, 0)
    requires least <= MIN_KEYS && lo <= e.key < hi
    requires !HasKey(t.es, e.key)
    ensures OutcomeWF(InsertRec(t, e, next), least, lo, hi, 0)
    ensures OutcomeLeaves(InsertRec(t, e, next)) == LeafParts(t, e, next)
    ensures Entries(LeafParts(t, e, next)) == SortedInsert(t.es, e)
  {
    InsertSorted(t.es, e, lo, hi);
    if |t.es| < LEAF_ORDER {
      FlatLeaf(Leaf(t.id, SortedInsert(t.es, e)));
    } else {
      SplitLeafCorrect(t, e, next, SortedInsert(t.es, e), lo, hi);
    }
  }

  lemma SplitLeafCorrect(t: Tree, e: Entry, next: int, all: seq<Entry>, lo: int, hi: int)
    requires t.Leaf? && |t.es| == LEAF_ORDER && all == SortedInsert(t.es, e)
    requires Sorted(all) && InRange(all, lo, hi)
    ensures OutcomeWF(InsertRec(t, e, next), MIN_KEYS, lo, hi, 0)
    ensures OutcomeLeaves(InsertRec(t, e, next)) == LeafParts(t, e, next)
    ensures Entries(LeafParts(t, e, next)) == all
  {
    hide Sorted, InRange, Entries;
    var l, r := Leaf(t.id, all[..15]), Leaf(next, all[15..]);
    SplitInOrder(all, lo, hi);
    FlatLeaf(l);
    FlatLeaf(r);
    EntriesAppend([l], [r]);
    assert [l, r] == [l] + [r] && all == all[..15] + all[15..];
    TwoLeavesOfSplit(t, e, next);
  }

  lemma SplitInOrder(all: seq<Entry>, lo: int, hi: int)
    requires |all| == LEAF_ORDER + 1 && Sorted(all) && InRange(all, lo, hi)
    ensures lo < all[15].key < hi
    ensures Sorted(all[..15]) && InRange(all[..15], lo, all[15].key)
    ensures Sorted(all[15..]) && InRange(all[15..], all[15].key, hi)
  {
    LeafSlice(all, lo, hi, 15);
    assert all[15].key > all[0].key;
  }

  lemma TwoLeavesOfSplit(t: Tree, e: Entry, next: int)
    requires t.Leaf? && |t.es| == LEAF_ORDER
    ensures var all := SortedInsert(t.es, e);
            && LeafParts(t, e, next) == [Leaf(t.id, all[..15]), Leaf(next, all[15..])]
            && InsertRec(t, e, next) == Split(Leaf(t.id, all[..15]), all[15].key, Leaf(next, all[15..]), next + 1)
  {
    hide LeafPos, InsertAt;
  }

  // --- Internal nodes ----------------------------------------------------------------------------

  /** A promoted key that lies strictly inside a child's bounds belongs at that child. */
  lemma PromotedPosition(keys: seq<int>, lo: int, hi: int, d: nat, k: int)
    requires KeysOk(keys, lo, hi)
    requires d <= |keys|
    requires LoBound(keys, d, lo) < k < HiBound(keys, d, hi)
    ensures LowerBound(keys, k) == d
  {
    var j := LowerBound(keys, k);
    assert !(j < d);
    assert !(d < j);
  }

  lemma TwoForOne(keys: seq<int>, kids: seq<Tree>, lo: int, hi: int, h: nat, d: nat, l: Tree, k: int, r: Tree)
    requires KidsOk(keys, kids, lo, hi, h)
    requires d < |kids|
    requires LoBound(keys, d, lo) < k < HiBound(keys, d, hi)
    requires WF(l, MIN_KEYS, LoBound(keys, d, lo), k, h)
    requires WF(r, MIN_KEYS, k, HiBound(keys, d, hi), h)
    ensures KidsOk(InsertAt(keys, d, k), InsertAt(kids[d := l], d + 1, r), lo, hi, h)
  {
    hide WF;
    var keys', kids' := InsertAt(keys, d, k), InsertAt(kids[d := l], d + 1, r);
    forall i | 0 <= i < |kids'|
      ensures WF(kids'[i], MIN_KEYS, LoBound(keys', i, lo), HiBound(keys', i, hi), h)
    {
      if i < d {
        assert WF(kids[i], MIN_KEYS, LoBound(keys, i, lo), HiBound(keys, i, hi), h);
      } else if i > d + 1 {
        assert WF(kids[i - 1], MIN_KEYS, LoBound(keys, i - 1, lo), HiBound(keys, i - 1, hi), h);
      }
    }
  }

  lemma LeavesTwoForOne(kids: seq<Tree>, d: nat, l: Tree, r: Tree)
    requires d < |kids|
    ensures LeavesOf(InsertAt(kids[d := l], d + 1, r))
         == LeavesOf(kids[..d]) + (Leaves(l) + Leaves(r)) + LeavesOf(kids[d + 1..])
  {
    var rest := kids[d + 1..];
    hide LeavesOf, Leaves;
    assert InsertAt(kids[d := l], d + 1, r) == kids[..d] + ([l] + ([r] + rest));
    LeavesOfAppend(kids[..d], [l] + ([r] + rest));
    LeavesOfCons(l, [r] + rest);
    LeavesOfCons(r, rest);
  }

  lemma LeavesOneForOne(kids: seq<Tree>, d: nat, c: Tree)
    requires d < |kids|
    ensures LeavesOf(kids[d := c]) == LeavesOf(kids[..d]) + Leaves(c) + LeavesOf(kids[d + 1..])
  {
    assert kids[d := c] == kids[..d] + ([c] + kids[d + 1..]);
    LeavesOfAppend(kids[..d], [c] + kids[d + 1..]);
    LeavesOfCons(c, kids[d + 1..]);
  }

  lemma MakeNodeLeaves(id: int, keys: seq<int>, kids: seq<Tree>, next: int)
    requires |kids| == |keys| + 1
    ensures OutcomeLeaves(MakeNode(id, keys, kids, next)) == LeavesOf(kids)
  {
    hide LeavesOf;
    var mid := |keys| / 2;
    if |keys| > INTERNAL_ORDER {
      LeavesOfAppend(kids[..mid + 1], kids[mid + 1..]);
      assert kids == kids[..mid + 1] + kids[mid + 1..];
    }
  }

  lemma NodeWF(id: int, keys: seq<int>, kids: seq<Tree>, lo: int, hi: int, h: nat, least: int)
    requires KidsOk(keys, kids, lo, hi, h) && least <= |keys| <= INTERNAL_ORDER
    ensures WF(Node(id, keys, kids), least, lo, hi, h + 1)
    ensures Leaves(Node(id, keys, kids)) == LeavesOf(kids)
  {
  }

  lemma MakeNodeWF(id: int, keys: seq<int>, kids: seq<Tree>, lo: int, hi: int, h: nat, least: int, next: int)
    requires KidsOk(keys, kids, lo, hi, h)
    requires least <= |keys| <= INTERNAL_ORDER + 1
    ensures OutcomeWF(MakeNode(id, keys, kids, next), least, lo, hi, h + 1)
  {
    if |keys| > INTERNAL_ORDER {
      KidsSlice(keys, kids, lo, hi, h, |keys| / 2);
    }
  }

  lemma RebuildCorrect(id: int, keys: seq<int>, kids: seq<Tree>, lo: int, hi: int, h: nat, least: int,
                       d: nat, r: Outcome)
    requires KidsOk(keys, kids, lo, hi, h) && least <= |keys| <= INTERNAL_ORDER
    requires d < |kids|
    requires OutcomeWF(r, MIN_KEYS, LoBound(keys, d, lo), HiBound(keys, d, hi), h)
    ensures OutcomeWF(Rebuild(id, keys, kids, d, r), least, lo, hi, h + 1)
    ensures OutcomeLeaves(Rebuild(id, keys, kids, d, r))
         == LeavesOf(kids[..d]) + OutcomeLeaves(r) + LeavesOf(kids[d + 1..])
  {
    hide WF, LeavesOf, MakeNode;
    match r
    case Fits(c, n) =>
      KidsReplace(keys, kids, lo, hi, h, d, c);
      NodeWF(id, keys, kids[d := c], lo, hi, h, least);
      LeavesOneForOne(kids, d, c);
    case Split(l, k, r, n) =>
      PromotedPosition(keys, lo, hi, d, k);
      TwoForOne(keys, kids, lo, hi, h, d, l, k, r);
      LeavesTwoForOne(kids, d, l, r);
      MakeNodeWF(id, InsertAt(keys, d, k), InsertAt(kids[d := l], d + 1, r), lo, hi, h, least, n);
      MakeNodeLeaves(id, InsertAt(keys, d, k), InsertAt(kids[d := l], d + 1, r), n);
  }

  // --- The whole descent ---------------------------------------------------------------------------

  /**
   One level of the descent: the invariant is restored, the leaf the search reaches is replaced by
   one or two leaves, and nothing else moves.
   */
  lemma {:induction false} InsertRecCorrect(t: Tree, least: int, lo: int, hi: int, h: nat, e: Entry, next: int)
    requires WF(t, least, lo, hi, h)
    requires Shape(t) && least <= MIN_KEYS && lo <= e.key < hi
    requires !HasKey(Flat(t), e.key)
    ensures OutcomeWF(InsertRec(t, e, next), least, lo, hi, h)
    ensures Entries(OutcomeLeaves(InsertRec(t, e, next))) == SortedInsert(Flat(t), e)
    decreases h
  {
    hide OutcomeWF, OutcomeLeaves, Rebuild, LeavesOf, Entries, SortedInsert, LeafParts;
    if t.Leaf? {
      FlatLeaf(t);
      LeafPartsCorrect(t, least, lo, hi, e, next);
    } else {
      var id, keys, kids := t.id, t.keys, t.kids;
      var d := Descend(keys, e.key);
      var lo', hi' := LoBound(keys, d, lo), HiBound(keys, d, hi);
      Sandwich(keys, kids, lo, hi, h - 1, e.key);
      var A, M, B := FlatOf(kids[..d]), Flat(kids[d]), FlatOf(kids[d + 1..]);
      FlatSorted(kids[d], MIN_KEYS, lo', hi', h - 1);
      LeafPosBetween(A, M, B, e.key);
      InsertBetween(A, M, B, e);
      InsertRecCorrect(kids[d], MIN_KEYS, lo', hi', h - 1, e, next);
      var r := InsertRec(kids[d], e, next);
      RebuildCorrect(id, keys, kids, lo, hi, h - 1, least, d, r);
      EntriesThree(LeavesOf(kids[..d]), OutcomeLeaves(r), LeavesOf(kids[d + 1..]));
    }
  }
}
