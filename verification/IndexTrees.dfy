/** Indexes as the B+ trees they are: exactly when a tree goes on holding what the operations on it mean. */
module IndexTrees {
  import S = Slots
  import opened BPlusTreeModel
  import opened BPlusTreeDelete
  import opened BPlusTreeFault
  import opened BPlusTreeChain
  import opened BPlusTreeBounds
  import opened BPlusTrees
  import BPlusTreeInsert

  /** The tree the pages of an index hold and the next page to allocate; torn once a merge overran its page. */
  datatype IndexTree = OnPages(tree: Tree, next: int) | Torn

  /** What statements ask of an index. */
  datatype TreeOp = Add(e: Entry) | Drop(key: int)

  function Perform(x: IndexTree, op: TreeOp): IndexTree {
    if x.Torn? || !Shape(x.tree) then Torn
    else match op
      case Add(e) =>
        var (t, next) := BPlusTreeInsert.Insert(x.tree, e, x.next);
        OnPages(t, next)
      case Drop(k) =>
        match Delete(x.tree, k)
        case Missing => x
        case Overrun => Torn
        case Removed(t) => OnPages(t, x.next)
  }

  function PerformAll(x: IndexTree, ops: seq<TreeOp>): IndexTree
    decreases |ops|
  {
    if ops == [] then x else PerformAll(Perform(x, ops[0]), ops[1..])
  }

  /** The operation is a deletion that takes a broken branch. */
  predicate Hits(x: IndexTree, op: TreeOp) {
    x.OnPages? && Shape(x.tree) && op.Drop? && Fault(x.tree, op.key)
  }

  /** Some deletion on the way takes a broken branch. */
  predicate MeetsFault(x: IndexTree, ops: seq<TreeOp>)
    decreases |ops|
  {
    ops != [] && (Hits(x, ops[0]) || MeetsFault(Perform(x, ops[0]), ops[1..]))
  }

  // --- What the operations mean -------------------------------------------------------------------------

  type Places = map<int, Location>

  function After(m: Places, op: TreeOp): Places {
    match op
    case Add(e) => m[e.key := e.loc]
    case Drop(k) => m - {k}
  }

  function AfterAll(m: Places, ops: seq<TreeOp>): Places
    decreases |ops|
  {
    if ops == [] then m else AfterAll(After(m, ops[0]), ops[1..])
  }

  /** A key of 128 bytes. */
  ghost predicate KeyFits(k: int) {
    0 <= k < Limit()
  }

  /** Every key is one of 128 bytes, and none is added that is there. */
  ghost predicate Legal(m: Places, ops: seq<TreeOp>)
    decreases |ops|
  {
    ops == [] ||
    (KeyFits(KeyOf(ops[0])) && (ops[0].Add? ==> KeyOf(ops[0]) !in m) && Legal(After(m, ops[0]), ops[1..]))
  }

  function KeyOf(op: TreeOp): int {
    match op
    case Add(e) => e.key
    case Drop(k) => k
  }

  /** The tree is whole and holds exactly the map. */
  ghost predicate Keeps(x: IndexTree, m: Places) {
    && x.OnPages? && Shape(x.tree) && (exists h: nat :: RootWF(x.tree, 0, Limit(), h))
    && Sorted(Flat(x.tree)) && MapOf(Flat(x.tree)) == m
  }

  /** At the start and after every operation, the tree is whole and holds what it should. */
  ghost predicate Follows(x: IndexTree, m: Places, ops: seq<TreeOp>)
    decreases |ops|
  {
    Keeps(x, m) && (ops == [] || Follows(Perform(x, ops[0]), After(m, ops[0]), ops[1..]))
  }

  lemma AddKeeps(x: IndexTree, m: Places, e: Entry)
    requires Keeps(x, m) && 0 <= e.key < Limit() && e.key !in m
    ensures Keeps(Perform(x, Add(e)), m[e.key := e.loc])
  {
    var h: nat :| RootWF(x.tree, 0, Limit(), h);
    MapOfHasKey(Flat(x.tree), e.key);
    InsertCorrect(x.tree, 0, Limit(), h, e, x.next);
    var t := BPlusTreeInsert.Insert(x.tree, e, x.next).0;
    var h' := if RootWF(t, 0, Limit(), h) then h else h + 1;
    var least := if t.Leaf? then 0 else 1;
    hide BPlusTreeInsert.Insert, WF, Shape, Flat, Sorted, SortedInsert, MapOf, Limit, HasKey;
    ShapeOfWF(t, least, 0, Limit(), h');
    FlatSorted(t, least, 0, Limit(), h');
    MapOfInsert(Flat(x.tree), e);
  }

  lemma DropKeeps(x: IndexTree, m: Places, k: int)
    requires Keeps(x, m) && 0 <= k < Limit()
    ensures Keeps(Perform(x, Drop(k)), m - {k}) <==> !Fault(x.tree, k)
  {
    hide Fault, WF, Shape, Flat, Sorted, SortedRemove, MapOf, Limit, HasKey, Delete;
    var h: nat :| RootWF(x.tree, 0, Limit(), h);
    if Fault(x.tree, k) {
      DeleteUnsound(x.tree, k, 0, Limit(), h);
    } else {
      DeleteSound(x.tree, k, 0, Limit(), h);
      MapOfHasKey(Flat(x.tree), k);
      if Delete(x.tree, k).Removed? {
        var t := Delete(x.tree, k).t;
        var h': nat :| RootWF(t, 0, Limit(), h');
        ShapeOfWF(t, if t.Leaf? then 0 else 1, 0, Limit(), h');
        RemoveSorted(Flat(x.tree), k);
        MapOfRemove(Flat(x.tree), k);
      } else {
        assert m - {k} == m;
      }
    }
  }

  /** Deleting a key that is not there changes nothing. */
  lemma AbsentDrop(x: IndexTree, m: Places, k: int)
    requires Keeps(x, m) && KeyFits(k) && k !in m
    ensures !Hits(x, Drop(k)) && Keeps(Perform(x, Drop(k)), m)
  {
    var h: nat :| RootWF(x.tree, 0, Limit(), h);
    MapOfHasKey(Flat(x.tree), k);
    hide Fault, WF, Shape, Flat, Sorted, MapOf, Limit, HasKey, Delete;
    if Fault(x.tree, k) {
      FaultHasKey(x.tree, k, if x.tree.Leaf? then 0 else 1, 0, Limit(), h);
    }
    DropKeeps(x, m, k);
    assert m - {k} == m;
  }

  /**
   For every tree and every sequence of operations: the tree is whole and holds what it should after every
   one of them, if and only if no deletion among them takes a broken branch.
   */
  lemma {:induction false} FollowsExact(x: IndexTree, m: Places, ops: seq<TreeOp>)
    requires Keeps(x, m) && Legal(m, ops)
    ensures Follows(x, m, ops) <==> !MeetsFault(x, ops)
    ensures !MeetsFault(x, ops) ==> Keeps(PerformAll(x, ops), AfterAll(m, ops))
    decreases |ops|
  {
    if ops != [] {
      var op := ops[0];
      if op.Add? {
        AddKeeps(x, m, op.e);
      } else {
        DropKeeps(x, m, op.key);
      }
      hide Keeps, Perform, Fault, Limit, Shape;
      if Keeps(Perform(x, op), After(m, op)) {
        FollowsExact(Perform(x, op), After(m, op), ops[1..]);
      }
    }
  }

  lemma {:induction false} AllAppend(x: IndexTree, m: Places, a: seq<TreeOp>, b: seq<TreeOp>)
    ensures PerformAll(x, a + b) == PerformAll(PerformAll(x, a), b)
    ensures MeetsFault(x, a + b) <==> MeetsFault(x, a) || MeetsFault(PerformAll(x, a), b)
    ensures AfterAll(m, a + b) == AfterAll(AfterAll(m, a), b)
    ensures Legal(m, a + b) <==> Legal(m, a) && Legal(AfterAll(m, a), b)
    decreases |a|
  {
    hide Perform, Hits, KeyFits;
    if a == [] {
      assert a + b == b;
    } else {
      AllAppend(Perform(x, a[0]), After(m, a[0]), a[1..], b);
      assert (a + b)[0] == a[0] && (a + b)[1..] == a[1..] + b;
    }
  }

  lemma NoOps(m: Places)
    ensures AfterAll(m, []) == m && Legal(m, [])
  {
  }

  lemma OneStep(x: IndexTree, op: TreeOp)
    ensures PerformAll(x, [op]) == Perform(x, op) && (MeetsFault(x, [op]) <==> Hits(x, op))
  {
    hide Perform, Hits;
    assert [op][1..] == [];
    assert PerformAll(x, [op]) == PerformAll(Perform(x, op), []);
  }

  lemma OneOp(m: Places, op: TreeOp)
    ensures AfterAll(m, [op]) == After(m, op)
    ensures Legal(m, [op]) <==> KeyFits(KeyOf(op)) && (op.Add? ==> KeyOf(op) !in m)
  {
    hide KeyFits;
    assert [op][1..] == [];
    assert AfterAll(m, [op]) == AfterAll(After(m, op), []);
    assert Legal(After(m, op), []);
  }

  // --- A rollback that loses another row's entry ------------------------------------------------------------

  const HERE := Location(1, 0)

  /** Three leaves, of which the last has room for one more entry, with 55 missing. */
  function ThreeLeaves(): Tree {
    Node(4, [20, 40], [Leaf(1, Run(0, 20)), Leaf(2, Run(20, 20)), Leaf(3, Run(40, 15) + Run(56, 14))])
  }

  /** The same when 55 is there. */
  function ThreeFull(): Tree {
    Node(4, [20, 40], [Leaf(1, Run(0, 20)), Leaf(2, Run(20, 20)), Leaf(3, Run(40, 30))])
  }

  /** The last leaf split, with 55 as separator and `n` entries to its right. */
  function FourLeaves(n: nat): Tree {
    Node(4, [20, 40, 55], [Leaf(1, Run(0, 20)), Leaf(2, Run(20, 20)), Leaf(3, Run(40, 15)), Leaf(5, Run(55, n))])
  }

  /** What borrowing by the wrong index leaves: 39 lies behind the leaf of the keys from 40 on. */
  function Misplaced(): Tree {
    Node(4, [20, 39, 55],
         [Leaf(1, Run(0, 20)), Leaf(2, Run(20, 19)), Leaf(3, Run(40, 15)), Leaf(5, [Entry(39, HERE)] + Run(56, 14))])
  }

  lemma ThreeLeavesWF()
    ensures RootWF(ThreeLeaves(), 0, 100, 1) && Shape(ThreeLeaves())
  {
    var t := ThreeLeaves();
    assert WF(t.kids[0], MIN_KEYS, LoBound(t.keys, 0, 0), HiBound(t.keys, 0, 100), 0);
    assert WF(t.kids[1], MIN_KEYS, LoBound(t.keys, 1, 0), HiBound(t.keys, 1, 100), 0);
    assert WF(t.kids[2], MIN_KEYS, LoBound(t.keys, 2, 0), HiBound(t.keys, 2, 100), 0);
    assert KidsOk(t.keys, t.kids, 0, 100, 0);
  }

  /** A node just above the leaves, and the leaf a key goes to. */
  ghost predicate LeafBelow(t: Tree, k: int, d: nat) {
    t.Node? && Shape(t) && d == Descend(t.keys, k) && t.kids[d].Leaf?
  }

  lemma AddFits(t: Tree, e: Entry, next: int, d: nat, es: seq<Entry>)
    requires LeafBelow(t, e.key, d) && |t.kids[d].es| < LEAF_ORDER && es == SortedInsert(t.kids[d].es, e)
    ensures Perform(OnPages(t, next), Add(e)) == OnPages(Node(t.id, t.keys, t.kids[d := Leaf(t.kids[d].id, es)]), next)
  {
    assert BPlusTreeInsert.InsertRec(t.kids[d], e, next) == BPlusTreeInsert.Fits(Leaf(t.kids[d].id, es), next);
  }

  lemma AddSplits(t: Tree, e: Entry, next: int, d: nat, es: seq<Entry>, j: nat)
    requires LeafBelow(t, e.key, d) && |t.kids[d].es| == LEAF_ORDER && es == SortedInsert(t.kids[d].es, e)
    requires |t.keys| < INTERNAL_ORDER && j == LowerBound(t.keys, es[15].key)
    ensures Perform(OnPages(t, next), Add(e))
         == OnPages(Node(t.id, S.InsertAt(t.keys, j, es[15].key),
                         S.InsertAt(t.kids[d := Leaf(t.kids[d].id, es[..15])], j + 1, Leaf(next, es[15..]))), next + 1)
  {
    BPlusTreeInsert.TwoLeavesOfSplit(t.kids[d], e, next);
    hide LowerBound, Descend, SortedInsert, BPlusTreeInsert.LeafParts, S.InsertAt;
    assert BPlusTreeInsert.InsertRec(t.kids[d], e, next)
        == BPlusTreeInsert.Split(Leaf(t.kids[d].id, es[..15]), es[15].key, Leaf(next, es[15..]), next + 1);
  }

  lemma DropStays(t: Tree, k: int, next: int, d: nat, p: nat)
    requires LeafBelow(t, k, d) && |t.kids[d].es| > MIN_KEYS
    requires p == LeafPos(t.kids[d].es, k) && p < |t.kids[d].es| && t.kids[d].es[p].key == k
    ensures !Fault(t, k)
    ensures Perform(OnPages(t, next), Drop(k))
         == OnPages(Node(t.id, t.keys, t.kids[d := Leaf(t.kids[d].id, S.RemoveAt(t.kids[d].es, p))]), next)
  {
    assert DeleteRec(t.kids[d], k) == Removed(Leaf(t.kids[d].id, S.RemoveAt(t.kids[d].es, p)));
  }

  lemma DropBorrows(t: Tree, k: int, next: int, d: nat, i: nat, p: nat)
    requires LeafBelow(t, k, d) && |t.kids[d].es| == MIN_KEYS && d == i + 1 && i == LowerBound(t.keys, k)
    requires p == LeafPos(t.kids[d].es, k) && p < |t.kids[d].es| && t.kids[d].es[p].key == k
    requires i > 0 && t.kids[i - 1].Count() > MIN_KEYS
    ensures Fault(t, k)
    ensures var l, es := t.kids[i - 1].es, t.kids[d].es;
            && t.kids[i - 1].Leaf?
            && Perform(OnPages(t, next), Drop(k))
            == OnPages(Node(t.id, t.keys[i - 1 := l[|l| - 1].key],
                            t.kids[i - 1 := Leaf(t.kids[i - 1].id, l[..|l| - 1])]
                                  [d := Leaf(t.kids[d].id, [l[|l| - 1]] + S.RemoveAt(es, p))]), next)
  {
    var c := Leaf(t.kids[d].id, S.RemoveAt(t.kids[d].es, p));
    assert DeleteRec(t.kids[d], k) == Removed(c);
    assert HasKey(t.kids[d].es, k);
    assert Underflows(t.kids[d], k);
    assert t.kids[i - 1].Leaf? == t.kids[0].Leaf? == t.kids[d].Leaf?;
    assert Rebalance(t.id, t.keys, t.kids[d := c], d, i) == Removed(BorrowFromLeft(t.id, t.keys, t.kids[d := c], i, d));
    assert t.kids[d := c][i - 1] == t.kids[i - 1];
    assert t.kids[d := c][i - 1 := Leaf(t.kids[i - 1].id, t.kids[i - 1].es[..|t.kids[i - 1].es| - 1])]
                         [d := Leaf(c.id, [t.kids[i - 1].es[|t.kids[i - 1].es| - 1]] + c.es)]
        == t.kids[i - 1 := Leaf(t.kids[i - 1].id, t.kids[i - 1].es[..|t.kids[i - 1].es| - 1])]
                 [d := Leaf(c.id, [t.kids[i - 1].es[|t.kids[i - 1].es| - 1]] + c.es)];
  }

  lemma RunParts(from: int, n: nat, k: nat)
    requires k <= n
    ensures Run(from, n)[..k] == Run(from, k) && Run(from, n)[k..] == Run(from + k, n - k)
  {
  }

  /** Entry number `m` of a run put in its place. */
  lemma RunInsert(from: int, m: nat, n: nat)
    ensures var es := Run(from, m) + Run(from + m + 1, n);
            SortedInsert(es, Entry(from + m, HERE)) == Run(from, m + n + 1)
  {
    var es, all := Run(from, m) + Run(from + m + 1, n), Run(from, m + n + 1);
    LeafPosUnique(es, from + m, m);
    var got := SortedInsert(es, Entry(from + m, HERE));
    forall i | 0 <= i < |all| ensures got[i] == all[i] {
    }
  }

  lemma RunRemove(from: int, n: nat, k: nat)
    requires k < n
    ensures LeafPos(Run(from, n), from + k) == k && S.RemoveAt(Run(from, n), k) == Run(from, k) + Run(from + k + 1, n - k - 1)
    ensures Run(from, n)[k] == Entry(from + k, HERE)
  {
    LeafPosUnique(Run(from, n), from + k, k);
  }

  lemma RunEnds(from: int, n: nat)
    ensures Run(from, 0) + Run(from, n) == Run(from, n) == Run(from, n) + Run(from + n + 1, 0)
    ensures Run(from - 1, 0) + Run(from, n) == Run(from, n)
  {
  }

  /** The leaves before and after each of the four operations. */
  lemma LeafSteps()
    ensures SortedInsert(Run(40, 15) + Run(56, 14), Entry(55, HERE)) == Run(40, 30)
    ensures SortedInsert(Run(40, 30), Entry(70, HERE)) == Run(40, 31)
    ensures Run(40, 31)[..15] == Run(40, 15) && Run(40, 31)[15..] == Run(55, 16) && Run(40, 31)[15].key == 55
    ensures LeafPos(Run(55, 16), 70) == 15 && S.RemoveAt(Run(55, 16), 15) == Run(55, 15)
    ensures LeafPos(Run(55, 15), 55) == 0 && S.RemoveAt(Run(55, 15), 0) == Run(56, 14)
    ensures Run(20, 20)[..19] == Run(20, 19) && Run(20, 20)[19] == Entry(39, HERE)
  {
    hide Run, SortedInsert, LeafPos, S.RemoveAt;
    RunInsert(40, 15, 14);
    RunInsert(40, 30, 0);
    RunEnds(40, 30);
    RunParts(40, 31, 15);
    RunRemove(55, 16, 15);
    RunEnds(55, 15);
    RunRemove(55, 15, 0);
    RunEnds(56, 14);
    RunParts(20, 20, 19);
    RunRemove(20, 20, 19);
  }

  /** Where the four operations go. */
  lemma KeySteps()
    ensures Descend([20, 40], 55) == Descend([20, 40], 70) == LowerBound([20, 40], 55) == 2
    ensures Descend([20, 40, 55], 70) == Descend([20, 40, 55], 55) == 3 && LowerBound([20, 40, 55], 55) == 2
  {
    LowerBoundUnique([20, 40], 55, 2);
    LowerBoundUnique([20, 40], 70, 2);
    LowerBoundUnique([20, 40, 55], 70, 3);
    LowerBoundUnique([20, 40, 55], 55, 2);
  }

  lemma AddMissing()
    ensures Perform(OnPages(ThreeLeaves(), 5), Add(Entry(55, HERE))) == OnPages(ThreeFull(), 5)
  {
    hide Perform, Run, SortedInsert, LowerBound, Descend;
    var t := ThreeLeaves();
    LeafSteps();
    KeySteps();
    AddFits(t, Entry(55, HERE), 5, 2, Run(40, 30));
    assert t.kids[2 := Leaf(3, Run(40, 30))] == ThreeFull().kids;
  }

  lemma AtTheEnd(a: int, b: int, c: int, x: Tree, y: Tree, z: Tree, l: Tree, r: Tree)
    ensures S.InsertAt([a, b], 2, c) == [a, b, c]
    ensures S.InsertAt([x, y, z][2 := l], 3, r) == [x, y, l, r]
  {
  }

  lemma ThreeFullBelow()
    ensures LeafBelow(ThreeFull(), 70, 2) && |Run(40, 30)| == LEAF_ORDER
  {
    hide LowerBound, Descend, Run;
    KeySteps();
  }

  lemma LastSplits(x: Tree, y: Tree, es: seq<Entry>, all: seq<Entry>)
    requires LeafBelow(Node(4, [20, 40], [x, y, Leaf(3, es)]), 70, 2) && |es| == LEAF_ORDER
    requires all == SortedInsert(es, Entry(70, HERE)) && |all| == LEAF_ORDER + 1 && all[15].key == 55
    ensures Perform(OnPages(Node(4, [20, 40], [x, y, Leaf(3, es)]), 5), Add(Entry(70, HERE)))
         == OnPages(Node(4, [20, 40, 55], [x, y, Leaf(3, all[..15]), Leaf(5, all[15..])]), 6)
  {
    hide Perform, LowerBound, Descend, SortedInsert, LeafBelow, S.InsertAt;
    var t := Node(4, [20, 40], [x, y, Leaf(3, es)]);
    KeySteps();
    AddSplits(t, Entry(70, HERE), 5, 2, all, 2);
    AtTheEnd(20, 40, 55, x, y, Leaf(3, es), Leaf(3, all[..15]), Leaf(5, all[15..]));
  }

  lemma AddLast()
    ensures Perform(OnPages(ThreeFull(), 5), Add(Entry(70, HERE))) == OnPages(FourLeaves(16), 6)
  {
    ThreeFullBelow();
    LeafSteps();
    hide Perform, Run, SortedInsert, LeafBelow;
    LastSplits(Leaf(1, Run(0, 20)), Leaf(2, Run(20, 20)), Run(40, 30), Run(40, 31));
  }

  lemma DropLast()
    ensures !Hits(OnPages(FourLeaves(16), 6), Drop(70))
    ensures Perform(OnPages(FourLeaves(16), 6), Drop(70)) == OnPages(FourLeaves(15), 6)
  {
    hide Perform, Run, LowerBound, Descend, LeafPos;
    var t := FourLeaves(16);
    LeafSteps();
    KeySteps();
    DropStays(t, 70, 6, 3, 15);
    assert t.kids[3 := Leaf(5, Run(55, 15))] == FourLeaves(15).kids;
  }

  lemma DropSeparator()
    ensures Hits(OnPages(FourLeaves(15), 6), Drop(55))
    ensures Perform(OnPages(FourLeaves(15), 6), Drop(55)) == OnPages(Misplaced(), 6)
  {
    hide Perform, Run, LowerBound, Descend, LeafPos;
    var t := FourLeaves(15);
    LeafSteps();
    KeySteps();
    DropBorrows(t, 55, 6, 3, 2, 0);
    assert t.keys[1 := 39] == Misplaced().keys;
    assert t.kids[1 := Leaf(2, Run(20, 19))][3 := Leaf(5, [Entry(39, HERE)] + Run(56, 14))] == Misplaced().kids;
  }

  /** A search for 39 ends in the leaf of the keys from 40 on. */
  lemma SearchMisses()
    ensures Shape(Misplaced()) && LeafFor(Misplaced(), 39) == Leaf(3, Run(40, 15))
  {
    LowerBoundUnique(Misplaced().keys, 39, 1);
  }

  lemma FourOps(x: IndexTree, a: TreeOp, b: TreeOp, c: TreeOp, d: TreeOp)
    ensures PerformAll(x, [a, b, c, d]) == Perform(Perform(Perform(Perform(x, a), b), c), d)
  {
    hide Perform;
    var y := Perform(x, a);
    assert [a, b, c, d][1..] == [b, c, d] && [b, c, d][1..] == [c, d] && [c, d][1..] == [d] && [d][1..] == [];
    assert PerformAll(x, [a, b, c, d]) == PerformAll(y, [b, c, d]);
    assert PerformAll(y, [b, c, d]) == PerformAll(Perform(y, b), [c, d]);
    assert PerformAll(Perform(y, b), [c, d]) == PerformAll(Perform(Perform(y, b), c), [d]);
  }

  /**
   A transaction inserts 55 and 70, which splits a leaf with 55 as separator, and rolls both back, the last
   one first. Deleting 55 takes 39 out of its own leaf and puts it behind the leaf of 40 to 54: the row under
   39 had no part in the transaction, and a search for it no longer finds it.
   */
  lemma RollbackLosesAnother()
    ensures
      var x := OnPages(ThreeLeaves(), 5);
      var after := PerformAll(x, [Add(Entry(55, HERE)), Add(Entry(70, HERE)), Drop(70), Drop(55)]);
      && RootWF(x.tree, 0, 100, 1) && LeafFor(x.tree, 39) == Leaf(2, Run(20, 20)) && HasKey(Run(20, 20), 39)
      && after.OnPages? && Shape(after.tree)
      && LeafFor(after.tree, 39) == Leaf(3, Run(40, 15)) && !HasKey(Run(40, 15), 39)
  {
    hide Perform, WF, Run;
    ThreeLeavesWF();
    AddMissing();
    AddLast();
    DropLast();
    DropSeparator();
    SearchMisses();
    FourOps(OnPages(ThreeLeaves(), 5), Add(Entry(55, HERE)), Add(Entry(70, HERE)), Drop(70), Drop(55));
    LowerBoundUnique(ThreeLeaves().keys, 39, 1);
    assert Run(20, 20)[19].key == 39;
  }

  // --- Two rows under one key ---------------------------------------------------------------------------------

  const THERE := Location(1, 1)

  /** A full leaf with two entries under 20, as an index that is not unique may hold. */
  function TwoUnder20(n: nat): (r: seq<Entry>)
    ensures |r| == 16 + n
    ensures forall i | 0 <= i < |r| :: r[i].key == if i < 14 then i else if i < 16 then 20 else 5 + i
  {
    Run(0, 14) + [Entry(20, HERE), Entry(20, THERE)] + Run(21, n)
  }

  /** That leaf split between the two, with `right` as the leaf behind the separator. */
  function SplitAt20(right: seq<Entry>): Tree {
    Node(3, [20], [Leaf(1, Run(0, 14) + [Entry(20, HERE)]), Leaf(2, right)])
  }

  lemma Entry35Last()
    ensures SortedInsert(TwoUnder20(14), Entry(35, HERE)) == TwoUnder20(15)
  {
    var es, all := TwoUnder20(14), TwoUnder20(15);
    LeafPosUnique(es, 35, 30);
    var got := SortedInsert(es, Entry(35, HERE));
    forall i | 0 <= i < |all| ensures got[i] == all[i] {
    }
  }

  lemma SplitParts()
    ensures TwoUnder20(15)[15].key == 20
    ensures TwoUnder20(15)[..15] == Run(0, 14) + [Entry(20, HERE)]
    ensures TwoUnder20(15)[15..] == [Entry(20, THERE)] + Run(21, 15)
  {
  }

  lemma SplitBetween()
    ensures Perform(OnPages(Leaf(1, TwoUnder20(14)), 2), Add(Entry(35, HERE)))
         == OnPages(SplitAt20([Entry(20, THERE)] + Run(21, 15)), 4)
  {
    hide TwoUnder20, Run, SortedInsert;
    Entry35Last();
    SplitParts();
    BPlusTreeInsert.TwoLeavesOfSplit(Leaf(1, TwoUnder20(14)), Entry(35, HERE), 2);
  }

  lemma RightGoes()
    ensures Perform(OnPages(SplitAt20([Entry(20, THERE)] + Run(21, 15)), 4), Drop(20)) == OnPages(SplitAt20(Run(21, 15)), 4)
  {
    var t, es := SplitAt20([Entry(20, THERE)] + Run(21, 15)), [Entry(20, THERE)] + Run(21, 15);
    LowerBoundUnique([20], 20, 0);
    LeafPosUnique(es, 20, 0);
    assert S.RemoveAt(es, 0) == Run(21, 15);
    hide Perform, Run, LeafPos, LowerBound, S.RemoveAt;
    DropStays(t, 20, 4, 1, 0);
    assert t.kids[1 := Leaf(2, Run(21, 15))] == SplitAt20(Run(21, 15)).kids;
  }

  /**
   Two rows under 20, the last entry of one leaf and the first of the next after a split: deleting 20 takes the
   second, and a search for 20 then begins in the right leaf and finds neither, while the first is still there.
   */
  lemma DuplicateIsMissed()
    ensures
      var after := PerformAll(OnPages(Leaf(1, TwoUnder20(14)), 2), [Add(Entry(35, HERE)), Drop(20)]);
      && after.OnPages? && Shape(after.tree) && HasKey(Flat(after.tree), 20)
      && LeafFor(after.tree, 20) == Leaf(2, Run(21, 15)) && !HasKey(Run(21, 15), 20)
  {
    hide Perform, PerformAll, Run, TwoUnder20, Flat, HasKey, SplitAt20, LeafFor, Shape;
    SplitBetween();
    RightGoes();
    TwoOps(OnPages(Leaf(1, TwoUnder20(14)), 2), Add(Entry(35, HERE)), Drop(20));
    StillThere();
  }

  lemma TwoOps(x: IndexTree, a: TreeOp, b: TreeOp)
    ensures PerformAll(x, [a, b]) == Perform(Perform(x, a), b)
  {
    hide Perform, PerformAll, MeetsFault, AfterAll, Legal, Hits;
    AllAppend(x, map[], [a], [b]);
    assert [a] + [b] == [a, b];
    OneStep(x, a);
    OneStep(Perform(x, a), b);
  }

  lemma StillThere()
    ensures
      var t := SplitAt20(Run(21, 15));
      && Shape(t) && HasKey(Flat(t), 20) && LeafFor(t, 20) == Leaf(2, Run(21, 15)) && !HasKey(Run(21, 15), 20)
  {
    var t, l, r := SplitAt20(Run(21, 15)), Leaf(1, Run(0, 14) + [Entry(20, HERE)]), Leaf(2, Run(21, 15));
    LowerBoundUnique([20], 20, 0);
    FlatOfNode(t);
    FlatOfAppend([l], [r]);
    assert [l] + [r] == t.kids;
    FlatOfOne(l);
    FlatOfOne(r);
    FlatLeaf(l);
    assert (l.es + Flat(r))[14].key == 20;
  }
}
