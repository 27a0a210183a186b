/**
 Pages as slots, the relation between a store of pages and the tree it holds, and the page ids of a
 tree. A page of either kind keeps stale slots behind its count, as the code does.
 */
module BPlusTreePages {
  import opened Slots
  import opened BPlusTreeModel
  import opened BPlusTreeInsert
  import opened BPlusTreeDelete

  datatype Body =
    | LeafBody(count: nat, slots: seq<Entry>)
    | InternalBody(count: nat, keys: seq<int>, children: seq<int>)

  /** `next` and `prev` link the leaves; -1 marks either end of the chain. */
  datatype Page = Page(body: Body, next: int, prev: int)

  /** The page says what the top of the tree says. */
  ghost predicate HoldsNode(b: Body, t: Tree) {
    match t
    case Leaf(_, es) =>
      b.LeafBody? && |b.slots| == LEAF_ORDER && b.count == |es| <= LEAF_ORDER && b.slots[..b.count] == es
    case Node(_, keys, kids) =>
      && b.InternalBody? && |b.keys| == INTERNAL_ORDER && |b.children| == INTERNAL_ORDER + 1
      && b.count == |keys| <= INTERNAL_ORDER && |kids| == |keys| + 1
      && b.keys[..b.count] == keys
      && forall i | 0 <= i < |kids| :: b.children[i] == kids[i].id
  }

  ghost predicate Holds(pages: seq<Page>, t: Tree) {
    && 0 <= t.id < |pages|
    && HoldsNode(pages[t.id].body, t)
    && (t.Node? ==> forall i | 0 <= i < |t.kids| :: Holds(pages, t.kids[i]))
  }

  // --- Page ids --------------------------------------------------------------------------------

  /** How many nodes of the tree live in page `x`. */
  ghost function Uses(t: Tree, x: int): nat {
    (if t.id == x then 1 else 0) + if t.Leaf? then 0 else UsesOf(t.kids, x)
  }

  ghost function UsesOf(kids: seq<Tree>, x: int): nat {
    if kids == [] then 0 else Uses(kids[0], x) + UsesOf(kids[1..], x)
  }

  /** No page belongs to two nodes. */
  ghost predicate NoSharing(t: Tree) {
    forall x :: Uses(t, x) <= 1
  }

  lemma {:induction false} UsesOfAppend(a: seq<Tree>, b: seq<Tree>, x: int)
    ensures UsesOf(a + b, x) == UsesOf(a, x) + UsesOf(b, x)
  {
    if a == [] {
      assert a + b == b;
    } else {
      UsesOfAppend(a[1..], b, x);
      assert (a + b)[1..] == a[1..] + b;
    }
  }

  lemma UsesOfCons(c: Tree, rest: seq<Tree>, x: int)
    ensures UsesOf([c] + rest, x) == Uses(c, x) + UsesOf(rest, x)
  {
    assert ([c] + rest)[1..] == rest;
  }

  lemma {:induction false} UsesOfSplit(kids: seq<Tree>, d: nat, x: int)
    requires d < |kids|
    ensures UsesOf(kids, x) == UsesOf(kids[..d], x) + Uses(kids[d], x) + UsesOf(kids[d + 1..], x)
  {
    if d == 0 {
      assert UsesOf(kids[..0], x) == 0;
    } else {
      UsesOfSplit(kids[1..], d - 1, x);
      assert kids[1..][..d - 1] == kids[..d][1..];
      assert kids[1..][d..] == kids[d + 1..];
    }
  }

  lemma UsesOfReplace(kids: seq<Tree>, d: nat, c: Tree, x: int)
    requires d < |kids|
    ensures UsesOf(kids[d := c], x) == UsesOf(kids, x) - Uses(kids[d], x) + Uses(c, x)
    ensures Uses(kids[d], x) <= UsesOf(kids, x)
  {
    UsesOfSplit(kids, d, x);
    UsesOfSplit(kids[d := c], d, x);
    assert kids[d := c][..d] == kids[..d] && kids[d := c][d + 1..] == kids[d + 1..];
  }

  lemma UsesOfInsert(kids: seq<Tree>, j: nat, r: Tree, x: int)
    requires j <= |kids|
    ensures UsesOf(InsertAt(kids, j, r), x) == UsesOf(kids, x) + Uses(r, x)
  {
    var kids' := InsertAt(kids, j, r);
    UsesOfSplit(kids', j, x);
    assert kids'[..j] == kids[..j] && kids'[j + 1..] == kids[j..];
    UsesOfAppend(kids[..j], kids[j..], x);
    assert kids == kids[..j] + kids[j..];
  }

  lemma UsesOfPair(kids: seq<Tree>, i: nat, j: nat, x: int)
    requires i < j < |kids|
    ensures Uses(kids[i], x) + Uses(kids[j], x) <= UsesOf(kids, x)
  {
    UsesOfSplit(kids, i, x);
    UsesOfSplit(kids[i + 1..], j - i - 1, x);
  }

  /** A child shares no page with its parent or with another child. */
  lemma Apart(t: Tree, i: nat)
    requires t.Node? && NoSharing(t) && i < |t.kids|
    ensures NoSharing(t.kids[i])
    ensures forall x | Uses(t.kids[i], x) > 0 :: Uses(t, x) > 0 && x != t.id
    ensures forall j, x | 0 <= j < |t.kids| && j != i && Uses(t.kids[i], x) > 0 :: Uses(t.kids[j], x) == 0
  {
    forall x
      ensures Uses(t.kids[i], x) <= 1
      ensures Uses(t.kids[i], x) > 0 ==> Uses(t, x) > 0 && x != t.id
    {
      UsesOfSplit(t.kids, i, x);
      assert Uses(t, x) <= 1;
    }
    forall j, x | 0 <= j < |t.kids| && j != i && Uses(t.kids[i], x) > 0
      ensures Uses(t.kids[j], x) == 0
    {
      UsesOfPair(t.kids, if i < j then i else j, if i < j then j else i, x);
      assert Uses(t, x) <= 1;
    }
  }

  /** A tree is still held after changes to pages that are not its own. */
  lemma {:induction false} HoldsFrame(p: seq<Page>, p': seq<Page>, t: Tree)
    requires Holds(p, t) && |p| <= |p'|
    requires forall x | 0 <= x < |p| && Uses(t, x) > 0 :: p'[x].body == p[x].body
    ensures Holds(p', t)
  {
    assert Uses(t, t.id) > 0;
    if t.Node? {
      forall i | 0 <= i < |t.kids|
        ensures Holds(p', t.kids[i])
      {
        forall x | 0 <= x < |p| && Uses(t.kids[i], x) > 0
          ensures p'[x].body == p[x].body
        {
          UsesOfSplit(t.kids, i, x);
        }
        HoldsFrame(p, p', t.kids[i]);
      }
    }
  }

  /** Changing one page disturbs no tree that does not use it. */
  lemma HoldsExcept(ps: seq<Page>, ps': seq<Page>, t: Tree, p: int)
    requires Holds(ps, t) && |ps| <= |ps'|
    requires forall q | 0 <= q < |ps| && q != p :: ps'[q].body == ps[q].body
    requires Uses(t, p) == 0
    ensures Holds(ps', t)
  {
    HoldsFrame(ps, ps', t);
  }

  lemma {:induction false} HeldIdsExist(p: seq<Page>, t: Tree, x: int)
    requires Holds(p, t) && Uses(t, x) > 0
    ensures 0 <= x < |p|
  {
    if t.Node? && t.id != x {
      HeldKidsExist(p, t.kids, x);
    }
  }

  lemma {:induction false} HeldKidsExist(p: seq<Page>, kids: seq<Tree>, x: int)
    requires forall i | 0 <= i < |kids| :: Holds(p, kids[i])
    requires UsesOf(kids, x) > 0
    ensures 0 <= x < |p|
  {
    if Uses(kids[0], x) > 0 {
      HeldIdsExist(p, kids[0], x);
    } else {
      HeldKidsExist(p, kids[1..], x);
    }
  }

  // --- Insertion takes fresh pages and gives none away -----------------------------------------

  ghost function OutcomeUses(r: Outcome, x: int): nat {
    if r.Fits? then Uses(r.t, x) else Uses(r.left, x) + Uses(r.right, x)
  }

  ghost function Fresh(from: int, to: int, x: int): nat {
    if from <= x < to then 1 else 0
  }

  /** The node keeps its page; a new right sibling has a fresh one. */
  lemma {:induction false} InsertRecRootId(t: Tree, e: Entry, next: int)
    requires Shape(t)
    ensures var r := InsertRec(t, e, next);
            && r.next >= next
            && (r.Fits? ==> r.t.id == t.id)
            && (r.Split? ==> r.left.id == t.id && next <= r.right.id < r.next)
  {
    InsertRecIds(t, e, next, t.id);
    hide Uses, Fresh, OutcomeUses;
    if t.Node? {
      var d := Descend(t.keys, e.key);
      InsertRecIds(t.kids[d], e, next, t.id);
      hide InsertAt, Descend, Shape;
      RebuildRootId(t.id, t.keys, t.kids, d, InsertRec(t.kids[d], e, next));
    }
  }

  lemma RebuildRootId(id: int, keys: seq<int>, kids: seq<Tree>, d: nat, r: Outcome)
    requires d < |kids| == |keys| + 1
    ensures var r' := Rebuild(id, keys, kids, d, r);
            && (r'.Fits? ==> r'.t.id == id)
            && (r'.Split? ==> r'.left.id == id && r'.right.id == r.next == r'.next - 1)
  {
    hide LowerBound, InsertAt;
  }

  lemma {:induction false} InsertRecIds(t: Tree, e: Entry, next: int, x: int)
    requires Shape(t)
    ensures var r := InsertRec(t, e, next);
            r.next >= next && OutcomeUses(r, x) == Uses(t, x) + Fresh(next, r.next, x)
  {
    if t.Node? {
      var d := Descend(t.keys, e.key);
      InsertRecIds(t.kids[d], e, next, x);
      RebuildIds(t.id, t.keys, t.kids, d, InsertRec(t.kids[d], e, next), next, x);
    }
  }

  lemma RebuildIds(id: int, keys: seq<int>, kids: seq<Tree>, d: nat, r: Outcome, next: int, x: int)
    requires d < |kids| == |keys| + 1
    requires r.next >= next && OutcomeUses(r, x) == Uses(kids[d], x) + Fresh(next, r.next, x)
    ensures var r' := Rebuild(id, keys, kids, d, r);
            && r'.next >= next
            && OutcomeUses(r', x) == Uses(Node(id, keys, kids), x) + Fresh(next, r'.next, x)
  {
    match r
    case Fits(c, n) =>
      UsesOfReplace(kids, d, c, x);
    case Split(l, k, rt, n) =>
      UsesOfReplace(kids, d, l, x);
      var j := LowerBound(keys, k);
      UsesOfInsert(kids[d := l], j + 1, rt, x);
      MakeNodeIds(id, InsertAt(keys, j, k), InsertAt(kids[d := l], j + 1, rt), n, x);
  }

  lemma MakeNodeIds(id: int, keys: seq<int>, kids: seq<Tree>, next: int, x: int)
    requires |kids| == |keys| + 1
    ensures var r := MakeNode(id, keys, kids, next);
            r.next >= next && OutcomeUses(r, x) == Uses(Node(id, keys, kids), x) + Fresh(next, r.next, x)
  {
    if |keys| > INTERNAL_ORDER {
      var mid := |keys| / 2;
      UsesOfAppend(kids[..mid + 1], kids[mid + 1..], x);
      assert kids == kids[..mid + 1] + kids[mid + 1..];
    }
  }

  // --- Deletion takes no page ----------------------------------------------------------------------

  lemma {:induction false} DeleteRecIds(t: Tree, k: int, x: int)
    requires Shape(t)
    ensures var r := DeleteRec(t, k); r.Removed? ==> Uses(r.t, x) <= Uses(t, x) && r.t.id == t.id
  {
    if t.Node? {
      var d, i := Descend(t.keys, k), LowerBound(t.keys, k);
      DeleteRecIds(t.kids[d], k, x);
      var r := DeleteRec(t.kids[d], k);
      if r.Removed? {
        UsesOfReplace(t.kids, d, r.t, x);
        if r.t.Count() < MIN_KEYS {
          RebalanceIds(t.id, t.keys, t.kids[d := r.t], d, i, x);
        }
      }
    }
  }

  lemma RebalanceIds(id: int, keys: seq<int>, kids: seq<Tree>, d: nat, i: nat, x: int)
    requires |kids| == |keys| + 1 && |keys| >= 1
    requires d < |kids| && i <= |keys| && kids[d].Count() < MIN_KEYS
    requires d == i || d == i + 1
    requires SameKind(kids) && OthersShaped(kids, d)
    ensures var r := Rebalance(id, keys, kids, d, i);
            r.Removed? ==> Uses(r.t, x) <= Uses(Node(id, keys, kids), x) && r.t.id == id
  {
    assert i > 0 ==> Shape(kids[i - 1]);
    assert i < |keys| && i + 1 != d ==> Shape(kids[i + 1]);
    if i > 0 && kids[i - 1].Count() > MIN_KEYS {
      BorrowFromLeftIds(id, keys, kids, i, d, x);
    } else if i < |keys| && kids[i + 1].Count() > MIN_KEYS {
      BorrowFromRightIds(id, keys, kids, i, d, x);
    } else if Rebalance(id, keys, kids, d, i).Removed? {
      MergeIds(id, keys, kids, if i > 0 then i - 1 else i, x);
    }
  }

  lemma {:induction false} BorrowFromLeftIds(id: int, keys: seq<int>, kids: seq<Tree>, i: nat, d: nat, x: int)
    requires 0 < i <= |keys| < |kids| && d < |kids| && d != i - 1
    requires kids[i - 1].Leaf? == kids[d].Leaf? && kids[i - 1].Count() >= 1
    requires kids[i - 1].Node? ==> |kids[i - 1].kids| == |kids[i - 1].keys| + 1
    ensures Uses(BorrowFromLeft(id, keys, kids, i, d), x) == Uses(Node(id, keys, kids), x)
  {
    var l, c, last := kids[i - 1], kids[d], kids[i - 1].Count() - 1;
    if c.Leaf? {
      TradeIds(kids, i - 1, Leaf(l.id, l.es[..last]), d, Leaf(c.id, [l.es[last]] + c.es), x);
    } else {
      LastKidMoves(l, c, l.keys[..last], [keys[i - 1]] + c.keys, x);
      hide UsesOf;
      TradeIds(kids, i - 1, Node(l.id, l.keys[..last], l.kids[..last + 1]), d,
               Node(c.id, [keys[i - 1]] + c.keys, [l.kids[last + 1]] + c.kids), x);
    }
  }

  /** The last child of one node becomes the first of another. */
  lemma {:induction false} LastKidMoves(l: Tree, c: Tree, lk: seq<int>, ck: seq<int>, x: int)
    requires l.Node? && c.Node? && |l.kids| >= 1
    ensures var m := |l.kids| - 1;
            Uses(Node(l.id, lk, l.kids[..m]), x) + Uses(Node(c.id, ck, [l.kids[m]] + c.kids), x) == Uses(l, x) + Uses(c, x)
  {
    var m := |l.kids| - 1;
    UsesOfSplit(l.kids, m, x);
    UsesOfCons(l.kids[m], c.kids, x);
    assert l.kids[m + 1..] == [];
  }

  lemma {:induction false} BorrowFromRightIds(id: int, keys: seq<int>, kids: seq<Tree>, i: nat, d: nat, x: int)
    requires i < |keys| < |kids| && d < |kids| && d != i + 1
    requires kids[i + 1].Leaf? == kids[d].Leaf? && kids[i + 1].Count() >= 2
    requires kids[i + 1].Node? ==> |kids[i + 1].kids| == |kids[i + 1].keys| + 1
    ensures Uses(BorrowFromRight(id, keys, kids, i, d), x) == Uses(Node(id, keys, kids), x)
  {
    var t := BorrowFromRight(id, keys, kids, i, d);
    TradeIds(kids, i + 1, t.kids[i + 1], d, t.kids[d], x);
    if kids[d].Node? {
      var rk := kids[i + 1].kids;
      UsesOfAppend(kids[d].kids, [rk[0]], x);
      UsesOfCons(rk[0], [], x);
    }
  }

  lemma MergeIds(id: int, keys: seq<int>, kids: seq<Tree>, p: nat, x: int)
    requires p < |keys| < |kids| && kids[p].Leaf? == kids[p + 1].Leaf?
    requires MergeChildren(id, keys, kids, p).Removed?
    ensures Uses(MergeChildren(id, keys, kids, p).t, x) <= Uses(Node(id, keys, kids), x)
  {
    var t := MergeChildren(id, keys, kids, p).t;
    var rest := RemoveAt(kids, p + 1);
    UsesOfReplace(rest, p, t.kids[p], x);
    UsesOfInsert(rest, p + 1, kids[p + 1], x);
    assert InsertAt(rest, p + 1, kids[p + 1]) == kids;
    if kids[p].Node? {
      UsesOfAppend(kids[p].kids, kids[p + 1].kids, x);
    }
  }

  lemma TradeIds(kids: seq<Tree>, a: nat, y: Tree, b: nat, z: Tree, x: int)
    requires a < |kids| && b < |kids| && a != b
    ensures UsesOf(kids[a := y][b := z], x) + Uses(kids[a], x) + Uses(kids[b], x)
         == UsesOf(kids, x) + Uses(y, x) + Uses(z, x)
  {
    UsesOfReplace(kids, a, y, x);
    UsesOfReplace(kids[a := y], b, z, x);
  }

  lemma {:induction false} HeldLeaves(ps: seq<Page>, t: Tree)
    requires Holds(ps, t)
    ensures forall i | 0 <= i < |Leaves(t)| :: Leaves(t)[i].Leaf? && Holds(ps, Leaves(t)[i])
  {
    if t.Node? {
      HeldKidsLeaves(ps, t.kids);
    }
  }

  lemma {:induction false} HeldKidsLeaves(ps: seq<Page>, kids: seq<Tree>)
    requires forall i | 0 <= i < |kids| :: Holds(ps, kids[i])
    ensures forall i | 0 <= i < |LeavesOf(kids)| :: LeavesOf(kids)[i].Leaf? && Holds(ps, LeavesOf(kids)[i])
  {
    if kids != [] {
      HeldLeaves(ps, kids[0]);
      HeldKidsLeaves(ps, kids[1..]);
    }
  }

  // --- A parent and two of its children rewritten --------------------------------------------------

  /** Only the bodies of the pages in `s` differ. */
  ghost predicate BodiesOnly(ps: seq<Page>, ps': seq<Page>, s: set<int>) {
    && |ps| == |ps'|
    && forall q | 0 <= q < |ps| ::
         && (q !in s ==> ps'[q].body == ps[q].body)
         && ps'[q].next == ps[q].next && ps'[q].prev == ps[q].prev
  }

  ghost predicate SameBodies(ps: seq<Page>, ps': seq<Page>, s: set<int>) {
    |ps| == |ps'| && forall q | 0 <= q < |ps| && q !in s :: ps'[q].body == ps[q].body
  }

  /** A node put together from the children of two others. */
  ghost predicate MadeFrom(ps: seq<Page>, k: Tree, a: Tree, b: Tree) {
    && 0 <= k.id < |ps| && HoldsNode(ps[k.id].body, k)
    && (k.Node? ==> a.Node? && b.Node? && forall g | g in k.kids :: g in a.kids || g in b.kids)
  }

  /** Child `j` of the new parent is an untouched child of the old one, or made from the two rewritten ones. */
  ghost predicate Accounted(ps: seq<Page>, t: Tree, a: nat, b: nat, k: Tree)
    requires t.Node? && a < |t.kids| && b < |t.kids|
  {
    || (exists i | 0 <= i < |t.kids| && i != a && i != b :: t.kids[i] == k)
    || MadeFrom(ps, k, t.kids[a], t.kids[b])
  }

  lemma GrandApart(t: Tree, a: nat, b: nat, g: Tree)
    requires t.Node? && NoSharing(t) && a < |t.kids| && b < |t.kids| && a != b
    requires t.kids[a].Node? && g in t.kids[a].kids
    ensures Uses(g, t.id) == 0 && Uses(g, t.kids[a].id) == 0 && Uses(g, t.kids[b].id) == 0
  {
    Apart(t, a);
    Apart(t, b);
    var i :| 0 <= i < |t.kids[a].kids| && t.kids[a].kids[i] == g;
    Apart(t.kids[a], i);
    assert Uses(t.kids[b], t.kids[b].id) > 0;
  }

  lemma RewrittenPair(ps: seq<Page>, ps': seq<Page>, t: Tree, t': Tree, a: nat, b: nat)
    requires Holds(ps, t) && NoSharing(t) && t.Node? && t'.Node?
    requires a < |t.kids| && b < |t.kids| && a != b
    requires SameBodies(ps, ps', {t.id, t.kids[a].id, t.kids[b].id})
    requires t'.id == t.id && HoldsNode(ps'[t.id].body, t')
    requires forall j | 0 <= j < |t'.kids| :: Accounted(ps', t, a, b, t'.kids[j])
    ensures Holds(ps', t')
  {
    forall j | 0 <= j < |t'.kids|
      ensures Holds(ps', t'.kids[j])
    {
      var k := t'.kids[j];
      if MadeFrom(ps', k, t.kids[a], t.kids[b]) {
        if k.Node? {
          forall i | 0 <= i < |k.kids| ensures Holds(ps', k.kids[i]) {
            MadeFromHeld(ps, ps', t, a, b, k.kids[i]);
          }
        }
      } else {
        var i :| 0 <= i < |t.kids| && i != a && i != b && t.kids[i] == k;
        Apart(t, i);
        assert Uses(t.kids[a], t.kids[a].id) > 0 && Uses(t.kids[b], t.kids[b].id) > 0;
        HoldsFrame(ps, ps', k);
      }
    }
  }

  lemma MadeFromHeld(ps: seq<Page>, ps': seq<Page>, t: Tree, a: nat, b: nat, g: Tree)
    requires Holds(ps, t) && NoSharing(t) && t.Node?
    requires a < |t.kids| && b < |t.kids| && a != b
    requires SameBodies(ps, ps', {t.id, t.kids[a].id, t.kids[b].id})
    requires t.kids[a].Node? && t.kids[b].Node?
    requires g in t.kids[a].kids || g in t.kids[b].kids
    ensures Holds(ps', g)
  {
    var x, y := if g in t.kids[a].kids then a else b, if g in t.kids[a].kids then b else a;
    GrandApart(t, x, y, g);
    assert Holds(ps, t.kids[x]);
    HoldsFrame(ps, ps', g);
  }

  // --- The chain of leaves --------------------------------------------------------------------------

  /** Leaf `i` of the list exists and points at its neighbours. */
  ghost predicate Linked(pages: seq<Page>, leaves: seq<Tree>, i: int)
    requires 0 <= i < |leaves|
  {
    && 0 <= leaves[i].id < |pages|
    && pages[leaves[i].id].next == (if i + 1 < |leaves| then leaves[i + 1].id else -1)
    && pages[leaves[i].id].prev == (if i > 0 then leaves[i - 1].id else -1)
  }

  /** The leaves are linked both ways in tree order, with -1 at either end. */
  ghost predicate Chain(pages: seq<Page>, leaves: seq<Tree>) {
    forall i | 0 <= i < |leaves| :: Linked(pages, leaves, i)
  }

  ghost predicate DistinctIds(leaves: seq<Tree>) {
    forall i, j | 0 <= i < j < |leaves| :: leaves[i].id != leaves[j].id
  }

  ghost predicate SameLinks(ps: seq<Page>, ps': seq<Page>) {
    && |ps| <= |ps'|
    && forall q | 0 <= q < |ps| :: ps'[q].next == ps[q].next && ps'[q].prev == ps[q].prev
  }

  /** Page `q` was linked in right after page `p`. */
  ghost predicate LinkedIn(ps: seq<Page>, ps': seq<Page>, p: int, q: int) {
    && 0 <= p < |ps| <= q < |ps'|
    && ps'[p].next == q && ps'[q].next == ps[p].next && ps'[q].prev == p
    && (0 <= ps[p].next < |ps| ==> ps'[ps[p].next].prev == q)
    && (forall x | 0 <= x < |ps| && x != p :: ps'[x].next == ps[x].next)
    && (forall x | 0 <= x < |ps| && x != ps[p].next :: ps'[x].prev == ps[x].prev)
  }

  /** Page `r` was taken out of the chain from behind page `l`. */
  ghost predicate LinkedOut(ps: seq<Page>, ps': seq<Page>, l: int, r: int) {
    && |ps| == |ps'| && 0 <= l < |ps| && 0 <= r < |ps|
    && ps'[l].next == ps[r].next
    && (0 <= ps[r].next < |ps| ==> ps'[ps[r].next].prev == l)
    && (forall x | 0 <= x < |ps| && x != l :: ps'[x].next == ps[x].next)
    && (forall x | 0 <= x < |ps| && x != ps[r].next :: ps'[x].prev == ps[x].prev)
  }

  lemma {:induction false} LeafUses(t: Tree, x: int)
    ensures UsesOf(Leaves(t), x) <= Uses(t, x)
  {
    if t.Leaf? {
      assert [t][1..] == [];
    } else {
      KidsLeafUses(t.kids, x);
    }
  }

  lemma {:induction false} KidsLeafUses(kids: seq<Tree>, x: int)
    ensures UsesOf(LeavesOf(kids), x) <= UsesOf(kids, x)
  {
    if kids != [] {
      LeafUses(kids[0], x);
      KidsLeafUses(kids[1..], x);
      UsesOfAppend(Leaves(kids[0]), LeavesOf(kids[1..]), x);
    }
  }

  lemma LeavesDistinct(t: Tree)
    requires NoSharing(t)
    ensures DistinctIds(Leaves(t))
  {
    forall i, j | 0 <= i < j < |Leaves(t)|
      ensures Leaves(t)[i].id != Leaves(t)[j].id
    {
      var x := Leaves(t)[i].id;
      UsesOfPair(Leaves(t), i, j, x);
      LeafUses(t, x);
      assert Uses(t, x) <= 1;
    }
  }

  lemma ChainSameIds(ps: seq<Page>, ps': seq<Page>, leaves: seq<Tree>, leaves': seq<Tree>)
    requires Chain(ps, leaves) && SameLinks(ps, ps')
    requires |leaves| == |leaves'| && forall i | 0 <= i < |leaves| :: leaves'[i].id == leaves[i].id
    ensures Chain(ps', leaves')
  {
    forall i | 0 <= i < |leaves'| ensures Linked(ps', leaves', i) {
      assert Linked(ps, leaves, i);
    }
  }

  /** Linking the new right half in after the split leaf keeps the chain in tree order. */
  lemma ChainAfterSplit(ps: seq<Page>, ps': seq<Page>, leaves: seq<Tree>, x: nat, a: Tree, b: Tree)
    requires Chain(ps, leaves) && DistinctIds(leaves) && x < |leaves|
    requires a.id == leaves[x].id && b.id >= |ps|
    requires LinkedIn(ps, ps', a.id, b.id)
    ensures Chain(ps', leaves[..x] + [a, b] + leaves[x + 1..])
  {
    var leaves' := leaves[..x] + [a, b] + leaves[x + 1..];
    assert Linked(ps, leaves, x);
    assert x + 1 < |leaves| ==> Linked(ps, leaves, x + 1);
    forall i | 0 <= i < |leaves'| ensures Linked(ps', leaves', i) {
      if i <= x {
        assert Linked(ps, leaves, i);
      } else if i > x + 1 {
        assert Linked(ps, leaves, i - 1);
      }
    }
  }

  /** Taking the merged leaf out keeps the chain in tree order. */
  lemma ChainAfterMerge(ps: seq<Page>, ps': seq<Page>, leaves: seq<Tree>, leaves': seq<Tree>, s: nat)
    requires Chain(ps, leaves) && DistinctIds(leaves) && s + 1 < |leaves|
    requires LinkedOut(ps, ps', leaves[s].id, leaves[s + 1].id)
    requires |leaves'| == |leaves| - 1
    requires forall i | 0 <= i < |leaves'| :: leaves'[i].id == leaves[if i <= s then i else i + 1].id
    ensures Chain(ps', leaves')
  {
    assert Linked(ps, leaves, s + 1);
    assert s + 2 < |leaves| ==> Linked(ps, leaves, s + 2);
    forall i | 0 <= i < |leaves'| ensures Linked(ps', leaves', i) {
      assert Linked(ps, leaves, if i <= s then i else i + 1);
      if i == s {
        assert i + 1 < |leaves'| ==> leaves'[i + 1].id == leaves[s + 2].id;
      }
    }
  }
}
