/**
 Deletion from the B+ tree exactly as the code rebalances, including the two places where it goes
 wrong: the child index is searched again from the separators instead of being remembered, and an
 internal node that borrows from its right sibling takes its new separator one key too late.
 */
module BPlusTreeDelete {
  import opened Slots
  import opened BPlusTreeModel

  /** `Overrun` is a merge that would write past the last slot of a page. */
  datatype Removal = Missing | Removed(t: Tree) | Overrun

  predicate SameKind(kids: seq<Tree>) {
    forall i | 0 <= i < |kids| :: kids[i].Leaf? == kids[0].Leaf?
  }

  /** Every child but the one being refilled can be cut open. */
  predicate OthersShaped(kids: seq<Tree>, d: nat) {
    forall j | 0 <= j < |kids| && j != d :: Shape(kids[j])
  }

  /** Moves the last entry or child of child `i - 1` to the front of child `d`. */
  function BorrowFromLeft(id: int, keys: seq<int>, kids: seq<Tree>, i: nat, d: nat): Tree
    requires 0 < i <= |keys| < |kids| && d < |kids| && d != i - 1
    requires kids[i - 1].Leaf? == kids[d].Leaf? && kids[i - 1].Count() >= 1
    requires kids[i - 1].Node? ==> |kids[i - 1].kids| == |kids[i - 1].keys| + 1
  {
    var l, c, last := kids[i - 1], kids[d], kids[i - 1].Count() - 1;
    if c.Leaf? then
      Node(id, keys[i - 1 := l.es[last].key],
           kids[i - 1 := Leaf(l.id, l.es[..last])][d := Leaf(c.id, [l.es[last]] + c.es)])
    else
      Node(id, keys[i - 1 := l.keys[last]],
           kids[i - 1 := Node(l.id, l.keys[..last], l.kids[..last + 1])]
               [d := Node(c.id, [keys[i - 1]] + c.keys, [l.kids[last + 1]] + c.kids)])
  }

  /** Moves the first entry or child of child `i + 1` to the end of child `d`. */
  function BorrowFromRight(id: int, keys: seq<int>, kids: seq<Tree>, i: nat, d: nat): Tree
    requires i < |keys| < |kids| && d < |kids| && d != i + 1
    requires kids[i + 1].Leaf? == kids[d].Leaf? && kids[i + 1].Count() >= 2
    requires kids[i + 1].Node? ==> |kids[i + 1].kids| == |kids[i + 1].keys| + 1
  {
    var c, r := kids[d], kids[i + 1];
    if c.Leaf? then
      Node(id, keys[i := r.es[1].key],
           kids[i + 1 := Leaf(r.id, r.es[1..])][d := Leaf(c.id, c.es + [r.es[0]])])
    else
      // The separator is read from the right node after it was shifted: its second key, not its first.
      Node(id, keys[i := r.keys[1]],
           kids[i + 1 := Node(r.id, r.keys[1..], r.kids[1..])]
               [d := Node(c.id, c.keys + [keys[i]], c.kids + [r.kids[0]])])
  }

  /** Merges child `p + 1` into child `p`. */
  function MergeChildren(id: int, keys: seq<int>, kids: seq<Tree>, p: nat): Removal
    requires p < |keys| < |kids|
    requires kids[p].Leaf? == kids[p + 1].Leaf?
  {
    var l, r := kids[p], kids[p + 1];
    if l.Leaf? then
      if |l.es| + |r.es| > LEAF_ORDER then Overrun
      else Removed(Node(id, RemoveAt(keys, p), RemoveAt(kids, p + 1)[p := Leaf(l.id, l.es + r.es)]))
    else
      if |l.keys| + 1 + |r.keys| > INTERNAL_ORDER then Overrun
      else Removed(Node(id, RemoveAt(keys, p),
                        RemoveAt(kids, p + 1)[p := Node(l.id, l.keys + [keys[p]] + r.keys, l.kids + r.kids)]))
  }

  /** Refills child `d`, taking `i` for its index. */
  function Rebalance(id: int, keys: seq<int>, kids: seq<Tree>, d: nat, i: nat): (r: Removal)
    requires |kids| == |keys| + 1 && |keys| >= 1
    requires d < |kids| && i <= |keys| && kids[d].Count() < MIN_KEYS
    requires d == i || d == i + 1
    requires SameKind(kids)
    requires OthersShaped(kids, d)
    ensures r.Removed? ==> r.t.Node?
  {
    assert i > 0 ==> Shape(kids[i - 1]);
    assert i < |keys| && i + 1 != d ==> Shape(kids[i + 1]);
    if i > 0 && kids[i - 1].Count() > MIN_KEYS then Removed(BorrowFromLeft(id, keys, kids, i, d))
    else if i < |keys| && kids[i + 1].Count() > MIN_KEYS then Removed(BorrowFromRight(id, keys, kids, i, d))
    else MergeChildren(id, keys, kids, if i > 0 then i - 1 else i)
  }

  function DeleteRec(t: Tree, k: int): (r: Removal)
    requires Shape(t)
    ensures r.Removed? ==> r.t.Leaf? == t.Leaf?
  {
    match t
    case Leaf(id, es) =>
      var p := LeafPos(es, k);
      if p < |es| && es[p].key == k then Removed(Leaf(id, RemoveAt(es, p))) else Missing
    case Node(id, keys, kids) =>
      var d := Descend(keys, k);
      match DeleteRec(kids[d], k)
      case Missing => Missing
      case Overrun => Overrun
      case Removed(c) =>
        if c.Count() >= MIN_KEYS then Removed(Node(id, keys, kids[d := c]))
        else Rebalance(id, keys, kids[d := c], d, LowerBound(keys, k))
  }

  /** Deletion at the root: an internal root left without keys gives way to its only child. */
  function Delete(t: Tree, k: int): Removal
    requires Shape(t)
  {
    match DeleteRec(t, k)
    case Removed(t') =>
      if t'.Node? && |t'.keys| == 0 && |t'.kids| == 1 then Removed(t'.kids[0]) else Removed(t')
    case r => r
  }

  // --- When it goes wrong, told from the tree before the call ------------------------------------

  /** The node loses a key: the leaf holds `k`, or the child underflows and no sibling lends. */
  predicate Shrinks(t: Tree, k: int)
    requires Shape(t)
    decreases t, 0
  {
    match t
    case Leaf(_, es) => HasKey(es, k)
    case Node(_, keys, kids) =>
      var d, i := Descend(keys, k), LowerBound(keys, k);
      && Underflows(kids[d], k)
      && !(i > 0 && kids[i - 1].Count() > MIN_KEYS)
      && !(i < |keys| && kids[i + 1].Count() > MIN_KEYS)
  }

  predicate Underflows(c: Tree, k: int)
    requires Shape(c)
    decreases c, 1
  {
    c.Count() <= MIN_KEYS && Shrinks(c, k)
  }

  /** The guard of the branches that break the tree, for a child `d` that underflows. */
  predicate BadRebalance(keys: seq<int>, kids: seq<Tree>, d: nat, i: nat)
    requires |kids| == |keys| + 1 && i <= |keys|
  {
    if i > 0 && kids[i - 1].Count() > MIN_KEYS then
      d != i
    else if i < |keys| && kids[i + 1].Count() > MIN_KEYS then
      kids[i].Node?
    else
      d != i && (i > 0 || kids[0].Count() + (if kids[0].Leaf? then MIN_KEYS - 1 else MIN_KEYS) > LEAF_ORDER)
  }

  predicate Fault(t: Tree, k: int)
    requires Shape(t)
  {
    t.Node? &&
    var d, i := Descend(t.keys, k), LowerBound(t.keys, k);
    Fault(t.kids[d], k) || (Underflows(t.kids[d], k) && BadRebalance(t.keys, t.kids, d, i))
  }

  // --- Replacing two neighbours --------------------------------------------------------------------

  lemma PairReplace(keys: seq<int>, kids: seq<Tree>, lo: int, hi: int, h: nat, p: nat, l: Tree, s: int, r: Tree)
    requires KidsOk(keys, kids, lo, hi, h)
    requires p < |keys|
    requires LoBound(keys, p, lo) < s < HiBound(keys, p + 1, hi)
    requires WF(l, MIN_KEYS, LoBound(keys, p, lo), s, h)
    requires WF(r, MIN_KEYS, s, HiBound(keys, p + 1, hi), h)
    ensures KidsOk(keys[p := s], kids[p := l][p + 1 := r], lo, hi, h)
  {
    var keys', kids' := keys[p := s], kids[p := l][p + 1 := r];
    forall i | 0 <= i < |kids'|
      ensures WF(kids'[i], MIN_KEYS, LoBound(keys', i, lo), HiBound(keys', i, hi), h)
    {
      assert WF(kids[i], MIN_KEYS, LoBound(keys, i, lo), HiBound(keys, i, hi), h);
    }
  }

  lemma OneForTwo(keys: seq<int>, kids: seq<Tree>, lo: int, hi: int, h: nat, p: nat, m: Tree)
    requires KidsOk(keys, kids, lo, hi, h)
    requires p < |keys|
    requires WF(m, MIN_KEYS, LoBound(keys, p, lo), HiBound(keys, p + 1, hi), h)
    ensures KidsOk(RemoveAt(keys, p), RemoveAt(kids, p + 1)[p := m], lo, hi, h)
  {
    var keys', kids' := RemoveAt(keys, p), RemoveAt(kids, p + 1)[p := m];
    forall i | 0 <= i < |kids'|
      ensures WF(kids'[i], MIN_KEYS, LoBound(keys', i, lo), HiBound(keys', i, hi), h)
    {
      if i < p {
        assert WF(kids[i], MIN_KEYS, LoBound(keys, i, lo), HiBound(keys, i, hi), h);
      } else if i > p {
        assert WF(kids[i + 1], MIN_KEYS, LoBound(keys, i + 1, lo), HiBound(keys, i + 1, hi), h);
      }
    }
  }

  lemma {:induction false} LeavesOfPair(kids: seq<Tree>, p: nat)
    requires p + 1 < |kids|
    ensures LeavesOf(kids) == LeavesOf(kids[..p]) + (Leaves(kids[p]) + Leaves(kids[p + 1])) + LeavesOf(kids[p + 2..])
  {
    if p == 0 {
      assert LeavesOf(kids[..0]) == [];
      assert kids[1..][1..] == kids[2..];
    } else {
      LeavesOfPair(kids[1..], p - 1);
      assert kids[1..][..p - 1] == kids[..p][1..];
      assert kids[1..][p + 1..] == kids[p + 2..];
    }
  }

  /** Trading entries between two neighbours does not change the run of all entries. */
  lemma FlatPair(kids: seq<Tree>, p: nat, l: Tree, r: Tree)
    requires p + 1 < |kids|
    requires Flat(l) + Flat(r) == Flat(kids[p]) + Flat(kids[p + 1])
    ensures FlatOf(kids[p := l][p + 1 := r]) == FlatOf(kids)
  {
    var kids' := kids[p := l][p + 1 := r];
    LeavesOfPair(kids, p);
    LeavesOfPair(kids', p);
    assert kids'[..p] == kids[..p] && kids'[p + 2..] == kids[p + 2..];
    EntriesThree(LeavesOf(kids[..p]), Leaves(kids[p]) + Leaves(kids[p + 1]), LeavesOf(kids[p + 2..]));
    EntriesThree(LeavesOf(kids[..p]), Leaves(l) + Leaves(r), LeavesOf(kids[p + 2..]));
    EntriesAppend(Leaves(kids[p]), Leaves(kids[p + 1]));
    EntriesAppend(Leaves(l), Leaves(r));
  }

  lemma FlatMerged(kids: seq<Tree>, p: nat, m: Tree)
    requires p + 1 < |kids|
    requires Flat(m) == Flat(kids[p]) + Flat(kids[p + 1])
    ensures FlatOf(RemoveAt(kids, p + 1)[p := m]) == FlatOf(kids)
  {
    var kids' := RemoveAt(kids, p + 1)[p := m];
    LeavesOfPair(kids, p);
    LeavesOfSplit(kids', p);
    assert kids'[..p] == kids[..p] && kids'[p + 1..] == kids[p + 2..];
    EntriesThree(LeavesOf(kids[..p]), Leaves(kids[p]) + Leaves(kids[p + 1]), LeavesOf(kids[p + 2..]));
    EntriesThree(LeavesOf(kids[..p]), Leaves(m), LeavesOf(kids[p + 2..]));
    EntriesAppend(Leaves(kids[p]), Leaves(kids[p + 1]));
  }

  /** Trading children between two neighbours does not even change the list of leaves. */
  lemma LeavesPair(kids: seq<Tree>, p: nat, l: Tree, r: Tree)
    requires p + 1 < |kids|
    requires Leaves(l) + Leaves(r) == Leaves(kids[p]) + Leaves(kids[p + 1])
    ensures LeavesOf(kids[p := l][p + 1 := r]) == LeavesOf(kids)
  {
    var kids' := kids[p := l][p + 1 := r];
    LeavesOfPair(kids, p);
    LeavesOfPair(kids', p);
    assert kids'[..p] == kids[..p] && kids'[p + 2..] == kids[p + 2..];
  }

  lemma LeavesMerged(kids: seq<Tree>, p: nat, m: Tree)
    requires p + 1 < |kids|
    requires Leaves(m) == Leaves(kids[p]) + Leaves(kids[p + 1])
    ensures LeavesOf(RemoveAt(kids, p + 1)[p := m]) == LeavesOf(kids)
  {
    var kids' := RemoveAt(kids, p + 1)[p := m];
    LeavesOfPair(kids, p);
    LeavesOfSplit(kids', p);
    assert kids'[..p] == kids[..p] && kids'[p + 1..] == kids[p + 2..];
  }

  // --- The three repairs move entries between neighbours and lose none --------------------------------

  lemma MergeFlat(id: int, keys: seq<int>, kids: seq<Tree>, p: nat)
    requires p < |keys| < |kids| && kids[p].Leaf? && kids[p + 1].Leaf?
    requires MergeChildren(id, keys, kids, p).Removed?
    ensures FlatOf(MergeChildren(id, keys, kids, p).t.kids) == FlatOf(kids)
  {
    var m := MergeChildren(id, keys, kids, p).t.kids[p];
    FlatLeaf(kids[p]);
    FlatLeaf(kids[p + 1]);
    FlatLeaf(m);
    FlatMerged(kids, p, m);
  }

  lemma MergeLeaves(id: int, keys: seq<int>, kids: seq<Tree>, p: nat)
    requires p < |keys| < |kids| && kids[p].Node? && kids[p + 1].Node?
    requires MergeChildren(id, keys, kids, p).Removed?
    ensures LeavesOf(MergeChildren(id, keys, kids, p).t.kids) == LeavesOf(kids)
  {
    LeavesOfAppend(kids[p].kids, kids[p + 1].kids);
    LeavesMerged(kids, p, MergeChildren(id, keys, kids, p).t.kids[p]);
  }

  lemma BorrowFromLeftFlat(id: int, keys: seq<int>, kids: seq<Tree>, i: nat)
    requires 0 < i <= |keys| < |kids|
    requires kids[i - 1].Leaf? && kids[i].Leaf? && kids[i - 1].Count() >= 1
    ensures FlatOf(BorrowFromLeft(id, keys, kids, i, i).kids) == FlatOf(kids)
  {
    var t := BorrowFromLeft(id, keys, kids, i, i);
    var l, c, l', c' := kids[i - 1], kids[i], t.kids[i - 1], t.kids[i];
    FlatLeaf(l);
    FlatLeaf(c);
    FlatLeaf(l');
    FlatLeaf(c');
    assert l.es + c.es == l'.es + c'.es;
    FlatPair(kids, i - 1, l', c');
  }

  lemma BorrowFromLeftLeaves(id: int, keys: seq<int>, kids: seq<Tree>, i: nat)
    requires 0 < i <= |keys| < |kids|
    requires kids[i - 1].Node? && kids[i].Node? && kids[i - 1].Count() >= 1
    requires |kids[i - 1].kids| == |kids[i - 1].keys| + 1
    ensures LeavesOf(BorrowFromLeft(id, keys, kids, i, i).kids) == LeavesOf(kids)
  {
    var t := BorrowFromLeft(id, keys, kids, i, i);
    var lc, rc, m := kids[i - 1].kids, kids[i].kids, |kids[i - 1].keys|;
    LeavesOfAppend(lc[..m], [lc[m]]);
    assert lc == lc[..m] + [lc[m]];
    LeavesOfAppend([lc[m]], rc);
    LeavesPair(kids, i - 1, t.kids[i - 1], t.kids[i]);
  }

  lemma BorrowFromRightFlat(id: int, keys: seq<int>, kids: seq<Tree>, i: nat)
    requires i < |keys| < |kids|
    requires kids[i + 1].Leaf? && kids[i].Leaf? && kids[i + 1].Count() >= 2
    ensures FlatOf(BorrowFromRight(id, keys, kids, i, i).kids) == FlatOf(kids)
  {
    var t := BorrowFromRight(id, keys, kids, i, i);
    var c, r, c', r' := kids[i], kids[i + 1], t.kids[i], t.kids[i + 1];
    FlatLeaf(r);
    FlatLeaf(c);
    FlatLeaf(r');
    FlatLeaf(c');
    assert c.es + r.es == c'.es + r'.es;
    FlatPair(kids, i, c', r');
    assert t.kids == kids[i := c'][i + 1 := r'];
  }

  lemma BorrowFromRightLeaves(id: int, keys: seq<int>, kids: seq<Tree>, i: nat)
    requires i < |keys| < |kids|
    requires kids[i + 1].Node? && kids[i].Node? && kids[i + 1].Count() >= 2
    requires |kids[i + 1].kids| == |kids[i + 1].keys| + 1
    ensures LeavesOf(BorrowFromRight(id, keys, kids, i, i).kids) == LeavesOf(kids)
  {
    var t := BorrowFromRight(id, keys, kids, i, i);
    var lc, rc := kids[i].kids, kids[i + 1].kids;
    LeavesOfAppend(lc, [rc[0]]);
    LeavesOfAppend([rc[0]], rc[1..]);
    assert rc == [rc[0]] + rc[1..];
    LeavesPair(kids, i, t.kids[i], t.kids[i + 1]);
    assert t.kids == kids[i := t.kids[i]][i + 1 := t.kids[i + 1]];
  }

  lemma RebalanceFlat(id: int, keys: seq<int>, kids: seq<Tree>, d: nat, i: nat)
    requires |kids| == |keys| + 1 && |keys| >= 1
    requires d < |kids| && i <= |keys| && kids[d].Count() < MIN_KEYS
    requires d == i || (d == i + 1 && !Lends(keys, kids, i))
    requires SameKind(kids) && OthersShaped(kids, d)
    ensures var r := Rebalance(id, keys, kids, d, i);
            && (r.Removed? ==> FlatOf(r.t.kids) == FlatOf(kids))
            && (r.Removed? && kids[0].Node? ==> LeavesOf(r.t.kids) == LeavesOf(kids))
  {
    assert i > 0 ==> Shape(kids[i - 1]);
    assert i < |keys| && i + 1 != d ==> Shape(kids[i + 1]);
    if i > 0 && kids[i - 1].Count() > MIN_KEYS {
      if kids[0].Leaf? {
        BorrowFromLeftFlat(id, keys, kids, i);
      } else {
        BorrowFromLeftLeaves(id, keys, kids, i);
      }
    } else if i < |keys| && kids[i + 1].Count() > MIN_KEYS {
      if kids[0].Leaf? {
        BorrowFromRightFlat(id, keys, kids, i);
      } else {
        BorrowFromRightLeaves(id, keys, kids, i);
      }
    } else if Rebalance(id, keys, kids, d, i).Removed? {
      if kids[0].Leaf? {
        MergeFlat(id, keys, kids, if i > 0 then i - 1 else i);
      } else {
        MergeLeaves(id, keys, kids, if i > 0 then i - 1 else i);
      }
    }
  }

  // --- The three repairs restore the invariant, where they are the right ones --------------------------

  /** A child that lost one key too many, between two separators of its parent. */
  ghost predicate Underfull(c: Tree, lo: int, hi: int, h: nat) {
    WF(c, MIN_KEYS - 1, lo, hi, h) && c.Count() == MIN_KEYS - 1
  }

  predicate Lends(keys: seq<int>, kids: seq<Tree>, i: nat)
    requires |kids| == |keys| + 1 && i <= |keys|
  {
    || (i > 0 && kids[i - 1].Count() > MIN_KEYS)
    || (i < |keys| && kids[i + 1].Count() > MIN_KEYS)
  }

  lemma MergeCorrect(id: int, keys: seq<int>, kids: seq<Tree>, lo: int, hi: int, h: nat, p: nat, l: Tree, r: Tree)
    requires KidsOk(keys, kids, lo, hi, h)
    requires p < |keys| && lo < hi
    requires WF(l, MIN_KEYS - 1, LoBound(keys, p, lo), keys[p], h)
    requires WF(r, MIN_KEYS - 1, keys[p], HiBound(keys, p + 1, hi), h)
    requires l.Count() + r.Count() + (if l.Leaf? then 0 else 1) <= LEAF_ORDER
    ensures l.Leaf? == r.Leaf?
    ensures var m := MergeChildren(id, keys, kids[p := l][p + 1 := r], p);
            && m.Removed? && m.t.Node? && |m.t.keys| == |keys| - 1
            && KidsOk(m.t.keys, m.t.kids, lo, hi, h)
  {
    var kids1 := kids[p := l][p + 1 := r];
    var a, s, b := LoBound(keys, p, lo), keys[p], HiBound(keys, p + 1, hi);
    var m: Tree;
    if l.Leaf? {
      m := Leaf(l.id, l.es + r.es);
      SortedJoin(l.es, r.es, a, s, b);
    } else {
      m := Node(l.id, l.keys + [s] + r.keys, l.kids + r.kids);
      KidsJoin(l.keys, l.kids, s, r.keys, r.kids, a, b, h - 1);
    }
    OneForTwo(keys, kids, lo, hi, h, p, m);
    assert RemoveAt(kids1, p + 1)[p := m] == RemoveAt(kids, p + 1)[p := m];
  }

  lemma BorrowLeafFromLeft(id: int, keys: seq<int>, kids: seq<Tree>, lo: int, hi: int, h: nat, p: nat, c: Tree)
    requires KidsOk(keys, kids, lo, hi, h)
    requires p < |keys| && kids[p].Count() > MIN_KEYS
    requires c.Leaf? && Underfull(c, keys[p], HiBound(keys, p + 1, hi), h)
    ensures kids[p].Leaf?
    ensures var t := BorrowFromLeft(id, keys, kids[p + 1 := c], p + 1, p + 1);
            |t.keys| == |keys| && KidsOk(t.keys, t.kids, lo, hi, h)
  {
    var l, b := kids[p], HiBound(keys, p + 1, hi);
    assert WF(l, MIN_KEYS, LoBound(keys, p, lo), keys[p], h);
    var last := |l.es| - 1;
    var e := l.es[last];
    LeafSlice(l.es, LoBound(keys, p, lo), keys[p], last);
    assert l.es[0].key < e.key;
    SortedJoin([e], c.es, e.key, keys[p], b);
    var l', r' := Leaf(l.id, l.es[..last]), Leaf(c.id, [e] + c.es);
    PairReplace(keys, kids, lo, hi, h, p, l', e.key, r');
    assert kids[p + 1 := c][p := l'][p + 1 := r'] == kids[p := l'][p + 1 := r'];
  }

  /** The last child of a left run of children moves over a separator to the right run. */
  lemma RotateRight(lk: seq<int>, lc: seq<Tree>, s: int, rk: seq<int>, rc: seq<Tree>, lo: int, hi: int, h: nat)
    requires KidsOk(lk, lc, lo, s, h) && KidsOk(rk, rc, s, hi, h)
    requires lo < s < hi && |lk| >= 1
    ensures var m := |lk| - 1;
            && lo < lk[m] < s
            && KidsOk(lk[..m], lc[..m + 1], lo, lk[m], h)
            && KidsOk([s] + rk, [lc[m + 1]] + rc, lk[m], hi, h)
  {
    hide WF, LoBound, HiBound;
    var m := |lk| - 1;
    KidsSlice(lk, lc, lo, s, h, m);
    assert lk[m + 1..] == [] && lc[m + 1..] == [lc[m + 1]];
    KidsJoin([], [lc[m + 1]], s, rk, rc, lk[m], hi, h);
    assert [] + [s] + rk == [s] + rk;
  }

  lemma BorrowNodeFromLeft(id: int, keys: seq<int>, kids: seq<Tree>, lo: int, hi: int, h: nat, p: nat, c: Tree)
    requires KidsOk(keys, kids, lo, hi, h)
    requires p < |keys| && kids[p].Count() > MIN_KEYS
    requires c.Node? && Underfull(c, keys[p], HiBound(keys, p + 1, hi), h)
    ensures kids[p].Node? && |kids[p].kids| == |kids[p].keys| + 1
    ensures var t := BorrowFromLeft(id, keys, kids[p + 1 := c], p + 1, p + 1);
            |t.keys| == |keys| && KidsOk(t.keys, t.kids, lo, hi, h)
  {
    var l, a, s, b := kids[p], LoBound(keys, p, lo), keys[p], HiBound(keys, p + 1, hi);
    assert WF(l, MIN_KEYS, a, s, h);
    assert KidsOk(l.keys, l.kids, a, s, h - 1);
    var m := |l.keys| - 1;
    var l', r' := Node(l.id, l.keys[..m], l.kids[..m + 1]), Node(c.id, [s] + c.keys, [l.kids[m + 1]] + c.kids);
    RotateRight(l.keys, l.kids, s, c.keys, c.kids, a, b, h - 1);
    PairReplace(keys, kids, lo, hi, h, p, l', l.keys[m], r');
    assert kids[p + 1 := c][p := l'][p + 1 := r'] == kids[p := l'][p + 1 := r'];
  }

  lemma BorrowLeafFromRight(id: int, keys: seq<int>, kids: seq<Tree>, lo: int, hi: int, h: nat, p: nat, c: Tree)
    requires KidsOk(keys, kids, lo, hi, h)
    requires p < |keys| && kids[p + 1].Count() > MIN_KEYS
    requires c.Leaf? && Underfull(c, LoBound(keys, p, lo), keys[p], h)
    ensures kids[p + 1].Leaf?
    ensures var t := BorrowFromRight(id, keys, kids[p := c], p, p);
            |t.keys| == |keys| && KidsOk(t.keys, t.kids, lo, hi, h)
  {
    var r, a, b := kids[p + 1], LoBound(keys, p, lo), HiBound(keys, p + 1, hi);
    assert WF(r, MIN_KEYS, keys[p], b, h);
    var e, s := r.es[0], r.es[1].key;
    LeafSlice(r.es, keys[p], b, 1);
    assert c.es[0].key < s;
    SortedJoin(c.es, [e], a, keys[p], s);
    var l', r' := Leaf(c.id, c.es + [e]), Leaf(r.id, r.es[1..]);
    PairReplace(keys, kids, lo, hi, h, p, l', s, r');
    assert kids[p := c][p + 1 := r'][p := l'] == kids[p := l'][p + 1 := r'];
  }

  lemma KidsShape(keys: seq<int>, kids: seq<Tree>, lo: int, hi: int, h: nat)
    requires KidsOk(keys, kids, lo, hi, h)
    ensures SameKind(kids)
    ensures forall j | 0 <= j < |kids| :: Shape(kids[j]) && (kids[j].Leaf? <==> h == 0)
  {
    forall j | 0 <= j < |kids|
      ensures Shape(kids[j]) && (kids[j].Leaf? <==> h == 0)
    {
      assert WF(kids[j], MIN_KEYS, LoBound(keys, j, lo), HiBound(keys, j, hi), h);
      ShapeOfWF(kids[j], MIN_KEYS, LoBound(keys, j, lo), HiBound(keys, j, hi), h);
    }
  }

  lemma UnderfullKind(c: Tree, lo: int, hi: int, h: nat)
    requires Underfull(c, lo, hi, h)
    ensures (c.Leaf? <==> h == 0) && c.Count() == MIN_KEYS - 1
  {
  }

  lemma MergeEitherWay(id: int, keys: seq<int>, kids: seq<Tree>, lo: int, hi: int, h: nat, p: nat, d: nat, c: Tree)
    requires KidsOk(keys, kids, lo, hi, h)
    requires p < |keys| && lo < hi && (d == p || d == p + 1)
    requires Underfull(c, LoBound(keys, d, lo), HiBound(keys, d, hi), h)
    requires kids[if d == p then p + 1 else p].Count() + (if c.Leaf? then MIN_KEYS - 1 else MIN_KEYS) <= LEAF_ORDER
    ensures kids[d := c][p].Leaf? == kids[d := c][p + 1].Leaf?
    ensures var r := MergeChildren(id, keys, kids[d := c], p);
            && r.Removed? && r.t.Node? && |r.t.keys| == |keys| - 1
            && KidsOk(r.t.keys, r.t.kids, lo, hi, h)
  {
    assert WF(kids[p], MIN_KEYS, LoBound(keys, p, lo), HiBound(keys, p, hi), h);
    assert WF(kids[p + 1], MIN_KEYS, LoBound(keys, p + 1, lo), HiBound(keys, p + 1, hi), h);
    if d == p {
      assert kids[p := c][p + 1 := kids[p + 1]] == kids[d := c];
      MergeCorrect(id, keys, kids, lo, hi, h, p, c, kids[p + 1]);
    } else {
      assert kids[p := kids[p]][p + 1 := c] == kids[d := c];
      MergeCorrect(id, keys, kids, lo, hi, h, p, kids[p], c);
    }
  }

  /** Refilling an underfull child restores the invariant. */
  lemma ReplacedKid(kids: seq<Tree>, d: nat, c: Tree)
    requires d < |kids| && SameKind(kids) && OthersShaped(kids, d) && c.Leaf? == kids[0].Leaf?
    ensures SameKind(kids[d := c]) && OthersShaped(kids[d := c], d)
  {
  }

  ghost predicate Mended(r: Removal, n: int, lo: int, hi: int, h: nat) {
    r.Removed? && r.t.Node? && |r.t.keys| == n && KidsOk(r.t.keys, r.t.kids, lo, hi, h)
  }

  lemma RefillFromLeft(id: int, keys: seq<int>, kids: seq<Tree>, lo: int, hi: int, h: nat, i: nat, c: Tree)
    requires KidsOk(keys, kids, lo, hi, h) && |kids| == |keys| + 1 && 1 <= i <= |keys| && kids[i - 1].Count() > MIN_KEYS
    requires Underfull(c, LoBound(keys, i, lo), HiBound(keys, i, hi), h)
    requires SameKind(kids[i := c]) && OthersShaped(kids[i := c], i) && c.Count() < MIN_KEYS
    ensures Mended(Rebalance(id, keys, kids[i := c], i, i), |keys|, lo, hi, h)
  {
    hide WF, KidsOk, Underfull;
    var left := kids[i := c];
    assert left[i - 1] == kids[i - 1] && Rebalance(id, keys, left, i, i) == Removed(BorrowFromLeft(id, keys, left, i, i));
    hide Rebalance;
    if c.Leaf? {
      BorrowLeafFromLeft(id, keys, kids, lo, hi, h, i - 1, c);
    } else {
      BorrowNodeFromLeft(id, keys, kids, lo, hi, h, i - 1, c);
    }
  }

  lemma RefillFromRight(id: int, keys: seq<int>, kids: seq<Tree>, lo: int, hi: int, h: nat, i: nat, c: Tree)
    requires KidsOk(keys, kids, lo, hi, h) && |kids| == |keys| + 1 && i < |keys| && kids[i + 1].Count() > MIN_KEYS
    requires i == 0 || kids[i - 1].Count() <= MIN_KEYS
    requires c.Leaf? && Underfull(c, LoBound(keys, i, lo), HiBound(keys, i, hi), h)
    requires SameKind(kids[i := c]) && OthersShaped(kids[i := c], i) && c.Count() < MIN_KEYS
    ensures Mended(Rebalance(id, keys, kids[i := c], i, i), |keys|, lo, hi, h)
  {
    hide WF, KidsOk, Underfull, Shape;
    var left := kids[i := c];
    assert left[i + 1] == kids[i + 1] && (i > 0 ==> left[i - 1] == kids[i - 1]);
    assert Rebalance(id, keys, left, i, i) == Removed(BorrowFromRight(id, keys, left, i, i));
    hide Rebalance;
    BorrowLeafFromRight(id, keys, kids, lo, hi, h, i, c);
  }

  lemma MergesWhenNoneLends(id: int, keys: seq<int>, kids: seq<Tree>, d: nat, i: nat, c: Tree)
    requires |kids| == |keys| + 1 && 1 <= |keys| && d < |kids| && i <= |keys| && (d == i || d == i + 1)
    requires SameKind(kids[d := c]) && OthersShaped(kids[d := c], d) && c.Count() < MIN_KEYS == kids[d].Count()
    requires !Lends(keys, kids, i)
    ensures var p := if i > 0 then i - 1 else i;
            && kids[d := c][p].Leaf? == kids[d := c][p + 1].Leaf?
            && Rebalance(id, keys, kids[d := c], d, i) == MergeChildren(id, keys, kids[d := c], p)
  {
    hide MergeChildren, BorrowFromLeft, BorrowFromRight, OthersShaped;
    var left := kids[d := c];
    assert i > 0 ==> left[i - 1].Count() <= MIN_KEYS;
    assert i < |keys| ==> left[i + 1].Count() <= MIN_KEYS;
  }

  /** With a neighbour that has none to lend, the two fit into one page. */
  lemma RoomToMerge(keys: seq<int>, kids: seq<Tree>, d: nat, i: nat, c: Tree)
    requires |kids| == |keys| + 1 && 1 <= |keys| && d < |kids| && i <= |keys| && (d == i || (d == 1 && i == 0))
    requires !Lends(keys, kids, i)
    requires d != i ==> kids[0].Count() + (if c.Leaf? then MIN_KEYS - 1 else MIN_KEYS) <= LEAF_ORDER
    ensures var p := if i > 0 then i - 1 else i;
            kids[if d == p then p + 1 else p].Count() + (if c.Leaf? then MIN_KEYS - 1 else MIN_KEYS) <= LEAF_ORDER
  {
  }

  lemma RefillByMerging(id: int, keys: seq<int>, kids: seq<Tree>, lo: int, hi: int, h: nat, d: nat, i: nat, c: Tree)
    requires KidsOk(keys, kids, lo, hi, h) && |kids| == |keys| + 1 && 1 <= |keys| && lo < hi && d < |kids| && i <= |keys|
    requires d == i || (d == 1 && i == 0)
    requires Underfull(c, LoBound(keys, d, lo), HiBound(keys, d, hi), h)
    requires SameKind(kids[d := c]) && OthersShaped(kids[d := c], d) && c.Count() < MIN_KEYS == kids[d].Count()
    requires !Lends(keys, kids, i)
    requires d != i ==> kids[0].Count() + (if c.Leaf? then MIN_KEYS - 1 else MIN_KEYS) <= LEAF_ORDER
    ensures Mended(Rebalance(id, keys, kids[d := c], d, i), |keys| - 1, lo, hi, h)
  {
    hide WF, KidsOk, Underfull, Rebalance, SameKind, OthersShaped, MergeChildren, Shape, Lends, LoBound, HiBound;
    RoomToMerge(keys, kids, d, i, c);
    MergesWhenNoneLends(id, keys, kids, d, i, c);
    MergeEitherWay(id, keys, kids, lo, hi, h, if i > 0 then i - 1 else i, d, c);
  }

  lemma RebalanceCorrect(id: int, keys: seq<int>, kids: seq<Tree>, lo: int, hi: int, h: nat, d: nat, i: nat, c: Tree)
    requires KidsOk(keys, kids, lo, hi, h)
    requires |keys| >= 1 && lo < hi && d < |kids| && i <= |keys|
    requires d == i || d == i + 1
    requires Underfull(c, LoBound(keys, d, lo), HiBound(keys, d, hi), h)
    requires kids[d].Count() == MIN_KEYS
    requires !BadRebalance(keys, kids, d, i)
    ensures SameKind(kids[d := c]) && OthersShaped(kids[d := c], d) && c.Count() < MIN_KEYS
    ensures Mended(Rebalance(id, keys, kids[d := c], d, i),
                     |keys| - (if Lends(keys, kids, i) then 0 else 1), lo, hi, h)
  {
    hide WF, Shape, Rebalance;
    KidsShape(keys, kids, lo, hi, h);
    UnderfullKind(c, LoBound(keys, d, lo), HiBound(keys, d, hi), h);
    ReplacedKid(kids, d, c);
    hide KidsOk, Underfull, Mended;
    if i > 0 && kids[i - 1].Count() > MIN_KEYS {
      RefillFromLeft(id, keys, kids, lo, hi, h, i, c);
    } else if i < |keys| && kids[i + 1].Count() > MIN_KEYS {
      RefillFromRight(id, keys, kids, lo, hi, h, i, c);
    } else {
      RefillByMerging(id, keys, kids, lo, hi, h, d, i, c);
    }
  }

  // --- A whole deletion, where no guard of a broken branch holds --------------------------------------

  /** The invariant is restored, and the count drops exactly when the node shrinks. */
  ghost predicate ShapeRestored(t: Tree, k: int, lo: int, hi: int, h: nat)
    requires Shape(t)
  {
    var r := DeleteRec(t, k);
    && !r.Overrun?
    && (r.Missing? ==> !Shrinks(t, k))
    && (r.Removed? ==>
          && r.t.Count() == t.Count() - (if Shrinks(t, k) then 1 else 0)
          && WF(r.t, r.t.Count(), lo, hi, h))
  }

  lemma NodeParts(t: Tree, least: int, lo: int, hi: int, h: nat, d: nat)
    requires WF(t, least, lo, hi, h) && t.Node?
    ensures h > 0 && |t.keys| <= INTERNAL_ORDER && KidsOk(t.keys, t.kids, lo, hi, h - 1)
    ensures d < |t.kids| ==> WF(t.kids[d], MIN_KEYS, LoBound(t.keys, d, lo), HiBound(t.keys, d, hi), h - 1)
    ensures d < |t.kids| ==> t.kids[d].Count() >= MIN_KEYS
  {
  }

  lemma NodeWhole(id: int, keys: seq<int>, kids: seq<Tree>, lo: int, hi: int, h: nat)
    requires KidsOk(keys, kids, lo, hi, h) && |keys| <= INTERNAL_ORDER
    ensures WF(Node(id, keys, kids), |keys|, lo, hi, h + 1)
  {
  }

  lemma LeastLowered(t: Tree, least: int, least': int, lo: int, hi: int, h: nat)
    requires WF(t, least, lo, hi, h) && least' <= t.Count()
    ensures WF(t, least', lo, hi, h)
  {
  }

  lemma LeafRestored(t: Tree, k: int, least: int, lo: int, hi: int, h: nat)
    requires WF(t, least, lo, hi, h) && t.Leaf?
    ensures ShapeRestored(t, k, lo, hi, h)
  {
    var p := LeafPos(t.es, k);
    if HasKey(t.es, k) {
      var i :| 0 <= i < |t.es| && t.es[i].key == k;
      assert p == i;
    }
  }

  lemma KeptRestored(t: Tree, k: int, least: int, lo: int, hi: int, h: nat, c: Tree)
    requires WF(t, least, lo, hi, h) && Shape(t) && t.Node? && lo < hi
    requires DeleteRec(t.kids[Descend(t.keys, k)], k) == Removed(c) && c.Count() >= MIN_KEYS
    requires var d := Descend(t.keys, k);
             h > 0 && d < |t.kids| && ShapeRestored(t.kids[d], k, LoBound(t.keys, d, lo), HiBound(t.keys, d, hi), h - 1)
    ensures ShapeRestored(t, k, lo, hi, h)
  {
    hide WF, KidsOk;
    var d := Descend(t.keys, k);
    NodeParts(t, least, lo, hi, h, d);
    LeastLowered(c, c.Count(), MIN_KEYS, LoBound(t.keys, d, lo), HiBound(t.keys, d, hi), h - 1);
    KidsReplace(t.keys, t.kids, lo, hi, h - 1, d, c);
    NodeWhole(t.id, t.keys, t.kids[d := c], lo, hi, h - 1);
    assert DeleteRec(t, k) == Removed(Node(t.id, t.keys, t.kids[d := c]));
    assert !Underflows(t.kids[d], k);
    assert !Shrinks(t, k);
  }

  lemma RefilledRestored(t: Tree, k: int, least: int, lo: int, hi: int, h: nat, c: Tree)
    requires WF(t, least, lo, hi, h) && Shape(t) && t.Node? && lo < hi && !Fault(t, k)
    requires DeleteRec(t.kids[Descend(t.keys, k)], k) == Removed(c) && c.Count() < MIN_KEYS
    requires var d := Descend(t.keys, k);
             h > 0 && d < |t.kids| && ShapeRestored(t.kids[d], k, LoBound(t.keys, d, lo), HiBound(t.keys, d, hi), h - 1)
    ensures ShapeRestored(t, k, lo, hi, h)
  {
    hide WF, KidsOk, Rebalance, BadRebalance;
    var d, i := Descend(t.keys, k), LowerBound(t.keys, k);
    NodeParts(t, least, lo, hi, h, d);
    RebalanceCorrect(t.id, t.keys, t.kids, lo, hi, h - 1, d, i, c);
    var r := Rebalance(t.id, t.keys, t.kids[d := c], d, i);
    NodeWhole(r.t.id, r.t.keys, r.t.kids, lo, hi, h - 1);
    assert DeleteRec(t, k) == r;
    assert Underflows(t.kids[d], k);
    assert Shrinks(t, k) <==> !Lends(t.keys, t.kids, i);
  }

  lemma {:induction false} DeleteRestoresShape(t: Tree, k: int, least: int, lo: int, hi: int, h: nat)
    requires WF(t, least, lo, hi, h) && Shape(t)
    requires lo < hi
    requires !Fault(t, k)
    ensures ShapeRestored(t, k, lo, hi, h)
    decreases h
  {
    if t.Leaf? {
      LeafRestored(t, k, least, lo, hi, h);
    } else {
      hide WF, KidsOk, Rebalance;
      var d := Descend(t.keys, k);
      NodeParts(t, least, lo, hi, h, d);
      DeleteRestoresShape(t.kids[d], k, MIN_KEYS, LoBound(t.keys, d, lo), HiBound(t.keys, d, hi), h - 1);
      var r := DeleteRec(t.kids[d], k);
      if r.Removed? {
        if r.t.Count() >= MIN_KEYS {
          KeptRestored(t, k, least, lo, hi, h, r.t);
        } else {
          RefilledRestored(t, k, least, lo, hi, h, r.t);
        }
      } else {
        assert DeleteRec(t, k) == r;
        assert !Underflows(t.kids[d], k);
      }
    }
  }

  /** What the recursive call at a node restores. */
  lemma BelowRestored(t: Tree, k: int, least: int, lo: int, hi: int, h: nat)
    requires WF(t, least, lo, hi, h) && Shape(t) && t.Node? && lo < hi
    requires !Fault(t.kids[Descend(t.keys, k)], k)
    ensures var d := Descend(t.keys, k);
            && h > 0 && d < |t.kids| == |t.keys| + 1 && Shape(t.kids[d])
            && t.kids[d].Count() >= MIN_KEYS && KidsOk(t.keys, t.kids, lo, hi, h - 1)
            && ShapeRestored(t.kids[d], k, LoBound(t.keys, d, lo), HiBound(t.keys, d, hi), h - 1)
  {
    hide WF, ShapeRestored;
    var d := Descend(t.keys, k);
    NodeParts(t, least, lo, hi, h, d);
    DeleteRestoresShape(t.kids[d], k, MIN_KEYS, LoBound(t.keys, d, lo), HiBound(t.keys, d, hi), h - 1);
  }

  /** The entries after the call are those before it without the one asked for. */
  ghost predicate EntriesCorrect(t: Tree, k: int)
    requires Shape(t)
  {
    match DeleteRec(t, k)
    case Missing => !HasKey(Flat(t), k)
    case Removed(t') => HasKey(Flat(t), k) && Flat(t') == SortedRemove(Flat(t), k)
    case Overrun => true
  }

  lemma LeafRemoval(t: Tree, k: int)
    requires t.Leaf? && Sorted(t.es)
    ensures EntriesCorrect(t, k)
  {
    FlatLeaf(t);
    var p := LeafPos(t.es, k);
    if p < |t.es| && t.es[p].key == k {
      FlatLeaf(Leaf(t.id, RemoveAt(t.es, p)));
    } else if HasKey(t.es, k) {
      var i :| 0 <= i < |t.es| && t.es[i].key == k;
      assert false;
    }
  }

  lemma {:induction false} DeleteRemovesEntry(t: Tree, k: int, least: int, lo: int, hi: int, h: nat)
    requires WF(t, least, lo, hi, h) && Shape(t)
    requires lo <= k < hi
    requires !Fault(t, k)
    ensures EntriesCorrect(t, k)
    decreases h
  {
    if t.Leaf? {
      LeafRemoval(t, k);
    } else {
      hide WF, KidsOk, DeleteRec, LeavesOf, FlatOf, EntriesCorrect;
      var d := Descend(t.keys, k);
      var lo', hi' := LoBound(t.keys, d, lo), HiBound(t.keys, d, hi);
      NodeParts(t, least, lo, hi, h, d);
      NodeSandwich(t, least, lo, hi, h, k);
      DeleteRemovesEntry(t.kids[d], k, MIN_KEYS, lo', hi', h - 1);
      LevelFlat(t, k, least, lo, hi, h);
      NodeEntries(t, k, lo, hi);
    }
  }

  /** Around the child a search goes to: smaller keys before it, larger ones after it. */
  ghost predicate Around(t: Tree, k: int, lo: int, hi: int)
    requires Shape(t) && t.Node?
  {
    var d := Descend(t.keys, k);
    && Flat(t) == FlatOf(t.kids[..d]) + Flat(t.kids[d]) + FlatOf(t.kids[d + 1..])
    && InRange(FlatOf(t.kids[..d]), lo, k)
    && InRange(FlatOf(t.kids[d + 1..]), k + 1, hi)
    && Sorted(Flat(t.kids[d]))
  }

  lemma FlatOfNode(t: Tree)
    requires t.Node?
    ensures Flat(t) == FlatOf(t.kids)
  {
  }

  lemma KidsNumber(t: Tree)
    requires Shape(t) && t.Node?
    ensures |t.kids| == |t.keys| + 1
  {
  }

  lemma NodeSandwich(t: Tree, least: int, lo: int, hi: int, h: nat, k: int)
    requires WF(t, least, lo, hi, h) && Shape(t) && t.Node? && lo <= k < hi
    ensures Around(t, k, lo, hi)
    ensures var d := Descend(t.keys, k); LoBound(t.keys, d, lo) <= k < HiBound(t.keys, d, hi)
  {
    hide WF, KidsOk, Flat, FlatOf, Sorted, InRange, Shape, Descend, LowerBound;
    FlatOfNode(t);
    KidsNumber(t);
    var d := Descend(t.keys, k);
    NodeParts(t, least, lo, hi, h, d);
    Sandwich(t.keys, t.kids, lo, hi, h - 1, k);
    FlatSorted(t.kids[d], MIN_KEYS, LoBound(t.keys, d, lo), HiBound(t.keys, d, hi), h - 1);
  }

  lemma NodeEntries(t: Tree, k: int, lo: int, hi: int)
    requires Shape(t) && t.Node? && Around(t, k, lo, hi) && EntriesCorrect(t.kids[Descend(t.keys, k)], k)
    requires var d := Descend(t.keys, k);
             match DeleteRec(t, k)
             case Missing => DeleteRec(t.kids[d], k).Missing?
             case Overrun => true
             case Removed(t') =>
               && DeleteRec(t.kids[d], k).Removed?
               && FlatOf(t'.kids) == FlatOf(t.kids[..d]) + Flat(DeleteRec(t.kids[d], k).t) + FlatOf(t.kids[d + 1..])
    ensures EntriesCorrect(t, k)
  {
    hide DeleteRec, LeavesOf, SortedRemove, HasKey, Sorted;
    var d := Descend(t.keys, k);
    var A, M, B := FlatOf(t.kids[..d]), Flat(t.kids[d]), FlatOf(t.kids[d + 1..]);
    LeafPosBetween(A, M, B, k);
    RemoveBetween(A, M, B, k);
  }

  /** One level above a removal from child `d`, only that child's entries have changed. */
  lemma LevelFlat(t: Tree, k: int, least: int, lo: int, hi: int, h: nat)
    requires WF(t, least, lo, hi, h) && Shape(t) && t.Node?
    requires lo < hi && !Fault(t, k)
    ensures var d := Descend(t.keys, k);
            match DeleteRec(t, k)
            case Missing => DeleteRec(t.kids[d], k).Missing?
            case Overrun => true
            case Removed(t') =>
              && DeleteRec(t.kids[d], k).Removed?
              && FlatOf(t'.kids) == FlatOf(t.kids[..d]) + Flat(DeleteRec(t.kids[d], k).t) + FlatOf(t.kids[d + 1..])
  {
    hide WF, Flat, FlatOf, Rebalance;
    var id, keys, kids := t.id, t.keys, t.kids;
    var d, i := Descend(keys, k), LowerBound(keys, k);
    var r := DeleteRec(kids[d], k);
    if r.Removed? {
      var lo', hi' := LoBound(keys, d, lo), HiBound(keys, d, hi);
      NodeParts(t, least, lo, hi, h, d);
      DeleteRestoresShape(kids[d], k, MIN_KEYS, lo', hi', h - 1);
      FlatReplace(kids, d, r.t);
      if r.t.Count() < MIN_KEYS {
        RebalanceCorrect(id, keys, kids, lo, hi, h - 1, d, i, r.t);
        RebalanceFlat(id, keys, kids[d := r.t], d, i);
      }
    }
  }
}
