/**
 The exact condition under which deletion keeps the B+ tree intact: it does so if and only if no guard
 of a broken branch holds on the way down (`Fault`), for every tree and every key.
 */
module BPlusTreeFault {
  import opened Slots
  import opened BPlusTreeModel
  import opened BPlusTreeDelete

  /** A whole tree: the root may be a leaf with few entries, or an internal node with a single key. */
  ghost predicate RootWF(t: Tree, lo: int, hi: int, h: nat) {
    WF(t, if t.Leaf? then 0 else 1, lo, hi, h)
  }

  // --- Damage that no later step repairs ---------------------------------------------------------

  /** The first key of a child does not lie to the right of the separator before it. */
  predicate StartsBelow(c: Tree, s: int) {
    if c.Leaf? then |c.es| > 0 && c.es[0].key < s else |c.keys| > 0 && c.keys[0] <= s
  }

  predicate Damaged(t: Tree) {
    && t.Node?
    && ((exists i | 0 <= i < |t.kids| :: (|t.keys| >= 1 && t.kids[i].Count() < MIN_KEYS) || Damaged(t.kids[i]))
        || exists j | 0 < j < |t.kids| && j <= |t.keys| :: StartsBelow(t.kids[j], t.keys[j - 1]))
  }

  /** Some child is below half full, or damaged itself. */
  predicate KidDamage(t: Tree) {
    t.Node? &&
    exists i | 0 <= i < |t.kids| :: (|t.keys| >= 1 && t.kids[i].Count() < MIN_KEYS) || Damaged(t.kids[i])
  }

  lemma {:induction false} DamagedIsNotWF(t: Tree, least: int, lo: int, hi: int, h: nat)
    requires Damaged(t)
    ensures !WF(t, least, lo, hi, h)
    decreases h
  {
    if WF(t, least, lo, hi, h) {
      assert KidsOk(t.keys, t.kids, lo, hi, h - 1);
      forall i | 0 <= i < |t.kids|
        ensures !Damaged(t.kids[i]) && t.kids[i].Count() >= MIN_KEYS
        ensures i > 0 ==> !StartsBelow(t.kids[i], t.keys[i - 1])
      {
        assert WF(t.kids[i], MIN_KEYS, LoBound(t.keys, i, lo), HiBound(t.keys, i, hi), h - 1);
        if t.kids[i].Node? {
          assert KidsOk(t.kids[i].keys, t.kids[i].kids, LoBound(t.keys, i, lo), HiBound(t.keys, i, hi), h - 2);
        }
        if Damaged(t.kids[i]) {
          DamagedIsNotWF(t.kids[i], MIN_KEYS, LoBound(t.keys, i, lo), HiBound(t.keys, i, hi), h - 1);
        }
      }
      assert false;
    }
  }

  /** A child is damaged below its keys by its own child `g`. */
  predicate DamagedBy(c: Tree, g: Tree) {
    (c.Count() >= 1 && g.Count() < MIN_KEYS) || Damaged(g)
  }

  lemma DamagePassedOn(t: Tree, j: nat, y: nat, g: Tree)
    requires t.Node? && j < |t.kids| && t.kids[j].Node? && y < |t.kids[j].kids| && t.kids[j].kids[y] == g
    requires DamagedBy(t.kids[j], g)
    ensures KidDamage(t)
  {
    assert Damaged(t.kids[j]);
  }

  lemma DamagedGrandchild(c: Tree) returns (x: nat)
    requires KidDamage(c)
    ensures x < |c.kids| && DamagedBy(c, c.kids[x])
  {
    x :| 0 <= x < |c.kids| && ((|c.keys| >= 1 && c.kids[x].Count() < MIN_KEYS) || Damaged(c.kids[x]));
  }

  /** Refilling a child that is damaged below its own keys hands the damage on. */
  lemma RebalanceKeepsDamage(id: int, keys: seq<int>, kids: seq<Tree>, d: nat, i: nat)
    requires |kids| == |keys| + 1 && |keys| >= 1
    requires d < |kids| && i <= |keys| && kids[d].Count() < MIN_KEYS
    requires d == i || d == i + 1
    requires SameKind(kids) && OthersShaped(kids, d)
    requires KidDamage(kids[d])
    ensures var r := Rebalance(id, keys, kids, d, i); r.Removed? ==> KidDamage(r.t)
  {
    var r := Rebalance(id, keys, kids, d, i);
    var c := kids[d];
    var x := DamagedGrandchild(c);
    hide Damaged, KidDamage;
    assert i > 0 ==> Shape(kids[i - 1]);
    assert i < |keys| && i + 1 != d ==> Shape(kids[i + 1]);
    if i > 0 && kids[i - 1].Count() > MIN_KEYS {
      DamagePassedOn(r.t, d, x + 1, c.kids[x]);
    } else if i < |keys| && kids[i + 1].Count() > MIN_KEYS {
      DamagePassedOn(r.t, d, x, c.kids[x]);
    } else if r.Removed? {
      MergeKeepsDamage(id, keys, kids, d, if i > 0 then i - 1 else i, x);
    }
  }

  lemma MergeKeepsDamage(id: int, keys: seq<int>, kids: seq<Tree>, d: nat, p: nat, x: nat)
    requires |kids| == |keys| + 1 && p < |keys| && d < |kids| && p <= d <= p + 2
    requires SameKind(kids) && kids[d].Node? && x < |kids[d].kids| && DamagedBy(kids[d], kids[d].kids[x])
    requires MergeChildren(id, keys, kids, p).Removed?
    ensures KidDamage(MergeChildren(id, keys, kids, p).t)
  {
    hide Damaged, KidDamage;
    var t, c := MergeChildren(id, keys, kids, p).t, kids[d];
    if d == p {
      assert t.kids[p].kids[x] == c.kids[x];
      DamagePassedOn(t, p, x, c.kids[x]);
    } else if d == p + 1 {
      assert t.kids[p].kids[|kids[p].kids| + x] == c.kids[x];
      DamagePassedOn(t, p, |kids[p].kids| + x, c.kids[x]);
    } else {
      assert t.kids[d - 1] == c;
      DamagePassedOn(t, d - 1, x, c.kids[x]);
    }
  }

  /** Each broken branch leaves a page overrun, keys out of order, or a child that stays underfull. */
  lemma BadRebalanceDamages(id: int, keys: seq<int>, kids: seq<Tree>, lo: int, hi: int, h: nat, d: nat, i: nat, c: Tree)
    requires KidsOk(keys, kids, lo, hi, h)
    requires |keys| >= 1 && d < |kids| && i <= |keys|
    requires d == i || (i < |keys| && d == i + 1)
    requires Underfull(c, LoBound(keys, d, lo), HiBound(keys, d, hi), h)
    requires kids[d].Count() == MIN_KEYS
    requires SameKind(kids[d := c]) && OthersShaped(kids[d := c], d)
    requires BadRebalance(keys, kids, d, i)
    ensures var r := Rebalance(id, keys, kids[d := c], d, i);
            r.Removed? ==> Damaged(r.t) && (|r.t.keys| < |keys| ==> KidDamage(r.t))
  {
    KidsShape(keys, kids, lo, hi, h);
    var r := Rebalance(id, keys, kids[d := c], d, i);
    if i > 0 && kids[i - 1].Count() > MIN_KEYS {
      assert WF(kids[i - 1], MIN_KEYS, LoBound(keys, i - 1, lo), keys[i - 1], h);
      assert StartsBelow(r.t.kids[d], r.t.keys[d - 1]);
    } else if i < |keys| && kids[i + 1].Count() > MIN_KEYS {
      assert StartsBelow(r.t.kids[i + 1], r.t.keys[i]);
    } else if r.Removed? {
      assert r.t.kids[d - 1] == c;
    }
  }

  lemma {:induction false} FaultDamages(t: Tree, k: int, least: int, lo: int, hi: int, h: nat)
    requires WF(t, least, lo, hi, h) && Shape(t)
    requires lo < hi
    requires Fault(t, k)
    ensures !DeleteRec(t, k).Missing?
    ensures var r := DeleteRec(t, k);
            r.Removed? ==> Damaged(r.t) && (r.t.Count() < t.Count() ==> KidDamage(r.t))
    decreases h
  {
    var d := Descend(t.keys, k);
    var lo', hi' := LoBound(t.keys, d, lo), HiBound(t.keys, d, hi);
    assert WF(t.kids[d], MIN_KEYS, lo', hi', h - 1);
    if Fault(t.kids[d], k) {
      FaultDamages(t.kids[d], k, MIN_KEYS, lo', hi', h - 1);
      FaultBelow(t, k);
    } else {
      FaultHere(t, k, least, lo, hi, h);
    }
  }

  lemma FaultBelow(t: Tree, k: int)
    requires Shape(t) && t.Node?
    requires var r := DeleteRec(t.kids[Descend(t.keys, k)], k);
             && !r.Missing?
             && (r.Removed? ==>
                   && Damaged(r.t)
                   && (r.t.Count() < t.kids[Descend(t.keys, k)].Count() ==> KidDamage(r.t)))
    requires t.kids[Descend(t.keys, k)].Count() >= MIN_KEYS
    ensures !DeleteRec(t, k).Missing?
    ensures DeleteRec(t, k).Removed? ==> KidDamage(DeleteRec(t, k).t)
  {
    var id, keys, kids := t.id, t.keys, t.kids;
    var d, i := Descend(keys, k), LowerBound(keys, k);
    var r := DeleteRec(kids[d], k);
    if r.Removed? {
      if r.t.Count() >= MIN_KEYS {
        assert kids[d := r.t][d] == r.t;
      } else {
        RebalanceKeepsDamage(id, keys, kids[d := r.t], d, i);
      }
    }
  }

  lemma FaultHere(t: Tree, k: int, least: int, lo: int, hi: int, h: nat)
    requires WF(t, least, lo, hi, h) && Shape(t)
    requires lo < hi
    requires Fault(t, k) && !Fault(t.kids[Descend(t.keys, k)], k)
    ensures !DeleteRec(t, k).Missing?
    ensures var r := DeleteRec(t, k);
            r.Removed? ==> Damaged(r.t) && (r.t.Count() < t.Count() ==> KidDamage(r.t))
  {
    var id, keys, kids := t.id, t.keys, t.kids;
    var d, i := Descend(keys, k), LowerBound(keys, k);
    hide WF, KidsOk, Rebalance, BadRebalance, Damaged, KidDamage;
    BelowRestored(t, k, least, lo, hi, h);
    KidsShape(keys, kids, lo, hi, h - 1);
    var r := DeleteRec(kids[d], k);
    BadRebalanceDamages(id, keys, kids, lo, hi, h - 1, d, i, r.t);
  }

  // --- The whole call --------------------------------------------------------------------------------

  /** What a deletion promises: exactly the entry asked for is gone, and the tree is whole. */
  ghost predicate DeletesExactly(t: Tree, k: int, lo: int, hi: int)
    requires Shape(t)
  {
    match Delete(t, k)
    case Missing => !HasKey(Flat(t), k)
    case Overrun => false
    case Removed(t') =>
      && HasKey(Flat(t), k)
      && Flat(t') == SortedRemove(Flat(t), k)
      && exists h: nat :: RootWF(t', lo, hi, h)
  }

  lemma DeleteSound(t: Tree, k: int, lo: int, hi: int, h: nat)
    requires RootWF(t, lo, hi, h) && Shape(t)
    requires lo <= k < hi && !Fault(t, k)
    ensures DeletesExactly(t, k, lo, hi)
  {
    var least := if t.Leaf? then 0 else 1;
    DeleteRestoresShape(t, k, least, lo, hi, h);
    DeleteRemovesEntry(t, k, least, lo, hi, h);
    var r := DeleteRec(t, k);
    if r.Removed? {
      if r.t.Node? && |r.t.keys| == 0 {
        assert KidsOk(r.t.keys, r.t.kids, lo, hi, h - 1);
        var x := r.t.kids[0];
        assert r.t.kids == [x];
        assert WF(x, MIN_KEYS, LoBound([], 0, lo), HiBound([], 0, hi), h - 1);
        FlatOfOne(x);
        assert RootWF(x, lo, hi, h - 1);
      } else {
        assert RootWF(r.t, lo, hi, h);
      }
    }
  }

  lemma DeleteUnsound(t: Tree, k: int, lo: int, hi: int, h: nat)
    requires RootWF(t, lo, hi, h) && Shape(t)
    requires lo <= k < hi && Fault(t, k)
    ensures !DeletesExactly(t, k, lo, hi)
    ensures !Delete(t, k).Missing?
    ensures Delete(t, k).Removed? ==> forall h': nat :: !RootWF(Delete(t, k).t, lo, hi, h')
  {
    FaultDamages(t, k, if t.Leaf? then 0 else 1, lo, hi, h);
    var r := Delete(t, k);
    if r.Removed? {
      assert Damaged(r.t);
      forall h': nat ensures !RootWF(r.t, lo, hi, h') {
        DamagedIsNotWF(r.t, if r.t.Leaf? then 0 else 1, lo, hi, h');
      }
    }
  }

  /** Deletion does what it promises exactly when no guard of a broken branch holds. */
  lemma DeleteExact(t: Tree, k: int, lo: int, hi: int, h: nat)
    requires RootWF(t, lo, hi, h) && Shape(t)
    requires lo <= k < hi
    ensures DeletesExactly(t, k, lo, hi) <==> !Fault(t, k)
  {
    if Fault(t, k) {
      DeleteUnsound(t, k, lo, hi, h);
    } else {
      DeleteSound(t, k, lo, hi, h);
    }
  }
}
