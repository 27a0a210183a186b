/**
 The shape of the paged B+ tree as a value: what the pages reachable from the root say.

 Index keys are fixed strings of 128 bytes compared byte by byte; module IndexKeys proves that this
 order is the order of the numbers the bytes spell in base 256, so here a key is that number.
 */
module BPlusTreeModel {
  import opened Slots

  const PAGE_SIZE := 4096
  const DATA_START := 20
  const KEY_SIZE := 128
  const LEAF_ENTRY_SIZE := KEY_SIZE + 4 + 2
  const INTERNAL_ENTRY_SIZE := KEY_SIZE + 4
  // Both orders come to 30, and half of them, the least filling, to 15.
  const LEAF_ORDER: nat := (PAGE_SIZE - DATA_START) / LEAF_ENTRY_SIZE
  const INTERNAL_ORDER: nat := (PAGE_SIZE - DATA_START) / INTERNAL_ENTRY_SIZE
  const MIN_KEYS: nat := 15

  /** Keys are numbers of 128 base-256 digits. */
  ghost function KeySpace(digits: nat): (r: int)
    ensures r >= 1
  {
    if digits == 0 then 1 else 256 * KeySpace(digits - 1)
  }

  datatype Location = Location(page: int, slot: int)
  datatype Entry = Entry(key: int, loc: Location)

  /** A node carries the id of the page that holds it. */
  datatype Tree =
    | Leaf(id: int, es: seq<Entry>)
    | Node(id: int, keys: seq<int>, kids: seq<Tree>)
  {
    function Count(): nat {
      if Leaf? then |es| else |keys|
    }
  }

  // --- Searching inside one node -------------------------------------------------------------

  /** The first position whose key is not below `k`, or the number of keys. */
  function LowerBound(keys: seq<int>, k: int): (r: nat)
    ensures r <= |keys|
    ensures forall j | 0 <= j < r :: keys[j] < k
    ensures r < |keys| ==> keys[r] >= k
  {
    if keys == [] || keys[0] >= k then 0 else 1 + LowerBound(keys[1..], k)
  }

  function LeafPos(es: seq<Entry>, k: int): (r: nat)
    ensures r <= |es|
    ensures forall j | 0 <= j < r :: es[j].key < k
    ensures r < |es| ==> es[r].key >= k
  {
    if es == [] || es[0].key >= k then 0 else 1 + LeafPos(es[1..], k)
  }

  lemma LowerBoundUnique(keys: seq<int>, k: int, r: nat)
    requires r <= |keys|
    requires forall j | 0 <= j < r :: keys[j] < k
    requires r < |keys| ==> keys[r] >= k
    ensures r == LowerBound(keys, k)
  {
  }

  lemma LeafPosUnique(es: seq<Entry>, k: int, r: nat)
    requires r <= |es|
    requires forall j | 0 <= j < r :: es[j].key < k
    requires r < |es| ==> es[r].key >= k
    ensures r == LeafPos(es, k)
  {
  }

  /** The child a search for `k` goes to: a key equal to a separator lies to its right. */
  function Descend(keys: seq<int>, k: int): (r: nat)
    ensures r <= |keys|
  {
    var i := LowerBound(keys, k);
    if i < |keys| && keys[i] == k then i + 1 else i
  }

  // --- Meaning -------------------------------------------------------------------------------

  function Leaves(t: Tree): seq<Tree> {
    if t.Leaf? then [t] else LeavesOf(t.kids)
  }

  function LeavesOf(kids: seq<Tree>): seq<Tree> {
    if kids == [] then [] else Leaves(kids[0]) + LeavesOf(kids[1..])
  }

  /** The entries of a list of leaves, from left to right. */
  function Entries(leaves: seq<Tree>): seq<Entry> {
    if leaves == [] then []
    else (if leaves[0].Leaf? then leaves[0].es else []) + Entries(leaves[1..])
  }

  function Flat(t: Tree): seq<Entry> {
    Entries(Leaves(t))
  }

  function FlatOf(kids: seq<Tree>): seq<Entry> {
    Entries(LeavesOf(kids))
  }

  predicate Sorted(es: seq<Entry>) {
    forall i, j | 0 <= i < j < |es| :: es[i].key < es[j].key
  }

  predicate HasKey(es: seq<Entry>, k: int) {
    exists i | 0 <= i < |es| :: es[i].key == k
  }

  predicate InRange(es: seq<Entry>, lo: int, hi: int) {
    forall i | 0 <= i < |es| :: lo <= es[i].key < hi
  }

  function SortedInsert(es: seq<Entry>, e: Entry): seq<Entry> {
    InsertAt(es, LeafPos(es, e.key), e)
  }

  function SortedRemove(es: seq<Entry>, k: int): seq<Entry> {
    var p := LeafPos(es, k);
    if p < |es| && es[p].key == k then RemoveAt(es, p) else es
  }

  // --- The invariant -------------------------------------------------------------------------

  function LoBound(keys: seq<int>, i: nat, lo: int): int
    requires i <= |keys|
  {
    if i == 0 then lo else keys[i - 1]
  }

  function HiBound(keys: seq<int>, i: nat, hi: int): int
    requires i <= |keys|
  {
    if i == |keys| then hi else keys[i]
  }

  predicate KeysOk(keys: seq<int>, lo: int, hi: int) {
    && (forall i, j | 0 <= i < j < |keys| :: keys[i] < keys[j])
    && (forall i | 0 <= i < |keys| :: lo < keys[i] < hi)
  }

  /** Children of height `h` whose keys lie between the separators around them. */
  ghost predicate KidsOk(keys: seq<int>, kids: seq<Tree>, lo: int, hi: int, h: nat)
    decreases h, 1
  {
    && |kids| == |keys| + 1
    && KeysOk(keys, lo, hi)
    && forall i | 0 <= i < |kids| :: WF(kids[i], MIN_KEYS, LoBound(keys, i, lo), HiBound(keys, i, hi), h)
  }

  /**
   A well-formed tree: every leaf at depth `h`, all keys in [lo, hi), every node with at least `least`
   keys at the top and at least 15 elsewhere, none with more than 30.
   */
  ghost predicate WF(t: Tree, least: int, lo: int, hi: int, h: nat)
    decreases h, 0
  {
    match t
    case Leaf(_, es) => h == 0 && least <= |es| <= LEAF_ORDER && Sorted(es) && InRange(es, lo, hi)
    case Node(_, keys, kids) =>
      h > 0 && least <= |keys| <= INTERNAL_ORDER && KidsOk(keys, kids, lo, hi, h - 1)
  }

  /** The part of the shape the operations rely on to find children and siblings. */
  predicate Shape(t: Tree) {
    t.Node? ==>
      && |t.kids| == |t.keys| + 1
      && |t.keys| >= 1
      && (forall i | 0 <= i < |t.kids| :: t.kids[i].Leaf? == t.kids[0].Leaf? && Shape(t.kids[i]))
  }

  // --- Basic facts ---------------------------------------------------------------------------

  lemma {:induction false} LeavesOfAppend(a: seq<Tree>, b: seq<Tree>)
    ensures LeavesOf(a + b) == LeavesOf(a) + LeavesOf(b)
  {
    hide Leaves;
    if a == [] {
      assert a + b == b;
    } else {
      LeavesOfAppend(a[1..], b);
      assert (a + b)[0] == a[0] && (a + b)[1..] == a[1..] + b;
      assert LeavesOf(a + b) == Leaves(a[0]) + LeavesOf(a[1..] + b);
    }
  }

  lemma {:induction false} EntriesAppend(a: seq<Tree>, b: seq<Tree>)
    ensures Entries(a + b) == Entries(a) + Entries(b)
  {
    if a == [] {
      assert a + b == b;
    } else {
      EntriesAppend(a[1..], b);
      assert (a + b)[1..] == a[1..] + b;
    }
  }

  lemma FlatOfAppend(a: seq<Tree>, b: seq<Tree>)
    ensures FlatOf(a + b) == FlatOf(a) + FlatOf(b)
  {
    LeavesOfAppend(a, b);
    EntriesAppend(LeavesOf(a), LeavesOf(b));
  }

  lemma FlatOfOne(t: Tree)
    ensures LeavesOf([t]) == Leaves(t)
    ensures FlatOf([t]) == Flat(t)
  {
    assert [t][1..] == [];
    assert Leaves(t) + [] == Leaves(t);
  }

  lemma LeavesOfCons(c: Tree, rest: seq<Tree>)
    ensures LeavesOf([c] + rest) == Leaves(c) + LeavesOf(rest)
  {
    assert ([c] + rest)[1..] == rest;
  }

  lemma EntriesThree(x: seq<Tree>, y: seq<Tree>, z: seq<Tree>)
    ensures Entries(x + y + z) == Entries(x) + Entries(y) + Entries(z)
  {
    EntriesAppend(x + y, z);
    EntriesAppend(x, y);
  }

  lemma FlatLeaf(t: Tree)
    requires t.Leaf?
    ensures Flat(t) == t.es
  {
    assert [t][1..] == [];
    assert Entries([t]) == t.es + Entries([]);
  }

  lemma {:induction false} LeavesOfSplit(kids: seq<Tree>, d: nat)
    requires d < |kids|
    ensures LeavesOf(kids) == LeavesOf(kids[..d]) + Leaves(kids[d]) + LeavesOf(kids[d + 1..])
  {
    if d == 0 {
      assert LeavesOf(kids[..0]) == [];
    } else {
      LeavesOfSplit(kids[1..], d - 1);
      assert kids[1..][..d - 1] == kids[..d][1..];
      assert kids[1..][d..] == kids[d + 1..];
    }
  }

  /** Cuts a list of children around child `d`. */
  lemma FlatOfSplit(kids: seq<Tree>, d: nat)
    requires d < |kids|
    ensures FlatOf(kids) == FlatOf(kids[..d]) + Flat(kids[d]) + FlatOf(kids[d + 1..])
  {
    LeavesOfSplit(kids, d);
    EntriesThree(LeavesOf(kids[..d]), Leaves(kids[d]), LeavesOf(kids[d + 1..]));
  }

  lemma FlatReplace(kids: seq<Tree>, d: nat, c: Tree)
    requires d < |kids|
    ensures FlatOf(kids[d := c]) == FlatOf(kids[..d]) + Flat(c) + FlatOf(kids[d + 1..])
  {
    FlatOfSplit(kids[d := c], d);
    assert kids[d := c][..d] == kids[..d] && kids[d := c][d + 1..] == kids[d + 1..];
  }

  // --- Cutting and joining lists of children --------------------------------------------------

  lemma KidsSlice(keys: seq<int>, kids: seq<Tree>, lo: int, hi: int, h: nat, m: nat)
    requires KidsOk(keys, kids, lo, hi, h)
    requires m < |keys|
    ensures KidsOk(keys[..m], kids[..m + 1], lo, keys[m], h)
    ensures KidsOk(keys[m + 1..], kids[m + 1..], keys[m], hi, h)
  {
    var a, ka := keys[..m], kids[..m + 1];
    forall i | 0 <= i < |ka|
      ensures WF(ka[i], MIN_KEYS, LoBound(a, i, lo), HiBound(a, i, keys[m]), h)
    {
      assert WF(kids[i], MIN_KEYS, LoBound(keys, i, lo), HiBound(keys, i, hi), h);
    }
    var b, kb := keys[m + 1..], kids[m + 1..];
    forall i | 0 <= i < |kb|
      ensures WF(kb[i], MIN_KEYS, LoBound(b, i, keys[m]), HiBound(b, i, hi), h)
    {
      assert WF(kids[m + 1 + i], MIN_KEYS, LoBound(keys, m + 1 + i, lo), HiBound(keys, m + 1 + i, hi), h);
    }
  }

  lemma KidsJoin(a: seq<int>, ka: seq<Tree>, s: int, b: seq<int>, kb: seq<Tree>, lo: int, hi: int, h: nat)
    requires lo < s < hi
    requires KidsOk(a, ka, lo, s, h)
    requires KidsOk(b, kb, s, hi, h)
    ensures KidsOk(a + [s] + b, ka + kb, lo, hi, h)
  {
    var keys, kids := a + [s] + b, ka + kb;
    forall i | 0 <= i < |kids|
      ensures WF(kids[i], MIN_KEYS, LoBound(keys, i, lo), HiBound(keys, i, hi), h)
    {
      if i < |ka| {
        assert WF(ka[i], MIN_KEYS, LoBound(a, i, lo), HiBound(a, i, s), h);
      } else {
        var j := i - |ka|;
        assert WF(kb[j], MIN_KEYS, LoBound(b, j, s), HiBound(b, j, hi), h);
      }
    }
  }

  lemma KidsReplace(keys: seq<int>, kids: seq<Tree>, lo: int, hi: int, h: nat, d: nat, c: Tree)
    requires KidsOk(keys, kids, lo, hi, h)
    requires d < |kids|
    requires WF(c, MIN_KEYS, LoBound(keys, d, lo), HiBound(keys, d, hi), h)
    ensures KidsOk(keys, kids[d := c], lo, hi, h)
  {
    var kids' := kids[d := c];
    forall i | 0 <= i < |kids'|
      ensures WF(kids'[i], MIN_KEYS, LoBound(keys, i, lo), HiBound(keys, i, hi), h)
    {
      assert WF(kids[i], MIN_KEYS, LoBound(keys, i, lo), HiBound(keys, i, hi), h);
    }
  }

  lemma LeafSlice(es: seq<Entry>, lo: int, hi: int, m: nat)
    requires Sorted(es) && InRange(es, lo, hi) && m < |es|
    ensures Sorted(es[..m]) && InRange(es[..m], lo, es[m].key)
    ensures Sorted(es[m..]) && InRange(es[m..], es[m].key, hi)
  {
  }

  // --- Order of the whole tree ------------------------------------------------------------------

  lemma SortedJoin(a: seq<Entry>, b: seq<Entry>, lo: int, s: int, hi: int)
    requires Sorted(a) && InRange(a, lo, s)
    requires Sorted(b) && InRange(b, s, hi)
    requires lo <= s <= hi
    ensures Sorted(a + b) && InRange(a + b, lo, hi)
  {
  }

  /** The leaves of a well-formed tree hold one sorted run of entries, within the bounds. */
  lemma {:induction false} FlatSorted(t: Tree, least: int, lo: int, hi: int, h: nat)
    requires WF(t, least, lo, hi, h)
    requires lo < hi
    ensures Sorted(Flat(t)) && InRange(Flat(t), lo, hi)
    ensures least >= 1 ==> |Flat(t)| >= 1
    decreases h, 0
  {
    if t.Leaf? {
      FlatLeaf(t);
    } else {
      FlatOfSorted(t.keys, t.kids, lo, hi, h - 1);
    }
  }

  lemma {:induction false} FlatOfSorted(keys: seq<int>, kids: seq<Tree>, lo: int, hi: int, h: nat)
    requires KidsOk(keys, kids, lo, hi, h)
    requires lo < hi
    ensures Sorted(FlatOf(kids)) && InRange(FlatOf(kids), lo, hi)
    ensures |FlatOf(kids)| >= 1
    decreases h, 1, |kids|
  {
    assert WF(kids[0], MIN_KEYS, LoBound(keys, 0, lo), HiBound(keys, 0, hi), h);
    if |keys| == 0 {
      FlatSorted(kids[0], MIN_KEYS, lo, hi, h);
      assert kids == [kids[0]];
      FlatOfOne(kids[0]);
    } else {
      FlatSorted(kids[0], MIN_KEYS, lo, keys[0], h);
      KidsSlice(keys, kids, lo, hi, h, 0);
      FlatOfSorted(keys[1..], kids[1..], keys[0], hi, h);
      FlatOfSplit(kids, 0);
      assert FlatOf(kids[..0]) == [];
      SortedJoin(Flat(kids[0]), FlatOf(kids[1..]), lo, keys[0], hi);
      assert FlatOf(kids) == Flat(kids[0]) + FlatOf(kids[1..]);
    }
  }

  lemma {:induction false} ShapeOfWF(t: Tree, least: int, lo: int, hi: int, h: nat)
    requires WF(t, least, lo, hi, h)
    requires least >= 1 || t.Leaf?
    ensures Shape(t)
    decreases h
  {
    if t.Node? {
      forall i | 0 <= i < |t.kids|
        ensures t.kids[i].Leaf? == t.kids[0].Leaf? && Shape(t.kids[i])
      {
        assert WF(t.kids[0], MIN_KEYS, LoBound(t.keys, 0, lo), HiBound(t.keys, 0, hi), h - 1);
        assert WF(t.kids[i], MIN_KEYS, LoBound(t.keys, i, lo), HiBound(t.keys, i, hi), h - 1);
        ShapeOfWF(t.kids[i], MIN_KEYS, LoBound(t.keys, i, lo), HiBound(t.keys, i, hi), h - 1);
      }
    }
  }

  /** What a search for `k` leaves behind on either side of the child it goes to. */
  lemma RangesAround(keys: seq<int>, kids: seq<Tree>, lo: int, hi: int, h: nat, m: nat)
    requires KidsOk(keys, kids, lo, hi, h) && m < |keys|
    ensures InRange(FlatOf(kids[..m + 1]), lo, keys[m]) && InRange(FlatOf(kids[m + 1..]), keys[m], hi)
  {
    hide WF, FlatOf, InRange;
    KidsSlice(keys, kids, lo, hi, h, m);
    assert lo < keys[m] < hi;
    FlatOfSorted(keys[..m], kids[..m + 1], lo, keys[m], h);
    FlatOfSorted(keys[m + 1..], kids[m + 1..], keys[m], hi, h);
  }

  lemma WiderRange(es: seq<Entry>, lo: int, hi: int, lo': int, hi': int)
    requires InRange(es, lo, hi) && lo' <= lo && hi <= hi'
    ensures InRange(es, lo', hi')
  {
  }

  lemma Sandwich(keys: seq<int>, kids: seq<Tree>, lo: int, hi: int, h: nat, k: int)
    requires KidsOk(keys, kids, lo, hi, h)
    requires lo <= k < hi
    ensures var d := Descend(keys, k);
            && LoBound(keys, d, lo) <= k < HiBound(keys, d, hi)
            && FlatOf(kids) == FlatOf(kids[..d]) + Flat(kids[d]) + FlatOf(kids[d + 1..])
            && InRange(FlatOf(kids[..d]), lo, k)
            && InRange(FlatOf(kids[d + 1..]), k + 1, hi)
  {
    hide WF, Flat, FlatOf, InRange;
    var d := Descend(keys, k);
    FlatOfSplit(kids, d);
    if d > 0 {
      RangesAround(keys, kids, lo, hi, h, d - 1);
      WiderRange(FlatOf(kids[..d]), lo, keys[d - 1], lo, k);
    } else {
      NothingInRange(kids[..0], lo, k);
    }
    if d < |keys| {
      RangesAround(keys, kids, lo, hi, h, d);
      WiderRange(FlatOf(kids[d + 1..]), keys[d], hi, k + 1, hi);
    } else {
      NothingInRange(kids[d + 1..], k + 1, hi);
    }
  }

  lemma NothingInRange(kids: seq<Tree>, lo: int, hi: int)
    requires kids == []
    ensures InRange(FlatOf(kids), lo, hi)
  {
  }

  lemma AtOrAfter(es: seq<Entry>, k: int, p: nat)
    requires Sorted(es) && LeafPos(es, k) <= p < |es|
    ensures es[p].key >= k
  {
  }

  /** An edit of a sorted run happens where the key belongs. */
  lemma LeafPosBetween(a: seq<Entry>, m: seq<Entry>, b: seq<Entry>, k: int)
    requires forall i | 0 <= i < |a| :: a[i].key < k
    requires forall i | 0 <= i < |b| :: b[i].key > k
    requires Sorted(m)
    ensures LeafPos(a + m + b, k) == |a| + LeafPos(m, k)
    ensures HasKey(a + m + b, k) <==> HasKey(m, k)
  {
    var s := a + m + b;
    var p, q := LeafPos(s, k), |a| + LeafPos(m, k);
    assert forall j | 0 <= j < |m| :: s[|a| + j] == m[j];
    assert forall j | 0 <= j < |b| :: s[|a| + |m| + j] == b[j];
    assert p >= q;
    assert p <= q by {
      if q < |a| + |m| { assert s[q] == m[q - |a|]; } else if |b| > 0 { assert s[q] == b[0]; }
    }
    if HasKey(m, k) {
      var i :| 0 <= i < |m| && m[i].key == k;
      assert s[|a| + i].key == k;
    }
  }

  lemma InsertSorted(es: seq<Entry>, e: Entry, lo: int, hi: int)
    requires Sorted(es) && InRange(es, lo, hi)
    requires !HasKey(es, e.key) && lo <= e.key < hi
    ensures Sorted(SortedInsert(es, e)) && InRange(SortedInsert(es, e), lo, hi)
  {
    var p := LeafPos(es, e.key);
    assert p < |es| ==> es[p].key != e.key;
  }

  lemma InsertBetween(a: seq<Entry>, m: seq<Entry>, b: seq<Entry>, e: Entry)
    requires forall i | 0 <= i < |a| :: a[i].key < e.key
    requires forall i | 0 <= i < |b| :: b[i].key > e.key
    requires Sorted(m)
    ensures SortedInsert(a + m + b, e) == a + SortedInsert(m, e) + b
  {
    LeafPosBetween(a, m, b, e.key);
  }

  lemma RemoveBetween(a: seq<Entry>, m: seq<Entry>, b: seq<Entry>, k: int)
    requires forall i | 0 <= i < |a| :: a[i].key < k
    requires forall i | 0 <= i < |b| :: b[i].key > k
    requires Sorted(m)
    ensures SortedRemove(a + m + b, k) == a + SortedRemove(m, k) + b
  {
    LeafPosBetween(a, m, b, k);
    var s, p, q := a + m + b, LeafPos(a + m + b, k), LeafPos(m, k);
    if q < |m| {
      assert s[p] == m[q];
      if m[q].key == k {
        assert RemoveAt(s, p) == a + RemoveAt(m, q) + b;
      }
    } else if |b| > 0 {
      assert s[p] == b[0];
    }
  }
}
