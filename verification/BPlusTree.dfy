/**
 The paged B+ tree as the code runs it: pages updated slot by slot in place, recursive insertion and
 deletion, and queries that walk the chain of leaves.
 */
module BPlusTrees {
  import opened Options
  import opened Slots
  import opened BPlusTreeModel
  import opened BPlusTreeInsert
  import opened BPlusTreeDelete
  import opened BPlusTreeFault
  import opened BPlusTreeChain
  import opened BPlusTreePages

  /** What an insertion hands to the level above: the separator and the page of the new right node. */
  datatype Promoted = Promoted(key: int, pageId: int)

  /** `PageOverrun` marks the point where the code would write past the end of a page. */
  datatype Status = NotFound | Deleted | PageOverrun

  /** The bound of all keys. */
  ghost function Limit(): int {
    KeySpace(KEY_SIZE)
  }

  /** A sorted run of entries as the map it stands for. */
  ghost function MapOf(es: seq<Entry>): map<int, Location>
    requires Sorted(es)
  {
    map i | 0 <= i < |es| :: es[i].key := es[i].loc
  }

  lemma MapOfHasKey(es: seq<Entry>, k: int)
    requires Sorted(es)
    ensures k in MapOf(es) <==> HasKey(es, k)
    ensures k in MapOf(es) ==> var p := LeafPos(es, k); p < |es| && es[p].key == k && MapOf(es)[k] == es[p].loc
  {
    hide LeafPos;
    if k in MapOf(es) {
      var i :| 0 <= i < |es| && es[i].key == k;
      LeafPosUnique(es, k, i);
    }
  }

  /** `found` are the values of the map under the keys inside an interval, in the order of the keys. */
  ghost predicate ListsInside(found: seq<Location>, m: map<int, Location>, start: int, end: int, so: bool, eo: bool) {
    exists keys: seq<int> :: ListedBy(found, keys, m, start, end, so, eo)
  }

  ghost predicate ListedBy(found: seq<Location>, keys: seq<int>, m: map<int, Location>,
                           start: int, end: int, so: bool, eo: bool) {
    && |keys| == |found|
    && (forall i, j | 0 <= i < j < |keys| :: keys[i] < keys[j])
    && (forall i | 0 <= i < |keys| :: keys[i] in m && Inside(keys[i], start, end, so, eo) && found[i] == m[keys[i]])
    && forall k | k in m && Inside(k, start, end, so, eo) :: k in keys
  }

  function Locations(es: seq<Entry>): (r: seq<Location>)
    ensures |r| == |es| && forall i | 0 <= i < |r| :: r[i] == es[i].loc
  {
    if es == [] then [] else [es[0].loc] + Locations(es[1..])
  }

  function KeysOf(es: seq<Entry>): (r: seq<int>)
    ensures |r| == |es| && forall i | 0 <= i < |r| :: r[i] == es[i].key
  {
    seq(|es|, i requires 0 <= i < |es| => es[i].key)
  }

  lemma Between(es: seq<Entry>, p: nat, a: nat, start: int, end: int, so: bool, eo: bool)
    requires Sorted(es) && p < a < |es|
    requires Inside(es[p].key, start, end, so, eo) && Inside(es[a].key, start, end, so, eo)
    ensures Inside(es[p + 1].key, start, end, so, eo)
  {
  }

  /** The entries selected are those of a run of places. */
  lemma {:induction false} SelectRun(es: seq<Entry>, p: nat, start: int, end: int, so: bool, eo: bool) returns (a: nat, b: nat)
    requires Sorted(es) && p <= |es|
    ensures p <= a <= b <= |es|
    ensures forall j | p <= j < |es| :: Inside(es[j].key, start, end, so, eo) <==> a <= j < b
    ensures Select(es, p, start, end, so, eo) == Locations(es[a..b])
    decreases |es| - p
  {
    if p == |es| {
      a, b := p, p;
    } else {
      a, b := SelectRun(es, p + 1, start, end, so, eo);
      hide Inside, Sorted;
      if Inside(es[p].key, start, end, so, eo) {
        if a == b {
          a, b := p, p + 1;
        } else {
          Between(es, p, a, start, end, so, eo);
          assert es[p..b][1..] == es[p + 1..b];
          a := p;
        }
      }
    }
  }

  lemma RunAt(es: seq<Entry>, a: nat, b: nat, i: nat)
    requires Sorted(es) && a <= b <= |es| && i < b - a
    ensures es[a..b][i] == es[a + i]
    ensures es[a..b][i].key in MapOf(es) && MapOf(es)[es[a..b][i].key] == es[a..b][i].loc
  {
    MapOfAt(es, a + i);
  }

  lemma RunHas(es: seq<Entry>, a: nat, b: nat, k: int, start: int, end: int, so: bool, eo: bool)
    requires Sorted(es) && a <= b <= |es|
    requires forall j | 0 <= j < |es| :: Inside(es[j].key, start, end, so, eo) <==> a <= j < b
    requires k in MapOf(es) && Inside(k, start, end, so, eo)
    ensures k in KeysOf(es[a..b])
  {
    hide Inside;
    MapOfHasKey(es, k);
    hide MapOf, Sorted;
    var j := LeafPos(es, k);
    assert KeysOf(es[a..b])[j - a] == es[a..b][j - a].key == k;
  }

  /** The entries of a run, if they are all those in the interval, list the interval. */
  lemma RunLists(es: seq<Entry>, a: nat, b: nat, start: int, end: int, so: bool, eo: bool)
    requires Sorted(es) && a <= b <= |es|
    requires forall j | 0 <= j < |es| :: Inside(es[j].key, start, end, so, eo) <==> a <= j < b
    ensures ListedBy(Locations(es[a..b]), KeysOf(es[a..b]), MapOf(es), start, end, so, eo)
  {
    hide Inside, MapOf;
    var run, keys, m := es[a..b], KeysOf(es[a..b]), MapOf(es);
    assert Sorted(run);
    forall i | 0 <= i < |run| ensures keys[i] in m && Inside(keys[i], start, end, so, eo) && run[i].loc == m[keys[i]] {
      RunAt(es, a, b, i);
    }
    forall k | k in m && Inside(k, start, end, so, eo) ensures k in keys {
      RunHas(es, a, b, k, start, end, so, eo);
    }
  }

  /** What the loops of a range query add up to, said of the index as a map. */
  lemma SelectLists(es: seq<Entry>, start: int, end: int, so: bool, eo: bool)
    requires Sorted(es)
    ensures ListsInside(Select(es, 0, start, end, so, eo), MapOf(es), start, end, so, eo)
  {
    hide Select, MapOf, ListedBy;
    var a, b := SelectRun(es, 0, start, end, so, eo);
    RunLists(es, a, b, start, end, so, eo);
  }

  lemma MapOfAt(es: seq<Entry>, i: nat)
    requires Sorted(es) && i < |es|
    ensures es[i].key in MapOf(es) && MapOf(es)[es[i].key] == es[i].loc
  {
  }

  /** A map that agrees with a run of entries, entry by entry and key by key, is its map. */
  lemma MapOfIs(es: seq<Entry>, m: map<int, Location>)
    requires Sorted(es)
    requires forall i | 0 <= i < |es| :: es[i].key in m && m[es[i].key] == es[i].loc
    requires forall k | k in m :: HasKey(es, k)
    ensures MapOf(es) == m
  {
    forall k | k in m
      ensures k in MapOf(es) && MapOf(es)[k] == m[k]
    {
      var i :| 0 <= i < |es| && es[i].key == k;
      MapOfAt(es, i);
    }
  }

  lemma MapOfInsert(es: seq<Entry>, e: Entry)
    requires Sorted(es) && !HasKey(es, e.key) && Sorted(SortedInsert(es, e))
    ensures MapOf(SortedInsert(es, e)) == MapOf(es)[e.key := e.loc]
  {
    hide MapOf, Sorted, SortedInsert;
    var s, m := SortedInsert(es, e), MapOf(es)[e.key := e.loc];
    forall i | 0 <= i < |s| ensures s[i].key in m && m[s[i].key] == s[i].loc {
      var j := FromInsert(es, e, i);
      if s[i] != e { MapOfAt(es, j); }
    }
    forall k | k in m ensures HasKey(s, k) {
      if k != e.key { MapOfHasKey(es, k); }
      KeptByInsert(es, e, k);
    }
    MapOfIs(s, m);
  }

  lemma FromInsert(es: seq<Entry>, e: Entry, i: nat) returns (j: nat)
    requires i < |SortedInsert(es, e)| && !HasKey(es, e.key)
    ensures SortedInsert(es, e)[i] == e || (j < |es| && es[j] == SortedInsert(es, e)[i] && es[j].key != e.key)
  {
    j := if i < LeafPos(es, e.key) || i == 0 then i else i - 1;
  }

  lemma KeptByInsert(es: seq<Entry>, e: Entry, k: int)
    requires k == e.key || HasKey(es, k)
    ensures HasKey(SortedInsert(es, e), k)
  {
    var p, s := LeafPos(es, e.key), SortedInsert(es, e);
    if k == e.key {
      assert s[p].key == k;
    } else {
      var i :| 0 <= i < |es| && es[i].key == k;
      assert s[if i < p then i else i + 1].key == k;
    }
  }

  lemma RemoveSorted(es: seq<Entry>, k: int)
    requires Sorted(es)
    ensures Sorted(SortedRemove(es, k)) && !HasKey(SortedRemove(es, k), k)
  {
  }

  lemma MapOfRemove(es: seq<Entry>, k: int)
    requires Sorted(es) && Sorted(SortedRemove(es, k)) && !HasKey(SortedRemove(es, k), k)
    ensures MapOf(SortedRemove(es, k)) == MapOf(es) - {k}
  {
    hide SortedRemove, MapOf, Sorted;
    var s, m := SortedRemove(es, k), MapOf(es) - {k};
    forall i | 0 <= i < |s| ensures s[i].key in m && m[s[i].key] == s[i].loc {
      assert s[i].key != k;
      var j := FromBefore(es, k, i);
      MapOfAt(es, j);
    }
    forall x | x in m ensures HasKey(s, x) {
      MapOfHasKey(es, x);
      var i :| 0 <= i < |es| && es[i].key == x;
      KeptByRemove(es, k, i);
    }
    MapOfIs(s, m);
  }

  lemma FromBefore(es: seq<Entry>, k: int, i: nat) returns (j: nat)
    requires i < |SortedRemove(es, k)|
    ensures j < |es| && es[j] == SortedRemove(es, k)[i]
  {
    j := if |SortedRemove(es, k)| < |es| && i >= LeafPos(es, k) then i + 1 else i;
  }

  lemma KeptByRemove(es: seq<Entry>, k: int, i: nat)
    requires i < |es| && es[i].key != k
    ensures HasKey(SortedRemove(es, k), es[i].key)
  {
    var p, s := LeafPos(es, k), SortedRemove(es, k);
    assert s[if |s| < |es| && i > p then i - 1 else i] == es[i];
  }

  function KeyAt(b: Body, i: nat): int
    requires if b.LeafBody? then i < |b.slots| else i < |b.keys|
  {
    if b.LeafBody? then b.slots[i].key else b.keys[i]
  }

  /** Slots up to the count exist, and their keys ascend. */
  ghost predicate Searchable(b: Body) {
    && (if b.LeafBody? then b.count <= |b.slots| else b.count <= |b.keys|)
    && forall i, j | 0 <= i < j < b.count :: KeyAt(b, i) < KeyAt(b, j)
  }

  ghost predicate OutcomeHeld(ps: seq<Page>, o: Outcome) {
    if o.Fits? then Holds(ps, o.t) else Holds(ps, o.left) && Holds(ps, o.right)
  }

  /** What the level above is told says what happened below. */
  ghost predicate Reports(r: Option<Promoted>, o: Outcome) {
    if o.Fits? then r.None? else r == Some(Promoted(o.key, o.right.id))
  }

  ghost predicate KidsHeld(ps: seq<Page>, kids: seq<Tree>, d: nat) {
    forall i | 0 <= i < |kids| && i != d :: Holds(ps, kids[i])
  }

  lemma Regroup<T>(a: seq<T>, b: seq<T>, c: seq<T>)
    ensures a + (b + c) == a + b + c
    ensures a + b + [] == a + b
  {
  }

  lemma InternalSlots(b: Body, t: Tree)
    requires HoldsNode(b, t) && t.Node?
    ensures b.InternalBody? && |b.keys| == INTERNAL_ORDER && |b.children| == INTERNAL_ORDER + 1 && |t.kids| == |t.keys| + 1
  {
  }

  lemma MakeNodeSplits(id: int, keys: seq<int>, kids: seq<Tree>, q: int)
    requires |keys| == INTERNAL_ORDER + 1 && |kids| == |keys| + 1
    ensures MakeNode(id, keys, kids, q)
         == Split(Node(id, keys[..15], kids[..16]), keys[15], Node(q, keys[16..], kids[16..]), q + 1)
  {
  }

  /** A node whose page is unchanged, over a child that was rewritten in its own page. */
  lemma WithKidHeld(ps: seq<Page>, t: Tree, d: nat, c: Tree)
    requires 0 <= t.id < |ps| && t.Node? && HoldsNode(ps[t.id].body, t)
    requires d < |t.kids| && c.id == t.kids[d].id && Holds(ps, c) && KidsHeld(ps, t.kids, d)
    ensures Holds(ps, Node(t.id, t.keys, t.kids[d := c]))
  {
    var t' := Node(t.id, t.keys, t.kids[d := c]);
    assert forall i | 0 <= i < |t.kids| :: Holds(ps, t'.kids[i]);
  }

  lemma KidsHeldExcept(ps: seq<Page>, ps': seq<Page>, kids: seq<Tree>, p: int)
    requires |ps| <= |ps'|
    requires forall q | 0 <= q < |ps| && q != p :: ps'[q].body == ps[q].body
    requires forall i | 0 <= i < |kids| :: Holds(ps, kids[i]) && Uses(kids[i], p) == 0
    ensures forall i | 0 <= i < |kids| :: Holds(ps', kids[i])
  {
    forall i | 0 <= i < |kids| ensures Holds(ps', kids[i]) {
      HoldsExcept(ps, ps', kids[i], p);
    }
  }

  // --- Sorting, for which the code calls its standard library ------------------------------------

  predicate Ascending(es: seq<Entry>) {
    forall i, j | 0 <= i < j < |es| :: es[i].key <= es[j].key
  }

  method SortByKey(es: seq<Entry>) returns (r: seq<Entry>)
    ensures Ascending(r) && multiset(r) == multiset(es)
  {
    r := [];
    for i := 0 to |es|
      invariant Ascending(r) && multiset(r) == multiset(es[..i])
    {
      assert es[..i + 1] == es[..i] + [es[i]];
      var p := LeafPos(r, es[i].key);
      assert r == r[..p] + r[p..];
      r := InsertAt(r, p, es[i]);
    }
    assert es[..|es|] == es;
  }

  lemma SameFirst(s: seq<Entry>, w: seq<Entry>)
    requires Ascending(s) && Sorted(w) && multiset(s) == multiset(w) && s != [] && w != []
    ensures s[0] == w[0]
  {
    assert s[0] in multiset(w) && w[0] in multiset(s);
    var i :| 0 <= i < |w| && w[i] == s[0];
    var j :| 0 <= j < |s| && s[j] == w[0];
    assert s[0].key <= s[j].key && w[0].key <= w[i].key;
    assert forall m | 0 <= m < |w| && w[m].key == w[0].key :: m == 0;
  }

  /** Distinct keys leave sorting only one result. */
  lemma {:induction false} SortedUnique(s: seq<Entry>, w: seq<Entry>)
    requires Ascending(s) && Sorted(w) && multiset(s) == multiset(w)
    ensures s == w
  {
    assert |multiset(s)| == |multiset(w)|;
    if s != [] {
      SameFirst(s, w);
      assert s == [s[0]] + s[1..] && w == [w[0]] + w[1..];
      assert multiset(s[1..]) == multiset(s) - multiset{s[0]};
      assert multiset(w[1..]) == multiset(w) - multiset{w[0]};
      SortedUnique(s[1..], w[1..]);
    }
  }

  lemma SortedInsertSorted(es: seq<Entry>, e: Entry)
    requires Sorted(es) && !HasKey(es, e.key)
    ensures Sorted(SortedInsert(es, e))
  {
    var p := LeafPos(es, e.key);
    assert p < |es| ==> es[p].key != e.key;
  }

  lemma SortedTotal(es: seq<Entry>, e: Entry, s: seq<Entry>)
    requires Sorted(es) && !HasKey(es, e.key)
    requires Ascending(s) && multiset(s) == multiset(es + [e])
    ensures s == SortedInsert(es, e)
  {
    hide Sorted, HasKey, Ascending;
    var p, w := LeafPos(es, e.key), SortedInsert(es, e);
    SortedInsertSorted(es, e);
    assert es == es[..p] + es[p..];
    assert multiset(w) == multiset(es + [e]);
    SortedUnique(s, w);
  }

  function ZeroPage(): Page {
    Page(InternalBody(0, seq(INTERNAL_ORDER, _ => 0), seq(INTERNAL_ORDER + 1, _ => 0)), 0, 0)
  }

  /** The old root and its new sibling under a new root of their own. */
  lemma GrowRoot(l: Tree, k: int, r: Tree, lo: int, hi: int, h: nat, id: int)
    requires lo < k < hi && WF(l, MIN_KEYS, lo, k, h) && WF(r, MIN_KEYS, k, hi, h)
    ensures RootWF(Node(id, [k], [l, r]), lo, hi, h + 1)
    ensures Leaves(Node(id, [k], [l, r])) == Leaves(l) + Leaves(r)
  {
    assert KidsOk([], [l], lo, k, h);
    assert KidsOk([], [r], k, hi, h);
    KidsJoin([], [l], k, [], [r], lo, hi, h);
    assert [] + [k] + [] == [k] && [l] + [r] == [l, r];
    LeavesOfCons(l, [r]);
    FlatOfOne(r);
    assert [l, r] == [l] + [r];
  }

  /** Insertion as a whole adds exactly the new entry and keeps the tree whole. */
  lemma InsertCorrect(t: Tree, lo: int, hi: int, h: nat, e: Entry, next: int)
    requires RootWF(t, lo, hi, h) && Shape(t)
    requires lo <= e.key < hi && !HasKey(Flat(t), e.key)
    ensures var t' := Insert(t, e, next).0;
            && (RootWF(t', lo, hi, h) || RootWF(t', lo, hi, h + 1))
            && Flat(t') == SortedInsert(Flat(t), e)
            && Replaced(Leaves(t), LeafIndex(t, e.key), LeafParts(LeafFor(t, e.key), e, next), Leaves(t'))
  {
    var least := if t.Leaf? then 0 else 1;
    InsertRecCorrect(t, least, lo, hi, h, e, next);
    InsertRecLeaves(t, least, lo, hi, h, e, next);
    var r := BPlusTreeInsert.InsertRec(t, e, next);
    if r.Split? {
      GrowRoot(r.left, r.key, r.right, lo, hi, h, r.next);
    } else {
      KindKept(t, e, next);
    }
  }

  lemma KindKept(t: Tree, e: Entry, next: int)
    requires Shape(t)
    ensures var r := BPlusTreeInsert.InsertRec(t, e, next); r.Fits? ==> r.t.Leaf? == t.Leaf?
  {
  }

  lemma InsertNoSharing(t: Tree, e: Entry, pages: seq<Page>)
    requires Shape(t) && NoSharing(t) && Holds(pages, t)
    ensures NoSharing(Insert(t, e, |pages|).0)
  {
    var t' := Insert(t, e, |pages|).0;
    var r := BPlusTreeInsert.InsertRec(t, e, |pages|);
    forall x ensures Uses(t', x) <= 1 {
      InsertRecIds(t, e, |pages|, x);
      if Uses(t, x) > 0 {
        HeldIdsExist(pages, t, x);
      }
      if r.Split? {
        UsesOfCons(r.left, [r.right], x);
        UsesOfCons(r.right, [], x);
        assert [r.left, r.right] == [r.left] + [r.right];
        InsertRecRootId(t, e, |pages|);
      }
    }
  }

  /** The pages reachable from `root` are the tree `t`, well formed, with its leaves chained. */
  ghost predicate Represents(ps: seq<Page>, root: int, t: Tree, h: nat) {
    && root == t.id
    && Holds(ps, t) && NoSharing(t) && Shape(t)
    && RootWF(t, 0, Limit(), h)
    && Chain(ps, Leaves(t))
  }

  lemma RepresentsSorted(ps: seq<Page>, root: int, t: Tree, h: nat)
    requires Represents(ps, root, t, h)
    ensures Shape(t) && Sorted(Flat(t)) && InRange(Flat(t), 0, Limit())
  {
    FlatSorted(t, if t.Leaf? then 0 else 1, 0, Limit(), h);
  }

  lemma InsertRepresents(ps: seq<Page>, ps': seq<Page>, root: int, t: Tree, h: nat, e: Entry) returns (h': nat)
    requires Represents(ps, root, t, h)
    requires 0 <= e.key < Limit() && !HasKey(Flat(t), e.key)
    requires Holds(ps', Insert(t, e, |ps|).0)
    requires if |LeafFor(t, e.key).es| < LEAF_ORDER then SameLinks(ps, ps')
             else LinkedIn(ps, ps', LeafFor(t, e.key).id, |ps|)
    ensures var t' := Insert(t, e, |ps|).0;
            Represents(ps', t'.id, t', h') && Flat(t') == SortedInsert(Flat(t), e)
  {
    var t' := Insert(t, e, |ps|).0;
    InsertCorrect(t, 0, Limit(), h, e, |ps|);
    InsertNoSharing(t, e, ps);
    h' := if RootWF(t', 0, Limit(), h) then h else h + 1;
    ShapeOfWF(t', if t'.Leaf? then 0 else 1, 0, Limit(), h');
    ChainAfterInsert(ps, ps', t, e);
  }

  class BPlusTree {
    var pages: seq<Page>
    var rootPageId: int
    // Bytes 10 to 13 of the header page, from which the root is found when the file is opened again.
    var storedRoot: int
    ghost var tree: Tree
    ghost var height: nat

    ghost predicate Valid()
      reads this
    {
      storedRoot == rootPageId && Represents(pages, rootPageId, tree, height)
    }

    /** The index as a map from keys to row locations. */
    ghost function Contents(): map<int, Location>
      requires Valid()
      reads this
    {
      RepresentsSorted(pages, rootPageId, tree, height);
      MapOf(Flat(tree))
    }

    /** A new file: a header page, and an empty leaf as root. */
    constructor ()
      ensures Valid() && Contents() == map[]
    {
      pages := [ZeroPage()];
      rootPageId, storedRoot := 0, 0;
      tree, height := Leaf(0, []), 0;
      new;
      var rootId := AllocatePage();
      CreateLeaf(rootId);
      rootPageId := rootId;
      storedRoot := rootPageId;
      tree := Leaf(rootId, []);
      FlatLeaf(tree);
      assert Linked(pages, Leaves(tree), 0);
    }

    /** An existing file, flushed by `other`. */
    constructor Open(other: BPlusTree)
      requires other.Valid()
      ensures Valid() && Contents() == other.Contents()
    {
      pages := other.pages;
      storedRoot := other.storedRoot;
      rootPageId := other.storedRoot;
      tree, height := other.tree, other.height;
    }

    // --- One page at a time ------------------------------------------------------------------

    method SetEntry(p: int, i: nat, e: Entry)
      requires 0 <= p < |pages| && pages[p].body.LeafBody? && i < |pages[p].body.slots|
      modifies this`pages
      ensures pages == old(pages[p := pages[p].(body := pages[p].body.(slots := pages[p].body.slots[i := e]))])
    {
      pages := pages[p := pages[p].(body := pages[p].body.(slots := pages[p].body.slots[i := e]))];
    }

    method SetKey(p: int, i: nat, k: int)
      requires 0 <= p < |pages| && pages[p].body.InternalBody? && i < |pages[p].body.keys|
      modifies this`pages
      ensures pages == old(pages[p := pages[p].(body := pages[p].body.(keys := pages[p].body.keys[i := k]))])
    {
      pages := pages[p := pages[p].(body := pages[p].body.(keys := pages[p].body.keys[i := k]))];
    }

    method SetChild(p: int, i: nat, c: int)
      requires 0 <= p < |pages| && pages[p].body.InternalBody? && i < |pages[p].body.children|
      modifies this`pages
      ensures pages == old(pages[p := pages[p].(body := pages[p].body.(children := pages[p].body.children[i := c]))])
    {
      pages := pages[p := pages[p].(body := pages[p].body.(children := pages[p].body.children[i := c]))];
    }

    method SetCount(p: int, n: nat)
      requires 0 <= p < |pages|
      modifies this`pages
      ensures pages == old(pages[p := pages[p].(body := pages[p].body.(count := n))])
    {
      pages := pages[p := pages[p].(body := pages[p].body.(count := n))];
    }

    /** Lower bound by binary search. */
    method FindKeyIndex(p: int, k: int) returns (ans: nat)
      requires 0 <= p < |pages| && Searchable(pages[p].body)
      ensures ans <= pages[p].body.count
      ensures forall i | 0 <= i < ans :: KeyAt(pages[p].body, i) < k
      ensures ans < pages[p].body.count ==> KeyAt(pages[p].body, ans) >= k
    {
      var b := pages[p].body;
      var l, r := 0, b.count - 1;
      ans := b.count;
      while l <= r
        invariant 0 <= l <= ans <= b.count && r == ans - 1
        invariant forall i | 0 <= i < l :: KeyAt(b, i) < k
        invariant ans < b.count ==> KeyAt(b, ans) >= k
        decreases r - l + 1
      {
        var mid := (l + r) / 2;
        if KeyAt(b, mid) >= k {
          ans, r := mid, mid - 1;
        } else {
          l := mid + 1;
        }
      }
    }

    /** Finds the position in a leaf whose entries are `es`. */
    method FindInLeaf(p: int, k: int, ghost es: seq<Entry>) returns (idx: nat)
      requires 0 <= p < |pages| && HoldsNode(pages[p].body, Leaf(p, es)) && Sorted(es)
      ensures idx == LeafPos(es, k)
    {
      ghost var b := pages[p].body;
      assert forall i | 0 <= i < |es| :: KeyAt(b, i) == b.slots[..b.count][i].key == es[i].key;
      idx := FindKeyIndex(p, k);
      LeafPosUnique(es, k, idx);
    }

    /** Finds the position among the separators of an internal node. */
    method FindInNode(p: int, k: int, ghost t: Tree) returns (idx: nat)
      requires 0 <= p < |pages| && t.Node? && HoldsNode(pages[p].body, t)
      requires forall i, j | 0 <= i < j < |t.keys| :: t.keys[i] < t.keys[j]
      ensures idx == LowerBound(t.keys, k)
    {
      ghost var b := pages[p].body;
      assert forall i | 0 <= i < |t.keys| :: KeyAt(b, i) == b.keys[..b.count][i] == t.keys[i];
      idx := FindKeyIndex(p, k);
      LowerBoundUnique(t.keys, k, idx);
    }

    // --- Leaves --------------------------------------------------------------------------------

    /** Opens slot `idx` by moving it and all slots behind it one place to the right. */
    method ShiftEntriesRight(p: int, idx: nat)
      requires 0 <= p < |pages| && pages[p].body.LeafBody?
      requires idx <= pages[p].body.count < |pages[p].body.slots|
      modifies this`pages
      ensures BodiesOnly(old(pages), pages, {p})
      ensures var b, b' := old(pages[p].body), pages[p].body;
              && b'.LeafBody? && b'.count == b.count && |b'.slots| == |b.slots|
              && (forall j | 0 <= j <= idx && j < |b.slots| :: b'.slots[j] == b.slots[j])
              && (forall j | idx < j <= b.count :: b'.slots[j] == b.slots[j - 1])
    {
      ghost var s := pages[p].body.slots;
      var pos: int := pages[p].body.count - 1;
      while pos >= idx
        invariant idx - 1 <= pos < old(pages[p].body.count)
        invariant BodiesOnly(old(pages), pages, {p})
        invariant var b := pages[p].body;
                  && b.LeafBody? && b.count == old(pages[p].body.count) && |b.slots| == |s|
                  && (forall j | 0 <= j <= pos + 1 :: b.slots[j] == s[j])
                  && (forall j | pos + 1 < j <= b.count :: b.slots[j] == s[j - 1])
      {
        SetEntry(p, pos + 1, pages[p].body.slots[pos]);
        pos := pos - 1;
      }
    }

    /** Closes slot `idx` by moving all slots behind it one place to the left. */
    method ShiftEntriesLeft(p: int, idx: nat)
      requires 0 <= p < |pages| && pages[p].body.LeafBody?
      requires idx < pages[p].body.count <= |pages[p].body.slots|
      modifies this`pages
      ensures BodiesOnly(old(pages), pages, {p})
      ensures var b, b' := old(pages[p].body), pages[p].body;
              && b'.LeafBody? && b'.count == b.count && |b'.slots| == |b.slots|
              && (forall j | 0 <= j < idx :: b'.slots[j] == b.slots[j])
              && (forall j | idx <= j < b.count - 1 :: b'.slots[j] == b.slots[j + 1])
    {
      ghost var s := pages[p].body.slots;
      var pos := idx;
      while pos < pages[p].body.count - 1
        invariant idx <= pos <= old(pages[p].body.count) - 1
        invariant BodiesOnly(old(pages), pages, {p})
        invariant var b := pages[p].body;
                  && b.LeafBody? && b.count == old(pages[p].body.count) && |b.slots| == |s|
                  && (forall j | 0 <= j < idx || pos <= j < |s| :: b.slots[j] == s[j])
                  && (forall j | idx <= j < pos :: b.slots[j] == s[j + 1])
      {
        SetEntry(p, pos, pages[p].body.slots[pos + 1]);
        pos := pos + 1;
      }
    }

    method InsertIntoLeaf(p: int, e: Entry, ghost es: seq<Entry>)
      requires 0 <= p < |pages| && HoldsNode(pages[p].body, Leaf(p, es))
      requires Sorted(es) && |es| < LEAF_ORDER
      modifies this`pages
      ensures BodiesOnly(old(pages), pages, {p})
      ensures HoldsNode(pages[p].body, Leaf(p, SortedInsert(es, e)))
    {
      var idx := FindInLeaf(p, e.key, es);
      ShiftEntriesRight(p, idx);
      SetEntry(p, idx, e);
      ShiftedRight(old(pages[p].body.slots), pages[p].body.slots, |es|, idx, e);
      SetCount(p, pages[p].body.count + 1);
    }

    method DeleteFromLeaf(p: int, k: int, ghost es: seq<Entry>) returns (deleted: bool)
      requires 0 <= p < |pages| && HoldsNode(pages[p].body, Leaf(p, es))
      requires Sorted(es)
      modifies this`pages
      ensures BodiesOnly(old(pages), pages, {p})
      ensures HoldsNode(pages[p].body, Leaf(p, SortedRemove(es, k)))
      ensures deleted <==> var i := LeafPos(es, k); i < |es| && es[i].key == k
      ensures !deleted ==> pages == old(pages)
    {
      var idx := FindInLeaf(p, k, es);
      if idx >= pages[p].body.count || pages[p].body.slots[idx].key != k {
        return false;
      }
      ShiftEntriesLeft(p, idx);
      ShiftedLeft(old(pages[p].body.slots), pages[p].body.slots, |es|, idx);
      SetCount(p, pages[p].body.count - 1);
      return true;
    }

    // --- Internal nodes --------------------------------------------------------------------------

    method ShiftKeysRight(p: int, idx: nat)
      requires 0 <= p < |pages| && pages[p].body.InternalBody?
      requires idx <= pages[p].body.count < |pages[p].body.keys|
      modifies this`pages
      ensures BodiesOnly(old(pages), pages, {p})
      ensures var b, b' := old(pages[p].body), pages[p].body;
              && b'.InternalBody? && b'.count == b.count && |b'.keys| == |b.keys| && b'.children == b.children
              && (forall j | 0 <= j <= idx && j < |b.keys| :: b'.keys[j] == b.keys[j])
              && (forall j | idx < j <= b.count :: b'.keys[j] == b.keys[j - 1])
    {
      ghost var s := pages[p].body.keys;
      var pos: int := pages[p].body.count - 1;
      while pos >= idx
        invariant idx - 1 <= pos < old(pages[p].body.count)
        invariant BodiesOnly(old(pages), pages, {p})
        invariant var b := pages[p].body;
                  && b.InternalBody? && b.count == old(pages[p].body.count) && |b.keys| == |s|
                  && b.children == old(pages[p].body.children)
                  && (forall j | 0 <= j <= pos + 1 :: b.keys[j] == s[j])
                  && (forall j | pos + 1 < j <= b.count :: b.keys[j] == s[j - 1])
      {
        SetKey(p, pos + 1, pages[p].body.keys[pos]);
        pos := pos - 1;
      }
    }

    method ShiftKeysLeft(p: int, idx: nat)
      requires 0 <= p < |pages| && pages[p].body.InternalBody?
      requires idx < pages[p].body.count <= |pages[p].body.keys|
      modifies this`pages
      ensures BodiesOnly(old(pages), pages, {p})
      ensures var b, b' := old(pages[p].body), pages[p].body;
              && b'.InternalBody? && b'.count == b.count && |b'.keys| == |b.keys| && b'.children == b.children
              && (forall j | 0 <= j < idx :: b'.keys[j] == b.keys[j])
              && (forall j | idx <= j < b.count - 1 :: b'.keys[j] == b.keys[j + 1])
    {
      ghost var s := pages[p].body.keys;
      var pos := idx;
      while pos < pages[p].body.count - 1
        invariant idx <= pos <= old(pages[p].body.count) - 1
        invariant BodiesOnly(old(pages), pages, {p})
        invariant var b := pages[p].body;
                  && b.InternalBody? && b.count == old(pages[p].body.count) && |b.keys| == |s|
                  && b.children == old(pages[p].body.children)
                  && (forall j | 0 <= j < idx || pos <= j < |s| :: b.keys[j] == s[j])
                  && (forall j | idx <= j < pos :: b.keys[j] == s[j + 1])
      {
        SetKey(p, pos, pages[p].body.keys[pos + 1]);
        pos := pos + 1;
      }
    }

    /** Moves the children from `from` up to the last one place to the right. */
    method ShiftChildrenRight(p: int, from: nat)
      requires 0 <= p < |pages| && pages[p].body.InternalBody?
      requires from <= pages[p].body.count + 1 < |pages[p].body.children|
      modifies this`pages
      ensures BodiesOnly(old(pages), pages, {p})
      ensures var b, b' := old(pages[p].body), pages[p].body;
              && b'.InternalBody? && b'.count == b.count && |b'.children| == |b.children| && b'.keys == b.keys
              && (forall j | 0 <= j <= from && j < |b.children| :: b'.children[j] == b.children[j])
              && (forall j | from < j <= b.count + 1 :: b'.children[j] == b.children[j - 1])
    {
      ghost var s := pages[p].body.children;
      var pos: int := pages[p].body.count;
      while pos >= from
        invariant from - 1 <= pos <= old(pages[p].body.count)
        invariant BodiesOnly(old(pages), pages, {p})
        invariant var b := pages[p].body;
                  && b.InternalBody? && b.count == old(pages[p].body.count) && |b.children| == |s|
                  && b.keys == old(pages[p].body.keys)
                  && (forall j | 0 <= j <= pos + 1 :: b.children[j] == s[j])
                  && (forall j | pos + 1 < j <= b.count + 1 :: b.children[j] == s[j - 1])
      {
        SetChild(p, pos + 1, pages[p].body.children[pos]);
        pos := pos - 1;
      }
    }

    /** Closes child slot `from` by moving the children behind it one place to the left. */
    method ShiftChildrenLeft(p: int, from: nat)
      requires 0 <= p < |pages| && pages[p].body.InternalBody?
      requires from <= pages[p].body.count < |pages[p].body.children|
      modifies this`pages
      ensures BodiesOnly(old(pages), pages, {p})
      ensures var b, b' := old(pages[p].body), pages[p].body;
              && b'.InternalBody? && b'.count == b.count && |b'.children| == |b.children| && b'.keys == b.keys
              && (forall j | 0 <= j < from :: b'.children[j] == b.children[j])
              && (forall j | from <= j < b.count :: b'.children[j] == b.children[j + 1])
    {
      ghost var s := pages[p].body.children;
      var pos := from;
      while pos < pages[p].body.count
        invariant from <= pos <= old(pages[p].body.count)
        invariant BodiesOnly(old(pages), pages, {p})
        invariant var b := pages[p].body;
                  && b.InternalBody? && b.count == old(pages[p].body.count) && |b.children| == |s|
                  && b.keys == old(pages[p].body.keys)
                  && (forall j | 0 <= j < from || pos <= j < |s| :: b.children[j] == s[j])
                  && (forall j | from <= j < pos :: b.children[j] == s[j + 1])
      {
        SetChild(p, pos, pages[p].body.children[pos + 1]);
        pos := pos + 1;
      }
    }

    method InsertIntoInternal(p: int, k: int, c: int, ghost t: Tree, ghost r: Tree)
      requires 0 <= p < |pages| && t.Node? && HoldsNode(pages[p].body, t)
      requires forall i, j | 0 <= i < j < |t.keys| :: t.keys[i] < t.keys[j]
      requires |t.keys| < INTERNAL_ORDER && r.id == c
      modifies this`pages
      ensures BodiesOnly(old(pages), pages, {p})
      ensures var j := LowerBound(t.keys, k);
              HoldsNode(pages[p].body, Node(t.id, InsertAt(t.keys, j, k), InsertAt(t.kids, j + 1, r)))
    {
      hide LowerBound;
      var idx := FindInNode(p, k, t);
      ShiftKeysRight(p, idx);
      ShiftChildrenRight(p, idx + 1);
      SetKey(p, idx, k);
      ShiftedRight(old(pages[p].body.keys), pages[p].body.keys, |t.keys|, idx, k);
      SetChild(p, idx + 1, c);
      SetCount(p, pages[p].body.count + 1);
    }

    // --- New pages -------------------------------------------------------------------------------

    /** The pool hands out a page of zero bytes, which reads as an empty internal node. */
    method AllocatePage() returns (q: int)
      modifies this`pages
      ensures q == old(|pages|) && pages == old(pages) + [ZeroPage()]
    {
      q := |pages|;
      pages := pages + [ZeroPage()];
    }

    method CreateLeaf(q: int)
      requires 0 <= q < |pages|
      modifies this`pages
      ensures |pages| == old(|pages|)
      ensures forall x | 0 <= x < |pages| && x != q :: pages[x] == old(pages[x])
      ensures HoldsNode(pages[q].body, Leaf(q, [])) && pages[q].next == -1 && pages[q].prev == -1
    {
      pages := pages[q := Page(LeafBody(0, seq(LEAF_ORDER, _ => Entry(0, Location(0, 0)))), -1, -1)];
    }

    method SetNext(p: int, v: int)
      requires 0 <= p < |pages|
      modifies this`pages
      ensures pages == old(pages[p := pages[p].(next := v)])
    {
      pages := pages[p := pages[p].(next := v)];
    }

    method SetPrev(p: int, v: int)
      requires 0 <= p < |pages|
      modifies this`pages
      ensures pages == old(pages[p := pages[p].(prev := v)])
    {
      pages := pages[p := pages[p].(prev := v)];
    }

    /** Copies entries into the slots from 0 on and sets the count. */
    method FillLeaf(p: int, es: seq<Entry>)
      requires 0 <= p < |pages| && pages[p].body.LeafBody? && |pages[p].body.slots| == LEAF_ORDER
      requires |es| <= LEAF_ORDER
      modifies this`pages
      ensures BodiesOnly(old(pages), pages, {p})
      ensures HoldsNode(pages[p].body, Leaf(p, es))
    {
      for i := 0 to |es|
        invariant BodiesOnly(old(pages), pages, {p})
        invariant pages[p].body.LeafBody? && |pages[p].body.slots| == LEAF_ORDER
        invariant forall j | 0 <= j < i :: pages[p].body.slots[j] == es[j]
      {
        SetEntry(p, i, es[i]);
      }
      SetCount(p, |es|);
    }

    method LinkAfter(p: int, q: int)
      requires 0 <= p < q < |pages|
      requires pages[p].next == -1 || 0 <= pages[p].next < q
      modifies this`pages
      ensures |pages| == old(|pages|)
      ensures forall x | 0 <= x < |pages| :: pages[x].body == old(pages[x].body)
      ensures LinkedIn(old(pages[..q]), pages, p, q)
    {
      SetNext(q, pages[p].next);
      SetPrev(q, p);
      SetNext(p, q);
      if pages[q].next != -1 {
        SetPrev(pages[q].next, q);
      }
    }

    /** The entries of a leaf and a new one, sorted by key. */
    method AllEntries(p: int, e: Entry, ghost es: seq<Entry>) returns (total: seq<Entry>)
      requires 0 <= p < |pages| && HoldsNode(pages[p].body, Leaf(p, es))
      requires Sorted(es) && !HasKey(es, e.key)
      ensures total == SortedInsert(es, e)
    {
      hide Sorted, HasKey, SortedInsert;
      total := [];
      for i := 0 to pages[p].body.count
        invariant total == es[..i]
      {
        total := total + [pages[p].body.slots[i]];
        assert pages[p].body.slots[..|es|][i] == es[i];
      }
      assert es[..|es|] == es;
      total := total + [e];
      total := SortByKey(total);
      SortedTotal(es, e, total);
    }

    /** A new leaf page with the given entries, behind page `p` in the chain. */
    method NewLeafAfter(p: int, es: seq<Entry>) returns (q: int)
      requires 0 <= p < |pages| && |es| <= LEAF_ORDER
      requires pages[p].next == -1 || 0 <= pages[p].next < |pages|
      modifies this`pages
      ensures q == old(|pages|) && |pages| == q + 1
      ensures HoldsNode(pages[q].body, Leaf(q, es))
      ensures forall x | 0 <= x < q :: pages[x].body == old(pages[x].body)
      ensures LinkedIn(old(pages), pages, p, q)
    {
      q := AllocatePage();
      CreateLeaf(q);
      FillLeaf(q, es);
      ghost var before := pages;
      LinkAfter(p, q);
      assert SameLinks(old(pages), before[..q]);
    }

    method SplitLeaf(p: int, e: Entry, ghost es: seq<Entry>) returns (r: Promoted)
      requires 0 <= p < |pages| && HoldsNode(pages[p].body, Leaf(p, es))
      requires |es| == LEAF_ORDER && Sorted(es) && !HasKey(es, e.key)
      requires pages[p].next == -1 || 0 <= pages[p].next < |pages|
      modifies this`pages
      ensures var q := old(|pages|);
              var parts := LeafParts(Leaf(p, es), e, q);
              && |pages| == q + 1 && |parts| == 2
              && r == Promoted(parts[1].es[0].key, q)
              && HoldsNode(pages[p].body, parts[0]) && HoldsNode(pages[q].body, parts[1])
              && (forall x | 0 <= x < q && x != p :: pages[x].body == old(pages[x].body))
              && LinkedIn(old(pages), pages, p, q)
    {
      hide Sorted, HasKey, LinkedIn;
      var total := AllEntries(p, e, es);
      var mid := |total| / 2;
      ghost var before := pages;
      FillLeaf(p, total[..mid]);
      ghost var filled := pages;
      var q := NewLeafAfter(p, total[mid..]);
      LinkedFrom(before, filled, pages, p, q);
      return Promoted(total[mid].key, q);
    }

    /** Copies separators and children into an internal page and sets the count. */
    method FillInternal(p: int, ks: seq<int>, cs: seq<int>)
      requires 0 <= p < |pages| && pages[p].body.InternalBody?
      requires |pages[p].body.keys| == INTERNAL_ORDER && |pages[p].body.children| == INTERNAL_ORDER + 1
      requires |ks| <= INTERNAL_ORDER && |cs| == |ks| + 1
      modifies this`pages
      ensures BodiesOnly(old(pages), pages, {p})
      ensures var b := pages[p].body;
              && b.InternalBody? && |b.keys| == INTERNAL_ORDER && |b.children| == INTERNAL_ORDER + 1
              && b.count == |ks| && b.keys[..b.count] == ks
              && (forall j | 0 <= j < |cs| :: b.children[j] == cs[j])
    {
      for i := 0 to |ks|
        invariant BodiesOnly(old(pages), pages, {p})
        invariant var b := pages[p].body;
                  && b.InternalBody? && |b.keys| == INTERNAL_ORDER && |b.children| == INTERNAL_ORDER + 1
                  && (forall j | 0 <= j < i :: b.keys[j] == ks[j])
      {
        SetKey(p, i, ks[i]);
      }
      for i := 0 to |cs|
        invariant BodiesOnly(old(pages), pages, {p})
        invariant var b := pages[p].body;
                  && b.InternalBody? && |b.keys| == INTERNAL_ORDER && |b.children| == INTERNAL_ORDER + 1
                  && (forall j | 0 <= j < |ks| :: b.keys[j] == ks[j])
                  && (forall j | 0 <= j < i :: b.children[j] == cs[j])
      {
        SetChild(p, i, cs[i]);
      }
      SetCount(p, |ks|);
    }

    /** Reads all separators and children of an internal page. */
    method ReadInternal(p: int, ghost t: Tree) returns (ks: seq<int>, cs: seq<int>)
      requires 0 <= p < |pages| && t.Node? && HoldsNode(pages[p].body, t)
      ensures ks == t.keys
      ensures |cs| == |t.kids| && forall i | 0 <= i < |cs| :: cs[i] == t.kids[i].id
    {
      cs := [];
      for i := 0 to pages[p].body.count + 1
        invariant |cs| == i && forall j | 0 <= j < i :: cs[j] == t.kids[j].id
      {
        cs := cs + [pages[p].body.children[i]];
      }
      ks := [];
      for i := 0 to pages[p].body.count
        invariant ks == t.keys[..i]
      {
        assert pages[p].body.keys[..pages[p].body.count][i] == t.keys[i];
        ks := ks + [pages[p].body.keys[i]];
      }
    }

    /** The separators and children of an internal page with a new pair put in. */
    method AllKeysAndChildren(p: int, k: int, c: int, ghost t: Tree, ghost r: Tree) returns (ks: seq<int>, cs: seq<int>)
      requires 0 <= p < |pages| && t.Node? && HoldsNode(pages[p].body, t) && r.id == c
      requires forall i, j | 0 <= i < j < |t.keys| :: t.keys[i] < t.keys[j]
      ensures var j := LowerBound(t.keys, k);
              && ks == InsertAt(t.keys, j, k) && |cs| == |t.kids| + 1
              && forall i | 0 <= i < |cs| :: cs[i] == InsertAt(t.kids, j + 1, r)[i].id
    {
      ks, cs := ReadInternal(p, t);
      var insertPos := FindInNode(p, k, t);
      ks := InsertAt(ks, insertPos, k);
      cs := InsertAt(cs, insertPos + 1, c);
    }

    method SplitInternal(p: int, k: int, c: int, ghost t: Tree, ghost r: Tree) returns (res: Promoted)
      requires 0 <= p < |pages| && t.Node? && t.id == p && HoldsNode(pages[p].body, t)
      requires forall i, j | 0 <= i < j < |t.keys| :: t.keys[i] < t.keys[j]
      requires |t.keys| == INTERNAL_ORDER && r.id == c
      modifies this`pages
      ensures var j, q := LowerBound(t.keys, k), old(|pages|);
              var o := MakeNode(t.id, InsertAt(t.keys, j, k), InsertAt(t.kids, j + 1, r), q);
              && |pages| == q + 1 && o.Split? && res == Promoted(o.key, q)
              && HoldsNode(pages[p].body, o.left) && HoldsNode(pages[q].body, o.right)
              && (forall x | 0 <= x < q && x != p :: pages[x].body == old(pages[x].body))
              && SameLinks(old(pages), pages)
    {
      hide LowerBound, InsertAt, MakeNode, HoldsNode, SameLinks;
      InternalSlots(pages[p].body, t);
      var allKeys, allChildren := AllKeysAndChildren(p, k, c, t, r);
      ghost var kids := InsertAt(t.kids, LowerBound(t.keys, k) + 1, r);
      MakeNodeSplits(t.id, allKeys, kids, |pages|);
      res := Halve(p, allKeys, allChildren, kids);
    }

    /** Leaves the lower half of the keys and children in page `p` and puts the upper half on a new page. */
    method Halve(p: int, allKeys: seq<int>, allChildren: seq<int>, ghost kids: seq<Tree>) returns (res: Promoted)
      requires 0 <= p < |pages| && pages[p].body.InternalBody?
      requires |pages[p].body.keys| == INTERNAL_ORDER && |pages[p].body.children| == INTERNAL_ORDER + 1
      requires |allKeys| == INTERNAL_ORDER + 1 && |kids| == |allChildren| == |allKeys| + 1
      requires forall i | 0 <= i < |allChildren| :: allChildren[i] == kids[i].id
      modifies this`pages
      ensures var q := old(|pages|);
              && |pages| == q + 1 && res == Promoted(allKeys[15], q)
              && HoldsNode(pages[p].body, Node(p, allKeys[..15], kids[..16]))
              && HoldsNode(pages[q].body, Node(q, allKeys[16..], kids[16..]))
              && (forall x | 0 <= x < q && x != p :: pages[x].body == old(pages[x].body))
              && SameLinks(old(pages), pages)
    {
      var mid := |allKeys| / 2;
      var promotedKey := allKeys[mid];
      FillInternal(p, allKeys[..mid], allChildren[..mid + 1]);
      var q := AllocatePage();
      FillInternal(q, allKeys[mid + 1..], allChildren[mid + 1..]);
      return Promoted(promotedKey, q);
    }

    /** The child page a search for `k` goes to. */
    method ChildFor(p: int, k: int, ghost t: Tree) returns (child: int)
      requires 0 <= p < |pages| && t.Node? && HoldsNode(pages[p].body, t)
      requires forall i, j | 0 <= i < j < |t.keys| :: t.keys[i] < t.keys[j]
      ensures child == t.kids[Descend(t.keys, k)].id
    {
      var idx := FindInNode(p, k, t);
      if idx == pages[p].body.count {
        child := pages[p].body.children[idx];
      } else {
        assert pages[p].body.keys[..pages[p].body.count][idx] == t.keys[idx];
        if pages[p].body.keys[idx] == k {
          child := pages[p].body.children[idx + 1];
        } else {
          child := pages[p].body.children[idx];
        }
      }
    }

    // --- Insertion ---------------------------------------------------------------------------------

    /** Enters what came back from child `d` into its parent. */
    method Absorb(p: int, s: Option<Promoted>, ghost t: Tree, ghost d: nat, ghost o: Outcome) returns (r: Option<Promoted>)
      requires 0 <= p < |pages| && t.Node? && t.id == p && HoldsNode(pages[p].body, t)
      requires forall i, j | 0 <= i < j < |t.keys| :: t.keys[i] < t.keys[j]
      requires d < |t.kids|
      requires KidsHeld(pages, t.kids, d) && OutcomeHeld(pages, o)
      requires forall i | 0 <= i < |t.kids| && i != d :: Uses(t.kids[i], p) == 0
      requires OutcomeUses(o, p) == 0 && o.next == |pages|
      requires if o.Fits? then o.t.id == t.kids[d].id else o.left.id == t.kids[d].id
      requires Reports(s, o)
      modifies this`pages
      ensures var o' := Rebuild(t.id, t.keys, t.kids, d, o);
              |pages| == o'.next && OutcomeHeld(pages, o') && Reports(r, o')
      ensures |pages| >= old(|pages|)
      ensures forall q | 0 <= q < old(|pages|) && q != p :: pages[q].body == old(pages[q].body)
      ensures SameLinks(old(pages), pages)
    {
      hide Holds, Uses, MakeNode;
      match s
      case None =>
        WithKidHeld(pages, t, d, o.t);
        return None;
      case Some(promoted) =>
        ghost var t' := Node(p, t.keys, t.kids[d := o.left]);
        assert forall i | 0 <= i < |t.kids| :: Holds(pages, t'.kids[i]) && Uses(t'.kids[i], p) == 0;
        r := AddSibling(p, promoted.key, promoted.pageId, t', o.right);
    }

    /** Enters a new right sibling, splitting the node if it was full. */
    method AddSibling(p: int, k: int, c: int, ghost t: Tree, ghost right: Tree) returns (r: Option<Promoted>)
      requires 0 <= p < |pages| && t.Node? && t.id == p && HoldsNode(pages[p].body, t)
      requires forall i, j | 0 <= i < j < |t.keys| :: t.keys[i] < t.keys[j]
      requires forall i | 0 <= i < |t.kids| :: Holds(pages, t.kids[i]) && Uses(t.kids[i], p) == 0
      requires Holds(pages, right) && Uses(right, p) == 0 && right.id == c
      modifies this`pages
      ensures var j := LowerBound(t.keys, k);
              var o := MakeNode(p, InsertAt(t.keys, j, k), InsertAt(t.kids, j + 1, right), old(|pages|));
              |pages| == o.next && OutcomeHeld(pages, o) && Reports(r, o)
      ensures |pages| >= old(|pages|)
      ensures forall q | 0 <= q < old(|pages|) && q != p :: pages[q].body == old(pages[q].body)
      ensures SameLinks(old(pages), pages)
    {
      ghost var kids := InsertAt(t.kids, LowerBound(t.keys, k) + 1, right);
      if pages[p].body.count < INTERNAL_ORDER {
        InsertIntoInternal(p, k, c, t, right);
        KidsHeldExcept(old(pages), pages, kids, p);
        return None;
      }
      var up := SplitInternal(p, k, c, t, right);
      KidsHeldExcept(old(pages), pages, kids, p);
      return Some(up);
    }

    method InsertAtLeaf(p: int, e: Entry, ghost t: Tree, ghost least: int, ghost lo: int, ghost hi: int, ghost h: nat)
      returns (r: Option<Promoted>)
      requires Holds(pages, t) && t.id == p && t.Leaf? && WF(t, least, lo, hi, h) && !HasKey(Flat(t), e.key)
      requires pages[p].next == -1 || 0 <= pages[p].next < |pages|
      modifies this`pages
      ensures var o := BPlusTreeInsert.InsertRec(t, e, old(|pages|));
              |pages| == o.next && OutcomeHeld(pages, o) && Reports(r, o)
      ensures |pages| >= old(|pages|)
      ensures forall q | 0 <= q < old(|pages|) && Uses(t, q) == 0 :: pages[q].body == old(pages[q].body)
      ensures if |LeafFor(t, e.key).es| < LEAF_ORDER then SameLinks(old(pages), pages)
              else LinkedIn(old(pages), pages, LeafFor(t, e.key).id, old(|pages|))
    {
      FlatLeaf(t);
      if pages[p].body.count < LEAF_ORDER {
        InsertIntoLeaf(p, e, t.es);
        return None;
      }
      var s := SplitLeaf(p, e, t.es);
      return Some(s);
    }

    method InsertRec(p: int, e: Entry, ghost t: Tree, ghost least: int, ghost lo: int, ghost hi: int, ghost h: nat)
      returns (r: Option<Promoted>)
      requires Holds(pages, t) && t.id == p && NoSharing(t)
      requires WF(t, least, lo, hi, h) && Shape(t) && least <= MIN_KEYS
      requires lo <= e.key < hi && !HasKey(Flat(t), e.key)
      requires var x := LeafFor(t, e.key).id;
               0 <= x < |pages| && (pages[x].next == -1 || 0 <= pages[x].next < |pages|)
      modifies this`pages
      ensures var o := BPlusTreeInsert.InsertRec(t, e, old(|pages|));
              |pages| == o.next && OutcomeHeld(pages, o) && Reports(r, o)
      ensures |pages| >= old(|pages|)
      ensures forall q | 0 <= q < old(|pages|) && Uses(t, q) == 0 :: pages[q].body == old(pages[q].body)
      ensures if |LeafFor(t, e.key).es| < LEAF_ORDER then SameLinks(old(pages), pages)
              else LinkedIn(old(pages), pages, LeafFor(t, e.key).id, old(|pages|))
      decreases h
    {
      hide Holds, HoldsNode, WF, Shape, NoSharing, OutcomeHeld, Reports, LinkedIn, SameLinks, HasKey, Flat,
           BPlusTreeInsert.InsertRec;
      KindOfPage(pages, t);
      if pages[p].body.LeafBody? {
        r := InsertAtLeaf(p, e, t, least, lo, hi, h);
        return;
      }
      BelowNode(t, least, lo, hi, h, e.key);
      ChildPage(pages, t, Descend(t.keys, e.key));
      ChildHeld(pages, t, Descend(t.keys, e.key));
      ghost var d := Descend(t.keys, e.key);
      ghost var c, o := t.kids[d], BPlusTreeInsert.InsertRec(t.kids[d], e, |pages|);
      AbsentBelow(t, least, lo, hi, h, e.key);
      Apart(t, d);
      var child := ChildFor(p, e.key, t);
      var s := InsertRec(child, e, c, MIN_KEYS, LoBound(t.keys, d, lo), HiBound(t.keys, d, hi), h - 1);
      BelowIsApart(old(pages), pages, t, d, e, o);
      InsertRecNode(t, e, old(|pages|));
      ghost var mid := pages;
      r := Absorb(p, s, t, d, o);
      LinksKept(t, d, e.key);
      SameLinksAfter(old(pages), mid, pages, LeafFor(t, e.key).id, old(|pages|));
    }

    /** Puts a root that split, and the sibling it gave off, under a new root. */
    method NewRoot(s: Promoted, ghost l: Tree, ghost r: Tree)
      requires Holds(pages, l) && Holds(pages, r)
      requires l.id == rootPageId && r.id == s.pageId
      modifies this`pages, this`rootPageId, this`storedRoot
      ensures |pages| == old(|pages|) + 1 && SameLinks(old(pages), pages)
      ensures rootPageId == storedRoot == old(|pages|)
      ensures Holds(pages, Node(rootPageId, [s.key], [l, r]))
    {
      var newRootId := AllocatePage();
      SetChild(newRootId, 0, rootPageId);
      SetKey(newRootId, 0, s.key);
      SetChild(newRootId, 1, s.pageId);
      SetCount(newRootId, 1);
      rootPageId := newRootId;
      storedRoot := rootPageId;
      HoldsFrame(old(pages), pages, l);
      HoldsFrame(old(pages), pages, r);
    }

    /** The pages' side of an insertion. */
    method InsertPages(e: Entry, ghost t: Tree, ghost h: nat)
      requires Represents(pages, rootPageId, t, h) && storedRoot == rootPageId
      requires 0 <= e.key < Limit() && !HasKey(Flat(t), e.key)
      modifies this`pages, this`rootPageId, this`storedRoot
      ensures var t' := BPlusTreeInsert.Insert(t, e, old(|pages|)).0;
              Holds(pages, t') && storedRoot == rootPageId == t'.id
      ensures if |LeafFor(t, e.key).es| < LEAF_ORDER then SameLinks(old(pages), pages)
              else LinkedIn(old(pages), pages, LeafFor(t, e.key).id, old(|pages|))
    {
      hide Represents, Holds, WF, Shape, HasKey, Flat, NoSharing, BPlusTreeInsert.InsertRec, LinkedIn, SameLinks;
      RootIsWhole(pages, rootPageId, t, h);
      NextOfLeaf(pages, t, e.key);
      ghost var o := BPlusTreeInsert.InsertRec(t, e, |pages|);
      InsertRecRootId(t, e, |pages|);
      var result := InsertRec(rootPageId, e, t, if t.Leaf? then 0 else 1, 0, Limit(), h);
      ghost var mid := pages;
      if result.Some? {
        NewRoot(result.value, o.left, o.right);
        SameLinksAfter(old(pages), mid, pages, LeafFor(t, e.key).id, old(|pages|));
      }
    }

    /** Adds one entry under a key the index does not hold. */
    method Insert(e: Entry)
      requires Valid()
      requires 0 <= e.key < Limit() && e.key !in Contents()
      modifies this
      ensures Valid()
      ensures Contents() == old(Contents())[e.key := e.loc]
      ensures tree == BPlusTreeInsert.Insert(old(tree), e, old(|pages|)).0
    {
      ghost var t, ps, root := tree, pages, rootPageId;
      RepresentsSorted(ps, root, t, height);
      MapOfHasKey(Flat(t), e.key);
      InsertPages(e, t, height);
      tree := BPlusTreeInsert.Insert(t, e, |ps|).0;
      height := InsertRepresents(ps, pages, root, t, height, e);
      RepresentsSorted(pages, rootPageId, tree, height);
      MapOfInsert(Flat(t), e);
    }

    // --- Queries -----------------------------------------------------------------------------------

    method FindLeaf(k: int) returns (p: int)
      requires Valid() && 0 <= k < Limit()
      ensures p == LeafFor(tree, k).id
    {
      hide Represents, Holds, HoldsNode, WF, Shape;
      RootIsWhole(pages, rootPageId, tree, height);
      p := rootPageId;
      ghost var t, least, lo, hi, h := tree, if tree.Leaf? then 0 else 1, 0, Limit(), height;
      KindOfPage(pages, t);
      while pages[p].body.InternalBody?
        invariant Holds(pages, t) && t.id == p && Shape(t)
        invariant WF(t, least, lo, hi, h) && lo <= k < hi
        invariant LeafFor(t, k) == LeafFor(tree, k)
        invariant 0 <= p < |pages| && pages[p].body.LeafBody? == t.Leaf?
        decreases h
      {
        BelowNode(t, least, lo, hi, h, k);
        ChildPage(pages, t, Descend(t.keys, k));
        ChildHeld(pages, t, Descend(t.keys, k));
        p := ChildFor(p, k, t);
        ghost var d := Descend(t.keys, k);
        least, lo, hi := MIN_KEYS, LoBound(t.keys, d, lo), HiBound(t.keys, d, hi);
        t, h := t.kids[d], h - 1;
        KindOfPage(pages, t);
      }
    }

    /** What is known of leaf `j`, which lives in page `p`, while walking the chain. */
    lemma AtLeaf(j: nat, p: int)
      requires Valid() && j < |Leaves(tree)| && p == Leaves(tree)[j].id
      ensures 0 <= p < |pages| && pages[p].body.LeafBody? && pages[p].body.count <= |pages[p].body.slots|
      ensures pages[p].next == -1 <==> j + 1 == |Leaves(tree)|
      ensures j + 1 < |Leaves(tree)| ==> pages[p].next == Leaves(tree)[j + 1].id
      ensures |Leaves(tree)| > 1 ==> pages[p].body.count >= 1
      ensures Offset(Leaves(tree), j + 1) == Offset(Leaves(tree), j) + pages[p].body.count
      ensures Offset(Leaves(tree), j + 1) <= |Flat(tree)|
      ensures j + 1 == |Leaves(tree)| ==> Offset(Leaves(tree), j + 1) == |Flat(tree)|
    {
      hide Represents, Entries, Leaves, Holds;
      AtLeafPage(j);
      assert Leaves(tree)[..|Leaves(tree)|] == Leaves(tree);
      OffsetStep(Leaves(tree), j);
    }

    /** The slot `i` of that page is the entry at the corresponding place in the whole run. */
    lemma AtEntry(j: nat, p: int, i: nat)
      requires Valid() && j < |Leaves(tree)| && p == Leaves(tree)[j].id
      requires 0 <= p < |pages| && pages[p].body.LeafBody? && i < pages[p].body.count <= |pages[p].body.slots|
      ensures Offset(Leaves(tree), j) + i < |Flat(tree)|
      ensures pages[p].body.slots[i] == Flat(tree)[Offset(Leaves(tree), j) + i]
    {
      hide Represents, Entries, Leaves, Holds;
      AtLeafPage(j);
      OffsetStep(Leaves(tree), j);
      var b := pages[p].body;
      assert b.slots[i] == b.slots[..b.count][i];
    }

    lemma AtLeafPage(j: nat)
      requires Valid() && j < |Leaves(tree)|
      ensures var l := Leaves(tree)[j];
              && l.Leaf? && 0 <= l.id < |pages| && HoldsNode(pages[l.id].body, l)
              && pages[l.id].next == (if j + 1 < |Leaves(tree)| then Leaves(tree)[j + 1].id else -1)
              && (j + 1 < |Leaves(tree)| ==> Leaves(tree)[j + 1].id != -1)
              && (|Leaves(tree)| > 1 ==> |l.es| >= 1)
    {
      HeldLeaves(pages, tree);
      assert Linked(pages, Leaves(tree), j);
      assert j + 1 < |Leaves(tree)| ==> Linked(pages, Leaves(tree), j + 1);
      if tree.Node? {
        LeavesFilled(tree, 1, 0, Limit(), height);
      }
    }

    /** Finds the leaf a search starts in, and the position in it. */
    method FindStart(k: int) returns (leaf: int, idx: nat, ghost j: nat)
      requires Valid() && 0 <= k < Limit()
      ensures j < |Leaves(tree)| && leaf == Leaves(tree)[j].id
      ensures Offset(Leaves(tree), j) + idx == LeafPos(Flat(tree), k)
      ensures 0 <= leaf < |pages| && idx <= pages[leaf].body.count
    {
      ghost var least := if tree.Leaf? then 0 else 1;
      SearchPosition(tree, least, 0, Limit(), height, k);
      LeafForWF(tree, least, 0, Limit(), height, k);
      leaf := FindLeaf(k);
      j := LeafIndex(tree, k);
      AtLeaf(j, leaf);
      AtLeafPage(j);
      idx := FindInLeaf(leaf, k, Leaves(tree)[j].es);
    }

    /** What a point query should find, in terms of the run of entries. */
    lemma PointMeaning(k: int)
      requires Valid()
      ensures var es, first := Flat(tree), LeafPos(Flat(tree), k);
              && (first + 1 < |es| ==> es[first + 1].key != k)
              && (if k in Contents() then [Contents()[k]] else [])
                   == (if first < |es| && es[first].key == k then [es[first].loc] else [])
    {
      RepresentsSorted(pages, rootPageId, tree, height);
      MapOfHasKey(Flat(tree), k);
    }

    /** The location stored under `k`, if any, found from the leaf on along the chain. */
    method PointQuery(k: int) returns (result: seq<Location>)
      requires Valid() && 0 <= k < Limit()
      ensures result == if k in Contents() then [Contents()[k]] else []
    {
      hide Represents, Entries, Leaves, HoldsNode, MapOf, Offset, Flat, LeafPos;
      result := [];
      ghost var es, first := Flat(tree), LeafPos(Flat(tree), k);
      PointMeaning(k);
      var leaf: int, idx: nat;
      ghost var j: nat;
      leaf, idx, j := FindStart(k);
      while true
        invariant j < |Leaves(tree)| && leaf == Leaves(tree)[j].id
        invariant 0 <= leaf < |pages| && idx <= pages[leaf].body.count
        invariant var pos := Offset(Leaves(tree), j) + idx;
                  || (result == [] && pos == first)
                  || (first < |es| && es[first].key == k && result == [es[first].loc] && pos == first + 1)
        decreases |Leaves(tree)| - j, pages[leaf].body.count - idx
      {
        AtLeaf(j, leaf);
        if idx >= pages[leaf].body.count {
          if pages[leaf].next == -1 {
            break;
          }
          leaf := pages[leaf].next;
          idx, j := 0, j + 1;
          AtLeaf(j, leaf);
        }
        AtEntry(j, leaf, idx);
        if pages[leaf].body.slots[idx].key != k {
          break;
        }
        result := result + [pages[leaf].body.slots[idx].loc];
        idx := idx + 1;
      }
    }

    /** The inner loop of a range query: one leaf from slot `from` on, until an entry lies behind the interval. */
    method ScanLeaf(leaf: int, from: nat, start: int, end: int, startOpen: bool, endOpen: bool, ghost j: nat)
      returns (found: seq<Location>, done: bool)
      requires Valid() && j < |Leaves(tree)| && leaf == Leaves(tree)[j].id
      requires 0 <= leaf < |pages| && from <= pages[leaf].body.count
      requires LeafPos(Flat(tree), start) <= Offset(Leaves(tree), j) + from
      ensures var p := Offset(Leaves(tree), j) + from;
              p <= |Flat(tree)| &&
              var rest := Select(Flat(tree), p, start, end, startOpen, endOpen);
              if done then found == rest
              else Offset(Leaves(tree), j + 1) <= |Flat(tree)|
                   && found + Select(Flat(tree), Offset(Leaves(tree), j + 1), start, end, startOpen, endOpen) == rest
    {
      hide Represents, Entries, Leaves, HoldsNode, Select, LeafPos, Sorted, Offset, Flat, Shape, InRange;
      ghost var es, base := Flat(tree), Offset(Leaves(tree), j);
      AtLeaf(j, leaf);
      found, done := [], false;
      RepresentsSorted(pages, rootPageId, tree, height);
      var i := from;
      while i < pages[leaf].body.count
        invariant from <= i <= pages[leaf].body.count
        invariant found + Select(es, base + i, start, end, startOpen, endOpen)
               == Select(es, base + from, start, end, startOpen, endOpen)
      {
        AtEntry(j, leaf, i);
        var key := pages[leaf].body.slots[i].key;
        if key > end || (endOpen && key == end) {
          SelectEnds(es, base + i, start, end, startOpen, endOpen);
          done := true;
          return;
        }
        AtOrAfter(es, start, base + i);
        SelectStep(es, base + i, start, end, startOpen, endOpen, found);
        if !(startOpen && key == start) {
          found := found + [pages[leaf].body.slots[i].loc];
        }
        i := i + 1;
      }
    }

    /** The locations of all entries in the interval, in key order. */
    method RangeQuery(start: int, end: int, startOpen: bool, endOpen: bool) returns (result: seq<Location>)
      requires Valid() && 0 <= start < Limit()
      ensures ListsInside(result, Contents(), start, end, startOpen, endOpen)
    {
      hide Represents, Entries, Leaves, HoldsNode, Select, LeafPos, ListsInside, MapOf;
      result := [];
      ghost var es := Flat(tree);
      SelectSkips(es, 0, LeafPos(es, start), start, end, startOpen, endOpen);
      assert Sorted(es) by { RepresentsSorted(pages, rootPageId, tree, height); }
      SelectLists(es, start, end, startOpen, endOpen);
      var leaf: int, startIdx: nat;
      ghost var j: nat;
      leaf, startIdx, j := FindStart(start);
      while true
        invariant j < |Leaves(tree)| && leaf == Leaves(tree)[j].id
        invariant 0 <= leaf < |pages| && startIdx <= pages[leaf].body.count
        invariant LeafPos(es, start) <= Offset(Leaves(tree), j) + startIdx <= |es|
        invariant result + Select(es, Offset(Leaves(tree), j) + startIdx, start, end, startOpen, endOpen)
               == Select(es, 0, start, end, startOpen, endOpen)
        decreases |Leaves(tree)| - j
      {
        var found, done := ScanLeaf(leaf, startIdx, start, end, startOpen, endOpen, j);
        ghost var sofar := result;
        result := result + found;
        if done {
          return;
        }
        AtLeaf(j, leaf);
        startIdx := 0;
        Regroup(sofar, found, Select(es, Offset(Leaves(tree), j + 1), start, end, startOpen, endOpen));
        if pages[leaf].next == -1 {
          SelectEnds(es, |es|, start, end, startOpen, endOpen);
          return;
        }
        leaf := pages[leaf].next;
        j := j + 1;
        AtLeaf(j, leaf);
      }
    }

    // --- Deletion ----------------------------------------------------------------------------------

    method PrependEntry(p: int, e: Entry, ghost es: seq<Entry>)
      requires 0 <= p < |pages| && HoldsNode(pages[p].body, Leaf(p, es)) && |es| < LEAF_ORDER
      modifies this`pages
      ensures BodiesOnly(old(pages), pages, {p}) && HoldsNode(pages[p].body, Leaf(p, [e] + es))
    {
      ShiftEntriesRight(p, 0);
      SetEntry(p, 0, e);
      ShiftedRight(old(pages[p].body.slots), pages[p].body.slots, |es|, 0, e);
      SetCount(p, pages[p].body.count + 1);
    }

    method BorrowEntryFromLeft(p: int, i: nat, child: int, left: int, ghost t: Tree, ghost d: nat)
      requires 0 <= p < |pages| && 0 <= child < |pages| && 0 <= left < |pages|
      requires p != child && p != left && child != left
      requires t.Node? && HoldsNode(pages[p].body, t)
      requires 0 < i <= |t.keys| && d < |t.kids| && d != i - 1
      requires t.kids[d].Leaf? && t.kids[d].id == child && HoldsNode(pages[child].body, t.kids[d])
      requires t.kids[i - 1].Leaf? && t.kids[i - 1].id == left && HoldsNode(pages[left].body, t.kids[i - 1])
      requires t.kids[i - 1].Count() >= 1 && t.kids[d].Count() < LEAF_ORDER
      modifies this`pages
      ensures BodiesOnly(old(pages), pages, {p, child, left})
      ensures var t' := BPlusTreeDelete.BorrowFromLeft(t.id, t.keys, t.kids, i, d);
              && HoldsNode(pages[p].body, t')
              && HoldsNode(pages[child].body, t'.kids[d]) && HoldsNode(pages[left].body, t'.kids[i - 1])
    {
      var lastIdx := pages[left].body.count - 1;
      var e := pages[left].body.slots[lastIdx];
      assert e == pages[left].body.slots[..pages[left].body.count][lastIdx];
      PrependEntry(child, e, t.kids[d].es);
      SetCount(left, pages[left].body.count - 1);
      SetKey(p, i - 1, e.key);
    }

    method PrependChild(p: int, k: int, c: int, ghost t: Tree, ghost first: Tree)
      requires 0 <= p < |pages| && t.Node? && HoldsNode(pages[p].body, t) && t.Count() < INTERNAL_ORDER
      requires first.id == c
      modifies this`pages
      ensures BodiesOnly(old(pages), pages, {p})
      ensures HoldsNode(pages[p].body, Node(t.id, [k] + t.keys, [first] + t.kids))
    {
      ShiftKeysRight(p, 0);
      ShiftChildrenRight(p, 0);
      SetKey(p, 0, k);
      ShiftedRight(old(pages[p].body.keys), pages[p].body.keys, t.Count(), 0, k);
      SetChild(p, 0, c);
      SetCount(p, pages[p].body.count + 1);
    }

    method BorrowChildFromLeft(p: int, i: nat, child: int, left: int, ghost t: Tree, ghost d: nat)
      requires 0 <= p < |pages| && 0 <= child < |pages| && 0 <= left < |pages|
      requires p != child && p != left && child != left
      requires t.Node? && HoldsNode(pages[p].body, t)
      requires 0 < i <= |t.keys| && d < |t.kids| && d != i - 1
      requires t.kids[d].Node? && t.kids[d].id == child && HoldsNode(pages[child].body, t.kids[d])
      requires t.kids[i - 1].Node? && t.kids[i - 1].id == left && HoldsNode(pages[left].body, t.kids[i - 1])
      requires t.kids[i - 1].Count() >= 1 && t.kids[d].Count() < INTERNAL_ORDER
      modifies this`pages
      ensures BodiesOnly(old(pages), pages, {p, child, left})
      ensures var t' := BPlusTreeDelete.BorrowFromLeft(t.id, t.keys, t.kids, i, d);
              && HoldsNode(pages[p].body, t')
              && HoldsNode(pages[child].body, t'.kids[d]) && HoldsNode(pages[left].body, t'.kids[i - 1])
    {
      var borrowKey := pages[p].body.keys[i - 1];
      assert borrowKey == pages[p].body.keys[..pages[p].body.count][i - 1];
      var lastChild := pages[left].body.children[pages[left].body.count];
      PrependChild(child, borrowKey, lastChild, t.kids[d], t.kids[i - 1].kids[t.kids[i - 1].Count()]);
      var newSeparator := pages[left].body.keys[pages[left].body.count - 1];
      assert newSeparator == pages[left].body.keys[..pages[left].body.count][pages[left].body.count - 1];
      SetKey(p, i - 1, newSeparator);
      SetCount(left, pages[left].body.count - 1);
    }

    method BorrowEntryFromRight(p: int, i: nat, child: int, right: int, ghost t: Tree, ghost d: nat)
      requires 0 <= p < |pages| && 0 <= child < |pages| && 0 <= right < |pages|
      requires p != child && p != right && child != right
      requires t.Node? && HoldsNode(pages[p].body, t)
      requires i < |t.keys| && d < |t.kids| && d != i + 1
      requires t.kids[d].Leaf? && t.kids[d].id == child && HoldsNode(pages[child].body, t.kids[d])
      requires t.kids[i + 1].Leaf? && t.kids[i + 1].id == right && HoldsNode(pages[right].body, t.kids[i + 1])
      requires t.kids[i + 1].Count() >= 2 && t.kids[d].Count() < LEAF_ORDER
      modifies this`pages
      ensures BodiesOnly(old(pages), pages, {p, child, right})
      ensures var t' := BPlusTreeDelete.BorrowFromRight(t.id, t.keys, t.kids, i, d);
              && HoldsNode(pages[p].body, t')
              && HoldsNode(pages[child].body, t'.kids[d]) && HoldsNode(pages[right].body, t'.kids[i + 1])
    {
      var e := pages[right].body.slots[0];
      assert e == pages[right].body.slots[..pages[right].body.count][0];
      ShiftEntriesLeft(right, 0);
      ShiftedLeft(old(pages[right].body.slots), pages[right].body.slots, t.kids[i + 1].Count(), 0);
      SetEntry(child, pages[child].body.count, e);
      SetCount(child, pages[child].body.count + 1);
      SetCount(right, pages[right].body.count - 1);
      assert pages[right].body.slots[0] == pages[right].body.slots[..pages[right].body.count][0];
      SetKey(p, i, pages[right].body.slots[0].key);
    }

    method AppendChild(p: int, k: int, c: int, ghost t: Tree, ghost last: Tree)
      requires 0 <= p < |pages| && t.Node? && HoldsNode(pages[p].body, t) && t.Count() < INTERNAL_ORDER
      requires last.id == c
      modifies this`pages
      ensures BodiesOnly(old(pages), pages, {p})
      ensures HoldsNode(pages[p].body, Node(t.id, t.keys + [k], t.kids + [last]))
    {
      SetKey(p, pages[p].body.count, k);
      SetChild(p, pages[p].body.count + 1, c);
      SetCount(p, pages[p].body.count + 1);
    }

    method DropFirstChild(p: int, ghost t: Tree)
      requires 0 <= p < |pages| && t.Node? && HoldsNode(pages[p].body, t) && t.Count() >= 1
      modifies this`pages
      ensures BodiesOnly(old(pages), pages, {p})
      ensures HoldsNode(pages[p].body, Node(t.id, t.keys[1..], t.kids[1..]))
    {
      ShiftKeysLeft(p, 0);
      ShiftedLeft(old(pages[p].body.keys), pages[p].body.keys, t.Count(), 0);
      ShiftChildrenLeft(p, 0);
      SetCount(p, pages[p].body.count - 1);
    }

    method BorrowChildFromRight(p: int, i: nat, child: int, right: int, ghost t: Tree, ghost d: nat)
      requires 0 <= p < |pages| && 0 <= child < |pages| && 0 <= right < |pages|
      requires p != child && p != right && child != right
      requires t.Node? && HoldsNode(pages[p].body, t)
      requires i < |t.keys| && d < |t.kids| && d != i + 1
      requires t.kids[d].Node? && t.kids[d].id == child && HoldsNode(pages[child].body, t.kids[d])
      requires t.kids[i + 1].Node? && t.kids[i + 1].id == right && HoldsNode(pages[right].body, t.kids[i + 1])
      requires t.kids[i + 1].Count() >= 2 && t.kids[d].Count() < INTERNAL_ORDER
      modifies this`pages
      ensures BodiesOnly(old(pages), pages, {p, child, right})
      ensures var t' := BPlusTreeDelete.BorrowFromRight(t.id, t.keys, t.kids, i, d);
              && HoldsNode(pages[p].body, t')
              && HoldsNode(pages[child].body, t'.kids[d]) && HoldsNode(pages[right].body, t'.kids[i + 1])
    {
      var borrowKey := pages[p].body.keys[i];
      assert borrowKey == pages[p].body.keys[..pages[p].body.count][i];
      var firstChild := pages[right].body.children[0];
      AppendChild(child, borrowKey, firstChild, t.kids[d], t.kids[i + 1].kids[0]);
      DropFirstChild(right, t.kids[i + 1]);
      assert pages[right].body.keys[0] == pages[right].body.keys[..pages[right].body.count][0];
      SetKey(p, i, pages[right].body.keys[0]);
    }

    /** Appends the entries of leaf `r` to leaf `l` and takes `r` out of the chain. */
    method AppendLeaf(l: int, r: int, ghost a: seq<Entry>, ghost b: seq<Entry>)
      requires 0 <= l < |pages| && 0 <= r < |pages| && l != r
      requires HoldsNode(pages[l].body, Leaf(l, a)) && HoldsNode(pages[r].body, Leaf(r, b))
      requires |a| + |b| <= LEAF_ORDER
      requires pages[r].next == -1 || 0 <= pages[r].next < |pages|
      modifies this`pages
      ensures SameBodies(old(pages), pages, {l})
      ensures HoldsNode(pages[l].body, Leaf(l, a + b))
      ensures LinkedOut(old(pages), pages, l, r)
    {
      for i := 0 to pages[r].body.count
        invariant BodiesOnly(old(pages), pages, {l})
        invariant pages[l].body.LeafBody? && pages[l].body.count == |a| && |pages[l].body.slots| == LEAF_ORDER
        invariant forall j | 0 <= j < |a| :: pages[l].body.slots[j] == a[j]
        invariant forall j | 0 <= j < i :: pages[l].body.slots[|a| + j] == b[j]
      {
        assert pages[r].body.slots[..pages[r].body.count][i] == b[i];
        SetEntry(l, pages[l].body.count + i, pages[r].body.slots[i]);
      }
      SetCount(l, pages[l].body.count + pages[r].body.count);
      assert pages[l].body.slots[..|a| + |b|] == a + b;
      SetNext(l, pages[r].next);
      if pages[r].next != -1 {
        SetPrev(pages[r].next, l);
      }
    }

    /** Appends a separator and the children of node `r` to node `l`. */
    method AppendNode(l: int, r: int, separator: int, ghost a: Tree, ghost b: Tree)
      requires 0 <= l < |pages| && 0 <= r < |pages| && l != r
      requires a.Node? && HoldsNode(pages[l].body, a) && b.Node? && HoldsNode(pages[r].body, b)
      requires |a.keys| + 1 + |b.keys| <= INTERNAL_ORDER
      modifies this`pages
      ensures BodiesOnly(old(pages), pages, {l})
      ensures HoldsNode(pages[l].body, Node(a.id, a.keys + [separator] + b.keys, a.kids + b.kids))
    {
      SetKey(l, pages[l].body.count, separator);
      SetChild(l, pages[l].body.count + 1, pages[r].body.children[0]);
      SetCount(l, pages[l].body.count + 1);
      ghost var ks, cs := a.keys + [separator] + b.keys, a.kids + b.kids;
      for i := 0 to pages[r].body.count
        invariant BodiesOnly(old(pages), pages, {l})
        invariant pages[l].body.InternalBody? && pages[l].body.count == |a.keys| + 1 + i
        invariant |pages[l].body.keys| == INTERNAL_ORDER && |pages[l].body.children| == INTERNAL_ORDER + 1
        invariant forall j | 0 <= j < |a.keys| + 1 + i :: pages[l].body.keys[j] == ks[j]
        invariant forall j | 0 <= j <= |a.keys| + 1 + i :: pages[l].body.children[j] == cs[j].id
      {
        assert pages[r].body.keys[..pages[r].body.count][i] == b.keys[i];
        SetKey(l, pages[l].body.count, pages[r].body.keys[i]);
        SetChild(l, pages[l].body.count + 1, pages[r].body.children[i + 1]);
        SetCount(l, pages[l].body.count + 1);
      }
      assert pages[l].body.keys[..|ks|] == ks;
    }

    /** Removes separator `i` and the child to its right from an internal page. */
    method RemoveSeparator(p: int, i: nat, ghost t: Tree, ghost m: Tree)
      requires 0 <= p < |pages| && t.Node? && HoldsNode(pages[p].body, t)
      requires i < |t.keys| && m.id == t.kids[i].id
      modifies this`pages
      ensures BodiesOnly(old(pages), pages, {p})
      ensures HoldsNode(pages[p].body, Node(t.id, RemoveAt(t.keys, i), RemoveAt(t.kids, i + 1)[i := m]))
    {
      ShiftKeysLeft(p, i);
      ShiftedLeft(old(pages[p].body.keys), pages[p].body.keys, |t.keys|, i);
      ShiftChildrenLeft(p, i + 1);
      SetCount(p, pages[p].body.count - 1);
    }

    /**
     Merges child `i + 1` of page `p` into child `i`. Where the code would run past the last slot of
     the page, this stops before writing and says so.
     */
    method MergeChildren(p: int, i: nat, ghost t: Tree) returns (ok: bool)
      requires Holds(pages, t) && NoSharing(t) && t.Node? && t.id == p
      requires i < |t.keys| < |t.kids| && t.kids[i].Leaf? == t.kids[i + 1].Leaf?
      requires LeafLinksExist(pages, t.kids)
      modifies this`pages
      ensures var r := BPlusTreeDelete.MergeChildren(t.id, t.keys, t.kids, i);
              && (ok <==> r.Removed?)
              && (ok ==>
                    && |pages| == old(|pages|) && Holds(pages, r.t)
                    && FramedBy(old(pages), pages, t)
                    && (if t.kids[i].Leaf? then LinkedOut(old(pages), pages, t.kids[i].id, t.kids[i + 1].id)
                        else SameLinks(old(pages), pages)))
    {
      PairIds(t, i, i + 1);
      assert Holds(pages, t.kids[i]) && Holds(pages, t.kids[i + 1]);
      var left, right := pages[p].body.children[i], pages[p].body.children[i + 1];
      ghost var a, b := t.kids[i], t.kids[i + 1];
      ghost var r := BPlusTreeDelete.MergeChildren(t.id, t.keys, t.kids, i);
      if pages[left].body.LeafBody? {
        if pages[left].body.count + pages[right].body.count > LEAF_ORDER {
          return false;
        }
        AppendLeaf(left, right, a.es, b.es);
      } else {
        if pages[left].body.count + 1 + pages[right].body.count > INTERNAL_ORDER {
          return false;
        }
        assert pages[p].body.keys[..pages[p].body.count][i] == t.keys[i];
        AppendNode(left, right, pages[p].body.keys[i], a, b);
      }
      ghost var m := r.t.kids[i];
      assert HoldsNode(pages[left].body, m);
      RemoveSeparator(p, i, t, m);
      MergedHolds(old(pages), pages, t, i);
      KidsUsed(t, i);
      return true;
    }

    method BorrowFromLeft(p: int, i: nat, child: int, left: int, ghost t: Tree, ghost d: nat)
      requires Holds(pages, t) && NoSharing(t) && t.Node? && t.id == p
      requires 0 < i <= |t.keys| < |t.kids| && d < |t.kids| && d != i - 1
      requires t.kids[d].id == child && t.kids[i - 1].id == left && t.kids[i - 1].Leaf? == t.kids[d].Leaf?
      requires t.kids[i - 1].Count() >= 1 && t.kids[d].Count() < MIN_KEYS
      modifies this`pages
      ensures |pages| == old(|pages|) && FramedBy(old(pages), pages, t) && SameLinks(old(pages), pages)
      ensures t.kids[i - 1].Node? ==> |t.kids[i - 1].kids| == |t.kids[i - 1].keys| + 1
      ensures Holds(pages, BPlusTreeDelete.BorrowFromLeft(t.id, t.keys, t.kids, i, d))
    {
      hide Holds, NoSharing, BodiesOnly, FramedBy, MadeFrom, SameLinks, HoldsNode, BPlusTreeDelete.BorrowFromLeft;
      PairHeld(pages, t, i - 1, d);
      if pages[child].body.LeafBody? {
        BorrowEntryFromLeft(p, i, child, left, t, d);
      } else {
        BorrowChildFromLeft(p, i, child, left, t, d);
      }
      ghost var t' := BPlusTreeDelete.BorrowFromLeft(t.id, t.keys, t.kids, i, d);
      assert {p, child, left} == {t.id, t.kids[d].id, t.kids[i - 1].id};
      BorrowedLeftMade(pages, t, i, d);
      BorrowedHolds(old(pages), pages, t, t', i - 1, d);
    }

    method BorrowFromRight(p: int, i: nat, child: int, right: int, ghost t: Tree, ghost d: nat)
      requires Holds(pages, t) && NoSharing(t) && t.Node? && t.id == p
      requires i < |t.keys| < |t.kids| && d < |t.kids| && d != i + 1
      requires t.kids[d].id == child && t.kids[i + 1].id == right && t.kids[i + 1].Leaf? == t.kids[d].Leaf?
      requires t.kids[i + 1].Count() >= 2 && t.kids[d].Count() < MIN_KEYS
      modifies this`pages
      ensures |pages| == old(|pages|) && FramedBy(old(pages), pages, t) && SameLinks(old(pages), pages)
      ensures t.kids[i + 1].Node? ==> |t.kids[i + 1].kids| == |t.kids[i + 1].keys| + 1
      ensures Holds(pages, BPlusTreeDelete.BorrowFromRight(t.id, t.keys, t.kids, i, d))
    {
      hide Holds, NoSharing, BodiesOnly, FramedBy, MadeFrom, SameLinks, HoldsNode, BPlusTreeDelete.BorrowFromRight;
      PairHeld(pages, t, i + 1, d);
      if pages[child].body.LeafBody? {
        BorrowEntryFromRight(p, i, child, right, t, d);
      } else {
        BorrowChildFromRight(p, i, child, right, t, d);
      }
      ghost var t' := BPlusTreeDelete.BorrowFromRight(t.id, t.keys, t.kids, i, d);
      assert {p, child, right} == {t.id, t.kids[d].id, t.kids[i + 1].id};
      BorrowedRightMade(pages, t, i, d);
      BorrowedHolds(old(pages), pages, t, t', i + 1, d);
    }

    method MinKeys(child: int, ghost t: Tree, ghost d: nat) returns (minKeys: int)
      requires Holds(pages, t) && t.Node? && d < |t.kids| && t.kids[d].id == child
      ensures minKeys == MIN_KEYS
    {
      ChildPage(pages, t, d);
      minKeys := if pages[child].body.LeafBody? then LEAF_ORDER / 2 else INTERNAL_ORDER / 2;
    }

    method HasMinKeys(child: int, ghost t: Tree, ghost d: nat) returns (full: bool)
      requires Holds(pages, t) && t.Node? && d < |t.kids| && t.kids[d].id == child
      ensures full <==> t.kids[d].Count() >= MIN_KEYS
    {
      var minKeys := MinKeys(child, t, d);
      ChildPage(pages, t, d);
      full := pages[child].body.count >= minKeys;
    }

    /** Child `i` of page `p` and how many keys it has. */
    method ChildAt(p: int, i: nat, ghost t: Tree) returns (child: int, count: int)
      requires Holds(pages, t) && t.Node? && t.id == p && i < |t.kids|
      ensures child == t.kids[i].id && count == t.kids[i].Count()
    {
      ChildPage(pages, t, i);
      child := pages[p].body.children[i];
      count := pages[child].body.count;
    }

    /** Borrows from the left sibling, or else from the right one, if either has keys to spare. */
    method TryBorrow(p: int, i: nat, child: int, ghost t: Tree, ghost d: nat) returns (done: bool)
      requires Holds(pages, t) && NoSharing(t) && t.Node? && t.id == p
      requires |t.kids| == |t.keys| + 1 && |t.keys| >= 1 && d < |t.kids| && i <= |t.keys|
      requires d == i || d == i + 1
      requires t.kids[d].id == child && t.kids[d].Count() < MIN_KEYS
      requires SameKind(t.kids) && OthersShaped(t.kids, d)
      modifies this`pages
      ensures done <==> Lends(t.keys, t.kids, i)
      ensures !done ==> pages == old(pages)
      ensures done ==>
                var r := BPlusTreeDelete.Rebalance(t.id, t.keys, t.kids, d, i);
                && r.Removed? && |pages| == old(|pages|) && Holds(pages, r.t)
                && FramedBy(old(pages), pages, t) && SameLinks(old(pages), pages)
    {
      hide Holds, HoldsNode, BPlusTreeDelete.BorrowFromLeft, BPlusTreeDelete.BorrowFromRight,
           BPlusTreeDelete.Rebalance, NoSharing, SameLinks, FramedBy, Shape, OthersShaped, SameKind;
      KeyCount(pages, t);
      var minKeys := MinKeys(child, t, d);
      if i > 0 {
        var left, count := ChildAt(p, i - 1, t);
        if count > minKeys {
          LendsLeft(t, d, i);
          BorrowFromLeft(p, i, child, left, t, d);
          return true;
        }
      }
      if i < pages[p].body.count {
        var right, count := ChildAt(p, i + 1, t);
        if count > minKeys {
          LendsRight(t, d, i);
          BorrowFromRight(p, i, child, right, t, d);
          return true;
        }
      }
      return false;
    }

    /** Refills child `child`, whose place the code takes to be `i` though it may be `i + 1`. */
    method Rebalance(p: int, i: nat, child: int, ghost t: Tree, ghost d: nat) returns (ok: bool)
      requires Holds(pages, t) && NoSharing(t) && t.Node? && t.id == p
      requires |t.kids| == |t.keys| + 1 && |t.keys| >= 1 && d < |t.kids| && i <= |t.keys|
      requires d == i || d == i + 1
      requires t.kids[d].id == child && t.kids[d].Count() < MIN_KEYS
      requires SameKind(t.kids) && OthersShaped(t.kids, d)
      requires LeafLinksExist(pages, t.kids)
      modifies this`pages
      ensures var r := BPlusTreeDelete.Rebalance(t.id, t.keys, t.kids, d, i);
              && (ok <==> r.Removed?)
              && (ok ==> |pages| == old(|pages|) && Holds(pages, r.t) && FramedBy(old(pages), pages, t))
      ensures ok ==>
                if t.kids[0].Leaf? && !Lends(t.keys, t.kids, i) then
                  var l := if i > 0 then i - 1 else i;
                  LinkedOut(old(pages), pages, t.kids[l].id, t.kids[l + 1].id)
                else SameLinks(old(pages), pages)
    {
      hide Holds, HoldsNode, BPlusTreeDelete.BorrowFromLeft, BPlusTreeDelete.BorrowFromRight,
           BPlusTreeDelete.MergeChildren, Uses, LinkedOut, SameLinks, FramedBy;
      ok := TryBorrow(p, i, child, t, d);
      if !ok {
        ok := MergeChildren(p, if i > 0 then i - 1 else i, t);
      }
    }

    /** What follows the recursive call: refills child `child` if it fell below half full. */
    method Refill(p: int, k: int, child: int, ghost t: Tree, ghost d: nat) returns (ok: bool)
      requires Holds(pages, t) && NoSharing(t) && t.Node? && t.id == p
      requires |t.kids| == |t.keys| + 1 && |t.keys| >= 1 && d == Descend(t.keys, k)
      requires forall i, j | 0 <= i < j < |t.keys| :: t.keys[i] < t.keys[j]
      requires t.kids[d].id == child && SameKind(t.kids) && OthersShaped(t.kids, d)
      requires LeafLinksExist(pages, t.kids)
      modifies this`pages
      ensures var r := Refilled(t, d, k);
              && (ok <==> r.Removed?)
              && (ok ==> |pages| == old(|pages|) && Holds(pages, r.t) && FramedBy(old(pages), pages, t)
                         && RepairLinks(old(pages), pages, t, d, k))
    {
      hide Holds, HoldsNode, BPlusTreeDelete.Rebalance, Uses, LinkedOut, LeafLinksExist, Shape, OthersShaped,
           FramedBy, SameLinks, NoSharing;
      FrameKept(pages, t);
      var full := HasMinKeys(child, t, d);
      if full {
        return true;
      }
      ChildPage(pages, t, d);
      var idx := FindInNode(p, k, t);
      ok := Rebalance(p, idx, child, t, d);
    }

    method DeleteInLeaf(p: int, k: int, ghost t: Tree, ghost least: int, ghost lo: int, ghost hi: int, ghost h: nat)
      returns (st: Status)
      requires Holds(pages, t) && t.id == p && NoSharing(t) && t.Leaf? && WF(t, least, lo, hi, h) && Shape(t)
      modifies this`pages
      ensures var r := BPlusTreeDelete.DeleteRec(t, k);
              && (r.Missing? <==> st == NotFound) && (r.Overrun? <==> st == PageOverrun)
              && (st == NotFound ==> pages == old(pages))
              && (st == Deleted ==>
                    && |pages| == old(|pages|) && Holds(pages, r.t) && FramedBy(old(pages), pages, t)
                    && LinksAfter(old(pages), pages, Leaves(t), MergeSpot(t, k)))
    {
      var found := DeleteFromLeaf(p, k, t.es);
      return if found then Deleted else NotFound;
    }

    method DeleteRec(p: int, k: int, ghost t: Tree, ghost least: int, ghost lo: int, ghost hi: int, ghost h: nat)
      returns (st: Status)
      requires Holds(pages, t) && t.id == p && NoSharing(t)
      requires WF(t, least, lo, hi, h) && Shape(t) && lo <= k < hi
      requires LeafLinksExist(pages, Leaves(t))
      modifies this`pages
      ensures var r := BPlusTreeDelete.DeleteRec(t, k);
              && (r.Missing? <==> st == NotFound) && (r.Overrun? <==> st == PageOverrun)
              && (st == NotFound ==> pages == old(pages))
              && (st == Deleted ==>
                    && |pages| == old(|pages|) && Holds(pages, r.t) && FramedBy(old(pages), pages, t)
                    && LinksAfter(old(pages), pages, Leaves(t), MergeSpot(t, k)))
      decreases h
    {
      hide Holds, HoldsNode, NoSharing, LinkedOut, LinksAfter, RepairLinks, LeafLinksExist, FramedBy, MergeSpot,
           Leaves, Refilled, BPlusTreeDelete.Rebalance, BPlusTreeDelete.DeleteRec, WF, Shape, SameKind, OthersShaped;
      KindOfPage(pages, t);
      if pages[p].body.LeafBody? {
        st := DeleteInLeaf(p, k, t, least, lo, hi, h);
        return;
      }
      BelowNode(t, least, lo, hi, h, k);
      ChildHeld(pages, t, Descend(t.keys, k));
      ghost var d := Descend(t.keys, k);
      ghost var c, before := t.kids[d], pages;
      Apart(t, d);
      LinksBelow(pages, t, d);
      ChildPage(pages, t, d);
      var child := ChildFor(p, k, t);
      st := DeleteRec(child, k, c, MIN_KEYS, LoBound(t.keys, d, lo), HiBound(t.keys, d, hi), h - 1);
      RefilledIs(t, k);
      if st != Deleted {
        return;
      }
      ghost var c', mid := BPlusTreeDelete.DeleteRec(c, k).t, pages;
      ghost var t1 := Node(p, t.keys, t.kids[d := c']);
      ChildRewritten(before, mid, t, d, k, c');
      LinksMidway(before, mid, t, d, k, c');
      var ok := Refill(p, k, child, t1, d);
      if !ok {
        return PageOverrun;
      }
      FramedTwice(before, mid, pages, t, t1);
      LinksUp(before, mid, pages, t, d, k, c');
      return Deleted;
    }

    /** The pages' side of a deletion. */
    method DeletePages(k: int, ghost t: Tree, ghost h: nat) returns (st: Status)
      requires Represents(pages, rootPageId, t, h) && storedRoot == rootPageId && 0 <= k < Limit()
      modifies this`pages, this`rootPageId, this`storedRoot
      ensures var r := BPlusTreeDelete.Delete(t, k);
              && (r.Missing? <==> st == NotFound) && (r.Overrun? <==> st == PageOverrun)
              && (st == NotFound ==> pages == old(pages) && rootPageId == old(rootPageId) && storedRoot == old(storedRoot))
              && (st == Deleted ==>
                    && |pages| == old(|pages|) && Holds(pages, r.t) && storedRoot == rootPageId == r.t.id
                    && LinksAfter(old(pages), pages, Leaves(t), MergeSpot(t, k)))
    {
      ChainLinksExist(pages, Leaves(t));
      var root := rootPageId;
      st := DeleteRec(root, k, t, if t.Leaf? then 0 else 1, 0, Limit(), h);
      DeleteRecIds(t, k, 0);
      if st == Deleted && pages[root].body.InternalBody? && pages[root].body.count == 0 {
        ghost var t' := BPlusTreeDelete.DeleteRec(t, k).t;
        assert Holds(pages, t'.kids[0]);
        rootPageId := pages[root].body.children[0];
        storedRoot := rootPageId;
      }
    }

    /**
     Removes the entry under `k`. The index is whole afterwards and lacks exactly that entry if and only
     if no guard of a broken branch held; otherwise it is left broken, or a page was about to overrun.
     */
    method Delete(k: int) returns (st: Status)
      requires Valid() && 0 <= k < Limit()
      modifies this
      ensures !Fault(old(tree), k) ==>
                && Valid() && Contents() == old(Contents()) - {k}
                && st == (if k in old(Contents()) then Deleted else NotFound)
      ensures Fault(old(tree), k) ==>
                && k in old(Contents()) && st != NotFound
                && (st == Deleted ==> Holds(pages, tree) && rootPageId == tree.id
                                      && forall h: nat :: !Represents(pages, rootPageId, tree, h))
      ensures st == Deleted ==> BPlusTreeDelete.Delete(old(tree), k) == Removed(tree)
    {
      hide Represents, MapOf, Fault, Holds, BPlusTreeDelete.Delete;
      ghost var t, ps, root, h := tree, pages, rootPageId, height;
      RepresentsSorted(ps, root, t, h);
      MapOfHasKey(Flat(t), k);
      DeleteMeaning(ps, root, t, h, k);
      st := DeletePages(k, t, h);
      if st == Deleted {
        tree := BPlusTreeDelete.Delete(t, k).t;
        if Fault(t, k) {
          StaysBroken(pages, rootPageId, tree);
        } else {
          height := DeleteRepresents(ps, pages, root, t, h, k);
          RepresentsSorted(pages, rootPageId, tree, height);
          RemoveSorted(Flat(t), k);
          MapOfRemove(Flat(t), k);
        }
      }
    }
  }

  /** Linking a page in looks the same from a store with the same links. */
  lemma LinkedFrom(before: seq<Page>, ps: seq<Page>, ps': seq<Page>, p: int, q: int)
    requires BodiesOnly(before, ps, {p}) && LinkedIn(ps, ps', p, q)
    ensures LinkedIn(before, ps', p, q)
  {
  }

  lemma RootIsWhole(ps: seq<Page>, root: int, t: Tree, h: nat)
    requires Represents(ps, root, t, h)
    ensures Holds(ps, t) && t.id == root && NoSharing(t) && Shape(t) && Chain(ps, Leaves(t)) && WF(t, if t.Leaf? then 0 else 1, 0, Limit(), h)
  {
  }

  /** A step that leaves all links alone does not disturb what was said of them before. */
  lemma SameLinksAfter(ps: seq<Page>, mid: seq<Page>, fin: seq<Page>, p: int, q: int)
    requires SameLinks(mid, fin)
    ensures SameLinks(ps, mid) ==> SameLinks(ps, fin)
    ensures LinkedIn(ps, mid, p, q) ==> LinkedIn(ps, fin, p, q)
  {
  }

  lemma KindOfPage(ps: seq<Page>, t: Tree)
    requires Holds(ps, t)
    ensures 0 <= t.id < |ps| && ps[t.id].body.LeafBody? == t.Leaf?
  {
  }

  lemma ChildHeld(ps: seq<Page>, t: Tree, d: nat)
    requires Holds(ps, t) && t.Node? && d < |t.kids|
    ensures Holds(ps, t.kids[d])
  {
  }

  /** What a search for `k` finds at a node: the child it goes to is whole, and `k` is in its range. */
  lemma BelowNode(t: Tree, least: int, lo: int, hi: int, h: nat, k: int)
    requires WF(t, least, lo, hi, h) && Shape(t) && t.Node? && lo <= k < hi
    ensures h > 0 && |t.kids| == |t.keys| + 1 && |t.keys| >= 1
    ensures forall i, j | 0 <= i < j < |t.keys| :: t.keys[i] < t.keys[j]
    ensures var d := Descend(t.keys, k);
            && LoBound(t.keys, d, lo) <= k < HiBound(t.keys, d, hi) && Shape(t.kids[d])
            && WF(t.kids[d], MIN_KEYS, LoBound(t.keys, d, lo), HiBound(t.keys, d, hi), h - 1)
  {
    SandwichRanges(t.keys, t.kids, lo, hi, h - 1, k);
  }

  lemma FrameKept(ps: seq<Page>, t: Tree)
    ensures FramedBy(ps, ps, t) && SameLinks(ps, ps)
  {
  }

  lemma KeyCount(ps: seq<Page>, t: Tree)
    requires Holds(ps, t) && t.Node?
    ensures 0 <= t.id < |ps| && ps[t.id].body.InternalBody? && ps[t.id].body.count == |t.keys|
  {
  }

  lemma LendsLeft(t: Tree, d: nat, i: nat)
    requires t.Node? && |t.kids| == |t.keys| + 1 && |t.keys| >= 1 && d < |t.kids| && i <= |t.keys|
    requires (d == i || d == i + 1) && t.kids[d].Count() < MIN_KEYS
    requires SameKind(t.kids) && OthersShaped(t.kids, d)
    requires i > 0 && t.kids[i - 1].Count() > MIN_KEYS
    ensures t.kids[i - 1].Leaf? == t.kids[d].Leaf? && Shape(t.kids[i - 1])
    ensures t.kids[i - 1].Node? ==> |t.kids[i - 1].kids| == |t.kids[i - 1].keys| + 1
    ensures BPlusTreeDelete.Rebalance(t.id, t.keys, t.kids, d, i)
         == Removed(BPlusTreeDelete.BorrowFromLeft(t.id, t.keys, t.kids, i, d))
  {
    hide BPlusTreeDelete.BorrowFromLeft, BPlusTreeDelete.BorrowFromRight, BPlusTreeDelete.MergeChildren;
  }

  lemma LendsRight(t: Tree, d: nat, i: nat)
    requires t.Node? && |t.kids| == |t.keys| + 1 && |t.keys| >= 1 && d < |t.kids| && i <= |t.keys|
    requires (d == i || d == i + 1) && t.kids[d].Count() < MIN_KEYS
    requires SameKind(t.kids) && OthersShaped(t.kids, d)
    requires !(i > 0 && t.kids[i - 1].Count() > MIN_KEYS)
    requires i < |t.keys| && t.kids[i + 1].Count() > MIN_KEYS
    ensures t.kids[i + 1].Leaf? == t.kids[d].Leaf? && Shape(t.kids[i + 1])
    ensures t.kids[i + 1].Node? ==> |t.kids[i + 1].kids| == |t.kids[i + 1].keys| + 1
    ensures BPlusTreeDelete.Rebalance(t.id, t.keys, t.kids, d, i)
         == Removed(BPlusTreeDelete.BorrowFromRight(t.id, t.keys, t.kids, i, d))
  {
    hide BPlusTreeDelete.BorrowFromLeft, BPlusTreeDelete.BorrowFromRight, BPlusTreeDelete.MergeChildren;
  }

  /** The value-level theorem about deletion, for the tree a store of pages represents. */
  lemma DeleteMeaning(ps: seq<Page>, root: int, t: Tree, h: nat, k: int)
    requires Represents(ps, root, t, h) && 0 <= k < Limit()
    ensures var r := BPlusTreeDelete.Delete(t, k);
            if Fault(t, k) then
              && HasKey(Flat(t), k) && !r.Missing?
              && (r.Removed? ==> forall h': nat :: !RootWF(r.t, 0, Limit(), h'))
            else !r.Overrun? && (r.Removed? <==> HasKey(Flat(t), k))
  {
    if Fault(t, k) {
      DeleteUnsound(t, k, 0, Limit(), h);
      FaultHasKey(t, k, if t.Leaf? then 0 else 1, 0, Limit(), h);
    } else {
      DeleteSound(t, k, 0, Limit(), h);
    }
  }

  lemma StaysBroken(ps: seq<Page>, root: int, t: Tree)
    requires forall h: nat :: !RootWF(t, 0, Limit(), h)
    ensures forall h: nat :: !Represents(ps, root, t, h)
  {
  }

  lemma ChainLinksExist(ps: seq<Page>, leaves: seq<Tree>)
    requires Chain(ps, leaves)
    ensures LeafLinksExist(ps, leaves)
  {
    forall j | 0 <= j < |leaves|
      ensures 0 <= leaves[j].id < |ps| && (ps[leaves[j].id].next == -1 || 0 <= ps[leaves[j].id].next < |ps|)
    {
      assert Linked(ps, leaves, j);
      assert j + 1 < |leaves| ==> Linked(ps, leaves, j + 1);
    }
  }

  lemma DeleteRepresents(ps: seq<Page>, ps': seq<Page>, root: int, t: Tree, h: nat, k: int) returns (h': nat)
    requires Represents(ps, root, t, h) && 0 <= k < Limit() && !Fault(t, k)
    requires BPlusTreeDelete.Delete(t, k).Removed?
    requires |ps| == |ps'| && Holds(ps', BPlusTreeDelete.Delete(t, k).t)
    requires LinksAfter(ps, ps', Leaves(t), MergeSpot(t, k))
    ensures var t' := BPlusTreeDelete.Delete(t, k).t;
            Represents(ps', t'.id, t', h') && Flat(t') == SortedRemove(Flat(t), k)
  {
    var t' := BPlusTreeDelete.Delete(t, k).t;
    DeleteSound(t, k, 0, Limit(), h);
    h' :| RootWF(t', 0, Limit(), h');
    ShapeOfWF(t', if t'.Leaf? then 0 else 1, 0, Limit(), h');
    DeleteNoSharing(t, k);
    DeleteChain(ps, ps', t, h, k);
  }

  lemma DeleteNoSharing(t: Tree, k: int)
    requires Shape(t) && NoSharing(t) && BPlusTreeDelete.Delete(t, k).Removed?
    ensures NoSharing(BPlusTreeDelete.Delete(t, k).t)
  {
    var r := BPlusTreeDelete.DeleteRec(t, k).t;
    forall x ensures Uses(r, x) <= 1 {
      DeleteRecIds(t, k, x);
      assert Uses(t, x) <= 1;
    }
    if r.Node? && |r.kids| == 1 {
      Apart(r, 0);
    }
  }

  lemma DeleteChain(ps: seq<Page>, ps': seq<Page>, t: Tree, h: nat, k: int)
    requires Represents(ps, t.id, t, h) && 0 <= k < Limit() && !Fault(t, k)
    requires BPlusTreeDelete.Delete(t, k).Removed? && |ps| == |ps'|
    requires LinksAfter(ps, ps', Leaves(t), MergeSpot(t, k))
    ensures Chain(ps', Leaves(BPlusTreeDelete.Delete(t, k).t))
  {
    var r, s := BPlusTreeDelete.DeleteRec(t, k).t, MergeSpot(t, k);
    DeleteRecLeafIds(t, k, if t.Leaf? then 0 else 1, 0, Limit(), h);
    LeavesDistinct(t);
    if s >= 0 {
      ChainAfterMerge(ps, ps', Leaves(t), Leaves(r), s);
    } else {
      ChainSameIds(ps, ps', Leaves(t), Leaves(r));
    }
    if r.Node? && |r.kids| == 1 {
      FlatOfOne(r.kids[0]);
      assert r.kids == [r.kids[0]];
    }
  }

  lemma {:induction false} FaultHasKey(t: Tree, k: int, least: int, lo: int, hi: int, h: nat)
    requires WF(t, least, lo, hi, h) && Shape(t) && lo <= k < hi
    requires Fault(t, k) || Shrinks(t, k)
    ensures HasKey(Flat(t), k)
    decreases h
  {
    if t.Leaf? {
      FlatLeaf(t);
    } else {
      var d := Descend(t.keys, k);
      var lo', hi' := LoBound(t.keys, d, lo), HiBound(t.keys, d, hi);
      Sandwich(t.keys, t.kids, lo, hi, h - 1, k);
      assert WF(t.kids[d], MIN_KEYS, lo', hi', h - 1);
      FaultHasKey(t.kids[d], k, MIN_KEYS, lo', hi', h - 1);
      FlatSorted(t.kids[d], MIN_KEYS, lo', hi', h - 1);
      LeafPosBetween(FlatOf(t.kids[..d]), Flat(t.kids[d]), FlatOf(t.kids[d + 1..]), k);
    }
  }

  function Refilled(t: Tree, d: nat, k: int): Removal
    requires t.Node? && |t.kids| == |t.keys| + 1 && |t.keys| >= 1 && d == Descend(t.keys, k)
    requires SameKind(t.kids) && OthersShaped(t.kids, d)
  {
    if t.kids[d].Count() >= MIN_KEYS then Removed(t)
    else BPlusTreeDelete.Rebalance(t.id, t.keys, t.kids, d, LowerBound(t.keys, k))
  }

  ghost predicate RepairLinks(ps: seq<Page>, ps': seq<Page>, t: Tree, d: nat, k: int)
    requires t.Node? && |t.kids| == |t.keys| + 1 && |t.keys| >= 1 && d < |t.kids|
  {
    var i := LowerBound(t.keys, k);
    if t.kids[d].Leaf? && t.kids[d].Count() < MIN_KEYS && !Lends(t.keys, t.kids, i) then
      var l := if i > 0 then i - 1 else i;
      LinkedOut(ps, ps', t.kids[l].id, t.kids[l + 1].id)
    else SameLinks(ps, ps')
  }

  lemma RefilledIs(t: Tree, k: int)
    requires Shape(t) && t.Node?
    ensures var d := Descend(t.keys, k);
            var r := BPlusTreeDelete.DeleteRec(t.kids[d], k);
            if r.Removed? then
              var t1 := Node(t.id, t.keys, t.kids[d := r.t]);
              SameKind(t1.kids) && OthersShaped(t1.kids, d) && BPlusTreeDelete.DeleteRec(t, k) == Refilled(t1, d, k)
              && !Refilled(t1, d, k).Missing?
            else BPlusTreeDelete.DeleteRec(t, k) == r
  {
  }

  lemma FramedTwice(ps: seq<Page>, mid: seq<Page>, fin: seq<Page>, t: Tree, t1: Tree)
    requires FramedBy(ps, mid, t) && FramedBy(mid, fin, t1) && |ps| == |mid|
    requires forall x :: Uses(t1, x) <= Uses(t, x)
    ensures FramedBy(ps, fin, t)
  {
  }

  /** The links after a deletion: unchanged, or with the leaf merged away taken out. */
  ghost predicate LinksAfter(ps: seq<Page>, ps': seq<Page>, leaves: seq<Tree>, spot: int) {
    if 0 <= spot < |leaves| - 1 then LinkedOut(ps, ps', leaves[spot].id, leaves[spot + 1].id)
    else SameLinks(ps, ps')
  }

  lemma LinksBelow(ps: seq<Page>, t: Tree, d: nat)
    requires t.Node? && LeafLinksExist(ps, Leaves(t)) && d < |t.kids|
    ensures LeafLinksExist(ps, Leaves(t.kids[d]))
  {
    hide LeavesOf;
    LeavesOfSplit(t.kids, d);
    var a, m, b := LeavesOf(t.kids[..d]), Leaves(t.kids[d]), LeavesOf(t.kids[d + 1..]);
    assert forall j | 0 <= j < |m| :: m[j] == (a + m + b)[|a| + j];
  }

  /** Before a repair at this level, the leaves' links still lead to pages that exist. */
  lemma LinksMidway(ps: seq<Page>, mid: seq<Page>, t: Tree, d: nat, k: int, c: Tree)
    requires Holds(ps, t) && t.Node? && Shape(t) && d < |t.kids|
    requires LeafLinksExist(ps, Leaves(t))
    requires BPlusTreeDelete.DeleteRec(t.kids[d], k) == Removed(c) && c.id == t.kids[d].id
    requires |mid| == |ps| && LinksAfter(ps, mid, Leaves(t.kids[d]), MergeSpot(t.kids[d], k))
    ensures LeafLinksExist(mid, t.kids[d := c])
  {
    if t.kids[0].Leaf? {
      LeavesOfLeaves(t.kids);
    } else {
      assert forall j | 0 <= j < |t.kids| :: t.kids[j].Node?;
    }
  }

  /** The links of this level, from those below and what the repair did. */
  lemma LinksUp(ps: seq<Page>, mid: seq<Page>, fin: seq<Page>, t: Tree, d: nat, k: int, c: Tree)
    requires t.Node? && Shape(t) && d == Descend(t.keys, k)
    requires BPlusTreeDelete.DeleteRec(t.kids[d], k) == Removed(c) && c.id == t.kids[d].id
    requires |ps| == |mid| == |fin| && LinksAfter(ps, mid, Leaves(t.kids[d]), MergeSpot(t.kids[d], k))
    requires RepairLinks(mid, fin, Node(t.id, t.keys, t.kids[d := c]), d, k)
    ensures LinksAfter(ps, fin, Leaves(t), MergeSpot(t, k))
  {
    if t.kids[d].Leaf? {
      LinksAtLeaves(ps, mid, fin, t, d, k, c);
    } else {
      var s := MergeSpot(t.kids[d], k);
      MergeSpotInside(t.kids[d], k);
      assert SameLinks(mid, fin);
      LinksKeptOn(ps, mid, fin, Leaves(t.kids[d]), s);
      LinksHigher(ps, fin, t.kids, d, s);
    }
  }

  lemma LinksKeptOn(ps: seq<Page>, mid: seq<Page>, fin: seq<Page>, leaves: seq<Tree>, s: int)
    requires |ps| == |mid| == |fin| && LinksAfter(ps, mid, leaves, s) && SameLinks(mid, fin)
    ensures LinksAfter(ps, fin, leaves, s)
  {
  }

  lemma LinksAtLeaves(ps: seq<Page>, mid: seq<Page>, fin: seq<Page>, t: Tree, d: nat, k: int, c: Tree)
    requires t.Node? && Shape(t) && d == Descend(t.keys, k) && t.kids[d].Leaf?
    requires BPlusTreeDelete.DeleteRec(t.kids[d], k) == Removed(c) && c.id == t.kids[d].id
    requires |ps| == |mid| == |fin| && LinksAfter(ps, mid, Leaves(t.kids[d]), MergeSpot(t.kids[d], k))
    requires RepairLinks(mid, fin, Node(t.id, t.keys, t.kids[d := c]), d, k)
    ensures LinksAfter(ps, fin, Leaves(t), MergeSpot(t, k))
  {
    LeavesOfLeaves(t.kids);
    var i := LowerBound(t.keys, k);
    assert SameLinks(ps, mid);
    assert HasKey(t.kids[d].es, k) && c.Count() == t.kids[d].Count() - 1;
    assert c.Count() < MIN_KEYS <==> Underflows(t.kids[d], k);
    assert c.Count() < MIN_KEYS ==> Lends(t.keys, t.kids[d := c], i) == Lends(t.keys, t.kids, i);
    var l := if i > 0 then i - 1 else i;
    assert t.kids[d := c][l].id == t.kids[l].id && t.kids[d := c][l + 1].id == t.kids[l + 1].id;
  }

  lemma LinksHigher(ps: seq<Page>, fin: seq<Page>, kids: seq<Tree>, d: nat, s: int)
    requires d < |kids|
    requires LinksAfter(ps, fin, Leaves(kids[d]), s)
    requires s >= 0 ==> s + 1 < |Leaves(kids[d])|
    ensures LinksAfter(ps, fin, LeavesOf(kids), if s < 0 then -1 else |LeavesOf(kids[..d])| + s)
  {
    LeavesOfSplit(kids, d);
  }

  lemma ChildRewritten(ps: seq<Page>, ps': seq<Page>, t: Tree, d: nat, k: int, c: Tree)
    requires Holds(ps, t) && NoSharing(t) && t.Node? && Shape(t) && d < |t.kids|
    requires BPlusTreeDelete.DeleteRec(t.kids[d], k) == Removed(c)
    requires |ps'| == |ps| && Holds(ps', c) && FramedBy(ps, ps', t.kids[d])
    ensures var t1 := Node(t.id, t.keys, t.kids[d := c]);
            && Holds(ps', t1) && NoSharing(t1) && FramedBy(ps, ps', t) && c.id == t.kids[d].id
            && forall x :: Uses(t1, x) <= Uses(t, x)
  {
    var t1 := Node(t.id, t.keys, t.kids[d := c]);
    Apart(t, d);
    DeleteRecIds(t.kids[d], k, 0);
    forall j | 0 <= j < |t1.kids| ensures Holds(ps', t1.kids[j]) {
      if j != d {
        HoldsFrame(ps, ps', t.kids[j]);
      }
    }
    forall x ensures Uses(t1, x) <= Uses(t, x) <= 1 {
      DeleteRecIds(t.kids[d], k, x);
      UsesOfReplace(t.kids, d, c, x);
      assert Uses(t, x) <= 1;
    }
    forall q | 0 <= q < |ps| && Uses(t, q) == 0 ensures ps'[q].body == ps[q].body {
      UsesOfSplit(t.kids, d, q);
    }
  }

  /** What the code reads of child `j` and its page. */
  lemma ChildPage(ps: seq<Page>, t: Tree, j: nat)
    requires Holds(ps, t) && t.Node? && j < |t.kids|
    ensures 0 <= t.id < |ps| && ps[t.id].body.InternalBody? && ps[t.id].body.count == |t.keys|
    ensures j < |ps[t.id].body.children| && ps[t.id].body.children[j] == t.kids[j].id
    ensures 0 <= t.kids[j].id < |ps|
    ensures ps[t.kids[j].id].body.LeafBody? == t.kids[j].Leaf?
    ensures ps[t.kids[j].id].body.count == t.kids[j].Count()
    ensures HoldsNode(ps[t.id].body, t) && HoldsNode(ps[t.kids[j].id].body, t.kids[j])
    ensures t.kids[j].Node? ==> |t.kids[j].kids| == |t.kids[j].keys| + 1
  {
    assert Holds(ps, t.kids[j]);
  }

  /** The links of leaf children lead to pages that exist. */
  ghost predicate LeafLinksExist(ps: seq<Page>, kids: seq<Tree>) {
    forall j | 0 <= j < |kids| && kids[j].Leaf? && 0 <= kids[j].id < |ps| ::
      ps[kids[j].id].next == -1 || 0 <= ps[kids[j].id].next < |ps|
  }

  /** Only pages of `t` have other bodies than before. */
  ghost predicate FramedBy(ps: seq<Page>, ps': seq<Page>, t: Tree) {
    && |ps| <= |ps'|
    && forall q | 0 <= q < |ps| && Uses(t, q) == 0 :: ps'[q].body == ps[q].body
  }

  lemma KidsUsed(t: Tree, a: nat)
    requires t.Node? && a < |t.kids|
    ensures Uses(t, t.id) > 0 && Uses(t, t.kids[a].id) > 0
  {
    UsesOfSplit(t.kids, a, t.kids[a].id);
  }

  lemma BorrowedLeftMade(ps: seq<Page>, t: Tree, i: nat, d: nat)
    requires t.Node? && 0 < i <= |t.keys| < |t.kids| && d < |t.kids| && d != i - 1
    requires t.kids[i - 1].Leaf? == t.kids[d].Leaf? && t.kids[i - 1].Count() >= 1
    requires t.kids[i - 1].Node? ==> |t.kids[i - 1].kids| == |t.kids[i - 1].keys| + 1
    requires 0 <= t.kids[d].id < |ps| && 0 <= t.kids[i - 1].id < |ps|
    requires var t' := BPlusTreeDelete.BorrowFromLeft(t.id, t.keys, t.kids, i, d);
             HoldsNode(ps[t.kids[d].id].body, t'.kids[d]) && HoldsNode(ps[t.kids[i - 1].id].body, t'.kids[i - 1])
    ensures var t' := BPlusTreeDelete.BorrowFromLeft(t.id, t.keys, t.kids, i, d);
            && t'.Node? && t'.id == t.id && |t'.kids| == |t.kids|
            && t'.kids == t.kids[i - 1 := t'.kids[i - 1]][d := t'.kids[d]]
            && MadeFrom(ps, t'.kids[i - 1], t.kids[i - 1], t.kids[d])
            && MadeFrom(ps, t'.kids[d], t.kids[i - 1], t.kids[d])
  {
  }

  lemma BorrowedRightMade(ps: seq<Page>, t: Tree, i: nat, d: nat)
    requires t.Node? && i < |t.keys| < |t.kids| && d < |t.kids| && d != i + 1
    requires t.kids[i + 1].Leaf? == t.kids[d].Leaf? && t.kids[i + 1].Count() >= 2
    requires t.kids[i + 1].Node? ==> |t.kids[i + 1].kids| == |t.kids[i + 1].keys| + 1
    requires 0 <= t.kids[d].id < |ps| && 0 <= t.kids[i + 1].id < |ps|
    requires var t' := BPlusTreeDelete.BorrowFromRight(t.id, t.keys, t.kids, i, d);
             HoldsNode(ps[t.kids[d].id].body, t'.kids[d]) && HoldsNode(ps[t.kids[i + 1].id].body, t'.kids[i + 1])
    ensures var t' := BPlusTreeDelete.BorrowFromRight(t.id, t.keys, t.kids, i, d);
            && t'.Node? && t'.id == t.id && |t'.kids| == |t.kids|
            && t'.kids == t.kids[i + 1 := t'.kids[i + 1]][d := t'.kids[d]]
            && MadeFrom(ps, t'.kids[i + 1], t.kids[i + 1], t.kids[d])
            && MadeFrom(ps, t'.kids[d], t.kids[i + 1], t.kids[d])
  {
  }

  lemma BorrowedHolds(ps: seq<Page>, ps': seq<Page>, t: Tree, t': Tree, a: nat, d: nat)
    requires Holds(ps, t) && NoSharing(t) && t.Node? && t'.Node?
    requires a < |t.kids| && d < |t.kids| && a != d
    requires BodiesOnly(ps, ps', {t.id, t.kids[d].id, t.kids[a].id})
    requires t'.id == t.id && HoldsNode(ps'[t.id].body, t')
    requires |t'.kids| == |t.kids| && t'.kids == t.kids[a := t'.kids[a]][d := t'.kids[d]]
    requires MadeFrom(ps', t'.kids[a], t.kids[a], t.kids[d]) && MadeFrom(ps', t'.kids[d], t.kids[a], t.kids[d])
    ensures |ps'| == |ps| && Holds(ps', t') && FramedBy(ps, ps', t) && SameLinks(ps, ps')
  {
    forall j | 0 <= j < |t'.kids| ensures Accounted(ps', t, a, d, t'.kids[j]) {
      if j != a && j != d {
        assert t.kids[j] == t'.kids[j];
      }
    }
    RewrittenPair(ps, ps', t, t', a, d);
    KidsUsed(t, a);
    KidsUsed(t, d);
  }

  lemma PairIds(t: Tree, a: nat, b: nat)
    requires t.Node? && NoSharing(t) && a < |t.kids| && b < |t.kids| && a != b
    ensures t.id != t.kids[a].id && t.id != t.kids[b].id && t.kids[a].id != t.kids[b].id
  {
    Apart(t, a);
    Apart(t, b);
    assert Uses(t.kids[a], t.kids[a].id) > 0 && Uses(t.kids[b], t.kids[b].id) > 0;
  }

  /** A page, two of its children, and that these are three different pages. */
  lemma PairHeld(ps: seq<Page>, t: Tree, a: nat, b: nat)
    requires Holds(ps, t) && NoSharing(t) && t.Node? && a < |t.kids| && b < |t.kids| && a != b
    ensures t.id != t.kids[a].id && t.id != t.kids[b].id && t.kids[a].id != t.kids[b].id
    ensures 0 <= t.id < |ps| && 0 <= t.kids[a].id < |ps| && 0 <= t.kids[b].id < |ps|
    ensures HoldsNode(ps[t.id].body, t)
    ensures HoldsNode(ps[t.kids[a].id].body, t.kids[a]) && HoldsNode(ps[t.kids[b].id].body, t.kids[b])
    ensures ps[t.kids[b].id].body.LeafBody? == t.kids[b].Leaf?
    ensures t.kids[a].Node? ==> |t.kids[a].kids| == |t.kids[a].keys| + 1
  {
    PairIds(t, a, b);
    ChildPage(ps, t, a);
    ChildPage(ps, t, b);
  }

  lemma MergedHolds(ps: seq<Page>, ps': seq<Page>, t: Tree, i: nat)
    requires Holds(ps, t) && NoSharing(t) && t.Node?
    requires i < |t.keys| < |t.kids| && t.kids[i].Leaf? == t.kids[i + 1].Leaf?
    requires var r := BPlusTreeDelete.MergeChildren(t.id, t.keys, t.kids, i);
             && r.Removed?
             && SameBodies(ps, ps', {t.id, t.kids[i].id})
             && 0 <= t.kids[i].id < |ps|
             && HoldsNode(ps'[t.id].body, r.t)
             && HoldsNode(ps'[t.kids[i].id].body, r.t.kids[i])
    ensures Holds(ps', BPlusTreeDelete.MergeChildren(t.id, t.keys, t.kids, i).t)
  {
    var t' := BPlusTreeDelete.MergeChildren(t.id, t.keys, t.kids, i).t;
    forall j | 0 <= j < |t'.kids| ensures Accounted(ps', t, i, i + 1, t'.kids[j]) {
      if j < i {
        assert t.kids[j] == t'.kids[j];
      } else if j == i {
        assert MadeFrom(ps', t'.kids[j], t.kids[i], t.kids[i + 1]);
      } else {
        assert t.kids[j + 1] == t'.kids[j];
      }
    }
    RewrittenPair(ps, ps', t, t', i, i + 1);
  }

  lemma NextOfLeaf(ps: seq<Page>, t: Tree, k: int)
    requires Shape(t) && Chain(ps, Leaves(t))
    ensures var x := LeafFor(t, k).id;
            0 <= x < |ps| && (ps[x].next == -1 || 0 <= ps[x].next < |ps|)
  {
    var x := LeafIndex(t, k);
    LeafIndexFinds(t, k);
    assert Linked(ps, Leaves(t), x);
    assert x + 1 < |Leaves(t)| ==> Linked(ps, Leaves(t), x + 1);
  }

  lemma ChainAfterInsert(ps: seq<Page>, ps': seq<Page>, t: Tree, e: Entry)
    requires Shape(t) && NoSharing(t) && Chain(ps, Leaves(t))
    requires Replaced(Leaves(t), LeafIndex(t, e.key), LeafParts(LeafFor(t, e.key), e, |ps|),
                      Leaves(Insert(t, e, |ps|).0))
    requires if |LeafFor(t, e.key).es| < LEAF_ORDER then SameLinks(ps, ps')
             else LinkedIn(ps, ps', LeafFor(t, e.key).id, |ps|)
    ensures Chain(ps', Leaves(Insert(t, e, |ps|).0))
  {
    var x, leaf := LeafIndex(t, e.key), LeafFor(t, e.key);
    LeafIndexFinds(t, e.key);
    LeavesDistinct(t);
    var parts := LeafParts(leaf, e, |ps|);
    if |leaf.es| < LEAF_ORDER {
      ChainSameIds(ps, ps', Leaves(t), Leaves(t)[..x] + parts + Leaves(t)[x + 1..]);
    } else {
      assert parts == [parts[0], parts[1]];
      ChainAfterSplit(ps, ps', Leaves(t), x, parts[0], parts[1]);
    }
  }

  lemma LinksKept(t: Tree, d: nat, k: int)
    requires Shape(t) && t.Node? && d == Descend(t.keys, k)
    ensures LeafFor(t, k) == LeafFor(t.kids[d], k)
  {
  }

  /** After the recursive call the parent and the other children are as they were. */
  lemma BelowIsApart(ps: seq<Page>, ps': seq<Page>, t: Tree, d: nat, e: Entry, o: Outcome)
    requires Holds(ps, t) && NoSharing(t) && t.Node? && Shape(t) && d == Descend(t.keys, e.key)
    requires o == BPlusTreeInsert.InsertRec(t.kids[d], e, |ps|)
    requires |ps| <= |ps'|
    requires forall q | 0 <= q < |ps| && Uses(t.kids[d], q) == 0 :: ps'[q].body == ps[q].body
    ensures HoldsNode(ps'[t.id].body, t)
    ensures KidsHeld(ps', t.kids, d)
    ensures forall i | 0 <= i < |t.kids| && i != d :: Uses(t.kids[i], t.id) == 0
    ensures OutcomeUses(o, t.id) == 0
    ensures if o.Fits? then o.t.id == t.kids[d].id else o.left.id == t.kids[d].id
  {
    hide NoSharing, BPlusTreeInsert.InsertRec;
    Apart(t, d);
    forall i | 0 <= i < |t.kids| && i != d
      ensures Holds(ps', t.kids[i]) && Uses(t.kids[i], t.id) == 0
    {
      ChildHeld(ps, t, i);
      Apart(t, i);
      HoldsFrame(ps, ps', t.kids[i]);
    }
    InsertRecIds(t.kids[d], e, |ps|, t.id);
    InsertRecRootId(t.kids[d], e, |ps|);
  }
}
