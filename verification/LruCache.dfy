/** The page cache: a doubly linked list between two sentinels, and a map from page ids to its nodes. */
module LruCaches {
  import opened Storage
  import opened LruOrder

  class Node {
    const pageId: int
    var page: Page?
    var next: Node?
    var prev: Node?

    constructor (pageId: int, page: Page?)
      ensures this.pageId == pageId && this.page == page && next == null && prev == null
    {
      this.pageId, this.page := pageId, page;
      next, prev := null, null;
    }
  }

  /** Neighbours in the sequence point at each other. */
  ghost predicate Chained(nodes: seq<Node>)
    reads (set i | 0 <= i < |nodes| :: nodes[i])`next, (set i | 0 <= i < |nodes| :: nodes[i])`prev
  {
    forall i | 0 <= i < |nodes| - 1 :: nodes[i].next == nodes[i + 1] && nodes[i + 1].prev == nodes[i]
  }

  ghost predicate Distinct(nodes: seq<Node>) {
    forall i, j | 0 <= i < j < |nodes| :: nodes[i] != nodes[j]
  }

  ghost function IdsOf(nodes: seq<Node>): (r: seq<int>)
    ensures |r| == |nodes|
    ensures forall i | 0 <= i < |r| :: r[i] == nodes[i].pageId
  {
    seq(|nodes|, i requires 0 <= i < |nodes| => nodes[i].pageId)
  }

  /** Taking node `i` out and putting it in front is one access to its id. */
  lemma RotatedIds(before: seq<Node>, after: seq<Node>, i: nat, capacity: nat)
    requires i < |before| && capacity >= 1 && NoRepeats(IdsOf(before))
    requires after == [before[i]] + (before[..i] + before[i + 1..])
    ensures |after| == |before| && forall n :: n in after <==> n in before
    ensures IdsOf(after) == Touch(IdsOf(before), before[i].pageId, capacity)
  {
    hide NoRepeats, Without;
    var ids := IdsOf(before);
    WithoutAt(ids, i);
    assert ids[i] in ids;
    SameNodes(before, after, i);
    assert IdsOf(after) == [ids[i]] + (ids[..i] + ids[i + 1..]);
  }

  lemma SameNodes(before: seq<Node>, after: seq<Node>, i: nat)
    requires i < |before| && after == [before[i]] + (before[..i] + before[i + 1..])
    ensures |after| == |before| && forall n :: n in after <==> n in before
  {
    assert before == before[..i] + [before[i]] + before[i + 1..];
  }

  /** Dropping the last node and putting a new one in front is an access to an id that was not cached. */
  lemma ReplacedIds(before: seq<Node>, after: seq<Node>, node: Node, capacity: nat)
    requires capacity >= 1 && node.pageId !in IdsOf(before)
    requires after == [node] + (if |before| >= capacity then before[..|before| - 1] else before)
    ensures IdsOf(after) == Touch(IdsOf(before), node.pageId, capacity)
  {
  }

  /** Every node is under its own id in the map, and nothing else is. */
  ghost predicate Indexed(nodes: seq<Node>, cache: map<int, Node>) {
    && |nodes| == |cache|
    && (forall n | n in nodes :: n.pageId in cache && cache[n.pageId] == n)
    && (forall k | k in cache :: cache[k] in nodes && cache[k].pageId == k)
  }

  lemma IndexedWithoutLast(nodes: seq<Node>, cache: map<int, Node>)
    requires Indexed(nodes, cache) && NoRepeats(IdsOf(nodes)) && nodes != []
    ensures Indexed(nodes[..|nodes| - 1], cache - {nodes[|nodes| - 1].pageId})
  {
    var n := |nodes| - 1;
    var last, rest, left := nodes[n], nodes[..n], cache - {nodes[n].pageId};
    assert last in nodes && left.Keys == cache.Keys - {last.pageId};
    forall m | m in rest ensures m in nodes && m.pageId != last.pageId {
      var i :| 0 <= i < n && rest[i] == m;
      assert IdsOf(nodes)[i] != IdsOf(nodes)[n];
    }
    forall k | k in left ensures left[k] in rest {
      assert cache[k] in nodes;
    }
  }

  lemma IndexedWithNew(nodes: seq<Node>, cache: map<int, Node>, node: Node)
    requires Indexed(nodes, cache) && node !in nodes && node.pageId !in cache
    ensures Indexed([node] + nodes, cache[node.pageId := node])
  {
    var all, more := [node] + nodes, cache[node.pageId := node];
    assert more.Keys == cache.Keys + {node.pageId};
    assert forall n :: n in all <==> n == node || n in nodes;
  }

  lemma IndexedAnyOrder(before: seq<Node>, after: seq<Node>, cache: map<int, Node>)
    requires Indexed(before, cache) && |after| == |before| && forall n :: n in after <==> n in before
    ensures Indexed(after, cache)
  {
  }

  ghost function Only(page: Page?): set<Page> {
    if page == null then {} else {page}
  }

  class LruCache {
    const capacity: nat
    var cache: map<int, Node>
    const head: Node
    const tail: Node
    // The file to which an evicted page goes, or null when no one listens.
    const onEvict: PageManager?
    // The nodes between the sentinels, the last used first.
    ghost var order: seq<Node>

    ghost function All(): seq<Node>
      reads this`order
    {
      [head] + order + [tail]
    }

    ghost function Nodes(): set<Node>
      reads this`order
    {
      set n | n in All()
    }

    ghost predicate ListValid()
      reads this`order, Nodes()`next, Nodes()`prev
    {
      Distinct(All()) && Chained(All())
    }

    /** List and map hold the same nodes, each under its own id. */
    ghost predicate Valid()
      reads this, Nodes()
    {
      && capacity >= 1
      && ListValid()
      && |order| <= capacity
      && Indexed(order, cache)
    }

    /** The cached ids, the last used first. */
    ghost function Ids(): seq<int>
      reads this
    {
      IdsOf(order)
    }

    /** The cached pages by id. */
    ghost function PageMap(): map<int, Page?>
      reads this, cache.Values
    {
      map k | k in cache :: cache[k].page
    }

    constructor (capacity: nat, onEvict: PageManager?)
      requires capacity >= 1
      ensures Valid() && fresh(Nodes()) && order == [] && cache == map[]
      ensures this.capacity == capacity && this.onEvict == onEvict
    {
      this.capacity, this.onEvict := capacity, onEvict;
      var h := new Node(-1, null);
      var t := new Node(-1, null);
      head, tail := h, t;
      cache, order := map[], [];
      new;
      head.next := tail;
      tail.prev := head;
    }

    method AddFront(node: Node)
      requires ListValid() && node !in All()
      modifies this`order, Nodes()`next, Nodes()`prev, node`next, node`prev
      ensures order == [node] + old(order) && ListValid()
    {
      ghost var before := All();
      assert before[0] == head && before[0].next == before[1];
      assert before[0] in before && before[1] in before;
      node.prev := head;
      node.next := head.next;
      head.next.prev := node;
      head.next := node;
      order := [node] + order;
      assert All()[0] == head && All()[1] == node;
      assert forall i | 2 <= i < |All()| :: All()[i] == before[i - 1];
      assert forall i | 1 <= i < |before| - 1 :: before[i].next == before[i + 1] && before[i + 1].prev == before[i];
    }

    /** Takes node `i` of the list out. */
    method Remove(node: Node, ghost i: nat)
      requires ListValid() && i < |order| && order[i] == node
      modifies this`order, Nodes()`next, Nodes()`prev
      ensures order == old(order[..i] + order[i + 1..]) && ListValid()
      ensures node !in All()
    {
      ghost var before := All();
      assert before[i + 1] == node && before[i] in before && before[i + 2] in before;
      assert before[i].next == node && node.prev == before[i] && node.next == before[i + 2];
      node.prev.next := node.next;
      node.next.prev := node.prev;
      order := order[..i] + order[i + 1..];
      assert forall j | 0 <= j < |All()| :: All()[j] == before[if j <= i then j else j + 1];
      assert forall j | 0 <= j < i :: before[j].next == before[j + 1] && before[j + 1].prev == before[j];
      assert forall j | i + 2 <= j < |before| - 1 :: before[j].next == before[j + 1] && before[j + 1].prev == before[j];
    }

    lemma IdsDistinct()
      requires Valid()
      ensures NoRepeats(Ids())
      ensures forall k :: k in Ids() <==> k in cache
    {
      hide Chained;
      forall i, j | 0 <= i < j < |order| ensures Ids()[i] != Ids()[j] {
        assert order[i] in order && order[j] in order;
        assert All()[i + 1] != All()[j + 1];
      }
      forall k ensures k in Ids() <==> k in cache {
        if k in Ids() {
          var i :| 0 <= i < |order| && Ids()[i] == k;
          assert order[i] in order;
        }
        if k in cache {
          var i :| 0 <= i < |order| && order[i] == cache[k];
          assert Ids()[i] == k;
        }
      }
    }

    lemma NodesAre()
      ensures Nodes() == (set n | n in order) + {head, tail}
    {
    }

    twostate lemma PagesWithout(k: int)
      requires cache == old(cache) - {k} && forall n | n in old(cache.Values) :: n.page == old(n.page)
      ensures PageMap() == old(PageMap()) - {k}
    {
    }

    twostate lemma PagesSame()
      requires cache == old(cache) && forall n | n in cache.Values :: n.page == old(n.page)
      ensures PageMap() == old(PageMap())
    {
    }

    lemma OwnId(node: Node)
      requires Valid() && node in order
      ensures node.pageId in cache && forall k | k in cache :: cache[k] == node <==> k == node.pageId
    {
    }

    /** Moves a cached node to the front. */
    method Promote(node: Node)
      requires Valid() && node in order
      modifies this`order, Nodes()`next, Nodes()`prev
      ensures Valid() && cache == old(cache)
      ensures Nodes() == old(Nodes()) && PageMap() == old(PageMap())
      ensures Ids() == Touch(old(Ids()), node.pageId, capacity)
    {
      hide Chained, Distinct, Touch, Indexed, Nodes, All, ListValid, NoRepeats, PageMap;
      ghost var before := order;
      ghost var i :| 0 <= i < |order| && order[i] == node;
      IdsDistinct();
      NodesAre();
      Remove(node, i);
      NodesAre();
      AddFront(node);
      RotatedIds(before, order, i, capacity);
      IndexedAnyOrder(before, order, cache);
      NodesAre();
      PagesSame();
    }

    method Get(pageId: int) returns (page: Page?)
      requires Valid()
      modifies this`order, Nodes()`next, Nodes()`prev
      ensures Valid() && cache == old(cache) && Nodes() == old(Nodes())
      ensures page == if pageId in cache then old(PageMap())[pageId] else null
      ensures Ids() == if pageId in cache then Touch(old(Ids()), pageId, capacity) else old(Ids())
      ensures PageMap() == old(PageMap()) && (pageId !in cache ==> order == old(order))
    {
      if pageId !in cache {
        return null;
      }
      var node := cache[pageId];
      Promote(node);
      return node.page;
    }

    ghost function Last(): Node
      requires order != []
      reads this
    {
      order[|order| - 1]
    }

    /** An access to `pageId` will push a page out. */
    ghost predicate Evicts(pageId: int)
      reads this
    {
      pageId !in cache && |order| >= capacity && order != []
    }

    /** The page that an access to `pageId` will push out, if any. */
    ghost function Victim(pageId: int): Page?
      reads this, order
    {
      if Evicts(pageId) then Last().page else null
    }

    ghost function Listener(): set<PageManager>
      reads this
    {
      if onEvict == null then {} else {onEvict}
    }

    /** Every cached page has its place in the file that evicted pages are written to. */
    ghost predicate CanEvict()
      requires Valid()
      reads this, Nodes(), onEvict
    {
      onEvict != null ==> forall k | k in cache && cache[k].page != null :: 0 <= cache[k].page.id < |onEvict.disk|
    }

    /** What the file holds after a page is pushed out. */
    ghost function Flushed(disk: seq<Bytes>, page: Page?): seq<Bytes>
      reads page
    {
      if page != null && page.dirty && 0 <= page.id < |disk| then disk[page.id := page.data] else disk
    }

    lemma LastIsBeforeTail()
      requires Valid() && order != []
      ensures tail.prev == Last()
    {
      var n := |order| - 1;
      assert All()[n + 1] == Last() && All()[n + 2] == tail;
    }

    lemma LastIsCached()
      requires Valid() && order != []
      ensures Last().pageId in cache && cache[Last().pageId] == Last()
    {
      assert Last() in order;
    }

    /** Writes a page about to be evicted to the file, if it is dirty and anyone listens. */
    method WriteBack(page: Page?)
      requires page != null && onEvict != null ==> 0 <= page.id < |onEvict.disk|
      modifies Listener()`disk, Only(page)`dirty
      ensures onEvict != null ==> onEvict.disk == old(Flushed(onEvict.disk, page))
    {
      if page != null && page.dirty && onEvict != null {
        onEvict.WritePage(page);
      }
    }

    /** Takes the least recently used node out of list and map. */
    method DropLast()
      requires Valid() && order != []
      modifies this`order, this`cache, Nodes()`next, Nodes()`prev
      ensures Valid() && Nodes() <= old(Nodes())
      ensures order == old(order)[..|old(order)| - 1]
      ensures cache == old(cache) - {old(Last().pageId)} && PageMap() == old(PageMap()) - {old(Last().pageId)}
    {
      hide Chained, Distinct, Indexed, Nodes, All, ListValid, NoRepeats, PageMap;
      LastIsBeforeTail();
      IdsDistinct();
      NodesAre();
      KnownNodes();
      ghost var before, n := order, |order| - 1;
      IndexedWithoutLast(before, cache);
      var lruNode := tail.prev;
      Remove(lruNode, n);
      assert order == before[..n];
      cache := cache - {lruNode.pageId};
      NodesAre();
      PagesWithout(lruNode.pageId);
    }

    /** Pushes the least recently used page out, writing it to the file first if it is dirty and anyone listens. */
    method EvictLast()
      requires Valid() && order != [] && CanEvict()
      modifies this`order, this`cache, Nodes()`next, Nodes()`prev
      modifies Listener()`disk, Only(Last().page)`dirty
      ensures Valid() && Nodes() <= old(Nodes())
      ensures order == old(order)[..|old(order)| - 1]
      ensures cache == old(cache) - {old(Last().pageId)} && PageMap() == old(PageMap()) - {old(Last().pageId)}
      ensures onEvict != null ==> onEvict.disk == old(Flushed(onEvict.disk, Last().page))
    {
      hide Chained, Distinct, ListValid, Indexed, NoRepeats, IdsOf, PageMap;
      LastIsBeforeTail();
      LastIsCached();
      WriteBack(tail.prev.page);
      DropLast();
    }

    lemma KnownNodes()
      requires Valid()
      ensures forall k | k in cache :: cache[k] in Nodes()
    {
    }

    /** Puts a new node in front of a list that has room for it. */
    method Enter(pageId: int, page: Page)
      requires Valid() && pageId !in cache && |order| < capacity
      modifies this`order, this`cache, Nodes()`next, Nodes()`prev
      ensures Valid() && |order| == |old(order)| + 1 && fresh(order[0]) && order == [order[0]] + old(order)
      ensures order[0].pageId == pageId && order[0].page == page
      ensures cache == old(cache)[pageId := order[0]] && PageMap() == old(PageMap())[pageId := page]
      ensures Nodes() == old(Nodes()) + {order[0]}
    {
      hide Chained, Distinct, Indexed;
      ghost var before := order;
      KnownNodes();
      var newNode := new Node(pageId, page);
      IndexedWithNew(order, cache, newNode);
      cache := cache[pageId := newNode];
      AddFront(newNode);
      assert forall n :: n in order <==> n == newNode || n in before;
    }

    method SetPage(node: Node, page: Page)
      requires Valid() && node in order
      modifies node`page
      ensures Valid() && PageMap() == old(PageMap())[node.pageId := page]
    {
      hide Chained, Distinct;
      OwnId(node);
      node.page := page;
      ghost var expected := old(PageMap())[node.pageId := page];
      assert PageMap().Keys == expected.Keys;
      assert forall k | k in cache :: PageMap()[k] == expected[k];
    }

    /** Replaces the page of a cached node and moves the node to the front. */
    method Replace(node: Node, page: Page)
      requires Valid() && node in order
      modifies this`order, Nodes()`next, Nodes()`prev, node`page
      ensures Valid() && cache == old(cache) && Nodes() == old(Nodes())
      ensures PageMap() == old(PageMap())[node.pageId := page]
      ensures Ids() == Touch(old(Ids()), node.pageId, capacity)
    {
      hide Chained, Distinct, Touch, Indexed, PageMap, NoRepeats, IdsOf;
      OwnId(node);
      SetPage(node, page);
      Promote(node);
    }

    /** Enters a page under an id that is not cached, in place of the least recently used one when the cache is full. */
    method PutNew(pageId: int, page: Page)
      requires Valid() && CanEvict() && pageId !in cache
      modifies this`order, this`cache, Nodes()`next, Nodes()`prev, Listener()`disk, Only(Victim(pageId))`dirty
      ensures Valid() && fresh(Nodes() - old(Nodes()))
      ensures PageMap() == old(if Evicts(pageId) then PageMap() - {Last().pageId} else PageMap())[pageId := page]
      ensures Ids() == Touch(old(Ids()), pageId, capacity)
      ensures onEvict != null ==> onEvict.disk == old(Flushed(onEvict.disk, Victim(pageId)))
    {
      assert |order| == |cache|;
      hide Chained, Distinct, ListValid, Touch, Indexed;
      IdsDistinct();
      ghost var before := order;
      if |cache| >= capacity {
        LastIsCached();
        EvictLast();
      }
      hide Indexed;
      Enter(pageId, page);
      ReplacedIds(before, order, order[0], capacity);
    }

    /** Enters a page, or replaces it under an id that is cached, and moves it to the front. */
    method Put(pageId: int, page: Page)
      requires Valid() && CanEvict()
      modifies this`order, this`cache, Nodes()`next, Nodes()`prev, Nodes()`page, Listener()`disk, Only(Victim(pageId))`dirty
      ensures Valid() && fresh(Nodes() - old(Nodes()))
      ensures Ids() == Touch(old(Ids()), pageId, capacity)
      ensures PageMap() == old(if Evicts(pageId) then PageMap() - {Last().pageId} else PageMap())[pageId := page]
      ensures onEvict != null ==> onEvict.disk == old(Flushed(onEvict.disk, Victim(pageId)))
    {
      hide Chained, Distinct, ListValid, Touch;
      if pageId in cache {
        Replace(cache[pageId], page);
      } else {
        PutNew(pageId, page);
      }
    }

    /** The cached pages, the last used first. */
    method Pages() returns (pages: seq<Page>)
      requires Valid()
      ensures forall p: Page :: p in pages <==> exists k | k in cache :: cache[k].page == p
    {
      pages := [];
      var root := head.next;
      ghost var i := 0;
      assert All()[0] == head;
      while root != tail
        invariant 0 <= i <= |order| && root == All()[i + 1]
        invariant forall p: Page :: p in pages <==> exists j | 0 <= j < i :: order[j].page == p
        decreases |order| - i
      {
        assert i < |order| && root == order[i];
        assert root in order;
        if root.page != null {
          pages := pages + [root.page];
        }
        assert All()[i + 1].next == All()[i + 2];
        root := root.next;
        i := i + 1;
      }
      assert All()[i + 1] == All()[|order| + 1];
      forall p: Page ensures p in pages <==> exists k | k in cache :: cache[k].page == p {
        if p in pages {
          var j :| 0 <= j < i && order[j].page == p;
          assert order[j] in order && cache[order[j].pageId] == order[j];
        }
        if k :| k in cache && cache[k].page == p {
          assert cache[k] in order;
        }
      }
    }
  }
}
