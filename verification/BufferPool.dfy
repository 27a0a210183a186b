/** Pages in memory over pages in the file, kept so that callers see one flat array of pages. */
module BufferPools {
  import opened Storage
  import opened LruOrder
  import opened LruCaches

  const MAX_CAPACITY: nat := 1024

  ghost function Objects(pages: map<int, Page?>): set<Page> {
    set k | k in pages && pages[k] != null :: pages[k]
  }

  /** Page `k` is cached under its own id, which is in the file, and if clean equals its image there. */
  ghost predicate Faithful(pages: map<int, Page?>, disk: seq<Bytes>, k: int)
    requires k in pages
    reads Only(pages[k])
  {
    && pages[k] != null && pages[k].id == k && 0 <= k < |disk|
    && (!pages[k].dirty ==> pages[k].data == disk[k])
  }

  /** What a caller that fetches page `i` will see. */
  ghost function Content(pages: map<int, Page?>, disk: seq<Bytes>, i: int): Bytes
    requires 0 <= i < |disk|
    reads if i in pages then Only(pages[i]) else {}
  {
    if i in pages && pages[i] != null then pages[i].data else disk[i]
  }

  ghost function Contents(pages: map<int, Page?>, disk: seq<Bytes>): (r: seq<Bytes>)
    reads Objects(pages)
    ensures |r| == |disk| && forall i | 0 <= i < |r| :: r[i] == Content(pages, disk, i)
  {
    seq(|disk|, i requires 0 <= i < |disk| reads Objects(pages) => Content(pages, disk, i))
  }

  /** Callers see a cached page as it is in memory, and everything but the dirty pages as it is in the file. */
  lemma WhatIsSeen(pages: map<int, Page?>, disk: seq<Bytes>)
    requires forall k | k in pages :: Faithful(pages, disk, k)
    ensures forall k | k in pages ::
              && pages[k] != null && pages[k].id == k && 0 <= k < |disk| && Contents(pages, disk)[k] == pages[k].data
    ensures forall i | 0 <= i < |disk| && !(i in pages && pages[i].dirty) :: Contents(pages, disk)[i] == disk[i]
  {
    forall k | k in pages
      ensures && pages[k] != null && pages[k].id == k && 0 <= k < |disk| && Contents(pages, disk)[k] == pages[k].data
    {
      assert Faithful(pages, disk, k);
    }
  }

  /**
   Writing page `v` back if it is dirty, dropping it, and taking in a clean page: every page reads as before.
   `ids` and `dirty` name the cached and the dirty pages before, `seen` is what they showed.
   */
  lemma EvictionInvisible(ids: set<int>, dirty: set<int>, seen: seq<Bytes>, disk: seq<Bytes>,
                          pages: map<int, Page?>, disk': seq<Bytes>, evicted: set<int>, page: Page)
    requires |seen| == |disk| && forall i | 0 <= i < |disk| && i !in dirty :: seen[i] == disk[i]
    requires dirty <= ids && evicted <= ids && page.id !in ids
    requires |disk'| == |disk|
    requires forall i | 0 <= i < |disk| :: disk'[i] == if i in evicted && i in dirty then seen[i] else disk[i]
    requires pages.Keys == ids - evicted + {page.id}
    requires forall k | k in ids - evicted ::
               && pages[k] != null && pages[k].id == k && 0 <= k < |disk|
               && pages[k].data == seen[k] && (pages[k].dirty <==> k in dirty)
    requires pages[page.id] == page && 0 <= page.id < |disk| && page.data == disk[page.id] && !page.dirty
    ensures forall k | k in pages :: Faithful(pages, disk', k)
    ensures Contents(pages, disk') == seen
  {
    forall i | 0 <= i < |disk| ensures Content(pages, disk', i) == seen[i] {
      assert i in pages <==> i in pages.Keys;
    }
    forall k | k in pages ensures Faithful(pages, disk', k) {
      assert k in pages.Keys;
    }
  }

  class BufferPool {
    const pageManager: PageManager
    const cache: LruCache
    // Every id passed to GetPage that exists in the file, in order.
    ghost var trace: seq<int>

    ghost function Pages(): map<int, Page?>
      reads cache, cache.cache.Values
    {
      cache.PageMap()
    }

    ghost predicate CacheValid()
      reads this, cache, cache.Nodes()
    {
      && cache.capacity == MAX_CAPACITY
      && cache.onEvict == pageManager
      && cache.Valid()
      && cache.Ids() == Run(trace, MAX_CAPACITY)
    }

    ghost predicate Valid()
      reads this, cache, cache.Nodes(), cache.cache.Values, Objects(Pages()), pageManager
    {
      && CacheValid()
      && forall k | k in Pages() :: Faithful(Pages(), pageManager.disk, k)
    }

    /** The flat array of pages that callers see. */
    ghost function Visible(): seq<Bytes>
      reads cache, cache.cache.Values, Objects(Pages()), pageManager
    {
      Contents(Pages(), pageManager.disk)
    }

    constructor ()
      ensures Valid() && fresh(cache) && fresh(cache.Nodes()) && fresh(pageManager)
      ensures trace == [] && |Visible()| == 1
    {
      var file := new PageManager();
      pageManager := file;
      cache := new LruCache(MAX_CAPACITY, file);
      trace := [];
    }

    method AllocatePage() returns (id: int)
      requires Valid()
      modifies pageManager`disk
      ensures Valid() && id == |old(Visible())| && Visible() == old(Visible()) + [ZeroBytes()]
    {
      id := pageManager.AllocatePage();
    }

    lemma CacheCanEvict()
      requires Valid()
      ensures cache.CanEvict()
    {
      forall k | k in cache.cache && cache.cache[k].page != null ensures 0 <= cache.cache[k].page.id < |pageManager.disk| {
        assert Faithful(Pages(), pageManager.disk, k);
      }
    }

    /** Puts a page into the cache; the page pushed out for it is written to the file if it is dirty. */
    method Admit(page: Page) returns (ghost evicted: set<int>)
      requires Valid() && page.id !in Pages()
      modifies cache`order, cache`cache, pageManager`disk
      modifies cache.Nodes()`next, cache.Nodes()`prev, cache.Nodes()`page, Only(cache.Victim(page.id))`dirty
      ensures cache.Valid() && fresh(cache.Nodes() - old(cache.Nodes()))
      ensures cache.Ids() == Touch(old(cache.Ids()), page.id, MAX_CAPACITY)
      ensures evicted <= old(Pages().Keys) && Pages() == (old(Pages()) - evicted)[page.id := page]
      ensures forall k | k in old(Pages()) && k !in evicted :: old(Pages())[k].dirty == old(Pages()[k].dirty)
      ensures |pageManager.disk| == |old(pageManager.disk)|
      ensures page.dirty == old(page.dirty)
      ensures forall i | 0 <= i < |pageManager.disk| ::
                pageManager.disk[i] == if i in evicted && old(Pages()[i].dirty) then old(Pages()[i].data) else old(pageManager.disk[i])
    {
      hide LruCache.Valid, LruCache.Ids, LruCache.Nodes, LruCache.All, Touch, Run, IdsOf;
      CacheCanEvict();
      ghost var pages := Pages();
      assert forall k | k in pages :: Faithful(pages, pageManager.disk, k) && pages[k] != null && pages[k].id == k;
      evicted := {};
      ghost var victim := cache.Victim(page.id);
      if cache.Evicts(page.id) {
        cache.LastIsCached();
        evicted := {cache.Last().pageId};
        assert pages[cache.Last().pageId] == victim;
      }
      assert forall k | k in pages && k !in evicted :: pages[k] != victim;
      ghost var left := if cache.Evicts(page.id) then pages - {cache.Last().pageId} else pages;
      assert left == pages - evicted;
      ghost var flushed := cache.Flushed(pageManager.disk, victim);
      assert |flushed| == |pageManager.disk| && forall i | 0 <= i < |flushed| ::
          flushed[i] == if i in evicted && pages[i].dirty then pages[i].data else pageManager.disk[i];
      hide LruCache.Victim, LruCache.Evicts,
           LruCache.Last, LruCache.Flushed, LruCache.PageMap, LruCache.Listener, LruCache.CanEvict;
      cache.Put(page.id, page);
      assert Pages() == left[page.id := page];
      assert pageManager.disk == flushed;
    }

    /** Takes a page just read into the cache. */
    method Enter(page: Page)
      requires Valid() && page.id !in Pages() && !page.dirty
      requires 0 <= page.id < |pageManager.disk| && page.data == pageManager.disk[page.id]
      modifies cache`order, cache`cache, pageManager`disk
      modifies cache.Nodes()`next, cache.Nodes()`prev, cache.Nodes()`page, Only(cache.Victim(page.id))`dirty
      ensures cache.Valid() && fresh(cache.Nodes() - old(cache.Nodes()))
      ensures cache.Ids() == Touch(old(cache.Ids()), page.id, MAX_CAPACITY)
      ensures forall k | k in Pages() :: Faithful(Pages(), pageManager.disk, k)
      ensures Visible() == old(Visible())
      ensures page.id in Pages() && Pages()[page.id] == page
      ensures forall k | k in Pages() && k in old(Pages()) :: Pages()[k] == old(Pages())[k]
    {
      hide LruCache.Valid, LruCache.Ids, LruCache.Nodes, LruCache.All, Touch, Run, IdsOf, Content;
      ghost var pages, disk, seen := Pages(), pageManager.disk, Visible();
      WhatIsSeen(pages, disk);
      ghost var dirty := set k | k in pages && pages[k].dirty;
      ghost var evicted := Admit(page);
      EvictionInvisible(pages.Keys, dirty, seen, disk, Pages(), pageManager.disk, evicted, page);
    }

    /** Looks a page up in the cache. */
    method Lookup(pageId: int) returns (page: Page?)
      requires Valid()
      modifies cache`order, cache.Nodes()`next, cache.Nodes()`prev
      ensures cache.Valid() && cache.Nodes() == old(cache.Nodes()) && Pages() == old(Pages())
      ensures forall k | k in Pages() :: Faithful(Pages(), pageManager.disk, k)
      ensures Visible() == old(Visible())
      ensures pageId !in Pages() ==> page == null && Valid() && cache.order == old(cache.order)
      ensures pageId in Pages() ==>
                && page != null && page == Pages()[pageId] && page.id == pageId && 0 <= pageId < |Visible()|
                && cache.Ids() == Touch(old(cache.Ids()), pageId, MAX_CAPACITY)
    {
      hide LruCache.Valid, LruCache.Ids, Touch, Run;
      ghost var pages, disk := Pages(), pageManager.disk;
      assert pageId in pages ==> Faithful(pages, disk, pageId);
      page := cache.Get(pageId);
      assert Pages() == pages;
    }

    /** Reads a page from the file into memory only. */
    method ReadFromFile(pageId: int) returns (page: Page?)
      requires Valid()
      ensures Valid() && Pages() == old(Pages()) && Visible() == old(Visible())
      ensures page == null <==> !(0 <= pageId < |Visible()|)
      ensures page != null ==> fresh(page) && page.id == pageId && !page.dirty && page.data == pageManager.disk[pageId]
    {
      hide Run, Touch, IdsOf;
      page := pageManager.ReadPage(pageId);
    }

    /** Reads a page from the file into the cache, if the file has it. */
    method Load(pageId: int) returns (page: Page?)
      requires Valid() && pageId !in Pages()
      modifies cache`order, cache`cache, pageManager`disk
      modifies cache.Nodes()`next, cache.Nodes()`prev, cache.Nodes()`page, Only(cache.Victim(pageId))`dirty
      ensures cache.Valid() && fresh(cache.Nodes() - old(cache.Nodes()))
      ensures page == null <==> !(0 <= pageId < |old(Visible())|)
      ensures cache.Ids() == if page == null then old(cache.Ids()) else Touch(old(cache.Ids()), pageId, MAX_CAPACITY)
      ensures forall k | k in Pages() :: Faithful(Pages(), pageManager.disk, k)
      ensures Visible() == old(Visible())
      ensures page != null ==> page.id == pageId && Holds(page)
      ensures forall k | k in Pages() && k in old(Pages()) :: Pages()[k] == old(Pages())[k]
    {
      hide LruCache.Valid, LruCache.Ids, Touch, Run, IdsOf, Faithful, Contents;
      page := ReadFromFile(pageId);
      if page != null {
        Enter(page);
      }
    }

    /** Notes an access in the trace. */
    ghost method Accessed(pageId: int)
      requires cache.capacity == MAX_CAPACITY && cache.onEvict == pageManager && cache.Valid()
      requires cache.Ids() == Touch(Run(trace, MAX_CAPACITY), pageId, MAX_CAPACITY)
      requires forall k | k in Pages() :: Faithful(Pages(), pageManager.disk, k)
      modifies this`trace
      ensures Valid() && Visible() == old(Visible()) && Pages() == old(Pages())
      ensures trace == old(trace) + [pageId]
    {
      RunSnoc(trace, pageId, MAX_CAPACITY);
      trace := trace + [pageId];
    }

    /** Fetching a page, even when it pushes another page out, changes no page's content. */
    method GetPage(pageId: int) returns (page: Page?)
      requires Valid()
      modifies this`trace, cache`order, cache`cache, pageManager`disk
      modifies cache.Nodes()`next, cache.Nodes()`prev, cache.Nodes()`page, Only(cache.Victim(pageId))`dirty
      ensures Valid() && fresh(cache.Nodes() - old(cache.Nodes()))
      ensures page == null <==> !(0 <= pageId < |old(Visible())|)
      ensures page == null ==> trace == old(trace)
      ensures page != null ==> trace == old(trace) + [pageId] && Holds(page) && page.id == pageId
      ensures Visible() == old(Visible())
      ensures forall k | k in Pages() && k in old(Pages()) :: Pages()[k] == old(Pages())[k]
    {
      hide LruCache.Valid, LruCache.Ids, Touch, Run, Faithful;
      page := Lookup(pageId);
      if page == null {
        page := Load(pageId);
      }
      if page != null {
        Accessed(pageId);
      }
    }

    /** The cache still has this very page object. */
    ghost predicate Holds(page: Page)
      reads cache, cache.cache.Values
    {
      page.id in Pages() && Pages()[page.id] == page
    }

    /** A write through a handle reaches the array of pages if the cache still holds that handle; otherwise it is lost. */
    method WriteThrough(page: Page, data: Bytes)
      requires Valid()
      modifies page
      ensures Valid() && page.data == data
      ensures Visible() == if old(Holds(page)) then old(Visible())[page.id := data] else old(Visible())
    {
      assert Holds(page) ==> Faithful(Pages(), pageManager.disk, page.id);
      page.Write(data);
      assert CacheValid();
      hide LruCache.Valid, LruCache.Ids, Run;
      ghost var pages, disk := Pages(), pageManager.disk;
      forall k | k in pages ensures Faithful(pages, disk, k) {
        assert old(Faithful(pages, disk, k));
      }
      forall i | 0 <= i < |disk| ensures Content(pages, disk, i)
          == if Holds(page) && i == page.id then data else old(Content(pages, disk, i)) {
        assert i in pages ==> Faithful(pages, disk, i);
      }
    }

    /** Writes one cached page to the file if it is dirty. */
    method FlushPage(page: Page)
      requires Valid() && Holds(page)
      modifies pageManager`disk, page`dirty
      ensures Valid() && Visible() == old(Visible()) && Pages() == old(Pages()) && !page.dirty
    {
      assert Faithful(Pages(), pageManager.disk, page.id);
      if page.dirty {
        pageManager.WritePage(page);
      }
      assert CacheValid();
      hide LruCache.Valid, LruCache.Ids, Run;
      ghost var pages, disk := Pages(), pageManager.disk;
      forall k | k in pages ensures Faithful(pages, disk, k) {
        assert old(Faithful(pages, pageManager.disk, k));
      }
      forall i | 0 <= i < |disk| ensures Content(pages, disk, i) == old(Content(pages, pageManager.disk, i)) {
      }
    }

    method FlushEach(pages: seq<Page>)
      requires Valid() && forall p | p in pages :: Holds(p) && p in Objects(Pages())
      modifies pageManager`disk, Objects(Pages())`dirty
      ensures Valid() && Visible() == old(Visible()) && Pages() == old(Pages())
      ensures forall p | p in pages :: !p.dirty
    {
      hide *;
      for i := 0 to |pages|
        invariant Valid() && Visible() == old(Visible()) && Pages() == old(Pages())
        invariant forall p | p in pages :: Holds(p)
        invariant forall j | 0 <= j < i :: !pages[j].dirty
      {
        assert pages[i] in pages;
        FlushPage(pages[i]);
      }
    }

    method CachedPages() returns (pages: seq<Page>)
      requires Valid()
      ensures Valid() && Pages() == old(Pages()) && Visible() == old(Visible())
      ensures forall k | k in Pages() :: Pages()[k] in pages
      ensures forall p | p in pages :: Holds(p) && p in Objects(Pages())
    {
      hide Run, Touch, IdsOf;
      pages := cache.Pages();
      assert Valid();
      ghost var cached := Pages();
      forall p | p in pages ensures Holds(p) && p in Objects(cached) {
        var k :| k in cache.cache && cache.cache[k].page == p;
        assert k in cached && Faithful(cached, pageManager.disk, k);
      }
    }

    method FlushAll()
      requires Valid()
      modifies pageManager`disk, Objects(Pages())`dirty
      ensures Valid() && Visible() == old(Visible()) && pageManager.disk == Visible()
      ensures forall k | k in Pages() :: !Pages()[k].dirty
    {
      hide LruCache.Valid, LruCache.Ids, LruCache.Nodes, LruCache.All, Run, CacheValid;
      var pages := CachedPages();
      ghost var cached := Pages();
      FlushEach(pages);
      forall i | 0 <= i < |pageManager.disk| ensures Content(cached, pageManager.disk, i) == pageManager.disk[i] {
        assert i in cached ==> Faithful(cached, pageManager.disk, i);
      }
    }
  }
}
