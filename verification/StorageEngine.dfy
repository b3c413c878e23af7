/** The storage engine: bounds checks, allocation and prefetch over the page cache. */
module StorageEngine {
  import opened Observer
  import opened EvictionPolicy
  import opened PagePool
  import opened PoolRuns
  import opened NodeList
  import opened PageCache
  import opened StorageWriter

  class StorageEngine {
    const file: PageFile
    const cache: PageCache
    /** Pages the mapping covers: those at construction and those allocated since. */
    var pageCount: nat

    ghost predicate Valid()
      reads this, file, cache, cache.Watchers()
    {
      cache.file == file && cache.Valid() && pageCount <= |file.pages| && pageCount <= PAGE_LIMIT
    }

    ghost function State(): Pool
      requires Valid()
      reads this, file, cache, cache.Watchers()
    {
      cache.State()
    }

    /** How many fetches the cache has counted. */
    ghost function Requests(): nat
      reads cache
    {
      cache.hits + cache.misses
    }

    /** The pages that the cache's observer has seen asked for. */
    ghost function Observed(): seq<PageId>
      reads cache.observer
    {
      if cache.observer == null then [] else PagesOf(cache.observer.trace)
    }

    ghost function WithMore(before: seq<PageId>, pages: seq<PageId>): seq<PageId> {
      if cache.observer == null then before else before + pages
    }

    lemma MoreTwice(before: seq<PageId>, a: seq<PageId>, b: seq<PageId>)
      ensures WithMore(WithMore(before, a), b) == WithMore(before, a + b)
    {
      assert before + a + b == before + (a + b);
    }

    lemma NoneMore(before: seq<PageId>)
      ensures WithMore(before, []) == before
    {
    }

    /** Exactly these pages were asked for, in this order. */
    twostate predicate Asked(pages: seq<PageId>)
      reads cache, cache.observer
    {
      Requests() == old(Requests()) + |pages| && Observed() == WithMore(old(Observed()), pages)
    }

    constructor (file: PageFile, cacheCapacity: nat, observer: AccessObserver?)
      requires |file.pages| <= PAGE_LIMIT && (observer != null ==> observer.Valid())
      ensures Valid() && this.file == file && pageCount == |file.pages| && fresh(cache)
      ensures cache.observer == observer && cache.policy == NoPolicy
      ensures |cache.pool| == cacheCapacity && State() == EmptyPool(file.pages, cache.pool)
    {
      this.file := file;
      pageCount := |file.pages|;
      cache := new PageCache(file, cacheCapacity, observer, NoPolicy);
    }

    lemma PoolStructured()
      requires Valid()
      ensures Structured(State()) && |State().disk| == |file.pages|
    {
      hide Linked, IteratorsAgree, Structured, AccessObserver.Valid;
    }

    /** Fetches a page; null is an error: out of bounds, or the pool is full of pinned pages. */
    method FetchPage(page: PageId, hint: WorkloadHint) returns (h: PageHandle?, ghost victim: PageId)
      requires Valid()
      modifies cache, file, cache.Watchers()
      ensures Valid()
      ensures h != null <==> page < pageCount && CanFetch(old(State()), page)
      ensures page >= pageCount ==> State() == old(State())
      ensures page < pageCount ==>
                Fetchable(old(State()), page, victim) && State() == Fetched(old(State()), page, victim)
      ensures h != null ==>
                && fresh(h) && h.cache == cache && h.pageId == page
                && page in cache.pageMap && h.frame == cache.pageMap[page]
      ensures Asked(if page < pageCount then [page] else [])
      ensures page < pageCount && cache.observer != null ==>
                cache.observer.trace == old(cache.observer.trace) + [Access(page, page in old(cache.pageMap))]
    {
      hide PageCache.Valid, Fetched, CanFetch, Fetchable, View, PinOf, AccessObserver.Valid;
      if page >= pageCount {
        return null, 0;
      }
      ghost var s := State();
      h, victim := cache.FetchPage(page, hint);
      FetchKeeps(s, page, victim);
      FetchEffects(s, page, victim);
      if cache.observer != null {
        PagesOfMore(old(cache.observer.trace), Access(page, page in old(cache.pageMap)));
      }
    }

    /** One prefetch, run to its end: fetch and drop, any error ignored. Its thread has set no hint. Unless
        the pool is full of pinned pages, the page is then cached, unpinned as before and the most recent. */
    method PrefetchPage(page: PageId) returns (ghost victim: PageId)
      requires Valid()
      modifies cache, file, cache.Watchers()
      ensures Valid() && SameView(old(State()), State())
      ensures Clean(old(State())) ==> Clean(State()) && file.pages == old(file.pages)
      ensures page >= pageCount ==> State() == old(State())
      ensures page < pageCount ==>
                && Fetchable(old(State()), page, victim)
                && State() == if CanFetch(old(State()), page) then Unpinned(Fetched(old(State()), page, victim), page)
                              else Fetched(old(State()), page, victim)
      ensures page < pageCount && CanFetch(old(State()), page) ==>
                && page in cache.pageMap && PinOf(State(), page) == PinOf(old(State()), page)
                && State().lru != [] && State().lru[0] == page
      ensures Asked(if page < pageCount then [page] else [])
      ensures page < pageCount ==>
                if page in old(cache.pageMap) then cache.hits == old(cache.hits) + 1
                else cache.misses == old(cache.misses) + 1
      ensures page < pageCount && cache.observer != null ==>
                cache.observer.trace == old(cache.observer.trace) + [Access(page, page in old(cache.pageMap))]
    {
      hide PageCache.Valid, Fetched, CanFetch, Fetchable, View, PinOf, Unpinned, AccessObserver.Valid, Structured,
           Clean, SameView, WithMore, Observed;
      victim := 0;
      if page >= pageCount {
        SameAsItself(State());
        NoneMore(Observed());
        return;
      }
      ghost var s := State();
      var h;
      h, victim := FetchPage(page, PointLookup);
      FetchAndDrop(s, page, victim);
      FetchEffects(s, page, victim);
      FetchKeeps(s, page, victim);
      if Clean(s) {
        CleanFetch(s, page, victim);
      }
      UnpinnedOnlyPins(State(), page);
      if h != null {
        if Clean(s) {
          UnpinnedKeepsClean(State(), page);
        }
        UnpinnedPins(State(), page);
        h.Destroy();
      }
    }

    /** Grows the file by a zero page, fetches it and writes its header; null is "buffer pool full",
        which leaves the zero page behind. */
    method AllocatePage(hint: WorkloadHint) returns (h: PageHandle?)
      requires Valid() && |file.pages| == pageCount && pageCount + 1 < PAGE_LIMIT
      modifies this`pageCount, cache, file, cache.Watchers()
      ensures Valid() && pageCount == old(pageCount) + 1
      ensures h != null ==> fresh(h) && h.cache == cache && h.pageId == old(pageCount)
      ensures h != null ==> h.pageId in cache.pageMap && h.frame == cache.pageMap[h.pageId]
      ensures forall q ::
                PinOf(State(), q) == PinOf(old(State()), q) + if h != null && q == old(pageCount) then 1 else 0
      ensures Asked([old(pageCount)])
      ensures h != null <==> CanFetch(Grown(old(State()), ZeroPage()), old(pageCount))
      ensures Views(State()) == Views(old(State())) + [AllocatedPage(old(State()))]
    {
      hide Linked, IteratorsAgree, AccessObserver.Valid, Fetched, CanFetch, Fetchable, View, PinOf, MapInjective,
           ListMatchesMap, FramesPartitioned;
      ghost var s := State();
      GrownKeeps(s, ZeroPage());
      var id := pageCount;
      file.pages := file.pages + [ZeroPage()];
      pageCount := pageCount + 1;
      ghost var g := State();
      assert g == Grown(s, ZeroPage());
      assert Views(g) == Views(s) + [ZeroPage()];
      ghost var victim;
      h, victim := FetchPage(id, hint);
      FetchKeeps(g, id, victim);
      assert Views(State()) == Views(g);
      if h != null {
        ghost var t := State();
        WrittenKeeps(t, id, NewPage(id));
        cache.WriteFrame(id, NewPage(id));
        assert Views(State()) == Views(s) + [NewPage(id)];
      }
    }
  }
  lemma PagesOfMore(trace: seq<Access>, a: Access)
    ensures PagesOf(trace + [a]) == PagesOf(trace) + [a.page]
  {
  }

  lemma SameAsItself(s: Pool)
    ensures SameView(s, s)
  {
  }

  lemma UnpinnedKeepsClean(s: Pool, page: PageId)
    requires Structured(s) && Clean(s)
    ensures Clean(Unpinned(s, page)) && Unpinned(s, page).disk == s.disk
  {
    UnpinnedStructured(s, page);
  }

  lemma UnpinnedPins(s: Pool, page: PageId)
    requires Structured(s) && PinOf(s, page) > 0
    ensures PinOf(Unpinned(s, page), page) == PinOf(s, page) - 1
  {
    UnpinnedStructured(s, page);
  }

  lemma UnpinnedOnlyPins(s: Pool, page: PageId)
    ensures var t := Unpinned(s, page);
            t.lru == s.lru && t.pageMap == s.pageMap && t.hits == s.hits && t.misses == s.misses
  {
  }
}
