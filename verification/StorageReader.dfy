/** The reader: one record by its id, and the ordered scan, through the page cache. */
module StorageReader {
  import opened SlottedPage
  import opened Packing
  import opened EvictionPolicy
  import opened PagePool
  import opened PoolRuns
  import opened PageCache
  import opened StorageEngine
  import opened Reading

  const PREFETCH_LOOKAHEAD := 2

  /** A read returns a result, or throws because every frame holds a pinned page. */
  datatype Outcome = Read(result: ReadResult) | PoolFull

  /** A fetch by a reader holding no page yet succeeds when some frame is not pinned. */
  ghost predicate Roomy(s: Pool) { |PinnedPages(s)| < |s.frames| }

  lemma RoomyFetch(s: Pool, p: PageId)
    requires Structured(s) && Roomy(s)
    ensures CanFetch(s, p)
  {
    FetchFailsIff(s, p);
  }

  lemma PinnedFetch(s: Pool, p: PageId)
    requires PinOf(s, p) > 0
    ensures CanFetch(s, p)
  {
  }

  function Times(page: PageId, n: nat): (ps: seq<PageId>)
    ensures |ps| == n && forall i :: 0 <= i < n ==> ps[i] == page
  {
    seq(n, _ => page)
  }

  /** The `n` pages after a page. */
  function Following(page: PageId, n: nat): (ps: seq<PageId>)
    ensures |ps| == n && forall i :: 0 <= i < n ==> ps[i] == page + 1 + i
  {
    seq(n, i requires 0 <= i < n => page + 1 + i)
  }

  /** The pages that a scan prefetches after a page: the next two, as far as there are any. */
  function Ahead(page: PageId, total: nat): (ps: seq<PageId>)
    ensures |ps| <= PREFETCH_LOOKAHEAD == 2 && forall i :: 0 <= i < |ps| ==> ps[i] == page + 1 + i < total
    ensures |ps| == 2 || page + 1 + |ps| >= total
  {
    var left := if page + 1 < total then total - page - 1 else 0;
    Following(page, if left < PREFETCH_LOOKAHEAD then left else PREFETCH_LOOKAHEAD)
  }

  lemma OneMoreTime(page: PageId, n: nat)
    ensures Times(page, 0) == [] && Times(page, n) + [page] == Times(page, n + 1)
  {
  }

  lemma OneFurther(page: PageId, n: nat)
    ensures Following(page, 0) == [] && Following(page, n) + [page + 1 + n] == Following(page, n + 1)
  {
  }

  /** After fetching a page, a scan asks for it once for each slot and then for the pages ahead. */
  function PageRequests(page: PageId, p: RawPage, total: nat): seq<PageId> {
    Times(page, SlotCount(p)) + Ahead(page, total)
  }

  /** All that a scan of these pages asks for. */
  function ScanRequests(pages: seq<RawPage>, total: nat): seq<PageId> {
    if pages == [] then []
    else
      var n := |pages| - 1;
      ScanRequests(pages[..n], total) + ([n] + PageRequests(n, pages[n], total))
  }

  lemma RequestsSoFar(pages: seq<RawPage>, p: PageId, total: nat)
    requires p < |pages|
    ensures ScanRequests(pages[..p + 1], total)
            == ScanRequests(pages[..p], total) + ([p] + PageRequests(p, pages[p], total))
  {
    assert pages[..p + 1][..p] == pages[..p];
  }

  class StorageReader {
    const engine: StorageEngine

    constructor (engine: StorageEngine)
      ensures this.engine == engine
    {
      this.engine := engine;
    }

    /** Reads one record: fetch the page, decode the slot, drop the handle. */
    method ReadRecord(rid: RecordId, hint: WorkloadHint) returns (r: Outcome)
      requires engine.Valid()
      modifies engine.cache, engine.file, engine.cache.Watchers()
      ensures engine.Valid() && SameView(old(engine.State()), engine.State())
      ensures Clean(old(engine.State())) ==> Clean(engine.State()) && engine.file.pages == old(engine.file.pages)
      ensures r.PoolFull? <==> rid.page < engine.pageCount && !CanFetch(old(engine.State()), rid.page)
      ensures r.Read? ==> r.result == if rid.page < engine.pageCount
                then ReadSlot(View(old(engine.State()), rid.page), rid.slot) else Missing
      ensures engine.Asked(if rid.page < engine.pageCount then [rid.page] else [])
    {
      hide PageCache.Valid, Fetched, CanFetch, Fetchable, PinOf, Unpinned, View, ReadSlot, Clean, Structured, SameView,
           StorageEngine.Observed;
      if rid.page >= engine.pageCount {
        SameViewReflexive(engine.State());
        return Read(Missing);
      }
      ghost var s := engine.State();
      ghost var victim;
      var h;
      h, victim := engine.FetchPage(rid.page, hint);
      FetchHeld(s, rid.page, victim);
      if h == null {
        return PoolFull;
      }
      if Clean(s) {
        CleanUnpin(engine.State(), rid.page);
      }
      var page := h.RawData();
      r := Read(ReadSlot(page, rid.slot));
      UnpinnedOnlyPins(engine.State(), rid.page);
      h.Destroy();
    }

    /** One page of the scan: fetch it, read its slots and prefetch the next ones, drop it. */
    method ScanPage(page: PageId, hint: WorkloadHint) returns (out: seq<Located>, threw: bool)
      requires engine.Valid() && page < engine.pageCount
      modifies engine.cache, engine.file, engine.cache.Watchers()
      ensures engine.Valid() && SameView(old(engine.State()), engine.State())
      ensures Clean(old(engine.State())) ==> Clean(engine.State()) && engine.file.pages == old(engine.file.pages)
      ensures threw <==> !CanFetch(old(engine.State()), page)
      ensures !threw ==>
                var p := View(old(engine.State()), page); out == FromSlots(page, p, SlotCount(p))
      ensures !threw ==>
                engine.Asked([page] + PageRequests(page, View(old(engine.State()), page), engine.pageCount))
    {
      hide PageCache.Valid, Fetched, CanFetch, Fetchable, PinOf, Unpinned, View, ReadSlot, SlotCount, Clean,
           Structured, SameView,
           StorageEngine.WithMore, StorageEngine.Observed, PageRequests;
      ghost var s := engine.State();
      ghost var victim;
      var h;
      h, victim := engine.FetchPage(page, hint);
      FetchHeld(s, page, victim);
      out := [];
      if h == null {
        return [], true;
      }
      ghost var t := engine.State();
      threw := false;
      var p := h.RawData();
      engine.MoreTwice(old(engine.Observed()), [page], PageRequests(page, p, engine.pageCount));
      out := ReadSlots(page, p, hint);
      ghost var u := engine.State();
      UnpinnedOnlyPins(u, page);
      engine.PoolStructured();
      SameAfterDrop(s, t, u, page);
      if Clean(s) {
        CleanUnpin(u, page);
      }
      h.Destroy();
    }

    /** The slots of a page that the scan has pinned, in order, and then the prefetches. */
    method ReadSlots(page: PageId, p: RawPage, hint: WorkloadHint) returns (out: seq<Located>)
      requires engine.Valid() && page < engine.pageCount
      requires PinOf(engine.State(), page) > 0 && p == View(engine.State(), page)
      modifies engine.cache, engine.file, engine.cache.Watchers()
      ensures engine.Valid() && SameView(old(engine.State()), engine.State())
      ensures Clean(old(engine.State())) ==> Clean(engine.State()) && engine.file.pages == old(engine.file.pages)
      ensures out == FromSlots(page, p, SlotCount(p))
      ensures engine.Asked(PageRequests(page, p, engine.pageCount))
    {
      hide PageCache.Valid, CanFetch, PinOf, View, ReadSlot, SlotCount, Clean, Structured, StorageEngine.Observed,
           StorageEngine.WithMore, Ahead;
      ghost var s := engine.State();
      SameViewReflexive(s);
      engine.NoneMore(engine.Observed());
      OneMoreTime(page, 0);
      out := [];
      var slot := 0;
      while slot < SlotCount(p)
        invariant slot <= SlotCount(p) && engine.Valid() && SameView(s, engine.State())
        invariant Clean(s) ==> Clean(engine.State()) && engine.file.pages == old(engine.file.pages)
        invariant out == FromSlots(page, p, slot)
        invariant engine.Requests() == old(engine.Requests()) + slot
        invariant engine.Observed() == engine.WithMore(old(engine.Observed()), Times(page, slot))
      {
        ghost var t := engine.State();
        PinnedFetch(t, page);
        OneMoreTime(page, slot);
        engine.MoreTwice(old(engine.Observed()), Times(page, slot), [page]);
        var r := ReadRecord(RecordId(page, slot), hint);
        SameViewTransitive(s, t, engine.State());
        if r.Read? && r.result.Found? {
          out := out + [Located(RecordId(page, slot), r.result.entry)];
        }
        slot := slot + 1;
      }
      engine.MoreTwice(old(engine.Observed()), Times(page, slot), Ahead(page, engine.pageCount));
      PrefetchAhead(page, engine.pageCount);
    }

    /** The ordered scan, page by page. */
    method Scan(hint: WorkloadHint) returns (out: seq<Located>, threw: bool)
      requires engine.Valid()
      modifies engine.cache, engine.file, engine.cache.Watchers()
      ensures engine.Valid() && SameView(old(engine.State()), engine.State())
      ensures Clean(old(engine.State())) ==> Clean(engine.State()) && engine.file.pages == old(engine.file.pages)
      ensures engine.pageCount == 0 || Roomy(old(engine.State())) ==> !threw
      ensures engine.pageCount > 0 && old(engine.State()).frames == [] ==> threw
      ensures !threw ==> out == FromPages(Views(old(engine.State()))[..engine.pageCount])
      ensures !threw ==>
                engine.Asked(ScanRequests(Views(old(engine.State()))[..engine.pageCount], engine.pageCount))
    {
      hide PageCache.Valid, CanFetch, PinOf, View, SlotCount, Clean, FromSlots, Structured, Roomy, PageRequests,
           StorageEngine.WithMore, StorageEngine.Observed;
      ghost var s := engine.State();
      ghost var pages := Views(s);
      var total := engine.pageCount;
      out, threw := [], false;
      engine.NoneMore(engine.Observed());
      var page := 0;
      while page < total
        invariant page <= total == engine.pageCount <= |pages| && engine.Valid() && SameView(s, engine.State())
        invariant Clean(s) ==> Clean(engine.State()) && engine.file.pages == old(engine.file.pages)
        invariant out == FromPages(pages[..page]) && (s.frames == [] ==> page == 0)
        invariant engine.Asked(ScanRequests(pages[..page], total))
      {
        ghost var t := engine.State();
        engine.PoolStructured();
        if Roomy(s) {
          StillRoomy(s, t);
          RoomyFetch(t, page);
        }
        NoFrames(t, page);
        assert View(t, page) == pages[page];
        RequestsSoFar(pages, page, total);
        engine.MoreTwice(old(engine.Observed()), ScanRequests(pages[..page], total),
                         [page] + PageRequests(page, pages[page], total));
        var delivered, failed := ScanPage(page, hint);
        SameViewTransitive(s, t, engine.State());
        if failed {
          return [], true;
        }
        SlotsSoFar(pages, page);
        out := out + delivered;
        page := page + 1;
      }
    }

    /** Prefetches the next pages, ignoring any error. */
    method PrefetchAhead(page: PageId, total: nat)
      requires engine.Valid() && total <= engine.pageCount
      modifies engine.cache, engine.file, engine.cache.Watchers()
      ensures engine.Valid() && forall s :: SameView(s, old(engine.State())) ==> SameView(s, engine.State())
      ensures Clean(old(engine.State())) ==> Clean(engine.State()) && engine.file.pages == old(engine.file.pages)
      ensures engine.Asked(Ahead(page, total))
    {
      hide PageCache.Valid, PinOf, View, Clean, StorageEngine.Observed, CanFetch, Fetchable, Fetched, Unpinned,
           StorageEngine.WithMore;
      ghost var s := engine.State();
      SameViewReflexive(s);
      engine.NoneMore(engine.Observed());
      OneFurther(page, 0);
      var ahead := 1;
      while ahead <= PREFETCH_LOOKAHEAD && page + ahead < total
        invariant 1 <= ahead <= PREFETCH_LOOKAHEAD + 1 && (ahead > 1 ==> page + ahead <= total)
        invariant engine.Requests() == old(engine.Requests()) + (ahead - 1)
        invariant engine.Observed() == engine.WithMore(old(engine.Observed()), Following(page, ahead - 1))
        invariant engine.Valid() && SameView(s, engine.State())
        invariant Clean(s) ==> Clean(engine.State()) && engine.file.pages == old(engine.file.pages)
      {
        ghost var t := engine.State();
        OneFurther(page, ahead - 1);
        engine.MoreTwice(old(engine.Observed()), Following(page, ahead - 1), [page + ahead]);
        ghost var victim := engine.PrefetchPage(page + ahead);
        SameViewTransitive(s, t, engine.State());
        ahead := ahead + 1;
      }
      forall u | SameView(u, s)
        ensures SameView(u, engine.State())
      {
        SameViewTransitive(u, s, engine.State());
      }
    }
  }

  /** What a fetch by the scan gives it, and what it leaves if the fetch throws. */
  lemma FetchHeld(s: Pool, page: PageId, victim: PageId)
    requires Fetchable(s, page, victim)
    ensures var t := Fetched(s, page, victim);
            && Structured(t) && (Clean(s) ==> Clean(t) && t.disk == s.disk)
            && (if CanFetch(s, page) then PinOf(t, page) == PinOf(s, page) + 1
                && SameView(s, Unpinned(t, page)) else SameView(s, t))
            && page < |s.disk| && page < |t.disk| && View(t, page) == View(s, page)
  {
    hide View, PinOf, Fetched, CanFetch, Unpinned, SameView;
    FetchAndDrop(s, page, victim);
    FetchKeeps(s, page, victim);
    if Clean(s) {
      hide Clean;
      CleanFetch(s, page, victim);
    }
  }

  lemma NoFrames(s: Pool, page: PageId)
    requires Structured(s)
    ensures s.frames == [] ==> !CanFetch(s, page)
  {
    FrameCount(s);
    CandidatesAreUnpinned(s, s.lru);
    if Candidates(s) != [] {
      assert Candidates(s)[0] in Candidates(s);
    }
  }

  lemma SameViewReflexive(s: Pool)
    ensures SameView(s, s)
  {
  }

  lemma StillRoomy(s: Pool, t: Pool)
    requires Roomy(s) && SameView(s, t)
    ensures Roomy(t)
  {
    PinnedPagesSame(s, t);
  }

  /** Dropping the pin taken at the start of a page's reads restores the first state's counts. */
  lemma SameAfterDrop(s: Pool, t: Pool, u: Pool, page: PageId)
    requires Structured(u) && SameView(s, Unpinned(t, page)) && SameView(t, u)
    requires Structured(t) && PinOf(t, page) == PinOf(s, page) + 1
    ensures SameView(s, Unpinned(u, page))
  {
    UnpinnedStructured(t, page);
    UnpinnedStructured(u, page);
    hide View, PinOf, Unpinned, Structured;
    assert |Unpinned(u, page).disk| == |u.disk| && |Unpinned(u, page).frames| == |u.frames|
        by { UnpinnedSizes(u, page); }
    assert |Unpinned(t, page).disk| == |t.disk| && |Unpinned(t, page).frames| == |t.frames|
        by { UnpinnedSizes(t, page); }
  }

  lemma UnpinnedSizes(s: Pool, page: PageId)
    ensures Unpinned(s, page).disk == s.disk && Unpinned(s, page).frames == s.frames
  {
  }

  lemma CleanUnpin(s: Pool, page: PageId)
    requires Structured(s) && Clean(s)
    ensures Clean(Unpinned(s, page)) && Unpinned(s, page).disk == s.disk
  {
    UnpinnedStructured(s, page);
  }
}
