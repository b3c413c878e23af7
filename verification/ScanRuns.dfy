/** A table scan interleaved with prefetch threads, as atomic steps on one pool. */
module ScanRuns {
  import opened SlottedPage
  import opened Packing
  import opened Recency
  import opened PagePool
  import opened PoolRuns
  import opened Reading

  /** Where the scan is: about to fetch a page, between two slots of it, or inside `read_record` of a
      slot, or stopped by an exception. */
  datatype Where = AtPage(page: PageId) | InPage(page: PageId, slot: nat) | InRead(page: PageId, slot: nat) | Thrown

  datatype ScanState = ScanState(world: World, at: Where, out: seq<Located>)

  /** The scan's two handles; prefetch threads use the others. */
  const OUTER: HandleId := 0
  const INNER: HandleId := 1

  /** An atomic step of the scanning thread, or of a prefetch thread fetching or dropping a page.
      The victim is whatever candidate a policy picks if the step has to evict. */
  datatype Event =
    | Scanner(victim: PageId)
    | PrefetchFetch(h: HandleId, page: PageId, victim: PageId)
    | PrefetchDrop(h: HandleId)

  function Finished(s: ScanState): bool { s.at.AtPage? && s.at.page >= |s.world.pool.disk| }

  /** The page a handle points at, as read through its frame. */
  function Through(w: World, h: HandleId): RawPage
    requires h in w.handles && w.handles[h].On? && w.handles[h].frame < |w.pool.frames|
  {
    w.pool.frames[w.handles[h].frame]
  }

  ghost predicate HandleReady(w: World, h: HandleId) {
    h in w.handles && w.handles[h].On? && w.handles[h].frame < |w.pool.frames|
  }

  ghost predicate Can(s: ScanState, e: Event) {
    match e
    case Scanner(v) =>
      (match s.at
       case AtPage(p) => p < |s.world.pool.disk| && Enabled(s.world, Op.Fetch(OUTER, p, v))
       case InPage(p, slot) =>
         HandleReady(s.world, OUTER)
         && (slot < SlotCount(Through(s.world, OUTER)) ==> Enabled(s.world, Op.Fetch(INNER, p, v)))
       case InRead(p, slot) => HandleReady(s.world, INNER)
       case Thrown => false)
    case PrefetchFetch(h, p, v) => h != OUTER && h != INNER && Enabled(s.world, Op.Fetch(h, p, v))
    case PrefetchDrop(h) => h != OUTER && h != INNER && h in s.world.handles
  }

  function ScannerStep(s: ScanState, v: PageId): ScanState
    requires Can(s, Scanner(v))
  {
    match s.at
    case AtPage(p) =>
      var w := Step(s.world, Op.Fetch(OUTER, p, v));
      ScanState(w, if OUTER in w.handles then InPage(p, 0) else Thrown, s.out)
    case InPage(p, slot) =>
      if slot < SlotCount(Through(s.world, OUTER)) then
        var w := Step(s.world, Op.Fetch(INNER, p, v));
        ScanState(w, if INNER in w.handles then InRead(p, slot) else Thrown, s.out)
      else ScanState(Step(s.world, Op.Drop(OUTER)), AtPage(p + 1), s.out)
    case InRead(p, slot) =>
      ScanState(Step(s.world, Op.Drop(INNER)), InPage(p, slot + 1),
                s.out + Delivered(p, Through(s.world, INNER), slot))
  }

  function Next(s: ScanState, e: Event): ScanState
    requires Can(s, e)
  {
    match e
    case Scanner(v) => ScannerStep(s, v)
    case PrefetchFetch(h, p, v) => ScanState(Step(s.world, Op.Fetch(h, p, v)), s.at, s.out)
    case PrefetchDrop(h) => ScanState(Step(s.world, Op.Drop(h)), s.at, s.out)
  }

  /** Prefetches holding a page. */
  function InFlight(w: World): set<HandleId> {
    set h | h in w.handles && w.handles[h].On? && h != OUTER && h != INNER
  }

  // ---------- the invariant ----------

  /** What an undisturbed scan of `pages` has delivered by this point. */
  function Expected(pages: seq<RawPage>, at: Where): seq<Located> {
    match at
    case AtPage(p) => if p <= |pages| then FromPages(pages[..p]) else []
    case InPage(p, slot) => if p < |pages| then FromPages(pages[..p]) + FromSlots(p, pages[p], slot) else []
    case InRead(p, slot) => if p < |pages| then FromPages(pages[..p]) + FromSlots(p, pages[p], slot) else []
    case Thrown => []
  }

  /** The scan holds the handles its position calls for, on its page. */
  ghost predicate Holds(s: ScanState) {
    && (s.at.AtPage? ==> OUTER !in s.world.handles && INNER !in s.world.handles)
    && (s.at.InPage? ==>
          && OUTER in s.world.handles && INNER !in s.world.handles
          && s.world.handles[OUTER].On? && s.world.handles[OUTER].page == s.at.page)
    && (s.at.InRead? ==>
          && OUTER in s.world.handles && INNER in s.world.handles
          && s.world.handles[OUTER].On? && s.world.handles[OUTER].page == s.at.page
          && s.world.handles[INNER].On? && s.world.handles[INNER].page == s.at.page)
  }

  ghost predicate OnTrack(s: ScanState, pages: seq<RawPage>) {
    && Consistent(s.world) && Views(s.world.pool) == pages && |s.world.pool.disk| == |pages|
    && !s.at.Thrown?
    && (s.at.AtPage? ==> s.at.page <= |pages|)
    && (s.at.InPage? ==> s.at.page < |pages| && s.at.slot <= SlotCount(pages[s.at.page]))
    && (s.at.InRead? ==> s.at.page < |pages| && s.at.slot < SlotCount(pages[s.at.page]))
    && Holds(s) && s.out == Expected(pages, s.at)
  }

  lemma ReadThroughIsView(w: World, h: HandleId)
    requires Consistent(w) && h in w.handles && w.handles[h].On?
    ensures HandleReady(w, h) && w.handles[h].page < |w.pool.disk| && Through(w, h) == View(w.pool, w.handles[h].page)
  {
    Framed(w, h);
  }

  /** A pinned page has a handle on it, so there are no more pinned pages than live handles. */
  lemma {:induction false} PinnedAtMost(w: World, pinned: set<PageId>, live: set<HandleId>)
    requires Consistent(w)
    requires pinned <= PinnedPages(w.pool)
    requires forall p, h :: p in pinned && h in HandlesOn(w.handles, p) ==> h in live
    ensures |pinned| <= |live|
  {
    hide Structured, HandlesStable, PinOf;
    if pinned != {} {
      var p :| p in pinned;
      assert HandlesOn(w.handles, p) != {} by { PinnedHasHandle(w, p); }
      var h :| h in HandlesOn(w.handles, p);
      PinnedAtMost(w, pinned - {p}, live - {h});
    }
  }

  lemma PinnedHasHandle(w: World, p: PageId)
    requires Consistent(w) && p in PinnedPages(w.pool)
    ensures HandlesOn(w.handles, p) != {}
  {
  }

  /** While fewer prefetches than frames hold pages, a scan holding none can always fetch. */
  lemma {:induction false} ScanCanFetch(w: World, p: PageId)
    requires Consistent(w) && OUTER !in w.handles && INNER !in w.handles
    requires |InFlight(w)| < |w.pool.frames|
    ensures CanFetch(w.pool, p)
  {
    PinnedAtMost(w, PinnedPages(w.pool), InFlight(w));
    FetchFailsIff(w.pool, p);
  }

  // ---------- the invariant is kept ----------

  lemma FetchStep(w: World, h: HandleId, p: PageId, v: PageId)
    requires Consistent(w) && Enabled(w, Op.Fetch(h, p, v))
    ensures var t := Step(w, Op.Fetch(h, p, v));
            && Consistent(t) && Views(t.pool) == Views(w.pool)
            && t.handles.Keys == (if CanFetch(w.pool, p) then w.handles.Keys + {h} else w.handles.Keys)
            && (CanFetch(w.pool, p) ==> t.handles[h].On? && t.handles[h].page == p)
            && (forall k :: k in w.handles ==> k in t.handles && t.handles[k] == w.handles[k])
  {
    hide Consistent, CanFetch, Fetched, Fetchable, View;
    StepIsTransparent(w, Op.Fetch(h, p, v));
    FetchingConsistent(w, h, p, v);
  }

  lemma DropStep(w: World, h: HandleId)
    requires Consistent(w) && h in w.handles
    ensures var t := Step(w, Op.Drop(h));
            && Consistent(t) && Views(t.pool) == Views(w.pool) && t.handles == w.handles - {h}
  {
    hide Consistent, View;
    StepIsTransparent(w, Op.Drop(h));
    ReleasedConsistent(w, h);
    assert w.handles[h := Empty] - {h} == w.handles - {h};
  }

  lemma {:induction false} ScannerKeepsTrack(s: ScanState, v: PageId, pages: seq<RawPage>)
    requires OnTrack(s, pages) && Can(s, Scanner(v)) && |InFlight(s.world)| < |s.world.pool.frames|
    ensures OnTrack(ScannerStep(s, v), pages)
  {
    match s.at {
      case AtPage(p) => PageEntered(s, p, v, pages);
      case InPage(p, slot) => SlotReached(s, p, slot, v, pages);
      case InRead(p, slot) => SlotRead(s, p, slot, v, pages);
    }
  }

  lemma PageEntered(s: ScanState, p: PageId, v: PageId, pages: seq<RawPage>)
    requires OnTrack(s, pages) && Can(s, Scanner(v)) && |InFlight(s.world)| < |s.world.pool.frames|
    requires s.at == AtPage(p)
    ensures OnTrack(ScannerStep(s, v), pages)
  {
    hide Consistent, CanFetch, View, FromPages, FromSlots, SlotCount, Step, InFlight;
    ScanCanFetch(s.world, p);
    FetchStep(s.world, OUTER, p, v);
    assert FromSlots(p, pages[p], 0) == [] by { NoSlots(p, pages[p]); }
  }

  lemma SlotReached(s: ScanState, p: PageId, slot: nat, v: PageId, pages: seq<RawPage>)
    requires OnTrack(s, pages) && Can(s, Scanner(v)) && s.at == InPage(p, slot)
    ensures OnTrack(ScannerStep(s, v), pages)
  {
    hide Consistent, CanFetch, View, FromPages, FromSlots, SlotCount, Step, InFlight;
    ReadThroughIsView(s.world, OUTER);
    assert Views(s.world.pool)[p] == pages[p];
    if slot < SlotCount(pages[p]) {
      PinnedIsCached(s.world, OUTER);
      FetchStep(s.world, INNER, p, v);
    } else {
      DropStep(s.world, OUTER);
      SlotsSoFar(pages, p);
    }
  }

  lemma SlotRead(s: ScanState, p: PageId, slot: nat, v: PageId, pages: seq<RawPage>)
    requires OnTrack(s, pages) && Can(s, Scanner(v)) && s.at == InRead(p, slot)
    ensures OnTrack(ScannerStep(s, v), pages)
  {
    hide Consistent, CanFetch, View, FromPages, FromSlots, SlotCount, Step, InFlight;
    ReadThroughIsView(s.world, INNER);
    assert Views(s.world.pool)[p] == pages[p];
    DropStep(s.world, INNER);
    OneMoreSlot(p, pages[p], slot);
  }

  /** A scan throws exactly when it comes to a page that is not cached while every frame holds a page that
      some prefetch has pinned. */
  lemma {:induction false} ScannerThrowsIff(s: ScanState, v: PageId, pages: seq<RawPage>)
    requires OnTrack(s, pages) && Can(s, Scanner(v))
    ensures ScannerStep(s, v).at.Thrown? <==>
            && s.at.AtPage? && s.at.page !in s.world.pool.pageMap
            && |PinnedPages(s.world.pool)| == |s.world.pool.frames|
  {
    assert Structured(s.world.pool);
    hide Consistent, CanFetch, View, FromPages, FromSlots, SlotCount, Step, Structured, PinnedPages;
    match s.at {
      case AtPage(p) =>
        FetchFailsIff(s.world.pool, p);
        FetchStep(s.world, OUTER, p, v);
      case InPage(p, slot) =>
        ReadThroughIsView(s.world, OUTER);
        if slot < SlotCount(pages[p]) {
          assert Views(s.world.pool)[p] == pages[p];
          PinnedIsCached(s.world, OUTER);
          FetchStep(s.world, INNER, p, v);
        }
      case InRead(p, slot) =>
    }
  }

  lemma NoHandlesNoPins(w: World)
    requires Consistent(w) && w.handles == map[]
    ensures PinnedPages(w.pool) == {}
  {
    hide Structured, HandlesStable;
    forall p
      ensures p !in PinnedPages(w.pool)
    {
      assert HandlesOn(w.handles, p) == {};
    }
  }

  lemma OnlyFrame(s: Pool, p: PageId, q: PageId)
    requires Structured(s) && |s.frames| == 1 && PinOf(s, q) > 0 && p != q
    ensures p !in s.pageMap && PinnedPages(s) == {q}
  {
    FrameCount(s);
    hide Structured;
    if r :| r in s.pageMap && r != q {
      SubsetSize({q, r}, s.pageMap.Keys);
      assert false;
    }
  }

  /** In a pool of one frame a prefetch of another page is enough to make the scan throw. */
  lemma {:induction false} PrefetchFillsOneFrame(s: ScanState, h: HandleId, p: PageId, q: PageId, v: PageId, v': PageId,
                                                 pages: seq<RawPage>)
    requires OnTrack(s, pages) && s.at == AtPage(p) && s.world.handles == map[] && |s.world.pool.frames| == 1
    requires p != q && Can(s, PrefetchFetch(h, q, v)) && Can(Next(s, PrefetchFetch(h, q, v)), Scanner(v'))
    ensures ScannerStep(Next(s, PrefetchFetch(h, q, v)), v').at == Thrown
  {
    var t := Next(s, PrefetchFetch(h, q, v));
    PrefetchKeepsTrack(s, PrefetchFetch(h, q, v), pages);
    NoHandlesNoPins(s.world);
    assert Structured(s.world.pool) && Structured(t.world.pool);
    FetchKeeps(s.world.pool, q, v);
    hide Consistent, OnTrack, CanFetch, View, Structured, Fetched;
    FetchFailsIff(s.world.pool, q);
    OnlyFrame(t.world.pool, p, q);
    ScannerThrowsIff(t, v', pages);
  }

  lemma NoSlots(page: PageId, p: RawPage)
    ensures FromSlots(page, p, 0) == []
  {
  }

  lemma OneMoreSlot(page: PageId, p: RawPage, slot: nat)
    ensures FromSlots(page, p, slot + 1) == FromSlots(page, p, slot) + Delivered(page, p, slot)
  {
  }

  lemma PinnedIsCached(w: World, h: HandleId)
    requires Consistent(w) && h in w.handles && w.handles[h].On?
    ensures CanFetch(w.pool, w.handles[h].page)
  {
  }

  lemma {:induction false} PrefetchKeepsTrack(s: ScanState, e: Event, pages: seq<RawPage>)
    requires OnTrack(s, pages) && Can(s, e) && !e.Scanner?
    ensures OnTrack(Next(s, e), pages)
  {
    hide Consistent, CanFetch, View, FromPages, FromSlots, SlotCount, Step;
    match e
    case PrefetchFetch(h, p, v) => FetchStep(s.world, h, p, v);
    case PrefetchDrop(h) => DropStep(s.world, h);
  }

  // ---------- whole schedules ----------

  /** Every event is possible, and at each scanner step prefetches hold fewer pages than there are
      frames. */
  ghost predicate Schedule(s: ScanState, es: seq<Event>)
    decreases |es|
  {
    es == [] || (Can(s, es[0]) && (es[0].Scanner? ==> |InFlight(s.world)| < |s.world.pool.frames|)
                 && Schedule(Next(s, es[0]), es[1..]))
  }

  function After(s: ScanState, es: seq<Event>): ScanState
    requires Schedule(s, es)
    decreases |es|
  {
    if es == [] then s else After(Next(s, es[0]), es[1..])
  }

  lemma {:induction false} ScheduleKeepsTrack(s: ScanState, es: seq<Event>, pages: seq<RawPage>)
    requires OnTrack(s, pages) && Schedule(s, es)
    ensures OnTrack(After(s, es), pages)
    decreases |es|
  {
    hide OnTrack, Can, ScannerStep, InFlight;
    if es == [] {
    } else {
      if es[0].Scanner? {
        ScannerKeepsTrack(s, es[0].victim, pages);
      } else {
        PrefetchKeepsTrack(s, es[0], pages);
      }
      ScheduleKeepsTrack(Next(s, es[0]), es[1..], pages);
    }
  }

  lemma {:induction false} FirstSlots(page: PageId, p: RawPage, slot: nat, n: nat)
    requires slot <= n
    ensures FromSlots(page, p, slot) <= FromSlots(page, p, n)
  {
    if slot < n {
      FirstSlots(page, p, slot, n - 1);
    }
  }

  lemma {:induction false} FirstPages(pages: seq<RawPage>, p: PageId)
    requires p <= |pages|
    ensures FromPages(pages[..p]) <= FromPages(pages)
  {
    if p < |pages| {
      var n := |pages| - 1;
      FirstPages(pages[..n], p);
      assert pages[..n][..p] == pages[..p];
    } else {
      assert pages[..p] == pages;
    }
  }

  lemma ExpectedIsPrefix(pages: seq<RawPage>, at: Where)
    requires at.AtPage? ==> at.page <= |pages|
    requires at.InPage? || at.InRead? ==> at.page < |pages| && at.slot <= SlotCount(pages[at.page])
    ensures Expected(pages, at) <= FromPages(pages)
  {
    hide FromPages, FromSlots, SlotCount;
    match at
    case AtPage(p) => FirstPages(pages, p);
    case InPage(p, slot) => SlotsArePrefix(pages, p, slot);
    case InRead(p, slot) => SlotsArePrefix(pages, p, slot);
    case Thrown =>
  }

  lemma SlotsArePrefix(pages: seq<RawPage>, p: PageId, slot: nat)
    requires p < |pages| && slot <= SlotCount(pages[p])
    ensures FromPages(pages[..p]) + FromSlots(p, pages[p], slot) <= FromPages(pages)
  {
    hide FromPages, FromSlots, SlotCount;
    FirstSlots(p, pages[p], slot, SlotCount(pages[p]));
    SlotsSoFar(pages, p);
    FirstPages(pages, p + 1);
  }

  /** Prefetch changes nothing a scan delivers: for every interleaving in which prefetches hold fewer
      pages than there are frames, the scan throws nothing, has delivered at every point a prefix of
      what the pages hold in order, and when it ends has delivered all of it. */
  lemma {:induction false} ScanIgnoresPrefetch(w: World, es: seq<Event>)
    requires Consistent(w) && OUTER !in w.handles && INNER !in w.handles
    requires Schedule(ScanState(w, AtPage(0), []), es)
    ensures var s := After(ScanState(w, AtPage(0), []), es);
            && !s.at.Thrown? && s.out <= FromPages(Views(w.pool))
            && (Finished(s) ==> s.out == FromPages(Views(w.pool)))
  {
    var pages, start := Views(w.pool), ScanState(w, AtPage(0), []);
    hide FromSlots, SlotCount, Consistent, View;
    assert pages[..0] == [];
    assert OnTrack(start, pages);
    ScheduleKeepsTrack(start, es, pages);
    var s := After(start, es);
    ExpectedIsPrefix(pages, s.at);
    assert pages[..|pages|] == pages;
  }
}
