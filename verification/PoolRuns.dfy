/** Runs of the buffer pool with handles: fetches, moves, drops, writes, flushes and allocations. */
module PoolRuns {
  import opened Bytes
  import opened SlottedPage
  import opened PagePool

  type HandleId = nat

  /** A handle names the page it pins and the frame it points into; a moved-from one is empty. */
  datatype Handle = Empty | On(page: PageId, frame: nat)

  datatype World = World(pool: Pool, handles: map<HandleId, Handle>)

  datatype Op =
    | Fetch(h: HandleId, page: PageId, victim: PageId)
    | MoveConstruct(dst: HandleId, src: HandleId)
    | MoveAssign(dst: HandleId, src: HandleId)
    | Drop(h: HandleId)
    | Write(h: HandleId, data: RawPage)
    | FlushPage(page: PageId)
    | FlushAll
    | Allocate(h: HandleId, victim: PageId)

  // ---------- steps ----------

  function ZeroPage(): RawPage { seq(PAGE_SIZE, _ => 0) }

  /** A new page: zero but for its magic, its id and no next page. */
  function NewPage(id: PageId): RawPage {
    Splice(ZeroPage(), 0, LittleEndian(PAGE_MAGIC, 4) + LittleEndian(id, 4) + LittleEndian(NO_PAGE, 4))
  }

  /** Such a page carries the magic number 0x41514144, its own id and 0xFFFFFFFF, and zeros after that. */
  lemma {:induction false} NewPageIsStamped(id: PageId)
    ensures Stamped(NewPage(id), id) && forall i :: 12 <= i < PAGE_SIZE ==> NewPage(id)[i] == 0
    ensures forall i :: 0 <= i < PAGE_SIZE ==> ZeroPage()[i] == 0
  {
    hide LittleEndian;
    var header := LittleEndian(PAGE_MAGIC, 4) + LittleEndian(id, 4) + LittleEndian(NO_PAGE, 4);
    var p := NewPage(id);
    assert p[..12] == p[0..12] == header;
    assert p[..4] == p[..12][..4] && p[4..8] == p[..12][4..8] && p[8..12] == p[..12][8..12];
  }

  /** What an operation needs: new handles are new, used ones exist, and any policy's choice is one
      of the candidates it was given. */
  ghost predicate Enabled(w: World, op: Op) {
    match op
    case Fetch(h, p, v) => h !in w.handles && Fetchable(w.pool, p, v)
    case MoveConstruct(dst, src) => dst !in w.handles && src in w.handles
    case MoveAssign(dst, src) => dst in w.handles && src in w.handles
    case Drop(h) => h in w.handles
    case Write(h, _) => h in w.handles && w.handles[h].On? && w.handles[h].frame < |w.pool.frames|
    case FlushPage(p) => p < |w.pool.disk|
    case FlushAll => true
    case Allocate(h, v) => h !in w.handles && Fetchable(Grown(w.pool, ZeroPage()), |w.pool.disk|, v)
  }

  /** A successful fetch gives the handle; a fetch that throws gives none. */
  function Fetching(w: World, h: HandleId, p: PageId, v: PageId): World
    requires Fetchable(w.pool, p, v)
  {
    var t := Fetched(w.pool, p, v);
    if CanFetch(w.pool, p) && p in t.pageMap then World(t, w.handles[h := On(p, t.pageMap[p])])
    else World(t, w.handles)
  }

  /** Unpins what the handle holds and empties it. */
  function Released(w: World, h: HandleId): World
    requires h in w.handles
  {
    if w.handles[h].On? then World(Unpinned(w.pool, w.handles[h].page), w.handles[h := Empty]) else w
  }

  function Transferred(w: World, dst: HandleId, src: HandleId): World
    requires src in w.handles
  {
    World(w.pool, w.handles[dst := w.handles[src]][src := Empty])
  }

  /** The destructor: release, then the handle is gone. */
  function Dropped(w: World, h: HandleId): World
    requires h in w.handles
  {
    World(Released(w, h).pool, Released(w, h).handles - {h})
  }

  function Allocating(w: World, h: HandleId, v: PageId): World
    requires Fetchable(Grown(w.pool, ZeroPage()), |w.pool.disk|, v)
  {
    Stamp(Fetching(World(Grown(w.pool, ZeroPage()), w.handles), h, |w.pool.disk|, v), h, NewPage(|w.pool.disk|))
  }

  /** Writes a page through a handle that a fetch has just given, if it gave one. */
  function Stamp(w: World, h: HandleId, page: RawPage): World {
    if h in w.handles && w.handles[h].On? && w.handles[h].frame < |w.pool.frames|
    then World(Written(w.pool, w.handles[h].frame, page), w.handles)
    else w
  }

  function Step(w: World, op: Op): World
    requires Enabled(w, op)
  {
    match op
    case Fetch(h, p, v) => Fetching(w, h, p, v)
    case MoveConstruct(dst, src) => Transferred(w, dst, src)
    case MoveAssign(dst, src) => if dst == src then w else Transferred(Released(w, dst), dst, src)
    case Drop(h) => Dropped(w, h)
    case Write(h, data) => World(Written(w.pool, w.handles[h].frame, data), w.handles)
    case FlushPage(p) => World(Flushed(w.pool, p), w.handles)
    case FlushAll => World(FlushedAll(w.pool), w.handles)
    case Allocate(h, v) => Allocating(w, h, v)
  }

  // ---------- what every step keeps ----------

  function HandlesOn(handles: map<HandleId, Handle>, p: PageId): set<HandleId> {
    set h | h in handles && handles[h].On? && handles[h].page == p
  }

  /** A live handle's page is cached in the handle's own frame. */
  ghost predicate HandlesStable(w: World) {
    forall h :: h in w.handles && w.handles[h].On? ==>
      w.handles[h].page in w.pool.pageMap && w.pool.pageMap[w.handles[h].page] == w.handles[h].frame
  }

  /** Pin counts are the numbers of live handles. */
  ghost predicate PinsCountHandles(w: World) {
    forall p :: PinOf(w.pool, p) == |HandlesOn(w.handles, p)|
  }

  ghost predicate Consistent(w: World) {
    Structured(w.pool) && HandlesStable(w) && PinsCountHandles(w)
  }

  /** The pages as a program using the pool sees them. */
  function Views(s: Pool): (v: seq<RawPage>)
    ensures |v| == |s.disk| && forall p :: 0 <= p < |v| ==> v[p] == View(s, p)
  {
    seq(|s.disk|, p requires 0 <= p < |s.disk| => View(s, p))
  }

  /** What an allocation adds: a stamped page, or a zero page if its fetch throws. */
  function AllocatedPage(s: Pool): RawPage {
    if CanFetch(Grown(s, ZeroPage()), |s.disk|) then NewPage(|s.disk|) else ZeroPage()
  }

  function Replaced(v: seq<RawPage>, h: Handle, data: RawPage): seq<RawPage> {
    if h.On? && h.page < |v| then v[h.page := data] else v
  }

  /** The effect of an operation on a plain array of pages. */
  function Effect(w: World, op: Op, v: seq<RawPage>): seq<RawPage>
    requires Enabled(w, op)
  {
    if op.Write? then Replaced(v, w.handles[op.h], op.data)
    else if op.Allocate? then v + [AllocatedPage(w.pool)]
    else v
  }

  lemma PinnedStays(w: World, h: HandleId)
    requires Consistent(w) && h in w.handles && w.handles[h].On?
    ensures PinOf(w.pool, w.handles[h].page) > 0
  {
    var p := w.handles[h].page;
    assert h in HandlesOn(w.handles, p);
  }

  /** Fetching never moves a pinned page out of its frame. */
  lemma {:induction false} FetchKeepsFrames(s: Pool, p: PageId, v: PageId, q: PageId)
    requires Fetchable(s, p, v) && PinOf(s, q) > 0
    ensures var t := Fetched(s, p, v); q in s.pageMap && q in t.pageMap && t.pageMap[q] == s.pageMap[q]
  {
    hide MapInjective, ListMatchesMap, FramesPartitioned;
    if NeedsVictim(s, p) {
      CandidateFacts(s, v);
      LoadsAfterEviction(s, p, v);
    }
  }

  lemma LoadsAfterEviction(s: Pool, p: PageId, v: PageId)
    requires Fetchable(s, p, v) && NeedsVictim(s, p)
    ensures v in s.pageMap && Fetched(s, p, v).pageMap == (s.pageMap - {v})[p := s.pageMap[v]]
  {
    CandidateFacts(s, v);
  }

  lemma {:induction false} FetchingConsistent(w: World, h: HandleId, p: PageId, v: PageId)
    requires Consistent(w) && h !in w.handles && Fetchable(w.pool, p, v)
    ensures Consistent(Fetching(w, h, p, v)) && Views(Fetching(w, h, p, v).pool) == Views(w.pool)
    ensures Fetching(w, h, p, v).handles ==
            if CanFetch(w.pool, p) then w.handles[h := On(p, Fetched(w.pool, p, v).pageMap[p])] else w.handles
  {
    FetchKeeps(w.pool, p, v);
    FetchingStable(w, h, p, v);
    FetchingPins(w, h, p, v);
    hide Structured, Fetchable, Fetched, PinOf, View, CanFetch, HandlesStable, PinsCountHandles;
    assert Fetching(w, h, p, v).pool == Fetched(w.pool, p, v);
  }

  lemma FetchingStable(w: World, h: HandleId, p: PageId, v: PageId)
    requires Consistent(w) && h !in w.handles && Fetchable(w.pool, p, v)
    ensures HandlesStable(Fetching(w, h, p, v))
  {
    var t := Fetching(w, h, p, v);
    hide Structured, Fetchable, Fetched, PinOf, View, CanFetch, PinsCountHandles;
    forall k | k in w.handles && w.handles[k].On?
      ensures var q := w.handles[k].page; q in t.pool.pageMap && t.pool.pageMap[q] == w.handles[k].frame
    {
      PinnedStays(w, k);
      FetchKeepsFrames(w.pool, p, v, w.handles[k].page);
    }
  }

  lemma FetchingPins(w: World, h: HandleId, p: PageId, v: PageId)
    requires Consistent(w) && h !in w.handles && Fetchable(w.pool, p, v)
    ensures PinsCountHandles(Fetching(w, h, p, v))
  {
    var t := Fetching(w, h, p, v);
    FetchKeeps(w.pool, p, v);
    hide Structured, Fetchable, Fetched, PinOf, View, CanFetch, HandlesStable, HandlesOn;
    forall q
      ensures PinOf(t.pool, q) == |HandlesOn(t.handles, q)|
    {
      if CanFetch(w.pool, p) {
        HandleAdded(w.handles, h, On(p, t.pool.pageMap[p]), q);
      }
    }
  }

  lemma HandleAdded(hs: map<HandleId, Handle>, h: HandleId, on: Handle, q: PageId)
    requires (h !in hs || hs[h] == Empty) && on.On?
    ensures |HandlesOn(hs[h := on], q)| == |HandlesOn(hs, q)| + if on.page == q then 1 else 0
  {
    if on.page == q {
      assert HandlesOn(hs[h := on], q) == HandlesOn(hs, q) + {h};
    } else {
      assert HandlesOn(hs[h := on], q) == HandlesOn(hs, q);
    }
  }

  lemma HandleEmptied(hs: map<HandleId, Handle>, h: HandleId, q: PageId)
    requires h in hs && hs[h].On?
    ensures |HandlesOn(hs[h := Empty], q)| == |HandlesOn(hs, q)| - if hs[h].page == q then 1 else 0
  {
    if hs[h].page == q {
      assert HandlesOn(hs, q) == HandlesOn(hs[h := Empty], q) + {h};
    } else {
      assert HandlesOn(hs[h := Empty], q) == HandlesOn(hs, q);
    }
  }

  lemma {:induction false} ReleasedConsistent(w: World, h: HandleId)
    requires Consistent(w) && h in w.handles
    ensures var t := Released(w, h);
            Consistent(t) && Views(t.pool) == Views(w.pool) && h in t.handles && t.handles[h] == Empty
    ensures Released(w, h).handles == w.handles[h := Empty]
  {
    if w.handles[h].On? {
      var p := w.handles[h].page;
      PinnedStays(w, h);
      UnpinnedStructured(w.pool, p);
      hide Structured, PinOf, View;
      var t := Released(w, h);
      forall q
        ensures PinOf(t.pool, q) == |HandlesOn(t.handles, q)|
      {
        HandleEmptied(w.handles, h, q);
      }
      assert t.pool.pageMap == w.pool.pageMap;
    } else {
      assert w.handles[h := Empty] == w.handles;
    }
  }

  lemma {:induction false} TransferredConsistent(w: World, dst: HandleId, src: HandleId)
    requires Consistent(w) && src in w.handles && dst != src && (dst in w.handles ==> w.handles[dst] == Empty)
    ensures Consistent(Transferred(w, dst, src))
  {
    var t := Transferred(w, dst, src);
    hide Structured, PinOf;
    forall q
      ensures |HandlesOn(t.handles, q)| == |HandlesOn(w.handles, q)|
    {
      if w.handles[src].On? {
        HandleAdded(w.handles, dst, w.handles[src], q);
        HandleEmptied(w.handles[dst := w.handles[src]], src, q);
      } else {
        assert HandlesOn(t.handles, q) == HandlesOn(w.handles, q);
      }
    }
  }

  lemma EmptyHandleGone(w: World, h: HandleId)
    requires Consistent(w) && h in w.handles && w.handles[h] == Empty
    ensures Consistent(World(w.pool, w.handles - {h}))
  {
    hide Structured, PinOf;
    assert forall q :: HandlesOn(w.handles - {h}, q) == HandlesOn(w.handles, q);
  }

  lemma SamePinsConsistent(w: World, s: Pool)
    requires Consistent(w) && Structured(s) && s.pageMap == w.pool.pageMap
    requires forall q :: PinOf(s, q) == PinOf(w.pool, q)
    ensures Consistent(World(s, w.handles))
  {
    hide Structured, PinOf;
  }

  lemma {:induction false} AllocatingConsistent(w: World, h: HandleId, v: PageId)
    requires Consistent(w) && h !in w.handles && Fetchable(Grown(w.pool, ZeroPage()), |w.pool.disk|, v)
    ensures Consistent(Allocating(w, h, v))
    ensures Views(Allocating(w, h, v).pool) == Views(w.pool) + [AllocatedPage(w.pool)]
  {
    hide Fetched, PinOf, View, CanFetch, HandlesOn, Stamp, NewPage, Structured, HandlesStable, PinsCountHandles;
    var id := |w.pool.disk|;
    var g := World(Grown(w.pool, ZeroPage()), w.handles);
    GrownViews(w);
    FetchingConsistent(g, h, id, v);
    var t := Fetching(g, h, id, v);
    FetchingHandle(g, h, id, v);
    if h in t.handles {
      StampConsistent(t, h, NewPage(id));
      assert (Views(w.pool) + [ZeroPage()])[id := NewPage(id)] == Views(w.pool) + [NewPage(id)];
    } else {
      assert Stamp(t, h, NewPage(id)) == t by { StampNothing(t, h, NewPage(id)); }
    }
  }

  lemma GrownViews(w: World)
    requires Consistent(w)
    ensures var g := World(Grown(w.pool, ZeroPage()), w.handles);
            Consistent(g) && Views(g.pool) == Views(w.pool) + [ZeroPage()]
  {
    GrownKeeps(w.pool, ZeroPage());
    SamePinsConsistent(w, Grown(w.pool, ZeroPage()));
    hide View;
  }

  lemma FetchingHandle(w: World, h: HandleId, p: PageId, v: PageId)
    requires Fetchable(w.pool, p, v) && h !in w.handles
    ensures var t := Fetching(w, h, p, v);
            && (h in t.handles <==> CanFetch(w.pool, p))
            && (h in t.handles ==> t.handles[h].On? && t.handles[h].page == p)
  {
    FetchKeeps(w.pool, p, v);
    hide Fetched, CanFetch, Fetchable, Structured, View, PinOf;
  }

  lemma StampNothing(w: World, h: HandleId, page: RawPage)
    requires h !in w.handles
    ensures Stamp(w, h, page) == w
  {
  }

  lemma StampConsistent(w: World, h: HandleId, page: RawPage)
    requires Consistent(w) && h in w.handles && w.handles[h].On?
    ensures w.handles[h].page < |w.pool.disk| && Consistent(Stamp(w, h, page))
    ensures Views(Stamp(w, h, page).pool) == Views(w.pool)[w.handles[h].page := page]
  {
    Framed(w, h);
    WrittenKeeps(w.pool, w.handles[h].page, page);
    hide View, PinOf;
    SamePinsConsistent(w, Written(w.pool, w.handles[h].frame, page));
  }

  lemma Framed(w: World, h: HandleId)
    requires Consistent(w) && h in w.handles && w.handles[h].On?
    ensures w.handles[h].page in w.pool.pageMap && w.handles[h].page < |w.pool.disk|
    ensures w.handles[h].frame < |w.pool.frames| && w.handles[h].frame == w.pool.pageMap[w.handles[h].page]
  {
    hide ListMatchesMap, FramesPartitioned;
  }

  /** Each step keeps the pool consistent, its handles stable and its pin counts exact, and does to
      the pages as seen through the pool what it would do to a plain array. */
  lemma {:induction false} StepIsTransparent(w: World, op: Op)
    requires Consistent(w) && Enabled(w, op)
    ensures Consistent(Step(w, op)) && Views(Step(w, op).pool) == Effect(w, op, Views(w.pool))
    ensures op.FlushAll? ==> Step(w, op).pool.disk == Views(w.pool)
  {
    hide Structured, PinOf, View, HandlesStable, PinsCountHandles;
    match op
    case Fetch(h, p, v) => FetchingConsistent(w, h, p, v);
    case MoveConstruct(dst, src) => TransferredConsistent(w, dst, src);
    case MoveAssign(dst, src) =>
      if dst != src {
        ReleasedConsistent(w, dst);
        TransferredConsistent(Released(w, dst), dst, src);
      }
    case Drop(h) =>
      ReleasedConsistent(w, h);
      EmptyHandleGone(Released(w, h), h);
    case Write(h, data) =>
      Framed(w, h);
      WrittenKeeps(w.pool, w.handles[h].page, data);
      SamePinsConsistent(w, Step(w, op).pool);
    case FlushPage(p) =>
      FlushedKeeps(w.pool, p);
      SamePinsConsistent(w, Step(w, op).pool);
    case FlushAll =>
      FlushedAllKeeps(w.pool);
      SamePinsConsistent(w, Step(w, op).pool);
    case Allocate(h, v) => AllocatingConsistent(w, h, v);
  }

  // ---------- whole runs ----------

  ghost predicate Runs(w: World, ops: seq<Op>)
    decreases |ops|
  {
    ops == [] || (Enabled(w, ops[0]) && Runs(Step(w, ops[0]), ops[1..]))
  }

  function Run(w: World, ops: seq<Op>): World
    requires Runs(w, ops)
    decreases |ops|
  {
    if ops == [] then w else Run(Step(w, ops[0]), ops[1..])
  }

  /** The same run on a plain array of pages. */
  function PlainRun(w: World, ops: seq<Op>, v: seq<RawPage>): seq<RawPage>
    requires Runs(w, ops)
    decreases |ops|
  {
    if ops == [] then v else PlainRun(Step(w, ops[0]), ops[1..], Effect(w, ops[0], v))
  }

  /** Over any run, for any policy that returns one of its candidates: free and mapped frames
      partition the pool, every pin count is the number of live handles on its page, every live
      handle's page stays in the handle's frame, and the pool is invisible over the pages. */
  lemma {:induction false} RunIsTransparent(w: World, ops: seq<Op>)
    requires Consistent(w) && Runs(w, ops)
    ensures Consistent(Run(w, ops)) && Views(Run(w, ops).pool) == PlainRun(w, ops, Views(w.pool))
    decreases |ops|
  {
    hide Consistent, Enabled, Step, Effect;
    if ops == [] {
    } else {
      StepIsTransparent(w, ops[0]);
      RunIsTransparent(Step(w, ops[0]), ops[1..]);
    }
  }

  /** A pool starts consistent. */
  lemma StartConsistent(disk: seq<RawPage>, frames: seq<RawPage>)
    ensures Consistent(World(EmptyPool(disk, frames), map[]))
  {
    EmptyStructured(disk, frames);
    assert forall p :: HandlesOn(map[], p) == {};
  }
}
