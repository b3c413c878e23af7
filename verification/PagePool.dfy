/** The buffer pool as a value: frames, pin counts, page map, recency list, free list and disk. */
module PagePool {
  import opened SlottedPage
  import opened Recency

  type PageId = nat

  datatype Pool = Pool(disk: seq<RawPage>, frames: seq<RawPage>, pins: seq<nat>, pageMap: map<PageId, nat>,
                       lru: seq<PageId>, free: seq<nat>, hits: nat, misses: nat)

  // ---------- the structure ----------

  ghost predicate MapInjective(s: Pool) {
    && |s.pins| == |s.frames|
    && (forall p :: p in s.pageMap ==> s.pageMap[p] < |s.frames| && p < |s.disk|)
    && (forall p, q :: p in s.pageMap && q in s.pageMap && s.pageMap[p] == s.pageMap[q] ==> p == q)
  }

  ghost predicate ListMatchesMap(s: Pool) {
    Distinct(s.lru) && forall p :: p in s.lru <==> p in s.pageMap
  }

  /** Free and mapped frames partition the pool; free frames are unpinned. */
  ghost predicate FramesPartitioned(s: Pool) {
    && Distinct(s.free)
    && (forall f :: f in s.free ==> f < |s.frames| && f < |s.pins| && s.pins[f] == 0)
    && (forall f :: f in s.free ==> f !in s.pageMap.Values)
    && (forall f :: 0 <= f < |s.frames| ==> f in s.free || f in s.pageMap.Values)
  }

  ghost predicate Structured(s: Pool) {
    MapInjective(s) && ListMatchesMap(s) && FramesPartitioned(s)
  }

  function EmptyPool(disk: seq<RawPage>, frames: seq<RawPage>): Pool {
    Pool(disk, frames, seq(|frames|, _ => 0), map[], [], seq(|frames|, i => i), 0, 0)
  }

  // ---------- operations ----------

  function PinOf(s: Pool, p: PageId): nat {
    if p in s.pageMap && s.pageMap[p] < |s.pins| then s.pins[s.pageMap[p]] else 0
  }

  /** The unpinned pages of a stretch of the recency list, least recently used first. */
  function UnpinnedOldestFirst(s: Pool, l: seq<PageId>): (c: seq<PageId>) {
    if l == [] then []
    else (if PinOf(s, l[|l| - 1]) == 0 then [l[|l| - 1]] else []) + UnpinnedOldestFirst(s, l[..|l| - 1])
  }

  /** A stretch's candidates are its unpinned pages. */
  lemma {:induction false} CandidatesAreUnpinned(s: Pool, l: seq<PageId>)
    ensures forall p :: p in UnpinnedOldestFirst(s, l) <==> p in l && PinOf(s, p) == 0
  {
    if l == [] {
    } else {
      CandidatesAreUnpinned(s, l[..|l| - 1]);
      assert l == l[..|l| - 1] + [l[|l| - 1]];
    }
  }

  function Candidates(s: Pool): seq<PageId> { UnpinnedOldestFirst(s, s.lru) }

  function Hit(s: Pool, p: PageId): Pool
    requires p in s.pageMap && s.pageMap[p] < |s.pins|
  {
    var f := s.pageMap[p];
    s.(hits := s.hits + 1, lru := MoveToFront(s.lru, p), pins := s.pins[f := s.pins[f] + 1])
  }

  function Missed(s: Pool): Pool { s.(misses := s.misses + 1) }

  predicate Evictable(s: Pool, victim: PageId) {
    victim in s.pageMap && s.pageMap[victim] < |s.frames| && victim < |s.disk|
  }

  /** Writes the victim back and frees its frame. */
  function Evicted(s: Pool, victim: PageId): Pool
    requires Evictable(s, victim)
  {
    var f := s.pageMap[victim];
    s.(disk := s.disk[victim := s.frames[f]], pageMap := s.pageMap - {victim}, lru := Without(s.lru, victim),
       free := [f] + s.free)
  }

  /** Copies a page from disk into the first free frame and pins it once. */
  function Loaded(s: Pool, p: PageId): Pool
    requires s.free != [] && s.free[0] < |s.frames| && s.free[0] < |s.pins| && p < |s.disk|
  {
    var f := s.free[0];
    s.(frames := s.frames[f := s.disk[p]], pins := s.pins[f := 1], pageMap := s.pageMap[p := f], lru := [p] + s.lru,
       free := s.free[1..])
  }

  /** A fetch fails only when the page is not there and every frame holds a pinned page. */
  predicate CanFetch(s: Pool, p: PageId) {
    p in s.pageMap || s.free != [] || Candidates(s) != []
  }

  predicate NeedsVictim(s: Pool, p: PageId) { p !in s.pageMap && s.free == [] && Candidates(s) != [] }

  ghost predicate Fetchable(s: Pool, p: PageId, victim: PageId) {
    Structured(s) && p < |s.disk| && (NeedsVictim(s, p) ==> victim in Candidates(s))
  }

  function Fetched(s: Pool, p: PageId, victim: PageId): Pool
    requires Fetchable(s, p, victim)
  {
    if p in s.pageMap then Hit(s, p)
    else if s.free != [] then
      FreeFramesExist(s);
      Loaded(Missed(s), p)
    else if Candidates(s) == [] then Missed(s)
    else
      CandidateFacts(s, victim);
      Loaded(Evicted(Missed(s), victim), p)
  }

  function Unpinned(s: Pool, p: PageId): Pool {
    if PinOf(s, p) > 0 then s.(pins := s.pins[s.pageMap[p] := PinOf(s, p) - 1]) else s
  }

  /** A write through a handle, into its frame. */
  function Written(s: Pool, frame: nat, page: RawPage): Pool
    requires frame < |s.frames|
  {
    s.(frames := s.frames[frame := page])
  }

  function View(s: Pool, p: PageId): RawPage
    requires p < |s.disk|
  {
    if p in s.pageMap && s.pageMap[p] < |s.frames| then s.frames[s.pageMap[p]] else s.disk[p]
  }

  function Flushed(s: Pool, p: PageId): Pool
    requires p < |s.disk|
  {
    s.(disk := s.disk[p := View(s, p)])
  }

  function FlushedAll(s: Pool): Pool {
    s.(disk := seq(|s.disk|, p requires 0 <= p < |s.disk| => View(s, p)))
  }

  function Grown(s: Pool, page: RawPage): Pool { s.(disk := s.disk + [page]) }

  // ---------- structure is kept ----------

  lemma FreeFramesExist(s: Pool)
    requires FramesPartitioned(s)
    ensures s.free != [] ==> s.free[0] < |s.frames| && s.free[0] < |s.pins|
  {
    if s.free != [] {
      assert s.free[0] in s.free;
    }
  }

  lemma EmptyStructured(disk: seq<RawPage>, frames: seq<RawPage>)
    ensures Structured(EmptyPool(disk, frames))
  {
    var s := EmptyPool(disk, frames);
    forall f | 0 <= f < |frames|
      ensures f in s.free
    {
      assert s.free[f] == f;
    }
  }

  lemma HitStructured(s: Pool, p: PageId)
    requires Structured(s) && p in s.pageMap
    ensures Structured(Hit(s, p))
    ensures forall q :: PinOf(Hit(s, p), q) == PinOf(s, q) + if q == p then 1 else 0
    ensures forall q :: 0 <= q < |s.disk| ==> View(Hit(s, p), q) == View(s, q)
  {
    HitLists(s, p);
    assert s.pageMap[p] in s.pageMap.Values;
    hide Without, Distinct, ListMatchesMap;
  }

  lemma HitLists(s: Pool, p: PageId)
    requires Structured(s) && p in s.pageMap
    ensures ListMatchesMap(Hit(s, p))
  {
    WithoutDistinct(s.lru, p);
    hide FramesPartitioned;
  }

  lemma {:induction false} EvictedStructured(s: Pool, v: PageId)
    requires Structured(s) && v in s.pageMap && PinOf(s, v) == 0
    ensures Structured(Evicted(s, v))
    ensures forall q :: PinOf(Evicted(s, v), q) == PinOf(s, q)
    ensures forall q :: 0 <= q < |s.disk| ==> View(Evicted(s, v), q) == View(s, q)
  {
    EvictedLists(s, v);
    EvictedFrames(s, v);
    hide Without, Distinct, FramesPartitioned, ListMatchesMap;
  }

  lemma EvictedLists(s: Pool, v: PageId)
    requires Structured(s) && v in s.pageMap
    ensures ListMatchesMap(Evicted(s, v))
  {
    WithoutDistinct(s.lru, v);
    CandidatesAreUnpinned(s, s.lru);
    hide Distinct, FramesPartitioned;
  }

  lemma EvictedFrames(s: Pool, v: PageId)
    requires Structured(s) && v in s.pageMap && PinOf(s, v) == 0
    ensures FramesPartitioned(Evicted(s, v))
  {
    hide Without, ListMatchesMap;
    var t, f := Evicted(s, v), s.pageMap[v];
    assert f in s.pageMap.Values;
    forall g | g in t.pageMap.Values
      ensures g in s.pageMap.Values && g != f
    {
      var p :| p in t.pageMap && t.pageMap[p] == g;
      assert s.pageMap[p] == g;
    }
    forall g | g in s.pageMap.Values && g != f
      ensures g in t.pageMap.Values
    {
      var p :| p in s.pageMap && s.pageMap[p] == g;
      assert t.pageMap[p] == g;
    }
  }

  lemma {:induction false} LoadedStructured(s: Pool, p: PageId)
    requires Structured(s) && p !in s.pageMap && p < |s.disk| && s.free != []
    ensures s.free[0] < |s.frames| && s.free[0] < |s.pins| && Structured(Loaded(s, p))
    ensures forall q :: PinOf(Loaded(s, p), q) == PinOf(s, q) + if q == p then 1 else 0
    ensures forall q :: 0 <= q < |s.disk| ==> View(Loaded(s, p), q) == View(s, q)
  {
    FreeFramesExist(s);
    LoadedFrames(s, p);
    var f := s.free[0];
    assert f in s.free;
    assert forall q :: q in s.pageMap ==> s.pageMap[q] in s.pageMap.Values;
    hide FramesPartitioned;
  }

  lemma LoadedFrames(s: Pool, p: PageId)
    requires Structured(s) && p !in s.pageMap && p < |s.disk| && s.free != []
    requires s.free[0] < |s.frames| && s.free[0] < |s.pins|
    ensures FramesPartitioned(Loaded(s, p))
  {
    hide ListMatchesMap;
    var t, f := Loaded(s, p), s.free[0];
    assert s.free == [f] + s.free[1..] && f !in s.free[1..] && Distinct(s.free[1..]);
    assert forall g :: g in t.free ==> g in s.free && g != f;
    forall g | g in t.pageMap.Values
      ensures g in s.pageMap.Values || g == f
    {
      var q :| q in t.pageMap && t.pageMap[q] == g;
      assert q != p ==> s.pageMap[q] == g;
    }
    forall g | g in s.pageMap.Values || g == f
      ensures g in t.pageMap.Values
    {
      if g == f {
        assert t.pageMap[p] == f;
      } else {
        var q :| q in s.pageMap && s.pageMap[q] == g;
        assert t.pageMap[q] == g;
      }
    }
  }

  lemma UnpinnedStructured(s: Pool, p: PageId)
    requires Structured(s)
    ensures Structured(Unpinned(s, p))
    ensures forall q :: PinOf(Unpinned(s, p), q) == if q == p && PinOf(s, p) > 0 then PinOf(s, p) - 1 else PinOf(s, q)
    ensures forall q :: 0 <= q < |s.disk| ==> View(Unpinned(s, p), q) == View(s, q)
  {
    hide Distinct;
    assert p in s.pageMap ==> s.pageMap[p] in s.pageMap.Values;
  }

  lemma {:induction false} FetchKeeps(s: Pool, p: PageId, victim: PageId)
    requires Fetchable(s, p, victim)
    ensures var t := Fetched(s, p, victim);
            && Structured(t) && |t.disk| == |s.disk| && |t.frames| == |s.frames|
            && (forall q :: 0 <= q < |s.disk| ==> View(t, q) == View(s, q))
            && (forall q :: PinOf(t, q) == PinOf(s, q) + if q == p && CanFetch(s, p) then 1 else 0)
            && (CanFetch(s, p) ==> p in t.pageMap)
            && (!CanFetch(s, p) ==> t == s.(misses := s.misses + 1))
  {
    hide PinOf, View, MapInjective, ListMatchesMap, FramesPartitioned, Candidates;
    if p in s.pageMap {
      HitStructured(s, p);
    } else {
      MissKeeps(s);
      var m := Missed(s);
      if s.free != [] {
        LoadedStructured(m, p);
      } else if CanFetch(s, p) {
        CandidateFacts(s, victim);
        EvictedStructured(m, victim);
        LoadedStructured(Evicted(m, victim), p);
      }
    }
  }

  lemma MissKeeps(s: Pool)
    requires Structured(s)
    ensures Structured(Missed(s))
    ensures forall q :: PinOf(Missed(s), q) == PinOf(s, q)
    ensures forall q :: 0 <= q < |s.disk| ==> View(Missed(s), q) == View(s, q)
  {
  }

  lemma CandidateFacts(s: Pool, victim: PageId)
    requires Structured(s) && victim in Candidates(s)
    ensures victim in s.pageMap && s.pageMap[victim] < |s.frames| && victim < |s.disk| && PinOf(s, victim) == 0
  {
    CandidatesAreUnpinned(s, s.lru);
    hide Distinct, FramesPartitioned;
  }

  /** A fetch counts one hit or one miss, puts its page at the front of the recency list, and lets go of no
      page but the victim it needs. */
  lemma {:induction false} FetchEffects(s: Pool, p: PageId, victim: PageId)
    requires Fetchable(s, p, victim)
    ensures var t := Fetched(s, p, victim);
            && t.hits == s.hits + (if p in s.pageMap then 1 else 0)
            && t.misses == s.misses + (if p in s.pageMap then 0 else 1)
            && (CanFetch(s, p) ==> t.lru != [] && t.lru[0] == p)
            && (CanFetch(s, p) ==>
                  t.pageMap.Keys == s.pageMap.Keys - (if NeedsVictim(s, p) then {victim} else {}) + {p})
  {
    hide MapInjective, ListMatchesMap, FramesPartitioned, Candidates, Without;
    if p !in s.pageMap && s.free == [] && Candidates(s) != [] {
      CandidateFacts(s, victim);
    }
  }

  /** Candidates come least recently used first: an earlier one stands later in the recency list. */
  lemma {:induction false} CandidatesOldestFirst(s: Pool, l: seq<PageId>, i: nat, j: nat)
    requires i < j < |UnpinnedOldestFirst(s, l)|
    ensures var c := UnpinnedOldestFirst(s, l);
            exists a: nat, b: nat :: b < a < |l| && l[a] == c[i] && l[b] == c[j]
  {
    var n := |l| - 1;
    var front := l[..n];
    var rest, all := UnpinnedOldestFirst(s, front), UnpinnedOldestFirst(s, l);
    if PinOf(s, l[n]) != 0 {
      CandidatesOldestFirst(s, front, i, j);
      var a: nat, b: nat :| b < a < |front| && front[a] == rest[i] && front[b] == rest[j];
      assert l[a] == all[i] && l[b] == all[j];
    } else if i > 0 {
      CandidatesOldestFirst(s, front, i - 1, j - 1);
      var a: nat, b: nat :| b < a < |front| && front[a] == rest[i - 1] && front[b] == rest[j - 1];
      assert l[a] == all[i] && l[b] == all[j];
    } else {
      CandidatesAreUnpinned(s, front);
      assert all[j] == rest[j - 1] && rest[j - 1] in rest;
      var b :| 0 <= b < |front| && front[b] == all[j];
      assert l[n] == all[i] && l[b] == all[j];
    }
  }

  // ---------- when a fetch fails ----------

  function PinnedPages(s: Pool): set<PageId> { set p | p in s.pageMap && PinOf(s, p) > 0 }

  lemma {:induction false} ValuesSize(m: map<PageId, nat>)
    requires forall p, q :: p in m && q in m && m[p] == m[q] ==> p == q
    ensures |m.Values| == |m|
  {
    if m == map[] {
      assert m.Values == {};
    } else {
      var p :| p in m;
      var rest := m - {p};
      ValuesSize(rest);
      assert m.Values == rest.Values + {m[p]} by {
        forall f | f in m.Values
          ensures f in rest.Values + {m[p]}
        {
          var q :| q in m && m[q] == f;
          assert q != p ==> rest[q] == f;
        }
        forall f | f in rest.Values + {m[p]}
          ensures f in m.Values
        {
          if f == m[p] {
          } else {
            var q :| q in rest && rest[q] == f;
            assert m[q] == f;
          }
        }
      }
      assert m[p] !in rest.Values;
    }
  }

  function Below(n: nat): (b: set<nat>)
    ensures |b| == n && forall f :: f in b <==> 0 <= f < n
  {
    if n == 0 then {} else Below(n - 1) + {n - 1}
  }

  lemma {:induction false} FrameCount(s: Pool)
    requires Structured(s)
    ensures |s.pageMap| + |s.free| == |s.frames|
  {
    var free := set f | f in s.free;
    ValuesSize(s.pageMap);
    DistinctSize(s.free, free);
    assert s.pageMap.Values + free == Below(|s.frames|);
  }

  /** A fetch fails exactly when its page is not cached and as many pages are pinned as there are
      frames. */
  lemma {:induction false} FetchFailsIff(s: Pool, p: PageId)
    requires Structured(s)
    ensures !CanFetch(s, p) <==> p !in s.pageMap && |PinnedPages(s)| == |s.frames|
  {
    FrameCount(s);
    CandidatesAreUnpinned(s, s.lru);
    assert PinnedPages(s) <= s.pageMap.Keys;
    SubsetSize(PinnedPages(s), s.pageMap.Keys);
    if s.free == [] && Candidates(s) == [] {
      forall q | q in s.pageMap
        ensures q in PinnedPages(s)
      {
        assert q in s.lru && q !in Candidates(s);
      }
      assert PinnedPages(s) == s.pageMap.Keys;
    }
    if Candidates(s) != [] {
      var q := Candidates(s)[0];
      assert q in Candidates(s) && q in s.pageMap && q !in PinnedPages(s);
    }
  }

  // ---------- writes, flushes and growth ----------

  lemma WrittenKeeps(s: Pool, p: PageId, page: RawPage)
    requires Structured(s) && p in s.pageMap
    ensures var t := Written(s, s.pageMap[p], page);
            && Structured(t) && (forall q :: PinOf(t, q) == PinOf(s, q))
            && (forall q :: 0 <= q < |s.disk| ==> View(t, q) == if q == p then page else View(s, q))
  {
    hide Distinct;
  }

  lemma FlushedKeeps(s: Pool, p: PageId)
    requires Structured(s) && p < |s.disk|
    ensures var t := Flushed(s, p);
            && Structured(t) && (forall q :: PinOf(t, q) == PinOf(s, q)) && t.disk[p] == View(s, p)
            && |t.disk| == |s.disk| && (forall q :: 0 <= q < |s.disk| && q != p ==> t.disk[q] == s.disk[q])
            && (forall q :: 0 <= q < |s.disk| ==> View(t, q) == View(s, q))
  {
    hide Distinct;
  }

  lemma {:induction false} FlushedAllKeeps(s: Pool)
    requires Structured(s)
    ensures var t := FlushedAll(s);
            && Structured(t) && (forall q :: PinOf(t, q) == PinOf(s, q))
            && (forall q :: 0 <= q < |s.disk| ==> t.disk[q] == View(t, q) == View(s, q))
  {
    hide Distinct;
  }

  lemma GrownKeeps(s: Pool, page: RawPage)
    requires Structured(s)
    ensures var t := Grown(s, page);
            && Structured(t) && (forall q :: PinOf(t, q) == PinOf(s, q))
            && (forall q :: 0 <= q < |s.disk| ==> View(t, q) == View(s, q)) && View(t, |s.disk|) == page
  {
    hide Distinct;
  }

  // ---------- reading only ----------

  /** No page, seen through the pool, differs, and no pin count does. */
  ghost predicate SameView(s: Pool, t: Pool) {
    && |s.disk| == |t.disk| && |s.frames| == |t.frames|
    && (forall q :: 0 <= q < |s.disk| ==> View(t, q) == View(s, q))
    && (forall q :: PinOf(t, q) == PinOf(s, q))
  }

  /** Cached pages are what the disk has. */
  ghost predicate Clean(s: Pool) { forall p :: 0 <= p < |s.disk| ==> View(s, p) == s.disk[p] }

  lemma CleanFetch(s: Pool, p: PageId, victim: PageId)
    requires Fetchable(s, p, victim) && Clean(s)
    ensures Fetched(s, p, victim).disk == s.disk && Clean(Fetched(s, p, victim))
  {
    FetchKeeps(s, p, victim);
    if NeedsVictim(s, p) {
      CandidateFacts(s, victim);
      assert View(s, victim) == s.disk[victim];
    }
  }

  lemma PinnedPagesSame(s: Pool, t: Pool)
    requires SameView(s, t)
    ensures PinnedPages(s) == PinnedPages(t)
  {
    hide View;
  }

  /** Fetching a page and dropping the handle leaves every view and every pin count as it was. */
  lemma {:induction false} FetchAndDrop(s: Pool, p: PageId, victim: PageId)
    requires Fetchable(s, p, victim)
    ensures var t := Fetched(s, p, victim);
            && Structured(t) && (CanFetch(s, p) ==> PinOf(t, p) == PinOf(s, p) + 1)
            && SameView(s, if CanFetch(s, p) then Unpinned(t, p) else t)
            && Unpinned(t, p).disk == t.disk
  {
    FetchKeeps(s, p, victim);
    hide View, PinOf, Fetched, CanFetch, Fetchable, Structured;
    UnpinnedStructured(Fetched(s, p, victim), p);
  }

  lemma SameViewTransitive(s: Pool, t: Pool, u: Pool)
    requires SameView(s, t) && SameView(t, u)
    ensures SameView(s, u)
  {
    hide View, PinOf;
  }

  /** Pages that others append to the file do not disturb the pool. */
  lemma FileExtended(s: Pool, disk: seq<RawPage>)
    requires Structured(s) && s.disk <= disk
    ensures Structured(s.(disk := disk)) && PinnedPages(s.(disk := disk)) == PinnedPages(s)
    ensures Clean(s) ==> Clean(s.(disk := disk))
  {
    hide Distinct;
    var t := s.(disk := disk);
    assert forall p :: PinOf(t, p) == PinOf(s, p);
    assert forall p :: 0 <= p < |s.disk| ==> View(t, p) == View(s, p);
  }
}
