/** The pool without a policy, each handle dropped before the next fetch: a bounded recency list. */
module LruPool {
  import opened SlottedPage
  import opened Recency
  import opened PagePool

  ghost predicate Idle(s: Pool) { Structured(s) && forall p :: PinOf(s, p) == 0 }

  /** The built-in choice: the least recently used unpinned page. */
  function Oldest(s: Pool): PageId { if Candidates(s) == [] then 0 else Candidates(s)[0] }

  lemma OldestIsCandidate(s: Pool, p: PageId)
    requires Structured(s) && p < |s.disk|
    ensures Fetchable(s, p, Oldest(s))
  {
  }

  /** Fetch a page and drop its handle. */
  function Visited(s: Pool, p: PageId): Pool
    requires Structured(s) && p < |s.disk|
  {
    OldestIsCandidate(s, p);
    Unpinned(Fetched(s, p, Oldest(s)), p)
  }

  lemma OldestWhenIdle(s: Pool)
    requires Idle(s) && s.lru != []
    ensures Candidates(s) != [] && Oldest(s) == s.lru[|s.lru| - 1]
  {
  }

  lemma ListLength(s: Pool)
    requires Structured(s)
    ensures |s.lru| + |s.free| == |s.frames|
  {
    FrameCount(s);
    DistinctSize(s.lru, s.pageMap.Keys);
  }

  lemma VisitKeepsIdle(s: Pool, p: PageId)
    requires Idle(s) && p < |s.disk| && |s.frames| > 0
    ensures var t := Visited(s, p); Idle(t) && |t.disk| == |s.disk| && |t.frames| == |s.frames|
  {
    OldestIsCandidate(s, p);
    FetchKeeps(s, p, Oldest(s));
    UnpinnedStructured(Fetched(s, p, Oldest(s)), p);
    hide Structured, PinOf, View, Fetchable, Fetched;
  }

  /** One fetch and drop is one access of the recency list, and a hit exactly when the page is in it. */
  lemma VisitIsLruAccess(s: Pool, p: PageId)
    requires Idle(s) && p < |s.disk| && |s.frames| > 0
    ensures |s.lru| <= |s.frames| && Visited(s, p).lru == LruAccess(s.lru, p, |s.frames|)
    ensures Visited(s, p).hits == s.hits + (if p in s.lru then 1 else 0)
  {
    ListLength(s);
    OldestIsCandidate(s, p);
    FetchedLru(s, p, Oldest(s));
    if s.lru != [] {
      OldestWhenIdle(s);
      WithoutLast(s.lru);
    }
    hide PinOf, Structured, Candidates, Fetched, Fetchable, Without, Oldest;
    assert Visited(s, p).lru == Fetched(s, p, Oldest(s)).lru;
  }

  lemma FetchedLru(s: Pool, p: PageId, v: PageId)
    requires Fetchable(s, p, v)
    ensures p in s.pageMap <==> p in s.lru
    ensures Fetched(s, p, v).hits == s.hits + (if p in s.lru then 1 else 0)
    ensures Fetched(s, p, v).lru ==
            if p in s.lru then MoveToFront(s.lru, p)
            else if s.free != [] then [p] + s.lru
            else if Candidates(s) == [] then s.lru
            else [p] + Without(s.lru, v)
  {
    hide PinOf, MapInjective, FramesPartitioned, Candidates, Distinct, Without;
    FreeFramesExist(s);
  }

  predicate OnDisk(trace: seq<PageId>, pages: nat) { forall i :: 0 <= i < |trace| ==> trace[i] < pages }

  function VisitedAll(s: Pool, trace: seq<PageId>): (t: Pool)
    requires Idle(s) && |s.frames| > 0 && OnDisk(trace, |s.disk|)
    ensures Idle(t) && |t.disk| == |s.disk| && |t.frames| == |s.frames|
  {
    if trace == [] then s
    else
      var t := VisitedAll(s, trace[..|trace| - 1]);
      VisitKeepsIdle(t, trace[|trace| - 1]);
      Visited(t, trace[|trace| - 1])
  }

  /** The resident pages are exactly the most recent distinct pages of the trace, in recency order. */
  lemma {:induction false} ResidentPages(disk: seq<RawPage>, frames: seq<RawPage>, trace: seq<PageId>)
    requires |frames| > 0 && OnDisk(trace, |disk|)
    ensures Idle(EmptyPool(disk, frames))
    ensures var t := VisitedAll(EmptyPool(disk, frames), trace);
            && t.lru == LruRun(trace, |frames|) == Newest(ByRecency(trace), |frames|)
            && t.hits == Hits(trace, |frames|)
  {
    var s := EmptyPool(disk, frames);
    EmptyStructured(disk, frames);
    LruIsNewest(trace, |frames|);
    hide LruAccess, Visited, Structured, PinOf, EmptyPool;
    if trace == [] {
    } else {
      var front := trace[..|trace| - 1];
      ResidentPages(disk, frames, front);
      VisitIsLruAccess(VisitedAll(s, front), trace[|trace| - 1]);
    }
  }

  /** On any trace a larger pool holds every page a smaller one holds and never has fewer hits. */
  lemma {:induction false} LargerPoolHoldsMore(disk: seq<RawPage>, small: seq<RawPage>, large: seq<RawPage>,
                                               trace: seq<PageId>)
    requires 0 < |small| <= |large| && OnDisk(trace, |disk|)
    ensures Idle(EmptyPool(disk, small)) && Idle(EmptyPool(disk, large))
    ensures var s, l := VisitedAll(EmptyPool(disk, small), trace), VisitedAll(EmptyPool(disk, large), trace);
            && (forall p :: p in s.pageMap ==> p in l.pageMap)
            && s.hits <= l.hits
  {
    ResidentPages(disk, small, trace);
    ResidentPages(disk, large, trace);
    StackInclusion(trace, |small|, |large|);
    var s, l := VisitedAll(EmptyPool(disk, small), trace), VisitedAll(EmptyPool(disk, large), trace);
    assert ListMatchesMap(s) && ListMatchesMap(l);
    assert forall p :: p in s.lru ==> p in l.lru by {
      assert s.lru <= l.lru;
    }
  }
}
