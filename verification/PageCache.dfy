/** The buffer pool and its handles, as they are updated in place. */
module PageCache {
  import opened Bytes
  import opened SlottedPage
  import opened Recency
  import opened Observer
  import opened EvictionPolicy
  import opened PagePool
  import opened NodeList
  import opened StorageWriter

  // ---------- page offsets ----------

  /** Page offsets are multiplied in 32 bits. */
  const PAGE_LIMIT := 0x10_0000

  function PageOffset(page: PageId): nat { page * PAGE_SIZE % TWO_32 }

  /** Which page of the file an offset computed for `page` really addresses. */
  function DiskSlot(page: PageId): nat { PageOffset(page) / PAGE_SIZE }

  lemma {:induction false} OffsetExactIff(page: PageId)
    ensures PageOffset(page) == page * PAGE_SIZE <==> page < PAGE_LIMIT
    ensures page < PAGE_LIMIT ==> DiskSlot(page) == page
  {
  }

  // ---------- candidates ----------

  lemma {:induction false} SameCandidates(s: Pool, t: Pool, l: seq<PageId>)
    requires s.pins == t.pins && s.pageMap == t.pageMap
    ensures UnpinnedOldestFirst(s, l) == UnpinnedOldestFirst(t, l)
  {
    if l == [] {
    } else {
      SameCandidates(s, t, l[..|l| - 1]);
    }
  }

  class PageCache {
    const file: PageFile
    const observer: AccessObserver?
    const policy: PagePolicy
    var pool: seq<RawPage>
    var pinCounts: seq<nat>
    var pageMap: map<PageId, nat>
    var lruList: NodeList
    var lruIters: map<PageId, NodeId>
    var freeFrames: seq<nat>
    var hits: nat
    var misses: nat

    /** The observers and the learner that a fetch updates or consults. */
    ghost function Watchers(): set<object> {
      (if observer != null then {observer, observer.ring} else {})
      + (if ObserverOf(policy) != null then {ObserverOf(policy), ObserverOf(policy).ring} else {})
      + (if policy.Learned? then {policy.learner} else {})
    }

    ghost function State(): Pool
      requires Linked(lruList)
      reads this, file
    {
      Pool(file.pages, pool, pinCounts, pageMap, PagesIn(lruList), freeFrames, hits, misses)
    }

    ghost predicate ObserversValid()
      reads Watchers()
    {
      && (observer != null ==> observer.Valid())
      && (ObserverOf(policy) != null ==> ObserverOf(policy).Valid())
      && (observer != null && ObserverOf(policy) != null && ObserverOf(policy) != observer ==>
            ObserverOf(policy).ring != observer.ring)
    }

    /** What holds besides the partition of frames, even in the middle of a fetch. */
    ghost predicate Linking()
      reads this, Watchers()
    {
      && Linked(lruList) && IteratorsAgree(lruList, lruIters)
      && (forall p :: p in pageMap ==> p < PAGE_LIMIT)
      && ObserversValid()
    }

    ghost predicate Valid()
      reads this, file, Watchers()
    {
      Linking() && Structured(State())
    }

    /** The state with frame `f`, taken for a page that is not loaded yet, counted as free. */
    ghost function Holding(f: nat): Pool
      requires Linked(lruList)
      reads this, file
    {
      State().(free := [f] + freeFrames)
    }

    constructor (file: PageFile, capacity: nat, observer: AccessObserver?, policy: PagePolicy)
      requires observer != null ==> observer.Valid()
      requires ObserverOf(policy) != null ==> ObserverOf(policy).Valid()
      requires observer != null && ObserverOf(policy) != null && ObserverOf(policy) != observer ==>
                 ObserverOf(policy).ring != observer.ring
      ensures Valid() && this.file == file && this.observer == observer && this.policy == policy
      ensures |pool| == capacity && State() == EmptyPool(file.pages, pool)
    {
      this.file, this.observer, this.policy := file, observer, policy;
      pool := seq(capacity, _ => seq(PAGE_SIZE, _ => 0));
      pinCounts := seq(capacity, _ => 0);
      freeFrames := seq(capacity, i => i);
      pageMap, lruList, lruIters, hits, misses := map[], NO_NODES, map[], 0, 0;
      new;
      assert State() == EmptyPool(file.pages, pool);
      EmptyStructured(file.pages, pool);
    }

    /** Erases the page through its iterator and pushes it to the front. */
    method TouchPage(page: PageId)
      requires Linked(lruList) && IteratorsAgree(lruList, lruIters) && page in lruIters
      modifies this`lruList, this`lruIters
      ensures Linked(lruList) && IteratorsAgree(lruList, lruIters)
      ensures State() == old(State()).(lru := MoveToFront(old(State()).lru, page))
    {
      hide Linked, IteratorsAgree, PagesIn, MoveToFront;
      TouchAgrees(lruList, lruIters, page);
      var n := lruList.next;
      lruList := PushedFront(Erased(lruList, lruIters[page]), page);
      lruIters := lruIters[page := n];
    }

    /** The unpinned pages, least recently used first. */
    method UnpinnedLru() returns (unpinned: seq<PageId>)
      requires Linked(lruList) && Structured(State())
      ensures unpinned == Candidates(State())
    {
      hide Linked, MapInjective, ListMatchesMap, FramesPartitioned, PinOf, UnpinnedOldestFirst;
      ghost var s := State();
      ListedAreNodes(lruList);
      var order := PagesAt(lruList.order, lruList.pages);
      unpinned := [];
      var i := |order|;
      assert order[..i] == order == s.lru;
      while i > 0
        invariant i <= |order| && Candidates(s) == unpinned + UnpinnedOldestFirst(s, s.lru[..i])
      {
        i := i - 1;
        CandidateStep(s, i);
        if pinCounts[pageMap[order[i]]] == 0 {
          unpinned := unpinned + [order[i]];
        }
      }
      CandidateEnd(s);
    }

    /** Copies a page image back to its place in the file. */
    method WriteBack(page: PageId, image: RawPage)
      requires page < |file.pages| && page < PAGE_LIMIT
      modifies file
      ensures file.pages == old(file.pages)[page := image]
    {
      OffsetExactIff(page);
      file.pages := file.pages[DiskSlot(page) := image];
    }

    /** The policy's choice among the candidates is optimal for what the observers have seen. */
    ghost predicate ChoiceOptimal(cands: seq<PageId>, hint: WorkloadHint, victim: PageId)
      reads Watchers()
    {
      if ObserverOf(policy) == null then Optimal(policy, hint, [], 1, INITIAL_WEIGHTS, cands, victim)
      else
        var o := ObserverOf(policy);
        o.capacity > 0 && Optimal(policy, hint, PagesOf(o.Recent()), o.capacity,
                                  if policy.Learned? then policy.learner.weights else INITIAL_WEIGHTS, cands, victim)
    }

    /** The learned policy's state, if that is the policy. */
    ghost function LearnerState(): Option<Learner>
      reads if policy.Learned? then {policy.learner} else {}
    {
      if policy.Learned? then Some(policy.learner.State()) else None
    }

    /** A learned policy has judged its last eviction, if due, and remembers this one. */
    ghost predicate LearnerJudged(before: Option<Learner>, cands: seq<PageId>, victim: PageId)
      reads Watchers()
    {
      policy.Learned? && before.Some? ==> Judged(before.value, policy.learner, cands, victim)
    }

    lemma IteratorOf(page: PageId)
      requires Linked(lruList) && IteratorsAgree(lruList, lruIters) && ListMatchesMap(State())
      ensures page in pageMap <==> page in lruIters
    {
      IteratorsAreListed(lruList, lruIters);
    }

    /** Forgets a page: its iterator, and the node that `std::find` finds for it. */
    method Unlink(page: PageId)
      requires Linked(lruList) && IteratorsAgree(lruList, lruIters) && page in lruIters
      modifies this`lruList, this`lruIters
      ensures Linked(lruList) && IteratorsAgree(lruList, lruIters)
      ensures State() == old(State()).(lru := Without(old(State()).lru, page))
    {
      FindIsIterator(lruList, lruIters, page);
      EraseAgrees(lruList, lruIters, page);
      ListedAreNodes(lruList);
      hide Linked, IteratorsAgree, PagesIn, Find, Erased;
      var found := Find(lruList.order, lruList.pages, page);
      lruIters := lruIters - {page};
      if found != [] {
        lruList := Erased(lruList, found[0]);
      }
    }

    /** The policy's choice among the unpinned pages; None when there are none. */
    method PickVictim(hint: WorkloadHint) returns (victim: Option<PageId>)
      requires Valid()
      modifies if policy.Learned? then {policy.learner} else {}
      ensures Valid() && State() == old(State())
      ensures victim.Some? <==> Candidates(State()) != []
      ensures if victim.Some? then LearnerJudged(old(LearnerState()), Candidates(State()), victim.value)
              else LearnerState() == old(LearnerState())
      ensures victim.Some? ==>
                victim.value in Candidates(State()) && ChoiceOptimal(Candidates(State()), hint, victim.value)
    {
      hide Linked, IteratorsAgree, Structured, Candidates, Optimal, AccessObserver.Valid;
      var unpinned := UnpinnedLru();
      if unpinned == [] {
        return None;
      }
      if ObserverOf(policy) != null {
        ObserverOf(policy).Sizes();
      }
      var chosen := ChooseVictim(policy, unpinned, hint);
      victim := Some(chosen);
    }

    /** Writes the chosen page back and takes its frame away from it; None when all are pinned. */
    method Evict(hint: WorkloadHint) returns (frame: Option<nat>, victim: PageId)
      requires Valid() && freeFrames == []
      modifies this`pageMap, this`lruList, this`lruIters, file, if policy.Learned? then {policy.learner} else {}
      ensures frame.Some? <==> Candidates(old(State())) != []
      ensures frame.None? ==> Valid() && State() == old(State()) && LearnerState() == old(LearnerState())
      ensures frame.Some? ==>
                && Linking() && victim in Candidates(old(State()))
                && ChoiceOptimal(Candidates(old(State())), hint, victim)
                && LearnerJudged(old(LearnerState()), Candidates(old(State())), victim)
                && Evictable(old(State()), victim) && Holding(frame.value) == Evicted(old(State()), victim)
    {
      hide Linked, IteratorsAgree, Structured, Candidates, ChoiceOptimal, LearnerJudged,
           LearnerState, AccessObserver.Valid, Without;
      var chosen := PickVictim(hint);
      if chosen.None? {
        return None, 0;
      }
      victim := chosen.value;
      assert this !in Watchers() && file !in Watchers();
      var f := TakeFrame(victim);
      frame := Some(f);
    }

    /** Writes an unpinned page back, unmaps and unlists it, and gives up its frame. */
    method TakeFrame(victim: PageId) returns (frame: nat)
      requires Valid() && victim in Candidates(State())
      modifies this`pageMap, this`lruList, this`lruIters, file
      ensures Linking() && Evictable(old(State()), victim) && Holding(frame) == Evicted(old(State()), victim)
    {
      hide Linked, IteratorsAgree, Structured, Candidates, AccessObserver.Valid, Without;
      ghost var s := State();
      CandidateFacts(s, victim);
      assert ListMatchesMap(s) by { StructuredLists(s); }
      IteratorOf(victim);
      frame := pageMap[victim];
      WriteBack(victim, pool[frame]);
      pageMap := pageMap - {victim};
      Unlink(victim);
    }

    /** Copies a page from the file into a frame that is nobody's, maps it, lists it and pins it. */
    method Load(page: PageId, frame: nat)
      requires Linking() && Structured(Holding(frame)) && page !in pageMap && page < |file.pages| && page < PAGE_LIMIT
      modifies this`pool, this`pageMap, this`lruList, this`lruIters, this`pinCounts
      ensures Valid()
      ensures var s := old(Holding(frame)); frame < |s.frames| && frame < |s.pins| && State() == Loaded(s, page)
    {
      hide Linked, IteratorsAgree, Structured, AccessObserver.Valid;
      ghost var s := Holding(frame);
      LoadedStructured(s, page);
      assert ListMatchesMap(s.(free := freeFrames)) by { StructuredLists(s); }
      IteratorOf(page);
      OffsetExactIff(page);
      pool := pool[frame := file.pages[DiskSlot(page)]];
      pageMap := pageMap[page := frame];
      PushAgrees(lruList, lruIters, page);
      lruIters := lruIters[page := lruList.next];
      lruList := PushedFront(lruList, page);
      pinCounts := pinCounts[frame := 1];
    }

    /** Tells the observer of a fetch. */
    method Observe(page: PageId, hit: bool)
      requires ObserversValid()
      modifies if observer != null then {observer, observer.ring} else {}
      ensures ObserversValid()
      ensures observer != null ==> observer.trace == old(observer.trace) + [Access(page, hit)]
    {
      hide AccessObserver.Valid;
      if observer != null {
        observer.RecordPageAccess(page, hit);
      }
    }

    /** A hit: the page is touched and pinned once more. */
    method PinCached(page: PageId) returns (frame: nat)
      requires Valid() && page in pageMap
      modifies this`lruList, this`lruIters, this`pinCounts, this`hits
      ensures Valid() && frame == pageMap[page]
      ensures page in old(State()).pageMap && old(State()).pageMap[page] < |old(State()).pins|
      ensures State() == Hit(old(State()), page)
    {
      hide Linked, IteratorsAgree, AccessObserver.Valid, MoveToFront, ListMatchesMap, FramesPartitioned;
      ghost var s := State();
      HitStructured(s, page);
      assert ListMatchesMap(s) by { StructuredLists(s); }
      IteratorOf(page);
      hits := hits + 1;
      TouchPage(page);
      frame := pageMap[page];
      pinCounts := pinCounts[frame := pinCounts[frame] + 1];
    }

    /** Finds or loads a page and pins its frame; None is the error "buffer pool full". The observer
        has recorded the fetch before a victim is chosen. */
    method GetPageInternal(page: PageId, hint: WorkloadHint) returns (frame: Option<nat>, ghost victim: PageId)
      requires Valid() && page < |file.pages| && page < PAGE_LIMIT
      modifies this, file, Watchers()
      ensures Valid() && Fetchable(old(State()), page, victim) && State() == Fetched(old(State()), page, victim)
      ensures frame.Some? <==> CanFetch(old(State()), page)
      ensures frame.Some? ==> page in pageMap && frame.value == pageMap[page]
      ensures observer != null ==> observer.trace == old(observer.trace) + [Access(page, page in old(pageMap))]
      ensures NeedsVictim(old(State()), page) ==> ChoiceOptimal(Candidates(old(State())), hint, victim)
      ensures if NeedsVictim(old(State()), page)
              then LearnerJudged(old(LearnerState()), Candidates(old(State())), victim)
              else LearnerState() == old(LearnerState())
    {
      hide Linked, IteratorsAgree, Structured, AccessObserver.Valid, Candidates, ChoiceOptimal, LearnerJudged,
           LearnerState, MoveToFront, Without;
      assert this !in Watchers() && file !in Watchers();
      ghost var s := State();
      victim := 0;
      if page in pageMap {
        Observe(page, true);
        var f := PinCached(page);
        frame := Some(f);
        return;
      }
      misses := misses + 1;
      MissedIsFetchable(s, page);
      assert State() == Missed(s);
      Observe(page, false);
      frame, victim := Admit(page, hint);
      AdmittedIsFetched(s, page, victim);
    }

    /** The miss path: takes a free frame or a victim's, and loads the page into it. */
    method Admit(page: PageId, hint: WorkloadHint) returns (frame: Option<nat>, ghost victim: PageId)
      requires Valid() && page !in pageMap && page < |file.pages| && page < PAGE_LIMIT
      modifies this`pool, this`pageMap, this`lruList, this`lruIters, this`pinCounts, this`freeFrames, file
      modifies if policy.Learned? then {policy.learner} else {}
      ensures Valid() && Fetchable(old(State()), page, victim) && State() == Admitted(old(State()), page, victim)
      ensures frame.Some? <==> CanFetch(old(State()), page)
      ensures frame.Some? ==> page in pageMap && frame.value == pageMap[page]
      ensures NeedsVictim(old(State()), page) ==> ChoiceOptimal(Candidates(old(State())), hint, victim)
      ensures if NeedsVictim(old(State()), page)
              then LearnerJudged(old(LearnerState()), Candidates(old(State())), victim)
              else LearnerState() == old(LearnerState())
    {
      hide Linked, IteratorsAgree, Structured, AccessObserver.Valid, Candidates, ChoiceOptimal, LearnerJudged,
           LearnerState, MoveToFront, Without;
      assert this !in Watchers() && file !in Watchers();
      ghost var s := State();
      victim := 0;
      if freeFrames != [] {
        var f := freeFrames[0];
        freeFrames := freeFrames[1..];
        assert [f] + freeFrames == s.free;
        assert Holding(f) == s;
        Load(page, f);
        frame := Some(f);
      } else {
        var chosen;
        frame, chosen := Evict(hint);
        if frame.Some? {
          victim := chosen;
          CandidateFacts(s, victim);
          EvictedStructured(s, victim);
          Load(page, frame.value);
        }
      }
    }

    /** Fetches a page under a handle; null is the error "buffer pool full". */
    method FetchPage(page: PageId, hint: WorkloadHint) returns (h: PageHandle?, ghost victim: PageId)
      requires Valid() && page < |file.pages| && page < PAGE_LIMIT
      modifies this, file, Watchers()
      ensures Valid() && Fetchable(old(State()), page, victim) && State() == Fetched(old(State()), page, victim)
      ensures h != null <==> CanFetch(old(State()), page)
      ensures h != null ==> fresh(h) && h.cache == this && h.pageId == page && page in pageMap
      ensures h != null ==> h.frame == pageMap[page]
      ensures observer != null ==> observer.trace == old(observer.trace) + [Access(page, page in old(pageMap))]
      ensures NeedsVictim(old(State()), page) ==> ChoiceOptimal(Candidates(old(State())), hint, victim)
      ensures if NeedsVictim(old(State()), page)
              then LearnerJudged(old(LearnerState()), Candidates(old(State())), victim)
              else LearnerState() == old(LearnerState())
    {
      hide Linking, Structured, AccessObserver.Valid, Candidates, Optimal, Fetched, CanFetch;
      var frame;
      frame, victim := GetPageInternal(page, hint);
      if frame.None? {
        return null, victim;
      }
      h := new PageHandle(this, frame.value, page);
    }

    method UnpinPage(page: PageId)
      requires Valid()
      modifies this`pinCounts
      ensures Valid() && State() == Unpinned(old(State()), page)
    {
      hide Linked, IteratorsAgree, ListMatchesMap, FramesPartitioned;
      UnpinnedStructured(State(), page);
      if page in pageMap {
        var frame := pageMap[page];
        if pinCounts[frame] > 0 {
          pinCounts := pinCounts[frame := pinCounts[frame] - 1];
        }
      }
    }

    /** Writes a page image into a frame, as a handle's owner does. */
    method WriteFrame(page: PageId, image: RawPage)
      requires Valid() && page in pageMap
      modifies this`pool
      ensures Valid() && pageMap[page] < |old(State()).frames| && State() == Written(old(State()), pageMap[page], image)
    {
      hide Linked, IteratorsAgree, ListMatchesMap, FramesPartitioned;
      WrittenKeeps(State(), page, image);
      pool := pool[pageMap[page] := image];
    }

    method FlushPage(page: PageId)
      requires Valid() && page < |file.pages|
      modifies file
      ensures Valid() && State() == Flushed(old(State()), page)
      ensures |file.pages| == old(|file.pages|)
      ensures forall q :: 0 <= q < |file.pages| && q != page ==> file.pages[q] == old(file.pages[q])
    {
      hide ListMatchesMap, FramesPartitioned, Linked, IteratorsAgree;
      FlushedKeeps(State(), page);
      if page in pageMap {
        WriteBack(page, pool[pageMap[page]]);
      }
      assert State().disk == Flushed(old(State()), page).disk;
    }

    /** Writes every cached page back, in any order. */
    method FlushAll()
      requires Valid()
      modifies file
      ensures Valid() && State() == FlushedAll(old(State()))
    {
      hide ListMatchesMap, FramesPartitioned, Linked, IteratorsAgree, PinOf, View, FlushedAll, AccessObserver.Valid;
      ghost var s := State();
      CachedViews(s);
      FlushedAllKeeps(s);
      WriteBackAll();
      assert file.pages == FlushedAll(s).disk;
    }

    method WriteBackAll()
      requires forall p :: p in pageMap ==> p < |file.pages| && p < PAGE_LIMIT && pageMap[p] < |pool|
      modifies file
      ensures |file.pages| == old(|file.pages|)
      ensures forall p :: 0 <= p < |file.pages| ==>
                file.pages[p] == if p in pageMap then pool[pageMap[p]] else old(file.pages[p])
    {
      var todo := pageMap.Keys;
      while todo != {}
        invariant todo <= pageMap.Keys && |file.pages| == old(|file.pages|)
        invariant forall p :: 0 <= p < |file.pages| ==>
                    file.pages[p] == if p in pageMap && p !in todo then pool[pageMap[p]] else old(file.pages[p])
        decreases |todo|
      {
        var page :| page in todo;
        WriteBack(page, pool[pageMap[page]]);
        todo := todo - {page};
      }
    }

    method PinCountForTest(page: PageId) returns (pins: nat)
      requires Valid()
      ensures pins == PinOf(State(), page)
    {
      hide Linked, IteratorsAgree, ListMatchesMap, FramesPartitioned;
      pins := if page in pageMap then pinCounts[pageMap[page]] else 0;
    }
  }

  /** A lease on a page: it pins the page's frame until it is destroyed or moved from. */
  class PageHandle {
    var cache: PageCache?
    var frame: nat
    var pageId: PageId

    constructor Empty()
      ensures cache == null
    {
      cache, frame, pageId := null, 0, 0;
    }

    constructor (cache: PageCache, frame: nat, pageId: PageId)
      ensures this.cache == cache && this.frame == frame && this.pageId == pageId
    {
      this.cache, this.frame, this.pageId := cache, frame, pageId;
    }

    /** Move construction: the new handle takes over, the other is empty. */
    constructor Moved(other: PageHandle)
      modifies other`cache
      ensures cache == old(other.cache) && frame == other.frame && pageId == other.pageId && other.cache == null
    {
      cache, frame, pageId := other.cache, other.frame, other.pageId;
      new;
      other.cache := null;
    }

    /** Move assignment: releases what this handle held, then takes over from the other. */
    method Assign(other: PageHandle)
      requires cache != null ==> cache.Valid()
      modifies this, other`cache, if cache != null then {cache} else {}
      ensures this == other ==> cache == old(cache) && frame == old(frame) && pageId == old(pageId)
      ensures this != other ==>
                && cache == old(other.cache) && frame == old(other.frame) && pageId == old(other.pageId)
                && other.cache == null
      ensures old(cache) != null ==> old(cache).Valid()
      ensures old(cache) != null ==>
                old(cache).State() == if this == other then old(cache.State())
                    else Unpinned(old(cache.State()), old(pageId))
    {
      hide Linked, IteratorsAgree, Structured, AccessObserver.Valid, Unpinned;
      if this != other {
        if cache != null {
          cache.UnpinPage(pageId);
        }
        cache, frame, pageId := other.cache, other.frame, other.pageId;
        other.cache := null;
      }
    }

    /** The page's bytes, read through the frame. */
    method RawData() returns (p: RawPage)
      requires cache != null && cache.Valid() && pageId in cache.pageMap && frame == cache.pageMap[pageId]
      ensures pageId < |cache.State().disk| && p == View(cache.State(), pageId)
    {
      hide Linked, IteratorsAgree, AccessObserver.Valid, ListMatchesMap, FramesPartitioned;
      p := cache.pool[frame];
    }

    /** The destructor. */
    method Destroy()
      requires cache != null ==> cache.Valid()
      modifies this`cache, if cache != null then {cache} else {}
      ensures cache == null
      ensures old(cache) != null ==> old(cache).Valid() && old(cache).State() == Unpinned(old(cache.State()), pageId)
    {
      hide Linked, IteratorsAgree, Structured, AccessObserver.Valid, Unpinned;
      if cache != null {
        cache.UnpinPage(pageId);
      }
      cache := null;
    }
  }

  lemma CachedViews(s: Pool)
    requires Structured(s)
    ensures forall p :: p in s.pageMap ==>
              p < |s.disk| && s.pageMap[p] < |s.frames| && View(s, p) == s.frames[s.pageMap[p]]
    ensures forall p :: 0 <= p < |s.disk| && p !in s.pageMap ==> View(s, p) == s.disk[p]
    ensures |FlushedAll(s).disk| == |s.disk| && FlushedAll(s) == s.(disk := FlushedAll(s).disk)
    ensures forall p :: 0 <= p < |s.disk| ==> FlushedAll(s).disk[p] == View(s, p)
  {
    hide Distinct;
  }

  /** What a fetch does after counting a miss. */
  ghost function Admitted(s: Pool, p: PageId, victim: PageId): Pool
    requires Fetchable(s, p, victim) && p !in s.pageMap
  {
    if s.free != [] then
      FreeFramesExist(s);
      Loaded(s, p)
    else if Candidates(s) == [] then s
    else
      CandidateFacts(s, victim);
      Loaded(Evicted(s, victim), p)
  }

  lemma MissedIsFetchable(s: Pool, p: PageId)
    requires Structured(s)
    ensures Structured(Missed(s)) && Candidates(Missed(s)) == Candidates(s)
    ensures CanFetch(Missed(s), p) == CanFetch(s, p) && NeedsVictim(Missed(s), p) == NeedsVictim(s, p)
  {
    MissKeeps(s);
    MissedCandidates(s);
  }

  lemma AdmittedIsFetched(s: Pool, p: PageId, victim: PageId)
    requires Structured(s) && p !in s.pageMap && Fetchable(Missed(s), p, victim)
    ensures Fetchable(s, p, victim) && Admitted(Missed(s), p, victim) == Fetched(s, p, victim)
  {
    MissedIsFetchable(s, p);
  }

  lemma MissedCandidates(s: Pool)
    ensures Candidates(Missed(s)) == Candidates(s)
  {
    SameCandidates(Missed(s), s, s.lru);
  }

  lemma CandidateEnd(s: Pool)
    ensures UnpinnedOldestFirst(s, s.lru[..0]) == []
  {
  }

  lemma CandidateStep(s: Pool, i: nat)
    requires Structured(s) && i < |s.lru|
    ensures var p := s.lru[i];
            && p in s.pageMap && s.pageMap[p] < |s.pins|
            && UnpinnedOldestFirst(s, s.lru[..i + 1])
               == (if s.pins[s.pageMap[p]] == 0 then [p] else []) + UnpinnedOldestFirst(s, s.lru[..i])
  {
    PinOfListed(s, i);
    hide Structured, PinOf;
    assert s.lru[..i + 1][..i] == s.lru[..i];
  }

  lemma StructuredLists(s: Pool)
    requires Structured(s)
    ensures ListMatchesMap(s)
  {
  }

  lemma ListedAreNodes(l: NodeList)
    requires Linked(l)
    ensures forall n :: n in l.order ==> n in l.pages
  {
  }

  lemma PinOfListed(s: Pool, i: nat)
    requires Structured(s) && i < |s.lru|
    ensures var p := s.lru[i]; p in s.pageMap && s.pageMap[p] < |s.pins| && PinOf(s, p) == s.pins[s.pageMap[p]]
  {
    hide FramesPartitioned, Distinct;
  }
}
