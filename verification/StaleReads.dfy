/** When a session can return an outdated value, and when it can miss a value it was given. */
module StaleReads {
  import opened Bytes
  import opened SlottedPage
  import opened Packing
  import opened Recency
  import opened LruCache
  import opened Store

  /** No value in the page file is older than the log's. */
  ghost predicate Fresh(d: Durable) {
    forall k :: PageValue(d.pages, k).Some? ==> PageValue(d.pages, k) == LastPut(d.log, k)
  }

  /** The page file has the last value of every key. */
  ghost predicate UpToDate(d: Durable) {
    forall k :: PageValue(d.pages, k) == LastPut(d.log, k)
  }

  /** A read gives the last value put, or nothing. */
  predicate NotStale(s: Session, k: Key) {
    Value(s, k) == None || Value(s, k) == LastPut(s.log, k)
  }

  // ---------- sessions on a fresh store ----------

  ghost predicate FreshIndex(s: Session) {
    forall k :: k in s.index && s.index[k].page < s.base ==>
      k in Latest(s.log) && RecordAt(s.writer.flushed, s.index[k]) == Some(Entry(k, Latest(s.log)[k]))
  }

  ghost predicate FreshSession(s: Session) {
    Working(s) && Agrees(s.cache, Latest(s.log)) && FreshIndex(s)
  }

  lemma OpenedFresh(d: Durable, capacity: nat)
    requires Sound(d) && capacity > 0 && Fresh(d)
    ensures FreshSession(Opened(d, capacity))
  {
    OpenedWorks(d, capacity);
    var s := Opened(d, capacity);
    forall k | k in s.index && s.index[k].page < s.base
      ensures k in Latest(s.log) && RecordAt(s.writer.flushed, s.index[k]) == Some(Entry(k, Latest(s.log)[k]))
    {
      LookupIsLatest(d.pages, k);
      RecordInPrefix(d.pages, s.writer.flushed, s.index[k]);
      assert PageValue(d.pages, k) == LastPut(d.log, k);
    }
  }

  lemma PutKeepsFreshIndex(s: Session, e: Entry)
    requires Working(s) && FreshIndex(s) && !TooLarge(e)
    ensures FreshIndex(Put(s, e))
  {
    PutKeepsWorking(s, e);
    LatestSnoc(s.log, e);
    hide WellPacked, ScanAll, Appended, CachePut, Latest, WellFormed;
    var t := Put(s, e);
    forall k | k in t.index && t.index[k].page < t.base
      ensures k in Latest(t.log) && RecordAt(t.writer.flushed, t.index[k]) == Some(Entry(k, Latest(t.log)[k]))
    {
      assert k != e.key;
      RecordInPrefix(s.writer.flushed, t.writer.flushed, s.index[k]);
    }
  }

  lemma PutKeepsFresh(s: Session, e: Entry)
    requires FreshSession(s) && !TooLarge(e)
    ensures FreshSession(Put(s, e))
  {
    PutKeepsWorking(s, e);
    PutKeepsFreshIndex(s, e);
    LatestSnoc(s.log, e);
    PutAgrees(s.cache, s.capacity, e.key, e.value, 0, Latest(s.log));
  }

  lemma GetKeepsFresh(s: Session, k: Key)
    requires FreshSession(s)
    ensures FreshSession(Got(s, k)) && NotStale(s, k)
  {
    GetKeepsWorking(s, k);
    hide Working, Latest;
    if Cached(s.cache, k).None? && Lookup(s, k).Some? {
      var v := Lookup(s, k).value;
      PutAgrees(s.cache, s.capacity, k, v, 0, Latest(s.log));
      assert Latest(s.log)[k := v] == Latest(s.log);
    }
  }

  lemma {:induction false} StepsKeepFresh(s: Session, ops: seq<Op>)
    requires FreshSession(s) && Bounded(ops)
    ensures FreshSession(Steps(s, ops))
  {
    hide FreshSession, Put, Got;
    if ops == [] {
    } else {
      var front := ops[..|ops| - 1];
      StepsKeepFresh(s, front);
      match ops[|ops| - 1]
      case PutOp(e) => PutKeepsFresh(Steps(s, front), e);
      case GetOp(k) => GetKeepsFresh(Steps(s, front), k);
    }
  }

  // ---------- what the index locates ----------

  /** The keys `ks` were moved to pages from `base` on; no other key was. */
  ghost predicate IndexMoved(before: map<Key, RecordId>, after: map<Key, RecordId>, ks: set<Key>, base: nat) {
    && (forall k :: k in ks ==> k in after && after[k].page >= base)
    && (forall k :: k !in ks ==> (k in after <==> k in before) && (k in before ==> after[k] == before[k]))
  }

  /** A put moves its key's index entry beyond what this session can read; nothing else moves. */
  lemma {:induction false} IndexAfterSteps(s: Session, ops: seq<Op>)
    requires Working(s) && Bounded(ops)
    ensures IndexMoved(s.index, Steps(s, ops).index, Keys(Puts(ops)), s.base)
  {
    hide Working, Put, Got, IndexMoved;
    if ops == [] {
      NothingMoved(s.index, s.base);
      assert Keys(Puts(ops)) == {};
    } else {
      var front := ops[..|ops| - 1];
      IndexAfterSteps(s, front);
      StepsKeepWorking(s, front);
      var t := Steps(s, front);
      match ops[|ops| - 1]
      case PutOp(e) =>
        PutIndex(t, e);
        LatestSnoc(Puts(front), e);
        OneMoreMoved(s.index, t.index, Keys(Puts(front)), s.base, e.key, Put(t, e).index[e.key]);
      case GetOp(k) =>
        GetKeepsWorking(t, k);
        assert Puts(ops) == Puts(front);
    }
  }

  lemma NothingMoved(index: map<Key, RecordId>, base: nat)
    ensures IndexMoved(index, index, {}, base)
  {
  }

  lemma OneMoreMoved(before: map<Key, RecordId>, after: map<Key, RecordId>, ks: set<Key>, base: nat, k: Key,
                     rid: RecordId)
    requires IndexMoved(before, after, ks, base) && rid.page >= base
    ensures IndexMoved(before, after[k := rid], ks + {k}, base)
  {
  }

  lemma PutIndex(s: Session, e: Entry)
    requires Working(s) && !TooLarge(e)
    ensures e.key in Put(s, e).index && Put(s, e).index == s.index[e.key := Put(s, e).index[e.key]]
              && Put(s, e).index[e.key].page >= s.base
  {
    AppendedWellPacked(s.writer, e);
  }

  lemma LookupUnlessPut(d: Durable, capacity: nat, ops: seq<Op>, k: Key)
    requires Sound(d) && capacity > 0 && Bounded(ops)
    ensures Lookup(Steps(Opened(d, capacity), ops), k)
            == if k in Keys(Puts(ops)) then None else PageValue(d.pages, k)
  {
    hide Steps, StoredAll, Latest, Scan, ScanAll;
    var s := Opened(d, capacity);
    OpenedWorks(d, capacity);
    LookupAfterOpen(d, capacity, k);
    StepsKeepWorking(s, ops);
    IndexAfterSteps(s, ops);
    var t := Steps(s, ops);
    if k !in Keys(Puts(ops)) && k in s.index && s.index[k].page < s.base {
      SameRead(s, t, s.index[k]);
    }
  }

  lemma SameRead(s: Session, t: Session, rid: RecordId)
    requires s.base == t.base <= |s.writer.flushed| && s.writer.flushed <= t.writer.flushed
    ensures ReadRecord(s, rid) == ReadRecord(t, rid)
  {
  }

  // ---------- exactly when ----------

  ghost predicate NeverStale(d: Durable, capacity: nat, ops: seq<Op>) {
    forall k :: NotStale(Steps(Opened(d, capacity), ops), k)
  }

  /** As many keys as a 64-bit size can count, all different and none of them `k`. */
  function Filler(k: Key, i: nat): Key { [if k != [] && k[0] == 0 then 1 else 0] + LittleEndian(i, 8) }

  function Fillers(k: Key, n: nat): seq<Op> { seq(n, i requires 0 <= i < n => PutOp(Entry(Filler(k, i), []))) }

  lemma FillersDiffer(k: Key, i: nat, j: nat)
    requires i < TWO_64 && j < TWO_64
    ensures Filler(k, i) != k && (Filler(k, i) == Filler(k, j) ==> i == j)
  {
    PowersUsed();
    DecodeEncode(i, 8);
    DecodeEncode(j, 8);
    assert Filler(k, i)[1..] == LittleEndian(i, 8) && Filler(k, j)[1..] == LittleEndian(j, 8);
  }

  lemma FillersBounded(k: Key, n: nat)
    requires n < TWO_64
    ensures Bounded(Fillers(k, n)) && k !in Keys(Puts(Fillers(k, n)))
    ensures n > 0 ==> Fillers(k, n)[..n - 1] == Fillers(k, n - 1)
  {
    hide LittleEndian;
    if n == 0 {
      assert Keys(Puts(Fillers(k, 0))) == {};
    } else {
      assert Fillers(k, n)[..n - 1] == Fillers(k, n - 1);
      FillersBounded(k, n - 1);
      FillersDiffer(k, n - 1, n - 1);
      LatestSnoc(Puts(Fillers(k, n - 1)), Entry(Filler(k, n - 1), []));
    }
  }

  /** The newest cached keys after `n` fillers are those fillers, newest first. */
  ghost predicate FilledBy(order: seq<Key>, k: Key, n: nat, capacity: nat) {
    && |order| >= (if n <= capacity then n else capacity)
    && forall i :: 0 <= i < n && i < |order| ==> order[i] == Filler(k, n - 1 - i)
  }

  lemma OneMoreFiller(order: seq<Key>, k: Key, n: nat, capacity: nat)
    requires Distinct(order) && |order| <= capacity && capacity > 0 && n + 1 < TWO_64 && FilledBy(order, k, n, capacity)
    ensures FilledBy(LruAccess(order, Filler(k, n), capacity), k, n + 1, capacity)
  {
    hide Filler, Without, Distinct;
    var x, m := Filler(k, n), if n <= |order| then n else |order|;
    forall i | 0 <= i < m
      ensures order[i] != x
    {
      FillersDiffer(k, n - 1 - i, n);
    }
    WithoutOfPrefix(order, m, x);
    assert x !in order[..m];
    var r := LruAccess(order, x, capacity);
    forall i | 0 <= i < n + 1 && i < |r|
      ensures r[i] == Filler(k, n + 1 - 1 - i)
    {
      if i > 0 {
        assert i - 1 < m;
        assert order[i - 1] == Filler(k, n - 1 - (i - 1)) == order[..m][i - 1];
        assert x in order ==> r[i] == Without(order, x)[i - 1] == Without(order, x)[..m][i - 1];
      }
    }
  }

  lemma {:induction false} FillersFill(s: Session, k: Key, n: nat)
    requires Working(s) && n < TWO_64
    ensures var t := Steps(s, Fillers(k, n));
            Working(t) && t.capacity == s.capacity && FilledBy(t.cache.order, k, n, s.capacity)
  {
    hide Working, FilledBy, Put, Filler, LruAccess;
    FillersBounded(k, n);
    StepsKeepWorking(s, Fillers(k, n));
    if n == 0 {
      assert FilledBy(s.cache.order, k, 0, s.capacity) by { NothingFilled(s.cache.order, k, s.capacity); }
    } else {
      FillersFill(s, k, n - 1);
      var t := Steps(s, Fillers(k, n - 1));
      PutFiller(t, k, n - 1);
      OneMoreFiller(t.cache.order, k, n - 1, s.capacity);
    }
  }

  lemma NothingFilled(order: seq<Key>, k: Key, capacity: nat)
    ensures FilledBy(order, k, 0, capacity)
  {
  }

  lemma PutFiller(t: Session, k: Key, n: nat)
    requires Working(t)
    ensures Distinct(t.cache.order) && |t.cache.order| <= t.capacity && t.capacity > 0
    ensures Put(t, Entry(Filler(k, n), [])).cache.order == LruAccess(t.cache.order, Filler(k, n), t.capacity)
  {
    hide Appended, CachePut, LruAccess;
    PutIsLruAccess(t.cache, t.capacity, Filler(k, n), []);
  }

  /** As many fillers as the record cache holds push every other key out of it. */
  lemma FillersEvict(s: Session, k: Key)
    requires Working(s) && s.capacity < TWO_64
    ensures Cached(Steps(s, Fillers(k, s.capacity)).cache, k) == None
  {
    FillersFill(s, k, s.capacity);
    hide Filler, Fillers, Steps, WellPacked, ScanAll;
    var order := Steps(s, Fillers(k, s.capacity)).cache.order;
    forall i | 0 <= i < |order|
      ensures order[i] != k
    {
      FillersDiffer(k, s.capacity - 1 - i, s.capacity - 1 - i);
    }
  }

  /** A page value older than the log's is returned once its key has left the record cache, whatever
      its capacity: as many puts of other keys as the cache holds are enough. */
  lemma {:induction false} OldPageValueShows(d: Durable, capacity: nat, k: Key)
    requires Sound(d) && PageValue(d.pages, k).Some? && PageValue(d.pages, k) != LastPut(d.log, k)
    requires 0 < capacity < TWO_64
    ensures var ops := Fillers(k, capacity);
            var s := Steps(Opened(d, capacity), ops);
            && Bounded(ops) && Value(s, k) == PageValue(d.pages, k) && LastPut(s.log, k) == LastPut(d.log, k)
            && !NotStale(s, k)
  {
    hide Steps, Puts, Opened, Working, Lookup, PageValue, Latest, Fillers;
    var ops := Fillers(k, capacity);
    OpenedWorks(d, capacity);
    FillersBounded(k, capacity);
    StepsKeepWorking(Opened(d, capacity), ops);
    LookupUnlessPut(d, capacity, ops, k);
    FillersEvict(Opened(d, capacity), k);
    LatestOfConcat(d.log, Puts(ops));
    LatestKeys(Puts(ops));
  }

  /** Whatever the capacity of the record cache, sessions on a store return no outdated value for any
      interleaving of puts and gets if and only if its page file has no value older than the log's. */
  lemma {:induction false} NoStaleReadsIff(d: Durable, capacity: nat)
    requires Sound(d) && 0 < capacity < TWO_64
    ensures Fresh(d) <==> forall ops :: Bounded(ops) ==> NeverStale(d, capacity, ops)
  {
    if Fresh(d) {
      forall ops | Bounded(ops)
        ensures NeverStale(d, capacity, ops)
      {
        OpenedFresh(d, capacity);
        StepsKeepFresh(Opened(d, capacity), ops);
        forall k
          ensures NotStale(Steps(Opened(d, capacity), ops), k)
        {
          GetKeepsFresh(Steps(Opened(d, capacity), ops), k);
        }
      }
    } else {
      var k :| PageValue(d.pages, k).Some? && PageValue(d.pages, k) != LastPut(d.log, k);
      OldPageValueShows(d, capacity, k);
      assert !NeverStale(d, capacity, Fillers(k, capacity));
    }
  }

  // ---------- exactly when a read is exact ----------

  ghost predicate HeldAt(s: Session, ops: seq<Op>, i: nat, k: Key)
    requires i <= |ops|
  {
    k in Steps(s, ops[..i]).cache.values
  }

  /** The record cache never let go of the key since opening. */
  ghost predicate Kept(d: Durable, capacity: nat, ops: seq<Op>, k: Key) {
    forall i :: 0 <= i <= |ops| ==> HeldAt(Opened(d, capacity), ops, i, k)
  }

  lemma KeptNext(d: Durable, capacity: nat, ops: seq<Op>, k: Key)
    requires ops != []
    ensures Kept(d, capacity, ops, k) <==>
            Kept(d, capacity, ops[..|ops| - 1], k) && k in Steps(Opened(d, capacity), ops).cache.values
  {
    hide HeldAt, Steps, Opened;
    var s, front := Opened(d, capacity), ops[..|ops| - 1];
    HeldLast(s, ops, k);
    forall i | 0 <= i <= |front|
      ensures HeldAt(s, front, i, k) <==> HeldAt(s, ops, i, k)
    {
      HeldBefore(s, ops, i, k);
    }
  }

  lemma HeldLast(s: Session, ops: seq<Op>, k: Key)
    ensures HeldAt(s, ops, |ops|, k) <==> k in Steps(s, ops).cache.values
  {
    assert ops[..|ops|] == ops;
  }

  lemma HeldBefore(s: Session, ops: seq<Op>, i: nat, k: Key)
    requires i < |ops|
    ensures HeldAt(s, ops[..|ops| - 1], i, k) <==> HeldAt(s, ops, i, k)
  {
    assert ops[..|ops| - 1][..i] == ops[..i];
  }

  /** A cached value is the last one put if the key was put in this session or never left the cache;
      otherwise it came from the page file. */
  ghost predicate CacheExplained(d: Durable, capacity: nat, ops: seq<Op>, k: Key) {
    var s := Steps(Opened(d, capacity), ops);
    k in s.cache.values ==>
      Some(s.cache.values[k]) == if k in Keys(Puts(ops)) || Kept(d, capacity, ops, k) then LastPut(s.log, k)
                                 else PageValue(d.pages, k)
  }

  lemma OtherKeyInserted(c: Cache, capacity: nat, other: Key, v: seq<byte>, k: Key)
    requires other != k && k in CachePut(c, capacity, other, v, 0).values
    ensures k in c.values && CachePut(c, capacity, other, v, 0).values[k] == c.values[k]
  {
  }

  lemma ExplainedAfterPut(d: Durable, capacity: nat, ops: seq<Op>, e: Entry, k: Key)
    requires ops != [] && ops[|ops| - 1] == PutOp(e) && !TooLarge(e)
    requires CacheExplained(d, capacity, ops[..|ops| - 1], k)
    ensures CacheExplained(d, capacity, ops, k)
  {
    hide Opened, Latest, Appended, PageValue;
    var front := ops[..|ops| - 1];
    var t := Steps(Opened(d, capacity), front);
    KeptNext(d, capacity, ops, k);
    hide Kept, Bounded;
    LatestSnoc(Puts(front), e);
    LatestSnoc(t.log, e);
    if e.key != k && k in Put(t, e).cache.values {
      OtherKeyInserted(t.cache, t.capacity, e.key, e.value, k);
    }
  }

  lemma ExplainedAfterGet(d: Durable, capacity: nat, ops: seq<Op>, key: Key, k: Key)
    requires Sound(d) && capacity > 0 && Bounded(ops) && ops != [] && ops[|ops| - 1] == GetOp(key)
    requires CacheExplained(d, capacity, ops[..|ops| - 1], k)
    ensures CacheExplained(d, capacity, ops, k)
  {
    hide Opened, Latest, PageValue, Sound, Lookup;
    var front := ops[..|ops| - 1];
    var t := Steps(Opened(d, capacity), front);
    KeptNext(d, capacity, ops, k);
    LookupUnlessPut(d, capacity, front, key);
    assert Puts(ops) == Puts(front);
    if key != k && Cached(t.cache, key).None? && Lookup(t, key).Some? && k in Got(t, key).cache.values {
      OtherKeyInserted(t.cache, t.capacity, key, Lookup(t, key).value, k);
    }
    if k !in t.cache.values {
      assert !Kept(d, capacity, ops, k) by { NotKept(d, capacity, front, k); }
    }
  }

  lemma NotKept(d: Durable, capacity: nat, ops: seq<Op>, k: Key)
    requires k !in Steps(Opened(d, capacity), ops).cache.values
    ensures !Kept(d, capacity, ops, k)
  {
    assert ops[..|ops|] == ops;
    assert !HeldAt(Opened(d, capacity), ops, |ops|, k);
  }

  lemma {:induction false} CacheIsExplained(d: Durable, capacity: nat, ops: seq<Op>, k: Key)
    requires Sound(d) && capacity > 0 && Bounded(ops)
    ensures CacheExplained(d, capacity, ops, k)
  {
    if ops == [] {
      OpenedWorks(d, capacity);
      hide Opened, Latest, PageValue, Working;
      assert Kept(d, capacity, ops, k) <==> HeldAt(Opened(d, capacity), ops, 0, k);
      assert ops[..0] == ops;
    } else {
      hide CacheExplained, Sound;
      CacheIsExplained(d, capacity, ops[..|ops| - 1], k);
      match ops[|ops| - 1]
      case PutOp(e) => ExplainedAfterPut(d, capacity, ops, e, k);
      case GetOp(key) => ExplainedAfterGet(d, capacity, ops, key, k);
    }
  }

  lemma {:induction false} FittingReadIsExactIff(d: Durable, capacity: nat, ops: seq<Op>, k: Key)
    requires Sound(d) && capacity > 0 && Bounded(ops)
    ensures var s := Steps(Opened(d, capacity), ops);
            if k in Keys(Puts(ops)) then
              && (Value(s, k) == LastPut(s.log, k) <==> k in s.cache.values)
              && (k !in s.cache.values ==> Value(s, k) == None)
            else
              var exact := PageValue(d.pages, k) == LastPut(d.log, k) || Kept(d, capacity, ops, k);
              && (Value(s, k) == LastPut(s.log, k) <==> exact)
              && (!exact ==> Value(s, k) == PageValue(d.pages, k))
  {
    hide Steps, Opened, Puts, Latest, PageRecords, Lookup, Working;
    var s := Steps(Opened(d, capacity), ops);
    OpenedWorks(d, capacity);
    StepsKeepWorking(Opened(d, capacity), ops);
    LookupUnlessPut(d, capacity, ops, k);
    CacheIsExplained(d, capacity, ops, k);
    LatestOfConcat(d.log, Puts(ops));
    LatestKeys(Puts(ops));
    if k !in s.cache.values {
      NotKept(d, capacity, ops, k);
    }
  }

  /** On any sound store, crashes behind it or not, and for any run, rejected puts or not. A key put in
      this session is read exactly if and only if it is cached, and as absent otherwise. Any other key is
      read exactly if and only if the page file agrees with the log on it or the record cache has held it
      ever since opening, and as the page file has it otherwise. */
  lemma {:induction false} ReadIsExactIff(d: Durable, capacity: nat, ops: seq<Op>, k: Key)
    requires Sound(d) && capacity > 0
    ensures var s, last := Steps(Opened(d, capacity), ops), LastPut(d.log + AcceptedPuts(ops), k);
            if k in Keys(AcceptedPuts(ops)) then
              && (Value(s, k) == last <==> k in s.cache.values)
              && (k !in s.cache.values ==> Value(s, k) == None)
            else
              var exact := PageValue(d.pages, k) == LastPut(d.log, k) || Kept(d, capacity, AcceptedOps(ops), k);
              && (Value(s, k) == last <==> exact)
              && (!exact ==> Value(s, k) == PageValue(d.pages, k))
  {
    hide Sound, Steps, Opened, Value, LastPut, PageValue, Kept, Bounded, Working;
    var accepted := AcceptedOps(ops);
    OpenedIsReady(d, capacity);
    OpenedWorks(d, capacity);
    AcceptedFit(ops);
    StepsKeepWorking(Opened(d, capacity), accepted);
    FittingReadIsExactIff(d, capacity, accepted, k);
    RejectedPutsInvisible(Opened(d, capacity), ops);
    AlikeReads(Steps(Opened(d, capacity), ops), Steps(Opened(d, capacity), accepted), k);
  }

  // ---------- over histories ----------

  lemma UpToDateAfterCleanClose(h: seq<Process>)
    requires BoundedHistory(h) && (h == [] || h[|h| - 1].end == Close)
    ensures Sound(AfterHistory(NOTHING, h)) && UpToDate(AfterHistory(NOTHING, h))
    ensures AfterHistory(NOTHING, h).log == Written(h)
  {
    NothingIsSound();
    HistoryKeepsSound(NOTHING, h);
    if h != [] {
      HistoryKeepsSound(NOTHING, h[..|h| - 1]);
      CloseCatchesUp(AfterHistory(NOTHING, h[..|h| - 1]), h[|h| - 1]);
    }
  }

  /** In every reachable state of a process that starts on nothing or after a clean close, whatever
      the crashes before, a read returns the last value put or nothing. */
  lemma {:induction false} NoStaleReads(h: seq<Process>, capacity: nat, ops: seq<Op>, k: Key)
    requires BoundedHistory(h) && (h == [] || h[|h| - 1].end == Close)
    requires capacity > 0
    ensures var v := Value(Steps(Opened(AfterHistory(NOTHING, h), capacity), ops), k);
            v == None || v == LastPut(Written(h) + AcceptedPuts(ops), k)
  {
    UpToDateAfterCleanClose(h);
    var d := AfterHistory(NOTHING, h);
    assert PageValue(d.pages, k) == LastPut(d.log, k);
    hide Sound, Steps, Opened, Value, LastPut, PageValue, Kept, AfterHistory, Written, UpToDate;
    ReadIsExactIff(d, capacity, ops, k);
  }

  // ---------- a crash that leaves the page file behind ----------

  const NAME: Key := [1]
  const FIRST := Entry(NAME, [1])
  const SECOND := Entry(NAME, [2])

  lemma OnePut(s: Session, e: Entry)
    ensures Steps(s, [PutOp(e)]) == Put(s, e) && Keys(Puts([PutOp(e)])) == {e.key}
  {
    assert [PutOp(e)][..0] == [] && Puts([PutOp(e)]) == [e];
  }

  /** One clean process puts a value; the next replaces it and crashes before its page is full. */
  const CRASHED := [Process(1, [PutOp(FIRST)], Close), Process(1, [PutOp(SECOND)], Crash)]

  lemma SmallRecordsFit()
    ensures Packed([FIRST]) && Packed([FIRST, SECOND])
  {
    assert [FIRST][..0] == [] && [FIRST, SECOND][..1] == [FIRST];
    assert Used([FIRST]) == 7 && Used([FIRST, SECOND]) == 14;
  }

  lemma FirstProcess()
    ensures AfterProcess(NOTHING, CRASHED[0]) == Durable([FIRST], [[FIRST]])
  {
    SmallRecordsFit();
    assert [PutOp(FIRST)][..0] == [] && [] + [FIRST] == [FIRST];
    var s := Opened(NOTHING, 1);
    assert s.writer == Packing([], []) && Steps(s, [PutOp(FIRST)]) == Put(s, FIRST);
    assert Put(s, FIRST).writer == Packing([], [FIRST]);
  }

  const AFTER_FIRST := Durable([FIRST], [[FIRST]])
  const AFTER_SECOND := Durable([FIRST, SECOND], [[FIRST]])

  lemma SecondOpen()
    ensures Opened(AFTER_FIRST, 1).writer == Packing([[FIRST]], [FIRST])
    ensures Opened(AFTER_FIRST, 1).log == [FIRST]
  {
    SmallRecordsFit();
    var u := Unopened(AFTER_FIRST, 1);
    FittingLogReplays([FIRST]);
    assert [FIRST][..0] == [] && [] + [FIRST] == [FIRST];
    assert StoredAll(u, [FIRST]) == Stored(u, FIRST);
    assert Stored(u, FIRST).writer == Packing([[FIRST]], [FIRST]);
  }

  lemma SecondProcess()
    ensures AfterProcess(AFTER_FIRST, CRASHED[1]) == AFTER_SECOND
  {
    SmallRecordsFit();
    SecondOpen();
    hide Opened, CachePut;
    OnePut(Opened(AFTER_FIRST, 1), SECOND);
    assert [FIRST] + [SECOND] == [FIRST, SECOND];
  }

  lemma CrashedStore()
    ensures AfterHistory(NOTHING, CRASHED) == AFTER_SECOND && Sound(AFTER_SECOND)
    ensures Written(CRASHED) == [FIRST, SECOND]
  {
    FirstProcess();
    SecondProcess();
    NothingIsSound();
    HistoryKeepsSound(NOTHING, CRASHED);
    hide AfterProcess, Sound;
    assert CRASHED[..1] == [CRASHED[0]] && CRASHED[..1][..0] == [];
    assert AfterHistory(NOTHING, CRASHED[..1]) == AFTER_FIRST;
  }

  lemma CrashedValues()
    ensures PageValue(AFTER_SECOND.pages, NAME) == Some([1]) && LastPut(AFTER_SECOND.log, NAME) == Some([2])
    ensures LastPut(AFTER_SECOND.log + [Entry([], [])], NAME) == Some([2])
  {
    LatestSnoc([], FIRST);
    LatestSnoc([FIRST], SECOND);
    LatestSnoc([FIRST, SECOND], Entry([], []));
    assert [] + [FIRST] == [FIRST] && [FIRST] + [SECOND] == [FIRST, SECOND];
    assert [[FIRST]][..0] == [] && Scan([[FIRST]]) == [Located(RecordId(0, 0), FIRST)];
    assert PageRecords([[FIRST]]) == [FIRST];
  }

  /** Durability fails without its conditions: after this history, whatever the capacity of the record
      cache, as many puts of other keys as it holds make a read return the value that was replaced
      before the crash. */
  lemma {:induction false} StaleReadAfterCrash(capacity: nat)
    requires 0 < capacity < TWO_64
    ensures var d := AfterHistory(NOTHING, CRASHED);
            var s := Steps(Opened(d, capacity), Fillers(NAME, capacity));
            && Value(s, NAME) == Some([1])
            && LastPut(Written(CRASHED), NAME) == LastPut(s.log, NAME) == Some([2])
  {
    CrashedStore();
    CrashedValues();
    OldPageValueShows(AFTER_SECOND, capacity, NAME);
    hide Opened, Steps, AfterHistory, Written, PageValue, LastPut, Fillers;
  }

  const OTHER := Entry([], [])
  const TWO_PUTS := [PutOp(FIRST), PutOp(OTHER)]

  /** A value can be missing in the very session that put it: with room for one cached record, the
      put of another key hides it. */
  lemma {:induction false} ValueMissingAfterPut()
    ensures var s := Steps(Opened(NOTHING, 1), TWO_PUTS);
            Value(s, NAME) == None && LastPut(s.log, NAME) == Some([1])
  {
    NothingIsSound();
    OpenedWorks(NOTHING, 1);
    hide Opened, Put, Working, Value, LastPut, Latest, Sound;
    TwoPuts(Opened(NOTHING, 1));
    PutKeepsWorking(Opened(NOTHING, 1), FIRST);
    var s := Put(Opened(NOTHING, 1), FIRST);
    OtherKeyEvicted(s, OTHER, NAME);
    hide Steps, Puts;
    FittingReadIsExactIff(NOTHING, 1, TWO_PUTS, NAME);
    PutKeepsWorking(s, OTHER);
    LastPutOfTwo(Put(s, OTHER).log);
  }

  lemma TwoPuts(s: Session)
    ensures Steps(s, TWO_PUTS) == Put(Put(s, FIRST), OTHER) && NAME in Keys(Puts(TWO_PUTS)) && Bounded(TWO_PUTS)
  {
    hide Put;
    assert TWO_PUTS[..1] == [PutOp(FIRST)] && TWO_PUTS[..1][..0] == [];
    assert Puts(TWO_PUTS[..1]) == [FIRST];
    assert Steps(s, TWO_PUTS[..1]) == Put(s, FIRST);
    assert FIRST in Puts(TWO_PUTS);
  }

  lemma LastPutOfTwo(log: seq<Entry>)
    requires log == [] + [FIRST] + [OTHER]
    ensures LastPut(log, NAME) == Some([1])
  {
    LatestSnoc([], FIRST);
    LatestSnoc([] + [FIRST], OTHER);
  }

  lemma OtherKeyEvicted(s: Session, e: Entry, k: Key)
    requires Working(s) && s.capacity == 1 && !TooLarge(e) && e.key != k
    ensures Cached(Put(s, e).cache, k) == None
  {
    hide WellPacked, ScanAll, Appended;
    if k in s.cache.values {
      assert s.cache.order == [k];
    }
  }
}
