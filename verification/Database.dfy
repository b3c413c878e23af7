/** The database object: log, writer, reader, index and record cache kept together. */
module Database {
  import opened Bytes
  import opened SlottedPage
  import opened P = Packing
  import opened Recency
  import opened LruCache
  import opened Observer
  import opened EvictionPolicy
  import opened PagePool
  import opened PoolRuns
  import opened PageCache
  import opened StorageEngine
  import opened StorageReader
  import opened Reading
  import opened StorageWriter
  import opened Index
  import N = NodeList
  import W = Wal
  import S = Store

  /** Records short enough for the log's length fields, and few enough for its numbers. */
  ghost predicate Countable(log: seq<Entry>) { |log| < TWO_64 && forall e :: e in log ==> W.Short(e) }

  /** The log's bytes are these records, which are what was put; they are numbered 1..n while they can be. */
  ghost predicate LogOf(rs: seq<W.WalRecord>, bytes: seq<byte>, log: seq<Entry>) {
    && bytes == W.EncodeAll(rs) && W.EntriesOf(rs) == log && (forall r :: r in rs ==> r.lsn < TWO_64)
    && (Countable(log) ==> rs == W.Numbered(log))
  }

  ghost predicate LogHolds(bytes: seq<byte>, log: seq<Entry>) { exists rs :: LogOf(rs, bytes, log) }

  /** The bytes of the page file and of the log hold what `d` says. */
  ghost predicate StoredAs(pages: seq<RawPage>, log: seq<byte>, d: S.Durable) {
    FileHolds(pages, d.pages) && (forall es :: es in d.pages ==> Packed(es)) && LogHolds(log, d.log)
  }

  ghost function RecordsOf(bytes: seq<byte>, log: seq<Entry>): (rs: seq<W.WalRecord>)
    requires LogHolds(bytes, log)
    ensures LogOf(rs, bytes, log)
  {
    var rs :| LogOf(rs, bytes, log); rs
  }

  lemma EmptyFiles()
    ensures StoredAs([], [], S.NOTHING)
  {
    assert LogOf([], [], []);
  }

  /** What a replay of the log's bytes visits, and how far its numbers go. */
  lemma LogReplays(rs: seq<W.WalRecord>, bytes: seq<byte>, log: seq<Entry>)
    requires LogOf(rs, bytes, log)
    ensures W.EntriesOf(W.Parse(bytes)) == W.Replayed(log)
    ensures Countable(log) ==> W.HighestLsn(W.Parse(bytes), 0) == |log|
  {
    hide W.ParseOne, W.Encode, W.EncodeAll, W.Parse, W.Replayed, W.HighestLsn;
    W.ReplayOfAll(rs);
    if Countable(log) {
      assert forall i :: 0 <= i < |log| ==> log[i] in log;
      W.ReplayGivesBack(rs);
      W.HighestOfIncreasing(rs, 0);
    }
  }

  lemma LogGrows(rs: seq<W.WalRecord>, bytes: seq<byte>, log: seq<Entry>, lsn: nat, e: Entry)
    requires LogOf(rs, bytes, log) && lsn < TWO_64 && (Countable(log + [e]) ==> lsn == |log| + 1)
    ensures Countable(log + [e]) ==> Countable(log)
    ensures var r := W.WalRecord(lsn, e.key, e.value);
            LogOf(rs + [r], bytes + W.Encode(r), log + [e])
  {
    hide W.Encode;
    var r := W.WalRecord(lsn, e.key, e.value);
    W.EncodeAllConcat(rs, [r]);
    assert [r][1..] == [] && W.EncodeAll([r]) == W.Encode(r) + [];
    assert W.EntriesOf(rs + [r]) == log + [e];
    assert Countable(log + [e]) ==> Countable(log) && rs + [r] == W.Numbered(log + [e]);
  }

  lemma StoredNone(s: S.Session)
    ensures S.StoredAll(s, []) == s
  {
  }

  lemma StoredNext(s: S.Session, log: seq<Entry>, i: nat)
    requires i < |log|
    ensures S.StoredAll(s, log[..i + 1]) == S.Stored(S.StoredAll(s, log[..i]), log[i])
  {
    assert log[..i + 1][..i] == log[..i];
  }

  /** What the bytes of a file give for a record id is what its pages of records have there. */
  lemma ReadsWhatItHolds(file: seq<RawPage>, pages: seq<seq<Entry>>, rid: RecordId)
    requires FileHolds(file, pages) && rid.page < |file|
    ensures ReadSlot(file[rid.page], rid.slot)
            == match RecordAt(pages, rid) case Some(e) => Found(e) case None => Missing
  {
    hide Sealed, Stamped, ReadSlot;
    ReadBack(file[rid.page], pages[rid.page], rid.slot);
  }

  lemma FileScans(file: seq<RawPage>, pages: seq<seq<Entry>>)
    requires FileHolds(file, pages)
    ensures FromPages(file) == P.Scan(pages)
  {
    hide Sealed, Stamped;
    ScanOfFile(file, pages);
  }

  lemma FileHasPages(file: seq<RawPage>, pages: seq<seq<Entry>>)
    requires FileHolds(file, pages)
    ensures |file| == |pages|
    ensures forall n :: 0 <= n <= |file| ==> FileHolds(file[..n], pages[..n])
  {
    hide Sealed, Stamped;
  }

  lemma ClosedPacked(w: P.Packing)
    requires WellPacked(w)
    ensures forall es :: es in Closed(w) ==> Packed(es)
  {
    hide Packed;
  }

  lemma CleanViews(s: Pool)
    requires Clean(s)
    ensures Views(s) == s.disk
  {
    hide View;
  }

  lemma RejectedChangesNothing(s: S.Session, e: Entry)
    requires s.base <= |s.writer.flushed| && |e.key| + |e.value| > MAX_PAYLOAD
    ensures var t := S.Put(s, e); t.index == s.index && t.cache == s.cache && forall k :: S.Value(t, k) == S.Value(s, k)
  {
    hide S.Put, S.Value;
    S.RejectedPutInvisible(s, e);
  }

  lemma ScanOfPrefix(pages: seq<seq<Entry>>, n: nat)
    requires n <= |pages|
    ensures var ls := P.Scan(pages[..n]);
            && (forall i, j :: 0 <= i < j < |ls| ==>
                  || ls[i].rid.page < ls[j].rid.page
                  || (ls[i].rid.page == ls[j].rid.page && ls[i].rid.slot < ls[j].rid.slot))
            && (forall l :: l in ls ==> l.rid.page < n && RecordAt(pages, l.rid) == Some(l.entry))
            && (forall rid: RecordId :: rid.page < n && RecordAt(pages, rid).Some? ==>
                  Located(rid, RecordAt(pages, rid).value) in ls)
  {
    hide P.Scan;
    ScanIsOrdered(pages[..n]);
    forall rid: RecordId | rid.page < n && RecordAt(pages, rid).Some?
      ensures Located(rid, RecordAt(pages, rid).value) in P.Scan(pages[..n])
    {
      assert RecordAt(pages[..n], rid) == RecordAt(pages, rid);
      ScanIsComplete(pages[..n], rid);
    }
    forall l | l in P.Scan(pages[..n])
      ensures l.rid.page < n && RecordAt(pages, l.rid) == Some(l.entry)
    {
      assert RecordAt(pages[..n], l.rid) == Some(l.entry);
    }
  }

  class Database {
    const file: PageFile
    const logFile: W.LogFile
    const engine: StorageEngine
    const reader: StorageReader
    const writer: StorageWriter
    const wal: W.WalManager
    const index: Index
    const recordCache: LruCache
    ghost var state: S.Session
    /** The records behind the log's bytes. */
    ghost var records: seq<W.WalRecord>

    /** Writer, index and record cache are what the state says. */
    ghost predicate WritesAgree()
      reads this, file, writer, writer.page, writer.page.data, index, recordCache
    {
      && writer.file == file && writer.Valid() && writer.state == state.writer
      && index.entries == state.index
      && recordCache.Valid() && recordCache.policy == None && recordCache.capacity == state.capacity
      && recordCache.Contents() == state.cache
    }

    ghost predicate LogAgrees()
      reads this, logFile, wal
    {
      && wal.file == logFile && wal.Valid() && LogOf(records, logFile.bytes, state.log)
      && (Countable(state.log) ==> wal.currentLsn == |state.log|)
    }

    /** The engine reads the first `base` pages of the file and nothing is pinned. */
    ghost predicate ReadsAgree()
      reads this, file, engine, engine.cache, engine.cache.Watchers()
    {
      && reader.engine == engine && engine.file == file && engine.Valid()
      && engine.cache.policy == NoPolicy && engine.pageCount == state.base
      && Clean(engine.State()) && PinnedPages(engine.State()) == {}
    }

    /** A pool without frames can serve only a database that has no pages to read. */
    ghost predicate CanRead()
      requires ReadsAgree()
      reads this, file, engine, engine.cache, engine.cache.Watchers()
    {
      engine.State().frames == [] ==> state.base == 0
    }

    ghost function Owned(): set<object> {
      {this, engine, engine.cache, writer, writer.page, writer.page.data, wal, index, recordCache}
    }

    ghost function Repr(): set<object> { Owned() + {file, logFile} + engine.cache.Watchers() }

    ghost predicate Valid()
      reads Repr()
    {
      WritesAgree() && LogAgrees() && ReadsAgree() && CanRead()
    }

    /** Others may append to the file behind the engine. */
    twostate lemma FileGrew()
      requires old(ReadsAgree()) && old(file.pages) <= file.pages && state.base == old(state.base)
      requires unchanged(engine) && unchanged(engine.cache) && forall o :: o in engine.cache.Watchers() ==> unchanged(o)
      ensures ReadsAgree() && (old(CanRead()) ==> CanRead())
    {
      hide Structured, Clean, PinnedPages, PinOf, View, AccessObserver.Valid, N.Linked, N.IteratorsAgree;
      FileExtended(old(engine.State()), file.pages);
    }

    /** A reader of the engine always finds a frame, and reads what is in the file. */
    lemma Readable()
      requires ReadsAgree()
      ensures (engine.State().frames != [] ==> Roomy(engine.State())) && Views(engine.State()) == file.pages
      ensures state.base <= |file.pages|
      ensures forall p :: 0 <= p < |file.pages| ==>
                && (engine.State().frames != [] ==> CanFetch(engine.State(), p))
                && View(engine.State(), p) == file.pages[p]
    {
      hide Structured, PageCache.Valid, PinOf, View, CanFetch;
      var s := engine.State();
      engine.PoolStructured();
      CleanViews(s);
      forall p | 0 <= p < |file.pages| && s.frames != []
        ensures CanFetch(s, p)
      {
        RoomyFetch(s, p);
      }
    }

    /** Reads leave the engine as a reader wants it. */
    twostate lemma StillReadable()
      requires old(ReadsAgree()) && engine.Valid() && state.base == old(state.base)
      requires engine.pageCount == old(engine.pageCount)
      requires SameView(old(engine.State()), engine.State()) && Clean(engine.State())
      ensures ReadsAgree() && (old(CanRead()) ==> CanRead())
    {
      hide PageCache.Valid, Clean, PinnedPages, PinOf, View;
      PinnedPagesSame(old(engine.State()), engine.State());
    }

    /** Writer, then index, then record cache; false is the writer's "record too large". */
    method StoreRecord(key: seq<byte>, value: seq<byte>) returns (ok: bool)
      requires WritesAgree()
      modifies this`state, file, writer, writer.page, writer.page.data, index, recordCache
      ensures WritesAgree() && state == S.Stored(old(state), Entry(key, value))
      ensures state.log == old(state.log) && state.base == old(state.base)
      ensures ok <==> |key| + |value| <= MAX_PAYLOAD
      ensures old(file.pages) <= file.pages
    {
      hide Appended, CachePut, StorageWriter.BufferHolds, FileHolds, WellPacked, Linked, ContentsOf;
      var rid := writer.Append(key, value);
      state := S.Stored(state, Entry(key, value));
      if rid.None? {
        return false;
      }
      index.Insert(key, rid.value);
      recordCache.Put(key, value);
      ok := true;
    }

    /** The parts of a database over a file and a log, before the log is replayed. */
    constructor Assembled(file: PageFile, logFile: W.LogFile, cachePages: nat, recordCapacity: nat,
                          observer: AccessObserver?, ghost d: S.Durable)
      requires StoredAs(file.pages, logFile.bytes, d) && |file.pages| <= PAGE_LIMIT
      requires recordCapacity > 0 && (observer != null ==> observer.Valid())
      ensures this.file == file && this.logFile == logFile && engine.cache.observer == observer
      ensures fresh(Owned())
      ensures WritesAgree() && ReadsAgree() && (CanRead() <==> cachePages > 0 || d.pages == [])
      ensures state == S.Unopened(d, recordCapacity) && LogOf(records, logFile.bytes, d.log)
      ensures wal.file == logFile && wal.Valid() && wal.currentLsn == 0
    {
      hide StorageWriter.BufferHolds, FileHolds, WellPacked, LruCache.Valid, LruCache.Contents, PageCache.Valid,
           Structured, AccessObserver.Valid, Clean, PinnedPages, View, N.Linked, N.PagesIn, LogOf;
      ghost var rs := RecordsOf(logFile.bytes, d.log);
      var pages := new StorageEngine(file, cachePages, observer);
      assert pages.cache.Watchers() == ObservedBy(observer) && pages.Valid();
      engine := pages;
      reader := new StorageReader(pages);
      writer := new StorageWriter(file, d.pages);
      wal := new W.WalManager(logFile);
      index := new Index();
      recordCache := new LruCache(recordCapacity, None);
      this.file, this.logFile := file, logFile;
      state := S.Unopened(d, recordCapacity);
      records := rs;
      new;
      FileHasPages(file.pages, d.pages);
      EmptyIsClean(file.pages, engine.State());
    }

    /** Appends replayed records to the pages again; false is the writer's "record too large". */
    method ReplayRecords(visited: seq<W.WalRecord>) returns (ok: bool)
      requires WritesAgree()
      modifies this`state, file, writer, writer.page, writer.page.data, index, recordCache
      ensures WritesAgree() && old(file.pages) <= file.pages
      ensures ok <==> S.Fits(W.EntriesOf(visited))
      ensures state.log == old(state.log) && state.base == old(state.base)
      ensures state == S.StoredAll(old(state), S.Taken(W.EntriesOf(visited)))
    {
      hide StorageWriter.BufferHolds, FileHolds, WellPacked, LruCache.Valid, LruCache.Contents, PageCache.Valid,
           S.Stored, S.StoredAll, S.Taken;
      ghost var log := W.EntriesOf(visited);
      StoredNone(state);
      for i := 0 to |visited|
        invariant WritesAgree() && old(file.pages) <= file.pages
        invariant state == S.StoredAll(old(state), log[..i])
        invariant state.log == old(state.log) && state.base == old(state.base)
        invariant forall j :: 0 <= j < i ==> !TooLarge(log[j])
      {
        var r := visited[i];
        StoredNext(old(state), log, i);
        ok := StoreRecord(r.key, r.value);
        if !ok {
          assert log[i] in log;
          S.TakenUpTo(log, i);
          return;
        }
      }
      assert log[..|log|] == log;
      S.FittingAreTaken(log);
      ok := true;
    }

    /** Replays the whole log into the pages, the index and the record cache. */
    method ReplayLog() returns (ok: bool)
      requires WritesAgree() && wal.file == logFile && wal.Valid() && wal.currentLsn == 0
      requires LogOf(records, logFile.bytes, state.log)
      modifies this`state, file, writer, writer.page, writer.page.data, wal, index, recordCache
      ensures WritesAgree() && old(file.pages) <= file.pages
      ensures ok <==> S.Fits(W.Replayed(state.log))
      ensures state.log == old(state.log) && state.base == old(state.base)
      ensures LogAgrees() && state == S.StoredAll(old(state), S.Taken(W.Replayed(state.log)))
    {
      hide StorageWriter.BufferHolds, FileHolds, WellPacked, LruCache.Valid, LruCache.Contents, LogOf, S.StoredAll,
           S.Taken, W.Parse, W.HighestLsn, W.Replayed;
      var visited, count := wal.Replay();
      LogReplays(records, logFile.bytes, state.log);
      ok := ReplayRecords(visited);
    }

    /** Rebuilds the index from the pages that were there when the engine was built. */
    method Recover(ghost d: S.Durable, ghost found: seq<RawPage>) returns (ok: bool)
      requires WritesAgree() && LogAgrees() && ReadsAgree() && state.base == |d.pages| == |found|
      requires FileHolds(found, d.pages) && found <= file.pages
      modifies this`state, index, engine.cache, file, engine.cache.Watchers()
      ensures ok <==> old(CanRead())
      ensures state == old(state).(index := state.index)
      ensures WritesAgree() && LogAgrees() && ReadsAgree() && (ok ==> CanRead()) && file.pages == old(file.pages)
      ensures ok ==> state == if |d.pages| > 0 then old(state).(index := IndexOf(P.Scan(d.pages))) else old(state)
    {
      hide StorageWriter.BufferHolds, FileHolds, WellPacked, LruCache.Valid, LruCache.Contents, PageCache.Valid,
           Clean, PinnedPages, View, SameView, Roomy, CanFetch, LogOf, P.Scan, IndexOf, FromPages,
           StorageEngine.Valid;
      if engine.pageCount > 0 {
        var threw := RebuildIndex();
        if threw {
          state := state.(index := index.entries);
          return false;
        }
        FileScans(found, d.pages);
        assert file.pages[..|found|] == found;
        state := state.(index := index.entries);
      }
      ok := true;
    }

    method RebuildIndex() returns (threw: bool)
      requires ReadsAgree() && state.base > 0
      modifies index, engine.cache, file, engine.cache.Watchers()
      ensures ReadsAgree() && (old(CanRead()) ==> CanRead()) && file.pages == old(file.pages)
      ensures threw <==> !old(CanRead())
      ensures state.base <= |file.pages| && !threw ==> index.entries == IndexOf(FromPages(file.pages[..state.base]))
    {
      hide PageCache.Valid, Clean, PinnedPages, View, SameView, Roomy, CanFetch;
      Readable();
      threw := index.Rebuild(reader, WorkloadHint.Scan);
      StillReadable();
    }

    /** What the constructor does once its parts are there: replay, then recovery; false when one throws. */
    method Start(ghost d: S.Durable) returns (ok: bool)
      requires WritesAgree() && ReadsAgree() && state == S.Unopened(d, state.capacity) && FileHolds(file.pages, d.pages)
      requires wal.file == logFile && wal.Valid() && wal.currentLsn == 0 && LogOf(records, logFile.bytes, d.log)
      modifies this`state, file, writer, writer.page, writer.page.data, wal, index, recordCache
      modifies engine.cache, engine.cache.Watchers()
      ensures ok <==> S.Opens(d) && old(CanRead())
      ensures WritesAgree() && LogAgrees() && ReadsAgree() && old(file.pages) <= file.pages
      ensures ok ==> Valid() && state == S.Opened(d, old(state.capacity))
      ensures !ok ==> S.AfterClose(state) == S.AfterFailedOpen(d, old(state.capacity))
    {
      hide StorageWriter.BufferHolds, FileHolds, WellPacked, LruCache.Valid, LruCache.Contents, PageCache.Valid,
           Clean, PinnedPages, View, SameView, Roomy, CanFetch, LogOf, S.StoredAll, S.Taken;
      FileHasPages(file.pages, d.pages);
      ok := ReplayLog();
      FileGrew();
      if ok {
        S.FittingAreTaken(W.Replayed(d.log));
        ok := Recover(d, old(file.pages));
      }
    }

    /** Opens the database: replay, then recovery; null when one of them throws, after the writer's
        destructor has written out its page. */
    static method Open(file: PageFile, logFile: W.LogFile, cachePages: nat, recordCapacity: nat,
                       observer: AccessObserver?, ghost d: S.Durable) returns (db: Database?)
      requires StoredAs(file.pages, logFile.bytes, d) && |file.pages| <= PAGE_LIMIT
      requires recordCapacity > 0 && (observer != null ==> observer.Valid())
      modifies file, ObservedBy(observer)
      ensures db != null <==> S.Opens(d) && (cachePages > 0 || d.pages == [])
      ensures db != null ==> db.Valid() && db.state == S.Opened(d, recordCapacity)
      ensures db != null ==> db.file == file && db.logFile == logFile && fresh(db.Owned())
      ensures db != null ==> db.engine.cache.observer == observer
      ensures db == null ==> StoredAs(file.pages, logFile.bytes, S.AfterFailedOpen(d, recordCapacity))
      ensures old(file.pages) <= file.pages && (observer != null ==> observer.Valid())
    {
      hide StorageWriter.BufferHolds, FileHolds, WellPacked, LruCache.Valid, LruCache.Contents, PageCache.Valid,
           Clean, PinnedPages, View, SameView, Roomy, CanFetch, LogOf, S.StoredAll, S.Taken, AccessObserver.Valid;
      db := new Database.Assembled(file, logFile, cachePages, recordCapacity, observer, d);
      var ok := db.Start(d);
      db.ObserverValid();
      if !ok {
        db.Close();
        db := null;
      }
    }

    /** The first part of a put: the record goes to the log, narrowed if it is too long. */
    method LogRecord(key: seq<byte>, value: seq<byte>)
      requires LogAgrees()
      modifies this`state, this`records, logFile, wal
      ensures LogAgrees() && state == old(state).(log := old(state.log) + [Entry(key, value)])
      ensures logFile.bytes == old(logFile.bytes) + W.Encode(W.WalRecord(wal.currentLsn, key, value))
    {
      hide LogOf, W.Encode;
      var lsn := wal.Append(key, value);
      LogGrows(records, old(logFile.bytes), state.log, lsn, Entry(key, value));
      records := records + [W.WalRecord(lsn, key, value)];
      state := state.(log := state.log + [Entry(key, value)]);
    }

    /** Log, then pages, index and record cache; false is the error "record too large", raised after
        the record was logged. */
    method Put(key: seq<byte>, value: seq<byte>) returns (ok: bool)
      requires Valid()
      modifies this`state, this`records, file, logFile, writer, writer.page, writer.page.data, wal, index, recordCache
      ensures Valid() && state == S.Put(old(state), Entry(key, value))
      ensures ok <==> |key| + |value| <= MAX_PAYLOAD
      ensures !ok ==> index.entries == old(index.entries) && recordCache.Contents() == old(recordCache.Contents())
      ensures !ok ==> forall k :: S.Value(state, k) == S.Value(old(state), k)
      ensures logFile.bytes == old(logFile.bytes) + W.Encode(W.WalRecord(wal.currentLsn, key, value))
    {
      hide StorageWriter.BufferHolds, FileHolds, WellPacked, LruCache.Valid, LruCache.Contents, PageCache.Valid,
           Clean, PinnedPages, View, LogOf, S.Stored, W.Encode;
      FileHasPages(file.pages, state.writer.flushed);
      LogRecord(key, value);
      ok := StoreRecord(key, value);
      FileGrew();
      if !ok {
        RejectedChangesNothing(old(state), Entry(key, value));
      }
    }

    /** The record cache, then the index and the pages, remembering in the cache what they give. */
    method Get(key: seq<byte>) returns (r: Option<seq<byte>>)
      requires Valid()
      modifies this`state, recordCache, engine.cache, file, engine.cache.Watchers()
      ensures Valid() && state == S.Got(old(state), key)
      ensures r == S.Value(old(state), key)
      ensures file.pages == old(file.pages)
    {
      hide StorageWriter.BufferHolds, FileHolds, WellPacked, LruCache.Valid, LruCache.Contents, PageCache.Valid,
           Clean, PinnedPages, View, SameView, Roomy, CanFetch, LogOf, CachePut, MoveToFront, WellFormed, S.Lookup;
      r := recordCache.Get(key);
      if r.Some? {
        state := S.Got(state, key);
        return;
      }
      r := Find(key);
      if r.Some? {
        recordCache.Put(key, r.value);
        state := S.Got(state, key);
      }
    }

    /** The index, then the page it points at, whose record must have the key. */
    method Find(key: seq<byte>) returns (r: Option<seq<byte>>)
      requires Valid()
      modifies engine.cache, file, engine.cache.Watchers()
      ensures Valid() && r == S.Lookup(state, key) && file.pages == old(file.pages)
    {
      hide StorageWriter.BufferHolds, FileHolds, WellPacked, LruCache.Valid, LruCache.Contents, PageCache.Valid,
           Clean, PinnedPages, View, SameView, Roomy, CanFetch, LogOf, RecordAt;
      var rid := index.Lookup(key);
      if rid.None? {
        return None;
      }
      var found := ReadRecord(rid.value);
      r := if found.Some? && found.value.key == key then Some(found.value.value) else None;
    }

    /** The reader's view of a record id: nothing beyond the pages found at opening. */
    method ReadRecord(rid: RecordId) returns (r: Option<Entry>)
      requires Valid()
      modifies engine.cache, file, engine.cache.Watchers()
      ensures Valid() && r == S.ReadRecord(state, rid) && file.pages == old(file.pages)
    {
      hide StorageWriter.BufferHolds, FileHolds, WellPacked, LruCache.Valid, LruCache.Contents, PageCache.Valid,
           Clean, PinnedPages, View, SameView, Roomy, CanFetch, LogOf, ReadSlot, RecordAt;
      Readable();
      if rid.page < engine.pageCount {
        ReadsWhatItHolds(file.pages, state.writer.flushed, rid);
      }
      var outcome := reader.ReadRecord(rid, PointLookup);
      StillReadable();
      r := match outcome
        case Read(Found(e)) => Some(e)
        case _ => None;
    }

    /** A scan delivers the records of the pages found at opening, each once and under its id, page by page
        and slot by slot. */
    method ScanRecords() returns (out: seq<Located>)
      requires Valid()
      modifies engine.cache, file, engine.cache.Watchers()
      ensures Valid() && file.pages == old(file.pages) && state.base <= |state.writer.flushed|
      ensures P.Entries(out) == S.PageRecords(state.writer.flushed[..state.base])
      ensures forall i, j :: 0 <= i < j < |out| ==>
                || out[i].rid.page < out[j].rid.page
                || (out[i].rid.page == out[j].rid.page && out[i].rid.slot < out[j].rid.slot)
      ensures forall l :: l in out ==> l.rid.page < state.base && RecordAt(state.writer.flushed, l.rid) == Some(l.entry)
      ensures forall rid: RecordId :: rid.page < state.base && RecordAt(state.writer.flushed, rid).Some? ==>
                Located(rid, RecordAt(state.writer.flushed, rid).value) in out
    {
      hide StorageWriter.BufferHolds, FileHolds, WellPacked, LruCache.Valid, LruCache.Contents, PageCache.Valid,
           Clean, PinnedPages, View, SameView, Roomy, CanFetch, LogOf, RecordAt, P.Scan;
      Readable();
      var threw;
      out, threw := reader.Scan(WorkloadHint.Scan);
      StillReadable();
      FileHasPages(file.pages, state.writer.flushed);
      FileScans(file.pages[..state.base], state.writer.flushed[..state.base]);
      ScanOfPrefix(state.writer.flushed, state.base);
    }

    /** How many keys the index has. */
    method RecordCount() returns (n: nat)
      requires Valid()
      ensures n == |state.index| == |state.index.Keys|
    {
      n := |index.entries|;
      assert |state.index| == |state.index.Keys|;
    }

    /** The destructor's last act is the writer's flush. */
    method Close()
      requires WritesAgree() && LogAgrees()
      modifies writer.page, writer.page.data, file
      ensures StoredAs(file.pages, logFile.bytes, S.AfterClose(state)) && old(file.pages) <= file.pages
    {
      hide StorageWriter.BufferHolds, FileHolds, LogOf, PageCache.Valid, LruCache.Valid, LruCache.Contents;
      writer.Flush();
      ClosedPacked(state.writer);
    }

    lemma Footprint()
      requires ReadsAgree()
      ensures Repr() == Owned() + {file, logFile} + ObservedBy(engine.cache.observer)
    {
    }

    lemma ObserverValid()
      requires ReadsAgree()
      ensures engine.cache.observer != null ==> engine.cache.observer.Valid()
    {
    }

    /** At any point where log and writer agree with the state, a crash leaves what the state says. */
    lemma CrashPoint()
      requires WritesAgree() && LogAgrees()
      ensures StoredAs(file.pages, logFile.bytes, S.AfterCrash(state))
    {
    }
  }

  function ObservedBy(o: AccessObserver?): set<object> { if o == null then {} else {o, o.ring} }

  lemma EmptyIsClean(disk: seq<RawPage>, s: Pool)
    requires s == EmptyPool(disk, s.frames)
    ensures Clean(s) && PinnedPages(s) == {}
  {
  }
}
