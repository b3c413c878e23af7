/** The database as a state machine over sessions: what opening, putting, getting, closing and
    crashing do to the log, the pages, the index and the record cache. */
module Store {
  import opened Bytes
  import opened SlottedPage
  import opened Packing
  import opened Recency
  import opened LruCache
  import W = Wal

  /** What outlives a process: the records put into the log, and those in each page of the file. */
  datatype Durable = Durable(log: seq<Entry>, pages: seq<seq<Entry>>)

  /** An open database. `base` is the page count when the page engine was built; it never changes,
      so pages written later in the session cannot be read back in it. */
  datatype Session = Session(capacity: nat, base: nat, log: seq<Entry>, writer: Packing,
                             index: map<Key, RecordId>, cache: Cache)

  // ---------- operations ----------

  /** Writer, index and record cache take a record; an oversized one only turns the page. */
  function Stored(s: Session, e: Entry): Session {
    var w := Appended(s.writer, e);
    if TooLarge(e) then s.(writer := w)
    else s.(writer := w, index := s.index[e.key := NewestRid(w)],
            cache := CachePut(s.cache, s.capacity, e.key, e.value, 0))
  }

  function StoredAll(s: Session, es: seq<Entry>): Session {
    if es == [] then s else Stored(StoredAll(s, es[..|es| - 1]), es[|es| - 1])
  }

  function Unopened(d: Durable, capacity: nat): Session {
    Session(capacity, |d.pages|, d.log, Packing(d.pages, []), map[], EMPTY)
  }

  /** Replay what the log gives back, then rebuild the index from the pages that were there at the start. */
  function Opened(d: Durable, capacity: nat): Session {
    var s := StoredAll(Unopened(d, capacity), W.Replayed(d.log));
    if |d.pages| > 0 then s.(index := IndexOf(Scan(d.pages))) else s
  }

  /** Opening throws when the replay meets a record that no page takes. */
  predicate Opens(d: Durable) { Fits(W.Replayed(d.log)) }

  predicate Fits(es: seq<Entry>) { forall e :: e in es ==> !TooLarge(e) }

  /** The records that a replay stores before it ends or throws: up to the first that fits no page, and
      that one turns the page. */
  function Taken(es: seq<Entry>): (t: seq<Entry>)
    ensures |t| <= |es|
  {
    if es == [] then [] else if TooLarge(es[0]) then [es[0]] else [es[0]] + Taken(es[1..])
  }

  lemma {:induction false} TakenUpTo(es: seq<Entry>, i: nat)
    requires i < |es| && TooLarge(es[i]) && forall j :: 0 <= j < i ==> !TooLarge(es[j])
    ensures Taken(es) == es[..i + 1]
  {
    if i > 0 {
      TakenUpTo(es[1..], i - 1);
    }
  }

  lemma {:induction false} FittingAreTaken(es: seq<Entry>)
    requires Fits(es)
    ensures Taken(es) == es
  {
    if es != [] {
      assert es == [es[0]] + es[1..];
      FittingAreTaken(es[1..]);
    }
  }

  /** Records that fit pages are short enough for the log's length fields, so a replay gives back all of them. */
  lemma FittingLogReplays(log: seq<Entry>)
    requires Fits(log)
    ensures W.Replayed(log) == log
  {
    W.ReplayedIff(log);
  }

  function Put(s: Session, e: Entry): Session { Stored(s.(log := s.log + [e]), e) }

  /** What the reader finds under a record id: nothing from `base` on. */
  function ReadRecord(s: Session, rid: RecordId): Option<Entry> {
    if rid.page < s.base then RecordAt(s.writer.flushed, rid) else None
  }

  function Lookup(s: Session, k: Key): Option<seq<byte>> {
    if k !in s.index then None
    else match ReadRecord(s, s.index[k])
      case Some(e) => if e.key == k then Some(e.value) else None
      case None => None
  }

  /** What `get` returns. */
  function Value(s: Session, k: Key): Option<seq<byte>> {
    match Cached(s.cache, k)
    case Some(v) => Some(v)
    case None => Lookup(s, k)
  }

  /** What `get` leaves behind: the record cache remembers the key. */
  function Got(s: Session, k: Key): Session {
    match Cached(s.cache, k)
    case Some(_) => s.(cache := CacheGet(s.cache, k))
    case None =>
      match Lookup(s, k)
      case Some(v) => s.(cache := CachePut(s.cache, s.capacity, k, v, 0))
      case None => s
  }

  function AfterClose(s: Session): Durable { Durable(s.log, Closed(s.writer)) }

  /** A crash loses memory and the page being filled. */
  function AfterCrash(s: Session): Durable { Durable(s.log, s.writer.flushed) }

  // ---------- histories ----------

  datatype Op = PutOp(entry: Entry) | GetOp(key: Key)

  function Step(s: Session, op: Op): Session {
    match op
    case PutOp(e) => Put(s, e)
    case GetOp(k) => Got(s, k)
  }

  function Steps(s: Session, ops: seq<Op>): Session {
    if ops == [] then s else Step(Steps(s, ops[..|ops| - 1]), ops[|ops| - 1])
  }

  /** How a process ends: a clean close, a crash between operations, a crash inside a put after its
      record reached the log, or a crash while opening, after some records were replayed. */
  datatype End = Close | Crash | CrashInPut(entry: Entry) | CrashInOpen(replayed: nat)

  datatype Process = Process(capacity: nat, ops: seq<Op>, end: End)

  function Reached(d: Durable, p: Process): Session { Steps(Opened(d, p.capacity), p.ops) }

  /** What opening leaves when it throws: the writer's destructor writes out what was replayed. */
  function AfterFailedOpen(d: Durable, capacity: nat): Durable {
    AfterClose(StoredAll(Unopened(d, capacity), Taken(W.Replayed(d.log))))
  }

  /** Unless it dies while opening, a process that cannot open does nothing more. */
  function AfterProcess(d: Durable, p: Process): Durable {
    if !p.end.CrashInOpen? && !Opens(d) then AfterFailedOpen(d, p.capacity)
    else match p.end
    case Close => AfterClose(Reached(d, p))
    case Crash => AfterCrash(Reached(d, p))
    case CrashInPut(e) => var s := Reached(d, p); AfterCrash(s.(log := s.log + [e]))
    case CrashInOpen(n) =>
      AfterCrash(StoredAll(Unopened(d, p.capacity), Taken(FirstReplayed(d.log, n))))
  }

  /** The first `n` records of a replay, or all of them. */
  function FirstReplayed(log: seq<Entry>, n: nat): seq<Entry> {
    var visited := W.Replayed(log);
    if n <= |visited| then visited[..n] else visited
  }

  function AfterHistory(d: Durable, h: seq<Process>): Durable {
    if h == [] then d else AfterProcess(AfterHistory(d, h[..|h| - 1]), h[|h| - 1])
  }

  function Puts(ops: seq<Op>): seq<Entry> {
    if ops == [] then []
    else Puts(ops[..|ops| - 1]) + if ops[|ops| - 1].PutOp? then [ops[|ops| - 1].entry] else []
  }

  function WrittenBy(p: Process): seq<Entry> {
    match p.end
    case CrashInOpen(_) => []
    case CrashInPut(e) => Puts(p.ops) + [e]
    case _ => Puts(p.ops)
  }

  /** Every record put in a history, in order. */
  function Written(h: seq<Process>): seq<Entry> {
    if h == [] then [] else Written(h[..|h| - 1]) + WrittenBy(h[|h| - 1])
  }

  const NOTHING := Durable([], [])

  // ---------- what stays true ----------

  function PageRecords(pages: seq<seq<Entry>>): seq<Entry> { Entries(Scan(pages)) }

  /** The last value a page file has for a key. */
  function PageValue(pages: seq<seq<Entry>>, k: Key): Option<seq<byte>> {
    if k in Latest(PageRecords(pages)) then Some(Latest(PageRecords(pages))[k]) else None
  }

  /** The last value put for a key. */
  function LastPut(log: seq<Entry>, k: Key): Option<seq<byte>> {
    if k in Latest(log) then Some(Latest(log)[k]) else None
  }

  /** The log fits pages, and every key of the pages is a key of the log. */
  ghost predicate Sound(d: Durable) {
    && Fits(d.log)
    && (forall es :: es in d.pages ==> Packed(es))
    && Keys(PageRecords(d.pages)) <= Keys(d.log)
  }

  /** True in every session opened on a sound store, whatever its record cache. */
  ghost predicate Working(s: Session) {
    && s.capacity > 0 && s.base <= |s.writer.flushed|
    && WellPacked(s.writer)
    && WellFormed(s.cache, s.capacity)
    && (forall e :: e in s.log ==> !TooLarge(e))
    && Keys(Entries(ScanAll(s.writer))) <= Keys(s.log)
    && s.index.Keys <= Keys(s.log) && s.cache.values.Keys <= Keys(s.log)
  }

  lemma LatestSnoc(log: seq<Entry>, e: Entry)
    ensures Latest(log + [e]) == Latest(log)[e.key := e.value]
    ensures Keys(log + [e]) == Keys(log) + {e.key}
  {
    assert (log + [e])[..|log|] == log;
  }

  lemma StoredWriter(s: Session, e: Entry)
    requires WellPacked(s.writer) && !TooLarge(e)
    ensures WellPacked(Stored(s, e).writer) && s.writer.flushed <= Stored(s, e).writer.flushed
    ensures Entries(ScanAll(Stored(s, e).writer)) == Entries(ScanAll(s.writer)) + [e]
  {
    AppendedWellPacked(s.writer, e);
    AppendScans(s.writer, e);
  }

  lemma PutKeepsWorking(s: Session, e: Entry)
    requires Working(s) && !TooLarge(e)
    ensures Working(Put(s, e)) && s.writer.flushed <= Put(s, e).writer.flushed
    ensures Put(s, e).base == s.base && Put(s, e).capacity == s.capacity && Put(s, e).log == s.log + [e]
    ensures Entries(ScanAll(Put(s, e).writer)) == Entries(ScanAll(s.writer)) + [e]
  {
    hide WellPacked, ScanAll, Appended;
    StoredWriter(s, e);
    LatestSnoc(s.log, e);
    LatestSnoc(Entries(ScanAll(s.writer)), e);
    PutWellFormed(s.cache, s.capacity, e.key, e.value, 0);
  }

  lemma GetKeepsWorking(s: Session, k: Key)
    requires Working(s)
    ensures Working(Got(s, k)) && Got(s, k) == s.(cache := Got(s, k).cache)
  {
    hide WellPacked, ScanAll, Appended;
    GetWellFormed(s.cache, k, s.capacity);
    if Lookup(s, k).Some? {
      PutWellFormed(s.cache, s.capacity, k, Lookup(s, k).value, 0);
    }
  }

  ghost predicate Bounded(ops: seq<Op>) { forall op :: op in ops && op.PutOp? ==> !TooLarge(op.entry) }

  lemma {:induction false} StepsKeepWorking(s: Session, ops: seq<Op>)
    requires Working(s) && Bounded(ops)
    ensures Working(Steps(s, ops))
    ensures Steps(s, ops).base == s.base && Steps(s, ops).capacity == s.capacity
    ensures s.writer.flushed <= Steps(s, ops).writer.flushed
    ensures Steps(s, ops).log == s.log + Puts(ops)
    ensures Entries(ScanAll(Steps(s, ops).writer)) == Entries(ScanAll(s.writer)) + Puts(ops)
  {
    hide Working, ScanAll, Put, Got;
    if ops == [] {
    } else {
      var front := ops[..|ops| - 1];
      StepsKeepWorking(s, front);
      match ops[|ops| - 1]
      case PutOp(e) => PutKeepsWorking(Steps(s, front), e);
      case GetOp(k) => GetKeepsWorking(Steps(s, front), k);
    }
  }

  // ---------- opening ----------

  function KeyTrace(es: seq<Entry>): (ks: seq<Key>)
    ensures |ks| == |es| && forall i :: 0 <= i < |es| ==> ks[i] == es[i].key
  {
    seq(|es|, i requires 0 <= i < |es| => es[i].key)
  }

  lemma {:induction false} ReplayFacts(u: Session, es: seq<Entry>)
    requires u.capacity > 0 && WellPacked(u.writer) && u.cache == EMPTY && u.index == map[]
    requires forall e :: e in es ==> !TooLarge(e)
    ensures var s := StoredAll(u, es);
            && s.capacity == u.capacity && s.base == u.base && s.log == u.log
            && WellPacked(s.writer) && u.writer.flushed <= s.writer.flushed
            && Entries(ScanAll(s.writer)) == Entries(ScanAll(u.writer)) + es
            && s.index.Keys == Keys(es)
            && (forall k :: k in s.index ==> s.index[k].page >= |u.writer.flushed|)
  {
    hide WellPacked, ScanAll, Appended, CachePut;
    if es == [] {
    } else {
      var front, e := es[..|es| - 1], es[|es| - 1];
      ReplayFacts(u, front);
      StoredWriter(StoredAll(u, front), e);
      LatestSnoc(front, e);
      assert es == front + [e];
    }
  }

  /** After a replay the record cache holds the most recently logged keys with their last values. */
  lemma {:induction false} ReplayedCache(u: Session, es: seq<Entry>)
    requires u.capacity > 0 && u.cache == EMPTY && forall e :: e in es ==> !TooLarge(e)
    ensures var c := StoredAll(u, es).cache;
            && WellFormed(c, u.capacity) && StoredAll(u, es).capacity == u.capacity
            && c.order == LruRun(KeyTrace(es), u.capacity) && Agrees(c, Latest(es))
  {
    hide Appended, CachePut, LruAccess;
    if es == [] {
    } else {
      var front, e := es[..|es| - 1], es[|es| - 1];
      ReplayedCache(u, front);
      var s := StoredAll(u, front);
      PutWellFormed(s.cache, u.capacity, e.key, e.value, 0);
      PutAgrees(s.cache, u.capacity, e.key, e.value, 0, Latest(front));
      PutIsLruAccess(s.cache, u.capacity, e.key, e.value);
      assert KeyTrace(es)[..|es| - 1] == KeyTrace(front);
    }
  }

  lemma UnopenedScan(d: Durable, capacity: nat)
    ensures Entries(ScanAll(Unopened(d, capacity).writer)) == PageRecords(d.pages)
  {
    ScanSnoc(d.pages, []);
  }

  lemma OpenedWorks(d: Durable, capacity: nat)
    requires Sound(d) && capacity > 0
    ensures var s := Opened(d, capacity);
            && Working(s) && Agrees(s.cache, Latest(d.log))
            && s.log == d.log && s.base == |d.pages| && s.capacity == capacity
            && d.pages <= s.writer.flushed
            && Entries(ScanAll(s.writer)) == PageRecords(d.pages) + d.log
            && (s.base == 0 ==> forall k :: k in s.index ==> s.index[k].page >= s.base)
            && (forall k :: k in s.cache.values <==> k in Newest(ByRecency(KeyTrace(d.log)), capacity))
  {
    var u := Unopened(d, capacity);
    FittingLogReplays(d.log);
    UnopenedScan(d, capacity);
    ReplayFacts(u, d.log);
    ReplayedCache(u, d.log);
    LruIsNewest(KeyTrace(d.log), capacity);
    LatestKeys(d.log);
    IndexLocatesLatest(Scan(d.pages));
    LatestKeys(PageRecords(d.pages));
    assert Keys(PageRecords(d.pages) + d.log) == Keys(PageRecords(d.pages)) + Keys(d.log);
  }

  lemma RecordInPrefix(pages: seq<seq<Entry>>, more: seq<seq<Entry>>, rid: RecordId)
    requires pages <= more && RecordAt(pages, rid).Some?
    ensures rid.page < |pages| && RecordAt(more, rid) == RecordAt(pages, rid)
  {
  }

  /** Reading a key through a freshly rebuilt index gives the page file's last value for it. */
  lemma {:induction false} LookupAfterOpen(d: Durable, capacity: nat, k: Key)
    requires Sound(d) && capacity > 0
    ensures Lookup(Opened(d, capacity), k) == PageValue(d.pages, k)
    ensures k in Opened(d, capacity).index && Opened(d, capacity).index[k].page < |d.pages| ==>
              PageValue(d.pages, k).Some?
  {
    OpenedWorks(d, capacity);
    if |d.pages| > 0 {
      LookupIsLatest(d.pages, k);
      hide StoredAll, Scan, Latest;
      var s := Opened(d, capacity);
      if k in s.index {
        RecordInPrefix(d.pages, s.writer.flushed, s.index[k]);
      }
    }
  }

  /** What `get` returns just after opening: the last put for the most recently logged keys that
      the record cache holds, the page file's value for every other key. */
  lemma {:induction false} ValueAfterOpen(d: Durable, capacity: nat, k: Key)
    requires Sound(d) && capacity > 0
    ensures Value(Opened(d, capacity), k)
            == if k in Newest(ByRecency(KeyTrace(d.log)), capacity) then LastPut(d.log, k) else PageValue(d.pages, k)
  {
    OpenedWorks(d, capacity);
    LookupAfterOpen(d, capacity, k);
  }

  /** So a key is read correctly after opening exactly when it is among the `capacity` most recently
      logged keys or the page file agrees with the log about it. */
  lemma {:induction false} ExactAfterOpenIff(d: Durable, capacity: nat, k: Key)
    requires Sound(d) && capacity > 0
    ensures Value(Opened(d, capacity), k) == LastPut(d.log, k) <==>
            k in Newest(ByRecency(KeyTrace(d.log)), capacity) || PageValue(d.pages, k) == LastPut(d.log, k)
  {
    ValueAfterOpen(d, capacity, k);
  }

  // ---------- processes and histories ----------

  ghost predicate BoundedProcess(p: Process) {
    p.capacity > 0 && Bounded(p.ops) && (p.end.CrashInPut? ==> !TooLarge(p.end.entry))
  }

  ghost predicate BoundedHistory(h: seq<Process>) { forall p :: p in h ==> BoundedProcess(p) }

  lemma ReachedWorks(d: Durable, p: Process)
    requires Sound(d) && p.capacity > 0 && Bounded(p.ops)
    ensures var s := Reached(d, p);
            && Working(s) && s.log == d.log + Puts(p.ops) && s.base == |d.pages| && s.capacity == p.capacity
            && Entries(ScanAll(s.writer)) == PageRecords(d.pages) + (d.log + Puts(p.ops))
            && d.pages <= s.writer.flushed
  {
    hide Sound, Working, ScanAll, PageRecords, Opened, Steps, IndexOf, Latest;
    OpenedWorks(d, p.capacity);
    StepsKeepWorking(Opened(d, p.capacity), p.ops);
  }

  /** What a crash leaves on the file is part of what was written. */
  lemma FlushedRecords(w: Packing, log: seq<Entry>)
    requires Keys(Entries(ScanAll(w))) <= Keys(log)
    ensures Keys(PageRecords(w.flushed)) <= Keys(log)
  {
    ScanSnoc(w.flushed, w.current);
    assert forall e :: e in PageRecords(w.flushed) ==> e in Entries(ScanAll(w)) by {
      forall e | e in PageRecords(w.flushed)
        ensures e in Entries(ScanAll(w))
      {
        var i :| 0 <= i < |Scan(w.flushed)| && PageRecords(w.flushed)[i] == e;
        assert Entries(ScanAll(w))[i] == e;
      }
    }
  }

  lemma ClosedIsSound(s: Session)
    requires Working(s)
    ensures Sound(AfterClose(s))
  {
    hide ScanAll, Scan;
    ClosedScansAll(s.writer);
  }

  lemma CrashedIsSound(s: Session)
    requires Working(s)
    ensures Sound(AfterCrash(s))
  {
    hide ScanAll, Scan;
    FlushedRecords(s.writer, s.log);
  }

  lemma CrashedInPutIsSound(s: Session, e: Entry)
    requires Working(s) && !TooLarge(e)
    ensures Sound(AfterCrash(s.(log := s.log + [e])))
  {
    hide ScanAll, Scan, Latest;
    FlushedRecords(s.writer, s.log);
    LatestSnoc(s.log, e);
  }

  /** No process ending, clean or not, loses a logged record or breaks the store. */
  lemma {:induction false} ProcessKeepsSound(d: Durable, p: Process)
    requires Sound(d) && BoundedProcess(p)
    ensures Sound(AfterProcess(d, p)) && AfterProcess(d, p).log == d.log + WrittenBy(p)
  {
    SoundOpens(d);
    hide Sound, Working, ScanAll, Reached, StoredAll, Opens, Bounded, TooLarge;
    match p.end {
      case Close =>
        ReachedWorks(d, p);
        ClosedIsSound(Reached(d, p));
      case Crash =>
        ReachedWorks(d, p);
        CrashedIsSound(Reached(d, p));
      case CrashInPut(e) =>
        ReachedWorks(d, p);
        CrashedInPutIsSound(Reached(d, p), e);
        assert d.log + Puts(p.ops) + [e] == d.log + (Puts(p.ops) + [e]);
      case CrashInOpen(n) => DyingKeepsSound(d, p.capacity, n);
    }
  }

  lemma DyingKeepsSound(d: Durable, capacity: nat, n: nat)
    requires Sound(d) && capacity > 0
    ensures var t := AfterCrash(StoredAll(Unopened(d, capacity), Taken(FirstReplayed(d.log, n))));
            Sound(t) && t.log == d.log
  {
    SoundReplays(d, n);
    hide ScanAll, Scan, Appended, StoredAll, IndexOf, Latest, Taken, FirstReplayed;
    var u, part := Unopened(d, capacity), FirstReplayed(d.log, n);
    ReplayFacts(u, part);
    UnopenedScan(d, capacity);
    assert Keys(PageRecords(d.pages) + part) <= Keys(PageRecords(d.pages)) + Keys(d.log);
    FlushedRecords(StoredAll(u, part).writer, d.log);
  }

  /** Every later open succeeds, and the log is exactly what was put, in order. */
  lemma {:induction false} HistoryKeepsSound(d: Durable, h: seq<Process>)
    requires Sound(d) && BoundedHistory(h)
    ensures Sound(AfterHistory(d, h)) && AfterHistory(d, h).log == d.log + Written(h)
  {
    hide Sound, AfterProcess, WrittenBy, BoundedProcess;
    if h == [] {
    } else {
      var front := h[..|h| - 1];
      HistoryKeepsSound(d, front);
      ProcessKeepsSound(AfterHistory(d, front), h[|h| - 1]);
    }
  }

  lemma NothingIsSound()
    ensures Sound(NOTHING)
  {
  }

  lemma NothingOpened(capacity: nat)
    ensures Opened(NOTHING, capacity) == Session(capacity, 0, [], Packing([], []), map[], EMPTY)
  {
  }

  lemma SoundOpens(d: Durable)
    requires Sound(d)
    ensures Opens(d)
  {
    FittingLogReplays(d.log);
  }

  /** How much of a sound store's log a process replays before it dies. */
  lemma SoundReplays(d: Durable, n: nat)
    requires Sound(d)
    ensures var part := FirstReplayed(d.log, n);
            Taken(part) == part == d.log[..|part|] && Fits(part) && |part| <= |d.log|
  {
    FittingLogReplays(d.log);
    var part := FirstReplayed(d.log, n);
    assert part == d.log[..|part|];
    FittingAreTaken(part);
  }

  /** One clean close brings the page file up to the log, although every open wrote the whole log
      out again: the last value of each key in the pages is the last value put. */
  lemma {:induction false} CloseCatchesUp(d: Durable, p: Process)
    requires Sound(d) && BoundedProcess(p) && p.end == Close
    ensures Latest(PageRecords(AfterProcess(d, p).pages)) == Latest(AfterProcess(d, p).log)
  {
    SoundOpens(d);
    hide Latest, Scan, ScanAll, Opens;
    ReachedWorks(d, p);
    ClosedScansAll(Reached(d, p).writer);
    var log := d.log + Puts(p.ops);
    assert Keys(d.log) <= Keys(log);
    ReplayAbsorbs(PageRecords(d.pages), log);
  }

  // ---------- rejected puts ----------

  /** The operations of a run without its rejected puts. */
  function AcceptedOps(ops: seq<Op>): seq<Op> {
    if ops == [] then []
    else
      var last := ops[|ops| - 1];
      AcceptedOps(ops[..|ops| - 1]) + if last.PutOp? && TooLarge(last.entry) then [] else [last]
  }

  /** The records that a run puts and the writer accepts. */
  function AcceptedPuts(ops: seq<Op>): seq<Entry> { Puts(AcceptedOps(ops)) }

  lemma {:induction false} AcceptedFit(ops: seq<Op>)
    ensures Bounded(AcceptedOps(ops))
  {
    hide TooLarge;
    if ops != [] {
      AcceptedFit(ops[..|ops| - 1]);
    }
  }

  lemma {:induction false} AllAccepted(ops: seq<Op>)
    requires Bounded(ops)
    ensures AcceptedOps(ops) == ops
  {
    hide TooLarge;
    if ops != [] {
      var front, last := ops[..|ops| - 1], ops[|ops| - 1];
      AllAccepted(front);
      assert last in ops && ops == front + [last];
    }
  }

  /** A rejected put changes what no key reads as, neither the index nor the record cache. */
  lemma {:induction false} RejectedPutInvisible(s: Session, e: Entry)
    requires s.base <= |s.writer.flushed| && TooLarge(e)
    ensures var t := Put(s, e);
            && t.index == s.index && t.cache == s.cache && t.base == s.base && t.capacity == s.capacity
            && s.writer.flushed <= t.writer.flushed
            && forall k :: Value(t, k) == Value(s, k)
  {
    var t := Put(s, e);
    if Packed(s.writer.current + [e]) {
      TooLargeNeverFits(s.writer.current, e);
      assert false;
    }
    assert t.writer.flushed[..s.base] == s.writer.flushed[..s.base];
  }

  /** Two sessions that no read can tell apart: they differ only in records that this session wrote. */
  ghost predicate Alike(s: Session, t: Session) {
    && s.capacity == t.capacity && s.base == t.base && s.cache == t.cache && s.index.Keys == t.index.Keys
    && (forall k :: k in s.index ==>
          s.index[k] == t.index[k] || (s.index[k].page >= s.base && t.index[k].page >= s.base))
    && s.base <= |s.writer.flushed| && s.base <= |t.writer.flushed|
    && (forall i :: 0 <= i < s.base ==> s.writer.flushed[i] == t.writer.flushed[i])
    && WellPacked(s.writer) && WellPacked(t.writer)
  }

  lemma AlikeReads(s: Session, t: Session, k: Key)
    requires Alike(s, t)
    ensures Lookup(s, k) == Lookup(t, k) && Value(s, k) == Value(t, k)
  {
    hide WellPacked;
  }

  lemma AlikeGets(s: Session, t: Session, k: Key)
    requires Alike(s, t)
    ensures Alike(Got(s, k), Got(t, k))
  {
    AlikeReads(s, t, k);
    hide WellPacked, Lookup, CachePut, CacheGet;
  }

  lemma AlikePuts(s: Session, t: Session, e: Entry)
    requires Alike(s, t) && !TooLarge(e)
    ensures Alike(Put(s, e), Put(t, e))
  {
    AppendedWellPacked(s.writer, e);
    AppendedWellPacked(t.writer, e);
    hide WellPacked, CachePut, Appended, TooLarge;
  }

  lemma AlikeRejects(s: Session, t: Session, e: Entry)
    requires Alike(s, t) && TooLarge(e)
    ensures Alike(Put(s, e), t)
  {
    AppendedWellPacked(s.writer, e);
    hide WellPacked, CachePut, Appended, TooLarge;
  }

  /** So no read of a session can tell whether its rejected puts were made. */
  lemma {:induction false} RejectedPutsInvisible(s: Session, ops: seq<Op>)
    requires WellPacked(s.writer) && s.base <= |s.writer.flushed|
    ensures Alike(Steps(s, ops), Steps(s, AcceptedOps(ops)))
  {
    hide WellPacked, Put, Got, TooLarge;
    if ops == [] {
    } else {
      var front, last := ops[..|ops| - 1], ops[|ops| - 1];
      RejectedPutsInvisible(s, front);
      var t, u, all := Steps(s, front), Steps(s, AcceptedOps(front)), AcceptedOps(ops);
      hide Alike;
      if last.PutOp? && TooLarge(last.entry) {
        assert all == AcceptedOps(front);
        AlikeRejects(t, u, last.entry);
      } else {
        assert all[..|all| - 1] == AcceptedOps(front);
        match last {
          case PutOp(e) => AlikePuts(t, u, e);
          case GetOp(k) => AlikeGets(t, u, k);
        }
      }
    }
  }

  lemma OpenedIsReady(d: Durable, capacity: nat)
    requires Sound(d) && capacity > 0
    ensures var s := Opened(d, capacity); WellPacked(s.writer) && s.base <= |s.writer.flushed|
  {
    OpenedWorks(d, capacity);
    hide Opened, WellPacked;
  }

  // ---------- what a scan can see ----------

  lemma {:induction false} StepsGrow(s: Session, ops: seq<Op>)
    ensures var t := Steps(s, ops); t.base == s.base && t.capacity == s.capacity && s.writer.flushed <= t.writer.flushed
  {
    hide CachePut, CacheGet, Lookup, Packed, TooLarge, NewestRid;
    if ops != [] {
      StepsGrow(s, ops[..|ops| - 1]);
    }
  }

  /** All through a session the pages that it can read are those found at opening, so a scan delivers their
      records. */
  lemma {:induction false} ReadablePages(d: Durable, capacity: nat, ops: seq<Op>)
    requires Sound(d) && capacity > 0
    ensures var s := Steps(Opened(d, capacity), ops);
            && s.base == |d.pages| <= |s.writer.flushed| && s.writer.flushed[..s.base] == d.pages
            && PageRecords(s.writer.flushed[..s.base]) == PageRecords(d.pages)
  {
    hide Sound, Opened, Steps, Working, PageRecords;
    OpenedWorks(d, capacity);
    StepsGrow(Opened(d, capacity), ops);
  }

  /** After a clean close, or on nothing, the last values among the records scanned are those put. */
  lemma {:induction false} ScanIsUpToDate(h: seq<Process>)
    requires BoundedHistory(h) && (h == [] || h[|h| - 1].end == Close)
    ensures Latest(PageRecords(AfterHistory(NOTHING, h).pages)) == Latest(Written(h))
  {
    hide Sound, AfterProcess, WrittenBy, BoundedProcess, Latest, PageRecords;
    NothingIsSound();
    HistoryKeepsSound(NOTHING, h);
    if h != [] {
      HistoryKeepsSound(NOTHING, h[..|h| - 1]);
      CloseCatchesUp(AfterHistory(NOTHING, h[..|h| - 1]), h[|h| - 1]);
      assert AfterHistory(NOTHING, h).log == Written(h);
    } else {
      assert PageRecords([]) == [] by { NoRecords(); }
    }
  }

  lemma NoRecords()
    ensures PageRecords([]) == []
  {
  }

  // ---------- what the index holds ----------

  lemma AcceptedNext(ops: seq<Op>)
    requires ops != []
    ensures var last := ops[|ops| - 1];
            AcceptedPuts(ops) == AcceptedPuts(ops[..|ops| - 1])
                                 + if last.PutOp? && !TooLarge(last.entry) then [last.entry] else []
  {
    hide TooLarge;
    var front, last, all := ops[..|ops| - 1], ops[|ops| - 1], AcceptedOps(ops);
    if last.PutOp? && TooLarge(last.entry) {
      assert all == AcceptedOps(front);
    } else {
      assert all[..|all| - 1] == AcceptedOps(front);
    }
  }

  lemma StepIndexKeys(s: Session, op: Op)
    ensures Step(s, op).index.Keys == s.index.Keys + if op.PutOp? && !TooLarge(op.entry) then {op.entry.key} else {}
  {
    hide CachePut, CacheGet, Lookup, Appended, NewestRid, TooLarge;
  }

  lemma {:induction false} StepsIndexKeys(s: Session, ops: seq<Op>)
    ensures Steps(s, ops).index.Keys == s.index.Keys + Keys(AcceptedPuts(ops))
  {
    if ops == [] {
      assert Keys([]) == {};
    } else {
      hide Step, TooLarge, AcceptedPuts;
      var front, last := ops[..|ops| - 1], ops[|ops| - 1];
      StepsIndexKeys(s, front);
      StepIndexKeys(Steps(s, front), last);
      AcceptedNext(ops);
      if last.PutOp? {
        LatestSnoc(AcceptedPuts(front), last.entry);
      }
    }
  }

  lemma OpenedIndexKeys(d: Durable, capacity: nat)
    requires Sound(d) && capacity > 0
    ensures Opened(d, capacity).index.Keys == if d.pages == [] then Keys(d.log) else Keys(PageRecords(d.pages))
  {
    FittingLogReplays(d.log);
    if d.pages == [] {
      ReplayFacts(Unopened(d, capacity), d.log);
    } else {
      IndexLocatesLatest(Scan(d.pages));
      LatestKeys(PageRecords(d.pages));
    }
  }

  /** The index has the keys of the pages found at opening, or of the whole log if there were none, and of
      every accepted put. */
  lemma {:induction false} IndexKeys(d: Durable, capacity: nat, ops: seq<Op>)
    requires Sound(d) && capacity > 0
    ensures Steps(Opened(d, capacity), ops).index.Keys
            == (if d.pages == [] then Keys(d.log) else Keys(PageRecords(d.pages))) + Keys(AcceptedPuts(ops))
  {
    hide Sound, Opened, Steps, AcceptedPuts, PageRecords;
    OpenedIndexKeys(d, capacity);
    StepsIndexKeys(Opened(d, capacity), ops);
  }

  /** So the record count is the number of those keys. */
  lemma {:induction false} RecordCountIs(d: Durable, capacity: nat, ops: seq<Op>)
    requires Sound(d) && capacity > 0
    ensures |Steps(Opened(d, capacity), ops).index|
            == |(if d.pages == [] then Keys(d.log) else Keys(PageRecords(d.pages))) + Keys(AcceptedPuts(ops))|
  {
    hide Sound, Opened, Steps, AcceptedPuts, PageRecords;
    IndexKeys(d, capacity, ops);
    var index := Steps(Opened(d, capacity), ops).index;
    assert |index| == |index.Keys|;
  }

  /** After a clean close, or on nothing, that is every key ever put. */
  lemma {:induction false} IndexHasEveryKey(h: seq<Process>, capacity: nat, ops: seq<Op>)
    requires BoundedHistory(h) && (h == [] || h[|h| - 1].end == Close) && capacity > 0
    ensures var index := Steps(Opened(AfterHistory(NOTHING, h), capacity), ops).index;
            index.Keys == Keys(Written(h) + AcceptedPuts(ops)) && |index| == |Keys(Written(h) + AcceptedPuts(ops))|
  {
    hide Sound, Opened, Steps, AcceptedPuts, AfterProcess, WrittenBy, BoundedProcess;
    var d := AfterHistory(NOTHING, h);
    NothingIsSound();
    HistoryKeepsSound(NOTHING, h);
    assert d.log == Written(h);
    IndexKeys(d, capacity, ops);
    if h != [] {
      var front, p := h[..|h| - 1], h[|h| - 1];
      HistoryKeepsSound(NOTHING, front);
      CloseCatchesUp(AfterHistory(NOTHING, front), p);
      LatestKeys(PageRecords(d.pages));
      LatestKeys(d.log);
    }
    hide AfterHistory, Written, PageRecords;
    assert Keys(Written(h) + AcceptedPuts(ops)) == Keys(Written(h)) + Keys(AcceptedPuts(ops));
    assert h == [] ==> d.pages == [] by { AfterNothing(h); }
  }

  lemma AfterNothing(h: seq<Process>)
    ensures h == [] ==> AfterHistory(NOTHING, h) == NOTHING
  {
  }

  /** All pages, the one being filled included. */
  function AllPages(w: Packing): seq<seq<Entry>> { w.flushed + [w.current] }

  /** The index locates the last record of each key of `es` in the pages as they will be after a close. */
  ghost predicate LocatesLast(s: Session, es: seq<Entry>) {
    forall k :: k in Latest(es) ==>
      k in s.index && RecordAt(AllPages(s.writer), s.index[k]) == Some(Entry(k, Latest(es)[k]))
  }

  lemma AppendKeepsRecords(w: Packing, e: Entry, rid: RecordId)
    requires RecordAt(AllPages(w), rid).Some?
    ensures RecordAt(AllPages(Appended(w, e)), rid) == RecordAt(AllPages(w), rid)
  {
    hide Packed, TooLarge;
  }

  lemma AppendLocates(w: Packing, e: Entry)
    requires !TooLarge(e)
    ensures RecordAt(AllPages(Appended(w, e)), NewestRid(Appended(w, e))) == Some(e)
  {
    hide Packed, TooLarge;
  }

  lemma StoredLocates(s: Session, e: Entry, es: seq<Entry>)
    requires LocatesLast(s, es)
    ensures LocatesLast(Stored(s, e), if TooLarge(e) then es else es + [e])
  {
    hide Latest, AllPages, Appended, NewestRid, TooLarge, RecordAt, CachePut;
    LatestSnoc(es, e);
    var t, w := Stored(s, e), s.writer;
    if !TooLarge(e) {
      AppendLocates(w, e);
    }
    forall k | k in Latest(es)
      ensures RecordAt(AllPages(t.writer), s.index[k]) == Some(Entry(k, Latest(es)[k]))
    {
      AppendKeepsRecords(w, e, s.index[k]);
    }
  }

  lemma StepLocates(s: Session, op: Op, es: seq<Entry>)
    requires LocatesLast(s, es)
    ensures LocatesLast(Step(s, op), es + if op.PutOp? && !TooLarge(op.entry) then [op.entry] else [])
  {
    hide LocatesLast, Stored, Got, TooLarge;
    assert es + [] == es;
    match op {
      case PutOp(e) =>
        LocatesAnyLog(s, es, s.log + [e]);
        StoredLocates(s.(log := s.log + [e]), e, es);
      case GetOp(k) => GetLocates(s, k, es);
    }
  }

  lemma {:induction false} StepsLocate(s: Session, es: seq<Entry>, ops: seq<Op>)
    requires LocatesLast(s, es)
    ensures LocatesLast(Steps(s, ops), es + AcceptedPuts(ops))
  {
    if ops == [] {
      assert es + [] == es;
    } else {
      hide LocatesLast, Step, TooLarge, AcceptedPuts;
      var front, last := ops[..|ops| - 1], ops[|ops| - 1];
      StepsLocate(s, es, front);
      StepLocates(Steps(s, front), last, es + AcceptedPuts(front));
      AcceptedNext(ops);
      var more := if last.PutOp? && !TooLarge(last.entry) then [last.entry] else [];
      assert es + AcceptedPuts(front) + more == es + (AcceptedPuts(front) + more);
    }
  }

  lemma LocatesAnyLog(s: Session, es: seq<Entry>, log: seq<Entry>)
    requires LocatesLast(s, es)
    ensures LocatesLast(s.(log := log), es)
  {
  }

  lemma GetLocates(s: Session, k: Key, es: seq<Entry>)
    requires LocatesLast(s, es)
    ensures LocatesLast(Got(s, k), es)
  {
    hide Latest, AllPages, RecordAt, CachePut, CacheGet, Lookup;
  }

  lemma {:induction false} ReplayLocates(u: Session, es: seq<Entry>)
    requires Fits(es)
    ensures LocatesLast(StoredAll(u, es), es)
  {
    hide LocatesLast, Stored;
    if es == [] {
      NothingToLocate(u);
    } else {
      var front, e := es[..|es| - 1], es[|es| - 1];
      ReplayLocates(u, front);
      StoredLocates(StoredAll(u, front), e, front);
      assert es == front + [e];
    }
  }

  lemma NothingToLocate(s: Session)
    ensures LocatesLast(s, [])
  {
  }

  /** The index locates the last record of each key put in the session, and of each key replayed into a
      file that had no pages, even where this session cannot read it yet. */
  lemma {:induction false} IndexLocatesPuts(d: Durable, capacity: nat, ops: seq<Op>)
    requires Sound(d) && capacity > 0
    ensures LocatesLast(Steps(Opened(d, capacity), ops), (if d.pages == [] then d.log else []) + AcceptedPuts(ops))
  {
    hide LocatesLast, Steps, StoredAll, AcceptedPuts;
    FittingLogReplays(d.log);
    if d.pages == [] {
      ReplayLocates(Unopened(d, capacity), d.log);
      StepsLocate(Opened(d, capacity), d.log, ops);
    } else {
      NothingToLocate(Opened(d, capacity));
      StepsLocate(Opened(d, capacity), [], ops);
    }
  }

  // ---------- durability ----------

  /** Every key ever put is cached with its last value. */
  ghost predicate AllCached(s: Session) {
    Agrees(s.cache, Latest(s.log)) && s.cache.values.Keys == Keys(s.log)
  }

  lemma PutKeepsAllCached(s: Session, e: Entry)
    requires Working(s) && AllCached(s) && !TooLarge(e)
    requires |Keys(s.log + [e])| <= s.capacity
    ensures AllCached(Put(s, e))
  {
    hide WellPacked, ScanAll, Appended;
    LatestSnoc(s.log, e);
    PutAgrees(s.cache, s.capacity, e.key, e.value, 0, Latest(s.log));
    DistinctSize(s.cache.order, Keys(s.log));
  }

  lemma KeysGrow(log: seq<Entry>, more: seq<Entry>)
    ensures Keys(log) <= Keys(log + more) && |Keys(log)| <= |Keys(log + more)|
  {
    assert Keys(log) <= Keys(log + more);
    SubsetSize(Keys(log), Keys(log + more));
  }

  lemma {:induction false} StepsKeepAllCached(s: Session, ops: seq<Op>)
    requires Working(s) && AllCached(s) && Bounded(ops)
    requires |Keys(s.log + Puts(ops))| <= s.capacity
    ensures AllCached(Steps(s, ops))
  {
    hide Working, Put, Latest;
    if ops == [] {
    } else {
      var front := ops[..|ops| - 1];
      StepsKeepWorking(s, front);
      var last := if ops[|ops| - 1].PutOp? then [ops[|ops| - 1].entry] else [];
      KeysGrow(s.log + Puts(front), last);
      assert s.log + Puts(ops) == s.log + Puts(front) + last;
      StepsKeepAllCached(s, front);
      var t := Steps(s, front);
      match ops[|ops| - 1]
      case PutOp(e) =>
        assert s.log + Puts(ops) == t.log + [e];
        PutKeepsAllCached(t, e);
      case GetOp(k) =>
        GetKeepsAllCached(t, k);
    }
  }

  lemma GetKeepsAllCached(s: Session, k: Key)
    requires Working(s) && AllCached(s)
    ensures AllCached(Got(s, k))
  {
    hide WellPacked, ScanAll, Latest;
  }

  lemma AllCachedIsExact(s: Session, k: Key)
    requires Working(s) && AllCached(s)
    ensures Value(s, k) == LastPut(s.log, k)
  {
    LatestKeys(s.log);
  }

  lemma OpenedAllCached(d: Durable, capacity: nat)
    requires Sound(d) && capacity > 0 && |Keys(d.log)| <= capacity
    ensures AllCached(Opened(d, capacity))
  {
    OpenedWorks(d, capacity);
    ByRecencyDistinct(KeyTrace(d.log));
    forall k
      ensures k in ByRecency(KeyTrace(d.log)) <==> k in Keys(d.log)
    {
      if k in Keys(d.log) {
        var e :| e in d.log && e.key == k;
        var i :| 0 <= i < |d.log| && d.log[i] == e;
        assert KeyTrace(d.log)[i] == k;
      }
    }
    DistinctSize(ByRecency(KeyTrace(d.log)), Keys(d.log));
  }

  lemma FittingDurability(h: seq<Process>, capacity: nat, ops: seq<Op>, k: Key)
    requires BoundedHistory(h) && Bounded(ops) && capacity > 0
    requires |Keys(Written(h) + Puts(ops))| <= capacity
    ensures var d := AfterHistory(NOTHING, h);
            Opens(d) && Value(Steps(Opened(d, capacity), ops), k) == LastPut(Written(h) + Puts(ops), k)
  {
    hide Working, Latest, AllCached, StoredAll, Steps;
    NothingIsSound();
    HistoryKeepsSound(NOTHING, h);
    var d := AfterHistory(NOTHING, h);
    assert d.log == Written(h);
    KeysGrow(d.log, Puts(ops));
    FittingLogReplays(d.log);
    OpenedWorks(d, capacity);
    OpenedAllCached(d, capacity);
    StepsKeepWorking(Opened(d, capacity), ops);
    StepsKeepAllCached(Opened(d, capacity), ops);
    AllCachedIsExact(Steps(Opened(d, capacity), ops), k);
  }

  /** Durability: after any history of clean closes and crashes, with a record cache as large as the
      number of keys ever put, every `get` in the next process returns the last value put for its
      key, and nothing for a key never put. Puts that the next process has rejected count for nothing. */
  lemma {:induction false} Durability(h: seq<Process>, capacity: nat, ops: seq<Op>, k: Key)
    requires BoundedHistory(h) && capacity > 0
    requires |Keys(Written(h) + AcceptedPuts(ops))| <= capacity
    ensures var d := AfterHistory(NOTHING, h);
            Opens(d) && Value(Steps(Opened(d, capacity), ops), k) == LastPut(Written(h) + AcceptedPuts(ops), k)
  {
    hide Sound, Steps, Opened, Value, LastPut, Opens, Alike, Bounded;
    var d := AfterHistory(NOTHING, h);
    NothingIsSound();
    HistoryKeepsSound(NOTHING, h);
    OpenedIsReady(d, capacity);
    AcceptedFit(ops);
    FittingDurability(h, capacity, AcceptedOps(ops), k);
    RejectedPutsInvisible(Opened(d, capacity), ops);
    AlikeReads(Steps(Opened(d, capacity), ops), Steps(Opened(d, capacity), AcceptedOps(ops)), k);
  }

  /** After a clean close the next open reads every key exactly, whatever the record cache holds. */
  lemma {:induction false} ExactAfterCleanClose(h: seq<Process>, capacity: nat, k: Key)
    requires h != [] && h[|h| - 1].end == Close && BoundedHistory(h) && capacity > 0
    ensures Value(Opened(AfterHistory(NOTHING, h), capacity), k) == LastPut(Written(h), k)
  {
    hide Sound, AfterProcess, WrittenBy, BoundedProcess, Opened, Value, Latest, PageRecords, Newest, ByRecency,
         KeyTrace;
    var front, p := h[..|h| - 1], h[|h| - 1];
    NothingIsSound();
    HistoryKeepsSound(NOTHING, front);
    HistoryKeepsSound(NOTHING, h);
    assert AfterHistory(NOTHING, h) == AfterProcess(AfterHistory(NOTHING, front), p);
    assert BoundedProcess(p);
    var d := AfterHistory(NOTHING, h);
    assert d.log == Written(h);
    CloseCatchesUp(AfterHistory(NOTHING, front), p);
    ValueAfterOpen(d, capacity, k);
  }

  // ---------- oversized puts ----------

  lemma {:induction false} StepsLogPuts(s: Session, ops: seq<Op>)
    ensures Steps(s, ops).log == s.log + Puts(ops)
  {
    if ops == [] {
    } else {
      StepsLogPuts(s, ops[..|ops| - 1]);
    }
  }

  lemma {:induction false} ReplayKeepsLog(s: Session, es: seq<Entry>)
    ensures StoredAll(s, es).log == s.log
  {
    if es == [] {
    } else {
      ReplayKeepsLog(s, es[..|es| - 1]);
    }
  }

  /** What a process adds to the log: what it put, if it opened. */
  function Logged(d: Durable, p: Process): seq<Entry> { if Opens(d) then WrittenBy(p) else [] }

  lemma {:induction false} ProcessLogsPuts(d: Durable, p: Process)
    ensures AfterProcess(d, p).log == d.log + Logged(d, p)
  {
    hide StoredAll, Steps, W.Replayed, Taken, Opens;
    ReplayKeepsLog(Unopened(d, p.capacity), Taken(W.Replayed(d.log)));
    ReplayKeepsLog(Unopened(d, p.capacity), W.Replayed(d.log));
    StepsLogPuts(Opened(d, p.capacity), p.ops);
    match p.end {
      case CrashInOpen(n) => ReplayKeepsLog(Unopened(d, p.capacity), Taken(FirstReplayed(d.log, n)));
      case _ =>
    }
  }

  /** An oversized put is logged before the writer rejects it, narrowed if its lengths do not fit 16
      bits. A process leaves a store that opens again exactly when replay already stops in the log it
      found or what a replay gives back of everything it put fits pages. */
  lemma {:induction false} OpensAgainIff(d: Durable, p: Process)
    requires Opens(d)
    ensures Opens(AfterProcess(d, p)) <==>
            |W.Replayed(d.log)| < |d.log| || Fits(W.Replayed(WrittenBy(p)))
  {
    hide W.Replayed;
    ProcessLogsPuts(d, p);
    W.ReplayedConcat(d.log, WrittenBy(p));
  }

  /** Of one put, between puts that fit: the store opens again exactly when the put's bytes beyond
      its narrowed lengths spoil its checksum, so that replay stops there, or what is left of it fits. */
  lemma {:induction false} OpensAfterPutIff(d: Durable, p: Process, before: seq<Entry>, e: Entry, after: seq<Entry>)
    requires Fits(d.log) && Fits(before) && Fits(after) && WrittenBy(p) == before + [e] + after
    ensures Opens(AfterProcess(d, p)) <==> !W.Survives(e) || !TooLarge(W.Narrowed(e))
  {
    hide W.Survives, W.Narrowed, W.Replayed, AfterProcess, WrittenBy, TooLarge, Fits, Opens;
    OpensWhenFitting(d);
    OpensAgainIff(d, p);
    ReplayedAround(before, e, after);
    FitsConcat([W.Narrowed(e)], after);
    FitsConcat(before, [W.Narrowed(e)] + after);
    FitsOne(W.Narrowed(e));
  }

  lemma OpensWhenFitting(d: Durable)
    requires Fits(d.log)
    ensures Opens(d) && W.Replayed(d.log) == d.log
  {
    FittingLogReplays(d.log);
  }

  lemma FitsConcat(a: seq<Entry>, b: seq<Entry>)
    ensures Fits(a + b) <==> Fits(a) && Fits(b)
  {
    hide TooLarge;
    assert (forall e :: e in a ==> e in a + b) && (forall e :: e in b ==> e in a + b);
  }

  lemma FitsOne(e: Entry)
    ensures Fits([e]) <==> !TooLarge(e)
  {
    hide TooLarge;
    assert e in [e];
  }

  lemma ReplayedAround(before: seq<Entry>, e: Entry, after: seq<Entry>)
    requires Fits(before) && Fits(after)
    ensures W.Replayed(before + [e] + after) == if W.Survives(e) then before + ([W.Narrowed(e)] + after) else before
  {
    FittingLogReplays(before);
    FittingLogReplays(after);
    hide Fits, W.Survives, W.Narrowed;
    W.ReplayedConcat(before, [e] + after);
    assert before + [e] + after == before + ([e] + after);
    assert ([e] + after)[1..] == after;
  }

  /** What a failed open writes out are the records before the one that no page takes. */
  lemma {:induction false} FailedOpenRecords(d: Durable, capacity: nat, before: seq<Entry>, e: Entry, more: seq<Entry>)
    requires capacity > 0 && forall es :: es in d.pages ==> Packed(es)
    requires W.Replayed(d.log) == before + ([e] + more) && Fits(before) && TooLarge(e)
    ensures !Opens(d) && PageRecords(AfterFailedOpen(d, capacity).pages) == PageRecords(d.pages) + before
  {
    hide ScanAll, StoredAll, TooLarge, Appended, Taken, W.Replayed, Fits, Packed, Closed;
    var u := Unopened(d, capacity);
    TakenBefore(before, e, more);
    StoredSnoc(u, before, e);
    ReplayedFromPages(d, capacity, before);
    RejectedRecord(StoredAll(u, before), e);
    ClosedScansAll(Stored(StoredAll(u, before), e).writer);
  }

  lemma ReplayedFromPages(d: Durable, capacity: nat, es: seq<Entry>)
    requires capacity > 0 && Fits(es) && forall page :: page in d.pages ==> Packed(page)
    ensures var s := StoredAll(Unopened(d, capacity), es);
            WellPacked(s.writer) && Entries(ScanAll(s.writer)) == PageRecords(d.pages) + es
  {
    hide ScanAll, StoredAll, TooLarge, PageRecords;
    ReplayFacts(Unopened(d, capacity), es);
    UnopenedScan(d, capacity);
  }

  lemma TakenBefore(before: seq<Entry>, e: Entry, more: seq<Entry>)
    requires Fits(before) && TooLarge(e)
    ensures Taken(before + ([e] + more)) == before + [e] && !Fits(before + ([e] + more))
  {
    hide TooLarge;
    var es := before + ([e] + more);
    assert es[|before|] == e && e in es && forall j :: 0 <= j < |before| ==> es[j] == before[j];
    TakenUpTo(es, |before|);
    assert es[..|before| + 1] == before + [e];
  }

  lemma StoredSnoc(u: Session, es: seq<Entry>, e: Entry)
    ensures StoredAll(u, es + [e]) == Stored(StoredAll(u, es), e)
  {
    assert (es + [e])[..|es|] == es;
  }

  lemma RejectedRecord(s: Session, e: Entry)
    requires WellPacked(s.writer) && TooLarge(e)
    ensures ScanAll(Stored(s, e).writer) == ScanAll(s.writer)
  {
    hide ScanAll, Appended, WellPacked, TooLarge;
    AppendScans(s.writer, e);
  }

  /** A store that does not open never opens again, and its log stays what it is, whatever processes
      try. */
  lemma {:induction false} NeverOpensAgain(d: Durable, h: seq<Process>)
    requires !Opens(d)
    ensures !Opens(AfterHistory(d, h)) && AfterHistory(d, h).log == d.log
  {
    hide AfterProcess, W.Replayed;
    if h != [] {
      var front := h[..|h| - 1];
      NeverOpensAgain(d, front);
      ProcessLogsPuts(AfterHistory(d, front), h[|h| - 1]);
      assert AfterHistory(d, h).log == AfterHistory(d, front).log;
    }
  }

  /** Once replay stops at a record, nothing put later is ever replayed again, in any history. */
  lemma {:induction false} StoppedLogStays(d: Durable, p: Process)
    requires |W.Replayed(d.log)| < |d.log|
    ensures W.Replayed(AfterProcess(d, p).log) == W.Replayed(d.log)
    ensures |W.Replayed(AfterProcess(d, p).log)| < |AfterProcess(d, p).log|
  {
    hide W.Replayed;
    ProcessLogsPuts(d, p);
    W.ReplayedConcat(d.log, Logged(d, p));
  }
}
