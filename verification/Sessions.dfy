/** Whole processes, and whole histories of them, on the real files. */
module Sessions {
  import opened Bytes
  import opened SlottedPage
  import opened Packing
  import opened Observer
  import opened PageCache
  import opened StorageWriter
  import opened LruCache
  import opened Database
  import S = Store
  import W = Wal

  /** What each operation answers; a put answers nothing. */
  ghost function Answer(s: S.Session, op: S.Op): Option<seq<byte>> {
    if op.GetOp? then S.Value(s, op.key) else None
  }

  /** The answers that a run of operations gives from a state on. */
  ghost predicate AnswersOf(s: S.Session, ops: seq<S.Op>, answers: seq<Option<seq<byte>>>) {
    |answers| == |ops| && forall i :: 0 <= i < |ops| ==> answers[i] == Answer(S.Steps(s, ops[..i]), ops[i])
  }

  /** The answers that a process gives; none if it dies while opening or cannot open. */
  ghost predicate Answered(d: S.Durable, p: S.Process, answers: seq<Option<seq<byte>>>) {
    if p.end.CrashInOpen? || !S.Opens(d) then answers == [] else AnswersOf(S.Opened(d, p.capacity), p.ops, answers)
  }

  /** Every get was answered with the last value put before it, in this process or an earlier one. */
  ghost predicate LastPutsAnswered(before: seq<Entry>, ops: seq<S.Op>, answers: seq<Option<seq<byte>>>) {
    && |answers| == |ops|
    && forall i :: 0 <= i < |ops| && ops[i].GetOp? ==>
         answers[i] == S.LastPut(before + S.AcceptedPuts(ops[..i]), ops[i].key)
  }

  /** One process on real bytes, with any of its four endings, leaves the bytes and gives the answers
      of the state machine; one that cannot open leaves what the failed open wrote. */
  method RunProcess(file: PageFile, logFile: W.LogFile, cachePages: nat, observer: AccessObserver?,
                    p: S.Process, ghost d: S.Durable) returns (answers: seq<Option<seq<byte>>>)
    requires StoredAs(file.pages, logFile.bytes, d) && |file.pages| <= PAGE_LIMIT
    requires (cachePages > 0 || d.pages == []) && p.capacity > 0 && (observer != null ==> observer.Valid())
    modifies file, logFile, ObservedBy(observer)
    ensures StoredAs(file.pages, logFile.bytes, S.AfterProcess(d, p)) && Answered(d, p, answers)
    ensures observer != null ==> observer.Valid()
  {
    hide StoredAs, S.Opens, S.Opened, S.Step, S.FirstReplayed, AnswersOf, AccessObserver.Valid,
         Database.WritesAgree, Database.LogAgrees, Database.ReadsAgree, Database.CanRead;
    if p.end.CrashInOpen? {
      DieOpening(file, logFile, cachePages, p.capacity, observer, p.end.replayed, d);
      return [];
    }
    var db := Database.Open(file, logFile, cachePages, p.capacity, observer, d);
    if db == null {
      return [];
    }
    db.Footprint();
    assert fresh(db.Owned());
    answers := Perform(db, p.ops);
    End(db, p.end);
  }

  /** Replays the first `replayed` records of the log, and then dies. */
  method DieOpening(file: PageFile, logFile: W.LogFile, cachePages: nat, capacity: nat, observer: AccessObserver?,
                    replayed: nat, ghost d: S.Durable)
    requires StoredAs(file.pages, logFile.bytes, d) && |file.pages| <= PAGE_LIMIT
    requires capacity > 0 && (observer != null ==> observer.Valid())
    modifies file
    ensures StoredAs(file.pages, logFile.bytes,
                     S.AfterCrash(S.StoredAll(S.Unopened(d, capacity), S.Taken(S.FirstReplayed(d.log, replayed)))))
    ensures observer != null ==> observer.Valid()
  {
    hide StoredAs, LogOf, S.StoredAll, AccessObserver.Valid, Database.WritesAgree, Database.ReadsAgree,
         Database.CanRead, W.Replayed, W.HighestLsn;
    var db := new Database.Assembled(file, logFile, cachePages, capacity, observer, d);
    ReplayPart(db, replayed);
    db.CrashPoint();
  }

  method ReplayPart(db: Database, replayed: nat)
    requires db.WritesAgree() && LogOf(db.records, db.logFile.bytes, db.state.log)
    requires db.wal.file == db.logFile && db.wal.Valid() && db.wal.currentLsn == 0
    modifies db`state, db.file, db.writer, db.writer.page, db.writer.page.data, db.wal, db.index, db.recordCache
    ensures db.WritesAgree() && db.LogAgrees()
    ensures db.state == S.StoredAll(old(db.state), S.Taken(S.FirstReplayed(old(db.state.log), replayed)))
  {
    hide LogOf, S.StoredAll, Database.WritesAgree, W.Replayed, W.HighestLsn;
    var visited, count := db.wal.Replay();
    LogReplays(db.records, db.logFile.bytes, db.state.log);
    var part := if replayed <= |visited| then visited[..replayed] else visited;
    assert W.EntriesOf(part) == S.FirstReplayed(db.state.log, replayed);
    var ok := db.ReplayRecords(part);
  }

  method Perform(db: Database, ops: seq<S.Op>) returns (answers: seq<Option<seq<byte>>>)
    requires db.Valid()
    modifies db.Repr()
    ensures db.Valid() && db.state == S.Steps(old(db.state), ops) && AnswersOf(old(db.state), ops, answers)
  {
    hide S.Steps, S.Step, Answer, AnswersOf, Database.WritesAgree, Database.LogAgrees, Database.ReadsAgree,
         Database.CanRead;
    answers := [];
    NothingDone(db.state, ops);
    for i := 0 to |ops|
      invariant db.Valid() && db.state == S.Steps(old(db.state), ops[..i])
      invariant AnswersOf(old(db.state), ops[..i], answers)
    {
      OneMoreDone(old(db.state), ops, i, answers);
      var answer := PerformOne(db, ops[i]);
      answers := answers + [answer];
    }
    assert ops[..|ops|] == ops;
  }

  lemma NothingDone(s: S.Session, ops: seq<S.Op>)
    ensures S.Steps(s, ops[..0]) == s && AnswersOf(s, ops[..0], [])
  {
  }

  lemma OneMoreDone(s: S.Session, ops: seq<S.Op>, i: nat, answers: seq<Option<seq<byte>>>)
    requires i < |ops| && AnswersOf(s, ops[..i], answers)
    ensures S.Steps(s, ops[..i + 1]) == S.Step(S.Steps(s, ops[..i]), ops[i])
    ensures AnswersOf(s, ops[..i + 1], answers + [Answer(S.Steps(s, ops[..i]), ops[i])])
  {
    hide S.Step, Answer;
    var more := ops[..i + 1];
    assert more[..i] == ops[..i];
    forall j | 0 <= j < i
      ensures more[..j] == ops[..i][..j] && more[j] == ops[..i][j]
    {
    }
  }

  method PerformOne(db: Database, op: S.Op) returns (answer: Option<seq<byte>>)
    requires db.Valid()
    modifies db.Repr()
    ensures db.Valid() && db.state == S.Step(old(db.state), op) && answer == Answer(old(db.state), op)
  {
    hide Database.WritesAgree, Database.LogAgrees, Database.ReadsAgree, Database.CanRead, S.Put, S.Got, S.Value;
    match op {
      case PutOp(e) =>
        var ok := db.Put(e.key, e.value);
        answer := None;
      case GetOp(k) =>
        answer := db.Get(k);
    }
  }

  /** What a process does last. */
  method End(db: Database, end: S.End)
    requires db.Valid() && !end.CrashInOpen?
    modifies db.Repr()
    ensures var s := old(db.state);
            StoredAs(db.file.pages, db.logFile.bytes,
                     if end.Close? then S.AfterClose(s)
                     else S.AfterCrash(if end.CrashInPut? then s.(log := s.log + [end.entry]) else s))
    ensures db.engine.cache.observer != null ==> db.engine.cache.observer.Valid()
  {
    hide StoredAs, LogOf, Database.WritesAgree, Database.LogAgrees, Database.ReadsAgree, Database.CanRead,
         AccessObserver.Valid;
    db.ObserverValid();
    if end.Close? {
      db.Close();
    } else {
      Crash(db, end);
    }
  }

  method Crash(db: Database, end: S.End)
    requires db.WritesAgree() && db.LogAgrees() && !end.Close?
    modifies db`state, db`records, db.logFile, db.wal
    ensures var s := old(db.state);
            StoredAs(db.file.pages, db.logFile.bytes,
                     S.AfterCrash(if end.CrashInPut? then s.(log := s.log + [end.entry]) else s))
  {
    hide StoredAs, LogOf, Database.WritesAgree, Database.LogAgrees;
    if end.CrashInPut? {
      LogOnly(db, end.entry);
    }
    db.CrashPoint();
  }

  method LogOnly(db: Database, e: Entry)
    requires db.WritesAgree() && db.LogAgrees()
    modifies db`state, db`records, db.logFile, db.wal
    ensures db.WritesAgree() && db.LogAgrees()
    ensures db.state == old(db.state).(log := old(db.state).log + [e])
  {
    hide LogOf, StorageWriter.BufferHolds, FileHolds, WellPacked, LruCache.Valid, LruCache.Contents;
    db.LogRecord(e.key, e.value);
  }

  /** A whole history of processes, from empty files on, whatever they put and whether they open or
      not: the bytes are those of the state machine after each. Where all that was put before a process
      fits pages and the record cache is as large as the number of keys ever put, every get in it is
      answered with the last value put and not rejected. */
  method RunHistory(file: PageFile, logFile: W.LogFile, cachePages: nat, observer: AccessObserver?, h: seq<S.Process>)
    returns (answers: seq<seq<Option<seq<byte>>>>)
    requires file.pages == [] && logFile.bytes == [] && forall p :: p in h ==> p.capacity > 0
    requires cachePages > 0 && (observer != null ==> observer.Valid())
    requires forall i :: 0 <= i <= |h| ==> |S.AfterHistory(S.NOTHING, h[..i]).pages| <= PAGE_LIMIT
    modifies file, logFile, ObservedBy(observer)
    ensures StoredAs(file.pages, logFile.bytes, S.AfterHistory(S.NOTHING, h)) && |answers| == |h|
    ensures forall i :: 0 <= i < |h| ==> Answered(S.AfterHistory(S.NOTHING, h[..i]), h[i], answers[i])
    ensures forall i :: 0 <= i < |h| && CachesEveryKey(h, i) ==>
              LastPutsAnswered(S.Written(h[..i]), h[i].ops, answers[i])
  {
    hide StoredAs, S.AfterProcess, Answered, LastPutsAnswered, AccessObserver.Valid, S.Opens, CachesEveryKey;
    EmptyFiles();
    answers := [];
    for i := 0 to |h|
      invariant StoredAs(file.pages, logFile.bytes, S.AfterHistory(S.NOTHING, h[..i]))
      invariant (observer != null ==> observer.Valid()) && |answers| == i
      invariant forall j :: 0 <= j < i ==> Answered(S.AfterHistory(S.NOTHING, h[..j]), h[j], answers[j])
    {
      ghost var d := S.AfterHistory(S.NOTHING, h[..i]);
      StoredSize(file.pages, logFile.bytes, d);
      assert h[i] in h;
      var given := RunProcess(file, logFile, cachePages, observer, h[i], d);
      assert h[..i + 1][..i] == h[..i];
      answers := answers + [given];
    }
    assert h[..|h|] == h;
    forall i | 0 <= i < |h| && CachesEveryKey(h, i)
      ensures LastPutsAnswered(S.Written(h[..i]), h[i].ops, answers[i])
    {
      AnswersAreLastPuts(h, i, answers[i]);
    }
  }

  /** The condition of durability, for process `i` of a history. */
  ghost predicate CachesEveryKey(h: seq<S.Process>, i: nat)
    requires i < |h|
  {
    && S.BoundedHistory(h[..i]) && !h[i].end.CrashInOpen? && h[i].capacity > 0
    && |Keys(S.Written(h[..i]) + S.AcceptedPuts(h[i].ops))| <= h[i].capacity
  }

  lemma HistoryReady(h: seq<S.Process>)
    requires S.BoundedHistory(h)
    ensures S.Opens(S.AfterHistory(S.NOTHING, h))
  {
    hide S.AfterProcess, W.Replayed, S.BoundedProcess;
    S.NothingIsSound();
    S.HistoryKeepsSound(S.NOTHING, h);
    S.SoundOpens(S.AfterHistory(S.NOTHING, h));
  }

  lemma StoredSize(pages: seq<RawPage>, log: seq<byte>, d: S.Durable)
    requires StoredAs(pages, log, d)
    ensures |pages| == |d.pages|
  {
  }

  lemma {:induction false} AnswersAreLastPuts(h: seq<S.Process>, i: nat, answers: seq<Option<seq<byte>>>)
    requires i < |h| && CachesEveryKey(h, i)
    requires Answered(S.AfterHistory(S.NOTHING, h[..i]), h[i], answers)
    ensures LastPutsAnswered(S.Written(h[..i]), h[i].ops, answers)
  {
    hide S.Opened, S.Steps, S.AfterHistory, S.Written, S.LastPut, S.Value, S.AcceptedPuts, S.Opens, S.BoundedHistory;
    var p, before := h[i], S.Written(h[..i]);
    HistoryReady(h[..i]);
    forall j | 0 <= j < |p.ops| && p.ops[j].GetOp?
      ensures answers[j] == S.LastPut(before + S.AcceptedPuts(p.ops[..j]), p.ops[j].key)
    {
      AcceptedOfPrefix(p.ops, j);
      var rest := S.AcceptedPuts(p.ops)[|S.AcceptedPuts(p.ops[..j])|..];
      S.KeysGrow(before + S.AcceptedPuts(p.ops[..j]), rest);
      assert before + S.AcceptedPuts(p.ops) == before + S.AcceptedPuts(p.ops[..j]) + rest;
      S.Durability(h[..i], p.capacity, p.ops[..j], p.ops[j].key);
    }
  }

  lemma {:induction false} AcceptedOfPrefix(ops: seq<S.Op>, j: nat)
    requires j <= |ops|
    ensures S.AcceptedPuts(ops[..j]) <= S.AcceptedPuts(ops)
  {
    hide S.AcceptedPuts;
    if j < |ops| {
      AcceptedOfPrefix(ops[..|ops| - 1], j);
      S.AcceptedNext(ops);
      assert ops[..|ops| - 1][..j] == ops[..j];
    } else {
      assert ops[..j] == ops;
    }
  }
}
