/** Which endings of a process leave the page file up to date with the log, and which leave it free of
    outdated values. */
module Endings {
  import opened Bytes
  import opened SlottedPage
  import opened Packing
  import opened LruCache
  import opened Store
  import opened StaleReads
  import W = Wal

  /** The logged records that an ending leaves out of the pages it wrote last. */
  function Unflushed(d: Durable, p: Process): seq<Entry> {
    match p.end
    case Close => []
    case Crash => Reached(d, p).writer.current
    case CrashInPut(e) => Reached(d, p).writer.current + [e]
    case CrashInOpen(n) =>
      var part := FirstReplayed(d.log, n);
      StoredAll(Unopened(d, p.capacity), part).writer.current
      + if |part| <= |d.log| then d.log[|part|..] else []
  }

  /** The pages' last value of each key of `es` is the one `es` has. */
  ghost predicate Shown(pages: seq<seq<Entry>>, es: seq<Entry>) {
    forall k :: k in Latest(es) ==> PageValue(pages, k) == Some(Latest(es)[k])
  }

  /** The pages have no other last value for any key of `es`. */
  ghost predicate NotContradicted(pages: seq<seq<Entry>>, es: seq<Entry>) {
    forall k :: k in Latest(es) ==> PageValue(pages, k) == None || PageValue(pages, k) == Some(Latest(es)[k])
  }

  lemma WriterRecords(w: Packing)
    ensures Entries(ScanAll(w)) == PageRecords(w.flushed) + w.current
  {
    ScanSnoc(w.flushed, w.current);
  }

  /** The records of the pages and then a log that has all their keys. */
  lemma LogAbsorbs(d: Durable, log: seq<Entry>)
    requires Sound(d) && d.log <= log
    ensures Latest(PageRecords(d.pages) + log) == Latest(log)
  {
    assert log == d.log + log[|d.log|..];
    KeysGrow(d.log, log[|d.log|..]);
    ReplayAbsorbs(PageRecords(d.pages), log);
  }

  lemma Regrouped(a: seq<Entry>, b: seq<Entry>, c: seq<Entry>)
    ensures a + (b + c) == (a + b) + c
  {
  }

  lemma ReachedUnflushed(d: Durable, p: Process, more: seq<Entry>)
    requires Sound(d) && p.capacity > 0 && Bounded(p.ops)
    ensures var s := Reached(d, p);
            Latest(PageRecords(s.writer.flushed) + (s.writer.current + more)) == Latest(s.log + more)
  {
    hide Sound, Working, Latest, PageRecords, ScanAll, Reached, Bounded;
    ReachedWorks(d, p);
    var s := Reached(d, p);
    WriterRecords(s.writer);
    LogAbsorbs(d, s.log + more);
    Regrouped(PageRecords(s.writer.flushed), s.writer.current, more);
    Regrouped(PageRecords(d.pages), s.log, more);
  }

  lemma DyingWriter(d: Durable, capacity: nat, part: seq<Entry>)
    requires Sound(d) && capacity > 0 && Fits(part)
    ensures var w := StoredAll(Unopened(d, capacity), part).writer;
            PageRecords(w.flushed) + w.current == PageRecords(d.pages) + part
  {
    hide Latest, PageRecords, ScanAll, StoredAll;
    ReplayFacts(Unopened(d, capacity), part);
    UnopenedScan(d, capacity);
    WriterRecords(StoredAll(Unopened(d, capacity), part).writer);
  }

  lemma DyingUnflushed(d: Durable, capacity: nat, n: nat)
    requires Sound(d) && capacity > 0
    ensures var part := FirstReplayed(d.log, n);
            var w := StoredAll(Unopened(d, capacity), part).writer;
            |part| <= |d.log| && Latest(PageRecords(w.flushed) + (w.current + d.log[|part|..])) == Latest(d.log)
  {
    hide Sound, Latest, PageRecords, StoredAll, FirstReplayed, Taken, Fits;
    SoundReplays(d, n);
    LogAbsorbs(d, d.log);
    var part := FirstReplayed(d.log, n);
    DyingWriter(d, capacity, part);
    var w, rest := StoredAll(Unopened(d, capacity), part).writer, d.log[|part|..];
    assert d.log == part + rest;
    Regrouped(PageRecords(w.flushed), w.current, rest);
    Regrouped(PageRecords(d.pages), part, rest);
  }

  /** Whatever the ending, the pages it leaves and the records it left out of them are the log, as far
      as last values go. */
  lemma {:induction false} PagesAndUnflushed(d: Durable, p: Process)
    requires Sound(d) && BoundedProcess(p)
    ensures var t := AfterProcess(d, p); Latest(PageRecords(t.pages) + Unflushed(d, p)) == Latest(t.log)
  {
    SoundOpens(d);
    hide Sound, Latest, PageRecords, Reached, StoredAll, Opens, Bounded, Closed, FirstReplayed, Taken;
    match p.end {
      case Close =>
        CloseCatchesUp(d, p);
        assert PageRecords(AfterProcess(d, p).pages) + [] == PageRecords(AfterProcess(d, p).pages);
      case Crash =>
        ReachedUnflushed(d, p, []);
        assert Reached(d, p).writer.current + [] == Reached(d, p).writer.current;
        assert Reached(d, p).log + [] == Reached(d, p).log;
      case CrashInPut(e) => ReachedUnflushed(d, p, [e]);
      case CrashInOpen(n) =>
        DyingUnflushed(d, p.capacity, n);
        SoundReplays(d, n);
        ReplayKeepsLog(Unopened(d, p.capacity), FirstReplayed(d.log, n));
    }
  }

  lemma LastPutAfter(pages: seq<seq<Entry>>, unflushed: seq<Entry>, log: seq<Entry>, k: Key)
    requires Latest(PageRecords(pages) + unflushed) == Latest(log)
    ensures LastPut(log, k) == if k in Latest(unflushed) then Some(Latest(unflushed)[k]) else PageValue(pages, k)
  {
    hide PageRecords;
    LatestOfConcat(PageRecords(pages), unflushed);
    hide Latest;
  }

  /** An ending leaves the page file with the last value of every key if and only if the pages already
      show every value it left out of them. */
  lemma {:induction false} UpToDateAfterIff(d: Durable, p: Process)
    requires Sound(d) && BoundedProcess(p)
    ensures UpToDate(AfterProcess(d, p)) <==> Shown(AfterProcess(d, p).pages, Unflushed(d, p))
  {
    hide AfterProcess, Unflushed, PageValue, LastPut, Latest;
    PagesAndUnflushed(d, p);
    var t := AfterProcess(d, p);
    forall k
      ensures PageValue(t.pages, k) == LastPut(t.log, k) <==>
              (k in Latest(Unflushed(d, p)) ==> PageValue(t.pages, k) == Some(Latest(Unflushed(d, p))[k]))
    {
      LastPutAfter(t.pages, Unflushed(d, p), t.log, k);
    }
  }

  /** And it leaves no outdated value there if and only if the pages have no other value for any key it
      left out of them. */
  lemma {:induction false} FreshAfterIff(d: Durable, p: Process)
    requires Sound(d) && BoundedProcess(p)
    ensures Fresh(AfterProcess(d, p)) <==> NotContradicted(AfterProcess(d, p).pages, Unflushed(d, p))
  {
    hide AfterProcess, Unflushed, PageValue, LastPut, Latest;
    PagesAndUnflushed(d, p);
    var t := AfterProcess(d, p);
    forall k
      ensures (PageValue(t.pages, k).Some? ==> PageValue(t.pages, k) == LastPut(t.log, k)) <==>
              (k in Latest(Unflushed(d, p)) ==>
                 PageValue(t.pages, k) == None || PageValue(t.pages, k) == Some(Latest(Unflushed(d, p))[k]))
    {
      LastPutAfter(t.pages, Unflushed(d, p), t.log, k);
    }
  }

  // ---------- a crash while opening ----------

  /** Two values of one key on a page each, and a clean close. */
  function TwoPages(capacity: nat, e: Entry, f: Entry): Process { Process(capacity, [PutOp(e), PutOp(f)], Close) }

  /** Dying after both were replayed, with nothing put. */
  function Dying(capacity: nat): Process { Process(capacity, [], CrashInOpen(2)) }

  /** Two records, of which each fits a page and both do not. */
  predicate OnePageEach(e: Entry, f: Entry) { !TooLarge(e) && !TooLarge(f) && !Packed([e, f]) }

  lemma Spread(w: Packing, e: Entry, f: Entry)
    requires w.current == [] && OnePageEach(e, f)
    ensures Appended(Appended(w, e), f) == Packing(w.flushed + [[e]], [f])
  {
    EmptyPageTakesIff(e);
    PackingArithmetic([], e);
    assert [] + [e] == [e] && [e] + [f] == [e, f];
  }

  lemma TwoPutsReach(s: Session, e: Entry, f: Entry)
    ensures Steps(s, [PutOp(e), PutOp(f)]) == Put(Put(s, e), f)
  {
    hide Put;
    var ops := [PutOp(e), PutOp(f)];
    assert ops[..1] == [PutOp(e)] && ops[..1][..0] == [];
    assert Steps(s, ops[..1]) == Put(s, e);
  }

  lemma PutTwice(s: Session, e: Entry, f: Entry)
    ensures var t := Put(Put(s, e), f);
            t.writer == Appended(Appended(s.writer, e), f) && t.log == s.log + [e] + [f]
  {
    hide Appended, CachePut, NewestRid, TooLarge;
  }

  lemma ClosedAfter(d: Durable, p: Process)
    requires Opens(d) && p.end == Close
    ensures AfterProcess(d, p) == AfterClose(Steps(Opened(d, p.capacity), p.ops))
  {
    hide Opens, Opened, Steps, AfterClose;
  }

  lemma AfterTwoPages(capacity: nat, e: Entry, f: Entry)
    requires OnePageEach(e, f)
    ensures AfterProcess(NOTHING, TwoPages(capacity, e, f)) == Durable([e, f], [[e], [f]])
  {
    NothingOpened(capacity);
    NothingIsSound();
    SoundOpens(NOTHING);
    hide AfterProcess, Opens, Sound, Opened, Steps, Put, Appended, OnePageEach;
    var o := Opened(NOTHING, capacity);
    ClosedAfter(NOTHING, TwoPages(capacity, e, f));
    TwoPutsReach(o, e, f);
    PutTwice(o, e, f);
    Spread(o.writer, e, f);
    var none: seq<Entry>, noPages: seq<seq<Entry>> := [], [];
    assert none + [e] + [f] == [e, f] && noPages + [[e]] + [[f]] == [[e], [f]];
  }

  lemma TwoStored(u: Session, e: Entry, f: Entry)
    ensures StoredAll(u, [e, f]) == Stored(Stored(u, e), f)
  {
    hide Stored;
    var es := [e, f];
    assert es[..1] == [e] && es[..1][..0] == [];
    assert StoredAll(u, es[..1]) == Stored(u, e);
  }

  lemma StoredTwice(u: Session, e: Entry, f: Entry)
    ensures var s := Stored(Stored(u, e), f); s.writer == Appended(Appended(u.writer, e), f) && s.log == u.log
  {
    hide Appended, CachePut, NewestRid, TooLarge;
  }

  lemma DeadAfter(d: Durable, capacity: nat)
    requires Fits(d.log) && |d.log| == 2
    ensures AfterProcess(d, Dying(capacity)) == AfterCrash(StoredAll(Unopened(d, capacity), d.log))
  {
    FittingLogReplays(d.log);
    FittingAreTaken(d.log);
    hide StoredAll, Taken, Fits, Opens, AfterCrash, W.Replayed;
    assert FirstReplayed(d.log, 2) == d.log by { assert d.log[..2] == d.log; }
  }

  lemma AfterDying(capacity: nat, e: Entry, f: Entry)
    requires OnePageEach(e, f)
    ensures AfterProcess(Durable([e, f], [[e], [f]]), Dying(capacity)) == Durable([e, f], [[e], [f], [e]])
  {
    var d := Durable([e, f], [[e], [f]]);
    assert Fits(d.log);
    hide AfterProcess, OnePageEach, Appended, StoredAll, Stored, Fits;
    DeadAfter(d, capacity);
    var u := Unopened(d, capacity);
    TwoStored(u, e, f);
    StoredTwice(u, e, f);
    Spread(u.writer, e, f);
    assert d.pages + [[e]] == [[e], [f], [e]];
  }

  /** A crash while opening can bring an outdated value back into an up-to-date page file with nothing
      put: the pages then end with the first of the two values. */
  lemma {:induction false} DyingBringsBack(capacity: nat, e: Entry, f: Entry)
    requires capacity > 0 && OnePageEach(e, f) && e.key == f.key && e.value != f.value
    ensures var d := AfterProcess(NOTHING, TwoPages(capacity, e, f));
            var t := AfterProcess(d, Dying(capacity));
            && UpToDate(d) && WrittenBy(Dying(capacity)) == [] && !Fresh(t)
            && PageValue(t.pages, e.key) == Some(e.value) && LastPut(t.log, e.key) == Some(f.value)
  {
    TwoPagesUpToDate(capacity, e, f);
    hide OnePageEach, AfterProcess, UpToDate, PageValue, LastPut;
    AfterTwoPages(capacity, e, f);
    AfterDying(capacity, e, f);
    LastOfThree(e, f);
    var t := Durable([e, f], [[e], [f], [e]]);
    assert PageValue(t.pages, e.key).Some? && PageValue(t.pages, e.key) != LastPut(t.log, e.key);
  }

  lemma TwoPagesUpToDate(capacity: nat, e: Entry, f: Entry)
    requires capacity > 0 && OnePageEach(e, f)
    ensures UpToDate(AfterProcess(NOTHING, TwoPages(capacity, e, f)))
  {
    var p := TwoPages(capacity, e, f);
    assert BoundedProcess(p);
    hide AfterProcess, OnePageEach, TwoPages, UpToDate, BoundedProcess;
    assert [p][..0] == [] && AfterHistory(NOTHING, [p]) == AfterProcess(NOTHING, p);
    assert p.end == Close by { EndOfTwoPages(capacity, e, f); }
    UpToDateAfterCleanClose([p]);
  }

  lemma EndOfTwoPages(capacity: nat, e: Entry, f: Entry)
    ensures TwoPages(capacity, e, f).end == Close
  {
  }

  lemma LastOfThree(e: Entry, f: Entry)
    requires e.key == f.key
    ensures PageValue([[e], [f], [e]], e.key) == Some(e.value) && LastPut([e, f], e.key) == Some(f.value)
  {
    hide PageRecords, Latest;
    PagesOfOne([[e], [f], [e]], [e, f, e]);
    LatestSnoc([e, f], e);
    LatestSnoc([e], f);
    assert [e] + [f] == [e, f] && [e, f] + [e] == [e, f, e];
  }

  lemma PagesOfOne(pages: seq<seq<Entry>>, es: seq<Entry>)
    requires |pages| == |es| && forall i :: 0 <= i < |es| ==> pages[i] == [es[i]]
    ensures PageRecords(pages) == es
  {
    if es != [] {
      var n := |es| - 1;
      PagesOfOne(pages[..n], es[..n]);
    }
  }

  lemma TwoDoNotFit(e: Entry, f: Entry)
    requires RecordSize(e) + RecordSize(f) > PAGE_SIZE
    ensures !Packed([e, f])
  {
    var one, two := [e], [e, f];
    assert two[..1] == one && one[..0] == [];
    assert Used(one) == RecordSize(e);
    assert Used(two) == RecordSize(e) + RecordSize(f);
  }

  /** Two values of 4000 bytes are such. */
  lemma {:induction false} FourThousandBytes()
    ensures var e, f := Entry([], seq(4000, _ => 1)), Entry([], seq(4000, _ => 2));
            OnePageEach(e, f) && e.key == f.key && e.value != f.value
  {
    var e, f := Entry([], seq(4000, _ => 1)), Entry([], seq(4000, _ => 2));
    assert e.value[0] == 1 && f.value[0] == 2;
    TwoDoNotFit(e, f);
  }
}
