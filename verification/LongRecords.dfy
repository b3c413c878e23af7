/** Histories with a put too large for a page: what the next open makes of it. */
module LongRecords {
  import opened Bytes
  import opened SlottedPage
  import opened Packing
  import opened LruCache
  import opened Store
  import W = Wal

  /** One put on empty files, then a crash. */
  function OnlyPut(capacity: nat, e: Entry): Process { Process(capacity, [PutOp(e)], Crash) }

  /** Two puts on empty files, then a crash. */
  function TwoPuts(capacity: nat, e: Entry, f: Entry): Process { Process(capacity, [PutOp(e), PutOp(f)], Crash) }

  /** A rejected put leaves an empty page behind and nothing else in memory. */
  lemma AfterRejectedPut(capacity: nat, e: Entry)
    requires TooLarge(e)
    ensures Put(Opened(NOTHING, capacity), e) == Session(capacity, 0, [e], Packing([[]], []), map[], EMPTY)
  {
    NothingOpened(capacity);
    assert [] + [e] == [e];
    if Packed([e]) {
      TooLargeNeverFits([], e);
      assert false;
    }
  }

  lemma AfterOnlyPut(capacity: nat, e: Entry)
    requires TooLarge(e)
    ensures AfterProcess(NOTHING, OnlyPut(capacity, e)) == Durable([e], [[]])
  {
    AfterRejectedPut(capacity, e);
    hide TooLarge, Put, Opened;
    var ops := [PutOp(e)];
    assert ops[..0] == [];
    assert Steps(Opened(NOTHING, capacity), ops) == Put(Opened(NOTHING, capacity), e);
  }

  lemma AfterTwoPuts(capacity: nat, e: Entry, f: Entry)
    requires TooLarge(e) && !TooLarge(f)
    ensures AfterProcess(NOTHING, TwoPuts(capacity, e, f)) == Durable([e, f], [[]])
    ensures WrittenBy(TwoPuts(capacity, e, f)) == [e, f]
  {
    AfterRejectedPut(capacity, e);
    EmptyPageTakes(f);
    hide TooLarge, Packed, Opened, CachePut, NewestRid;
    var ops := [PutOp(e), PutOp(f)];
    assert ops[..1] == [PutOp(e)] && ops[..1][..0] == [];
    assert Steps(Opened(NOTHING, capacity), ops[..1]) == Put(Opened(NOTHING, capacity), e);
    assert Puts(ops[..1]) == [e];
    assert [e] + [f] == [e, f] && [] + [f] == [f];
  }

  lemma EmptyPageTakes(f: Entry)
    requires !TooLarge(f)
    ensures Packed([f])
  {
    EmptyPageTakesIff(f);
    PackingArithmetic([], f);
    assert [] + [f] == [f];
  }

  // ---------- lengths that fit the log ----------

  /** An oversized put whose lengths fit the log makes every later open throw. */
  lemma {:induction false} OversizedPutEndsTheStore(capacity: nat, e: Entry)
    requires TooLarge(e) && W.Short(e)
    ensures Opens(NOTHING) && !Opens(AfterProcess(NOTHING, OnlyPut(capacity, e)))
  {
    AfterOnlyPut(capacity, e);
    W.ShortSurvives(e);
    hide TooLarge, AfterProcess, W.Survives, W.Narrowed;
    assert [e][1..] == [];
    assert e in W.Replayed([e]);
  }

  /** One byte more than a page takes is enough. */
  lemma {:induction false} OneByteTooMany(capacity: nat)
    ensures var e := Entry([], seq(MAX_PAYLOAD + 1, _ => 0));
            Opens(NOTHING) && !Opens(AfterProcess(NOTHING, OnlyPut(capacity, e)))
  {
    OversizedPutEndsTheStore(capacity, Entry([], seq(MAX_PAYLOAD + 1, _ => 0)));
  }

  // ---------- lengths that do not ----------

  /** A rejected put whose narrowed record survives and fits comes back at the next open. */
  lemma {:induction false} RejectedPutReturns(capacity: nat, e: Entry)
    requires capacity > 0 && TooLarge(e) && W.Survives(e) && !TooLarge(W.Narrowed(e))
    ensures var d, n := AfterProcess(NOTHING, OnlyPut(capacity, e)), W.Narrowed(e);
            Opens(d) && Value(Opened(d, capacity), n.key) == Some(n.value)
  {
    AfterOnlyPut(capacity, e);
    hide TooLarge, AfterProcess, W.Survives, W.Narrowed, Appended, NewestRid;
    var d, n := Durable([e], [[]]), W.Narrowed(e);
    assert [e][1..] == [];
    assert W.Replayed(d.log) == [n];
    assert [n][..0] == [] && StoredAll(Unopened(d, capacity), [n]) == Stored(Unopened(d, capacity), n);
  }

  /** After a put whose record stops the replay, a put that succeeded is lost. */
  lemma {:induction false} LaterPutIsLost(capacity: nat, e: Entry, f: Entry)
    requires capacity > 0 && TooLarge(e) && !W.Survives(e) && !TooLarge(f)
    ensures var d := AfterProcess(NOTHING, TwoPuts(capacity, e, f));
            && Opens(d) && LastPut(WrittenBy(TwoPuts(capacity, e, f)), f.key) == Some(f.value)
            && Value(Opened(d, capacity), f.key) == None
  {
    AfterTwoPuts(capacity, e, f);
    hide TooLarge, AfterProcess, W.Survives, W.Narrowed, WrittenBy;
    var d := Durable([e, f], [[]]);
    assert W.Replayed(d.log) == [];
    assert d.pages[..0] == [] && Scan(d.pages) == [] && IndexOf(Scan(d.pages)) == map[];
    assert StoredAll(Unopened(d, capacity), []) == Unopened(d, capacity);
    assert Opened(d, capacity) == Unopened(d, capacity);
    assert [e, f][..1] == [e];
  }

  /** 65536 zero bytes come back as an empty value; 65536 ones lose whatever is put after them. */
  lemma {:induction false} LongValues(f: Entry)
    requires !TooLarge(f)
    ensures Value(Opened(AfterProcess(NOTHING, OnlyPut(1, W.LongValue(0))), 1), []) == Some([])
    ensures Value(Opened(AfterProcess(NOTHING, TwoPuts(1, W.LongValue(1), f)), 1), f.key) == None
  {
    LongValuesAreLong();
    hide TooLarge, W.Survives, W.Narrowed, W.LongValue, AfterProcess, Opened, Value;
    RejectedPutReturns(1, W.LongValue(0));
    LaterPutIsLost(1, W.LongValue(1), f);
  }

  lemma LongValuesAreLong()
    ensures TooLarge(W.LongValue(0)) && W.Survives(W.LongValue(0)) && W.Narrowed(W.LongValue(0)) == Entry([], [])
    ensures !TooLarge(Entry([], []))
    ensures TooLarge(W.LongValue(1)) && !W.Survives(W.LongValue(1))
  {
    hide W.Survives;
    W.LongValuesReplayed([]);
    assert |W.Replayed([W.LongValue(0)] + [])| > 0 && |W.Replayed([W.LongValue(1)] + [])| == 0;
  }
}
