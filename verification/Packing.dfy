/** What the writer does to pages seen as lists of records: packing, scan order, and the index. */
module Packing {
  import opened Bytes
  import opened SlottedPage

  type Key = seq<byte>

  /** Pages already on the file, and the records of the page being filled. */
  datatype Packing = Packing(flushed: seq<seq<Entry>>, current: seq<Entry>)

  predicate WellPacked(w: Packing) {
    Packed(w.current) && forall es :: es in w.flushed ==> Packed(es)
  }

  function Appended(w: Packing, e: Entry): Packing {
    if Packed(w.current + [e]) then Packing(w.flushed, w.current + [e])
    else if TooLarge(e) then Packing(w.flushed + [w.current], [])
    else Packing(w.flushed + [w.current], [e])
  }

  /** Where the record that was just accepted lies. */
  function NewestRid(w: Packing): RecordId {
    RecordId(|w.flushed|, if w.current == [] then 0 else |w.current| - 1)
  }

  /** The pages on the file after the writer's last flush. */
  function Closed(w: Packing): seq<seq<Entry>> {
    if w.current != [] || w.flushed == [] then w.flushed + [w.current] else w.flushed
  }

  function AppendedAll(w: Packing, es: seq<Entry>): Packing {
    if es == [] then w else Appended(AppendedAll(w, es[..|es| - 1]), es[|es| - 1])
  }

  lemma TooLargeNeverFits(es: seq<Entry>, e: Entry)
    requires Packed(es + [e])
    ensures !TooLarge(e)
  {
    assert (es + [e])[..|es|] == es;
  }

  lemma AppendedWellPacked(w: Packing, e: Entry)
    requires WellPacked(w)
    ensures WellPacked(Appended(w, e))
    ensures !TooLarge(e) ==> Appended(w, e).current != []
    ensures w.flushed <= Appended(w, e).flushed
  {
    EmptyPageTakesIff(e);
    PackingArithmetic([], e);
    assert [] + [e] == [e];
  }

  lemma {:induction false} AppendedAllWellPacked(w: Packing, es: seq<Entry>)
    requires WellPacked(w)
    ensures WellPacked(AppendedAll(w, es)) && w.flushed <= AppendedAll(w, es).flushed
  {
    if es == [] {
    } else {
      AppendedAllWellPacked(w, es[..|es| - 1]);
      AppendedWellPacked(AppendedAll(w, es[..|es| - 1]), es[|es| - 1]);
    }
  }

  /** The page after page `i`, be it written or being filled. */
  function PageAfter(w: Packing, i: nat): seq<Entry> {
    if i + 1 < |w.flushed| then w.flushed[i + 1] else w.current
  }

  /** From page `from` on, no page was turned while the next record had room on it. */
  ghost predicate Tight(w: Packing, from: nat) {
    forall i :: from <= i < |w.flushed| ==>
      PageAfter(w, i) != [] && !Packed(w.flushed[i] + [PageAfter(w, i)[0]])
  }

  /** Appends of records that fit never turn a page early. */
  lemma {:induction false} NoPageTurnedEarly(w: Packing, es: seq<Entry>)
    requires forall e :: e in es ==> !TooLarge(e)
    ensures |w.flushed| <= |AppendedAll(w, es).flushed| && Tight(AppendedAll(w, es), |w.flushed|)
  {
    hide Packed, TooLarge;
    if es != [] {
      var front, e := es[..|es| - 1], es[|es| - 1];
      NoPageTurnedEarly(w, front);
      OneMoreTight(AppendedAll(w, front), |w.flushed|, e);
    }
  }

  lemma OneMoreTight(t: Packing, from: nat, e: Entry)
    requires from <= |t.flushed| && Tight(t, from) && !TooLarge(e)
    ensures from <= |Appended(t, e).flushed| && Tight(Appended(t, e), from)
  {
    hide Packed, TooLarge;
    var u := Appended(t, e);
    forall i | from <= i < |u.flushed|
      ensures PageAfter(u, i) != [] && !Packed(u.flushed[i] + [PageAfter(u, i)[0]])
    {
      if i < |t.flushed| {
        assert PageAfter(t, i) != [] && PageAfter(u, i) != [] && PageAfter(u, i)[0] == PageAfter(t, i)[0];
      }
    }
  }

  /** A close writes the page being filled if it has a record, and one empty page for a file that would
      otherwise have none. */
  lemma {:induction false} CloseWrites(w: Packing)
    ensures w.flushed <= Closed(w) && Closed(w) != []
    ensures w.current != [] ==> Closed(w) == w.flushed + [w.current]
    ensures w.current == [] ==> Closed(w) == if w.flushed == [] then [[]] else w.flushed
  {
  }

  // ---------- scan order ----------

  datatype Located = Located(rid: RecordId, entry: Entry)

  function ScanPage(page: nat, es: seq<Entry>): (ls: seq<Located>)
    ensures |ls| == |es|
    ensures forall i :: 0 <= i < |es| ==> ls[i] == Located(RecordId(page, i), es[i])
  {
    seq(|es|, i requires 0 <= i < |es| => Located(RecordId(page, i), es[i]))
  }

  /** Every record of the pages with its id, page by page and slot by slot. */
  function Scan(pages: seq<seq<Entry>>): (ls: seq<Located>) {
    if pages == [] then []
    else Scan(pages[..|pages| - 1]) + ScanPage(|pages| - 1, pages[|pages| - 1])
  }

  function Entries(ls: seq<Located>): (es: seq<Entry>)
    ensures |es| == |ls|
    ensures forall i :: 0 <= i < |ls| ==> es[i] == ls[i].entry
  {
    seq(|ls|, i requires 0 <= i < |ls| => ls[i].entry)
  }

  function RecordAt(pages: seq<seq<Entry>>, rid: RecordId): Option<Entry> {
    if rid.page < |pages| && rid.slot < |pages[rid.page]| then Some(pages[rid.page][rid.slot]) else None
  }

  predicate Before(a: RecordId, b: RecordId) {
    a.page < b.page || (a.page == b.page && a.slot < b.slot)
  }

  /** A scan visits record ids in strictly increasing order, and each id locates its record. */
  lemma {:induction false} ScanIsOrdered(pages: seq<seq<Entry>>)
    ensures forall i, j :: 0 <= i < j < |Scan(pages)| ==> Before(Scan(pages)[i].rid, Scan(pages)[j].rid)
    ensures forall l :: l in Scan(pages) ==> RecordAt(pages, l.rid) == Some(l.entry)
  {
    if pages == [] {
    } else {
      var front := pages[..|pages| - 1];
      ScanIsOrdered(front);
      forall l | l in Scan(pages)
        ensures RecordAt(pages, l.rid) == Some(l.entry)
      {
        if l in Scan(front) {
          assert pages[l.rid.page] == front[l.rid.page];
        } else {
          assert l in ScanPage(|front|, pages[|front|]);
        }
      }
      forall l | l in Scan(front)
        ensures l.rid.page < |front|
      {
        assert RecordAt(front, l.rid).Some?;
      }
    }
  }

  /** And a scan misses no record of the pages. */
  lemma {:induction false} ScanIsComplete(pages: seq<seq<Entry>>, rid: RecordId)
    requires RecordAt(pages, rid).Some?
    ensures Located(rid, RecordAt(pages, rid).value) in Scan(pages)
  {
    var n := |pages| - 1;
    if rid.page == n {
      assert ScanPage(n, pages[n])[rid.slot] == Located(rid, pages[n][rid.slot]);
    } else {
      assert RecordAt(pages[..n], rid) == RecordAt(pages, rid);
      ScanIsComplete(pages[..n], rid);
    }
  }

  lemma ScanSnoc(pages: seq<seq<Entry>>, es: seq<Entry>)
    ensures Scan(pages + [es]) == Scan(pages) + ScanPage(|pages|, es)
    ensures es == [] ==> Scan(pages + [es]) == Scan(pages)
  {
    assert (pages + [es])[..|pages|] == pages;
  }

  lemma {:induction false} ScanConcat(a: seq<seq<Entry>>, b: seq<seq<Entry>>)
    ensures |Scan(a + b)| >= |Scan(a)| && Scan(a + b)[..|Scan(a)|] == Scan(a)
  {
    if b == [] {
      assert a + b == a;
    } else {
      var n := |b| - 1;
      ScanConcat(a, b[..n]);
      assert a + b == (a + b[..n]) + [b[n]];
      ScanSnoc(a + b[..n], b[n]);
    }
  }

  /** Everything written so far, the page being filled included. */
  function ScanAll(w: Packing): seq<Located> { Scan(w.flushed + [w.current]) }

  lemma ClosedScansAll(w: Packing)
    ensures Scan(Closed(w)) == ScanAll(w)
  {
    ScanSnoc(w.flushed, w.current);
  }

  /** The records that a run of appends accepts, with the ids it returns for them. */
  function Accepted(w: Packing, es: seq<Entry>): seq<Located> {
    if es == [] then []
    else
      var last := es[|es| - 1];
      Accepted(w, es[..|es| - 1]) + if TooLarge(last) then [] else [Located(NewestRid(AppendedAll(w, es)), last)]
  }

  lemma AppendScans(w: Packing, e: Entry)
    requires WellPacked(w)
    ensures TooLarge(e) ==> ScanAll(Appended(w, e)) == ScanAll(w)
    ensures !TooLarge(e) ==>
              && Appended(w, e).current != []
              && ScanAll(Appended(w, e)) == ScanAll(w) + [Located(NewestRid(Appended(w, e)), e)]
  {
    AppendedWellPacked(w, e);
    ScanSnoc(w.flushed, w.current);
    var w' := Appended(w, e);
    ScanSnoc(w'.flushed, w'.current);
    if Packed(w.current + [e]) {
      TooLargeNeverFits(w.current, e);
      assert ScanPage(|w.flushed|, w.current + [e])
          == ScanPage(|w.flushed|, w.current) + [Located(NewestRid(w'), e)];
    } else if !TooLarge(e) {
      assert ScanPage(|w.flushed| + 1, [e]) == [Located(NewestRid(w'), e)];
    }
  }

  lemma {:induction false} ScanAllFollowsAppends(w: Packing, es: seq<Entry>)
    requires WellPacked(w)
    ensures ScanAll(AppendedAll(w, es)) == ScanAll(w) + Accepted(w, es)
  {
    hide Appended, ScanAll, NewestRid;
    if es == [] {
    } else {
      var front, last := es[..|es| - 1], es[|es| - 1];
      ScanAllFollowsAppends(w, front);
      AppendedAllWellPacked(w, front);
      AppendScans(AppendedAll(w, front), last);
    }
  }

  /** Scanning the closed file visits what was there before and then every accepted append, in
      append order, under the ids the appends returned; rejected appends leave nothing. */
  lemma {:induction false} ScanFollowsAppends(w: Packing, es: seq<Entry>)
    requires WellPacked(w)
    ensures Scan(Closed(AppendedAll(w, es))) == ScanAll(w) + Accepted(w, es)
  {
    ScanAllFollowsAppends(w, es);
    ClosedScansAll(AppendedAll(w, es));
  }

  // ---------- last writer wins ----------

  function Latest(es: seq<Entry>): (m: map<Key, seq<byte>>) {
    if es == [] then map[]
    else Latest(es[..|es| - 1])[es[|es| - 1].key := es[|es| - 1].value]
  }

  function Keys(es: seq<Entry>): set<Key> { set e <- es :: e.key }

  lemma {:induction false} LatestKeys(es: seq<Entry>)
    ensures Latest(es).Keys == Keys(es)
  {
    if es == [] {
    } else {
      LatestKeys(es[..|es| - 1]);
      assert es == es[..|es| - 1] + [es[|es| - 1]];
    }
  }

  lemma LaterWins<K, V>(a: map<K, V>, b: map<K, V>, k: K, v: V)
    ensures (a + b)[k := v] == a + b[k := v]
  {
  }

  /** The later list decides every key it mentions. */
  lemma {:induction false} LatestOfConcat(a: seq<Entry>, b: seq<Entry>)
    ensures Latest(a + b) == Latest(a) + Latest(b)
  {
    if b == [] {
      assert a + b == a;
    } else {
      var n := |b| - 1;
      LatestOfConcat(a, b[..n]);
      assert (a + b)[..|a| + n] == a + b[..n];
      LaterWins(Latest(a), Latest(b[..n]), b[n].key, b[n].value);
    }
  }

  /** Replaying a whole history after any of its own records changes nothing. */
  lemma {:induction false} ReplayAbsorbs(earlier: seq<Entry>, log: seq<Entry>)
    requires Keys(earlier) <= Keys(log)
    ensures Latest(earlier + log) == Latest(log)
  {
    LatestOfConcat(earlier, log);
    LatestKeys(earlier);
    LatestKeys(log);
  }

  // ---------- the index ----------

  function IndexOf(ls: seq<Located>): (m: map<Key, RecordId>) {
    if ls == [] then map[]
    else IndexOf(ls[..|ls| - 1])[ls[|ls| - 1].entry.key := ls[|ls| - 1].rid]
  }

  /** The index has the keys of the visited records and locates the last record of each. */
  lemma {:induction false} IndexLocatesLatest(ls: seq<Located>)
    ensures IndexOf(ls).Keys == Latest(Entries(ls)).Keys
    ensures forall k :: k in IndexOf(ls) ==> Located(IndexOf(ls)[k], Entry(k, Latest(Entries(ls))[k])) in ls
  {
    if ls == [] {
    } else {
      var n := |ls| - 1;
      IndexLocatesLatest(ls[..n]);
      assert Entries(ls)[..n] == Entries(ls[..n]);
      assert ls == ls[..n] + [ls[n]];
    }
  }

  lemma {:induction false} IndexOfConcat(a: seq<Located>, b: seq<Located>)
    ensures IndexOf(a + b) == IndexOf(a) + IndexOf(b)
  {
    if b == [] {
      assert a + b == a;
    } else {
      var n := |b| - 1;
      IndexOfConcat(a, b[..n]);
      assert (a + b)[..|a| + n] == a + b[..n];
    }
  }

  /** Rebuilding by scan gives the index that inserting each append's id as it happened gives. */
  lemma {:induction false} RebuildEqualsIncremental(w: Packing, es: seq<Entry>)
    requires WellPacked(w)
    ensures IndexOf(Scan(Closed(AppendedAll(w, es)))) == IndexOf(ScanAll(w)) + IndexOf(Accepted(w, es))
  {
    ScanFollowsAppends(w, es);
    IndexOfConcat(ScanAll(w), Accepted(w, es));
  }

  /** Looking a key up in the index of a file and reading the record found there gives the last
      value written for that key. */
  lemma {:induction false} LookupIsLatest(pages: seq<seq<Entry>>, k: Key)
    ensures k in IndexOf(Scan(pages)) <==> k in Latest(Entries(Scan(pages)))
    ensures k in IndexOf(Scan(pages)) ==>
              RecordAt(pages, IndexOf(Scan(pages))[k]) == Some(Entry(k, Latest(Entries(Scan(pages)))[k]))
  {
    IndexLocatesLatest(Scan(pages));
    ScanIsOrdered(pages);
  }

  // ---------- bytes ----------

  /** The file's pages are sealed, stamped with their own position, and hold `pages`. */
  ghost predicate FileHolds(file: seq<RawPage>, pages: seq<seq<Entry>>) {
    |file| == |pages| && forall i :: 0 <= i < |file| ==> Sealed(file[i], pages[i]) && Stamped(file[i], i)
  }

  /** Every accepted append, read back by its id from the closed file, gives exactly its record. */
  lemma {:induction false} AppendsReadBack(w: Packing, es: seq<Entry>, file: seq<RawPage>, l: Located)
    requires WellPacked(w) && l in Accepted(w, es)
    requires FileHolds(file, Closed(AppendedAll(w, es)))
    ensures l.rid.page < |file| && ReadSlot(file[l.rid.page], l.rid.slot) == Found(l.entry)
  {
    hide Sealed, Stamped, ReadSlot, Scan, Accepted;
    var pages := Closed(AppendedAll(w, es));
    ScanFollowsAppends(w, es);
    ScanIsOrdered(pages);
    assert l in Scan(pages);
    ReadBack(file[l.rid.page], pages[l.rid.page], l.rid.slot);
  }
}
