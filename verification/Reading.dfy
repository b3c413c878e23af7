/** Scanning pages of raw bytes. */
module Reading {
  import opened Bytes
  import opened SlottedPage
  import opened Packing

  /** The slot count a page claims. */
  function SlotCount(p: RawPage): nat { FromLittleEndian(p[PAGE_HEADER_SIZE..SLOTS_START]) }

  /** What reading one slot adds to a scan: its record, if it holds one. */
  function Delivered(page: PageNumber, p: RawPage, slot: nat): seq<Located> {
    match ReadSlot(p, slot)
    case Found(e) => [Located(RecordId(page, slot), e)]
    case _ => []
  }

  type PageNumber = nat

  /** What a scan has delivered from the first `slots` slots of a page. */
  function FromSlots(page: PageNumber, p: RawPage, slots: nat): seq<Located> {
    if slots == 0 then [] else FromSlots(page, p, slots - 1) + Delivered(page, p, slots - 1)
  }

  function FromPages(pages: seq<RawPage>): seq<Located> {
    if pages == [] then []
    else
      var n := |pages| - 1;
      FromPages(pages[..n]) + FromSlots(n, pages[n], SlotCount(pages[n]))
  }

  lemma {:induction false} SealedSlots(page: PageNumber, p: RawPage, es: seq<Entry>, slots: nat)
    requires Sealed(p, es) && slots <= |es|
    ensures FromSlots(page, p, slots) == ScanPage(page, es)[..slots]
  {
    hide Sealed, ReadSlot;
    if slots > 0 {
      SealedSlots(page, p, es, slots - 1);
      ReadBack(p, es, slots - 1);
    }
  }

  lemma SealedCount(p: RawPage, es: seq<Entry>)
    requires Sealed(p, es)
    ensures SlotCount(p) == |es|
  {
    UsedPrefix(es, 0);
    CountReads(p, |es|);
  }

  /** A scan of a well-formed file visits exactly its records, in scan order. */
  lemma {:induction false} ScanOfFile(file: seq<RawPage>, pages: seq<seq<Entry>>)
    requires |file| == |pages| && forall i :: 0 <= i < |file| ==> Sealed(file[i], pages[i])
    ensures FromPages(file) == Scan(pages)
  {
    hide Sealed, SlotCount;
    if file == [] {
    } else {
      var n := |file| - 1;
      ScanOfFile(file[..n], pages[..n]);
      SealedCount(file[n], pages[n]);
      SealedSlots(n, file[n], pages[n], |pages[n]|);
    }
  }

  lemma SlotsSoFar(pages: seq<RawPage>, p: PageNumber)
    requires p < |pages|
    ensures FromPages(pages[..p + 1]) == FromPages(pages[..p]) + FromSlots(p, pages[p], SlotCount(pages[p]))
  {
    assert pages[..p + 1][..p] == pages[..p];
  }
}
