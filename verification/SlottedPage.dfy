/** The slotted page: 64 header bytes, a slot count, a slot array growing up, records growing down. */
module SlottedPage {
  import opened Bytes

  const PAGE_SIZE := 4096
  const PAGE_HEADER_SIZE := 64
  const SLOTS_START := 66
  const SLOT_SIZE := 4
  const RECORD_HEADER_SIZE := 5
  const PAGE_MAGIC := 0x41514144
  const NO_PAGE := 0xFFFFFFFF

  /** The largest |key| + |value| that an empty page takes. */
  const MAX_PAYLOAD := 4021

  type RawPage = p: seq<byte> | |p| == PAGE_SIZE witness seq(PAGE_SIZE, i => 0)

  datatype RecordId = RecordId(page: nat, slot: nat)

  function RecordSize(e: Entry): nat { RECORD_HEADER_SIZE + |e.key| + |e.value| }

  /** Meta byte, 16-bit key and value lengths, key, value. */
  function RecordBytes(e: Entry): (b: seq<byte>)
    ensures |b| == RecordSize(e)
  {
    [0] + LittleEndian(|e.key|, 2) + LittleEndian(|e.value|, 2) + e.key + e.value
  }

  function Used(es: seq<Entry>): nat {
    if es == [] then 0 else Used(es[..|es| - 1]) + RecordSize(es[|es| - 1])
  }

  function FreeOffset(es: seq<Entry>): int { PAGE_SIZE - Used(es) }

  function SlotsEnd(n: nat): nat { SLOTS_START + SLOT_SIZE * n }

  /** The slot array and the records do not meet. */
  predicate Packed(es: seq<Entry>) { SlotsEnd(|es|) <= FreeOffset(es) }

  predicate TooLarge(e: Entry) { |e.key| + |e.value| > MAX_PAYLOAD }

  /** `size_t` subtraction, which wraps below zero. */
  function SizeDifference(a: nat, b: nat): nat { (a - b) % TWO_64 }

  /** The writer's own test for room, in its unsigned arithmetic. */
  predicate HasRoom(slotCount: nat, freeOffset: nat, e: Entry) {
    SizeDifference(freeOffset, PAGE_HEADER_SIZE + (2 + slotCount * SLOT_SIZE)) >= SLOT_SIZE + RecordSize(e)
  }

  // ---------- what a page holds ----------

  function Offset(es: seq<Entry>, i: nat): int
    requires i < |es|
  {
    FreeOffset(es[..i + 1])
  }

  ghost predicate SlotHolds(p: RawPage, i: nat, offset: int, e: Entry) {
    && SlotsEnd(i + 1) <= offset && offset + RecordSize(e) <= PAGE_SIZE
    && p[SlotsEnd(i)..SlotsEnd(i) + 2] == LittleEndian(offset, 2)
    && p[SlotsEnd(i) + 2..SlotsEnd(i + 1)] == LittleEndian(RecordSize(e), 2)
    && p[offset..offset + RecordSize(e)] == RecordBytes(e)
  }

  ghost predicate Holds(p: RawPage, es: seq<Entry>) {
    Packed(es) && forall i :: 0 <= i < |es| ==> SlotHolds(p, i, Offset(es, i), es[i])
  }

  /** Magic, the page's own id, and no next page. */
  ghost predicate Stamped(p: RawPage, id: nat) {
    && p[..4] == LittleEndian(PAGE_MAGIC, 4)
    && p[4..8] == LittleEndian(id, 4)
    && p[8..12] == LittleEndian(NO_PAGE, 4)
  }

  /** A page as written to the file: it holds `es` and counts them. */
  ghost predicate Sealed(p: RawPage, es: seq<Entry>) {
    Holds(p, es) && p[PAGE_HEADER_SIZE..SLOTS_START] == LittleEndian(|es|, 2)
  }

  // ---------- packing arithmetic ----------

  lemma {:induction false} UsedPrefix(es: seq<Entry>, i: nat)
    requires i <= |es|
    ensures Used(es[..i]) + RECORD_HEADER_SIZE * (|es| - i) <= Used(es)
  {
    if i == |es| {
      assert es[..i] == es;
    } else {
      UsedPrefix(es[..|es| - 1], i);
      assert es[..|es| - 1][..i] == es[..i];
    }
  }

  /** The free-space subtraction never wraps, every quantity narrowed to 16 bits fits, and a record
      has room exactly when the slot array and the records still do not meet after it. */
  lemma {:induction false} PackingArithmetic(es: seq<Entry>, e: Entry)
    requires Packed(es)
    ensures PAGE_HEADER_SIZE + (2 + |es| * SLOT_SIZE) <= FreeOffset(es) <= PAGE_SIZE
    ensures HasRoom(|es|, FreeOffset(es), e) <==> Packed(es + [e])
    ensures |es| <= 447
    ensures HasRoom(|es|, FreeOffset(es), e) ==>
              && 0 <= FreeOffset(es) - RecordSize(e) < 65536 && RecordSize(e) < 65536
              && |e.key| < 65536 && |e.value| < 65536
  {
    assert (es + [e])[..|es|] == es;
    UsedPrefix(es, 0);
  }

  /** What packed means: the 66 bytes before the slots, four bytes a slot, and five bytes more than its key and
      value for each record come to no more than a page. */
  lemma {:induction false} PackedMeans(es: seq<Entry>, e: Entry)
    ensures Packed(es) <==> 66 + 4 * |es| + Used(es) <= 4096
    ensures Used([]) == 0 && Used(es + [e]) == Used(es) + 5 + |e.key| + |e.value|
    ensures Packed(es) && HasRoom(|es|, 4096 - Used(es), e) <==> Packed(es + [e])
  {
    assert (es + [e])[..|es|] == es;
    if Packed(es) {
      PackingArithmetic(es, e);
    }
  }

  /** An empty page takes a record exactly when its key and value are at most 4021 bytes together. */
  lemma {:induction false} EmptyPageTakesIff(e: Entry)
    ensures HasRoom(0, PAGE_SIZE, e) <==> !TooLarge(e)
  {
    assert FreeOffset([]) == PAGE_SIZE;
    PackingArithmetic([], e);
    assert ([] + [e])[..0] == [];
  }

  /** Record regions lie back to back below each other and above the slot array. */
  lemma {:induction false} RegionsDisjoint(es: seq<Entry>, i: nat, j: nat)
    requires Packed(es) && i < j < |es|
    ensures SlotsEnd(|es|) <= Offset(es, j)
    ensures Offset(es, j) + RecordSize(es[j]) <= Offset(es, i)
    ensures Offset(es, i) + RecordSize(es[i]) <= PAGE_SIZE
  {
    UsedPrefix(es, j + 1);
    assert es[..j + 1][..j] == es[..j] && es[..i + 1][..i] == es[..i];
    UsedPrefix(es[..j], i + 1);
    assert es[..j][..i + 1] == es[..i + 1];
  }

  // ---------- writing ----------

  lemma SpliceTwice(p: seq<byte>, offset: nat, a: seq<byte>, b: seq<byte>)
    requires offset + |a| + |b| <= |p|
    ensures Splice(Splice(p, offset, a), offset + |a|, b) == Splice(p, offset, a + b)
  {
  }

  /** The page after a record and its slot are copied in. */
  function WithRecord(p: RawPage, slot: nat, offset: nat, e: Entry): RawPage
    requires SlotsEnd(slot + 1) <= offset && offset + RecordSize(e) <= PAGE_SIZE
  {
    Splice(Splice(p, offset, RecordBytes(e)), SlotsEnd(slot), LittleEndian(offset, 2) + LittleEndian(RecordSize(e), 2))
  }

  /** A splice that touches neither a slot's four bytes nor its record leaves what the slot holds. */
  lemma SpliceKeepsSlot(p: RawPage, at: nat, data: seq<byte>, i: nat, offset: int, e: Entry)
    requires at + |data| <= PAGE_SIZE && SlotHolds(p, i, offset, e)
    requires at + |data| <= SlotsEnd(i) || SlotsEnd(i + 1) <= at
    requires at + |data| <= offset || offset + RecordSize(e) <= at
    ensures SlotHolds(Splice(p, at, data), i, offset, e)
  {
    SpliceElsewhere(p, at, data, SlotsEnd(i), SlotsEnd(i) + 2);
    SpliceElsewhere(p, at, data, SlotsEnd(i) + 2, SlotsEnd(i + 1));
    SpliceElsewhere(p, at, data, offset, offset + RecordSize(e));
  }

  lemma NewSlotHolds(p: RawPage, slot: nat, offset: nat, e: Entry)
    requires SlotsEnd(slot + 1) <= offset && offset + RecordSize(e) <= PAGE_SIZE
    ensures SlotHolds(WithRecord(p, slot, offset, e), slot, offset, e)
  {
    hide LittleEndian, RecordBytes;
    var q := Splice(p, offset, RecordBytes(e));
    var entry := LittleEndian(offset, 2) + LittleEndian(RecordSize(e), 2);
    var r := Splice(q, SlotsEnd(slot), entry);
    assert r[SlotsEnd(slot)..SlotsEnd(slot) + 4] == entry;
    assert r[SlotsEnd(slot)..SlotsEnd(slot) + 2] == entry[..2];
    assert r[SlotsEnd(slot) + 2..SlotsEnd(slot + 1)] == entry[2..];
    SpliceElsewhere(q, SlotsEnd(slot), entry, offset, offset + RecordSize(e));
  }

  /** Where records lie once `e` is added: the old ones stay, the new one goes just below them. */
  lemma OffsetsAfterInsert(es: seq<Entry>, e: Entry)
    requires Packed(es + [e])
    ensures SlotsEnd(|es| + 1) <= FreeOffset(es) - RecordSize(e) == Offset(es + [e], |es|)
    ensures forall i :: 0 <= i < |es| ==> Offset(es + [e], i) == Offset(es, i) >= FreeOffset(es)
  {
    var all, n := es + [e], |es|;
    assert all[..n] == es && all[..n + 1] == all;
    forall i | 0 <= i < n
      ensures Offset(all, i) == Offset(es, i) >= FreeOffset(es)
    {
      assert all[..i + 1] == es[..i + 1];
      UsedPrefix(es, i + 1);
    }
  }

  /** Inserting keeps every earlier record and adds the new one in the next slot. */
  lemma {:induction false} InsertHolds(p: RawPage, es: seq<Entry>, e: Entry, offset: nat)
    requires Holds(p, es) && Packed(es + [e])
    requires SlotsEnd(|es| + 1) <= offset == FreeOffset(es) - RecordSize(e)
    ensures Holds(WithRecord(p, |es|, offset, e), es + [e])
  {
    hide RecordBytes, LittleEndian, FreeOffset, SlotsEnd, RecordSize, Packed, WithRecord, Offset, SlotHolds;
    OffsetsAfterInsert(es, e);
    FreeWithinPage(es);
    var all, q := es + [e], WithRecord(p, |es|, offset, e);
    NewSlotHolds(p, |es|, offset, e);
    forall i | 0 <= i < |es|
      ensures SlotHolds(q, i, Offset(all, i), es[i])
    {
      EarlierSlotHolds(p, es, i, offset, e);
    }
    assert forall i :: 0 <= i < |es| ==> all[i] == es[i];
  }

  lemma FreeWithinPage(es: seq<Entry>)
    ensures FreeOffset(es) <= PAGE_SIZE
  {
  }

  lemma EarlierSlotHolds(p: RawPage, es: seq<Entry>, i: nat, offset: nat, e: Entry)
    requires i < |es| && SlotHolds(p, i, Offset(es, i), es[i]) && Offset(es, i) >= FreeOffset(es)
    requires SlotsEnd(|es| + 1) <= offset == FreeOffset(es) - RecordSize(e)
    ensures SlotHolds(WithRecord(p, |es|, offset, e), i, Offset(es, i), es[i])
  {
    hide RecordBytes, LittleEndian, Used, WithRecord, Offset, SlotHolds;
    OldSlotHolds(p, i, Offset(es, i), es[i], |es|, offset, e);
  }

  lemma OldSlotHolds(p: RawPage, i: nat, at: int, earlier: Entry, slot: nat, offset: nat, e: Entry)
    requires SlotHolds(p, i, at, earlier) && i < slot
    requires SlotsEnd(slot + 1) <= offset && offset + RecordSize(e) <= at
    ensures SlotHolds(WithRecord(p, slot, offset, e), i, at, earlier)
  {
    hide RecordBytes, LittleEndian;
    var q := Splice(p, offset, RecordBytes(e));
    SpliceKeepsSlot(p, offset, RecordBytes(e), i, at, earlier);
    SpliceKeepsSlot(q, SlotsEnd(slot), LittleEndian(offset, 2) + LittleEndian(RecordSize(e), 2), i, at, earlier);
  }

  lemma InsertKeepsStamp(p: RawPage, slot: nat, offset: nat, e: Entry, id: nat)
    requires SlotsEnd(slot + 1) <= offset && offset + RecordSize(e) <= PAGE_SIZE
    requires Stamped(p, id)
    ensures Stamped(WithRecord(p, slot, offset, e), id)
  {
    hide RecordBytes, LittleEndian;
    var q := Splice(p, offset, RecordBytes(e));
    assert WithRecord(p, slot, offset, e)[..12] == q[..12] == p[..12];
    assert forall r: RawPage :: r[..4] == r[..12][..4] && r[4..8] == r[..12][4..8] && r[8..12] == r[..12][8..12];
  }

  /** Writing the slot count seals the page. */
  lemma {:induction false} SealHolds(p: RawPage, es: seq<Entry>)
    requires Holds(p, es)
    ensures Sealed(Splice(p, PAGE_HEADER_SIZE, LittleEndian(|es|, 2)), es)
  {
    hide RecordBytes, LittleEndian;
    var count := LittleEndian(|es|, 2);
    forall i | 0 <= i < |es|
      ensures SlotHolds(Splice(p, PAGE_HEADER_SIZE, count), i, Offset(es, i), es[i])
    {
      SpliceKeepsSlot(p, PAGE_HEADER_SIZE, count, i, Offset(es, i), es[i]);
    }
  }

  lemma SealKeepsStamp(p: RawPage, n: nat, id: nat)
    requires Stamped(p, id)
    ensures Stamped(Splice(p, PAGE_HEADER_SIZE, LittleEndian(n, 2)), id)
  {
    hide LittleEndian;
    var q := Splice(p, PAGE_HEADER_SIZE, LittleEndian(n, 2));
    assert q[..12] == p[..12];
    assert q[..4] == q[..12][..4] && q[4..8] == q[..12][4..8] && q[8..12] == q[..12][8..12];
    assert p[..4] == p[..12][..4] && p[4..8] == p[..12][4..8] && p[8..12] == p[..12][8..12];
  }

  // ---------- reading ----------

  /** `LeavesPage` is a read past the page's last byte, which the program performs unchecked. */
  datatype ReadResult = Found(entry: Entry) | Missing | LeavesPage

  function ReadAt(p: RawPage, offset: nat): ReadResult
    requires offset < PAGE_SIZE
  {
    if p[offset] == 1 then Missing
    else if offset + RECORD_HEADER_SIZE > PAGE_SIZE then LeavesPage
    else
      var keyStart := offset + RECORD_HEADER_SIZE;
      var valueStart := keyStart + FromLittleEndian(p[offset + 1..offset + 3]);
      var end := valueStart + FromLittleEndian(p[offset + 3..offset + 5]);
      if end > PAGE_SIZE then LeavesPage
      else Found(Entry(p[keyStart..valueStart], p[valueStart..end]))
  }

  function ReadSlot(p: RawPage, slot: nat): ReadResult {
    if slot >= FromLittleEndian(p[PAGE_HEADER_SIZE..SLOTS_START]) then Missing
    else if SlotsEnd(slot + 1) > PAGE_SIZE then LeavesPage
    else
      var offset := FromLittleEndian(p[SlotsEnd(slot)..SlotsEnd(slot) + 2]);
      var length := FromLittleEndian(p[SlotsEnd(slot) + 2..SlotsEnd(slot + 1)]);
      if offset >= PAGE_SIZE || offset + length > PAGE_SIZE then Missing
      else ReadAt(p, offset)
  }

  lemma SubSlice(s: seq<byte>, lo: nat, hi: nat, a: nat, b: nat)
    requires lo <= hi <= |s| && a <= b <= hi - lo
    ensures s[lo..hi][a..b] == s[lo + a..lo + b]
  {
    var x, y := s[lo..hi][a..b], s[lo + a..lo + b];
    assert |x| == |y| && forall i :: 0 <= i < |x| ==> x[i] == y[i];
  }

  lemma RecordFields(p: RawPage, offset: nat, e: Entry)
    requires offset + RecordSize(e) <= PAGE_SIZE
    requires p[offset..offset + RecordSize(e)] == RecordBytes(e)
    ensures p[offset] == 0
    ensures p[offset + 1..offset + 3] == LittleEndian(|e.key|, 2)
    ensures p[offset + 3..offset + 5] == LittleEndian(|e.value|, 2)
    ensures p[offset + 5..offset + 5 + |e.key|] == e.key
    ensures p[offset + 5 + |e.key|..offset + RecordSize(e)] == e.value
  {
    hide LittleEndian;
    var r, end := p[offset..offset + RecordSize(e)], RecordSize(e);
    assert r[0] == p[offset];
    SubSlice(p, offset, offset + end, 1, 3);
    SubSlice(p, offset, offset + end, 3, 5);
    SubSlice(p, offset, offset + end, 5, 5 + |e.key|);
    SubSlice(p, offset, offset + end, 5 + |e.key|, end);
    RecordSlices(LittleEndian(|e.key|, 2), LittleEndian(|e.value|, 2), e.key, e.value);
  }

  lemma RecordSlices(k: seq<byte>, v: seq<byte>, key: seq<byte>, value: seq<byte>)
    requires |k| == 2 && |v| == 2
    ensures var r := [0] + k + v + key + value;
            && |r| == 5 + |key| + |value| && r[0] == 0 && r[1..3] == k && r[3..5] == v
            && r[5..5 + |key|] == key && r[5 + |key|..5 + |key| + |value|] == value
  {
    var r := [0] + k + v + key + value;
    var head := [0] + k + v;
    assert r == head + key + value && head[1..3] == k && head[3..5] == v;
    assert r[1..3] == head[1..3] && r[3..5] == head[3..5];
  }

  /** Round trip: the reader finds each record of a sealed page in its slot, finds nothing in any
      other slot, and never leaves the page. */
  lemma {:induction false} ReadBack(p: RawPage, es: seq<Entry>, slot: nat)
    requires Sealed(p, es)
    ensures ReadSlot(p, slot) == if slot < |es| then Found(es[slot]) else Missing
  {
    UsedPrefix(es, 0);
    assert |es| < 65536;
    CountReads(p, |es|);
    if slot < |es| {
      assert SlotHolds(p, slot, Offset(es, slot), es[slot]);
      hide LittleEndian, FromLittleEndian, RecordBytes, Used;
      SlotReads(p, slot, Offset(es, slot), es[slot]);
    }
  }

  lemma CountReads(p: RawPage, n: nat)
    requires p[PAGE_HEADER_SIZE..SLOTS_START] == LittleEndian(n, 2) && n < 65536
    ensures FromLittleEndian(p[PAGE_HEADER_SIZE..SLOTS_START]) == n
  {
    Field16(n);
  }

  lemma SlotReads(p: RawPage, slot: nat, offset: int, e: Entry)
    requires SlotHolds(p, slot, offset, e)
    requires slot < FromLittleEndian(p[PAGE_HEADER_SIZE..SLOTS_START])
    ensures ReadSlot(p, slot) == Found(e)
  {
    hide LittleEndian, FromLittleEndian, RecordBytes, ReadAt;
    Field16(offset);
    Field16(RecordSize(e));
    RecordReads(p, offset, e);
  }

  lemma RecordReads(p: RawPage, offset: nat, e: Entry)
    requires offset + RecordSize(e) <= PAGE_SIZE
    requires p[offset..offset + RecordSize(e)] == RecordBytes(e)
    ensures ReadAt(p, offset) == Found(e)
  {
    hide LittleEndian, FromLittleEndian, RecordBytes;
    Field16(|e.key|);
    Field16(|e.value|);
    RecordFields(p, offset, e);
  }

  // ---------- the bytes themselves ----------

  lemma OffsetsFollow(es: seq<Entry>, i: nat)
    requires i < |es|
    ensures Offset(es, i) + RecordSize(es[i]) == if i == 0 then PAGE_SIZE else Offset(es, i - 1)
  {
    hide RecordSize;
    var more, before := es[..i + 1], es[..i];
    assert more[..i] == before && more[i] == es[i];
    assert Used(more) == Used(before) + RecordSize(es[i]);
    if i == 0 {
      assert before == [];
    }
  }

  lemma OffsetInPage(es: seq<Entry>, i: nat)
    requires Packed(es) && i < |es|
    ensures SlotsEnd(|es|) <= Offset(es, i) && |es| <= 1008
  {
    UsedPrefix(es, i + 1);
    UsedPrefix(es, 0);
    hide RecordSize;
  }

  /** Where a written page has what: the slot count in two bytes from 64, then four bytes a slot with the
      offset and the size of its record, each low byte first. A record is a zero byte, its two lengths, key
      and value. Records lie back to back, the first one at the end of the page. */
  lemma {:induction false} PageLayout(p: RawPage, es: seq<Entry>, i: nat)
    requires Sealed(p, es) && i < |es|
    ensures FromLittleEndian(p[64..66]) == |es| && 66 + 4 * |es| <= 4096
    ensures FromLittleEndian(p[68 + 4 * i..70 + 4 * i]) == 5 + |es[i].key| + |es[i].value|
    ensures var at := FromLittleEndian(p[66 + 4 * i..68 + 4 * i]);
            var end := at + 5 + |es[i].key| + |es[i].value|;
            && 66 + 4 * |es| <= at && end <= 4096
            && end == (if i == 0 then 4096 else FromLittleEndian(p[62 + 4 * i..64 + 4 * i]))
            && p[at] == 0
            && FromLittleEndian(p[at + 1..at + 3]) == |es[i].key|
            && FromLittleEndian(p[at + 3..at + 5]) == |es[i].value|
            && p[at + 5..at + 5 + |es[i].key|] == es[i].key && p[at + 5 + |es[i].key|..end] == es[i].value
  {
    hide LittleEndian, FromLittleEndian, RecordBytes, Used, Offset, Packed;
    OffsetInPage(es, i);
    CountReads(p, |es|);
    SlotBytes(p, es, i);
    OffsetsFollow(es, i);
    if i > 0 {
      SlotBytes(p, es, i - 1);
    }
    RecordBytesAt(p, Offset(es, i), es[i]);
  }

  lemma SlotBytes(p: RawPage, es: seq<Entry>, i: nat)
    requires Holds(p, es) && i < |es|
    ensures SlotsEnd(|es|) <= Offset(es, i) && Offset(es, i) + RecordSize(es[i]) <= PAGE_SIZE
    ensures FromLittleEndian(p[SlotsEnd(i)..SlotsEnd(i) + 2]) == Offset(es, i)
    ensures FromLittleEndian(p[SlotsEnd(i) + 2..SlotsEnd(i) + 4]) == RecordSize(es[i])
    ensures p[Offset(es, i)..Offset(es, i) + RecordSize(es[i])] == RecordBytes(es[i])
  {
    hide LittleEndian, FromLittleEndian, RecordBytes, Used, Offset, Packed, RecordSize;
    assert SlotHolds(p, i, Offset(es, i), es[i]);
    OffsetInPage(es, i);
    SlotFields(p, i, Offset(es, i), es[i]);
  }

  lemma SlotFields(p: RawPage, i: nat, offset: int, e: Entry)
    requires SlotHolds(p, i, offset, e)
    ensures FromLittleEndian(p[SlotsEnd(i)..SlotsEnd(i) + 2]) == offset
    ensures FromLittleEndian(p[SlotsEnd(i) + 2..SlotsEnd(i) + 4]) == RecordSize(e)
  {
    hide LittleEndian, FromLittleEndian, RecordBytes;
    Field16(offset);
    Field16(RecordSize(e));
  }

  lemma RecordBytesAt(p: RawPage, at: nat, e: Entry)
    requires at + RecordSize(e) <= PAGE_SIZE && p[at..at + RecordSize(e)] == RecordBytes(e)
    ensures p[at] == 0
    ensures FromLittleEndian(p[at + 1..at + 3]) == |e.key| && FromLittleEndian(p[at + 3..at + 5]) == |e.value|
    ensures p[at + 5..at + 5 + |e.key|] == e.key && p[at + 5 + |e.key|..at + 5 + |e.key| + |e.value|] == e.value
  {
    hide LittleEndian, FromLittleEndian, RecordBytes;
    RecordFields(p, at, e);
    Field16(|e.key|);
    Field16(|e.value|);
  }

  /** The first twelve bytes of a stamped page: "DAQA", its own number, and no next page. */
  lemma {:induction false} StampLayout(p: RawPage, id: nat)
    requires Stamped(p, id) && id < 0x1_0000_0000
    ensures p[0] == 0x44 && p[1] == 0x41 && p[2] == 0x51 && p[3] == 0x41
    ensures FromLittleEndian(p[4..8]) == id && FromLittleEndian(p[8..12]) == 0xFFFF_FFFF
  {
    PowersUsed();
    DecodeEncode(PAGE_MAGIC, 4);
    DecodeEncode(id, 4);
    DecodeEncode(NO_PAGE, 4);
    hide LittleEndian, FromLittleEndian;
    FourBytes(p[..4]);
    assert p[..4][0] == p[0] && p[..4][1] == p[1] && p[..4][2] == p[2] && p[..4][3] == p[3];
  }

  /** What the reader makes of any page whatever: nothing from the slot count on, nothing where the slot
      leads out of the page, nothing where the record's first byte is 1, and otherwise the key and value
      that the record's lengths say. */
  lemma {:induction false} AnyPageReads(p: RawPage, slot: nat)
    ensures slot >= FromLittleEndian(p[64..66]) ==> ReadSlot(p, slot) == Missing
    ensures slot < FromLittleEndian(p[64..66]) && 70 + 4 * slot <= 4096 ==>
              var at := FromLittleEndian(p[66 + 4 * slot..68 + 4 * slot]);
              && (at >= 4096 || at + FromLittleEndian(p[68 + 4 * slot..70 + 4 * slot]) > 4096 ==>
                    ReadSlot(p, slot) == Missing)
              && (at < 4096 && at + FromLittleEndian(p[68 + 4 * slot..70 + 4 * slot]) <= 4096 ==>
                    && (p[at] == 1 ==> ReadSlot(p, slot) == Missing)
                    && (p[at] != 1 && at + 5 <= 4096 ==>
                          var k, v := FromLittleEndian(p[at + 1..at + 3]), FromLittleEndian(p[at + 3..at + 5]);
                          at + 5 + k + v <= 4096 ==>
                            ReadSlot(p, slot) == Found(Entry(p[at + 5..at + 5 + k], p[at + 5 + k..at + 5 + k + v]))))
  {
    hide FromLittleEndian, ReadAt;
    if slot < FromLittleEndian(p[64..66]) && 70 + 4 * slot <= 4096 {
      var at := FromLittleEndian(p[66 + 4 * slot..68 + 4 * slot]);
      if at < 4096 {
        AnyRecordReads(p, at);
      }
    }
  }

  lemma AnyRecordReads(p: RawPage, at: nat)
    requires at < 4096
    ensures p[at] == 1 ==> ReadAt(p, at) == Missing
    ensures p[at] != 1 && at + 5 <= 4096 ==>
              var k, v := FromLittleEndian(p[at + 1..at + 3]), FromLittleEndian(p[at + 3..at + 5]);
              at + 5 + k + v <= 4096 ==>
                ReadAt(p, at) == Found(Entry(p[at + 5..at + 5 + k], p[at + 5 + k..at + 5 + k + v]))
  {
    hide FromLittleEndian;
  }
}
