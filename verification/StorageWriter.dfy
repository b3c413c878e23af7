/** The page-file writer: one page buffer filled in place and appended to the file when full. */
module StorageWriter {
  import opened Bytes
  import opened SlottedPage
  import opened Packing

  /** The database file, which outlives the sessions that append to it. Page writes are whole. */
  class PageFile {
    var pages: seq<RawPage>

    constructor ()
      ensures pages == []
    {
      pages := [];
    }
  }

  /** A page-sized byte buffer overwritten in place; `image` is what it reads as. */
  class PageBuffer {
    const data: array<byte>
    ghost var image: RawPage

    ghost predicate Valid()
      reads this, data
    {
      data.Length == PAGE_SIZE && data[..] == image
    }

    constructor ()
      ensures Valid() && fresh(data)
    {
      data := new byte[PAGE_SIZE](_ => 0);
      image := seq(PAGE_SIZE, _ => 0);
    }

    /** `memset(page, 0, PAGE_SIZE)`. */
    method Zero()
      requires Valid()
      modifies this, data
      ensures Valid() && forall i :: 0 <= i < PAGE_SIZE ==> image[i] == 0
    {
      for i := 0 to PAGE_SIZE
        modifies data
        invariant forall j :: 0 <= j < i ==> data[j] == 0
      {
        data[i] := 0;
      }
      image := data[..];
    }

    /** `memcpy(page + offset, bytes, |bytes|)`. */
    method Copy(offset: nat, bytes: seq<byte>)
      requires Valid() && offset + |bytes| <= PAGE_SIZE
      modifies this, data
      ensures Valid() && image == Splice(old(image), offset, bytes)
    {
      for i := 0 to |bytes|
        modifies data
        invariant forall j :: 0 <= j < i ==> data[offset + j] == bytes[j]
        invariant forall j :: 0 <= j < PAGE_SIZE && !(offset <= j < offset + i) ==> data[j] == image[j]
      {
        data[offset + i] := bytes[i];
      }
      assert data[..] == Splice(image, offset, bytes);
      image := Splice(image, offset, bytes);
    }

    /** The page as one `write` of it would send it. */
    method Bytes() returns (p: RawPage)
      requires Valid()
      ensures p == image
    {
      p := data[..];
    }
  }

  class StorageWriter {
    const file: PageFile
    const page: PageBuffer
    var currentPageId: nat
    var slotCount: nat
    var freeOffset: nat
    /** The records behind the bytes: pages on the file and the page being filled. */
    ghost var state: Packing

    ghost predicate BufferHolds()
      reads this, page, page.data
    {
      && page.Valid() && Packed(state.current)
      && slotCount == |state.current| && freeOffset == FreeOffset(state.current)
      && Holds(page.image, state.current) && Stamped(page.image, currentPageId)
    }

    ghost predicate Valid()
      reads this, file, page, page.data
    {
      && WellPacked(state)
      && currentPageId == |state.flushed|
      && FileHolds(file.pages, state.flushed)
      && BufferHolds()
    }

    /** Opens the file for appending: the first page written will be number |file.pages|. */
    constructor (file: PageFile, ghost pages: seq<seq<Entry>>)
      requires FileHolds(file.pages, pages) && forall es :: es in pages ==> Packed(es)
      ensures Valid() && this.file == file && fresh(page) && fresh(page.data)
      ensures state == Packing(pages, [])
    {
      this.file := file;
      page := new PageBuffer();
      currentPageId := |file.pages|;
      slotCount, freeOffset := 0, PAGE_SIZE;
      state := Packing(pages, []);
      new;
      ResetCurrentPage();
    }

    /** A zeroed page with a fresh header and no records. */
    method ResetCurrentPage()
      requires page.Valid()
      modifies this`slotCount, this`freeOffset, this`state, page, page.data
      ensures state == old(state).(current := []) && BufferHolds()
    {
      hide LittleEndian, PageBuffer.Valid;
      page.Zero();
      page.Copy(0, LittleEndian(PAGE_MAGIC, 4));
      page.Copy(4, LittleEndian(currentPageId, 4));
      page.Copy(8, LittleEndian(NO_PAGE, 4));
      slotCount := 0;
      freeOffset := PAGE_SIZE;
      state := state.(current := []);
      assert page.image[..4] == LittleEndian(PAGE_MAGIC, 4);
    }

    /** Puts a record into the page buffer if the buffer has room, and says in which slot. */
    method TryInsertInPage(e: Entry) returns (slot: Option<nat>)
      requires BufferHolds()
      modifies this`slotCount, this`freeOffset, this`state, page, page.data
      ensures BufferHolds()
      ensures slot.Some? <==> Packed(old(state.current) + [e])
      ensures slot.Some? ==> slot.value == |old(state.current)|
      ensures slot.Some? ==> state == old(state).(current := old(state.current) + [e])
      ensures slot.None? ==> state == old(state)
    {
      hide LittleEndian, RecordBytes, Used, Splice, Holds, Stamped, HasRoom, PageBuffer.Valid;
      PackingArithmetic(state.current, e);
      if !HasRoom(slotCount, freeOffset, e) {
        return None;
      }
      slot := Some(slotCount);
      var offset := (freeOffset - RecordSize(e)) % 65536;
      InsertedPage(page.image, state.current, e, offset, currentPageId);
      CopyRecord(offset, e);
      page.Copy(SlotsEnd(slotCount), LittleEndian(offset, 2) + LittleEndian(RecordSize(e), 2));
      slotCount := (slotCount + 1) % 65536;
      freeOffset := offset;
      state := state.(current := state.current + [e]);
    }

    lemma InsertedPage(p: RawPage, es: seq<Entry>, e: Entry, offset: nat, id: nat)
      requires Holds(p, es) && Stamped(p, id) && Packed(es + [e]) && offset == FreeOffset(es) - RecordSize(e)
      ensures SlotsEnd(|es| + 1) <= offset == FreeOffset(es + [e])
      ensures Holds(WithRecord(p, |es|, offset, e), es + [e]) && Stamped(WithRecord(p, |es|, offset, e), id)
    {
      hide Holds, Stamped, Used;
      OffsetsAfterInsert(es, e);
      assert (es + [e])[..|es| + 1] == es + [e];
      InsertHolds(p, es, e, offset);
      InsertKeepsStamp(p, |es|, offset, e, id);
    }

    /** The three copies of a record: header, key and value. */
    method CopyRecord(offset: nat, e: Entry)
      requires page.Valid() && offset + RecordSize(e) <= PAGE_SIZE
      modifies page, page.data
      ensures page.Valid() && page.image == Splice(old(page.image), offset, RecordBytes(e))
    {
      hide LittleEndian, Splice, PageBuffer.Valid;
      ghost var p := page.image;
      var header := [0] + LittleEndian(|e.key|, 2) + LittleEndian(|e.value|, 2);
      page.Copy(offset, header);
      page.Copy(offset + RECORD_HEADER_SIZE, e.key);
      page.Copy(offset + RECORD_HEADER_SIZE + |e.key|, e.value);
      SpliceTwice(p, offset, header, e.key);
      SpliceTwice(p, offset, header + e.key, e.value);
    }

    /** Seals the buffer with its slot count and appends it to the file. */
    method WritePageToDisk()
      requires BufferHolds() && FileHolds(file.pages, state.flushed) && currentPageId == |state.flushed|
      modifies page, page.data, file
      ensures page.Valid() && FileHolds(file.pages, state.flushed + [state.current])
      ensures old(file.pages) <= file.pages
    {
      hide LittleEndian, Sealed, Stamped, Holds, PageBuffer.Valid;
      SealHolds(page.image, state.current);
      SealKeepsStamp(page.image, |state.current|, currentPageId);
      page.Copy(PAGE_HEADER_SIZE, LittleEndian(slotCount, 2));
      var p := page.Bytes();
      file.pages := file.pages + [p];
    }

    /** Appends a record, starting a new page when the current one is full; None is the error
        "record too large", which leaves the full page written and an empty one current. */
    method Append(key: seq<byte>, value: seq<byte>) returns (r: Option<RecordId>)
      requires Valid()
      modifies this, page, page.data, file
      ensures Valid() && state == Appended(old(state), Entry(key, value)) && old(file.pages) <= file.pages
      ensures r.Some? <==> |key| + |value| <= MAX_PAYLOAD
      ensures r.Some? ==> state.current != [] && r.value == NewestRid(state)
    {
      hide Holds, Stamped, Sealed, PageBuffer.Valid;
      var e := Entry(key, value);
      AppendedWellPacked(state, e);
      ghost var w := state;
      var slot := TryInsertInPage(e);
      if slot.None? {
        WritePageToDisk();
        state := Packing(w.flushed + [w.current], w.current);
        currentPageId := currentPageId + 1;
        ResetCurrentPage();
        assert [] + [e] == [e];
        EmptyPageTakesIff(e);
        PackingArithmetic([], e);
        slot := TryInsertInPage(e);
        if slot.None? {
          return None;
        }
      } else {
        TooLargeNeverFits(w.current, e);
      }
      r := Some(RecordId(currentPageId, slot.value));
    }

    /** Writes out the page being filled, as the last thing a session does. */
    method Flush()
      requires Valid()
      modifies page, page.data, file
      ensures FileHolds(file.pages, Closed(state)) && old(file.pages) <= file.pages
    {
      hide Holds, Stamped, Sealed, PageBuffer.Valid;
      if slotCount > 0 || currentPageId == 0 {
        WritePageToDisk();
      }
    }
  }
}
