/** The hash index from keys to record ids. */
module Index {
  import opened Bytes
  import opened SlottedPage
  import opened Packing
  import opened EvictionPolicy
  import opened PagePool
  import opened PoolRuns
  import opened PageCache
  import opened StorageReader
  import opened Reading

  class Index {
    var entries: map<Key, RecordId>

    constructor ()
      ensures entries == map[]
    {
      entries := map[];
    }

    method Insert(key: Key, rid: RecordId)
      modifies this
      ensures entries == old(entries)[key := rid]
    {
      entries := entries[key := rid];
    }

    method Lookup(key: Key) returns (rid: Option<RecordId>)
      ensures rid == if key in entries then Some(entries[key]) else None
    {
      rid := if key in entries then Some(entries[key]) else None;
    }

    /** Clears the index and inserts every record of a scan, in scan order. */
    method Rebuild(reader: StorageReader, hint: WorkloadHint) returns (threw: bool)
      requires reader.engine.Valid()
      modifies this, reader.engine.cache, reader.engine.file, reader.engine.cache.Watchers()
      ensures var engine := reader.engine;
              && engine.Valid() && SameView(old(engine.State()), engine.State())
              && (Clean(old(engine.State())) ==> Clean(engine.State()) && engine.file.pages == old(engine.file.pages))
              && (engine.pageCount == 0 || Roomy(old(engine.State())) ==> !threw)
              && (engine.pageCount > 0 && old(engine.State()).frames == [] ==> threw)
              && (!threw ==> entries == IndexOf(FromPages(Views(old(engine.State()))[..engine.pageCount])))
    {
      hide PageCache.Valid, Clean, Roomy, View, PinOf;
      entries := map[];
      var delivered;
      delivered, threw := reader.Scan(hint);
      for i := 0 to |delivered|
        modifies this
        invariant entries == IndexOf(delivered[..i])
      {
        assert delivered[..i + 1][..i] == delivered[..i];
        Insert(delivered[i].entry.key, delivered[i].rid);
      }
      assert delivered[..|delivered|] == delivered;
    }
  }
}
