# Verified model of an adaptive key-value store

The store has two layers, and both are modelled as they are written: classes whose methods update
their fields in place, each proved against a value that says what the fields mean.

**The durable store.** A put goes to a checksummed log (`Wal`), to a slotted 4096-byte page
(`SlottedPage`, `StorageWriter`), to a hash index (`Index`) and to an LRU record cache (`LruCache`).
Opening replays the whole log into new pages and then rebuilds the index from the pages that were
there before (`Database`). `Store` is this protocol as a state machine over histories: each process
opens, runs puts and gets, and ends in a clean close, a crash between operations, a crash inside a
put after its record was logged, or a crash while opening. The theorems are about every history.
`Database` proves that the code on real bytes makes exactly the state machine's steps, and
`Sessions` runs whole histories of processes on those bytes.

**The buffer pool.** `PagePool` is the pool as a value; `PoolRuns` runs it with handles and proves
it invisible over a plain array of pages; `PageCache` is the class with its frames, pin counts, page
map, list, iterators and free list, each operation proved to be the pool's step. `ScanRuns`
interleaves a scan with prefetch threads as atomic steps, `Observer` is the ring and its count map,
`EvictionPolicy` and `LearnedDrift` are the policies, `LruPool` and `Recency` the recency theorems.
`LeafPage` is the B+ tree leaf.

## What the theorems say about the code

- Durability needs its conditions. With a record cache smaller than the number of keys, a crash can
  bring a replaced value back: recovery clears the index that replay built (src/db/database.cpp:47-53).
  `StaleReads.StaleReadAfterCrash` is such a history and `StaleReads.NoStaleReadsIff` says exactly when
  it cannot happen.
- A value put in this session reads as absent once the record cache drops it, because the engine's
  page count is taken at opening (src/db/database.cpp:24-26, src/storage/storage_reader.cpp:31-33).
  `StaleReads.ValueMissingAfterPut` is such a session and `ExactReads.ExactReadIff` gives the exact
  condition for every key, on every store that a history of puts that fit can leave.
- An oversized put is logged before the writer rejects it (src/db/database.cpp:66-68), with its lengths
  narrowed to 16 bits (src/wal/wal_manager.cpp:42-51). Below 65536 bytes the database then never opens
  again: `LongRecords.OversizedPutEndsTheStore`, `LongRecords.OneByteTooMany`, `Store.NeverOpensAgain`.
  From there on it depends on the bytes that narrowing drops: if they add up to zero modulo 2^32 the rest
  of the record is replayed as if it had been put, otherwise every later replay stops at it and what is
  logged afterwards is lost. `Store.OpensAgainIff` and `Store.OpensAfterPutIff` give the exact condition,
  `Wal.ReplayOfAll` what a replay gives back, and `LongRecords.LongValues` an input of each kind.
- A crash while opening can bring an outdated value back with nothing put, because replay writes the log's
  first records after its last ones: `Endings.DyingBringsBack`. `Endings.UpToDateAfterIff` and
  `Endings.FreshAfterIff` say exactly what each ending leaves.
- Detached prefetches of a small pool can make a scan, and so the opening of a database, throw:
  `ScanRuns.PrefetchFillsOneFrame`, with the exact condition in `ScanRuns.ScannerThrowsIff`.
- `get_recent_page_accesses(n)` returns the oldest `n` events of the window; docs/access-observer.md:21
  says the last `n`. `Observer.OldestIsNotNewest` shows a window where they differ and
  `Observer.OldestAreNewestIff` says when they agree. Every policy asks for the whole window.
- The learned policy's label asks whether the evicted page is still in the window;
  docs/learned-eviction.md:19 says reused since eviction. `LearnedDrift.DefaultsMislabel` shows them
  apart and `LearnedDrift.FeedbackLearnsReuseIff` says when they are the same.

Reads past a page's end that the program performs unchecked appear as the result `LeavesPage`;
`SlottedPage.ReadBack` shows that no page the writer produced leads there. Errors are results: null or
None for "buffer pool full", false or None for "record too large", a null database for a failed open.

## Model

| member | source | states |
|---|---|---|
| Store.Durability | src/db/database.cpp:21-91 | After any history of clean closes and crashes (between operations, inside a put, inside an open), with a record cache as large as the number of keys put and not rejected, the next open succeeds and after any puts, rejected or not, and gets every read gives the last value put for its key, and nothing for a key never put |
| Store.RejectedPutInvisible | src/db/database.cpp:66-71 | A rejected put leaves index and record cache as they were and changes what no key reads as |
| Store.RejectedPutsInvisible | src/db/database.cpp:63-91 | No read of a session can tell whether its rejected puts were made |
| Store.IndexKeys | src/db/database.cpp:31-53 | After any run the index has exactly the keys of the pages found at opening, or of the whole log if there were none, and of the puts not rejected |
| Store.RecordCountIs | src/db/database.cpp:99-102 | The record count is the number of those keys |
| Store.IndexHasEveryKey | src/db/database.cpp:99-102 | After a clean close, or on nothing, the index has every key put and not rejected, and the record count is their number |
| Store.IndexLocatesPuts | src/db/database.cpp:66-71 | The index locates the last record of each key put in the session, and of each key replayed into a file without pages, even where the session cannot read it yet |
| Store.ReadablePages | src/db/database.cpp:24-26 | All through a session the readable pages are those found at opening |
| Store.ScanIsUpToDate | src/db/database.cpp:93-97 | After a clean close, or on nothing, the last values among the records that a scan can see are those put |
| Store.ExactAfterCleanClose | src/db/database.cpp:31-53 | After any history that ends in a clean close, reads just after the next open are exact for every key and every record-cache capacity |
| Store.CloseCatchesUp | src/db/database.cpp:31-42 | One clean close brings the last-writer-wins contents of the page file, in scan order, up to those of the log, although every open wrote the whole log out again |
| Store.HistoryKeepsSound | src/db/database.cpp:21-91 | Over any history no logged record is lost or reordered, pages stay packed, and no page holds a key the log lacks |
| Store.ProcessKeepsSound | src/db/database.cpp:21-91 | The same for one process and each of its four endings |
| Store.ValueAfterOpen | src/db/database.cpp:47-91 | What a read gives just after opening: the last put for the most recently logged keys that fit the record cache, the page file's value for all others |
| Store.ExactAfterOpenIff | src/db/database.cpp:47-91 | A read just after opening is exact if and only if its key is among those most recent ones or the page file agrees with the log on it |
| Store.ReplayedCache | src/db/database.cpp:31-35 | Replaying a log leaves in the record cache exactly its most recent keys in recency order, each with its last value |
| Store.ReplayFacts | src/db/database.cpp:31-35 | Replaying appends the whole log after what the pages held and points every logged key at a page this session cannot read |
| Store.LookupAfterOpen | src/db/database.cpp:47-53 | Looking a key up through the rebuilt index gives the page file's last value for it |
| Store.OpensAgainIff | src/db/database.cpp:63-71 | An oversized put is logged before it is rejected, under narrowed lengths if they do not fit 16 bits: whatever a process puts, the store opens again if and only if replay already stopped in the log it found or all that a replay gives back of what it put fits pages |
| Store.OpensAfterPutIff | src/db/database.cpp:63-71 | One put among puts that fit: the store opens again if and only if replay stops at its record or what narrowing leaves of it fits a page |
| Store.StoppedLogStays | src/wal/wal_manager.cpp:68-98 | Once a record stops the replay, nothing put after it is ever replayed |
| Store.NeverOpensAgain | src/db/database.cpp:21-45 | A store that does not open never opens again and its log stays what it is, over any history of processes that try |
| Store.FailedOpenRecords | src/db/database.cpp:31-35 | A failed open adds to the page file exactly the log's records before the one that no page takes |
| Store.ProcessLogsPuts | src/db/database.cpp:63-71 | A process adds to the log exactly what it put, of whatever size, and nothing if it could not open |
| LongRecords.OversizedPutEndsTheStore | src/db/database.cpp:66-68 | On empty files, any oversized put shorter than 65536 bytes leaves a store that does not open |
| LongRecords.OneByteTooMany | src/storage/storage_writer.cpp:83-91 | A concrete put of 4022 bytes that does so |
| LongRecords.RejectedPutReturns | src/wal/wal_manager.cpp:42-51 | Any rejected put whose narrowed record survives the checksum and fits a page comes back, narrowed, at the next open |
| LongRecords.LaterPutIsLost | src/wal/wal_manager.cpp:87-93 | After any rejected put whose record stops the replay, any put that succeeded is lost in a crash although the database opens |
| LongRecords.LongValues | src/wal/wal_manager.cpp:42-51 | Concrete values of 65536 bytes for both: zeros come back as an empty value, ones lose what follows |
| StaleReads.NoStaleReads | src/db/database.cpp:63-91 | In every reachable state of a process that starts on nothing or after a clean close, whatever it puts, a read gives the last value put and not rejected or nothing, for any record-cache capacity |
| StaleReads.NoStaleReadsIff | src/db/database.cpp:47-91 | For every record-cache capacity a 64-bit size can hold: no session on a store ever returns an outdated value if and only if its page file holds no value that differs from the last one logged for its key |
| StaleReads.ReadIsExactIff | src/db/database.cpp:63-91 | On any sound store, after any crashes, and for any run with rejected puts or without: a key put in this session is read exactly if and only if it is cached, and as absent otherwise; any other key if and only if the page file agrees with the log or the record cache has held the key ever since opening, and as the page file has it otherwise |
| StaleReads.CacheIsExplained | src/cache/lru_cache.cpp:12-62 | A cached value is the last one put when its key was put in this session or never left the cache, and the page file's otherwise |
| ExactReads.ExactReadIff | src/db/database.cpp:63-91 | When a read is exact, computed from the log, the pages and the operations alone, of which rejected puts count for nothing: a key put in this session if and only if fewer keys than the cache holds were touched since it was; any other key if and only if the page file agrees with the log on it or that held all along |
| ExactReads.CacheFollowsTouched | src/cache/lru_cache.cpp:12-62 | After any run of puts and gets the record cache lists the most recently touched keys, in recency order |
| ExactReads.CachedIff | src/cache/lru_cache.cpp:12-62 | A key is cached if and only if fewer keys than the cache holds were touched since it was |
| Endings.UpToDateAfterIff | src/db/database.cpp:21-91 | Any of the four endings leaves the page file with the last value of every key if and only if the pages show every value that the ending left out of them |
| Endings.FreshAfterIff | src/db/database.cpp:21-91 | It leaves no outdated value there if and only if the pages have no other value for any key it left out of them |
| Endings.PagesAndUnflushed | src/storage/storage_writer.cpp:47-52 | Whatever the ending, the pages and the records it left out of them have the last values of the log |
| Endings.DyingBringsBack | src/db/database.cpp:31-45 | A crash while opening brings an outdated value back into an up-to-date page file with nothing put, for any two values of one key that need a page each |
| Endings.FourThousandBytes | src/storage/storage_writer.cpp:99-108 | Two concrete values of which each needs a page |
| StaleReads.ValueMissingAfterPut | src/storage/storage_reader.cpp:31-33 | A concrete session in which a value just put reads as absent |
| StaleReads.IndexAfterSteps | src/db/database.cpp:63-71 | Each put moves its key's index entry beyond the pages readable in this session, and no other entry moves |
| StaleReads.OldPageValueShows | src/db/database.cpp:47-91 | For every capacity, an outdated value in the page file becomes visible after as many puts of other keys as the record cache holds |
| StaleReads.StaleReadAfterCrash | src/db/database.cpp:47-53 | A concrete history, for every capacity: a clean close, an overwrite, a crash; the replaced value is then read again |
| Database.Database.Open | src/db/database.cpp:21-45 | Opening the bytes of a stored database, its prefetches running where they are started, succeeds if and only if every record the log bytes replay to fits a page (and the pool has a frame when there are pages), and gives the state that replay and recovery define; on failure the bytes hold what the replay wrote up to and including the failing record |
| Database.Database.Start | src/db/database.cpp:31-45 | Replay and then recovery, from the assembled parts to an open database or to what a failed open writes out |
| Database.Database.ReplayLog | src/db/database.cpp:31-35 | Replay re-appends every record that the log bytes give back, in order, and fails exactly when one of them fits no page |
| Database.Database.ReplayRecords | src/db/database.cpp:31-35 | Any number of replayed records moves pages, index and record cache as the state machine does, up to and including the first that fits no page |
| Database.LogReplays | src/wal/wal_manager.cpp:58-103 | The bytes of a log whose records were put, of whatever length, replay to what the state machine replays, and their numbers end at the record count |
| Database.Database.Recover | src/db/database.cpp:47-53 | Recovery leaves the index of a scan of the pages found at opening, discarding what replay inserted |
| Database.Database.Put | src/db/database.cpp:63-71 | A put of any length moves the state by one put step, its log bytes and page bytes with it, and reports "too large" exactly above 4021 bytes; then index and record cache are as before and every key reads as before |
| Database.Database.LogRecord | src/wal/wal_manager.cpp:36-56 | The first half of a put: exactly one record reaches the log, numbered one higher |
| Database.Database.Get | src/db/database.cpp:73-91 | A get returns exactly the value the state defines, changes only recency and cache contents, and writes nothing to the file |
| Database.Database.Find | src/db/database.cpp:80-88 | Index, page and key comparison together give the state's lookup |
| Database.Database.ReadRecord | src/storage/storage_reader.cpp:30-33 | Reading by record id through pool and bytes gives the record the packing has there, and nothing from the pages written since opening |
| Database.Database.ScanRecords | src/db/database.cpp:93-97 | A scan delivers every record of the pages found at opening, each under the id where it lies, none missing, with strictly increasing page and slot |
| Database.Database.RecordCount | src/db/database.cpp:99-102 | The record count is the number of keys in the index |
| Database.Database.Close | src/storage/storage_writer.cpp:47-52 | The destructor leaves bytes that hold the closed state |
| Database.Database.CrashPoint | src/db/database.cpp:63-71 | Wherever log and writer agree with the state, between operations and inside a put once its record is logged, the bytes hold what a crash leaves |
| Sessions.RunHistory | src/db/database.cpp:21-91 | Any history of processes on real bytes, from empty files on, whatever they put and whether they open or not, each ending in a clean close, a crash, a crash inside a put or a crash while opening: the bytes are those of the state machine after it. Wherever all puts of earlier processes fit pages and the record cache is as large as the number of keys put and not rejected, every get is answered with the last value put and not rejected |
| Sessions.RunProcess | src/db/database.cpp:21-91 | One such process, on any stored bytes, with puts of any length |
| Sessions.DieOpening | src/db/database.cpp:31-35 | A process that dies after replaying some records leaves the bytes that the state machine says |
| Wal.ReplayGivesBack | src/wal/wal_manager.cpp:36-103 | Replaying appended records gives back exactly those records, when their lengths fit 16 bits |
| Wal.LogLayout | src/wal/wal_manager.cpp:36-53 | The bytes of any record: checksum, number and the two narrowed lengths low byte first, then as much of key and value, with the checksum spelled out |
| Wal.HighestIsMaximum | src/wal/wal_manager.cpp:96 | After a replay the LSN is the greatest one visited, in whatever order they come |
| Wal.SumOfConcat | src/wal/wal_manager.cpp:30-31 | Byte sums add up over concatenation |
| Wal.SumOfRepeated | src/wal/wal_manager.cpp:30-31 | A repeated byte adds itself each time |
| Wal.XorBits | src/wal/wal_manager.cpp:24-27 | XOR bit by bit: the lowest bit is the parity of the lowest bits, the rest is the XOR of the rest |
| Wal.AppendedRecordSurvivesIff | src/wal/wal_manager.cpp:42-51 | One more record survives a replay if and only if both its lengths are below 65536 |
| Wal.ReplayOfOne | src/wal/wal_manager.cpp:36-98 | Any appended record, whatever its lengths, is read back with its key and value narrowed if the dropped bytes add up to zero modulo 2^32; otherwise replay stops there |
| Wal.ReplayOfAll | src/wal/wal_manager.cpp:36-98 | A log of any records replays to those records narrowed, up to the first that does not survive |
| Wal.ReplayedIff | src/wal/wal_manager.cpp:42-51 | Everything put is given back if and only if every key and value is shorter than 65536 bytes |
| Wal.LongValuesReplayed | src/wal/wal_manager.cpp:21-51 | Concrete values of 65536 bytes: zeros come back as an empty value, ones stop the replay |
| Wal.PrefixRecovery | src/wal/wal_manager.cpp:68-98 | Cut at any byte, a log replays to exactly the records wholly before the cut |
| Wal.CorruptionStops | src/wal/wal_manager.cpp:68-98 | Changing any one byte of a record's checksum, LSN, key or value makes replay deliver exactly the records before it |
| Wal.DamagedRecord | src/wal/wal_manager.cpp:21-34 | The XOR-then-sum checksum detects every such one-byte change, modulo 2^32 |
| Wal.XorInjective | src/wal/wal_manager.cpp:24-27 | Mixing loses nothing: XOR with a fixed word is injective |
| Wal.NextRecordIsNumbered | src/wal/wal_manager.cpp:36-103 | Sessions that replay before appending number the log 1..n: the next append extends a numbered log, and every replay finds them all |
| Wal.CalculateChecksum | src/wal/wal_manager.cpp:21-34 | The wrapping accumulator computes the folded LSN plus the byte sum modulo 2^32 |
| Wal.WalManager.Append | src/wal/wal_manager.cpp:36-56 | Appends exactly one encoded record with the next LSN |
| Wal.WalManager.Replay | src/wal/wal_manager.cpp:58-103 | Visits exactly the records before the first short or damaged one and raises the LSN to the highest seen |
| Wal.WalManager.ReadRecord | src/wal/wal_manager.cpp:69-93 | One turn of the reading loop decodes the record at the head of the remaining bytes, or reports that it is short or damaged |
| SlottedPage.PackingArithmetic | src/storage/storage_writer.cpp:99-133 | The unsigned free-space subtraction never wraps, 16-bit narrowings are lossless, and there is room exactly when slots and records still do not meet |
| SlottedPage.PackedMeans | src/storage/storage_writer.cpp:99-108 | What a page takes, in numbers: 66 bytes, four a slot, and five more than key and value for each record |
| SlottedPage.EmptyPageTakesIff | src/storage/storage_writer.cpp:83-91 | An empty page takes a record if and only if key and value are at most 4021 bytes together |
| SlottedPage.RegionsDisjoint | src/storage/storage_writer.cpp:96-138 | Record regions are pairwise disjoint, above the slot array and inside the page |
| SlottedPage.InsertHolds | src/storage/storage_writer.cpp:110-133 | An insert keeps every earlier slot and record byte for byte and adds its own |
| SlottedPage.SealHolds | src/storage/storage_writer.cpp:66-69 | Writing the slot count disturbs no record |
| SlottedPage.ReadBack | src/storage/storage_reader.cpp:30-70 | The reader finds exactly each record of a written page in its slot, nothing in any other slot, and never leaves the page |
| SlottedPage.PageLayout | src/storage/storage_writer.cpp:96-138 | Where a written page has what, byte by byte: slot count from byte 64, four bytes a slot, records back to back from the end of the page |
| SlottedPage.StampLayout | src/storage/storage_writer.cpp:54-59 | The first twelve bytes of a page: magic number, own number, no next page |
| SlottedPage.AnyPageReads | src/storage/storage_reader.cpp:38-69 | What the reader makes of any page whatever: missing slots, slots that lead out of the page and deleted records give nothing, any other record its key and value |
| Bytes.DecodeEncode | src/wal/wal_manager.cpp:45-48 | Little-endian fields decode to what was stored, when it fits |
| Bytes.TwoBytes | src/storage/storage_reader.cpp:17-20 | Two-byte fields have the low byte first |
| Bytes.FourBytes | src/wal/wal_manager.cpp:45 | Four-byte fields have the low byte first |
| Bytes.Field16 | src/storage/storage_writer.cpp:115-126 | A 16-bit field keeps exactly the low 16 bits |
| StorageWriter.StorageWriter.constructor | src/storage/storage_writer.cpp:26-45 | Opening on a page-aligned file continues at the page number equal to the file's page count |
| StorageWriter.StorageWriter.Append | src/storage/storage_writer.cpp:80-94 | Succeeds exactly up to 4021 bytes and returns the id under which the record then lies; earlier pages of the file are untouched |
| StorageWriter.StorageWriter.TryInsertInPage | src/storage/storage_writer.cpp:96-138 | Takes the record exactly when the page still packs with it; otherwise changes nothing |
| StorageWriter.StorageWriter.CopyRecord | src/storage/storage_writer.cpp:110-120 | The three copies write exactly the record's bytes in place |
| StorageWriter.StorageWriter.ResetCurrentPage | src/storage/storage_writer.cpp:54-64 | Leaves an empty stamped page |
| StorageWriter.StorageWriter.WritePageToDisk | src/storage/storage_writer.cpp:66-72 | Extends the file by one sealed page stamped with its own position |
| StorageWriter.StorageWriter.Flush | src/storage/storage_writer.cpp:74-78 | As a session's last act, leaves a file that holds every page written and the last partial one |
| Packing.AppendsReadBack | src/storage/storage_writer.cpp:80-94 | Over any run of appends, rejected ones included, each returned id read from the closed file gives exactly its record |
| Packing.ScanFollowsAppends | src/storage/storage_reader.cpp:72-96 | A scan of the closed file visits what was there and then the accepted appends in order, under the ids they returned |
| Packing.ScanIsOrdered | src/storage/storage_reader.cpp:72-90 | A scan visits strictly increasing (page, slot) ids, each locating its record |
| Packing.ScanIsComplete | src/storage/storage_reader.cpp:72-90 | A scan misses no record of the pages |
| Packing.NoPageTurnedEarly | src/storage/storage_writer.cpp:80-94 | Appends of records that fit turn no page while the next record has room on it |
| Packing.CloseWrites | src/storage/storage_writer.cpp:74-78 | A close writes the page being filled if it has a record, and one empty page for a file that would have none |
| Packing.RebuildEqualsIncremental | src/index/index.cpp:11-32 | Rebuilding the index by scan equals inserting each append's id as it happened |
| Packing.LookupIsLatest | src/index/index.cpp:15-32 | The rebuilt index has exactly the keys written and locates the last record of each |
| Packing.ReplayAbsorbs | src/db/database.cpp:31-35 | Replaying a whole log after any of its own records changes no last value |
| Reading.ScanOfFile | src/storage/storage_reader.cpp:72-90 | Decoding a well-formed file page by page gives exactly its records in scan order |
| StorageReader.StorageReader.ReadRecord | src/storage/storage_reader.cpp:30-70 | Gives what the page's bytes hold in the slot, as seen through the pool; throws exactly when the pool cannot fetch; leaves every page and pin count as it was |
| StorageReader.StorageReader.ScanPage | src/storage/storage_reader.cpp:76-95 | Delivers one page's records in slot order and releases its pin, asking for the page, for it again once for each slot, and for the pages ahead |
| StorageReader.StorageReader.ReadSlots | src/storage/storage_reader.cpp:79-94 | While the page is pinned every inner read succeeds, whatever the prefetches do |
| StorageReader.StorageReader.Scan | src/storage/storage_reader.cpp:72-96 | Delivers every page's records in order whenever some frame is not pinned, and asks for exactly the pages that the source asks for, in that order |
| StorageReader.StorageReader.PrefetchAhead | src/storage/storage_reader.cpp:92-94 | Asks for exactly the next two pages, as far as there are any, and changes no page and no pin count, once each prefetch has run to its end |
| Index.Index.Rebuild | src/index/index.cpp:23-32 | The index becomes that of the scan, through pool and bytes, whatever it held before |
| ScanRuns.ScanIgnoresPrefetch | src/storage/storage_reader.cpp:72-96 | For every interleaving of prefetch fetches and releases with a scan in which prefetches hold fewer pages than there are frames, the scan never throws and delivers the same records in the same order as the pages hold |
| ScanRuns.ScannerKeepsTrack | src/storage/storage_reader.cpp:72-96 | Each step of the scanning thread keeps its two handles, its position and what it has delivered in agreement |
| ScanRuns.PrefetchKeepsTrack | src/storage/storage_engine.cpp:21-32 | No prefetch step disturbs a scan in progress |
| ScanRuns.ScanCanFetch | src/storage/page_cache.cpp:73-78 | While fewer prefetches than frames hold pages, a scan holding none can always fetch |
| ScanRuns.ScannerThrowsIff | src/storage/page_cache.cpp:73-120 | A scan throws if and only if it comes to a page that is not cached while every frame holds a page pinned by a prefetch |
| ScanRuns.PrefetchFillsOneFrame | src/storage/storage_reader.cpp:92-94 | In a pool of one frame, one prefetch of another page makes the scan throw |
| PoolRuns.RunIsTransparent | src/storage/page_cache.cpp:9-162 | Over any run of fetches, handle moves, move assignments, drops, writes, flushes and allocations, for any policy returning a candidate: frames stay partitioned, pin counts equal live handles, live handles keep their frames, and the pages seen are those of a plain array |
| PoolRuns.StepIsTransparent | src/storage/page_cache.cpp:9-162 | The same for one step; after a full flush the disk equals the view |
| PoolRuns.FetchKeepsFrames | src/storage/page_cache.cpp:54-138 | A fetch never moves a pinned page out of its frame |
| PoolRuns.FetchingConsistent | src/storage/page_cache.cpp:48-90 | A fetch keeps pin counts equal to live handles and changes no page |
| PoolRuns.ReleasedConsistent | src/storage/page_cache.cpp:92-100 | Releasing a handle lowers exactly its page's pin count |
| PoolRuns.TransferredConsistent | src/storage/page_cache.cpp:18-34 | Moving a handle changes no pin count |
| PoolRuns.AllocatingConsistent | src/storage/storage_engine.cpp:34-47 | Allocation takes the next id, keeps every earlier page, and adds a stamped page, or a zero page if its fetch throws |
| PagePool.FetchKeeps | src/storage/page_cache.cpp:54-90 | A fetch keeps the pool structured and every page's view, raises one pin count by one, and a failing fetch changes only the miss counter |
| PagePool.FetchEffects | src/storage/page_cache.cpp:54-89 | A fetch counts one hit or one miss, makes its page the most recent, and lets go of no page but the victim it needs |
| PagePool.CandidatesOldestFirst | src/storage/page_cache.cpp:110-117 | Candidates come least recently used first |
| PagePool.FlushedKeeps | src/storage/page_cache.cpp:140-150 | Flushing one page makes the disk agree with the view there and changes the disk nowhere else |
| PagePool.FetchFailsIff | src/storage/page_cache.cpp:73-120 | A fetch fails if and only if its page is not cached and as many pages are pinned as there are frames |
| PagePool.FrameCount | src/storage/page_cache.cpp:36-46 | Mapped and free frames together number the capacity |
| PagePool.EvictedStructured | src/storage/page_cache.cpp:126-137 | Evicting an unpinned page keeps the structure, every pin count and every view |
| PagePool.LoadedStructured | src/storage/page_cache.cpp:80-89 | Loading a page into a free frame keeps the structure and every view |
| PagePool.FlushedAllKeeps | src/storage/page_cache.cpp:152-162 | A full flush makes disk and view equal and changes no view |
| PagePool.FetchAndDrop | src/storage/storage_engine.cpp:25-31 | Fetching a page and dropping the handle leaves every view and pin count as it was |
| PageCache.PageCache.FetchPage | src/storage/page_cache.cpp:48-52 | In place: the pool moves by exactly one fetch, the observer records it before a victim is chosen, and the victim is optimal for the policy over the real fetch trace, and a learned policy judges and remembers exactly then |
| PageCache.PageCache.GetPageInternal | src/storage/page_cache.cpp:54-90 | The same for the frame it returns; it fails exactly when the pool cannot fetch |
| PageCache.PageCache.Evict | src/storage/page_cache.cpp:109-138 | Writes the chosen page back, unmaps it, removes its iterator and its own list node, and gives up its frame |
| PageCache.PageCache.UnpinnedLru | src/storage/page_cache.cpp:110-117 | Collects exactly the unpinned pages, least recently used first |
| PageCache.PageCache.TouchPage | src/storage/page_cache.cpp:102-107 | Erasing through the stored iterator moves that page, and only it, to the front |
| PageCache.PageCache.UnpinPage | src/storage/page_cache.cpp:92-100 | Lowers one positive pin count and nothing else |
| PageCache.PageCache.FlushPage | src/storage/page_cache.cpp:140-150 | Makes the disk agree with the view at that page only |
| PageCache.PageCache.FlushAll | src/storage/page_cache.cpp:152-162 | Makes the disk agree with the view at every page, whatever the order of the page map |
| PageCache.PageHandle.Assign | src/storage/page_cache.cpp:23-34 | Move assignment unpins what was held, takes over, empties the source; self-assignment changes nothing |
| PageCache.PageHandle.Destroy | src/storage/page_cache.cpp:12-16 | Destruction unpins the handle's page once |
| PageCache.OffsetExactIff | src/storage/mapped_file.cpp:90-93 | The 32-bit page offset is exact if and only if the page number is below 2^20 |
| NodeList.TouchAgrees | src/storage/page_cache.cpp:102-107 | List and iterator table stay in agreement through a touch |
| NodeList.FindIsIterator | src/storage/page_cache.cpp:131-136 | The node that `std::find` finds for the victim is the one its erased iterator named |
| StorageEngine.StorageEngine.FetchPage | src/storage/storage_engine.cpp:13-19 | An out-of-bounds page is an error that changes nothing; otherwise one pool fetch, counted once and told to the observer |
| StorageEngine.StorageEngine.PrefetchPage | src/storage/storage_engine.cpp:21-32 | A prefetch makes one fetch and drops it: unless the pool is full of pinned pages, the page is then cached, the most recent, and pinned as before; one hit or miss is counted, the observer is told, and no view changes |
| StorageEngine.StorageEngine.AllocatePage | src/storage/storage_engine.cpp:34-47 | Gives the next consecutive id under a handle on its own frame, pinned once, and keeps every earlier page as seen |
| PoolRuns.NewPageIsStamped | src/storage/storage_engine.cpp:40-44 | A new page carries the magic number, its own id and no next page, and zeros after that |
| StorageEngine.StorageEngine.constructor | src/storage/storage_engine.cpp:8-11 | The page count is that of the file at construction, and the pool starts empty |
| LruPool.ResidentPages | src/storage/page_cache.cpp:54-138 | With no policy and each handle dropped before the next fetch, the resident pages are exactly the most recent distinct pages of the trace, in recency order |
| LruPool.LargerPoolHoldsMore | src/storage/page_cache.cpp:54-138 | On any trace a larger pool holds all a smaller one holds and never has fewer hits |
| Recency.StackInclusion | src/storage/page_cache.cpp:54-138 | Least-recently-used lists of growing capacity extend each other, and hits never fall |
| Recency.LruIsNewest | src/cache/lru_cache.cpp:27-62 | A bounded least-recently-used list holds exactly the most recent distinct elements of its trace |
| Recency.AmongNewestIff | src/cache/lru_cache.cpp:27-62 | An element is among the newest so many if and only if fewer distinct ones came after its last access |
| LruCache.LruCache.Get | src/cache/lru_cache.cpp:12-25 | Returns the cached value, moves its key to the front, counts a hit or a miss |
| LruCache.LruCache.Put | src/cache/lru_cache.cpp:27-62 | List, iterators and map together become those of one bounded insertion, evicting the policy's index (index 0 when out of range) |
| LruCache.LruCache.Evict | src/cache/lru_cache.cpp:37-58 | Removes exactly the victim from list and map |
| LruCache.LruCache.PolicyDecides | src/cache/lru_cache.cpp:38-58 | A full cache lets go of the one key that its policy names, counted from the least recently used, or of the oldest for an index out of range |
| LruCache.PutIsLruAccess | src/cache/lru_cache.cpp:27-62 | Without a policy an insertion is one access of the bounded recency list of keys |
| LruCache.PutAgrees | src/cache/lru_cache.cpp:30-35 | A cache that agrees with a map agrees with the updated map after an insertion, whatever is evicted |
| Observer.AccessObserver.RecordPageAccess | src/observer/access_observer.cpp:11-31 | Ring, head, size and count map stay the last-`capacity` window of the trace and its exact multiplicities |
| Observer.AccessObserver.GetRecentPageAccesses | src/observer/access_observer.cpp:37-51 | Returns the prefix of the window of length n, or all of it: its oldest accesses, oldest first |
| Observer.AccessObserver.GetRecentPageIds | src/observer/access_observer.cpp:53-61 | The pages of those accesses, in order |
| Observer.AccessObserver.GetAccessCount | src/observer/access_observer.cpp:68-72 | How often the page occurs in the window |
| Observer.AccessObserver.GetLastIndexInRecent | src/observer/access_observer.cpp:74-82 | The distance of the newest occurrence from the end; below the capacity exactly when the count is positive |
| Observer.ModDistinct | src/observer/access_observer.cpp:24-25 | Positions less than a ring apart never share a slot |
| Observer.OldestAreNewestIff | src/observer/access_observer.cpp:37-51 | For all traces with a window of m accesses, the oldest n are the newest n if and only if n is zero or at least m |
| Observer.OldestIsNotNewest | src/observer/access_observer.cpp:45-48 | A window of two accesses whose oldest one is not its newest one |
| Observer.OldestForgotten | src/observer/access_observer.cpp:13-23 | Decrementing the overwritten page's count keeps the map exact |
| EvictionPolicy.ChooseVictim | src/cache/eviction_policy.cpp:9-114 | Every policy returns one of its candidates, the first least in its own order; spelled out for each policy and both hints over the window: no candidate occurs less often, a neighbour of a recent page goes first, or the least recently used |
| EvictionPolicy.LeastFrequentIff | src/cache/eviction_policy.cpp:42-50 | The occurrence order means the earliest of the candidates that occur least often in the window |
| EvictionPolicy.FirstOfRunIff | src/cache/eviction_policy.cpp:25-29 | The run order means the earliest candidate with a neighbour in the window, or the first if none has |
| EvictionPolicy.RarestOfRunIff | src/cache/eviction_policy.cpp:64-83 | The combined order means the earliest of the rarest candidates with a neighbour, or of all if none has |
| EvictionPolicy.LowestSumIff | src/cache/eviction_policy.cpp:161-174 | The score order means the earliest candidate of the lowest weighted sum |
| EvictionPolicy.ScoreIsSum | src/cache/eviction_policy.cpp:135-137 | The score is each weight times its feature, added up |
| EvictionPolicy.RunMeansNeighbour | src/cache/eviction_policy.cpp:26 | A page is in a run when the next page number, wrapping at 2^32, or the previous one is in the window |
| EvictionPolicy.RecencyMeans | src/cache/eviction_policy.cpp:125-126 | The recency feature is one over one more than the accesses since the page's last |
| EvictionPolicy.CountMeans | src/cache/eviction_policy.cpp:127-128 | The count feature is the page's share of the window |
| EvictionPolicy.ScanMeans | src/cache/eviction_policy.cpp:129-131 | The scan feature says whether the page has a neighbour in the window |
| EvictionPolicy.NudgeMeans | src/cache/eviction_policy.cpp:139-144 | Reuse raises each weight by the rate times its feature, no reuse lowers it by as much |
| EvictionPolicy.FirstLeastIsUnique | src/cache/eviction_policy.cpp:35-51 | The first least candidate is unique, so the orders determine the victim |
| EvictionPolicy.LfuVictim | src/cache/eviction_policy.cpp:35-51 | No candidate occurs less often in the window than the victim, and every earlier one occurs more often |
| EvictionPolicy.ScanResistantVictim | src/cache/eviction_policy.cpp:17-30 | The earliest candidate whose next or previous page was accessed lately, else the least recently used one |
| EvictionPolicy.ScanResistantThenLfuVictim | src/cache/eviction_policy.cpp:56-84 | If any candidate has a neighbour in the window the victim has; among those alike none occurs less often, and every earlier one occurs more often |
| EvictionPolicy.RunsThenLeast | src/cache/eviction_policy.cpp:64-83 | Filtering to runs and then taking the least occurrences is the lexicographic least of all candidates |
| EvictionPolicy.ExtractFeatures | src/cache/eviction_policy.cpp:121-133 | Recency, count and scan features come from the exact window |
| EvictionPolicy.FeaturesOf | src/cache/eviction_policy.cpp:121-133 | Every feature lies between 0 and 1 |
| EvictionPolicy.LowestScored | src/cache/eviction_policy.cpp:161-174 | The first candidate of lowest score, with its features |
| EvictionPolicy.LearnedPolicy.ChooseVictim | src/cache/eviction_policy.cpp:146-180 | Due feedback is applied first, then the lowest score under the new weights is evicted and remembered |
| EvictionPolicy.LearnedPolicy.ApplyFeedback | src/cache/eviction_policy.cpp:151-159 | Feedback comes only a horizon after the eviction, labelled by presence in the window |
| LearnedDrift.DriftBound | src/cache/eviction_policy.cpp:139-159 | Over any run every weight stays within |rate| times (accesses recorded / horizon) of its start |
| LearnedDrift.DriftPerUpdate | src/cache/eviction_policy.cpp:139-159 | Updates are at least a horizon of accesses apart and each moves a weight by at most |rate| |
| LearnedDrift.FeedbackLearnsReuseIff | src/cache/eviction_policy.cpp:151-178 | Feedback a number of accesses after an eviction teaches the policy whether the page was requested since, for every continuation, if and only if at most a window has passed and the recency feature stored at the eviction is at most 1 / (1 + capacity - that number) |
| LearnedDrift.LabelAlwaysRightIff | src/cache/eviction_policy.cpp:154-155 | The label is right for every continuation if and only if at most a window has passed and the evicted page was not among the newest accesses that the window still keeps |
| LearnedDrift.LabelRightThroughPoolIff | src/storage/page_cache.cpp:67-78 | For victims of a pool, which are never the page just missed, it is right in all cases if and only if feedback comes one window, or one access less, after the eviction |
| LearnedDrift.DefaultsMislabel | src/cache/eviction_policy.cpp:151-158 | With the default window and horizon, a page that was not requested again is labelled reused |
| LearnedDrift.LateLabel | src/cache/eviction_policy.cpp:154-155 | After more accesses than the window holds, the label speaks of the newest of them only |
| LearnedDrift.FeedbackDueIff | src/cache/eviction_policy.cpp:151-158 | An eviction is judged once the horizon's number of accesses has followed it, and until then nothing changes |
| LearnedDrift.Evictions | src/cache/eviction_policy.cpp:146-180 | A run of the policy over an observer: each eviction is the one determined by the accesses so far, with its window, length, features and the first least candidate under the weights after feedback; the weights stay within the drift bound |
| LearnedDrift.OneEviction | src/cache/eviction_policy.cpp:146-180 | One round of it |
| LeafPage.LeafPage.Init | src/storage/page/b_plus_tree_leaf_page.cpp:10-23 | A fresh leaf is empty; a size of zero means 508 pairs, as many as the page has room for |
| LeafPage.LeafPage.KeyIndex | src/storage/page/b_plus_tree_leaf_page.cpp:36-44 | The position that splits the leaf into smaller keys and the others |
| LeafPage.LeafPage.Insert | src/storage/page/b_plus_tree_leaf_page.cpp:62-85 | Rejects exactly a full page or a present key and changes nothing; otherwise keeps the array sorted and adds exactly the pair |
| LeafPage.LeafPage.Shift | src/storage/page/b_plus_tree_leaf_page.cpp:76-78 | The shifting loop opens a gap and moves nothing else |
| LeafPage.WithMap | src/storage/page/b_plus_tree_leaf_page.cpp:76-80 | Inserting a pair with a new key adds exactly that pair to the leaf's map |
| LeafPage.SortedIsUnique | src/storage/page/b_plus_tree_leaf_page.cpp:62-85 | A set of pairs has one sorted leaf |
| LeafPage.OrderDoesNotMatter | src/storage/page/b_plus_tree_leaf_page.cpp:62-85 | Sorted leaves that distinct pairs in any two orders lead to are equal |
| LeafPage.InsertEach | src/storage/page/b_plus_tree_leaf_page.cpp:62-85 | A run of insertions leaves the map that each in turn would have made, first values staying and full pages rejecting |
| LeafPage.InsertInTwoOrders | src/storage/page/b_plus_tree_leaf_page.cpp:62-85 | Two fresh leaves given the same distinct pairs in any two orders end up equal |

## Left out

- mmap, msync, ftruncate, descriptors and streams: the page file is a growable sequence of pages and the log a byte sequence; writes take effect when made.
- Torn page writes, files that are not page-aligned, and appends after a torn log tail: page writes are whole and histories crash at record boundaries; a log cut at any byte is covered for a single replay.
- Real threads, mutexes and the lifetime of detached prefetch threads: every public operation is one atomic step; `ScanRuns` interleaves the steps, while in the classes a prefetch runs to its end where it is called.
- Iterators and list nodes are node numbers, vectors and deques that only grow or are reassigned are sequence fields, and the scan's callback is the sequence of its calls. A handle keeps its frame's number instead of a pointer.
- Database.LogOf: records are numbered 1..n only while there are fewer than 2^64 of them and all are short; after that only the bytes and what they replay to are stated.
- Database.Database.Open: detached prefetches of a small pool can pin every frame while recovery scans, and the constructor then throws; the class runs each prefetch where it is started, so its condition leaves that out. `ScanRuns.ScannerThrowsIff` says exactly when it happens.
- Database.Database.Open: requires a record cache of capacity at least one, since the cache's eviction indexes an empty list otherwise (src/cache/lru_cache.cpp:37-57), and at most 2^20 pages, since page offsets wrap beyond (src/storage/mapped_file.cpp:92).
- LruCache.LruCache.constructor: requires capacity at least one, for the same reason.
- StorageWriter.StorageWriter.Flush: says nothing about appends after it, because the page id does not advance (src/storage/storage_writer.cpp:74-78); a flush before the destructor's own would write the page twice.
- StorageEngine.StorageEngine.AllocatePage: assumes that only the engine grows the file, and fewer than 2^20 pages.
- EvictionPolicy.ExtractFeatures: doubles are reals, so rounding is not modelled; policy-file parsing is left out and loaded weights are a parameter.
- Hash tables and `VectorHash`: maps.
- Overflow of hit, miss and access counters, and of page ids at 2^32.
- The thread-local workload hint is a parameter of the operations that read it.
- Page header fields that nothing reads: previous page, tuple count, free-space marks, flags.
- Reading through a handle that was moved from: the program does not check it.
- `BPlusTreeInternalPage` and `BPlusTreePage`: one search and accessors, no tree operations; the leaf's parent, page and sibling ids are left out with them.
- `QueryRunner`, `DataGenerator`, `main`, the benchmarks, the offline trainer, timing and console output: no hard property.
