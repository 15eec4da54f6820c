# PureSearch persistence layer in Dafny

This project models the persistence layer of PureSearch, a single-node
document and index store written in Rust. It has four parts:

- **Core records** (`core.dfy`, module `Core`). A `ReviewDocument` is a value. An `Index` is a class, because `add_document` updates its `documents` list in place. `IndexValue` is the owned copy that `clone()` makes when the engine stores or returns an index.
- **Write-ahead log** (`wal.dfy`, module `Wal`). The log file is a byte sequence, opened in append mode. Each entry is written as a 4-byte little-endian `u32` length prefix followed by the serialised payload. `bincode::serialize` is an opaque function `WalEntry -> Option<seq<byte>>`, fixed when the log is opened. The module proves the frame layout, append-only growth, the `as u32` truncation, and a decoding round trip against a frame reader (`DecodeFrames`).
- **Segment file** (`segment.dfy`, module `Segment`). An append-only byte store with `file`, `mmap` (a snapshot, or nothing) and `size`. The ghost field `uncounted` records the bytes that `create` found in the file and left in place, because `create` does not truncate. The invariant `|file| == uncounted + size` says when `len()` equals the file length. The invariant "a cached view is always the whole current file" holds because every write drops the view and every remap maps the whole file.
- **Storage engine** (`storage.dfy`, module `Storage`). `MmapStorage` holds a document map, an index map and the log handle. Document mutations append to the log first and change the map only if the append succeeded. Index mutations touch memory only. The object invariant says the document map is exactly the replay of the entries this handle has logged.

`Storage.IntegrationScenario` replays the two scenarios of puresearch-storage/tests/integration_test.rs:7-29 and 58-77 against the engine's contracts, with a device that never fails.

`types.dfy` (module `Types`) holds bytes, ids, timestamps, `Option`, `Result` and the error kinds.

I/O failure is a parameter of type `IoStatus` (`IoOk` or `IoFail`) on every operation that writes or maps, except the constructors. A failing call fails as a whole and changes nothing. Fresh ids (`Uuid::new_v4`) and clock readings (`SystemTime::now`) are parameters too.

Two facts about the code shape the model:

- The engine never reads `wal.log` back. `MmapStorage::new` starts with empty maps whatever the log holds. `Recover`, `DecodeFrames` and the lemmas about them describe what a recovery reader could rebuild from the bytes. They do not describe anything the engine does.
- Index mutations are not logged, and `list_documents` returns a vector, not a set. The model proves that the vector holds no duplicates.

## Model

| member | source | states |
|---|---|---|
| Core.NewReviewDocument | puresearch-core/src/lib.rs:14-24 | a new document carries the supplied fresh id and clock reading, with content and metadata exactly as given |
| Core.Index.constructor | puresearch-core/src/lib.rs:36-46 | `Index::new` gives the supplied name, id and creation time, with an empty (hence duplicate-free) document list |
| Core.Index.AddDocument | puresearch-core/src/lib.rs:48-52 | only `documents` may change (id, name, created_at are outside the frame); the new list is `WithDocument` of the old one, contains the id, and stays duplicate-free if it was |
| Core.WithDocument | puresearch-core/src/lib.rs:49-50 | after adding `d`, `d` is listed and the members are the old ones plus `d`; an absent id is appended at the end with the old list kept as a prefix and the length up by one; a present id leaves the list unchanged; no duplicates are introduced |
| Core.WithDocumentIdempotent | puresearch-core/src/lib.rs:48-52 | adding the same id twice gives the same list as adding it once |
| Core.WithDocumentSingleCopy | puresearch-core/src/lib.rs:48-52 | in a duplicate-free list, the added id occurs exactly once (multiset count 1), after one addition and after two |
| Wal.AsU32 | puresearch-storage/src/wal.rs:43 | the `as u32` cast keeps lengths below 2^32 and changes every length of 2^32 or more |
| Wal.LeValueOfLeBytes | puresearch-storage/src/wal.rs:43-45 | the little-endian prefix b0 + 256·b1 + 65536·b2 + 2^24·b3 recovers the encoded `u32` |
| Wal.LeBytesOfLeValue | puresearch-storage/src/wal.rs:45 | every 4-byte prefix is the `to_le_bytes` encoding of exactly the value it decodes to |
| Wal.Frame | puresearch-storage/src/wal.rs:41-46 | a frame is 4 + payload-length bytes: the `to_le_bytes` of the `u32`-cast length, then the payload |
| Wal.FramePrefixIsLength | puresearch-storage/src/wal.rs:43-45 | a frame's prefix decodes to the payload length modulo 2^32, and to the exact length below 2^32 |
| Wal.FramesAppend | puresearch-storage/src/wal.rs:41-50 | writing one more entry extends the framed log at its end and keeps every earlier frame |
| Wal.DecodeFramesCons | puresearch-storage/src/wal.rs:45-46 | a complete frame at the head of a log reads back as its payload, and reading resumes right after it |
| Wal.DecodeFramesAfter | puresearch-storage/src/wal.rs:41-50 | reading a log that starts with the frames of some payloads yields those payloads in write order, then whatever the rest yields |
| Wal.DecodeFramesRoundTrip | puresearch-storage/src/wal.rs:41-50 | the frames written for payloads under 2^32 bytes read back as exactly those payloads, in order |
| Wal.TruncatedFrameYieldsNothing | puresearch-storage/src/wal.rs:45-46 | a frame cut short at any point yields no payload |
| Wal.TornTailDiscarded | puresearch-storage/src/wal.rs:45-46 | a log whose last frame is torn reads back as all the complete frames before it |
| Wal.TornTailSwallowsNextFrame | puresearch-storage/src/wal.rs:21-24 | the log is reopened in append mode without cutting off a torn tail, so the next entry's frame is read as the torn frame's payload: a torn `[5,0,0,0]` followed by the frame of `[7]` reads back as the single payload `[1,0,0,0,7]`, not as `[7]` |
| Wal.OversizedPayloadMisframed | puresearch-storage/src/wal.rs:43 | a payload of 2^32 bytes or more is misframed: its frame does not read back as that payload |
| Wal.WriteAheadLog.constructor | puresearch-storage/src/wal.rs:20-29 | opening in append mode keeps the file's existing bytes; nothing has been written yet |
| Wal.WriteAheadLog.WriteEntry | puresearch-storage/src/wal.rs:41-50 | a serialisation failure or I/O failure leaves the log unchanged with the matching error; otherwise exactly one frame of the serialised entry is appended (growth 4 + payload length, earlier bytes kept) and the entry is recorded |
| Wal.WriteAheadLog.WriteDocumentEntry | puresearch-storage/src/wal.rs:31-34 | logs `Document(doc)` with the `WriteEntry` outcome |
| Wal.WriteAheadLog.WriteDeleteEntry | puresearch-storage/src/wal.rs:36-39 | logs `Delete(id)` with the `WriteEntry` outcome |
| Wal.WriteAheadLog.Sync | puresearch-storage/src/wal.rs:52-56 | changes nothing (it modifies nothing) and fails with an I/O error exactly when the device fails |
| Segment.SegmentFile.Create | puresearch-storage/src/segment.rs:14-26 | the file keeps its existing bytes, with no view and size 0; those bytes are uncounted |
| Segment.SegmentFile.Open | puresearch-storage/src/segment.rs:28-48 | size is the file length, nothing is uncounted, and the file is mapped exactly when it is non-empty |
| Segment.SegmentFile.Write | puresearch-storage/src/segment.rs:50-61 | on success it returns the pre-write file length (equal to the old size when nothing is uncounted), appends the data, keeps earlier bytes, grows size by the data length and drops the view; on failure nothing changes |
| Segment.SegmentFile.ReadAt | puresearch-storage/src/segment.rs:63-77 | remaps the whole file when there is no view and size is positive; succeeds exactly when a view exists and offset + len is within it, returning bytes [offset, offset+len); otherwise errors with I/O, empty-segment or out-of-bounds as the code does |
| Segment.SegmentFile.Len | puresearch-storage/src/segment.rs:79-81 | the size never exceeds the file length and equals it exactly when nothing is uncounted |
| Segment.SegmentFile.IsEmpty | puresearch-storage/src/segment.rs:83-85 | `is_empty()` holds exactly when `len()` is 0 |
| Segment.WriteThenRead | puresearch-storage/src/segment.rs:50-77 | bytes written at the returned offset read back unchanged whenever the segment then counts at least one byte, including after `create` on a non-empty file |
| Storage.ReplayAppend | puresearch-storage/src/lib.rs:40-53 | applying one more logged mutation acts on the result of all earlier ones |
| Storage.ReplayKeyedById | puresearch-storage/src/lib.rs:42 | documents inserted by logged puts are always stored under their own id |
| Storage.LastPutWins | puresearch-storage/src/lib.rs:42 | after a log that ends with a put of `d`, `d` itself is stored under `d.id` (last write wins) |
| Storage.DecodeEntriesInverts | puresearch-storage/src/wal.rs:42 | payloads produced by `serialize` decode back to their entries under an inverse deserialiser |
| Storage.RecoverFramedLog | puresearch-storage/src/wal.rs:41-50 | a log made of the frames of some entries recovers the map that replaying those entries gives |
| Storage.LogRecoversDocuments | puresearch-storage/src/lib.rs:40-53 | for an engine whose log started empty, the log's bytes recover exactly the engine's document map |
| Storage.MmapStorage.constructor | puresearch-storage/src/lib.rs:24-36 | a new engine has empty document and index maps and a log handle that keeps the existing log file |
| Storage.MmapStorage.StoreDocument | puresearch-storage/src/lib.rs:40-44 | logs `Document(doc)` first; on success `doc` replaces whatever was under its id (the key set grows by at most that id); on failure the documents are unchanged; indices are never touched |
| Storage.MmapStorage.GetDocument | puresearch-storage/src/lib.rs:46-48 | returns a document exactly when the id is stored, and then the stored document, whose own id is the one asked for |
| Storage.MmapStorage.DeleteDocument | puresearch-storage/src/lib.rs:50-53 | logs `Delete(id)` even for an absent id; on success it answers whether the id was present and the id is absent afterwards; on failure the documents are unchanged |
| Storage.MmapStorage.ListDocuments | puresearch-storage/src/lib.rs:55-57 | the returned ids are exactly the stored keys, each once |
| Storage.MmapStorage.StoreIndex | puresearch-storage/src/lib.rs:61-64 | puts a copy of the index under its id and always succeeds; the log and the documents are outside its frame |
| Storage.MmapStorage.GetIndex | puresearch-storage/src/lib.rs:66-68 | returns an index exactly when the id is stored, and then the stored copy, whose own id is the one asked for |
| Storage.MmapStorage.ListIndices | puresearch-storage/src/lib.rs:70-72 | returns every stored index exactly once, as the stored copy |

## Left out

- I/O failures while opening files are not modelled. This covers `create_dir_all`, opening `wal.log`, `SegmentFile::create` and `open`, `metadata()`, and the initial map in `open`. Each constructor models the successful open only.
- Failures part way through a call are not modelled. A failing write fails as a whole and writes nothing. The code could leave a written prefix without its payload, or data in the `BufWriter` buffer when a flush fails.
- Memory mapping, `BufWriter` buffering, `seek` and `stream_position` are not modelled. The view is a snapshot of the file's bytes, and the write offset is the file length.
- `sync_all` (fsync) is not modelled. Durability on stable storage is not modelled either.
- Segment.SegmentFile.ReadAt: `offset + len` is a `usize` sum, and the model adds without bound. Where the sum overflows, debug builds panic. Release builds wrap the sum to a value smaller than `offset`. If that value exceeds the view, the code returns "Read beyond segment bounds", as the model does. If it fits in the view, the slice starts after it ends and the code panics, where the model returns `ReadBeyondBounds`. The `usize` overflow of `size += data.len()` is not modelled either.
- bincode's wire format is not modelled. Serialisation is an opaque function fixed per log. The recovery lemmas assume a deserialiser that inverts it.
- WAL replay and crash recovery are not part of the code. `Recover` is a specification reader and the engine never runs it. Cross-restart durability is therefore not claimed. `TornTailDiscarded` holds only while the torn frame is the end of the file: the code never truncates a torn tail, so a later append is swallowed by it (`TornTailSwallowsNextFrame`). The integration test that expects it calls a `flush` method that is not part of this model.
- The `StorageEngine` and `IndexStorage` traits (puresearch-core/src/lib.rs:55-71) are not Dafny traits. `MmapStorage`'s methods carry their operations directly.
- Storage.MmapStorage.GetDocument: the code wraps the answer in a `Result` that is always `Ok`. The model returns the `Option` alone. The same holds for GetIndex, ListDocuments and ListIndices.
- Storage.MmapStorage.ListIndices: `HashMap` iteration order is not modelled. The returned order is unspecified.
- The `data_dir` field and the unused imports are not modelled.
- The HTTP layer (`puresearch-api`) is not part of this model.
