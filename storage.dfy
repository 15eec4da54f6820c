/** The storage engine of `puresearch-storage`: documents and indices held in
    memory, with every document mutation written to the write-ahead log before
    it is applied. */
module Storage {
  import opened Types
  import opened Core
  import opened Wal

  type DocumentMap = map<Uuid, ReviewDocument>

  /** The effect of one logged mutation on the document map. */
  function ApplyEntry(docs: DocumentMap, e: WalEntry): DocumentMap
  {
    match e
    case Document(d) => docs[d.id := d]
    case Delete(id) => docs - {id}
  }

  /** The document map obtained by applying `entries` to `docs` in log order. */
  function Replay(docs: DocumentMap, entries: seq<WalEntry>): DocumentMap
    decreases |entries|
  {
    if entries == [] then docs else Replay(ApplyEntry(docs, entries[0]), entries[1..])
  }

  /** Replaying one more entry applies it on top of the earlier result. */
  lemma {:induction false} ReplayAppend(docs: DocumentMap, entries: seq<WalEntry>, e: WalEntry)
    ensures Replay(docs, entries + [e]) == ApplyEntry(Replay(docs, entries), e)
    decreases |entries|
  {
    if entries != [] {
      assert (entries + [e])[1..] == entries[1..] + [e];
      ReplayAppend(ApplyEntry(docs, entries[0]), entries[1..], e);
    }
  }

  /** Every document is stored under its own id. */
  predicate KeyedById(docs: DocumentMap) {
    forall id :: id in docs ==> docs[id].id == id
  }

  /** Replay keeps every document under its own id. */
  lemma {:induction false} ReplayKeyedById(docs: DocumentMap, entries: seq<WalEntry>)
    requires KeyedById(docs)
    ensures KeyedById(Replay(docs, entries))
    decreases |entries|
  {
    if entries != [] {
      ReplayKeyedById(ApplyEntry(docs, entries[0]), entries[1..]);
    }
  }

  /** Last write wins: after replaying a log that ends with a put of `d`, the
      map holds exactly `d` under `d.id`. */
  lemma LastPutWins(docs: DocumentMap, entries: seq<WalEntry>, d: ReviewDocument)
    ensures d.id in Replay(docs, entries + [Document(d)])
    ensures Replay(docs, entries + [Document(d)])[d.id] == d
  {
    ReplayAppend(docs, entries, Document(d));
  }

  /** `deserialize` undoes `serialize` on every entry that serialises. */
  ghost predicate Inverts(deserialize: seq<byte> -> Option<WalEntry>, serialize: WalEntry -> Option<seq<byte>>)
  {
    forall e :: serialize(e).Some? ==> deserialize(serialize(e).value) == Some(e)
  }

  /** Decodes each payload into an entry; `None` if any payload does not decode. */
  function DecodeEntries(payloads: seq<seq<byte>>, deserialize: seq<byte> -> Option<WalEntry>)
    : Option<seq<WalEntry>>
  {
    if payloads == [] then Some([])
    else
      match (deserialize(payloads[0]), DecodeEntries(payloads[1..], deserialize))
      case (Some(e), Some(es)) => Some([e] + es)
      case _ => None
  }

  /** A recovery reader for the log format: split into frames, decode each
      payload, replay the entries onto an empty map.  The engine never runs
      it (it starts from empty maps); it states what the log makes
      recoverable. */
  function Recover(log: seq<byte>, deserialize: seq<byte> -> Option<WalEntry>): Option<DocumentMap>
  {
    match DecodeEntries(DecodeFrames(log), deserialize)
    case Some(es) => Some(Replay(map[], es))
    case None => None
  }

  /** `payloads` are what `serialize` produced for `entries`, one for one. */
  ghost predicate SerializedAs(entries: seq<WalEntry>, payloads: seq<seq<byte>>, serialize: WalEntry -> Option<seq<byte>>)
  {
    && |entries| == |payloads|
    && forall i :: 0 <= i < |entries| ==> serialize(entries[i]) == Some(payloads[i])
  }

  lemma {:induction false} DecodeEntriesInverts(
    entries: seq<WalEntry>, payloads: seq<seq<byte>>,
    serialize: WalEntry -> Option<seq<byte>>, deserialize: seq<byte> -> Option<WalEntry>)
    requires SerializedAs(entries, payloads, serialize)
    requires Inverts(deserialize, serialize)
    ensures DecodeEntries(payloads, deserialize) == Some(entries)
  {
    if payloads != [] {
      assert serialize(entries[0]) == Some(payloads[0]);
      assert SerializedAs(entries[1..], payloads[1..], serialize) by {
        forall i | 0 <= i < |entries| - 1
          ensures serialize(entries[1..][i]) == Some(payloads[1..][i])
        {
          assert serialize(entries[i + 1]) == Some(payloads[i + 1]);
        }
      }
      DecodeEntriesInverts(entries[1..], payloads[1..], serialize, deserialize);
      assert entries == [entries[0]] + entries[1..];
    }
  }

  /** A log made only of the frames of `entries` recovers the map that
      replaying `entries` gives. */
  lemma RecoverFramedLog(
    entries: seq<WalEntry>, payloads: seq<seq<byte>>,
    serialize: WalEntry -> Option<seq<byte>>, deserialize: seq<byte> -> Option<WalEntry>)
    requires SerializedAs(entries, payloads, serialize)
    requires Inverts(deserialize, serialize)
    requires FitU32(payloads)
    ensures Recover(Frames(payloads), deserialize) == Some(Replay(map[], entries))
  {
    DecodeFramesRoundTrip(payloads);
    DecodeEntriesInverts(entries, payloads, serialize, deserialize);
  }

  /** `MmapStorage`: the document and index maps and the log handle. */
  class MmapStorage {
    var documents: DocumentMap
    var indices: map<Uuid, IndexValue>
    const wal: WriteAheadLog

    /** The document map is exactly the replay of what this handle has logged
        (it starts empty and logs before every change), and every index is
        stored under its own id. */
    ghost predicate Valid()
      reads this, wal
    {
      && wal.Valid()
      && documents == Replay(map[], wal.entries)
      && forall id :: id in indices ==> indices[id].id == id
    }

    /** `MmapStorage::new`: opens `wal.log` (keeping its content) and starts
        with empty maps. */
    constructor (existingLog: seq<byte>, serialize: WalEntry -> Option<seq<byte>>)
      ensures Valid() && fresh(wal)
      ensures documents == map[] && indices == map[]
      ensures wal.log == existingLog && wal.initial == existingLog && wal.entries == []
      ensures wal.serialize == serialize
    {
      documents := map[];
      indices := map[];
      wal := new WriteAheadLog(existingLog, serialize);
    }

    /** `store_document`: logs `Document(doc)`; only if that succeeds is `doc`
        put under its id, replacing any earlier version. */
    method StoreDocument(doc: ReviewDocument, io: IoStatus) returns (r: Result<()>)
      requires Valid()
      modifies this, wal
      ensures Valid()
      ensures wal.EntryWritten(Document(doc), io, r)
      ensures r.Ok? ==> documents == old(documents)[doc.id := doc]
      ensures r.Ok? ==> documents.Keys == old(documents.Keys) + {doc.id}
      ensures r.Err? ==> documents == old(documents)
      ensures indices == old(indices)
    {
      r := wal.WriteDocumentEntry(doc, io);
      if r.Err? {
        return;
      }
      ReplayAppend(map[], old(wal.entries), Document(doc));
      documents := documents[doc.id := doc];
    }

    /** `get_document`. */
    function GetDocument(id: Uuid): (r: Option<ReviewDocument>)
      reads this, wal
      requires Valid()
      ensures r.Some? <==> id in documents
      ensures r.Some? ==> r.value == documents[id] && r.value.id == id
    {
      ReplayKeyedById(map[], wal.entries);
      if id in documents then Some(documents[id]) else None
    }

    /** `delete_document`: logs `Delete(id)` whether or not `id` is stored;
        only if that succeeds is `id` removed, and the answer says whether it
        was there. */
    method DeleteDocument(id: Uuid, io: IoStatus) returns (r: Result<bool>)
      requires Valid()
      modifies this, wal
      ensures Valid()
      ensures wal.EntryWritten(Delete(id), io, if r.Ok? then Ok(()) else Err(r.error))
      ensures r.Ok? ==> r.value == (id in old(documents))
      ensures r.Ok? ==> documents == old(documents) - {id} && id !in documents
      ensures r.Err? ==> documents == old(documents)
      ensures indices == old(indices)
    {
      var logged := wal.WriteDeleteEntry(id, io);
      if logged.Err? {
        return Err(logged.error);
      }
      ReplayAppend(map[], old(wal.entries), Delete(id));
      var present := id in documents;
      documents := documents - {id};
      r := Ok(present);
    }

    /** `list_documents`: the ids of all stored documents, each once. */
    method ListDocuments() returns (ids: seq<Uuid>)
      ensures forall id :: id in ids <==> id in documents
      ensures NoDuplicates(ids)
      ensures |ids| == |documents|
    {
      var pending := documents.Keys;
      ids := [];
      while pending != {}
        invariant pending <= documents.Keys
        invariant forall id :: id in ids <==> id in documents && id !in pending
        invariant NoDuplicates(ids)
        invariant |ids| + |pending| == |documents|
        decreases |pending|
      {
        var id :| id in pending;
        ids := ids + [id];
        pending := pending - {id};
      }
    }

    /** `store_index`: puts a copy of `index` under its id.  Nothing is
        logged and the documents are untouched. */
    method StoreIndex(index: Index) returns (r: Result<()>)
      requires Valid()
      modifies this`indices
      ensures Valid()
      ensures r == Ok(())
      ensures indices == old(indices)[index.id := index.Snapshot()]
    {
      indices := indices[index.id := index.Snapshot()];
      r := Ok(());
    }

    /** `get_index`. */
    function GetIndex(id: Uuid): (r: Option<IndexValue>)
      reads this, wal
      requires Valid()
      ensures r.Some? <==> id in indices
      ensures r.Some? ==> r.value == indices[id] && r.value.id == id
    {
      if id in indices then Some(indices[id]) else None
    }

    /** `list_indices`: a copy of every stored index, each exactly once. */
    method ListIndices() returns (all: seq<IndexValue>)
      requires Valid()
      ensures |all| == |indices|
      ensures forall i :: 0 <= i < |all| ==> all[i].id in indices && indices[all[i].id] == all[i]
      ensures forall id :: id in indices ==> indices[id] in all
      ensures forall i, j :: 0 <= i < j < |all| ==> all[i].id != all[j].id
    {
      var pending := indices.Keys;
      all := [];
      while pending != {}
        invariant pending <= indices.Keys
        invariant forall i :: 0 <= i < |all| ==> all[i].id in indices && all[i].id !in pending && indices[all[i].id] == all[i]
        invariant forall id :: id in indices && id !in pending ==> indices[id] in all
        invariant forall i, j :: 0 <= i < j < |all| ==> all[i].id != all[j].id
        invariant |all| + |pending| == |indices|
        decreases |pending|
      {
        var id :| id in pending;
        all := all + [indices[id]];
        pending := pending - {id};
      }
    }
  }

  /** On a log that started empty, a recovery reader would rebuild exactly
      the engine's document map from the log's bytes. */
  lemma LogRecoversDocuments(s: MmapStorage, deserialize: seq<byte> -> Option<WalEntry>)
    requires s.Valid()
    requires s.wal.initial == []
    requires Inverts(deserialize, s.wal.serialize)
    requires FitU32(s.wal.payloads)
    ensures Recover(s.wal.log, deserialize) == Some(s.documents)
  {
    assert s.wal.log == Frames(s.wal.payloads);
    RecoverFramedLog(s.wal.entries, s.wal.payloads, s.wal.serialize, deserialize);
  }

  /** The scenarios of the storage integration tests, on a device that never
      fails and a serialiser that accepts every entry. */
  method IntegrationScenario(serialize: WalEntry -> Option<seq<byte>>, doc: ReviewDocument)
    requires forall e :: serialize(e).Some?
  {
    var storage := new MmapStorage([], serialize);
    var stored := storage.StoreDocument(doc, IoOk);
    assert stored == Ok(());
    var got := storage.GetDocument(doc.id);
    assert got == Some(doc);
    var ids := storage.ListDocuments();
    assert doc.id in ids && |ids| == 1;
    var deleted := storage.DeleteDocument(doc.id, IoOk);
    assert deleted == Ok(true);
    assert storage.GetDocument(doc.id) == None;
    ids := storage.ListDocuments();
    assert |ids| == 0;
    var again := storage.DeleteDocument(doc.id, IoOk);
    assert again == Ok(false);
  }
}
