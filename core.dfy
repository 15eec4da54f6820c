/** The records of `puresearch-core`: a review document, and an index that
    collects document ids without repetition. */
module Core {
  import opened Types

  /** A stored review.  Its identity is `id`; `timestamp` is fixed at creation. */
  datatype ReviewDocument = ReviewDocument(
    id: Uuid,
    content: string,
    metadata: map<string, string>,
    timestamp: u64)

  /** `ReviewDocument::new`.  The fresh id (`Uuid::new_v4`) and the clock
      reading (`SystemTime::now`) are supplied by the caller. */
  function NewReviewDocument(freshId: Uuid, content: string, metadata: map<string, string>, now: u64)
    : (d: ReviewDocument)
    ensures d.id == freshId && d.timestamp == now
    ensures d.content == content && d.metadata == metadata
  {
    ReviewDocument(freshId, content, metadata, now)
  }

  /** An owned copy of an `Index`, as `index.clone()` produces it when the
      storage engine stores or returns one. */
  datatype IndexValue = IndexValue(id: Uuid, name: string, documents: seq<Uuid>, createdAt: u64)

  /** No id occurs twice in `s`. */
  predicate NoDuplicates(s: seq<Uuid>) {
    forall i, j :: 0 <= i < j < |s| ==> s[i] != s[j]
  }

  /** The document list after adding `d`: unchanged when `d` is already
      listed, otherwise `d` appended at the end. */
  function WithDocument(docs: seq<Uuid>, d: Uuid): (r: seq<Uuid>)
    ensures d in r
    ensures forall x :: x in r <==> x in docs || x == d
    ensures d in docs ==> r == docs
    ensures d !in docs ==> |r| == |docs| + 1 && r[..|docs|] == docs && r[|docs|] == d
    ensures NoDuplicates(docs) ==> NoDuplicates(r)
  {
    if d in docs then docs else docs + [d]
  }

  /** Adding the same id a second time changes nothing. */
  lemma WithDocumentIdempotent(docs: seq<Uuid>, d: Uuid)
    ensures WithDocument(WithDocument(docs, d), d) == WithDocument(docs, d)
  {
  }

  /** In a duplicate-free list, an added id occurs exactly once, whether it
      was added once or twice. */
  lemma {:induction false} WithDocumentSingleCopy(docs: seq<Uuid>, d: Uuid)
    requires NoDuplicates(docs)
    ensures multiset(WithDocument(docs, d))[d] == 1
    ensures multiset(WithDocument(WithDocument(docs, d), d))[d] == 1
  {
    WithDocumentIdempotent(docs, d);
    var r := WithDocument(docs, d);
    var k :| 0 <= k < |r| && r[k] == d;
    assert r == r[..k] + [d] + r[k + 1..];
    assert d !in r[..k] && d !in r[k + 1..] by {
      forall i | 0 <= i < |r| && i != k ensures r[i] != d {
        if i < k { assert r[i] != r[k]; } else { assert r[k] != r[i]; }
      }
    }
    assert multiset(r[..k])[d] == 0;
    assert multiset(r[k + 1..])[d] == 0;
    assert multiset(r) == multiset(r[..k]) + multiset{d} + multiset(r[k + 1..]);
  }

  /** An index: a named, ordered, duplicate-free list of document ids. */
  class Index {
    var id: Uuid
    var name: string
    var documents: seq<Uuid>
    var createdAt: u64

    /** `Index::new(name)`, with the fresh id and the clock reading supplied. */
    constructor (freshId: Uuid, name: string, now: u64)
      ensures id == freshId && this.name == name && createdAt == now
      ensures documents == [] && NoDuplicates(documents)
    {
      id := freshId;
      this.name := name;
      documents := [];
      createdAt := now;
    }

    /** `Index::add_document`: appends `docId` unless it is already listed.
        Only `documents` may change. */
    method AddDocument(docId: Uuid)
      modifies this`documents
      ensures documents == WithDocument(old(documents), docId)
      ensures docId in documents
      ensures old(NoDuplicates(documents)) ==> NoDuplicates(documents)
    {
      if docId !in documents {
        documents := documents + [docId];
      }
    }

    /** The owned copy that `clone()` makes of this index. */
    function Snapshot(): IndexValue
      reads this
    {
      IndexValue(id, name, documents, createdAt)
    }
  }
}
