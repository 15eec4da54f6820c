/** The write-ahead log of `puresearch-storage`: every entry is written as a
    4-byte little-endian length prefix followed by its serialised payload, to
    a file opened in append mode. */
module Wal {
  import opened Types
  import opened Core

  /** One logged mutation. */
  datatype WalEntry = Document(doc: ReviewDocument) | Delete(id: Uuid)

  /** 2^32: the number of values a `u32` can hold. */
  const U32_LIMIT: nat := 0x1_0000_0000

  /** `n as u32`: the cast keeps the low 32 bits. */
  function AsU32(n: nat): (r: nat)
    ensures r < U32_LIMIT
    ensures n < U32_LIMIT ==> r == n
    ensures n >= U32_LIMIT ==> r != n
  {
    n % U32_LIMIT
  }

  /** `u32::to_le_bytes`: least significant byte first. */
  function LeBytes(n: nat): (b: seq<byte>)
    requires n < U32_LIMIT
    ensures |b| == 4
  {
    [n % 256, n / 256 % 256, n / 256 / 256 % 256, n / 256 / 256 / 256]
  }

  /** The number that four little-endian bytes stand for. */
  function LeValue(b: seq<byte>): (n: nat)
    requires |b| == 4
    ensures n < U32_LIMIT
  {
    b[0] as nat + 256 * (b[1] as nat) + 65536 * (b[2] as nat) + 16777216 * (b[3] as nat)
  }

  /** Decoding the prefix recovers the encoded length. */
  lemma LeValueOfLeBytes(n: nat)
    requires n < U32_LIMIT
    ensures LeValue(LeBytes(n)) == n
  {
    var q1 := n / 256;
    var q2 := q1 / 256;
    var q3 := q2 / 256;
    assert n == n % 256 + 256 * q1;
    assert q1 == q1 % 256 + 256 * q2;
    assert q2 == q2 % 256 + 256 * q3;
  }

  /** Every 4-byte prefix is the encoding of exactly one length. */
  lemma LeBytesOfLeValue(b: seq<byte>)
    requires |b| == 4
    ensures LeBytes(LeValue(b)) == b
  {
    var n := LeValue(b);
    assert n / 256 == b[1] as nat + 256 * (b[2] as nat) + 65536 * (b[3] as nat);
    assert n / 256 / 256 == b[2] as nat + 256 * (b[3] as nat);
    assert n / 256 / 256 / 256 == b[3];
  }

  /** What `write_entry` writes for one serialised entry: the length prefix,
      cast to `u32`, then the payload. */
  function Frame(payload: seq<byte>): (f: seq<byte>)
    ensures |f| == 4 + |payload|
    ensures f[..4] == LeBytes(AsU32(|payload|))
    ensures f[4..] == payload
  {
    LeBytes(AsU32(|payload|)) + payload
  }

  /** The prefix of a frame reads back as the payload length modulo 2^32. */
  lemma FramePrefixIsLength(payload: seq<byte>)
    ensures LeValue(Frame(payload)[..4]) == AsU32(|payload|)
    ensures |payload| < U32_LIMIT ==> LeValue(Frame(payload)[..4]) == |payload|
  {
    LeValueOfLeBytes(AsU32(|payload|));
  }

  /** The frames of several payloads, in the order they were written. */
  function Frames(payloads: seq<seq<byte>>): seq<byte>
  {
    if payloads == [] then [] else Frame(payloads[0]) + Frames(payloads[1..])
  }

  /** Writing one more frame extends the log at its end. */
  lemma {:induction false} FramesAppend(payloads: seq<seq<byte>>, p: seq<byte>)
    ensures Frames(payloads + [p]) == Frames(payloads) + Frame(p)
  {
    if payloads == [] {
      assert payloads + [p] == [p];
    } else {
      assert (payloads + [p])[1..] == payloads[1..] + [p];
      FramesAppend(payloads[1..], p);
    }
  }

  /** A reader for the framed format: it splits a log into complete
      [prefix][payload] frames and stops at a tail too short to hold a prefix
      or the payload its prefix announces.  The storage code never reads its
      log back; this function is the specification the framing lemmas below
      are stated against. */
  function DecodeFrames(log: seq<byte>): seq<seq<byte>>
    decreases |log|
  {
    if |log| < 4 then []
    else
      var n := LeValue(log[..4]);
      if |log| - 4 < n then []
      else [log[4..4 + n]] + DecodeFrames(log[4 + n..])
  }

  /** All payloads fit the `u32` length prefix. */
  predicate FitU32(payloads: seq<seq<byte>>) {
    forall i :: 0 <= i < |payloads| ==> |payloads[i]| < U32_LIMIT
  }

  lemma FitU32Tail(payloads: seq<seq<byte>>)
    requires FitU32(payloads) && payloads != []
    ensures |payloads[0]| < U32_LIMIT && FitU32(payloads[1..])
  {
    forall i | 0 <= i < |payloads| - 1 ensures |payloads[1..][i]| < U32_LIMIT {
      assert payloads[1..][i] == payloads[i + 1];
    }
  }

  /** One complete frame at the front of a log reads back as its payload,
      and reading resumes right after it. */
  lemma DecodeFramesCons(p: seq<byte>, tail: seq<byte>)
    requires |p| < U32_LIMIT
    ensures DecodeFrames(Frame(p) + tail) == [p] + DecodeFrames(tail)
  {
    var log := Frame(p) + tail;
    FramePrefixIsLength(p);
    assert log[..4] == Frame(p)[..4];
    assert log[4..4 + |p|] == p;
    assert log[4 + |p|..] == tail;
  }

  /** Reading a log whose front holds the frames of `payloads` yields those
      payloads, in write order, followed by whatever the rest yields. */
  lemma {:induction false} DecodeFramesAfter(payloads: seq<seq<byte>>, rest: seq<byte>)
    requires FitU32(payloads)
    ensures DecodeFrames(Frames(payloads) + rest) == payloads + DecodeFrames(rest)
  {
    if payloads == [] {
      assert Frames(payloads) + rest == rest;
    } else {
      var p, more := payloads[0], payloads[1..];
      FitU32Tail(payloads);
      calc {
        DecodeFrames(Frames(payloads) + rest);
        { assert Frames(payloads) + rest == Frame(p) + (Frames(more) + rest); }
        DecodeFrames(Frame(p) + (Frames(more) + rest));
        { DecodeFramesCons(p, Frames(more) + rest); }
        [p] + DecodeFrames(Frames(more) + rest);
        { DecodeFramesAfter(more, rest); }
        [p] + (more + DecodeFrames(rest));
        { assert payloads == [p] + more; }
        payloads + DecodeFrames(rest);
      }
    }
  }

  /** Round trip: the frames written for `payloads` read back as `payloads`. */
  lemma DecodeFramesRoundTrip(payloads: seq<seq<byte>>)
    requires FitU32(payloads)
    ensures DecodeFrames(Frames(payloads)) == payloads
  {
    DecodeFramesAfter(payloads, []);
    assert Frames(payloads) + [] == Frames(payloads);
  }

  /** A frame cut short anywhere (a torn write) yields no payload. */
  lemma TruncatedFrameYieldsNothing(p: seq<byte>, k: nat)
    requires |p| < U32_LIMIT
    requires k < |Frame(p)|
    ensures DecodeFrames(Frame(p)[..k]) == []
  {
    if k >= 4 {
      FramePrefixIsLength(p);
      assert Frame(p)[..k][..4] == Frame(p)[..4];
    }
  }

  /** A log whose last frame was torn reads back as all earlier payloads. */
  lemma TornTailDiscarded(payloads: seq<seq<byte>>, p: seq<byte>, k: nat)
    requires FitU32(payloads) && |p| < U32_LIMIT
    requires k < |Frame(p)|
    ensures DecodeFrames(Frames(payloads) + Frame(p)[..k]) == payloads
  {
    DecodeFramesAfter(payloads, Frame(p)[..k]);
    TruncatedFrameYieldsNothing(p, k);
  }

  /** The log file is reopened in append mode and a torn tail is never cut
      off, so a frame written after it is swallowed: here the torn prefix of a
      5-byte frame takes the next entry's whole frame as its payload. */
  lemma TornTailSwallowsNextFrame()
    ensures DecodeFrames(Frame([9, 9, 9, 9, 9])[..4] + Frame([7])) == [Frame([7])]
    ensures DecodeFrames(Frame([9, 9, 9, 9, 9])[..4] + Frame([7])) != [[7]]
  {
    var torn := Frame([9, 9, 9, 9, 9])[..4];
    LeValueOfLeBytes(5);
    LeValueOfLeBytes(1);
    assert torn == [5, 0, 0, 0];
    var log := torn + Frame([7]);
    assert Frame([7]) == [1, 0, 0, 0, 7];
    assert log == [5, 0, 0, 0, 1, 0, 0, 0, 7];
    assert log[..4] == [5, 0, 0, 0];
    assert log[4..9] == Frame([7]);
    assert DecodeFrames(log[9..]) == [];
  }

  /** A payload of 2^32 bytes or more gets a prefix that understates its
      length, so the framed log no longer reads back as that payload. */
  lemma OversizedPayloadMisframed(p: seq<byte>)
    requires |p| >= U32_LIMIT
    ensures DecodeFrames(Frame(p)) != [p]
  {
    var f := Frame(p);
    var n := AsU32(|p|);
    FramePrefixIsLength(p);
    assert n < |p|;
    assert f[4..4 + n] == p[..n];
    assert DecodeFrames(f)[0] == p[..n];
  }

  /** The write-ahead log handle.  `log` is the content of the log file; the
      handle flushes after every entry, so no bytes linger in the writer's
      buffer between calls. */
  class WriteAheadLog {
    var log: seq<byte>
    /** `bincode::serialize`, which the model does not look into. */
    const serialize: WalEntry -> Option<seq<byte>>
    /** The file's content when it was opened. */
    ghost const initial: seq<byte>
    /** The entries this handle has written, and their payloads. */
    ghost var entries: seq<WalEntry>
    ghost var payloads: seq<seq<byte>>

    ghost predicate Valid()
      reads this
    {
      && |payloads| == |entries|
      && (forall i :: 0 <= i < |entries| ==> serialize(entries[i]) == Some(payloads[i]))
      && log == initial + Frames(payloads)
    }

    /** `WriteAheadLog::new`: opens (creating it if need be) the log file in
        append mode, keeping whatever it already holds. */
    constructor (existing: seq<byte>, serialize: WalEntry -> Option<seq<byte>>)
      ensures Valid()
      ensures log == existing && initial == existing && this.serialize == serialize
      ensures entries == [] && payloads == []
    {
      log := existing;
      this.serialize := serialize;
      initial := existing;
      entries := [];
      payloads := [];
    }

    /** The outcome of writing `entry` under device answer `io`: a failed
        serialisation or a failed write leaves the log as it was; otherwise
        exactly one frame is appended and every earlier byte is kept. */
    twostate predicate EntryWritten(entry: WalEntry, io: IoStatus, new r: Result<()>)
      reads this
    {
      && (serialize(entry).None? ==> r == Err(SerializeError))
      && (serialize(entry).Some? && io == IoFail ==> r == Err(IoError))
      && (serialize(entry).Some? && io == IoOk ==> r == Ok(()))
      && (r.Ok? ==>
            && log == old(log) + Frame(serialize(entry).value)
            && |log| == |old(log)| + 4 + |serialize(entry).value|
            && log[..|old(log)|] == old(log)
            && entries == old(entries) + [entry]
            && payloads == old(payloads) + [serialize(entry).value])
      && (r.Err? ==> log == old(log) && entries == old(entries) && payloads == old(payloads))
    }

    /** `write_entry`: serialise, write the `u32` length prefix, write the
        payload, flush. */
    method WriteEntry(entry: WalEntry, io: IoStatus) returns (r: Result<()>)
      requires Valid()
      modifies this
      ensures Valid()
      ensures EntryWritten(entry, io, r)
    {
      var serialized := serialize(entry);
      if serialized.None? {
        return Err(SerializeError);
      }
      var payload := serialized.value;
      var len := AsU32(|payload|);
      if io == IoFail {
        return Err(IoError);
      }
      log := log + LeBytes(len);
      log := log + payload;
      FramesAppend(payloads, payload);
      entries := entries + [entry];
      payloads := payloads + [payload];
      r := Ok(());
    }

    /** `write_document_entry`: logs `Document(doc)`. */
    method WriteDocumentEntry(doc: ReviewDocument, io: IoStatus) returns (r: Result<()>)
      requires Valid()
      modifies this
      ensures Valid()
      ensures EntryWritten(Document(doc), io, r)
    {
      r := WriteEntry(Document(doc), io);
    }

    /** `write_delete_entry`: logs `Delete(id)`. */
    method WriteDeleteEntry(id: Uuid, io: IoStatus) returns (r: Result<()>)
      requires Valid()
      modifies this
      ensures Valid()
      ensures EntryWritten(Delete(id), io, r)
    {
      r := WriteEntry(Delete(id), io);
    }

    /** `sync`: flush and fsync.  It changes nothing the model can see (it
        modifies nothing), and reports the device's failure. */
    method Sync(io: IoStatus) returns (r: Result<()>)
      ensures r.Ok? <==> io == IoOk
      ensures r.Err? ==> r.error == IoError
    {
      if io == IoFail {
        return Err(IoError);
      }
      r := Ok(());
    }
  }
}
