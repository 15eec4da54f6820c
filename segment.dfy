/** The segment file of `puresearch-storage`: an append-only byte store read
    through a cached memory map that every write invalidates. */
module Segment {
  import opened Types

  class SegmentFile {
    /** The bytes on disk. */
    var file: seq<byte>
    /** The cached mapped view: a snapshot of `file` taken when it was mapped. */
    var mmap: Option<seq<byte>>
    /** The byte count the handle keeps; `len()` reports it. */
    var size: nat
    /** Bytes that were already in the file when `create` opened it, which
        `size` does not count (`create` does not truncate). */
    ghost var uncounted: nat

    /** `size` counts every byte except the uncounted ones, and a cached view
        is never stale: it is always the whole current file. */
    ghost predicate Valid()
      reads this
    {
      && |file| == uncounted + size
      && (mmap.Some? ==> mmap.value == file)
    }

    /** `SegmentFile::create`: opens the file, creating it if missing but not
        truncating it, with no view and a size of 0. */
    constructor Create(existing: seq<byte>)
      ensures Valid()
      ensures file == existing && mmap == None && size == 0
      ensures uncounted == |existing|
    {
      file := existing;
      mmap := None;
      size := 0;
      uncounted := |existing|;
    }

    /** `SegmentFile::open`: takes the size from the file's length and maps the
        file at once if it is non-empty. */
    constructor Open(existing: seq<byte>)
      ensures Valid()
      ensures file == existing && size == |existing| && uncounted == 0
      ensures mmap.Some? <==> |existing| > 0
    {
      file := existing;
      size := |existing|;
      mmap := if |existing| > 0 then Some(existing) else None;
      uncounted := 0;
    }

    /** `write`: appends `data` at the end of the file and returns the offset
        where it starts, the file length before the write.  A failed write is
        reported as an I/O error and changes nothing. */
    method Write(data: seq<byte>, io: IoStatus) returns (r: Result<nat>)
      requires Valid()
      modifies this
      ensures Valid()
      ensures io == IoOk ==>
        && r == Ok(|old(file)|)
        && file == old(file) + data
        && file[..|old(file)|] == old(file)
        && size == old(size) + |data|
        && mmap == None
        && uncounted == old(uncounted)
      ensures io == IoOk && old(uncounted) == 0 ==> r == Ok(old(size))
      ensures io == IoFail ==>
        && r == Err(IoError)
        && file == old(file) && size == old(size) && mmap == old(mmap)
        && uncounted == old(uncounted)
    {
      if io == IoFail {
        return Err(IoError);
      }
      var offset := |file|;
      file := file + data;
      size := size + |data|;
      mmap := None;
      r := Ok(offset);
    }

    /** `read_at`: maps the file first if there is no view and `size` is
        positive, then serves `len` bytes at `offset` from the view.  Fails with
        an I/O error if the mapping fails, with `EmptySegment` if there is
        still no view, and with `ReadBeyondBounds` past the view's end. */
    method ReadAt(offset: nat, len: nat, io: IoStatus) returns (r: Result<seq<byte>>)
      requires Valid()
      modifies this`mmap
      ensures Valid()
      ensures mmap == if old(mmap).None? && size > 0 && io == IoOk then Some(file) else old(mmap)
      ensures r.Ok? <==> mmap.Some? && offset + len <= |file|
      ensures r.Ok? ==> r.value == file[offset..offset + len]
      ensures old(mmap).None? && size > 0 && io == IoFail ==> r == Err(IoError)
      ensures old(mmap).None? && size == 0 ==> r == Err(EmptySegment)
      ensures mmap.Some? && offset + len > |file| ==> r == Err(ReadBeyondBounds)
    {
      if mmap.None? && size > 0 {
        if io == IoFail {
          return Err(IoError);
        }
        mmap := Some(file);
      }
      if mmap.Some? {
        var view := mmap.value;
        if offset + len <= |view| {
          r := Ok(view[offset..offset + len]);
        } else {
          r := Err(ReadBeyondBounds);
        }
      } else {
        r := Err(EmptySegment);
      }
    }

    /** `len`: the handle's byte count, which is the file length exactly when
        nothing was in the file before `create`. */
    function Len(): (n: nat)
      reads this
      requires Valid()
      ensures n <= |file|
      ensures n == |file| <==> uncounted == 0
    {
      size
    }

    /** `is_empty`. */
    predicate IsEmpty()
      reads this
      requires Valid()
      ensures IsEmpty() <==> Len() == 0
    {
      size == 0
    }
  }

  /** Round trip through a segment: bytes written at the returned offset read
      back unchanged, provided the segment then counts at least one byte (a
      segment whose size stays 0 refuses every read). */
  method WriteThenRead(seg: SegmentFile, data: seq<byte>) returns (offset: nat, back: Result<seq<byte>>)
    requires seg.Valid()
    requires seg.size + |data| > 0
    modifies seg
    ensures seg.Valid()
    ensures offset == |old(seg.file)|
    ensures back == Ok(data)
  {
    var w := seg.Write(data, IoOk);
    offset := w.value;
    assert seg.file[offset..offset + |data|] == data;
    back := seg.ReadAt(offset, |data|, IoOk);
  }
}
