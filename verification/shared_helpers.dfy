/** Bulk decoding of one section payload (`read_types`). The header's element
    size is the stride between records and its element count the number of
    records; neither is checked against the record type's own width. */
module SharedHelpers {
  import opened Wrappers
  import opened Binary
  import opened SharedData

  /** The `ValueError`s of `from_buffer_copy`, and the one a buffered file
      raises for a read length below -1. */
  datatype ReadError =
    | NegativeOffset(offset: int)
    | BufferTooSmall(available: nat, needed: int)
    | NegativeReadLength(length: int)

  /** What a call leaves behind: the list with the records appended (on an
      error, those appended before it), the unread part of the stream, and
      the error raised, if any. */
  datatype ReadResult = ReadResult(data: seq<Bytes>, rest: Bytes, error: Option<ReadError>)

  /** `fp.read(n)` on an `io.BytesIO` (or an unbuffered `io.FileIO`): at
      most `n` bytes, and everything that is left when `n` is negative. */
  function StreamRead(stream: Bytes, n: int): (chunk: Bytes)
    ensures chunk <= stream
    ensures n < 0 ==> chunk == stream
    ensures n >= 0 ==> |chunk| == (if n <= |stream| then n else |stream|)
  {
    if n < 0 || n >= |stream| then stream else stream[..n]
  }

  /** `fp.read(n)` on a buffered binary file, which is what `open(path, 'rb')`
      returns: -1 reads to the end like an in-memory stream, and any smaller
      length is a `ValueError` raised before anything is read. */
  function BufferedRead(stream: Bytes, n: int): (r: Result<Bytes, ReadError>)
    ensures r.Failure? <==> n < -1
    ensures r.Failure? ==> r.error == NegativeReadLength(n)
    ensures r.Success? ==> r.value <= stream
    ensures r.Success? && n == -1 ==> r.value == stream
    ensures r.Success? && n >= 0 ==> |r.value| == (if n <= |stream| then n else |stream|)
  {
    if n < -1 then Failure(NegativeReadLength(n)) else Success(StreamRead(stream, n))
  }

  /** A record `width` bytes wide starting at `offset` lies inside a buffer
      of `available` bytes. */
  predicate Fits(available: nat, width: nat, offset: int)
  {
    0 <= offset && offset + width <= available
  }

  /** `data_class.from_buffer_copy(buffer, offset)` for a structure type of
      `width` bytes: a copy of the bytes at `offset`, or an error. */
  function FromBufferCopy(buffer: Bytes, width: nat, offset: int): (r: Result<Bytes, ReadError>)
    ensures r.Success? <==> Fits(|buffer|, width, offset)
    ensures r.Success? ==> r.value == buffer[offset..offset + width]
  {
    if offset < 0 then Failure(NegativeOffset(offset))
    else if |buffer| < offset + width then Failure(BufferTooSmall(|buffer|, offset + width))
    else Success(buffer[offset..offset + width])
  }

  datatype Cut = Cut(records: seq<Bytes>, error: Option<ReadError>)

  /** The offset of record `k`: `k` strides from the start, built up the way
      the loop advances its running offset. */
  function RecordOffset(k: nat, stride: int): (offset: int)
  {
    if k == 0 then 0 else RecordOffset(k - 1, stride) + stride
  }

  lemma {:induction false} RecordOffsetIsProduct(k: nat, stride: int)
    ensures RecordOffset(k, stride) == k * stride
  {
    if k > 0 {
      RecordOffsetIsProduct(k - 1, stride);
      assert (k - 1) * stride + stride == k * stride;
    }
  }

  /** `record` is record `k` of `buffer`: the copy at its record offset,
      which lies inside the buffer. */
  predicate RecordAt(buffer: Bytes, width: nat, stride: int, k: nat, record: Bytes)
  {
    var offset := RecordOffset(k, stride);
    Fits(|buffer|, width, offset) && record == buffer[offset .. offset + width]
  }

  /** Records `i`, `i + 1`, ... `count - 1`, each copied from its record
      offset, stopping at the first copy that fails. */
  function CutRecords(buffer: Bytes, width: nat, stride: int, count: int, i: nat): (c: Cut)
    decreases if i < count then count - i else 0
  {
    if i >= count then Cut([], None)
    else
      var record := FromBufferCopy(buffer, width, RecordOffset(i, stride));
      if record.Failure? then Cut([], Some(record.error))
      else
        var tail := CutRecords(buffer, width, stride, count, i + 1);
        Cut([record.value] + tail.records, tail.error)
  }

  /** The cut holds record `k` at position `k - i`, runs to `count` unless a
      copy fails, and a failure is the error of the first copy that does
      not fit. */
  lemma {:induction false} CutRecordsSpec(buffer: Bytes, width: nat, stride: int, count: int, i: nat)
    ensures var c := CutRecords(buffer, width, stride, count, i);
            && (forall j :: 0 <= j < |c.records| ==> RecordAt(buffer, width, stride, i + j, c.records[j]))
            && (c.error.None? <==> |c.records| == (if i < count then count - i else 0))
            && (c.error.Some? ==>
                  i + |c.records| < count
                  && !Fits(|buffer|, width, RecordOffset(i + |c.records|, stride))
                  && c.error == Some(FromBufferCopy(buffer, width, RecordOffset(i + |c.records|, stride)).error))
    decreases if i < count then count - i else 0
  {
    if i < count {
      var record := FromBufferCopy(buffer, width, RecordOffset(i, stride));
      if record.Success? {
        CutRecordsSpec(buffer, width, stride, count, i + 1);
        var tail := CutRecords(buffer, width, stride, count, i + 1);
        var c := CutRecords(buffer, width, stride, count, i);
        assert c.records == [record.value] + tail.records;
        assert forall j :: 1 <= j < |c.records| ==> c.records[j] == tail.records[j - 1];
      }
    }
  }

  /** One step of the cut: record `i` is copied, or the cut stops there. */
  lemma CutRecordsStep(buffer: Bytes, width: nat, stride: int, count: int, i: nat)
    requires i < count
    ensures var record := FromBufferCopy(buffer, width, RecordOffset(i, stride));
            var tail := CutRecords(buffer, width, stride, count, i + 1);
            CutRecords(buffer, width, stride, count, i) ==
              if record.Failure? then Cut([], Some(record.error))
              else Cut([record.value] + tail.records, tail.error)
  {
  }

  /** `read_types(fp, data_class, section, data)` where `data_class` is
      `width` bytes wide: read `data_size * data_count` bytes, then append
      `data_count` records, record `k` copied from `k` strides of
      `data_size` into what was read. `fp` is an in-memory stream here;
      `ReadTypesBuffered` covers a buffered file. What it promises is stated
      by `ReadTypesSpec`. */
  function ReadTypes(stream: Bytes, width: nat, section: Section, data: seq<Bytes>): (r: ReadResult)
  {
    var buffer := StreamRead(stream, section.dataSize * section.dataCount);
    var cut := CutRecords(buffer, width, section.dataSize, section.dataCount, 0);
    ReadResult(data + cut.records, stream[|buffer|..], cut.error)
  }

  /** What `read_types` leaves behind: the unread rest of the stream, the
      list with its old items first, record `k` copied from `k` strides into
      what was read, all `data_count` records when no error is raised, and
      otherwise a short list ending just before a record that does not
      fit. */
  lemma ReadTypesSpec(stream: Bytes, width: nat, section: Section, data: seq<Bytes>)
    ensures var r := ReadTypes(stream, width, section, data);
            var buffer := StreamRead(stream, section.dataSize * section.dataCount);
            && r.rest == stream[|buffer|..]
            && |data| <= |r.data|
            && r.data[..|data|] == data
            && (forall j :: |data| <= j < |r.data| ==>
                  RecordAt(buffer, width, section.dataSize, j - |data|, r.data[j]))
            && (r.error.None? <==> |r.data| == |data| + (if section.dataCount > 0 then section.dataCount else 0))
            && (r.error.Some? ==>
                  |r.data| - |data| < section.dataCount
                  && !Fits(|buffer|, width, RecordOffset(|r.data| - |data|, section.dataSize)))
  {
    var buffer := StreamRead(stream, section.dataSize * section.dataCount);
    CutRecordsSpec(buffer, width, section.dataSize, section.dataCount, 0);
    var r := ReadTypes(stream, width, section, data);
    assert r.data[..|data|] == data;
  }

  /** `read_types` as the source writes it: one `fp.read`, then the loop. */
  method ReadTypesLoop(stream: Bytes, width: nat, section: Section, data: seq<Bytes>) returns (r: ReadResult)
    ensures r == ReadTypes(stream, width, section, data)
  {
    var bufferLength := section.dataSize * section.dataCount;
    var buffer := StreamRead(stream, bufferLength);
    var out, error := AppendRecords(buffer, width, section.dataSize, section.dataCount, data);
    r := ReadResult(out, stream[|buffer|..], error);
  }

  /** The loop of `read_types`, with a running offset advanced by the stride
      after each record; it appends what `CutRecords` cuts. */
  method AppendRecords(buffer: Bytes, width: nat, stride: int, count: int, data: seq<Bytes>)
    returns (out: seq<Bytes>, error: Option<ReadError>)
    ensures var all := CutRecords(buffer, width, stride, count, 0);
            out == data + all.records && error == all.error
  {
    out := data;
    var offset := 0;
    var i: nat := 0;
    ghost var all := CutRecords(buffer, width, stride, count, 0);
    while i < count
      invariant i <= (if count < 0 then 0 else count)
      invariant offset == RecordOffset(i, stride)
      invariant |data| <= |out| && out[..|data|] == data
      invariant var tail := CutRecords(buffer, width, stride, count, i);
                all == Cut(out[|data|..] + tail.records, tail.error)
    {
      var record := FromBufferCopy(buffer, width, offset);
      CutRecordsStep(buffer, width, stride, count, i);
      if record.Failure? {
        assert out == data + all.records;
        return out, Some(record.error);
      }
      ghost var tail := CutRecords(buffer, width, stride, count, i + 1);
      assert out[|data|..] + ([record.value] + tail.records) == (out + [record.value])[|data|..] + tail.records;
      out := out + [record.value];
      offset := offset + stride;
      i := i + 1;
    }
    assert out == data + all.records;
    return out, None;
  }

  /** With `data_count == 0` nothing is read and the list is unchanged. */
  lemma ReadTypesEmptySection(stream: Bytes, width: nat, section: Section, data: seq<Bytes>)
    requires section.dataCount == 0
    ensures ReadTypes(stream, width, section, data) == ReadResult(data, stream, None)
  {
    ReadTypesSpec(stream, width, section, data);
    var r := ReadTypes(stream, width, section, data);
    assert r.data == r.data[..|data|];
  }

  /** A stride at least the record width, and a stream holding the whole
      payload: every record is cut, exactly `data_size * data_count` bytes
      are consumed, and the bytes between records are skipped unchecked. */
  lemma ReadTypesWideStride(stream: Bytes, width: nat, section: Section, data: seq<Bytes>)
    requires width <= section.dataSize
    requires 0 <= section.dataCount
    requires section.dataSize * section.dataCount <= |stream|
    ensures var r := ReadTypes(stream, width, section, data);
            && r.error.None?
            && |r.data| == |data| + section.dataCount
            && r.rest == stream[section.dataSize * section.dataCount..]
  {
    ReadTypesSpec(stream, width, section, data);
    var r := ReadTypes(stream, width, section, data);
    var size: int, count: int := section.dataSize, section.dataCount;
    NonNegativeProduct(size, count);
    var buffer := StreamRead(stream, size * count);
    assert |buffer| == size * count;
    if r.error.Some? {
      var k := |r.data| - |data|;
      StrideFits(k, count, size, width);
      RecordOffsetIsProduct(k, size);
      assert false;
    }
  }

  /** A stride narrower than the record width is never accepted: some copy
      runs past the payload that was read. */
  lemma ReadTypesNarrowStride(stream: Bytes, width: nat, section: Section, data: seq<Bytes>)
    requires 0 <= section.dataSize < width
    requires 1 <= section.dataCount
    ensures ReadTypes(stream, width, section, data).error.Some?
  {
    ReadTypesSpec(stream, width, section, data);
    var r := ReadTypes(stream, width, section, data);
    var size: int, count: int := section.dataSize, section.dataCount;
    NonNegativeProduct(size, count);
    var buffer := StreamRead(stream, size * count);
    assert |buffer| <= size * count;
    if r.error.None? {
      assert RecordAt(buffer, width, size, count - 1, r.data[|data| + count - 1]);
      RecordOffsetIsProduct(count - 1, size);
      assert false;
    }
  }

  /** A negative element size with a positive count: `fp.read` is asked
      for a negative length. On an in-memory stream it returns the whole
      rest, so the first record is copied from its start; a second record
      would sit at a negative offset, which `from_buffer_copy` refuses. On a
      buffered file any product below -1 fails in `fp.read` instead. */
  lemma ReadTypesNegativeStride(stream: Bytes, width: nat, section: Section, data: seq<Bytes>)
    requires section.dataSize < 0 && 1 <= section.dataCount
    requires width <= |stream|
    ensures var r := ReadTypes(stream, width, section, data);
            && r.data == data + [stream[..width]]
            && r.rest == []
            && r.error == (if section.dataCount == 1 then None else Some(NegativeOffset(section.dataSize)))
    ensures section.dataSize * section.dataCount < -1 ==>
              ReadTypesBuffered(stream, width, section, data).error
                == Some(NegativeReadLength(section.dataSize * section.dataCount))
  {
    var size: int, count: int := section.dataSize, section.dataCount;
    NonNegativeProduct(-size, count - 1);
    assert size * count <= size;
    assert StreamRead(stream, size * count) == stream;
    CutRecordsStep(stream, width, size, count, 0);
    if count > 1 {
      CutRecordsStep(stream, width, size, count, 1);
    }
  }

  lemma NonNegativeProduct(a: int, b: int)
    requires 0 <= a && 0 <= b
    ensures 0 <= a * b
  {
  }

  lemma StrideFits(k: int, count: int, size: int, width: nat)
    requires 0 <= k < count
    requires width <= size
    ensures 0 <= k * size
    ensures k * size + width <= count * size
  {
    assert k * size + size == (k + 1) * size;
    assert (k + 1) * size <= count * size;
  }

  /** On an in-memory stream, a negative count with a positive size asks
      `fp.read` for a negative length, which swallows the rest of the
      stream, while the loop appends nothing. */
  lemma ReadTypesNegativeCount(stream: Bytes, width: nat, section: Section, data: seq<Bytes>)
    requires 0 < section.dataSize
    requires section.dataCount < 0
    ensures ReadTypes(stream, width, section, data) == ReadResult(data, [], None)
  {
    ReadTypesSpec(stream, width, section, data);
    var r := ReadTypes(stream, width, section, data);
    assert section.dataSize * section.dataCount < 0;
    assert r.data == r.data[..|data|];
  }

  /** `read_types(fp, ...)` where `fp` is a buffered binary file: the same
      as on an in-memory stream, except that a product `data_size *
      data_count` below -1 makes `fp.read` raise before the list or the
      stream is touched. */
  function ReadTypesBuffered(stream: Bytes, width: nat, section: Section, data: seq<Bytes>): (r: ReadResult)
  {
    var read := BufferedRead(stream, section.dataSize * section.dataCount);
    if read.Failure? then ReadResult(data, stream, Some(read.error))
    else ReadTypes(stream, width, section, data)
  }

  /** Headers with a non-negative size and count read the same from a
      buffered file as from an in-memory stream. */
  lemma ReadTypesBufferedAgrees(stream: Bytes, width: nat, section: Section, data: seq<Bytes>)
    requires 0 <= section.dataSize && 0 <= section.dataCount
    ensures ReadTypesBuffered(stream, width, section, data) == ReadTypes(stream, width, section, data)
  {
    NonNegativeProduct(section.dataSize, section.dataCount);
  }

  /** On a buffered file a negative count with a positive size fails in
      `fp.read` unless the product is exactly -1; nothing is appended and
      nothing is consumed. */
  lemma ReadTypesBufferedNegativeCount(stream: Bytes, width: nat, section: Section, data: seq<Bytes>)
    requires 0 < section.dataSize
    requires section.dataCount < 0
    requires 1 < section.dataSize || section.dataCount < -1
    ensures ReadTypesBuffered(stream, width, section, data)
              == ReadResult(data, stream, Some(NegativeReadLength(section.dataSize * section.dataCount)))
  {
    NegativeProduct(section.dataSize, section.dataCount);
  }

  /** A positive size times a negative count is below -1 unless both are 1
      and -1. */
  lemma NegativeProduct(size: int, count: int)
    requires 0 < size && count < 0
    requires 1 < size || count < -1
    ensures size * count < -1
  {
    NonNegativeProduct(size - 1, -count);
    NonNegativeProduct(size, -count - 1);
  }

  /** Reading back a payload of equal-width records written one after
      another, under a header that gives their width and number, appends
      exactly those records in order and stops right after them. */
  lemma ReadTypesAfterConcat(records: seq<Bytes>, tail: Bytes, width: nat, section: Section, data: seq<Bytes>)
    requires AllWidth(records, width)
    requires section.dataSize == width
    requires section.dataCount == |records|
    ensures ReadTypes(Concat(records) + tail, width, section, data) == ReadResult(data + records, tail, None)
  {
    var stream := Concat(records) + tail;
    ConcatLength(records, width);
    ReadTypesSpec(stream, width, section, data);
    ReadTypesWideStride(stream, width, section, data);
    var r := ReadTypes(stream, width, section, data);
    var buffer := StreamRead(stream, width * |records|);
    assert buffer == Concat(records);
    forall j | |data| <= j < |r.data|
      ensures r.data[j] == (data + records)[j]
    {
      RecordOfConcat(records, width, j - |data|, r.data[j]);
    }
    assert stream[width * |records|..] == tail;
  }

  /** Record `k` of equal-width records written one after another, cut at
      a stride of their width, is the `k`-th record itself. */
  lemma RecordOfConcat(records: seq<Bytes>, width: nat, k: nat, record: Bytes)
    requires AllWidth(records, width)
    requires k < |records|
    requires RecordAt(Concat(records), width, width, k, record)
    ensures record == records[k]
  {
    RecordOffsetIsProduct(k, width);
    ConcatWindow(records, width, k);
  }
}
