/** Reading back what the writer produces: a reader that takes one header
    and hands its element size and count to `read_types`, applied to the
    four sections in turn, recovers the names, the bones, the sequence
    records and the keys, and consumes the whole file. */
module PsaRoundTrip {
  import opened Wrappers
  import opened Binary
  import opened CTypes
  import opened SharedData
  import opened SharedHelpers
  import opened PsaWriter

  datatype SectionError =
    | TruncatedHeader(available: nat)
    | RecordError(error: ReadError)

  /** A header and the records read under it. */
  datatype Chunk = Chunk(header: Section, records: seq<Bytes>)

  /** One header, then `read_types` for records of `width` bytes; returns the
      chunk and the bytes after it. */
  function ReadSection(stream: Bytes, width: nat): (r: Result<(Chunk, Bytes), SectionError>)
    ensures |stream| < SectionSize <==> r == Failure(TruncatedHeader(|stream|))
  {
    if |stream| < SectionSize then Failure(TruncatedHeader(|stream|))
    else
      var header := DecodeSection(stream[..SectionSize]);
      var read := ReadTypes(stream[SectionSize..], width, header, []);
      if read.error.Some? then Failure(RecordError(read.error.value))
      else Success((Chunk(header, read.data), read.rest))
  }

  /** Sections read one after another, the `i`-th with records of
      `widths[i]` bytes, each starting where the previous one stopped. */
  function ReadSections(stream: Bytes, widths: seq<nat>): (r: Result<(seq<Chunk>, Bytes), SectionError>)
    ensures r.Success? ==> |r.value.0| == |widths|
    decreases |widths|
  {
    if |widths| == 0 then Success(([], stream))
    else
      var first :- ReadSection(stream, widths[0]);
      var more :- ReadSections(first.1, widths[1..]);
      Success(([first.0] + more.0, more.1))
  }

  /** The record widths of the four sections of an animation file: none for
      the bare header, then bones, sequence infos and keys. */
  function PsaWidths(sequenceSize: nat, keySize: nat): seq<nat>
  {
    [0, BoneSize, sequenceSize, keySize]
  }

  /** Each section reads back as its own chunk, whatever follows it. */
  ghost predicate ReadsBack(sections: seq<Bytes>, widths: seq<nat>, chunks: seq<Chunk>)
    requires |sections| == |widths| == |chunks|
  {
    forall i, t :: 0 <= i < |sections| ==> ReadSection(sections[i] + t, widths[i]) == Success((chunks[i], t))
  }

  /** Sections that each read back as their own chunk, whatever follows
      them, read back as those chunks when written one after another. */
  lemma {:induction false} ReadConcatenatedSections(sections: seq<Bytes>, widths: seq<nat>, chunks: seq<Chunk>, tail: Bytes)
    requires |sections| == |widths| == |chunks|
    requires ReadsBack(sections, widths, chunks)
    ensures ReadSections(Concat(sections) + tail, widths) == Success((chunks, tail))
    decreases |sections|
  {
    if |sections| == 0 {
      assert Concat(sections) + tail == tail;
    } else {
      var rest := Concat(sections[1..]) + tail;
      ConcatCons(sections, tail);
      ReadsBackTail(sections, widths, chunks);
      ReadConcatenatedSections(sections[1..], widths[1..], chunks[1..], tail);
      ReadSectionsCons(sections[0] + rest, widths, chunks[0], rest, chunks[1..], tail);
      assert [chunks[0]] + chunks[1..] == chunks;
    }
  }

  lemma ConcatCons(sections: seq<Bytes>, tail: Bytes)
    requires |sections| > 0
    ensures Concat(sections) + tail == sections[0] + (Concat(sections[1..]) + tail)
  {
    AppendAssoc(sections[0], Concat(sections[1..]), tail);
  }

  lemma ReadsBackTail(sections: seq<Bytes>, widths: seq<nat>, chunks: seq<Chunk>)
    requires 0 < |sections| == |widths| == |chunks|
    requires ReadsBack(sections, widths, chunks)
    ensures ReadsBack(sections[1..], widths[1..], chunks[1..])
  {
    forall i, t | 0 <= i < |sections| - 1
      ensures ReadSection(sections[1..][i] + t, widths[1..][i]) == Success((chunks[1..][i], t))
    {
      assert ReadSection(sections[i + 1] + t, widths[i + 1]) == Success((chunks[i + 1], t));
    }
  }

  /** One step of the multi-section reader. */
  lemma ReadSectionsCons(stream: Bytes, widths: seq<nat>, first: Chunk, rest: Bytes, more: seq<Chunk>, tail: Bytes)
    requires |widths| > 0
    requires ReadSection(stream, widths[0]) == Success((first, rest))
    requires ReadSections(rest, widths[1..]) == Success((more, tail))
    ensures ReadSections(stream, widths) == Success(([first] + more, tail))
  {
  }

  /** A header followed by `payload`, reading records of `width` bytes:
      the header comes back as written and the payload is read as it is. */
  lemma ReadAfterHeader(header: Section, payload: Bytes, width: nat)
    ensures var stream := EncodeSection(header) + payload;
            ReadSection(stream, width) == (
              var read := ReadTypes(payload, width, header, []);
              if read.error.Some? then Failure(RecordError(read.error.value))
              else Success((Chunk(header, read.data), read.rest)))
  {
    var stream := EncodeSection(header) + payload;
    assert stream[..SectionSize] == EncodeSection(header);
    assert stream[SectionSize..] == payload;
  }

  /** The bytes `_write_section` produces are a constructed header followed
      by the payload. */
  lemma WrittenSectionShape(name: Bytes, recordSize: Option<nat>, data: Option<seq<Bytes>>)
    requires |CharArrayValue(name)| <= 20
    ensures var typed := recordSize.Some? && data.Some?;
            var header := NewSection(name, 0,
                                     if typed then recordSize.value else 0,
                                     if typed then |data.value| else 0).value;
            WriteSection(name, recordSize, data).value == EncodeSection(header) + Payload(data)
  {
    var typed := recordSize.Some? && data.Some?;
    var header := NewSection(name, 0, if typed then recordSize.value else 0, if typed then |data.value| else 0).value;
    var bytes := WriteSection(name, recordSize, data).value;
    assert DecodeSection(bytes[..SectionSize]) == header;
    EncodeDecodeSection(bytes[..SectionSize]);
    assert bytes == bytes[..SectionSize] + bytes[SectionSize..];
  }

  /** A header announcing `records` at their own width, followed by those
      records, reads back as that header and those records. */
  lemma ReadHeaderAndRecords(header: Section, records: seq<Bytes>, tail: Bytes, width: nat)
    requires AllWidth(records, width)
    requires header.dataSize == width
    requires header.dataCount == |records|
    ensures ReadSection(EncodeSection(header) + (Concat(records) + tail), width)
              == Success((Chunk(header, records), tail))
  {
    ReadAfterHeader(header, Concat(records) + tail, width);
    ReadTypesAfterConcat(records, tail, width, header, []);
    assert [] + records == records;
  }

  /** A section written with records of `width` bytes reads back as the
      header the constructor builds from the name, width and count, then
      exactly those records, leaving whatever follows untouched. */
  lemma ReadWrittenSection(name: Bytes, width: nat, records: seq<Bytes>, tail: Bytes)
    requires |CharArrayValue(name)| <= 20
    requires AllWidth(records, width)
    requires width < 0x8000_0000
    requires |records| < 0x8000_0000
    ensures ReadSection(WriteSection(name, Some(width), Some(records)).value + tail, width)
              == Success((Chunk(NewSection(name, 0, width, |records|).value, records), tail))
  {
    var header := NewSection(name, 0, width, |records|).value;
    WrittenSectionShape(name, Some(width), Some(records));
    AppendAssoc(EncodeSection(header), Concat(records), tail);
    ReadHeaderAndRecords(header, records, tail, width);
  }

  /** A bare header reads back with no records, whatever the width. */
  lemma ReadHeaderOnlySection(name: Bytes, width: nat, tail: Bytes)
    requires |CharArrayValue(name)| <= 20
    ensures ReadSection(WriteSection(name, None, None).value + tail, width)
              == Success((Chunk(NewSection(name, 0, 0, 0).value, []), tail))
  {
    var header := NewSection(name, 0, 0, 0).value;
    HeaderOnlySection(name);
    ReadAfterHeader(header, tail, width);
    ReadTypesEmptySection(tail, width, header, []);
  }

  /** Records written without a record type sit under a header that
      announces none: a reader takes the header alone and is left in front
      of the records. */
  lemma ReadUntypedSection(name: Bytes, data: seq<Bytes>, width: nat, tail: Bytes)
    requires |CharArrayValue(name)| <= 20
    ensures ReadSection(WriteSection(name, None, Some(data)).value + tail, width)
              == Success((Chunk(NewSection(name, 0, 0, 0).value, []), Concat(data) + tail))
  {
    var header := NewSection(name, 0, 0, 0).value;
    WrittenSectionShape(name, None, Some(data));
    AppendAssoc(EncodeSection(header), Concat(data), tail);
    ReadAfterHeader(header, Concat(data) + tail, width);
    ReadTypesEmptySection(Concat(data) + tail, width, header, []);
  }

  /** The section names contain no NUL, so each reads back whole. */
  lemma SectionNamesHaveNoNul()
    ensures NUL !in AnimHead && NUL !in BoneNames && NUL !in AnimInfo && NUL !in AnimKeys
  {
  }

  /** The chunks an animation file should read back as: each header as the
      constructor builds it from the section name, record size and count,
      and the records that were written. */
  function PsaChunks(psa: Psa, sequenceSize: nat, keySize: nat): seq<Chunk>
  {
    [ Chunk(NewSection(AnimHead, 0, 0, 0).value, []),
      Chunk(NewSection(BoneNames, 0, BoneSize, |psa.bones|).value, EncodeBones(psa.bones)),
      Chunk(NewSection(AnimInfo, 0, sequenceSize, |psa.sequences|).value, SequenceValues(psa)),
      Chunk(NewSection(AnimKeys, 0, keySize, |psa.keys|).value, psa.keys) ]
  }

  /** `write_psa` followed by reading the four sections in turn gives back
      every header as constructed and every record as written, in order,
      and nothing is left over. Record sizes and counts must fit in an int32
      header field. */
  lemma WritePsaRoundTrip(psa: Psa, sequenceSize: nat, keySize: nat)
    requires AllWidth(SequenceValues(psa), sequenceSize)
    requires AllWidth(psa.keys, keySize)
    requires sequenceSize < 0x8000_0000 && keySize < 0x8000_0000
    requires |psa.bones| < 0x8000_0000 && |psa.sequences| < 0x8000_0000 && |psa.keys| < 0x8000_0000
    ensures ReadSections(WritePsa(psa, sequenceSize, keySize), PsaWidths(sequenceSize, keySize))
              == Success((PsaChunks(psa, sequenceSize, keySize), []))
  {
    var sections := PsaSections(psa, sequenceSize, keySize);
    var widths := PsaWidths(sequenceSize, keySize);
    var chunks := PsaChunks(psa, sequenceSize, keySize);
    PsaSectionsReadBack(psa, sequenceSize, keySize);
    ReadConcatenatedSections(sections, widths, chunks, []);
    assert Concat(sections) + [] == Concat(sections);
  }

  /** Each of the four sections reads back as its chunk. */
  lemma PsaSectionsReadBack(psa: Psa, sequenceSize: nat, keySize: nat)
    requires AllWidth(SequenceValues(psa), sequenceSize)
    requires AllWidth(psa.keys, keySize)
    requires sequenceSize < 0x8000_0000 && keySize < 0x8000_0000
    requires |psa.bones| < 0x8000_0000 && |psa.sequences| < 0x8000_0000 && |psa.keys| < 0x8000_0000
    ensures ReadsBack(PsaSections(psa, sequenceSize, keySize), PsaWidths(sequenceSize, keySize),
                      PsaChunks(psa, sequenceSize, keySize))
  {
    var sections := PsaSections(psa, sequenceSize, keySize);
    var widths := PsaWidths(sequenceSize, keySize);
    var chunks := PsaChunks(psa, sequenceSize, keySize);
    forall t ensures ReadSection(sections[0] + t, widths[0]) == Success((chunks[0], t)) {
      HeadSectionReadsBack(psa, sequenceSize, keySize, t);
    }
    forall t ensures ReadSection(sections[1] + t, widths[1]) == Success((chunks[1], t)) {
      BoneSectionReadsBack(psa, sequenceSize, keySize, t);
    }
    forall t ensures ReadSection(sections[2] + t, widths[2]) == Success((chunks[2], t)) {
      InfoSectionReadsBack(psa, sequenceSize, keySize, t);
    }
    forall t ensures ReadSection(sections[3] + t, widths[3]) == Success((chunks[3], t)) {
      KeySectionReadsBack(psa, sequenceSize, keySize, t);
    }
    ReadsBackFour(sections, widths, chunks);
  }

  /** Four sections read back when each of them does. */
  lemma ReadsBackFour(sections: seq<Bytes>, widths: seq<nat>, chunks: seq<Chunk>)
    requires |sections| == |widths| == |chunks| == 4
    requires forall t :: ReadSection(sections[0] + t, widths[0]) == Success((chunks[0], t))
    requires forall t :: ReadSection(sections[1] + t, widths[1]) == Success((chunks[1], t))
    requires forall t :: ReadSection(sections[2] + t, widths[2]) == Success((chunks[2], t))
    requires forall t :: ReadSection(sections[3] + t, widths[3]) == Success((chunks[3], t))
    ensures ReadsBack(sections, widths, chunks)
  {
    forall i, t | 0 <= i < 4
      ensures ReadSection(sections[i] + t, widths[i]) == Success((chunks[i], t))
    {
      if i == 0 {
        assert ReadSection(sections[0] + t, widths[0]) == Success((chunks[0], t));
      } else if i == 1 {
        assert ReadSection(sections[1] + t, widths[1]) == Success((chunks[1], t));
      } else if i == 2 {
        assert ReadSection(sections[2] + t, widths[2]) == Success((chunks[2], t));
      } else {
        assert ReadSection(sections[3] + t, widths[3]) == Success((chunks[3], t));
      }
    }
  }

  lemma HeadSectionReadsBack(psa: Psa, sequenceSize: nat, keySize: nat, t: Bytes)
    ensures ReadSection(PsaSections(psa, sequenceSize, keySize)[0] + t, PsaWidths(sequenceSize, keySize)[0])
              == Success((PsaChunks(psa, sequenceSize, keySize)[0], t))
  {
    ReadHeaderOnlySection(AnimHead, 0, t);
  }

  lemma BoneSectionReadsBack(psa: Psa, sequenceSize: nat, keySize: nat, t: Bytes)
    requires |psa.bones| < 0x8000_0000
    ensures ReadSection(PsaSections(psa, sequenceSize, keySize)[1] + t, PsaWidths(sequenceSize, keySize)[1])
              == Success((PsaChunks(psa, sequenceSize, keySize)[1], t))
  {
    ReadWrittenSection(BoneNames, BoneSize, EncodeBones(psa.bones), t);
  }

  lemma InfoSectionReadsBack(psa: Psa, sequenceSize: nat, keySize: nat, t: Bytes)
    requires AllWidth(SequenceValues(psa), sequenceSize)
    requires sequenceSize < 0x8000_0000 && |psa.sequences| < 0x8000_0000
    ensures ReadSection(PsaSections(psa, sequenceSize, keySize)[2] + t, PsaWidths(sequenceSize, keySize)[2])
              == Success((PsaChunks(psa, sequenceSize, keySize)[2], t))
  {
    ReadWrittenSection(AnimInfo, sequenceSize, SequenceValues(psa), t);
  }

  lemma KeySectionReadsBack(psa: Psa, sequenceSize: nat, keySize: nat, t: Bytes)
    requires AllWidth(psa.keys, keySize)
    requires keySize < 0x8000_0000 && |psa.keys| < 0x8000_0000
    ensures ReadSection(PsaSections(psa, sequenceSize, keySize)[3] + t, PsaWidths(sequenceSize, keySize)[3])
              == Success((PsaChunks(psa, sequenceSize, keySize)[3], t))
  {
    ReadWrittenSection(AnimKeys, keySize, psa.keys, t);
  }

  /** What the round trip means for the animation itself: the names read
      from the headers are the four section names, the bone records decode
      to the bones, and the sequence records and keys are those written. */
  lemma WritePsaRecoversPsa(psa: Psa, sequenceSize: nat, keySize: nat)
    requires AllWidth(SequenceValues(psa), sequenceSize)
    requires AllWidth(psa.keys, keySize)
    requires sequenceSize < 0x8000_0000 && keySize < 0x8000_0000
    requires |psa.bones| < 0x8000_0000 && |psa.sequences| < 0x8000_0000 && |psa.keys| < 0x8000_0000
    ensures var r := ReadSections(WritePsa(psa, sequenceSize, keySize), PsaWidths(sequenceSize, keySize));
            && r.Success?
            && SectionName(r.value.0[0].header) == AnimHead
            && SectionName(r.value.0[1].header) == BoneNames
            && SectionName(r.value.0[2].header) == AnimInfo
            && SectionName(r.value.0[3].header) == AnimKeys
            && AllWidth(r.value.0[1].records, BoneSize)
            && DecodeBones(r.value.0[1].records) == psa.bones
            && r.value.0[2].records == SequenceValues(psa)
            && r.value.0[3].records == psa.keys
  {
    WritePsaRoundTrip(psa, sequenceSize, keySize);
    PsaChunksHoldPsa(psa, sequenceSize, keySize);
  }

  lemma PsaChunksHoldPsa(psa: Psa, sequenceSize: nat, keySize: nat)
    ensures var c := PsaChunks(psa, sequenceSize, keySize);
            && SectionName(c[0].header) == AnimHead
            && SectionName(c[1].header) == BoneNames
            && SectionName(c[2].header) == AnimInfo
            && SectionName(c[3].header) == AnimKeys
            && AllWidth(c[1].records, BoneSize)
            && DecodeBones(c[1].records) == psa.bones
            && c[2].records == SequenceValues(psa)
            && c[3].records == psa.keys
  {
    SectionNamesHaveNoNul();
    ConstructedName(AnimHead, 0, 0);
    ConstructedName(BoneNames, BoneSize, |psa.bones|);
    ConstructedName(AnimInfo, sequenceSize, |psa.sequences|);
    ConstructedName(AnimKeys, keySize, |psa.keys|);
    DecodeEncodeBones(psa.bones);
  }

  /** A header constructed with a NUL-free name of at most 20 bytes reads
      back with exactly that name. */
  lemma ConstructedName(name: Bytes, dataSize: int, dataCount: int)
    requires |name| <= 20
    requires NUL !in name
    ensures SectionName(NewSection(name, 0, dataSize, dataCount).value) == name
  {
    CharArrayValueNoNul(name);
  }
}
