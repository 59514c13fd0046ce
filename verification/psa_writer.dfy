/** Writing an animation container: each section is a 32-byte header
    followed by its records written back to back. */
module PsaWriter {
  import opened Wrappers
  import opened Binary
  import opened CTypes
  import opened SharedData

  /** The four section names, in the order they are written, as ASCII
      bytes: "ANIMHEAD", "BONENAMES", "ANIMINFO" and "ANIMKEYS". */
  const AnimHead: Bytes := [0x41, 0x4E, 0x49, 0x4D, 0x48, 0x45, 0x41, 0x44]
  const BoneNames: Bytes := [0x42, 0x4F, 0x4E, 0x45, 0x4E, 0x41, 0x4D, 0x45, 0x53]
  const AnimInfo: Bytes := [0x41, 0x4E, 0x49, 0x4D, 0x49, 0x4E, 0x46, 0x4F]
  const AnimKeys: Bytes := [0x41, 0x4E, 0x49, 0x4D, 0x4B, 0x45, 0x59, 0x53]

  /** The records that follow a header: all of `data` when it is given,
      nothing otherwise. */
  function Payload(data: Option<seq<Bytes>>): Bytes
  {
    if data.Some? then Concat(data.value) else []
  }

  /** Giving a default header its name is the same as constructing the
      header with that name. */
  lemma NameDefaultSection(name: Bytes)
    requires |CharArrayValue(name)| <= 20
    ensures SetSectionName(NewSection([], 0, 0, 0).value, name) == NewSection(name, 0, 0, 0)
  {
    assert NewSection([], 0, 0, 0).value.nameBuffer == Zeros(20);
  }

  /** `_write_section(fp, name, data_type, data)`: a default header is named
      (a name whose bytes before the first NUL exceed 20 raises before
      anything is written, and only those bytes are stored); only
      when both a record type of `recordSize` bytes and the records are given
      does the header carry their size and number; then the header and every
      record are written. */
  function WriteSection(name: Bytes, recordSize: Option<nat>, data: Option<seq<Bytes>>): (r: Result<Bytes, CTypesError>)
    ensures r.Success? <==> |CharArrayValue(name)| <= 20
    ensures r.Success? ==>
              && |r.value| >= SectionSize
              && var h := DecodeSection(r.value[..SectionSize]);
              && h.nameBuffer == CharArrayValue(name) + Zeros(20 - |CharArrayValue(name)|)
              && h.typeFlags == SectionMagic
              && (if recordSize.Some? && data.Some?
                  then h.dataSize == WrapInt32(recordSize.value) && h.dataCount == WrapInt32(|data.value|)
                  else h.dataSize == 0 && h.dataCount == 0)
              && r.value[SectionSize..] == Payload(data)
  {
    var section := NewSection([], 0, 0, 0).value;
    var named :- SetSectionName(section, name);
    NameDefaultSection(name);
    var header :=
      if recordSize.Some? && data.Some?
      then named.(dataSize := WrapInt32(recordSize.value), dataCount := WrapInt32(|data.value|))
      else named;
    var bytes := EncodeSection(header) + Payload(data);
    assert bytes[..SectionSize] == EncodeSection(header);
    Success(bytes)
  }

  /** Only the bytes of a name before its first NUL reach the header: `A`,
      NUL, `B` is stored as `A` followed by NULs, and `AB`, NUL and twenty
      more bytes is accepted although it is 23 bytes long. */
  lemma NameStopsAtNul()
    ensures var r := WriteSection([0x41, 0x00, 0x42], None, None);
            r.Success? && r.value[..20] == [0x41] + Zeros(19)
    ensures WriteSection([0x41, 0x42, 0x00] + Zeros(20), None, None).Success?
  {
    assert CharArrayValue([0x41, 0x00, 0x42]) == [0x41] by {
      assert CharArrayValue([0x00, 0x42]) == [];
    }
    var r := WriteSection([0x41, 0x00, 0x42], None, None);
    EncodeDecodeSection(r.value[..SectionSize]);
    var long := [0x41, 0x42, 0x00] + Zeros(20);
    assert long[..2] == [0x41, 0x42] && long[2] == NUL;
    CharArrayValuePrefix(long, [0x41, 0x42]);
  }

  /** A section written with a name alone is a bare 32-byte header that
      announces no records. */
  lemma HeaderOnlySection(name: Bytes)
    requires |CharArrayValue(name)| <= 20
    ensures var r := WriteSection(name, None, None);
            && |r.value| == SectionSize
            && r.value == EncodeSection(NewSection(name, 0, 0, 0).value)
  {
    NameDefaultSection(name);
    var r := WriteSection(name, None, None);
    assert r.value == r.value[..SectionSize];
  }

  /** With a record type but no records the header stays 0/0, exactly as if
      the type had not been given. */
  lemma TypeWithoutData(name: Bytes, recordSize: nat)
    ensures WriteSection(name, Some(recordSize), None) == WriteSection(name, None, None)
  {
  }

  /** An empty record list that is present, with its type, still announces
      the record size; only the count is 0, and nothing follows the header. */
  lemma EmptyTypedSection(name: Bytes, recordSize: nat)
    requires |CharArrayValue(name)| <= 20
    ensures var r := WriteSection(name, Some(recordSize), Some([]));
            && r.value == EncodeSection(NewSection(name, 0, recordSize, 0).value)
            && DecodeSection(r.value).dataSize == WrapInt32(recordSize)
            && DecodeSection(r.value).dataCount == 0
  {
    var r := WriteSection(name, Some(recordSize), Some([]));
    assert r.value == r.value[..SectionSize];
    NameDefaultSection(name);
  }

  /** An animation: its bones, its sequences keyed by name in insertion
      order (each sequence given by its encoded record), and its flat list of
      encoded keys. */
  datatype Psa = Psa(bones: seq<PsxBone>, sequences: seq<(string, Bytes)>, keys: seq<Bytes>)

  /** `list(psa.sequences.values())`: the sequence records in insertion order. */
  function SequenceValues(psa: Psa): (values: seq<Bytes>)
    ensures |values| == |psa.sequences|
    ensures forall i :: 0 <= i < |values| ==> values[i] == psa.sequences[i].1
  {
    seq(|psa.sequences|, i requires 0 <= i < |psa.sequences| => psa.sequences[i].1)
  }

  /** The bytes each bone structure contributes when written. */
  function EncodeBones(bones: seq<PsxBone>): (records: seq<Bytes>)
    ensures |records| == |bones|
    ensures AllWidth(records, BoneSize)
    ensures forall i :: 0 <= i < |records| ==> DecodeBone(records[i]) == bones[i]
  {
    seq(|bones|, i requires 0 <= i < |bones| => EncodeBone(bones[i]))
  }

  /** The bone structures copied out of 120-byte records. */
  function DecodeBones(records: seq<Bytes>): (bones: seq<PsxBone>)
    requires AllWidth(records, BoneSize)
    ensures |bones| == |records|
  {
    seq(|records|, i requires 0 <= i < |records| => DecodeBone(records[i]))
  }

  lemma DecodeEncodeBones(bones: seq<PsxBone>)
    ensures DecodeBones(EncodeBones(bones)) == bones
  {
  }

  /** The four sections `write_psa` writes, in order: the bare header
      section, then bones, sequence infos and keys, each under its own
      header. `sequenceSize` and `keySize` are the sizes of the sequence and
      key record types. */
  function PsaSections(psa: Psa, sequenceSize: nat, keySize: nat): (sections: seq<Bytes>)
    ensures |sections| == 4
  {
    [ WriteSection(AnimHead, None, None).value,
      WriteSection(BoneNames, Some(BoneSize), Some(EncodeBones(psa.bones))).value,
      WriteSection(AnimInfo, Some(sequenceSize), Some(SequenceValues(psa))).value,
      WriteSection(AnimKeys, Some(keySize), Some(psa.keys)).value ]
  }

  /** `write_psa(psa, fp)`: the sections reach the stream one after
      another. Its size is stated by `WritePsaLength`, and what a reader
      recovers from it by the round-trip lemmas. */
  function WritePsa(psa: Psa, sequenceSize: nat, keySize: nat): (bytes: Bytes)
  {
    Concat(PsaSections(psa, sequenceSize, keySize))
  }

  /** Four sections written one after another. */
  lemma ConcatFour(sections: seq<Bytes>)
    requires |sections| == 4
    ensures Concat(sections) == sections[0] + sections[1] + sections[2] + sections[3]
  {
    assert sections[1..][1..][1..][1..] == [];
    assert Concat(sections[1..][1..][1..]) == sections[3];
    assert Concat(sections[1..][1..]) == sections[2] + sections[3];
    assert Concat(sections[1..]) == sections[1] + (sections[2] + sections[3]);
    AppendAssoc(sections[1], sections[2], sections[3]);
    AppendAssoc(sections[0], sections[1] + sections[2], sections[3]);
    AppendAssoc(sections[0], sections[1], sections[2]);
  }

  /** A section of `count` records of `size` bytes each takes a header plus
      `size * count` bytes. */
  lemma WrittenSectionLength(name: Bytes, size: nat, records: seq<Bytes>)
    requires |CharArrayValue(name)| <= 20
    requires AllWidth(records, size)
    ensures |WriteSection(name, Some(size), Some(records)).value| == SectionSize + size * |records|
  {
    ConcatLength(records, size);
  }

  /** When every sequence record and every key has its type's size, the
      file is four headers plus the records, with nothing in between. */
  lemma WritePsaLength(psa: Psa, sequenceSize: nat, keySize: nat)
    requires AllWidth(SequenceValues(psa), sequenceSize)
    requires AllWidth(psa.keys, keySize)
    ensures |WritePsa(psa, sequenceSize, keySize)|
              == 4 * SectionSize + BoneSize * |psa.bones| + sequenceSize * |psa.sequences| + keySize * |psa.keys|
  {
    ConcatFour(PsaSections(psa, sequenceSize, keySize));
    HeaderOnlySection(AnimHead);
    WrittenSectionLength(BoneNames, BoneSize, EncodeBones(psa.bones));
    WrittenSectionLength(AnimInfo, sequenceSize, SequenceValues(psa));
    WrittenSectionLength(AnimKeys, keySize, psa.keys);
  }
}
