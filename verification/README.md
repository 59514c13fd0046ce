# psk_psa_py chunk container, in Dafny

`psk_psa_py` reads and writes Unreal Engine skeletal meshes (`.psk`) and
skeletal animations (`.psa`). Both files are a sequence of *sections*. Each
section is a 32-byte `Section` header followed by fixed-size records:

- the header holds a NUL-padded 20-byte name, the type tag `1999801`, an
  element size and an element count;
- the records are ctypes structures copied byte for byte.

This project models that container layer:

- the shared ctypes records (`Color`, `Vector2`, `Vector3`, `Quaternion`,
  `PsxBone`, `Section`) as byte layouts, with `StructureEq`'s field-by-field
  equality;
- `read_types`, which turns a section's byte range into records;
- `_write_section` and `write_psa`, which write an animation as four
  sections.

The model is pure. A stream is the sequence of bytes still to be read, and
writing produces the bytes that would reach the file.

Files:

- `wrappers.dfy`: `Option` and `Result`.
- `binary.dfy`: bytes, little-endian `c_int32` and `uint32` codecs, two's-complement wrap-around, and concatenation of records.
- `ctypes.dfy`: the ctypes semantics the records rely on:
  - `c_char * n` assignment and reading up to the first NUL;
  - `c_float` as an IEEE 754 binary32 bit pattern, with Python's `==` on it;
  - the values `getattr` returns and Python's `!=` on them.
- `shared_data.dfy`: the record layouts, their encoders and decoders, `__iter__`, the class methods, and `StructureEq`.
- `shared_helpers.dfy`: `read_types`, as a function and as a loop, shown to agree.
- `psa_writer.dfy`: `_write_section` and `write_psa`.
- `psa_round_trip.dfy`: a reader composed of header decoding and `read_types`, and the proof that it reads back what `write_psa` writes.

## Model

| member | source | states |
|---|---|---|
| SharedData.Equals | src/psk_psa_py/shared/data.py:5-9 | The loop answers true exactly when no declared field of `self` compares `!=` to the same field of `other`. |
| SharedData.NotEquals | src/psk_psa_py/shared/data.py:11-15 | The loop answers true exactly when some declared field compares `!=`, so `__ne__` is always the negation of `__eq__`. |
| CTypes.NestedStructNe | src/psk_psa_py/shared/data.py:11-15 | `!=` on a nested structure field (rotation, location, size) holds iff not every field of the nested structure is equal. |
| CTypes.CharArrayValue | src/psk_psa_py/shared/data.py:118 | The value of a `c_char` array field has no NUL, is a prefix of the buffer, and is followed by a NUL whenever it is shorter than the buffer. |
| CTypes.CharArraySet | src/psk_psa_py/shared/data.py:118 | Assigning to a `c_char` array field uses only the value's bytes before its first NUL, as a C string. It fails iff those bytes are longer than the array, and the error reports their length. Otherwise they are copied to the front, one NUL follows when there is room, and the remaining bytes are kept. |
| CTypes.CharArraySetGet | src/psk_psa_py/shared/data.py:118 | After any assignment that succeeds, the field reads as the assigned bytes up to their first NUL, whatever the buffer held before. This includes values longer than the array whose NUL comes early enough. |
| CTypes.CharArrayValueNoNul | src/psk_psa_py/shared/data.py:105 | A NUL-free value reads back unchanged. |
| CTypes.CharArrayValuePadded | src/psk_psa_py/shared/data.py:105 | Trailing NUL padding does not change the value read back. |
| CTypes.DecodeEncodeFloat | src/psk_psa_py/shared/data.py:49-50 | A `c_float` written to its 4 bytes decodes back to the same bit pattern. |
| CTypes.EncodeDecodeFloat | src/psk_psa_py/shared/data.py:49-50 | Every 4-byte field decodes to a float that re-encodes to the same bytes. |
| Binary.DecodeEncodeI32 | src/psk_psa_py/shared/data.py:119-121 | A signed 32-bit field written as 4 little-endian two's-complement bytes decodes back to the same value. |
| Binary.EncodeDecodeI32 | src/psk_psa_py/shared/data.py:119-121 | Every 4 bytes decode to a signed 32-bit value that re-encodes to the same bytes. |
| Binary.WrapInt32 | src/psk_psa_py/shared/data.py:119-121 | Storing an int in a `c_int32` keeps it when it is in range. Otherwise it keeps the value congruent to it modulo 2^32 that lies in [-2^31, 2^31). |
| SharedData.EncodeColor | src/psk_psa_py/shared/data.py:18-24 | A `Color` is 4 bytes (r, g, b, a), and decoding them gives back the colour. |
| SharedData.EncodeDecodeColor | src/psk_psa_py/shared/data.py:18-24 | Any 4 bytes are a colour, and re-encoding it gives the same bytes. |
| SharedData.ColorIter | src/psk_psa_py/shared/data.py:26-30 | Iterating a colour yields r, g, b, a, which are exactly its 4 bytes in memory order. |
| SharedData.ColorEqMatchesStructureEq | src/psk_psa_py/shared/data.py:32-33 | `Color.__eq__` agrees with the inherited field-by-field `StructureEq` and with equality of the 4 stored bytes. |
| SharedData.EncodeVector2 | src/psk_psa_py/shared/data.py:47-51 | A `Vector2` is 8 bytes (x, y), and decoding them gives back the vector. |
| SharedData.EncodeDecodeVector2 | src/psk_psa_py/shared/data.py:47-51 | Any 8 bytes are a `Vector2`, and re-encoding it gives the same bytes. |
| SharedData.Vector2Iter | src/psk_psa_py/shared/data.py:53-55 | Iterating yields x then y, the floats stored at offsets 0 and 4. |
| SharedData.EncodeVector3 | src/psk_psa_py/shared/data.py:61-66 | A `Vector3` is 12 bytes (x, y, z), and decoding them gives back the vector. |
| SharedData.EncodeDecodeVector3 | src/psk_psa_py/shared/data.py:61-66 | Any 12 bytes are a `Vector3`, and re-encoding it gives the same bytes. |
| SharedData.Vector3Iter | src/psk_psa_py/shared/data.py:68-71 | Iterating yields x, y, z, the floats stored at offsets 0, 4 and 8. |
| SharedData.Vector3Zero | src/psk_psa_py/shared/data.py:76-78 | `Vector3.zero()` is 12 zero bytes, and each of its components is a zero that is not NaN. |
| SharedData.EncodeQuaternion | src/psk_psa_py/shared/data.py:81-87 | A `Quaternion` is 16 bytes in declared order x, y, z, w, and decoding them gives back the quaternion. |
| SharedData.EncodeDecodeQuaternion | src/psk_psa_py/shared/data.py:81-87 | Any 16 bytes are a `Quaternion`, and re-encoding it gives the same bytes. |
| SharedData.QuaternionIter | src/psk_psa_py/shared/data.py:89-93 | Iterating yields w first (the float at offset 12), then x, y, z (offsets 0, 4, 8). This differs from the storage order. |
| SharedData.QuaternionIdentity | src/psk_psa_py/shared/data.py:98-100 | `Quaternion.identity()` stores three zero floats and then 1.0 as w, and iteration yields 1.0 first. |
| SharedData.Vector3Equality | src/psk_psa_py/shared/data.py:5-9 | Two vectors are `StructureEq`-equal iff each pair of components is equal as Python floats. |
| SharedData.QuaternionEquality | src/psk_psa_py/shared/data.py:5-9 | Two quaternions are equal iff all four pairs of components are equal as Python floats. |
| SharedData.NaNVectorIsNotSelfEqual | src/psk_psa_py/shared/data.py:5-9 | A vector with a NaN component is not equal to itself, so the equality is not reflexive. |
| SharedData.EncodeBone | src/psk_psa_py/shared/data.py:103-113 | A `PsxBone` is 120 bytes laid out without padding, and decoding them gives back the bone. |
| SharedData.DecodeBoneHead | src/psk_psa_py/shared/data.py:105-108 | The first 76 bytes of a bone are its 64-byte name buffer, then flags, children count and parent index, each decodable in place. |
| SharedData.DecodeBoneTransform | src/psk_psa_py/shared/data.py:109-112 | The last 44 bytes are rotation, location, length and size at offsets 0, 16, 28 and 32 of that block. |
| SharedData.EncodeDecodeBone | src/psk_psa_py/shared/data.py:103-113 | Any 120 bytes are a bone, and re-encoding it gives the same bytes. |
| SharedData.BoneEquality | src/psk_psa_py/shared/data.py:5-9 | Two bones are equal iff they match on each of these: names up to the first NUL, the three ints, the nested rotation, location and size, and length as a Python float. |
| SharedData.NewSection | src/psk_psa_py/shared/data.py:124-126 | Constructing a `Section` fails iff the name's bytes before its first NUL exceed 20. Otherwise the name buffer holds exactly those bytes padded with NULs, and the type tag is always 1999801, whatever was passed. Size and count are wrapped to 32 bits. |
| SharedData.SetSectionName | src/psk_psa_py/shared/data.py:118 | Assigning a header's name fails iff its bytes before the first NUL exceed 20. Otherwise the buffer starts with those bytes and one NUL when there is room. The old bytes after that NUL stay, so they are what gets written. The name reads back as those bytes, and the other three fields are unchanged. |
| SharedData.EncodeSection | src/psk_psa_py/shared/data.py:116-122 | A header is 32 bytes, and decoding them gives back the header. |
| SharedData.EncodeDecodeSection | src/psk_psa_py/shared/data.py:116-122 | Any 32 bytes are a header, and re-encoding it gives the same bytes. |
| SharedData.SectionHeaderRoundTrip | src/psk_psa_py/shared/data.py:116-126 | A constructed header with a NUL-free name, written and read back, has that name, the type tag 1999801 and the given size and count. |
| SharedData.SectionEquality | src/psk_psa_py/shared/data.py:116-122 | Two headers are equal iff their names match up to the first NUL and their three int fields match. |
| SharedData.SectionEqualityIgnoresBytesAfterNul | src/psk_psa_py/shared/data.py:118 | Headers whose name buffers both start with NUL are equal whatever bytes follow that NUL. |
| SharedHelpers.StreamRead | src/psk_psa_py/shared/helpers.py:17-18 | `fp.read(n)` on an `io.BytesIO` returns a prefix of the stream: n bytes, or fewer at the end of the stream, or the whole rest when n is negative. |
| SharedHelpers.BufferedRead | src/psk_psa_py/shared/helpers.py:17-18 | `fp.read(n)` on a file opened with `open(path, 'rb')` fails iff n < -1, with the length in the error. Otherwise it returns a prefix of the stream: n bytes or fewer at the end, and the whole rest for -1. |
| SharedHelpers.FromBufferCopy | src/psk_psa_py/shared/helpers.py:21 | Copying a record succeeds iff the offset is non-negative and the record fits in the buffer. The copy is exactly the record's bytes. |
| SharedHelpers.RecordOffsetIsProduct | src/psk_psa_py/shared/helpers.py:19-22 | The running offset before record k is k times the element size. |
| SharedHelpers.CutRecordsSpec | src/psk_psa_py/shared/helpers.py:20-22 | The contract of `CutRecords`, the loop's records as a recursive function. Record j is the slice at offset j·size. There is no error iff all announced records were cut. An error means some record did not fit at its offset, and it is that copy's error. |
| SharedHelpers.ReadTypesSpec | src/psk_psa_py/shared/helpers.py:8-22 | The contract of `ReadTypes`, the model of `read_types` on an in-memory stream. It consumes `size·count` bytes, or fewer at the end of the stream. It keeps the list's earlier entries and appends records cut at multiples of the element size. It succeeds iff it appended `max(count, 0)` records, and on failure the records appended before the error remain. |
| SharedHelpers.ReadTypesLoop | src/psk_psa_py/shared/helpers.py:17-22 | `read_types` written as the source's loop, with one read and a running offset, computes exactly what `ReadTypes` computes. |
| SharedHelpers.AppendRecords | src/psk_psa_py/shared/helpers.py:19-22 | The loop appends exactly the records the recursive cut produces and stops at the same error. |
| SharedHelpers.ReadTypesEmptySection | src/psk_psa_py/shared/helpers.py:17-20 | A section announcing no records consumes nothing and leaves the list unchanged. |
| SharedHelpers.ReadTypesWideStride | src/psk_psa_py/shared/helpers.py:17-22 | With an element size at least the record width and enough bytes, every announced record is read and exactly `size·count` bytes are consumed. |
| SharedHelpers.ReadTypesNarrowStride | src/psk_psa_py/shared/helpers.py:19-22 | With a non-negative element size smaller than the record width and at least one record, `read_types` always fails: the last copy runs past the bytes read. |
| SharedHelpers.ReadTypesNegativeStride | src/psk_psa_py/shared/helpers.py:17-22 | With a negative element size, a positive count and at least one record's width of stream on an `io.BytesIO`, the whole stream is read and the first record is copied from its start. One record means success; a second fails with a negative offset. On a buffered file, a product below -1 fails in `fp.read`. |
| SharedHelpers.ReadTypesNegativeCount | src/psk_psa_py/shared/helpers.py:17-20 | On an `io.BytesIO`, a negative count with a positive size reads the whole rest of the stream and appends nothing. |
| SharedHelpers.ReadTypesBufferedNegativeCount | src/psk_psa_py/shared/helpers.py:17-18 | On a buffered file, a negative count with a positive size fails in `fp.read` unless `size·count` is exactly -1. The list and the stream are left untouched. |
| SharedHelpers.ReadTypesBufferedAgrees | src/psk_psa_py/shared/helpers.py:17-22 | For a header with non-negative size and count, `read_types` on a buffered file gives the same result as on an in-memory stream. |
| SharedHelpers.ReadTypesAfterConcat | src/psk_psa_py/shared/helpers.py:8-22 | Records of the announced width written back to back are read back as exactly those records. The bytes after them are left unread. |
| PsaWriter.WriteSection | src/psk_psa_py/psa/writer.py:8-17 | Writing fails iff the name's bytes before its first NUL exceed 20. Otherwise the output is a header holding those bytes padded with NULs and the type tag, then the data. The header carries size and count only when both a type and data are given, and 0/0 otherwise. |
| PsaWriter.NameStopsAtNul | src/psk_psa_py/psa/writer.py:9-10 | A name `A`, NUL, `B` is written as `A` followed by 19 NULs. A 23-byte name whose third byte is NUL is written without error. |
| PsaWriter.NameDefaultSection | src/psk_psa_py/psa/writer.py:9-10 | Naming a default-constructed header equals constructing the header with that name. |
| PsaWriter.HeaderOnlySection | src/psk_psa_py/psa/writer.py:21 | A section written from a name alone is one 32-byte header announcing no records. |
| PsaWriter.TypeWithoutData | src/psk_psa_py/psa/writer.py:11-13 | A record type given without data writes the same bytes as no type at all. |
| PsaWriter.EmptyTypedSection | src/psk_psa_py/psa/writer.py:11-17 | A present but empty record list still announces the record size, with count 0 and no payload after the 32-byte header. |
| PsaWriter.EncodeBones | src/psk_psa_py/psa/writer.py:22 | Each bone is written as a 120-byte record that decodes back to that bone. |
| PsaWriter.DecodeEncodeBones | src/psk_psa_py/psa/writer.py:22 | Decoding the written bone records gives back the bone list. |
| PsaWriter.WrittenSectionLength | src/psk_psa_py/psa/writer.py:8-17 | A typed section of n records of s bytes is 32 + s·n bytes long. |
| PsaWriter.WritePsaLength | src/psk_psa_py/psa/writer.py:20-24 | The size of `WritePsa`, the model of `write_psa`: 4 headers plus 120 bytes per bone plus the sequence and key records, with nothing else between them. |
| PsaRoundTrip.ReadWrittenSection | src/psk_psa_py/psa/writer.py:8-17 | A typed section reads back as the constructed header and exactly its records. What follows the section is left unread. |
| PsaRoundTrip.ReadHeaderOnlySection | src/psk_psa_py/psa/writer.py:21 | A bare header reads back with no records, whatever record width the reader expects. |
| PsaRoundTrip.ReadUntypedSection | src/psk_psa_py/psa/writer.py:15-17 | Data written without a type sits under a 0/0 header. A reader takes the header alone and stops in front of the data. |
| PsaRoundTrip.ReadConcatenatedSections | src/psk_psa_py/psa/writer.py:20-24 | If each section reads back as its own chunk whatever follows it, then sections written back to back read back as those chunks in order. |
| PsaRoundTrip.WritePsaRoundTrip | src/psk_psa_py/psa/writer.py:20-24 | What `WritePsa` (the four `PsaSections` one after another) produces: read as four sections with widths 0, 120, sequence size and key size, it yields exactly the expected chunks and consumes every byte. |
| PsaRoundTrip.WritePsaRecoversPsa | src/psk_psa_py/psa/writer.py:20-24 | Reading back the file gives the names ANIMHEAD, BONENAMES, ANIMINFO and ANIMKEYS in order, the original bones, the sequence records in insertion order, and the keys. |
| PsaRoundTrip.ConstructedName | src/psk_psa_py/psa/writer.py:9-10 | A NUL-free name of at most 20 bytes reads back unchanged from the header. |

## Left out

- `write_psa_to_file` (psa/writer.py): it only opens a file, which is I/O.
- `__repr__` and `Color.normalized`: a string rendering and a floating-point division. No float arithmetic is modelled; floats are bit patterns.
- The PSK and PSA readers, the PSK writer, the `Psa` and `Psk` classes and the other modules are not part of this model. The reader in `psa_round_trip.dfy` is this model's own: a header decode followed by `read_types`.
- `Psa.Sequence` and `Psa.Key` are not part of this model. Their records are raw bytes, and their sizes are parameters (`sequenceSize`, `keySize`).
- The `Psa` datatype keeps sequences as a list of (name, record) pairs in insertion order. It does not enforce that a dict's keys are distinct.
- Byte order: ctypes uses the host's order, and the model fixes it as little-endian.
- Streams: `fp` is modelled as an `io.BytesIO`, where a negative read length reads to the end (`StreamRead`, `ReadTypes`), and as a buffered file from `open(path, 'rb')`, where a read length below -1 is a `ValueError` (`BufferedRead`, `ReadTypesBuffered`). The round-trip reader uses the in-memory form. Its headers have non-negative size and count, and for those the two forms agree (`ReadTypesBufferedAgrees`). Short reads at the end of the stream are modelled, but partial reads of non-blocking streams are not.
- `c_ubyte` fields are modelled as values in 0..255. Assigning an out-of-range int, which ctypes truncates, is not modelled.
- `StructureEq` is modelled for two structures of the same type, which is how the source uses it. Comparing structures of different types is not modelled.
- Element size: the code does not check a header's element size against the record width. `read_types` silently accepts a larger element size and skips the extra bytes (`SharedHelpers.ReadTypesWideStride`). A smaller non-negative one ends in ctypes' buffer-too-small error, not in a dedicated mismatch error (`SharedHelpers.ReadTypesNarrowStride`). A negative one can read a single record without error, or fail on a negative offset (`SharedHelpers.ReadTypesNegativeStride`). The model follows the code.
- PsaRoundTrip.ReadSection: its contract states only the truncated-header case. Its behaviour on whole sections is given by `ReadAfterHeader` and the round-trip lemmas.
