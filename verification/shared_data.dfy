/** The record layouts shared by the mesh and animation formats: the colour
    and vector primitives, the 120-byte bone record, the 32-byte section
    header, and the field-by-field equality they all inherit. Every record is
    packed, so its encoding is its fields' encodings in declared order. */
module SharedData {
  import opened Wrappers
  import opened Binary
  import opened CTypes

  // ---------------------------------------------------------------------
  // StructureEq
  // ---------------------------------------------------------------------

  /** `StructureEq.__eq__`: walk the declared fields and answer false at the
      first one whose values differ. Both arguments are the field values of
      two instances of the same structure type. */
  method Equals(self: seq<Value>, other: seq<Value>) returns (eq: bool)
    requires |self| == |other|
    ensures eq <==> AllFieldsEqual(self, other)
  {
    var i := 0;
    while i < |self|
      invariant 0 <= i <= |self|
      invariant forall j :: 0 <= j < i ==> !PyNe(self[j], other[j])
    {
      if PyNe(self[i], other[i]) {
        return false;
      }
      i := i + 1;
    }
    return true;
  }

  /** `StructureEq.__ne__`: the same walk, answering true at the first field
      that differs; it is exactly the negation of `__eq__`. */
  method NotEquals(self: seq<Value>, other: seq<Value>) returns (ne: bool)
    requires |self| == |other|
    ensures ne <==> !AllFieldsEqual(self, other)
  {
    var i := 0;
    while i < |self|
      invariant 0 <= i <= |self|
      invariant forall j :: 0 <= j < i ==> !PyNe(self[j], other[j])
    {
      if PyNe(self[i], other[i]) {
        return true;
      }
      i := i + 1;
    }
    return false;
  }

  // Splitting a record's bytes at its field boundaries.

  lemma Split2(b: Bytes)
    requires |b| == 8
    ensures b == b[0..4] + b[4..8]
  {
  }

  lemma Split3(b: Bytes)
    requires |b| == 12
    ensures b == b[0..4] + b[4..8] + b[8..12]
  {
  }

  lemma Split4(b: Bytes)
    requires |b| == 16
    ensures b == b[0..4] + b[4..8] + b[8..12] + b[12..16]
  {
  }

  lemma SplitSection(b: Bytes)
    requires |b| == 32
    ensures b == b[0..20] + b[20..24] + b[24..28] + b[28..32]
  {
  }

  lemma SplitBone(b: Bytes)
    requires |b| == 120
    ensures b == b[0..76] + b[76..120]
  {
  }

  lemma SplitBoneHead(b: Bytes)
    requires |b| == 76
    ensures b == b[0..64] + b[64..68] + b[68..72] + b[72..76]
  {
  }

  lemma SplitBoneTransform(b: Bytes)
    requires |b| == 44
    ensures b == b[0..16] + b[16..28] + b[28..32] + b[32..44]
  {
  }

  // ---------------------------------------------------------------------
  // Color: four unsigned bytes r, g, b, a
  // ---------------------------------------------------------------------

  datatype Color = Color(r: Byte, g: Byte, b: Byte, a: Byte)

  const ColorSize: nat := 4

  function ColorFields(c: Color): seq<Value>
  {
    [IntV(c.r), IntV(c.g), IntV(c.b), IntV(c.a)]
  }

  function EncodeColor(c: Color): (bytes: Bytes)
    ensures |bytes| == ColorSize
    ensures DecodeColor(bytes) == c
  {
    [c.r, c.g, c.b, c.a]
  }

  function DecodeColor(bytes: Bytes): (c: Color)
    requires |bytes| == ColorSize
  {
    Color(bytes[0], bytes[1], bytes[2], bytes[3])
  }

  lemma EncodeDecodeColor(bytes: Bytes)
    requires |bytes| == ColorSize
    ensures EncodeColor(DecodeColor(bytes)) == bytes
  {
  }

  /** `Color.__iter__` yields the components in storage order, so iterating
      a colour gives exactly its four bytes. */
  function ColorIter(c: Color): (items: seq<Byte>)
    ensures items == EncodeColor(c)
  {
    [c.r, c.g, c.b, c.a]
  }

  /** `Color.__eq__`, which overrides the inherited walk. */
  predicate ColorEq(x: Color, y: Color)
  {
    x.r == y.r && x.g == y.g && x.b == y.b && x.a == y.a
  }

  /** The override agrees with the inherited field walk, so `!=` (which is
      still the inherited `__ne__`) is its negation; both are equality of
      the four bytes. */
  lemma ColorEqMatchesStructureEq(x: Color, y: Color)
    ensures ColorEq(x, y) <==> AllFieldsEqual(ColorFields(x), ColorFields(y))
    ensures ColorEq(x, y) <==> EncodeColor(x) == EncodeColor(y)
  {
    if !ColorEq(x, y) {
      if x.r != y.r {
        assert PyNe(ColorFields(x)[0], ColorFields(y)[0]);
      } else if x.g != y.g {
        assert PyNe(ColorFields(x)[1], ColorFields(y)[1]);
      } else if x.b != y.b {
        assert PyNe(ColorFields(x)[2], ColorFields(y)[2]);
      } else {
        assert PyNe(ColorFields(x)[3], ColorFields(y)[3]);
      }
    }
  }

  // ---------------------------------------------------------------------
  // Vector2, Vector3, Quaternion: packed c_float components
  // ---------------------------------------------------------------------

  datatype Vector2 = Vector2(x: Float32, y: Float32)

  const Vector2Size: nat := 8

  function Vector2Fields(v: Vector2): seq<Value>
  {
    [FloatV(v.x), FloatV(v.y)]
  }

  function EncodeVector2(v: Vector2): (bytes: Bytes)
    ensures |bytes| == Vector2Size
    ensures DecodeVector2(bytes) == v
  {
    DecodeEncodeFloat(v.x);
    DecodeEncodeFloat(v.y);
    var bytes := EncodeFloat(v.x) + EncodeFloat(v.y);
    assert bytes[0..4] == EncodeFloat(v.x);
    assert bytes[4..8] == EncodeFloat(v.y);
    bytes
  }

  function DecodeVector2(bytes: Bytes): (v: Vector2)
    requires |bytes| == Vector2Size
  {
    Vector2(DecodeFloat(bytes[0..4]), DecodeFloat(bytes[4..8]))
  }

  lemma EncodeDecodeVector2(bytes: Bytes)
    requires |bytes| == Vector2Size
    ensures EncodeVector2(DecodeVector2(bytes)) == bytes
  {
    var v := DecodeVector2(bytes);
    EncodeDecodeFloat(bytes[0..4]);
    EncodeDecodeFloat(bytes[4..8]);
    assert EncodeVector2(v) == EncodeFloat(v.x) + EncodeFloat(v.y);
    Split2(bytes);
  }

  /** `Vector2.__iter__` yields the components in storage order. */
  function Vector2Iter(v: Vector2): (items: seq<Float32>)
    ensures var bytes := EncodeVector2(v);
            items == [DecodeFloat(bytes[0..4]), DecodeFloat(bytes[4..8])]
  {
    [v.x, v.y]
  }

  datatype Vector3 = Vector3(x: Float32, y: Float32, z: Float32)

  const Vector3Size: nat := 12

  function Vector3Fields(v: Vector3): seq<Value>
  {
    [FloatV(v.x), FloatV(v.y), FloatV(v.z)]
  }

  function EncodeVector3(v: Vector3): (bytes: Bytes)
    ensures |bytes| == Vector3Size
    ensures DecodeVector3(bytes) == v
  {
    DecodeEncodeFloat(v.x);
    DecodeEncodeFloat(v.y);
    DecodeEncodeFloat(v.z);
    var bytes := EncodeFloat(v.x) + EncodeFloat(v.y) + EncodeFloat(v.z);
    assert bytes[0..4] == EncodeFloat(v.x);
    assert bytes[4..8] == EncodeFloat(v.y);
    assert bytes[8..12] == EncodeFloat(v.z);
    bytes
  }

  function DecodeVector3(bytes: Bytes): (v: Vector3)
    requires |bytes| == Vector3Size
  {
    Vector3(DecodeFloat(bytes[0..4]), DecodeFloat(bytes[4..8]), DecodeFloat(bytes[8..12]))
  }

  lemma EncodeDecodeVector3(bytes: Bytes)
    requires |bytes| == Vector3Size
    ensures EncodeVector3(DecodeVector3(bytes)) == bytes
  {
    var v := DecodeVector3(bytes);
    EncodeDecodeFloat(bytes[0..4]);
    EncodeDecodeFloat(bytes[4..8]);
    EncodeDecodeFloat(bytes[8..12]);
    assert EncodeVector3(v) == EncodeFloat(v.x) + EncodeFloat(v.y) + EncodeFloat(v.z);
    Split3(bytes);
  }

  /** `Vector3.__iter__` yields the components in storage order. */
  function Vector3Iter(v: Vector3): (items: seq<Float32>)
    ensures var bytes := EncodeVector3(v);
            items == [DecodeFloat(bytes[0..4]), DecodeFloat(bytes[4..8]), DecodeFloat(bytes[8..12])]
  {
    [v.x, v.y, v.z]
  }

  /** `Vector3.zero()`: twelve zero bytes. */
  function Vector3Zero(): (v: Vector3)
    ensures EncodeVector3(v) == Zeros(Vector3Size)
    ensures forall f <- Vector3Iter(v) :: IsZero(f) && !IsNaN(f)
  {
    var v := Vector3(PositiveZero, PositiveZero, PositiveZero);
    assert EncodeFloat(PositiveZero) == [0, 0, 0, 0];
    v
  }

  datatype Quaternion = Quaternion(x: Float32, y: Float32, z: Float32, w: Float32)

  const QuaternionSize: nat := 16

  function QuaternionFields(q: Quaternion): seq<Value>
  {
    [FloatV(q.x), FloatV(q.y), FloatV(q.z), FloatV(q.w)]
  }

  function EncodeQuaternion(q: Quaternion): (bytes: Bytes)
    ensures |bytes| == QuaternionSize
    ensures DecodeQuaternion(bytes) == q
  {
    DecodeEncodeFloat(q.x);
    DecodeEncodeFloat(q.y);
    DecodeEncodeFloat(q.z);
    DecodeEncodeFloat(q.w);
    Fields4(EncodeFloat(q.x), EncodeFloat(q.y), EncodeFloat(q.z), EncodeFloat(q.w));
    EncodeFloat(q.x) + EncodeFloat(q.y) + EncodeFloat(q.z) + EncodeFloat(q.w)
  }

  function DecodeQuaternion(bytes: Bytes): (q: Quaternion)
    requires |bytes| == QuaternionSize
  {
    Quaternion(DecodeFloat(bytes[0..4]), DecodeFloat(bytes[4..8]),
               DecodeFloat(bytes[8..12]), DecodeFloat(bytes[12..16]))
  }

  lemma EncodeDecodeQuaternion(bytes: Bytes)
    requires |bytes| == QuaternionSize
    ensures EncodeQuaternion(DecodeQuaternion(bytes)) == bytes
  {
    var q := DecodeQuaternion(bytes);
    EncodeDecodeFloat(bytes[0..4]);
    EncodeDecodeFloat(bytes[4..8]);
    EncodeDecodeFloat(bytes[8..12]);
    EncodeDecodeFloat(bytes[12..16]);
    assert EncodeQuaternion(q) == EncodeFloat(q.x) + EncodeFloat(q.y) + EncodeFloat(q.z) + EncodeFloat(q.w);
    Split4(bytes);
  }

  /** `Quaternion.__iter__` yields w first although w is stored last: the
      first item is the last four bytes, then x, y, z in storage order. */
  function QuaternionIter(q: Quaternion): (items: seq<Float32>)
    ensures var bytes := EncodeQuaternion(q);
            items == [DecodeFloat(bytes[12..16]), DecodeFloat(bytes[0..4]),
                      DecodeFloat(bytes[4..8]), DecodeFloat(bytes[8..12])]
  {
    [q.w, q.x, q.y, q.z]
  }

  /** `Quaternion.identity()`: x = y = z = +0.0 and w = 1.0. */
  function QuaternionIdentity(): (q: Quaternion)
    ensures EncodeQuaternion(q) == Zeros(12) + [0x00, 0x00, 0x80, 0x3F]
    ensures QuaternionIter(q)[0] == One
  {
    var q := Quaternion(PositiveZero, PositiveZero, PositiveZero, One);
    assert EncodeFloat(PositiveZero) == [0, 0, 0, 0];
    assert EncodeFloat(One) == [0x00, 0x00, 0x80, 0x3F];
    q
  }

  /** With field-by-field equality, two vectors are equal exactly when every
      component is equal as a Python float. */
  lemma Vector3Equality(u: Vector3, v: Vector3)
    ensures AllFieldsEqual(Vector3Fields(u), Vector3Fields(v)) <==>
              FloatEq(u.x, v.x) && FloatEq(u.y, v.y) && FloatEq(u.z, v.z)
  {
    var fu, fv := Vector3Fields(u), Vector3Fields(v);
    if !FloatEq(u.x, v.x) {
      assert PyNe(fu[0], fv[0]);
    } else if !FloatEq(u.y, v.y) {
      assert PyNe(fu[1], fv[1]);
    } else if !FloatEq(u.z, v.z) {
      assert PyNe(fu[2], fv[2]);
    }
  }

  lemma QuaternionEquality(p: Quaternion, q: Quaternion)
    ensures AllFieldsEqual(QuaternionFields(p), QuaternionFields(q)) <==>
              FloatEq(p.x, q.x) && FloatEq(p.y, q.y) && FloatEq(p.z, q.z) && FloatEq(p.w, q.w)
  {
    var fp, fq := QuaternionFields(p), QuaternionFields(q);
    if !FloatEq(p.x, q.x) {
      assert PyNe(fp[0], fq[0]);
    } else if !FloatEq(p.y, q.y) {
      assert PyNe(fp[1], fq[1]);
    } else if !FloatEq(p.z, q.z) {
      assert PyNe(fp[2], fq[2]);
    } else if !FloatEq(p.w, q.w) {
      assert PyNe(fp[3], fq[3]);
    }
  }

  /** Equality is not reflexive: a vector holding a NaN is unequal to
      itself, as Python's float comparison dictates. */
  lemma NaNVectorIsNotSelfEqual(v: Vector3)
    requires IsNaN(v.x) || IsNaN(v.y) || IsNaN(v.z)
    ensures !AllFieldsEqual(Vector3Fields(v), Vector3Fields(v))
  {
    Vector3Equality(v, v);
  }

  // ---------------------------------------------------------------------
  // PsxBone: the 120-byte bone record
  // ---------------------------------------------------------------------

  type Bytes64 = b: Bytes | |b| == 64 witness Zeros(64)

  datatype PsxBone = PsxBone(
    nameBuffer: Bytes64,
    flags: Int32,
    childrenCount: Int32,
    parentIndex: Int32,
    rotation: Quaternion,
    location: Vector3,
    length: Float32,
    size: Vector3)

  const BoneSize: nat := 120

  /** The `name` field as Python reads it. */
  function BoneName(bone: PsxBone): Bytes
  {
    CharArrayValue(bone.nameBuffer)
  }

  function BoneFields(bone: PsxBone): seq<Value>
  {
    [BytesV(BoneName(bone)), IntV(bone.flags), IntV(bone.childrenCount), IntV(bone.parentIndex),
     StructV(QuaternionFields(bone.rotation)), StructV(Vector3Fields(bone.location)),
     FloatV(bone.length), StructV(Vector3Fields(bone.size))]
  }

  /** Layout: 64-byte name, flags, children count and parent index as
      int32, then rotation, location, length and size. */
  function EncodeBone(bone: PsxBone): (bytes: Bytes)
    ensures |bytes| == BoneSize
    ensures DecodeBone(bytes) == bone
  {
    var bytes := BoneHeadBytes(bone) + BoneTransformBytes(bone);
    DecodeEncodeBoneParts(bone);
    bytes
  }

  /** The name and the three integers: bytes 0 to 76. */
  function BoneHeadBytes(bone: PsxBone): (bytes: Bytes)
    ensures |bytes| == 76
  {
    bone.nameBuffer + EncodeI32(bone.flags) + EncodeI32(bone.childrenCount) + EncodeI32(bone.parentIndex)
  }

  /** Rotation, location, length and size: bytes 76 to 120. */
  function BoneTransformBytes(bone: PsxBone): (bytes: Bytes)
    ensures |bytes| == 44
  {
    EncodeQuaternion(bone.rotation) + EncodeVector3(bone.location) + EncodeFloat(bone.length)
    + EncodeVector3(bone.size)
  }

  lemma DecodeBoneHead(bone: PsxBone)
    ensures var head := BoneHeadBytes(bone);
            && head[0..64] == bone.nameBuffer
            && DecodeI32(head[64..68]) == bone.flags
            && DecodeI32(head[68..72]) == bone.childrenCount
            && DecodeI32(head[72..76]) == bone.parentIndex
  {
    Fields4(bone.nameBuffer, EncodeI32(bone.flags), EncodeI32(bone.childrenCount), EncodeI32(bone.parentIndex));
    DecodeEncodeI32(bone.flags);
    DecodeEncodeI32(bone.childrenCount);
    DecodeEncodeI32(bone.parentIndex);
  }

  lemma DecodeBoneTransform(bone: PsxBone)
    ensures var tail := BoneTransformBytes(bone);
            && DecodeQuaternion(tail[0..16]) == bone.rotation
            && DecodeVector3(tail[16..28]) == bone.location
            && DecodeFloat(tail[28..32]) == bone.length
            && DecodeVector3(tail[32..44]) == bone.size
  {
    Fields4(EncodeQuaternion(bone.rotation), EncodeVector3(bone.location), EncodeFloat(bone.length),
            EncodeVector3(bone.size));
    DecodeEncodeFloat(bone.length);
  }

  lemma DecodeEncodeBoneParts(bone: PsxBone)
    ensures DecodeBone(BoneHeadBytes(bone) + BoneTransformBytes(bone)) == bone
  {
    var bytes := BoneHeadBytes(bone) + BoneTransformBytes(bone);
    assert bytes[0..76] == BoneHeadBytes(bone);
    assert bytes[76..120] == BoneTransformBytes(bone);
    DecodeBoneHead(bone);
    DecodeBoneTransform(bone);
  }

  /** The name and the three integers come from bytes 0 to 76, rotation,
      location, length and size from bytes 76 to 120. */
  function DecodeBone(bytes: Bytes): (bone: PsxBone)
    requires |bytes| == BoneSize
  {
    var head, tail := bytes[0..76], bytes[76..120];
    PsxBone(head[0..64], DecodeI32(head[64..68]), DecodeI32(head[68..72]),
            DecodeI32(head[72..76]), DecodeQuaternion(tail[0..16]),
            DecodeVector3(tail[16..28]), DecodeFloat(tail[28..32]),
            DecodeVector3(tail[32..44]))
  }

  lemma EncodeDecodeBone(bytes: Bytes)
    requires |bytes| == BoneSize
    ensures EncodeBone(DecodeBone(bytes)) == bytes
  {
    var head, tail := bytes[0..76], bytes[76..120];
    var bone := DecodeBone(bytes);
    EncodeDecodeBoneHead(head);
    EncodeDecodeBoneTransform(tail);
    assert BoneHeadBytes(bone) == head;
    assert BoneTransformBytes(bone) == tail;
    SplitBone(bytes);
  }

  lemma EncodeDecodeBoneHead(head: Bytes)
    requires |head| == 76
    ensures head == head[0..64] + EncodeI32(DecodeI32(head[64..68]))
                    + EncodeI32(DecodeI32(head[68..72])) + EncodeI32(DecodeI32(head[72..76]))
  {
    EncodeDecodeI32(head[64..68]);
    EncodeDecodeI32(head[68..72]);
    EncodeDecodeI32(head[72..76]);
    SplitBoneHead(head);
  }

  lemma EncodeDecodeBoneTransform(tail: Bytes)
    requires |tail| == 44
    ensures tail == EncodeQuaternion(DecodeQuaternion(tail[0..16])) + EncodeVector3(DecodeVector3(tail[16..28]))
                    + EncodeFloat(DecodeFloat(tail[28..32])) + EncodeVector3(DecodeVector3(tail[32..44]))
  {
    EncodeDecodeQuaternion(tail[0..16]);
    EncodeDecodeVector3(tail[16..28]);
    EncodeDecodeFloat(tail[28..32]);
    EncodeDecodeVector3(tail[32..44]);
    SplitBoneTransform(tail);
  }

  /** Two bones are equal exactly when their names (up to the first NUL),
      their three integers and their transforms are equal, the floats
      compared as Python floats. */
  lemma BoneEquality(a: PsxBone, b: PsxBone)
    ensures AllFieldsEqual(BoneFields(a), BoneFields(b)) <==>
              && BoneName(a) == BoneName(b)
              && a.flags == b.flags
              && a.childrenCount == b.childrenCount
              && a.parentIndex == b.parentIndex
              && AllFieldsEqual(QuaternionFields(a.rotation), QuaternionFields(b.rotation))
              && AllFieldsEqual(Vector3Fields(a.location), Vector3Fields(b.location))
              && FloatEq(a.length, b.length)
              && AllFieldsEqual(Vector3Fields(a.size), Vector3Fields(b.size))
  {
    var fa, fb := BoneFields(a), BoneFields(b);
    NestedStructNe(QuaternionFields(a.rotation), QuaternionFields(b.rotation));
    NestedStructNe(Vector3Fields(a.location), Vector3Fields(b.location));
    NestedStructNe(Vector3Fields(a.size), Vector3Fields(b.size));
    if BoneName(a) != BoneName(b) {
      assert PyNe(fa[0], fb[0]);
    } else if a.flags != b.flags {
      assert PyNe(fa[1], fb[1]);
    } else if a.childrenCount != b.childrenCount {
      assert PyNe(fa[2], fb[2]);
    } else if a.parentIndex != b.parentIndex {
      assert PyNe(fa[3], fb[3]);
    } else if !AllFieldsEqual(QuaternionFields(a.rotation), QuaternionFields(b.rotation)) {
      assert PyNe(fa[4], fb[4]);
    } else if !AllFieldsEqual(Vector3Fields(a.location), Vector3Fields(b.location)) {
      assert PyNe(fa[5], fb[5]);
    } else if !FloatEq(a.length, b.length) {
      assert PyNe(fa[6], fb[6]);
    } else if !AllFieldsEqual(Vector3Fields(a.size), Vector3Fields(b.size)) {
      assert PyNe(fa[7], fb[7]);
    } else {
      assert forall i :: 0 <= i < 8 ==> !PyNe(fa[i], fb[i]);
    }
  }

  // ---------------------------------------------------------------------
  // Section: the 32-byte chunk header
  // ---------------------------------------------------------------------

  type Bytes20 = b: Bytes | |b| == 20 witness Zeros(20)

  datatype Section = Section(nameBuffer: Bytes20, typeFlags: Int32, dataSize: Int32, dataCount: Int32)

  const SectionSize: nat := 32

  /** The tag every header is given on construction. */
  const SectionMagic: Int32 := 1999801

  /** The `name` field as Python reads it. */
  function SectionName(s: Section): Bytes
  {
    CharArrayValue(s.nameBuffer)
  }

  function SectionFields(s: Section): seq<Value>
  {
    [BytesV(SectionName(s)), IntV(s.typeFlags), IntV(s.dataSize), IntV(s.dataCount)]
  }

  /** `Section(name, type_flags, data_size, data_count)` with Python ints:
      ctypes fills a zeroed buffer field by field (a name whose bytes before
      the first NUL exceed 20 is a `ValueError`, integers keep their low 32
      bits), then the
      constructor overwrites `type_flags` with the magic value whatever was
      passed. `Section()` is `NewSection([], 0, 0, 0)`. */
  function NewSection(name: Bytes, typeFlags: int, dataSize: int, dataCount: int): (r: Result<Section, CTypesError>)
    ensures r.Success? <==> |CharArrayValue(name)| <= 20
    ensures r.Success? ==>
              && r.value.typeFlags == SectionMagic
              && r.value.nameBuffer == CharArrayValue(name) + Zeros(20 - |CharArrayValue(name)|)
              && SectionName(r.value) == CharArrayValue(name)
              && r.value.dataSize == WrapInt32(dataSize)
              && r.value.dataCount == WrapInt32(dataCount)
  {
    var nameBuffer :- CharArraySet(Zeros(20), name);
    CharArraySetGet(Zeros(20), name);
    assert nameBuffer == CharArrayValue(name) + Zeros(20 - |CharArrayValue(name)|);
    var filled := Section(nameBuffer, WrapInt32(typeFlags), WrapInt32(dataSize), WrapInt32(dataCount));
    Success(filled.(typeFlags := SectionMagic))
  }

  /** `section.name = name` on an existing header: only the name changes,
      and the old bytes after the new name's NUL stay in the buffer. */
  function SetSectionName(s: Section, name: Bytes): (r: Result<Section, CTypesError>)
    ensures r.Success? <==> |CharArrayValue(name)| <= 20
    ensures r.Success? ==>
              var v := CharArrayValue(name);
              && r.value.nameBuffer[..|v|] == v
              && (|v| < 20 ==> r.value.nameBuffer[|v|] == NUL && r.value.nameBuffer[|v| + 1..] == s.nameBuffer[|v| + 1..])
    ensures r.Success? ==>
              && SectionName(r.value) == CharArrayValue(name)
              && r.value.typeFlags == s.typeFlags
              && r.value.dataSize == s.dataSize
              && r.value.dataCount == s.dataCount
  {
    var nameBuffer :- CharArraySet(s.nameBuffer, name);
    CharArraySetGet(s.nameBuffer, name);
    Success(s.(nameBuffer := nameBuffer))
  }

  /** Layout: 20-byte name, then type flags, element size and element count
      as int32. */
  function EncodeSection(s: Section): (bytes: Bytes)
    ensures |bytes| == SectionSize
    ensures DecodeSection(bytes) == s
  {
    DecodeEncodeI32(s.typeFlags);
    DecodeEncodeI32(s.dataSize);
    DecodeEncodeI32(s.dataCount);
    Fields4(s.nameBuffer, EncodeI32(s.typeFlags), EncodeI32(s.dataSize), EncodeI32(s.dataCount));
    s.nameBuffer + EncodeI32(s.typeFlags) + EncodeI32(s.dataSize) + EncodeI32(s.dataCount)
  }

  /** Decoding copies the bytes; the type tag is not checked. */
  function DecodeSection(bytes: Bytes): (s: Section)
    requires |bytes| == SectionSize
  {
    Section(bytes[0..20], DecodeI32(bytes[20..24]), DecodeI32(bytes[24..28]), DecodeI32(bytes[28..32]))
  }

  lemma EncodeDecodeSection(bytes: Bytes)
    requires |bytes| == SectionSize
    ensures EncodeSection(DecodeSection(bytes)) == bytes
  {
    EncodeDecodeI32(bytes[20..24]);
    EncodeDecodeI32(bytes[24..28]);
    EncodeDecodeI32(bytes[28..32]);
    var s := DecodeSection(bytes);
    assert EncodeSection(s) == s.nameBuffer + EncodeI32(s.typeFlags) + EncodeI32(s.dataSize) + EncodeI32(s.dataCount);
    SplitSection(bytes);
  }

  /** A header built with a name of at most 20 bytes and no NUL reads back
      with that name, the magic tag and the given counts. */
  lemma SectionHeaderRoundTrip(name: Bytes, dataSize: Int32, dataCount: Int32)
    requires |name| <= 20
    requires NUL !in name
    ensures var h := DecodeSection(EncodeSection(NewSection(name, 0, dataSize, dataCount).value));
            && SectionName(h) == name
            && h.typeFlags == SectionMagic
            && h.dataSize == dataSize
            && h.dataCount == dataCount
  {
    CharArrayValueNoNul(name);
  }

  /** Header equality compares the name as Python reads it (up to the first
      NUL) and the three integers. */
  lemma SectionEquality(a: Section, b: Section)
    ensures AllFieldsEqual(SectionFields(a), SectionFields(b)) <==>
              && SectionName(a) == SectionName(b)
              && a.typeFlags == b.typeFlags
              && a.dataSize == b.dataSize
              && a.dataCount == b.dataCount
  {
    var fa, fb := SectionFields(a), SectionFields(b);
    if SectionName(a) != SectionName(b) {
      assert PyNe(fa[0], fb[0]);
    } else if a.typeFlags != b.typeFlags {
      assert PyNe(fa[1], fb[1]);
    } else if a.dataSize != b.dataSize {
      assert PyNe(fa[2], fb[2]);
    } else if a.dataCount != b.dataCount {
      assert PyNe(fa[3], fb[3]);
    }
  }

  /** Bytes after the terminating NUL take no part in equality: two headers
      with different raw name buffers can still compare equal. */
  lemma SectionEqualityIgnoresBytesAfterNul(a: Section, b: Section)
    requires a.nameBuffer[0] == NUL && b.nameBuffer[0] == NUL
    requires a.typeFlags == b.typeFlags && a.dataSize == b.dataSize && a.dataCount == b.dataCount
    ensures AllFieldsEqual(SectionFields(a), SectionFields(b))
  {
    SectionEquality(a, b);
  }
}
