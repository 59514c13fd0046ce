/** The parts of Python's ctypes and value semantics that the record layouts
    rely on: fixed `c_char` arrays, `c_float` bit patterns, and what `!=`
    means for the values that `getattr` returns from a structure. */
module CTypes {
  import opened Wrappers
  import opened Binary

  /** The errors ctypes raises while filling a structure. */
  datatype CTypesError =
    | BytesTooLong(length: nat, capacity: nat)

  // ---------------------------------------------------------------------
  // Fixed `c_char * n` arrays
  // ---------------------------------------------------------------------

  /** Reading a `c_char * n` field yields the bytes before the first NUL,
      or the whole buffer when it holds no NUL. */
  function CharArrayValue(buffer: Bytes): (v: Bytes)
    ensures NUL !in v
    ensures v <= buffer
    ensures |v| < |buffer| ==> buffer[|v|] == NUL
  {
    if |buffer| == 0 || buffer[0] == NUL then []
    else [buffer[0]] + CharArrayValue(buffer[1..])
  }

  /** Assigning `value` to a `c_char * n` field: ctypes measures the value
      as a C string, so only the bytes before its first NUL take part. When
      those are longer than the array the assignment is a `ValueError`;
      otherwise they are copied and, when there is room, one NUL is written
      after them. The rest of the buffer is untouched. */
  function CharArraySet(buffer: Bytes, value: Bytes): (r: Result<Bytes, CTypesError>)
    ensures var v := CharArrayValue(value);
            && (r.Success? <==> |v| <= |buffer|)
            && (r.Failure? ==> r.error == BytesTooLong(|v|, |buffer|))
            && (r.Success? ==> |r.value| == |buffer| && r.value[..|v|] == v)
            && (r.Success? && |v| < |buffer| ==>
                  r.value[|v|] == NUL && r.value[|v| + 1..] == buffer[|v| + 1..])
  {
    var v := CharArrayValue(value);
    if |v| > |buffer| then Failure(BytesTooLong(|v|, |buffer|))
    else if |v| == |buffer| then Success(v)
    else Success(v + [NUL] + buffer[|v| + 1..])
  }

  /** After an assignment the field reads as the assigned bytes up to their
      first NUL, whatever the buffer held before. */
  lemma CharArraySetGet(buffer: Bytes, value: Bytes)
    requires |CharArrayValue(value)| <= |buffer|
    ensures CharArrayValue(CharArraySet(buffer, value).value) == CharArrayValue(value)
  {
    CharArrayValuePrefix(CharArraySet(buffer, value).value, CharArrayValue(value));
  }

  /** A value without NULs reads back unchanged. */
  lemma CharArrayValueNoNul(value: Bytes)
    requires NUL !in value
    ensures CharArrayValue(value) == value
  {
    CharArrayValuePrefix(value, value);
  }

  /** When a buffer starts with NUL-free `prefix` followed by a NUL or the
      end of the buffer, its value is exactly `prefix`. */
  lemma {:induction false} CharArrayValuePrefix(buffer: Bytes, prefix: Bytes)
    requires prefix <= buffer
    requires NUL !in prefix
    requires |prefix| < |buffer| ==> buffer[|prefix|] == NUL
    ensures CharArrayValue(buffer) == prefix
  {
    if |prefix| > 0 {
      assert buffer[0] == prefix[0];
      CharArrayValuePrefix(buffer[1..], prefix[1..]);
    }
  }

  /** Padding a value with NULs does not change what is read back. */
  lemma CharArrayValuePadded(value: Bytes, n: nat)
    ensures CharArrayValue(value + Zeros(n)) == CharArrayValue(value)
  {
    var v := CharArrayValue(value);
    var b := value + Zeros(n);
    assert v <= b;
    if |v| < |b| {
      if |v| < |value| {
        assert b[|v|] == value[|v|];
      } else {
        assert b[|v|] == Zeros(n)[|v| - |value|];
      }
    }
    CharArrayValuePrefix(b, v);
  }

  // ---------------------------------------------------------------------
  // `c_float`
  // ---------------------------------------------------------------------

  /** A `c_float` is kept as its IEEE 754 binary32 bit pattern; the model
      does no floating-point arithmetic. */
  datatype Float32 = Float32(bits: UInt32)

  /** +0.0 and 1.0 in IEEE 754 binary32. */
  const PositiveZero: Float32 := Float32(0)
  const One: Float32 := Float32(0x3F80_0000)

  predicate IsNaN(f: Float32)
  {
    (f.bits / 0x80_0000) % 0x100 == 0xFF && f.bits % 0x80_0000 != 0
  }

  predicate IsZero(f: Float32)
  {
    f.bits % 0x8000_0000 == 0
  }

  /** Python's `==` on the floats ctypes returns (binary32 widened exactly to
      a double): NaN equals nothing, +0.0 equals -0.0, and otherwise equal
      values have equal bit patterns. */
  predicate FloatEq(a: Float32, b: Float32)
  {
    !IsNaN(a) && !IsNaN(b) && (a.bits == b.bits || (IsZero(a) && IsZero(b)))
  }

  function EncodeFloat(f: Float32): (b: Bytes)
    ensures |b| == 4
  {
    EncodeU32(f.bits)
  }

  function DecodeFloat(b: Bytes): (f: Float32)
    requires |b| == 4
  {
    Float32(DecodeU32(b))
  }

  lemma DecodeEncodeFloat(f: Float32)
    ensures DecodeFloat(EncodeFloat(f)) == f
  {
    DecodeEncodeU32(f.bits);
  }

  lemma EncodeDecodeFloat(b: Bytes)
    requires |b| == 4
    ensures EncodeFloat(DecodeFloat(b)) == b
  {
    EncodeDecodeU32(b);
  }

  // ---------------------------------------------------------------------
  // Values returned by `getattr` and Python's `!=` on them
  // ---------------------------------------------------------------------

  /** What `getattr(structure, field)` returns: an int (`c_int32`,
      `c_ubyte`), a float (`c_float`), a bytes object (`c_char` array) or a
      nested structure, given by its own field values in declared order. */
  datatype Value =
    | IntV(i: int)
    | FloatV(f: Float32)
    | BytesV(b: Bytes)
    | StructV(fields: seq<Value>)

  /** Python's `a != b`. On nested structures this is `StructureEq.__ne__`:
      some declared field differs. */
  predicate PyNe(a: Value, b: Value)
    decreases a
  {
    match a
    case IntV(x) => !b.IntV? || x != b.i
    case FloatV(x) => !b.FloatV? || !FloatEq(x, b.f)
    case BytesV(x) => !b.BytesV? || x != b.b
    case StructV(xs) =>
      !b.StructV? ||
      exists i :: 0 <= i < |xs| && (i >= |b.fields| || PyNe(xs[i], b.fields[i]))
  }

  /** No declared field of `self` differs from the same field of `other`. */
  predicate AllFieldsEqual(self: seq<Value>, other: seq<Value>)
  {
    forall i :: 0 <= i < |self| ==> i < |other| && !PyNe(self[i], other[i])
  }

  /** On nested structures of the same type, `!=` is the negation of
      field-by-field equality. */
  lemma NestedStructNe(xs: seq<Value>, ys: seq<Value>)
    requires |xs| == |ys|
    ensures PyNe(StructV(xs), StructV(ys)) <==> !AllFieldsEqual(xs, ys)
  {
  }
}
