/** Bytes and the little-endian integer layouts that ctypes uses for the
    packed records of the container format (host byte order is taken to be
    little-endian). */
module Binary {

  type Byte = b: int | 0 <= b < 256

  type Bytes = seq<Byte>

  const NUL: Byte := 0

  /** Unsigned and signed 32-bit integers (ctypes `c_uint32` / `c_int32`). */
  type UInt32 = x: int | 0 <= x < 0x1_0000_0000

  type Int32 = x: int | -0x8000_0000 <= x < 0x8000_0000

  function Pow256(n: nat): (r: nat)
    ensures r > 0
  {
    if n == 0 then 1 else 256 * Pow256(n - 1)
  }

  lemma Pow256Four()
    ensures Pow256(4) == 0x1_0000_0000
  {
    assert Pow256(1) == 256;
    assert Pow256(2) == 0x1_0000;
    assert Pow256(3) == 0x100_0000;
  }

  /** `n` bytes of `x`, least significant byte first. */
  function EncodeLE(x: nat, n: nat): (b: Bytes)
    requires x < Pow256(n)
    ensures |b| == n
    ensures n > 0 ==> b[0] == x % 256
    decreases n
  {
    if n == 0 then [] else [x % 256] + EncodeLE(x / 256, n - 1)
  }

  /** The unsigned value of a little-endian byte string. */
  function DecodeLE(b: Bytes): (x: nat)
    ensures x < Pow256(|b|)
    ensures |b| > 0 ==> x % 256 == b[0]
  {
    if |b| == 0 then 0 else b[0] + 256 * DecodeLE(b[1..])
  }

  lemma {:induction false} DecodeEncodeLE(x: nat, n: nat)
    requires x < Pow256(n)
    ensures DecodeLE(EncodeLE(x, n)) == x
    decreases n
  {
    if n > 0 {
      var b := EncodeLE(x, n);
      assert b[1..] == EncodeLE(x / 256, n - 1);
      DecodeEncodeLE(x / 256, n - 1);
    }
  }

  lemma {:induction false} EncodeDecodeLE(b: Bytes)
    ensures EncodeLE(DecodeLE(b), |b|) == b
  {
    if |b| > 0 {
      var x := DecodeLE(b);
      assert x / 256 == DecodeLE(b[1..]);
      EncodeDecodeLE(b[1..]);
    }
  }

  /** The ctypes `c_uint32` layout. */
  function EncodeU32(x: UInt32): (b: Bytes)
    ensures |b| == 4
  {
    Pow256Four();
    EncodeLE(x, 4)
  }

  function DecodeU32(b: Bytes): (x: UInt32)
    requires |b| == 4
  {
    Pow256Four();
    DecodeLE(b)
  }

  lemma DecodeEncodeU32(x: UInt32)
    ensures DecodeU32(EncodeU32(x)) == x
  {
    Pow256Four();
    DecodeEncodeLE(x, 4);
  }

  lemma EncodeDecodeU32(b: Bytes)
    requires |b| == 4
    ensures EncodeU32(DecodeU32(b)) == b
  {
    Pow256Four();
    EncodeDecodeLE(b);
  }

  /** Two's complement reinterpretation between `c_int32` and `c_uint32`. */
  function ToUnsigned(x: Int32): (u: UInt32)
    ensures (u - x) % 0x1_0000_0000 == 0
  {
    if x < 0 then x + 0x1_0000_0000 else x
  }

  function ToSigned(u: UInt32): (x: Int32)
    ensures ToUnsigned(x) == u
  {
    if u < 0x8000_0000 then u else u - 0x1_0000_0000
  }

  /** Assigning a Python int to a `c_int32` field keeps the low 32 bits,
      read back as a signed value; there is no overflow error. */
  function WrapInt32(n: int): (r: Int32)
    ensures (r - n) % 0x1_0000_0000 == 0
    ensures -0x8000_0000 <= n < 0x8000_0000 ==> r == n
  {
    ToSigned(n % 0x1_0000_0000)
  }

  /** The ctypes `c_int32` layout: four bytes of two's complement,
      least significant first. */
  function EncodeI32(x: Int32): (b: Bytes)
    ensures |b| == 4
  {
    EncodeU32(ToUnsigned(x))
  }

  function DecodeI32(b: Bytes): (x: Int32)
    requires |b| == 4
  {
    ToSigned(DecodeU32(b))
  }

  lemma DecodeEncodeI32(x: Int32)
    ensures DecodeI32(EncodeI32(x)) == x
  {
    DecodeEncodeU32(ToUnsigned(x));
  }

  lemma EncodeDecodeI32(b: Bytes)
    requires |b| == 4
    ensures EncodeI32(DecodeI32(b)) == b
  {
    EncodeDecodeU32(b);
  }

  /** `n` zero bytes: the contents of a freshly allocated ctypes buffer. */
  function Zeros(n: nat): (z: Bytes)
    ensures |z| == n
    ensures forall i :: 0 <= i < n ==> z[i] == NUL
  {
    seq(n, i => NUL)
  }

  lemma AppendAssoc(a: Bytes, b: Bytes, c: Bytes)
    ensures (a + b) + c == a + (b + c)
  {
  }

  /** The four fields of a record written one after another can be sliced
      back out at their offsets. */
  lemma Fields4(a: Bytes, b: Bytes, c: Bytes, d: Bytes)
    ensures var s := a + b + c + d;
            && s[0..|a|] == a
            && s[|a|..|a| + |b|] == b
            && s[|a| + |b|..|a| + |b| + |c|] == c
            && s[|a| + |b| + |c|..|s|] == d
  {
    var s := a + b + c + d;
    assert s[0..|a|] == a;
    assert s[|a|..|a| + |b|] == b;
    assert s[|a| + |b|..|a| + |b| + |c|] == c;
    assert s[|a| + |b| + |c|..|s|] == d;
  }

  /** The bytes of several records written one after another. */
  function Concat(records: seq<Bytes>): (b: Bytes)
  {
    if |records| == 0 then [] else records[0] + Concat(records[1..])
  }

  /** All records have the same width. */
  predicate AllWidth(records: seq<Bytes>, width: nat)
  {
    forall i :: 0 <= i < |records| ==> |records[i]| == width
  }

  lemma {:induction false} ConcatLength(records: seq<Bytes>, width: nat)
    requires AllWidth(records, width)
    ensures |Concat(records)| == width * |records|
  {
    if |records| > 0 {
      ConcatLength(records[1..], width);
    }
  }

  /** Record `i` of a concatenation of equal-width records sits at byte
      offset `i * width`. */
  lemma {:induction false} ConcatWindow(records: seq<Bytes>, width: nat, i: nat)
    requires AllWidth(records, width)
    requires i < |records|
    ensures |Concat(records)| == width * |records|
    ensures i * width + width <= |Concat(records)|
    ensures Concat(records)[i * width .. i * width + width] == records[i]
  {
    ConcatLength(records, width);
    if i > 0 {
      ConcatWindow(records[1..], width, i - 1);
      var c := Concat(records);
      assert c == records[0] + Concat(records[1..]);
      assert i * width == width + (i - 1) * width;
    }
  }
}
