/** Byte-level building blocks shared by every layout: the fixed-width integer
    types of the wire format, the little-endian codec (the host order the
    marshaller relies on), two's complement for the signed fields, the
    bitwise operations the flag enums and the subnet test use, and
    `Array.Copy`. */
module Bytes {

  type u8 = x: int | 0 <= x < 0x100
  type u16 = x: int | 0 <= x < 0x1_0000
  type u32 = x: int | 0 <= x < 0x1_0000_0000
  type i16 = x: int | -0x8000 <= x < 0x8000
  type i32 = x: int | -0x8000_0000 <= x < 0x8000_0000

  /** `BitConverter.GetBytes((ushort)x)`: two bytes, little-endian. */
  function EncodeU16(x: u16): (b: seq<u8>)
    ensures |b| == 2
  {
    [x % 0x100, x / 0x100]
  }

  function DecodeU16(b: seq<u8>): (x: u16)
    requires |b| == 2
  {
    (b[0] as int) + 0x100 * (b[1] as int)
  }

  lemma U16RoundTrip(x: u16, b: seq<u8>)
    requires |b| == 2
    ensures DecodeU16(EncodeU16(x)) == x
    ensures EncodeU16(DecodeU16(b)) == b
  {
    var d := DecodeU16(b);
    assert d / 0x100 == b[1] && d % 0x100 == b[0];
  }

  /** `BitConverter.GetBytes` / a marshalled `uint`: four bytes, little-endian. */
  function EncodeU32(x: u32): (b: seq<u8>)
    ensures |b| == 4
  {
    var q1 := x / 0x100;
    var q2 := q1 / 0x100;
    [x % 0x100, q1 % 0x100, q2 % 0x100, q2 / 0x100]
  }

  /** The value of four little-endian bytes. */
  function DecodeU32(b: seq<u8>): (x: u32)
    requires |b| == 4
  {
    (b[0] as int) + 0x100 * ((b[1] as int) + 0x100 * ((b[2] as int) + 0x100 * (b[3] as int)))
  }

  lemma U32RoundTrip(x: u32, b: seq<u8>)
    requires |b| == 4
    ensures DecodeU32(EncodeU32(x)) == x
    ensures EncodeU32(DecodeU32(b)) == b
  {
    var q1 := x / 0x100;
    var q2 := q1 / 0x100;
    assert x == x % 0x100 + 0x100 * q1;
    assert q1 == q1 % 0x100 + 0x100 * q2;
    assert q2 == q2 % 0x100 + 0x100 * (q2 / 0x100);
    var b0, b1, b2, b3: int := b[0], b[1], b[2], b[3];
    var y2 := b2 + 0x100 * b3;
    var y1 := b1 + 0x100 * y2;
    var d := b0 + 0x100 * y1;
    assert d == DecodeU32(b);
    assert d % 0x100 == b[0] && d / 0x100 == y1;
    assert y1 % 0x100 == b[1] && y1 / 0x100 == y2;
    assert y2 % 0x100 == b[2] && y2 / 0x100 == b[3];
  }

  /** The two's complement bit pattern of a 32-bit signed value. */
  function BitsOfI32(x: i32): u32 {
    if x < 0 then x + 0x1_0000_0000 else x
  }

  /** A marshalled `int`: the two's complement bit pattern, little-endian. */
  function EncodeI32(x: i32): (b: seq<u8>)
    ensures |b| == 4
  {
    EncodeU32(BitsOfI32(x))
  }

  function DecodeI32(b: seq<u8>): (x: i32)
    requires |b| == 4
  {
    var u := DecodeU32(b);
    if u >= 0x8000_0000 then u - 0x1_0000_0000 else u
  }

  lemma I32RoundTrip(x: i32, b: seq<u8>)
    requires |b| == 4
    ensures DecodeI32(EncodeI32(x)) == x
    ensures EncodeI32(DecodeI32(b)) == b
  {
    U32RoundTrip(BitsOfI32(x), b);
    assert BitsOfI32(DecodeI32(b)) == DecodeU32(b);
  }

  /** The two's complement bit pattern of a 16-bit signed value. */
  function BitsOfI16(x: i16): u16 {
    if x < 0 then x + 0x1_0000 else x
  }

  /** A marshalled `short`: the two's complement bit pattern, little-endian. */
  function EncodeI16(x: i16): (b: seq<u8>)
    ensures |b| == 2
  {
    EncodeU16(BitsOfI16(x))
  }

  function DecodeI16(b: seq<u8>): (x: i16)
    requires |b| == 2
  {
    var u := DecodeU16(b);
    if u >= 0x8000 then u - 0x1_0000 else u
  }

  lemma I16RoundTrip(x: i16, b: seq<u8>)
    requires |b| == 2
    ensures DecodeI16(EncodeI16(x)) == x
    ensures EncodeI16(DecodeI16(b)) == b
  {
    U16RoundTrip(BitsOfI16(x), b);
    assert BitsOfI16(DecodeI16(b)) == DecodeU16(b);
  }

  /** Bitwise AND of two bytes. */
  function And8(a: u8, b: u8): u8
  {
    ((a as bv8) & (b as bv8)) as int
  }

  lemma And8Masks(a: u8)
    ensures And8(a, 0xFF) == a && And8(a, 0) == 0
  {
  }

  /** Bitwise OR of two bytes. */
  function Or8(a: u8, b: u8): u8
  {
    ((a as bv8) | (b as bv8)) as int
  }

  lemma Or8Zero(a: u8)
    ensures Or8(a, 0) == a && Or8(0, a) == a
  {
    assert (a as bv8) | 0 == a as bv8;
    assert 0 | (a as bv8) == a as bv8;
  }

  /** Bitwise OR of two 32-bit values, one byte lane at a time. */
  function Or32(a: u32, b: u32): u32
  {
    var x, y := EncodeU32(a), EncodeU32(b);
    DecodeU32([Or8(x[0], y[0]), Or8(x[1], y[1]), Or8(x[2], y[2]), Or8(x[3], y[3])])
  }

  /** `Array.Copy(src, srcIndex, dst, dstIndex, length)`: overwrite one range of
      `dst` and leave the rest of it alone. */
  method ArrayCopy(src: seq<u8>, srcIndex: nat, dst: array<u8>, dstIndex: nat, length: nat)
    requires srcIndex + length <= |src| && dstIndex + length <= dst.Length
    modifies dst
    ensures dst[..] == old(dst[..dstIndex]) + src[srcIndex..srcIndex + length] + old(dst[dstIndex + length..])
  {
    for k := 0 to length
      invariant forall j :: 0 <= j < dst.Length ==>
        dst[j] == if dstIndex <= j < dstIndex + k then src[srcIndex + j - dstIndex] else old(dst[j])
    {
      dst[dstIndex + k] := src[srcIndex + k];
    }
    assert dst[..] == old(dst[..dstIndex]) + src[srcIndex..srcIndex + length] + old(dst[dstIndex + length..]);
  }

  /** Slicing a concatenation at the boundaries of its middle part. */
  lemma ConcatAssoc<T>(a: seq<T>, b: seq<T>, c: seq<T>)
    ensures a + b + c == a + (b + c)
  {
  }

  /** Dropping the last element of a concatenation with a non-empty tail. */
  lemma DropLastConcat<T>(a: seq<T>, b: seq<T>)
    requires b != []
    ensures (a + b)[..|a + b| - 1] == a + b[..|b| - 1]
    ensures (a + b)[|a + b| - 1] == b[|b| - 1]
  {
  }

  lemma SliceOfConcat<T>(p: seq<T>, x: seq<T>, q: seq<T>)
    ensures (p + x + q)[|p|..|p| + |x|] == x
    ensures (p + x + q)[..|p|] == p
    ensures (p + x + q)[|p| + |x|..] == q
  {
  }
}
