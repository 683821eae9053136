/**
 * Big-endian conversions between Java `int`s and byte arrays (class Utility).
 *
 * Java's `byte` is signed, so a byte is modelled by its signed value `int8`;
 * the octet 255 on the wire is the byte -1.  A Java `int` is an `int32`; the
 * narrowing cast `(byte) x` and the wrap-around of `int` arithmetic are written
 * out as `CastToByte` and `WrapInt`.
 */
module Utility {

  /** A Java `byte`. */
  type int8 = x: int | -0x80 <= x < 0x80

  /** A Java `int`. */
  type int32 = x: int | -0x8000_0000 <= x < 0x8000_0000

  const TwoTo32: int := 0x1_0000_0000

  /** The cast `(byte) x`: the low 8 bits of `x`, read as a signed byte. */
  function CastToByte(x: int): (r: int8)
    ensures (x - r) % 0x100 == 0
    ensures -0x80 <= x < 0x80 ==> r == x
  {
    var low := x % 0x100;
    if low < 0x80 then low else low - 0x100
  }

  /** Java `int` arithmetic: a result taken modulo 2^32 and read as signed. */
  function WrapInt(x: int): (r: int32)
    ensures (x - r) % TwoTo32 == 0
    ensures -0x8000_0000 <= x < 0x8000_0000 ==> r == x
  {
    var low := x % TwoTo32;
    if low < 0x8000_0000 then low else low - TwoTo32
  }

  /** Two integers that differ by a multiple of 2^32 wrap to the same `int`. */
  lemma WrapCongruent(x: int, y: int, k: int)
    requires x - y == k * TwoTo32
    ensures WrapInt(x) == WrapInt(y)
  {
    assert x % TwoTo32 == y % TwoTo32;
  }

  /** `unsignedByte(b)`: `(int) b & 0xFF`, the octet that the byte stands for. */
  function UnsignedByte(b: int8): (r: int)
    ensures 0 <= r < 0x100
    ensures (r - b) % 0x100 == 0
  {
    if b < 0 then b + 0x100 else b
  }

  lemma UnsignedOfCast(x: int)
    ensures UnsignedByte(CastToByte(x)) == x % 0x100
  {
  }

  lemma CastOfUnsigned(b: int8)
    ensures CastToByte(UnsignedByte(b)) == b
  {
  }

  /** Every `int` of the list narrowed to a byte, in order. */
  function Narrowed(list: seq<int32>): (r: seq<int8>)
    ensures |r| == |list|
    ensures forall i :: 0 <= i < |list| ==> r[i] == CastToByte(list[i])
  {
    seq(|list|, i requires 0 <= i < |list| => CastToByte(list[i]))
  }

  /** `toBytes`: narrows every `int` of the list to a byte. */
  method ToBytes(list: seq<int32>) returns (out: seq<int8>)
    ensures |out| == |list|
    ensures forall i :: 0 <= i < |list| ==> out[i] == CastToByte(list[i])
    ensures out == Narrowed(list)
  {
    var bytes := new int8[|list|];
    for i := 0 to |list|
      invariant forall k :: 0 <= k < i ==> bytes[k] == CastToByte(list[k])
    {
      bytes[i] := CastToByte(list[i]);
    }
    out := bytes[..];
  }

  /** `unsignedBytes`: `unsignedByte` applied to every byte. */
  method UnsignedBytes(bytes: seq<int8>) returns (out: seq<int>)
    ensures |out| == |bytes|
    ensures forall i :: 0 <= i < |bytes| ==> out[i] == UnsignedByte(bytes[i])
  {
    var values := new int[|bytes|];
    for i := 0 to |bytes|
      invariant forall k :: 0 <= k < i ==> values[k] == UnsignedByte(bytes[k])
    {
      values[i] := UnsignedByte(bytes[i]);
    }
    out := values[..];
  }

  /**
   * The unsigned big-endian value of a byte string, most significant byte
   * first, computed without wrap-around.
   */
  function BigEndian(bytes: seq<int8>): (r: nat)
    ensures r < Power256(|bytes|)
  {
    if bytes == [] then 0
    else BigEndian(bytes[..|bytes| - 1]) * 0x100 + UnsignedByte(bytes[|bytes| - 1])
  }

  /** 256 to the power `n`: one more than the largest value `n` bytes can hold. */
  function Power256(n: nat): (r: nat)
    ensures r >= 1
  {
    if n == 0 then 1 else 0x100 * Power256(n - 1)
  }

  /** What `toInt` computes: the big-endian value taken modulo 2^32. */
  function IntOf(bytes: seq<int8>): (r: int32)
    ensures (r - BigEndian(bytes)) % TwoTo32 == 0
    ensures BigEndian(bytes) < 0x8000_0000 ==> r == BigEndian(bytes)
  {
    WrapInt(BigEndian(bytes))
  }

  lemma BigEndianOfFour(b: seq<int8>)
    requires |b| == 4
    ensures BigEndian(b) == UnsignedByte(b[0]) * 0x100_0000 + UnsignedByte(b[1]) * 0x1_0000
                            + UnsignedByte(b[2]) * 0x100 + UnsignedByte(b[3])
  {
    assert b[..3][..2] == b[..2];
    assert b[..2][..1] == b[..1];
    assert b[..1][..0] == [];
    assert BigEndian(b[..1]) == UnsignedByte(b[0]);
    assert BigEndian(b[..2]) == UnsignedByte(b[0]) * 0x100 + UnsignedByte(b[1]);
    assert BigEndian(b[..3]) == BigEndian(b[..2]) * 0x100 + UnsignedByte(b[2]);
    assert BigEndian(b) == BigEndian(b[..3]) * 0x100 + UnsignedByte(b[3]);
  }

  /** `toInt`: the fold `value = (value << 8) + (b & 0xff)` in Java `int` arithmetic. */
  method ToInt(bytes: seq<int8>) returns (value: int32)
    ensures value == IntOf(bytes)
    ensures bytes == [] ==> value == 0
  {
    value := 0;
    for i := 0 to |bytes|
      invariant value == IntOf(bytes[..i])
    {
      ghost var before := BigEndian(bytes[..i]);
      var shifted := WrapInt(value * 0x100);
      WrapStep(before, shifted, UnsignedByte(bytes[i]));
      value := WrapInt(shifted + UnsignedByte(bytes[i]));
      assert bytes[..i + 1][..i] == bytes[..i];
    }
    assert bytes[..|bytes|] == bytes;
  }

  /** One step of the fold: wrapping after each operation equals wrapping once at the end. */
  lemma WrapStep(before: int, shifted: int32, low: int)
    requires shifted == WrapInt(WrapInt(before) * 0x100)
    ensures WrapInt(shifted + low) == WrapInt(before * 0x100 + low)
  {
    var w := WrapInt(before);
    var k1 := (before - w) / TwoTo32;
    assert before - w == k1 * TwoTo32;
    var k2 := (w * 0x100 - shifted) / TwoTo32;
    assert w * 0x100 - shifted == k2 * TwoTo32;
    assert (before * 0x100 + low) - (shifted + low) == (k1 * 0x100 + k2) * TwoTo32;
    WrapCongruent(before * 0x100 + low, shifted + low, k1 * 0x100 + k2);
  }

  /**
   * `toByteArray`: `ByteBuffer.putInt`, the four bytes of `value`, most
   * significant first.
   */
  function ToByteArray(value: int32): (r: seq<int8>)
    ensures |r| == 4
    ensures BigEndian(r) == value % TwoTo32
  {
    var u := value % TwoTo32;
    var r := [CastToByte(u / 0x100_0000), CastToByte(u / 0x1_0000), CastToByte(u / 0x100), CastToByte(u)];
    ToByteArrayValue(u, r);
    r
  }

  lemma ToByteArrayValue(u: int, r: seq<int8>)
    requires 0 <= u < TwoTo32
    requires r == [CastToByte(u / 0x100_0000), CastToByte(u / 0x1_0000), CastToByte(u / 0x100), CastToByte(u)]
    ensures BigEndian(r) == u
  {
    var a, b3 := u / 0x100, u % 0x100;
    var c, b2 := a / 0x100, a % 0x100;
    var b0, b1 := c / 0x100, c % 0x100;
    assert u == c * 0x1_0000 + b2 * 0x100 + b3;
    assert u / 0x1_0000 == c;
    assert u == b0 * 0x100_0000 + b1 * 0x1_0000 + b2 * 0x100 + b3;
    assert u / 0x100_0000 == b0;
    BigEndianOfFour(r);
    UnsignedOfCast(b0);
    UnsignedOfCast(c);
    UnsignedOfCast(a);
    UnsignedOfCast(u);
  }

  /** Round trip: `toInt(toByteArray(v)) == v` for every Java `int`. */
  lemma IntOfToByteArray(v: int32)
    ensures IntOf(ToByteArray(v)) == v
  {
    var u := v % TwoTo32;
    if v >= 0 {
      assert u == v;
    } else {
      assert u == v + TwoTo32;
      WrapCongruent(u, v, 1);
    }
  }

  /** Round trip: `toByteArray(toInt(b)) == b` for every 4-byte array. */
  lemma ToByteArrayIntOf(b: seq<int8>)
    requires |b| == 4
    ensures ToByteArray(IntOf(b)) == b
  {
    BigEndianOfFour(b);
    var u0, u1, u2, u3 := UnsignedByte(b[0]), UnsignedByte(b[1]), UnsignedByte(b[2]), UnsignedByte(b[3]);
    var big := BigEndian(b);
    assert big < TwoTo32;
    var v := IntOf(b);
    WrappedResidue(big);
    assert v % TwoTo32 == big;
    Digits(u0, u1, u2, u3);
    CastOfUnsigned(b[0]);
    CastOfUnsigned(b[1]);
    CastOfUnsigned(b[2]);
    CastOfUnsigned(b[3]);
    CastLowByte(u0 * 0x100 + u1, u1);
    CastLowByte(u0 * 0x1_0000 + u1 * 0x100 + u2, u2);
    CastLowByte(big, u3);
  }

  /** A natural number below 2^32 is the residue of its own wrap-around. */
  lemma WrappedResidue(x: int)
    requires 0 <= x < TwoTo32
    ensures WrapInt(x) % TwoTo32 == x
  {
  }

  /** The cast keeps only the low byte. */
  lemma CastLowByte(x: int, low: int)
    requires 0 <= low < 0x100 && (x - low) % 0x100 == 0
    ensures CastToByte(x) == CastToByte(low)
  {
  }

  /** Integer division recovers the leading digits of a base-256 numeral. */
  lemma Digits(u0: int, u1: int, u2: int, u3: int)
    requires 0 <= u0 < 0x100 && 0 <= u1 < 0x100 && 0 <= u2 < 0x100 && 0 <= u3 < 0x100
    ensures var big := u0 * 0x100_0000 + u1 * 0x1_0000 + u2 * 0x100 + u3;
      && big / 0x100_0000 == u0
      && big / 0x1_0000 == u0 * 0x100 + u1
      && big / 0x100 == u0 * 0x1_0000 + u1 * 0x100 + u2
      && (u0 * 0x100 + u1 - u1) % 0x100 == 0
      && (u0 * 0x1_0000 + u1 * 0x100 + u2 - u2) % 0x100 == 0
      && (big - u3) % 0x100 == 0
  {
  }

  /** An all-zero byte string, as Java allocates it. */
  function Zeros(n: nat): (r: seq<int8>)
    ensures |r| == n && forall i :: 0 <= i < n ==> r[i] == 0
  {
    seq(n, _ => 0)
  }
}
