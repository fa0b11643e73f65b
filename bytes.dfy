/** Bytes and the little-endian unsigned integers that Python's `struct`
    module reads and writes under the `<` (little-endian, standard size)
    prefix: `I` is 4 bytes, `Q` is 8 bytes. */
module Bytes {

  type byte = x: int | 0 <= x < 256

  /** One past the largest value of a `struct` `I` field. */
  const U32_LIMIT: int := 0x1_0000_0000
  /** One past the largest value of a `struct` `Q` field. */
  const U64_LIMIT: int := 0x1_0000_0000_0000_0000

  /** 256 to the power n: one past the largest value n bytes can hold. */
  function Pow256(n: nat): (r: int)
    ensures r >= 1
  {
    if n == 0 then 1 else 256 * Pow256(n - 1)
  }

  lemma WidthLimits()
    ensures Pow256(4) == U32_LIMIT
    ensures Pow256(8) == U64_LIMIT
  {
    assert Pow256(2) == 0x1_0000;
    assert Pow256(4) == 0x1_0000_0000;
    assert Pow256(6) == 0x1_0000_0000_0000;
  }

  /** n zero bytes, as Python's `b"\0" * n`. */
  function Zeros(n: nat): (r: seq<byte>)
    ensures |r| == n
    ensures forall i :: 0 <= i < n ==> r[i] == 0
  {
    seq(n, _ => 0)
  }

  /** The `width` least significant bytes of `x`, least significant first. */
  function EncodeLE(x: int, width: nat): (r: seq<byte>)
    requires 0 <= x < Pow256(width)
    ensures |r| == width
    decreases width
  {
    if width == 0 then [] else [x % 256] + EncodeLE(x / 256, width - 1)
  }

  /** The unsigned integer whose little-endian encoding is `s`. */
  function DecodeLE(s: seq<byte>): (r: int)
    ensures 0 <= r < Pow256(|s|)
  {
    if s == [] then 0 else s[0] + 256 * DecodeLE(s[1..])
  }

  /** `struct.pack("<I", x)`: four bytes that read back as `x`. */
  function EncodeU32(x: int): (r: seq<byte>)
    requires 0 <= x < U32_LIMIT
    ensures |r| == 4 && DecodeLE(r) == x
  {
    WidthLimits();
    DecodeEncode(x, 4);
    EncodeLE(x, 4)
  }

  /** `struct.pack("<Q", x)`: eight bytes that read back as `x`. */
  function EncodeU64(x: int): (r: seq<byte>)
    requires 0 <= x < U64_LIMIT
    ensures |r| == 8 && DecodeLE(r) == x
  {
    WidthLimits();
    DecodeEncode(x, 8);
    EncodeLE(x, 8)
  }

  /** Decoding undoes encoding: no value in range is lost. */
  lemma {:induction false} DecodeEncode(x: int, width: nat)
    requires 0 <= x < Pow256(width)
    ensures DecodeLE(EncodeLE(x, width)) == x
    decreases width
  {
    if width > 0 {
      var s := EncodeLE(x, width);
      assert s[1..] == EncodeLE(x / 256, width - 1);
      DecodeEncode(x / 256, width - 1);
    }
  }

  /** Encoding undoes decoding: every byte string is the encoding of its value. */
  lemma {:induction false} EncodeDecode(s: seq<byte>)
    ensures EncodeLE(DecodeLE(s), |s|) == s
  {
    if s != [] {
      var d := DecodeLE(s);
      var rest := DecodeLE(s[1..]);
      assert d == s[0] + 256 * rest;
      assert d % 256 == s[0] && d / 256 == rest;
      EncodeDecode(s[1..]);
    }
  }

  lemma EncodeDecodeU32(s: seq<byte>)
    requires |s| == 4
    ensures DecodeLE(s) < U32_LIMIT && EncodeU32(DecodeLE(s)) == s
  {
    WidthLimits();
    EncodeDecode(s);
  }

  lemma EncodeDecodeU64(s: seq<byte>)
    requires |s| == 8
    ensures DecodeLE(s) < U64_LIMIT && EncodeU64(DecodeLE(s)) == s
  {
    WidthLimits();
    EncodeDecode(s);
  }
}
