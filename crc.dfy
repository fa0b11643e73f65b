/** CRC-32 of ISO 3309 / ITU-T V.42, the checksum `binascii.crc32` computes
    (reflected polynomial 0xEDB88320, register inverted on entry and exit).
    The register is a left fold of a one-byte step over the data, which is
    what makes the checksum computable in pieces. */
module Crc {
  import opened Bytes

  const POLYNOMIAL: bv32 := 0xEDB8_8320

  /** `rounds` single-bit shifts of the reflected register. */
  function Shift(c: bv32, rounds: nat): bv32
    decreases rounds
  {
    if rounds == 0 then c
    else Shift(if c & 1 == 1 then (c >> 1) ^ POLYNOMIAL else c >> 1, rounds - 1)
  }

  /** Feeds one byte into the register. */
  function Step(c: bv32, b: byte): bv32 {
    Shift(c ^ (b as bv32), 8)
  }

  /** Left fold of `step` over `data`, starting from the register `c`. */
  function Fold(step: (bv32, byte) -> bv32, c: bv32, data: seq<byte>): bv32
    decreases |data|
  {
    if data == [] then c else Fold(step, step(c, data[0]), data[1..])
  }

  /** The register after feeding `data`, one byte at a time, from the left. */
  function Register(c: bv32, data: seq<byte>): bv32 {
    Fold(Step, c, data)
  }

  /** `binascii.crc32(data, value)`: continues a CRC-32 whose value so far is `value`. */
  function Crc32(data: seq<byte>, value: bv32): (r: bv32)
    ensures data == [] ==> r == value
  {
    !Register(!value, data)
  }

  /** Folding over a concatenation is folding over the second part from
      where the fold over the first part stopped, whatever the step. */
  lemma {:induction false} FoldConcat(step: (bv32, byte) -> bv32, c: bv32, a: seq<byte>, b: seq<byte>)
    ensures Fold(step, c, a + b) == Fold(step, Fold(step, c, a), b)
    decreases |a|
  {
    if a == [] {
      assert a + b == b;
    } else {
      assert (a + b)[0] == a[0];
      assert (a + b)[1..] == a[1..] + b;
      FoldConcat(step, step(c, a[0]), a[1..], b);
    }
  }

  /** Computing a CRC-32 in two calls, feeding the first result as the seed
      of the second, gives the CRC-32 of the concatenation. */
  lemma Crc32Concat(a: seq<byte>, b: seq<byte>, value: bv32)
    ensures Crc32(b, Crc32(a, value)) == Crc32(a + b, value)
  {
    var first := Register(!value, a);
    assert !Crc32(a, value) == first;
    FoldConcat(Step, !value, a, b);
  }
}
