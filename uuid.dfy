/** The part of Python's `uuid.UUID` the header codec uses. A GUID is kept
    as its 16 bytes in `UUID.bytes` order (big-endian), which determines the
    UUID and its equality; `bytes_le` is the mixed-endian order in which GPT
    stores it. */
module Uuid {
  import opened Bytes

  type Guid = s: seq<byte> | |s| == 16
    witness [0, 0, 0, 0, 0, 0, 0, 0, 0, 0, 0, 0, 0, 0, 0, 0]

  /** `UUID.bytes_le`: the first three groups (4, 2 and 2 bytes) reversed,
      the last 8 bytes as they are. */
  function BytesLe(g: Guid): (r: seq<byte>)
    ensures |r| == 16 && r[8..] == g[8..]
  {
    [g[3], g[2], g[1], g[0], g[5], g[4], g[7], g[6]] + g[8..]
  }

  /** `uuid.UUID(bytes_le=b)`: the UUID whose `bytes_le` are `b`. */
  function FromBytesLe(b: seq<byte>): (g: Guid)
    requires |b| == 16
    ensures BytesLe(g) == b
  {
    var g := [b[3], b[2], b[1], b[0], b[5], b[4], b[7], b[6]] + b[8..];
    assert BytesLe(g)[..8] == b[..8];
    assert BytesLe(g) == b[..8] + b[8..];
    g
  }

  lemma FromBytesLeOfBytesLe(g: Guid)
    ensures FromBytesLe(BytesLe(g)) == g
  {
    assert FromBytesLe(BytesLe(g))[..8] == g[..8];
    assert FromBytesLe(BytesLe(g)) == g[..8] + g[8..];
  }
}
