/** The on-disk record of a GPT header as the `struct` format
    `<8s4sII4sQQQQ16sQIII` (the 92 bytes the header-size field declares)
    followed by `420s` of padding: 512 bytes in all. `Fields` is the tuple
    that `struct.unpack` returns and `struct.pack` takes, in field order. */
module HeaderStruct {
  import opened Bytes

  /** The logical block size the record occupies one block of. */
  const LBA_SIZE: int := 512
  /** Size of the whole record, padding included. */
  const GPT_HEADER_SIZE: int := LBA_SIZE
  /** Size of the `<8s4sII4sQQQQ16sQIII` part, the value of the header-size field. */
  const EXPECTED_ACTUAL_HEADER_SIZE: int := 92
  /** Size of the `420s` padding after it. */
  const EXPECTED_PADDING_SIZE: int := GPT_HEADER_SIZE - EXPECTED_ACTUAL_HEADER_SIZE

  datatype Fields = Fields(
    signature: seq<byte>,
    revision: seq<byte>,
    headerSize: int,
    headerCrc32: int,
    reserved: seq<byte>,
    currentLba: int,
    backupLba: int,
    firstUsableLba: int,
    lastUsableLba: int,
    diskGuid: seq<byte>,
    entriesStartingLba: int,
    numEntries: int,
    entrySize: int,
    entriesCrc32: int,
    padding: seq<byte>)

  predicate IsU32(x: int) { 0 <= x < U32_LIMIT }
  predicate IsU64(x: int) { 0 <= x < U64_LIMIT }

  /** Every `s` field has its declared length and every `I`/`Q` field fits
      its width, so that `struct.pack` neither pads nor raises. */
  predicate Packable(f: Fields) {
    && |f.signature| == 8
    && |f.revision| == 4
    && IsU32(f.headerSize)
    && IsU32(f.headerCrc32)
    && |f.reserved| == 4
    && IsU64(f.currentLba)
    && IsU64(f.backupLba)
    && IsU64(f.firstUsableLba)
    && IsU64(f.lastUsableLba)
    && |f.diskGuid| == 16
    && IsU64(f.entriesStartingLba)
    && IsU32(f.numEntries)
    && IsU32(f.entrySize)
    && IsU32(f.entriesCrc32)
    && |f.padding| == EXPECTED_PADDING_SIZE
  }

  /** Bytes 0..16: signature, revision and header size. */
  function Lead(f: Fields): (r: seq<byte>)
    requires Packable(f)
    ensures |r| == 16
  {
    f.signature + f.revision + EncodeU32(f.headerSize)
  }

  /** Bytes 20..92: everything in the 92-byte part after the header CRC. */
  function Trail(f: Fields): (r: seq<byte>)
    requires Packable(f)
    ensures |r| == 72
  {
    f.reserved
    + EncodeU64(f.currentLba) + EncodeU64(f.backupLba)
    + EncodeU64(f.firstUsableLba) + EncodeU64(f.lastUsableLba)
    + f.diskGuid
    + EncodeU64(f.entriesStartingLba)
    + EncodeU32(f.numEntries) + EncodeU32(f.entrySize) + EncodeU32(f.entriesCrc32)
  }

  /** `struct.pack("<8s4sII4sQQQQ16sQIII", ...)`: the first fourteen fields. */
  function PackActual(f: Fields): (r: seq<byte>)
    requires Packable(f)
    ensures |r| == EXPECTED_ACTUAL_HEADER_SIZE
  {
    Lead(f) + EncodeU32(f.headerCrc32) + Trail(f)
  }

  /** `struct.pack("<8s4sII4sQQQQ16sQIII420s", ...)`: all fifteen fields. */
  function PackRecord(f: Fields): (r: seq<byte>)
    requires Packable(f)
    ensures |r| == GPT_HEADER_SIZE
  {
    PackActual(f) + f.padding
  }

  function U32At(s: seq<byte>, offset: nat): int
    requires offset + 4 <= |s|
  {
    DecodeLE(s[offset..offset + 4])
  }

  function U64At(s: seq<byte>, offset: nat): int
    requires offset + 8 <= |s|
  {
    DecodeLE(s[offset..offset + 8])
  }

  /** `struct.unpack("<8s4sII4sQQQQ16sQIII420s", raw)`, at the offsets the
      format implies. Every field it yields can be packed again. */
  function UnpackRecord(raw: seq<byte>): (f: Fields)
    requires |raw| == GPT_HEADER_SIZE
    ensures Packable(f)
  {
    WidthLimits();
    Fields(
      raw[0..8], raw[8..12], U32At(raw, 12), U32At(raw, 16), raw[20..24],
      U64At(raw, 24), U64At(raw, 32), U64At(raw, 40), U64At(raw, 48),
      raw[56..72],
      U64At(raw, 72), U32At(raw, 80), U32At(raw, 84), U32At(raw, 88),
      raw[92..512])
  }

  /** The 92-byte part splits at the header CRC into parts that do not
      depend on it: this is what lets a CRC be computed over the record with
      its own field zeroed. */
  lemma PackActualAroundCrc(f: Fields)
    requires Packable(f)
    ensures PackActual(f)[..16] == Lead(f)
    ensures PackActual(f)[16..20] == EncodeU32(f.headerCrc32)
    ensures PackActual(f)[20..] == Trail(f)
  {
  }

  /** Packing with another header CRC rewrites bytes 16..20 and no other. */
  lemma PackRecordCrcOverride(f: Fields, c: int)
    requires Packable(f) && IsU32(c)
    ensures PackRecord(f.(headerCrc32 := c)) == PackRecord(f)[..16] + EncodeU32(c) + PackRecord(f)[20..]
  {
    var g := f.(headerCrc32 := c);
    assert Lead(g) == Lead(f) && Trail(g) == Trail(f);
    assert PackRecord(f) == Lead(f) + EncodeU32(f.headerCrc32) + (Trail(f) + f.padding);
    assert PackRecord(g) == Lead(f) + EncodeU32(c) + (Trail(f) + f.padding);
    ReplacePart(Lead(f), EncodeU32(f.headerCrc32), EncodeU32(c), Trail(f) + f.padding);
  }

  /** Replacing the middle of three parts by one of the same length. */
  lemma ReplacePart(lead: seq<byte>, x: seq<byte>, y: seq<byte>, rest: seq<byte>)
    requires |x| == |y|
    ensures lead + y + rest == (lead + x + rest)[..|lead|] + y + (lead + x + rest)[|lead| + |x|..]
  {
    var s := lead + x + rest;
    assert s[..|lead|] == lead;
    assert s[|lead| + |x|..] == rest;
  }

  /** Where each of ten consecutive parts of the given widths lies in their
      concatenation: the offsets of the fields after the header CRC. */
  lemma TenParts(a: seq<byte>, b: seq<byte>, c: seq<byte>, d: seq<byte>, e: seq<byte>,
                 g: seq<byte>, h: seq<byte>, i: seq<byte>, j: seq<byte>, k: seq<byte>)
    requires |a| == 4 && |b| == 8 && |c| == 8 && |d| == 8 && |e| == 8
    requires |g| == 16 && |h| == 8 && |i| == 4 && |j| == 4 && |k| == 4
    ensures var t := a + b + c + d + e + g + h + i + j + k;
      && t[0..4] == a && t[4..12] == b && t[12..20] == c && t[20..28] == d
      && t[28..36] == e && t[36..52] == g && t[52..60] == h && t[60..64] == i
      && t[64..68] == j && t[68..72] == k
  {
  }

  lemma TrailSlices(f: Fields)
    requires Packable(f)
    ensures Trail(f)[0..4] == f.reserved
    ensures Trail(f)[4..12] == EncodeU64(f.currentLba)
    ensures Trail(f)[12..20] == EncodeU64(f.backupLba)
    ensures Trail(f)[20..28] == EncodeU64(f.firstUsableLba)
    ensures Trail(f)[28..36] == EncodeU64(f.lastUsableLba)
    ensures Trail(f)[36..52] == f.diskGuid
    ensures Trail(f)[52..60] == EncodeU64(f.entriesStartingLba)
    ensures Trail(f)[60..64] == EncodeU32(f.numEntries)
    ensures Trail(f)[64..68] == EncodeU32(f.entrySize)
    ensures Trail(f)[68..72] == EncodeU32(f.entriesCrc32)
  {
    TenParts(f.reserved, EncodeU64(f.currentLba), EncodeU64(f.backupLba),
      EncodeU64(f.firstUsableLba), EncodeU64(f.lastUsableLba), f.diskGuid,
      EncodeU64(f.entriesStartingLba), EncodeU32(f.numEntries),
      EncodeU32(f.entrySize), EncodeU32(f.entriesCrc32));
  }

  /** A slice of a slice is a slice of the whole. */
  lemma SliceOfSlice(s: seq<byte>, lo: nat, hi: nat, a: nat, b: nat)
    requires lo <= hi <= |s| && a <= b <= hi - lo
    ensures s[lo..hi][a..b] == s[lo + a..lo + b]
  {
    forall k | 0 <= k < b - a
      ensures s[lo..hi][a..b][k] == s[lo + a..lo + b][k]
    {
    }
  }

  /** Any 72 bytes are the concatenation of their slices at the offsets of
      the fields after the header CRC. */
  lemma TrailOfSlices(t: seq<byte>)
    requires |t| == 72
    ensures t == t[0..4] + t[4..12] + t[12..20] + t[20..28] + t[28..36]
      + t[36..52] + t[52..60] + t[60..64] + t[64..68] + t[68..72]
  {
  }

  /** Any 512 bytes are the concatenation of their slices at the offsets of
      the signature, revision, header size, header CRC, the rest of the
      92-byte part, and the padding. */
  lemma RecordOfSlices(raw: seq<byte>)
    requires |raw| == 512
    ensures raw == raw[0..8] + raw[8..12] + raw[12..16] + raw[16..20] + raw[20..92] + raw[92..512]
  {
  }

  /** Where each part of the whole record lies in it. */
  lemma SixParts(a: seq<byte>, b: seq<byte>, c: seq<byte>, d: seq<byte>, t: seq<byte>, p: seq<byte>)
    requires |a| == 8 && |b| == 4 && |c| == 4 && |d| == 4 && |t| == 72 && |p| == 420
    ensures var r := a + b + c + d + t + p;
      && r[0..8] == a && r[8..12] == b && r[12..16] == c && r[16..20] == d
      && r[20..92] == t && r[92..512] == p
  {
  }

  lemma RecordSlices(f: Fields)
    requires Packable(f)
    ensures PackRecord(f)[0..8] == f.signature
    ensures PackRecord(f)[8..12] == f.revision
    ensures PackRecord(f)[12..16] == EncodeU32(f.headerSize)
    ensures PackRecord(f)[16..20] == EncodeU32(f.headerCrc32)
    ensures PackRecord(f)[20..92] == Trail(f)
    ensures PackRecord(f)[92..512] == f.padding
  {
    SixParts(f.signature, f.revision, EncodeU32(f.headerSize),
      EncodeU32(f.headerCrc32), Trail(f), f.padding);
  }

  /** Unpacking a packed record yields the fields it was packed from. */
  lemma UnpackPackRecord(f: Fields)
    requires Packable(f)
    ensures UnpackRecord(PackRecord(f)) == f
  {
    var raw := PackRecord(f);
    RecordSlices(f);
    TrailSlices(f);
    SliceOfSlice(raw, 20, 92, 0, 4);
    SliceOfSlice(raw, 20, 92, 4, 12);
    SliceOfSlice(raw, 20, 92, 12, 20);
    SliceOfSlice(raw, 20, 92, 20, 28);
    SliceOfSlice(raw, 20, 92, 28, 36);
    SliceOfSlice(raw, 20, 92, 36, 52);
    SliceOfSlice(raw, 20, 92, 52, 60);
    SliceOfSlice(raw, 20, 92, 60, 64);
    SliceOfSlice(raw, 20, 92, 64, 68);
    SliceOfSlice(raw, 20, 92, 68, 72);
  }

  lemma TrailOfParts(f: Fields, t: seq<byte>)
    requires Packable(f) && |t| == 72
    requires f.reserved == t[0..4]
    requires EncodeU64(f.currentLba) == t[4..12]
    requires EncodeU64(f.backupLba) == t[12..20]
    requires EncodeU64(f.firstUsableLba) == t[20..28]
    requires EncodeU64(f.lastUsableLba) == t[28..36]
    requires f.diskGuid == t[36..52]
    requires EncodeU64(f.entriesStartingLba) == t[52..60]
    requires EncodeU32(f.numEntries) == t[60..64]
    requires EncodeU32(f.entrySize) == t[64..68]
    requires EncodeU32(f.entriesCrc32) == t[68..72]
    ensures Trail(f) == t
  {
    TrailOfSlices(t);
  }

  lemma U64Of(raw: seq<byte>, offset: nat)
    requires offset + 8 <= |raw|
    ensures U64At(raw, offset) < U64_LIMIT
    ensures EncodeU64(U64At(raw, offset)) == raw[offset..offset + 8]
  {
    EncodeDecodeU64(raw[offset..offset + 8]);
  }

  lemma U32Of(raw: seq<byte>, offset: nat)
    requires offset + 4 <= |raw|
    ensures U32At(raw, offset) < U32_LIMIT
    ensures EncodeU32(U32At(raw, offset)) == raw[offset..offset + 4]
  {
    EncodeDecodeU32(raw[offset..offset + 4]);
  }

  lemma TrailOfUnpacked(raw: seq<byte>)
    requires |raw| == GPT_HEADER_SIZE
    ensures Trail(UnpackRecord(raw)) == raw[20..92]
  {
    var f := UnpackRecord(raw);
    var t := raw[20..92];
    U64Of(raw, 24);
    U64Of(raw, 32);
    U64Of(raw, 40);
    U64Of(raw, 48);
    U64Of(raw, 72);
    U32Of(raw, 80);
    U32Of(raw, 84);
    U32Of(raw, 88);
    SliceOfSlice(raw, 20, 92, 0, 4);
    SliceOfSlice(raw, 20, 92, 4, 12);
    SliceOfSlice(raw, 20, 92, 12, 20);
    SliceOfSlice(raw, 20, 92, 20, 28);
    SliceOfSlice(raw, 20, 92, 28, 36);
    SliceOfSlice(raw, 20, 92, 36, 52);
    SliceOfSlice(raw, 20, 92, 52, 60);
    SliceOfSlice(raw, 20, 92, 60, 64);
    SliceOfSlice(raw, 20, 92, 64, 68);
    SliceOfSlice(raw, 20, 92, 68, 72);
    TrailOfParts(f, t);
  }

  /** Packing the fields unpacked from any 512 bytes gives those bytes back:
      the record format has no slack. */
  lemma PackUnpackRecord(raw: seq<byte>)
    requires |raw| == GPT_HEADER_SIZE
    ensures PackRecord(UnpackRecord(raw)) == raw
  {
    var f := UnpackRecord(raw);
    EncodeDecodeU32(raw[12..16]);
    EncodeDecodeU32(raw[16..20]);
    TrailOfUnpacked(raw);
    RecordOfSlices(raw);
    RecordSlices(f);
    assert PackRecord(f) == f.signature + f.revision + EncodeU32(f.headerSize)
      + EncodeU32(f.headerCrc32) + Trail(f) + f.padding;
  }
}
