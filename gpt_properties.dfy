/** What the GPT header codec promises: the checksum that `unpack` verifies
    is the one `pack` writes, `unpack` and `pack` are inverse to each other,
    every field sits at its fixed offset, an overridden CRC is the only
    difference it makes, and `is_backup_of` is a symmetric swap relation. */
module GptProperties {
  import opened Bytes
  import opened Crc
  import opened Uuid
  import opened HeaderStruct
  import opened Gpt

  /** The CRC-32 of a 92-byte header with its own field (bytes 16..20)
      replaced by zeros, computed in one call. */
  function MaskedCrc32(header: seq<byte>): (c: int)
    requires |header| == EXPECTED_ACTUAL_HEADER_SIZE
  {
    Crc32(header[..16] + Zeros(4) + header[20..], 0) as int
  }

  /** The three chained `crc32` calls of `unpack` compute the one-shot CRC-32
      of the header with its CRC field zeroed. */
  lemma CalculatedCrc32IsMasked(header: seq<byte>)
    requires |header| == EXPECTED_ACTUAL_HEADER_SIZE
    ensures CalculatedCrc32(header) == MaskedCrc32(header)
  {
    var first := Crc32(header[..16], 0);
    var masked := Crc32(Zeros(4), first);
    var last := Crc32(header[20..], masked);
    Crc32Concat(header[..16], Zeros(4), 0);
    Crc32Concat(header[..16] + Zeros(4), header[20..], 0);
    assert last & 0xFFFF_FFFF == last;
  }

  lemma EncodeU32Zero()
    ensures EncodeU32(0) == Zeros(4)
  {
    WidthLimits();
    assert EncodeLE(0, 4) == [0, 0, 0, 0];
  }

  /** Whatever CRC value was packed, the CRC that `unpack` recomputes over
      the packed bytes is the one `pack` computes: the CRC field itself
      never enters the computation. */
  lemma PackedCrc32IsComputed(h: GptHeader, overrideCrc32: Option<int>)
    requires Fits(h)
    requires overrideCrc32.Some? ==> IsU32(overrideCrc32.value)
    ensures CalculatedCrc32(Pack(h, overrideCrc32)[..EXPECTED_ACTUAL_HEADER_SIZE]) == ComputedCrc32(h)
  {
    var c := if overrideCrc32.Some? then overrideCrc32.value else ComputedCrc32(h);
    var f, f0 := HeaderFields(h, c), HeaderFields(h, 0);
    var header := Pack(h, overrideCrc32)[..EXPECTED_ACTUAL_HEADER_SIZE];
    assert header == PackActual(f);
    PackActualAroundCrc(f);
    PackActualAroundCrc(f0);
    assert Lead(f) == Lead(f0) && Trail(f) == Trail(f0);
    EncodeU32Zero();
    assert PackActual(f0) == header[..16] + Zeros(4) + header[20..];
    CalculatedCrc32IsMasked(header);
  }

  /** Packing without an override is packing with the computed CRC as override. */
  lemma PackDefaultIsComputedOverride(h: GptHeader)
    requires Fits(h)
    ensures Pack(h, None) == Pack(h, Some(ComputedCrc32(h)))
  {
  }

  /** `unpack` of a header packed with CRC `c` succeeds, with the original
      header, exactly when `c` is the computed CRC; otherwise it reports the
      stored and the calculated value. */
  lemma {:induction false} UnpackPackOverride(h: GptHeader, c: int)
    requires Fits(h) && IsU32(c)
    ensures Unpack(Pack(h, Some(c))) ==
      if c == ComputedCrc32(h) then Success(h)
      else Failure(HeaderChecksumMismatchError(c, ComputedCrc32(h)))
  {
    var f := HeaderFields(h, c);
    var raw := Pack(h, Some(c));
    UnpackPackRecord(f);
    assert UnpackRecord(raw) == f;
    PackedCrc32IsComputed(h, Some(c));
    FromBytesLeOfBytesLe(h.diskGuid);
  }

  /** Round trip: `unpack(pack(h)) == h` for every header whose fields fit. */
  lemma UnpackPack(h: GptHeader)
    requires Fits(h)
    ensures Unpack(Pack(h, None)) == Success(h)
  {
    PackDefaultIsComputedOverride(h);
    UnpackPackOverride(h, ComputedCrc32(h));
  }

  /** What a successful `unpack` has checked, field by field, and the
      header it builds from the unpacked fields. */
  lemma UnpackSuccess(raw: seq<byte>)
    requires Unpack(raw).Success?
    ensures |raw| == GPT_HEADER_SIZE
    ensures var f := UnpackRecord(raw);
      && f.signature == EXPECTED_SIGNATURE
      && f.revision == EXPECTED_REVISION
      && f.headerSize == EXPECTED_ACTUAL_HEADER_SIZE
      && f.reserved == EXPECTED_RESERVED
      && f.padding == EXPECTED_PADDING
      && f.headerCrc32 == CalculatedCrc32(raw[..EXPECTED_ACTUAL_HEADER_SIZE])
      && Unpack(raw).value == GptHeader(
           f.currentLba, f.backupLba, f.firstUsableLba, f.lastUsableLba,
           FromBytesLe(f.diskGuid),
           f.entriesStartingLba, f.numEntries, f.entrySize, f.entriesCrc32)
  {
  }

  /** Round trip the other way: every record `unpack` accepts is, byte for
      byte, what `pack` makes of the decoded header. */
  lemma PackUnpack(raw: seq<byte>)
    requires Unpack(raw).Success?
    ensures Pack(Unpack(raw).value, None) == raw
  {
    var h := Unpack(raw).value;
    var f := UnpackRecord(raw);
    FieldsOfUnpacked(raw);
    PackUnpackRecord(raw);
    assert Pack(h, Some(f.headerCrc32)) == raw;
    PackedCrc32IsComputed(h, Some(f.headerCrc32));
    PackDefaultIsComputedOverride(h);
  }

  /** The fields `pack` writes for a decoded header, with the stored CRC,
      are the fields `unpack` read. */
  lemma FieldsOfUnpacked(raw: seq<byte>)
    requires Unpack(raw).Success?
    ensures |raw| == GPT_HEADER_SIZE
    ensures var f := UnpackRecord(raw);
      && f.headerCrc32 == CalculatedCrc32(raw[..EXPECTED_ACTUAL_HEADER_SIZE])
      && HeaderFields(Unpack(raw).value, f.headerCrc32) == f
  {
    UnpackSuccess(raw);
  }

  /** `unpack` accepts exactly the records `pack` produces. */
  lemma UnpackAcceptsExactlyPacked(raw: seq<byte>)
    ensures Unpack(raw).Success? <==> exists h :: Fits(h) && Pack(h, None) == raw
  {
    if Unpack(raw).Success? {
      PackUnpack(raw);
      assert Fits(Unpack(raw).value);
    }
    if h :| Fits(h) && Pack(h, None) == raw {
      UnpackPack(h);
    }
  }

  /** The fixed regions of every packed header: signature, revision,
      header size 92, the CRC written, zero reserved field, zero padding. */
  lemma PackConstantRegions(h: GptHeader, overrideCrc32: Option<int>)
    requires Fits(h)
    requires overrideCrc32.Some? ==> IsU32(overrideCrc32.value)
    ensures var r := Pack(h, overrideCrc32);
      && r[0..8] == EXPECTED_SIGNATURE
      && r[8..12] == EXPECTED_REVISION
      && r[12..16] == EncodeU32(EXPECTED_ACTUAL_HEADER_SIZE)
      && r[16..20] == EncodeU32(if overrideCrc32.Some? then overrideCrc32.value else ComputedCrc32(h))
      && r[20..24] == EXPECTED_RESERVED
      && r[EXPECTED_ACTUAL_HEADER_SIZE..] == EXPECTED_PADDING
  {
    var c := if overrideCrc32.Some? then overrideCrc32.value else ComputedCrc32(h);
    RecordFixedRegions(HeaderFields(h, c));
  }

  /** Where the fields that `pack` fixes lie in a packed record. */
  lemma RecordFixedRegions(f: Fields)
    requires Packable(f)
    ensures var r := PackRecord(f);
      && r[0..8] == f.signature
      && r[8..12] == f.revision
      && r[12..16] == EncodeU32(f.headerSize)
      && r[16..20] == EncodeU32(f.headerCrc32)
      && r[20..24] == f.reserved
      && r[EXPECTED_ACTUAL_HEADER_SIZE..] == f.padding
  {
    var r := PackRecord(f);
    RecordSlices(f);
    TrailSlices(f);
    SliceOfSlice(r, 20, 92, 0, 4);
    assert r[EXPECTED_ACTUAL_HEADER_SIZE..] == r[92..512];
  }

  /** Each field of the header at its offset, integers little-endian and the
      GUID in `bytes_le` order. */
  lemma PackFieldOffsets(h: GptHeader, overrideCrc32: Option<int>)
    requires Fits(h)
    requires overrideCrc32.Some? ==> IsU32(overrideCrc32.value)
    ensures var r := Pack(h, overrideCrc32);
      && r[24..32] == EncodeU64(h.currentLba)
      && r[32..40] == EncodeU64(h.backupLba)
      && r[40..48] == EncodeU64(h.firstUsableLba)
      && r[48..56] == EncodeU64(h.lastUsableLba)
      && r[56..72] == BytesLe(h.diskGuid)
      && r[72..80] == EncodeU64(h.entriesStartingLba)
      && r[80..84] == EncodeU32(h.numEntries)
      && r[84..88] == EncodeU32(h.entrySize)
      && r[88..92] == EncodeU32(h.entriesCrc32)
  {
    var c := if overrideCrc32.Some? then overrideCrc32.value else ComputedCrc32(h);
    var f := HeaderFields(h, c);
    var r := Pack(h, overrideCrc32);
    RecordSlices(f);
    TrailSlices(f);
    SliceOfSlice(r, 20, 92, 4, 12);
    SliceOfSlice(r, 20, 92, 12, 20);
    SliceOfSlice(r, 20, 92, 20, 28);
    SliceOfSlice(r, 20, 92, 28, 36);
    SliceOfSlice(r, 20, 92, 36, 52);
    SliceOfSlice(r, 20, 92, 52, 60);
    SliceOfSlice(r, 20, 92, 60, 64);
    SliceOfSlice(r, 20, 92, 64, 68);
    SliceOfSlice(r, 20, 92, 68, 72);
  }

  /** An override changes bytes 16..20 to its little-endian value and
      nothing else. */
  lemma PackOverrideOnlyChangesCrc(h: GptHeader, c: int)
    requires Fits(h) && IsU32(c)
    ensures Pack(h, Some(c)) == Pack(h, None)[..16] + EncodeU32(c) + Pack(h, None)[20..]
  {
    var f0 := HeaderFields(h, ComputedCrc32(h));
    PackRecordCrcOverride(f0, c);
    assert f0.(headerCrc32 := c) == HeaderFields(h, c);
  }

  /** The check cascade of `unpack`, in order: each check runs only when
      every earlier one passed, and its error is the result. */
  lemma UnpackCheckOrder(raw: seq<byte>)
    ensures |raw| != GPT_HEADER_SIZE ==> Unpack(raw) == Failure(InvalidHeaderSizeError(None))
    ensures |raw| == GPT_HEADER_SIZE ==>
      Unpack(raw) ==
        if raw[0..8] != EXPECTED_SIGNATURE then Failure(InvalidSignatureError)
        else if raw[8..12] != EXPECTED_REVISION then Failure(UnsupportedRevisionError)
        else if DecodeLE(raw[12..16]) != EXPECTED_ACTUAL_HEADER_SIZE then
          Failure(InvalidHeaderSizeError(Some(DecodeLE(raw[12..16]))))
        else if raw[20..24] != EXPECTED_RESERVED then Failure(InvalidFieldError(Reserved))
        else if raw[EXPECTED_ACTUAL_HEADER_SIZE..] != EXPECTED_PADDING then Failure(InvalidFieldError(Padding))
        else if DecodeLE(raw[16..20]) != MaskedCrc32(raw[..EXPECTED_ACTUAL_HEADER_SIZE]) then
          Failure(HeaderChecksumMismatchError(
            DecodeLE(raw[16..20]), MaskedCrc32(raw[..EXPECTED_ACTUAL_HEADER_SIZE])))
        else Success(GptHeader(
          DecodeLE(raw[24..32]), DecodeLE(raw[32..40]), DecodeLE(raw[40..48]), DecodeLE(raw[48..56]),
          FromBytesLe(raw[56..72]),
          DecodeLE(raw[72..80]), DecodeLE(raw[80..84]), DecodeLE(raw[84..88]), DecodeLE(raw[88..92])))
  {
    if |raw| == GPT_HEADER_SIZE {
      var f := UnpackRecord(raw);
      assert f.signature == raw[0..8] && f.revision == raw[8..12];
      assert f.headerSize == DecodeLE(raw[12..16]) && f.headerCrc32 == DecodeLE(raw[16..20]);
      assert f.reserved == raw[20..24] && f.padding == raw[EXPECTED_ACTUAL_HEADER_SIZE..];
      CalculatedCrc32IsMasked(raw[..EXPECTED_ACTUAL_HEADER_SIZE]);
    }
  }

  /** `p` with the bytes from `offset` on overwritten by `x`. */
  function Splice(p: seq<byte>, offset: nat, x: seq<byte>): (r: seq<byte>)
    requires offset + |x| <= |p|
    ensures |r| == |p|
  {
    p[..offset] + x + p[offset + |x|..]
  }

  lemma SpliceSlices(p: seq<byte>, offset: nat, x: seq<byte>, lo: nat, hi: nat)
    requires offset + |x| <= |p| && lo <= hi <= |p|
    ensures Splice(p, offset, x)[offset..offset + |x|] == x
    ensures hi <= offset || offset + |x| <= lo ==> Splice(p, offset, x)[lo..hi] == p[lo..hi]
  {
    var r := Splice(p, offset, x);
    if hi <= offset || offset + |x| <= lo {
      forall k | lo <= k < hi
        ensures r[k] == p[k]
      {
      }
    }
  }

  lemma HeaderSizeDecodes(raw: seq<byte>)
    requires |raw| == GPT_HEADER_SIZE && raw[12..16] == EncodeU32(EXPECTED_ACTUAL_HEADER_SIZE)
    ensures DecodeLE(raw[12..16]) == EXPECTED_ACTUAL_HEADER_SIZE
  {
  }

  /** A packed header with a wrong signature is rejected for its signature. */
  lemma CorruptSignatureDetected(h: GptHeader, signature: seq<byte>)
    requires Fits(h) && |signature| == 8 && signature != EXPECTED_SIGNATURE
    ensures Unpack(Splice(Pack(h, None), 0, signature)) == Failure(InvalidSignatureError)
  {
    var raw := Splice(Pack(h, None), 0, signature);
    SpliceSlices(Pack(h, None), 0, signature, 0, 0);
    UnpackCheckOrder(raw);
  }

  /** A packed header with another revision is rejected for its revision. */
  lemma CorruptRevisionDetected(h: GptHeader, revision: seq<byte>)
    requires Fits(h) && |revision| == 4 && revision != EXPECTED_REVISION
    ensures Unpack(Splice(Pack(h, None), 8, revision)) == Failure(UnsupportedRevisionError)
  {
    var p := Pack(h, None);
    var raw := Splice(p, 8, revision);
    PackConstantRegions(h, None);
    SpliceSlices(p, 8, revision, 0, 8);
    UnpackCheckOrder(raw);
  }

  /** A packed header declaring a size other than 92 is rejected for its size. */
  lemma CorruptHeaderSizeDetected(h: GptHeader, size: int)
    requires Fits(h) && IsU32(size) && size != EXPECTED_ACTUAL_HEADER_SIZE
    ensures Unpack(Splice(Pack(h, None), 12, EncodeU32(size))) ==
      Failure(InvalidHeaderSizeError(Some(size)))
  {
    var p := Pack(h, None);
    var raw := Splice(p, 12, EncodeU32(size));
    PackConstantRegions(h, None);
    SpliceSlices(p, 12, EncodeU32(size), 0, 8);
    SpliceSlices(p, 12, EncodeU32(size), 8, 12);
    UnpackCheckOrder(raw);
  }

  /** A packed header with a non-zero reserved field is rejected for it. */
  lemma CorruptReservedDetected(h: GptHeader, reserved: seq<byte>)
    requires Fits(h) && |reserved| == 4 && reserved != EXPECTED_RESERVED
    ensures Unpack(Splice(Pack(h, None), 20, reserved)) == Failure(InvalidFieldError(Reserved))
  {
    var p := Pack(h, None);
    var raw := Splice(p, 20, reserved);
    PackConstantRegions(h, None);
    SpliceSlices(p, 20, reserved, 0, 8);
    SpliceSlices(p, 20, reserved, 8, 12);
    SpliceSlices(p, 20, reserved, 12, 16);
    HeaderSizeDecodes(raw);
    UnpackCheckOrder(raw);
  }

  /** A packed header with non-zero padding is rejected for it. */
  lemma CorruptPaddingDetected(h: GptHeader, padding: seq<byte>)
    requires Fits(h) && |padding| == EXPECTED_PADDING_SIZE && padding != EXPECTED_PADDING
    ensures Unpack(Splice(Pack(h, None), EXPECTED_ACTUAL_HEADER_SIZE, padding)) == Failure(InvalidFieldError(Padding))
  {
    var p := Pack(h, None);
    var raw := Splice(p, EXPECTED_ACTUAL_HEADER_SIZE, padding);
    PackConstantRegions(h, None);
    SpliceSlices(p, EXPECTED_ACTUAL_HEADER_SIZE, padding, 0, 8);
    SpliceSlices(p, EXPECTED_ACTUAL_HEADER_SIZE, padding, 8, 12);
    SpliceSlices(p, EXPECTED_ACTUAL_HEADER_SIZE, padding, 12, 16);
    SpliceSlices(p, EXPECTED_ACTUAL_HEADER_SIZE, padding, 20, 24);
    HeaderSizeDecodes(raw);
    UnpackCheckOrder(raw);
  }

  /** Exactly the signature and field errors are caught as `InvalidFieldError`. */
  lemma FieldErrorsOfUnpack(raw: seq<byte>)
    requires Unpack(raw).Failure?
    ensures Unpack(raw).error.IsInvalidFieldError() <==>
      |raw| == GPT_HEADER_SIZE && (
        raw[0..8] != EXPECTED_SIGNATURE
        || (raw[8..12] == EXPECTED_REVISION && DecodeLE(raw[12..16]) == EXPECTED_ACTUAL_HEADER_SIZE
            && (raw[20..24] != EXPECTED_RESERVED || raw[EXPECTED_ACTUAL_HEADER_SIZE..] != EXPECTED_PADDING)))
  {
    UnpackCheckOrder(raw);
    if |raw| == GPT_HEADER_SIZE {
      var f := UnpackRecord(raw);
      assert f.signature == raw[0..8] && f.revision == raw[8..12];
      assert f.headerSize == DecodeLE(raw[12..16]);
      assert f.reserved == raw[20..24] && f.padding == raw[EXPECTED_ACTUAL_HEADER_SIZE..];
    }
  }

  lemma IsBackupOfSymmetric(a: GptHeader, b: GptHeader)
    ensures IsBackupOf(a, b) <==> IsBackupOf(b, a)
  {
  }

  lemma IsBackupOfIgnoresEntriesLba(a: GptHeader, b: GptHeader, lba: int)
    ensures IsBackupOf(a.(entriesStartingLba := lba), b) <==> IsBackupOf(a, b)
    ensures IsBackupOf(a, b.(entriesStartingLba := lba)) <==> IsBackupOf(a, b)
  {
  }

  /** A header is its own backup only when it sits where its backup does. */
  lemma IsBackupOfSelf(a: GptHeader)
    ensures IsBackupOf(a, a) <==> a.currentLba == a.backupLba
  {
  }
}
