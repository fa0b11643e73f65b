/** The GPT header codec of `src/gptsum/gpt.py`: the immutable `GPTHeader`
    value, its decoding from a raw 512-byte record (`unpack`), its encoding
    (`pack`) and the mirror relation between a primary header and its backup
    (`is_backup_of`). The record layout is the GPT header of section 5.3.2 of
    the UEFI Specification. */
module Gpt {
  import opened Bytes
  import opened Crc
  import opened Uuid
  import opened HeaderStruct

  /** `b"EFI PART"`. */
  const EXPECTED_SIGNATURE: seq<byte> := [0x45, 0x46, 0x49, 0x20, 0x50, 0x41, 0x52, 0x54]
  /** Revision 1.0, `b"\0\0\1\0"`. */
  const EXPECTED_REVISION: seq<byte> := [0, 0, 1, 0]
  const EXPECTED_RESERVED: seq<byte> := Zeros(4)
  const EXPECTED_PADDING: seq<byte> := Zeros(EXPECTED_PADDING_SIZE)

  datatype Option<T> = None | Some(value: T)

  /** The region that an `InvalidFieldError` other than a bad signature is about. */
  datatype Region = Reserved | Padding

  /** The exception classes of the codec, one variant per raise site kind.
      Every variant is a `GPTError` and a `ValueError`. */
  datatype GptError =
    /** The raw record is not 512 bytes (`declaredSize == None`), or its
        header-size field holds `declaredSize.value` instead of 92. */
    | InvalidHeaderSizeError(declaredSize: Option<int>)
    | InvalidSignatureError
    | InvalidFieldError(region: Region)
    | UnsupportedRevisionError
    | HeaderChecksumMismatchError(stored: int, calculated: int)
  {
    /** Whether `except InvalidFieldError` catches this error:
        `InvalidSignatureError` is a subclass of `InvalidFieldError`. */
    predicate IsInvalidFieldError(): (caught: bool)
      ensures caught <==> !(InvalidHeaderSizeError? || UnsupportedRevisionError? || HeaderChecksumMismatchError?)
    {
      InvalidSignatureError? || InvalidFieldError?
    }
  }

  datatype Result<T> = Success(value: T) | Failure(error: GptError)

  /** `GPTHeader`: a frozen dataclass, so equality is field-wise. */
  datatype GptHeader = GptHeader(
    currentLba: int,
    backupLba: int,
    firstUsableLba: int,
    lastUsableLba: int,
    diskGuid: Guid,
    entriesStartingLba: int,
    numEntries: int,
    entrySize: int,
    entriesCrc32: int)

  /** Every integer field fits the width `struct.pack` gives it (`Q` for the
      LBAs, `I` for the entry fields); outside this, `pack` raises. */
  predicate Fits(h: GptHeader) {
    && IsU64(h.currentLba)
    && IsU64(h.backupLba)
    && IsU64(h.firstUsableLba)
    && IsU64(h.lastUsableLba)
    && IsU64(h.entriesStartingLba)
    && IsU32(h.numEntries)
    && IsU32(h.entrySize)
    && IsU32(h.entriesCrc32)
  }

  /** The fifteen `struct` fields `pack` writes for `h` with the given header CRC. */
  function HeaderFields(h: GptHeader, headerCrc32: int): (f: Fields)
    requires Fits(h) && IsU32(headerCrc32)
    ensures Packable(f)
  {
    Fields(
      EXPECTED_SIGNATURE, EXPECTED_REVISION, EXPECTED_ACTUAL_HEADER_SIZE,
      headerCrc32, EXPECTED_RESERVED,
      h.currentLba, h.backupLba, h.firstUsableLba, h.lastUsableLba,
      BytesLe(h.diskGuid),
      h.entriesStartingLba, h.numEntries, h.entrySize, h.entriesCrc32,
      EXPECTED_PADDING)
  }

  /** The CRC-32 `pack` computes when no override is given: over the 92-byte
      part of the header with its CRC field packed as 0. */
  function ComputedCrc32(h: GptHeader): (c: int)
    requires Fits(h)
    ensures IsU32(c)
  {
    Crc32(PackActual(HeaderFields(h, 0)), 0) as int
  }

  /** `GPTHeader.pack(override_crc32)`. */
  function Pack(h: GptHeader, overrideCrc32: Option<int>): (r: seq<byte>)
    requires Fits(h)
    requires overrideCrc32.Some? ==> IsU32(overrideCrc32.value)
    ensures |r| == GPT_HEADER_SIZE
  {
    var headerCrc32 := if overrideCrc32.Some? then overrideCrc32.value else ComputedCrc32(h);
    PackRecord(HeaderFields(h, headerCrc32))
  }

  /** The CRC-32 `unpack` checks the stored one against: three chained
      `crc32` calls over the first 16 bytes, four zero bytes standing in for
      the CRC field, and the bytes after it, masked to 32 bits. */
  function CalculatedCrc32(header: seq<byte>): (c: int)
    requires |header| == EXPECTED_ACTUAL_HEADER_SIZE
    ensures IsU32(c)
  {
    var first := Crc32(header[..8 + 4 + 4], 0);
    var masked := Crc32(Zeros(4), first);
    (Crc32(header[8 + 4 + 4 + 4..], masked) & 0xFFFF_FFFF) as int
  }

  /** `GPTHeader.unpack(raw_header)`: the checks run in source order and the
      first that fails decides the error. A decoded header always fits the
      widths `pack` needs. */
  function Unpack(raw: seq<byte>): (r: Result<GptHeader>)
    ensures r.Success? ==> Fits(r.value)
  {
    if |raw| != GPT_HEADER_SIZE then Failure(InvalidHeaderSizeError(None))
    else
      var f := UnpackRecord(raw);
      if f.signature != EXPECTED_SIGNATURE then Failure(InvalidSignatureError)
      else if f.revision != EXPECTED_REVISION then Failure(UnsupportedRevisionError)
      else if f.headerSize != EXPECTED_ACTUAL_HEADER_SIZE then
        Failure(InvalidHeaderSizeError(Some(f.headerSize)))
      else
        var header := raw[..f.headerSize];
        if f.reserved != EXPECTED_RESERVED then Failure(InvalidFieldError(Reserved))
        else if f.padding != EXPECTED_PADDING then Failure(InvalidFieldError(Padding))
        else
          var calculated := CalculatedCrc32(header);
          if f.headerCrc32 != calculated then
            Failure(HeaderChecksumMismatchError(f.headerCrc32, calculated))
          else
            Success(GptHeader(
              f.currentLba, f.backupLba, f.firstUsableLba, f.lastUsableLba,
              FromBytesLe(f.diskGuid),
              f.entriesStartingLba, f.numEntries, f.entrySize, f.entriesCrc32))
  }

  /** `h.is_backup_of(other)`: the current and backup LBAs are swapped and
      the usable range, disk GUID and entry-array description agree. The
      entries' starting LBA is not compared. */
  predicate IsBackupOf(h: GptHeader, other: GptHeader): (b: bool)
    ensures b <==> h == Swapped(other).(entriesStartingLba := h.entriesStartingLba)
  {
    && h.currentLba == other.backupLba
    && h.backupLba == other.currentLba
    && h.firstUsableLba == other.firstUsableLba
    && h.lastUsableLba == other.lastUsableLba
    && h.diskGuid == other.diskGuid
    && h.numEntries == other.numEntries
    && h.entrySize == other.entrySize
    && h.entriesCrc32 == other.entriesCrc32
  }

  /** The header `h` mirrors: current and backup LBAs swapped. */
  function Swapped(h: GptHeader): GptHeader {
    h.(currentLba := h.backupLba, backupLba := h.currentLba)
  }
}
