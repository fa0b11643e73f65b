# GPT header codec (gptsum) in Dafny

This project models the GPT header codec of gptsum: `src/gptsum/gpt.py`.
gptsum stores a checksum of a disk image in the image's own disk GUID. The codec
reads and writes the 512-byte GPT header record. That record is the "GPT Header"
of section 5.3.2 of the UEFI Specification.

- **Data.** `Gpt.GptHeader` is the frozen `GPTHeader` dataclass as a datatype with
  nine fields. Its disk GUID is `Uuid.Guid`, the 16 bytes of `uuid.UUID.bytes`
  (big-endian).
- **Decoding.** `Gpt.Unpack` is `GPTHeader.unpack`. It returns `Result<GptHeader>`.
  Each exception class is one variant of `Gpt.GptError`.
- **Encoding.** `Gpt.Pack` is `GPTHeader.pack(override_crc32)`. The override is an
  `Option<int>`.
- **Mirror relation.** `Gpt.IsBackupOf` is `GPTHeader.is_backup_of`.
- **Record layout.** `struct.Struct("<8s4sII4sQQQQ16sQIII420s")` is modelled in
  `HeaderStruct`. It is a record of 15 fields with a pack and an unpack at the
  offsets the format implies.
- **Integers.** `struct`'s little-endian `I`/`Q` integers are modelled in `Bytes`.
- **CRC-32.** `binascii.crc32` is modelled in `Crc` as a left fold of a one-byte
  step, using the reflected polynomial 0xEDB88320. The register is inverted on
  entry and on exit. `crc32(data, value)` continues from `value`.

Files:
- `bytes.dfy`: bytes, `U32_LIMIT`/`U64_LIMIT`, little-endian encode and decode.
- `crc.dfy`: CRC-32 and its concatenation property.
- `uuid.dfy`: the GUID and the `bytes_le` byte order.
- `header_struct.dfy`: the struct layout.
- `gpt.dfy`: the constants, the errors, the header, `Unpack`, `Pack` and
  `IsBackupOf`.
- `gpt_properties.dfy`: the lemmas.

The error classes map to variants as follows:

- `InvalidHeaderSizeError(None)`: the raw record is not 512 bytes long.
- `InvalidHeaderSizeError(Some(n))`: the header-size field holds `n`, not 92.
  The source raises the same class for this check and for the length check.
- `InvalidSignatureError`: the signature is not `"EFI PART"`.
- `InvalidFieldError(Reserved)`: the reserved field is not zero.
- `InvalidFieldError(Padding)`: the padding is not zero.
- `UnsupportedRevisionError`: the revision is not `00 00 01 00`.
- `HeaderChecksumMismatchError(stored, calculated)`: the stored CRC does not match
  the computed one.

In the source, `InvalidSignatureError` is a subclass of `InvalidFieldError`. The
model keeps this as the predicate `GptError.IsInvalidFieldError()`, which is what an
`except InvalidFieldError` would catch.

Two details follow the code exactly, and a looser reading of the format could
easily get them wrong:

- **CRC split.** The first `crc32` pass of `unpack` covers bytes 0..16 only:
  signature, revision and header size. It does not extend to the reserved field.
  Four zero bytes stand in for the CRC field at 16..20. The reserved field goes
  into the third pass, with the rest of bytes 20..92.
- **Header-size error.** A wrong header-size field raises
  `InvalidHeaderSizeError`, the class of the length check. It does not raise a
  separate field-layout error.

## Model

| member | source | states |
|---|---|---|
| Bytes.DecodeLE | src/gptsum/gpt.py:19 | a little-endian byte string decodes to a value below 256^length, so every `I`/`Q` field read by `struct.unpack` fits its width |
| Bytes.DecodeEncode | src/gptsum/gpt.py:19 | decoding the little-endian encoding of any value in range gives the value back |
| Bytes.EncodeDecode | src/gptsum/gpt.py:19 | every byte string is the little-endian encoding of the value it decodes to (no two encodings of one value) |
| Bytes.EncodeU32 | src/gptsum/gpt.py:19 | `struct.pack("<I", x)` gives 4 bytes that read back as `x` for every `x` below 2^32 |
| Bytes.EncodeU64 | src/gptsum/gpt.py:19 | `struct.pack("<Q", x)` gives 8 bytes that read back as `x` for every `x` below 2^64 |
| Crc.Crc32 | src/gptsum/gpt.py:139-141 | `binascii.crc32(b"", value) == value`: continuing a CRC over no data leaves it unchanged |
| Crc.FoldConcat | src/gptsum/gpt.py:138-144 | folding the CRC step over `a + b` equals folding over `b` from where the fold over `a` stopped |
| Crc.Crc32Concat | src/gptsum/gpt.py:138-144 | `crc32(b, crc32(a, v)) == crc32(a + b, v)`: chaining calls with the previous result as seed computes the CRC of the concatenation |
| Uuid.BytesLe | src/gptsum/gpt.py:186 | `UUID.bytes_le` is 16 bytes whose last 8 are those of `UUID.bytes` |
| Uuid.FromBytesLe | src/gptsum/gpt.py:158 | `UUID(bytes_le=b).bytes_le == b` for every 16 bytes `b`, so the stored GUID bytes survive decode and re-encode |
| Uuid.FromBytesLeOfBytesLe | src/gptsum/gpt.py:158 | `UUID(bytes_le=g.bytes_le) == g` for every GUID |
| HeaderStruct.PackActual | src/gptsum/gpt.py:19-21 | the 14-field part of the record packs to exactly 92 bytes |
| HeaderStruct.PackRecord | src/gptsum/gpt.py:22-25 | the record with its padding packs to exactly 512 bytes |
| HeaderStruct.UnpackRecord | src/gptsum/gpt.py:95-111 | every field unpacked from 512 bytes has its declared length or fits its integer width |
| HeaderStruct.PackActualAroundCrc | src/gptsum/gpt.py:176-192 | the 92-byte part is bytes 0..16, then the header CRC little-endian at 16..20, then bytes 20..92, and neither outer part depends on the CRC |
| HeaderStruct.PackRecordCrcOverride | src/gptsum/gpt.py:194-210 | packing the record with another header CRC rewrites bytes 16..20 with it little-endian and leaves every other byte as it was |
| HeaderStruct.UnpackPackRecord | src/gptsum/gpt.py:19-25 | unpacking a packed record returns exactly the fields it was packed from |
| HeaderStruct.PackUnpackRecord | src/gptsum/gpt.py:95-111 | packing the fields unpacked from any 512 bytes returns those bytes |
| Gpt.GptError.IsInvalidFieldError | src/gptsum/gpt.py:37-54 | `except InvalidFieldError` catches the field errors and `InvalidSignatureError`, and none of `InvalidHeaderSizeError`, `UnsupportedRevisionError` and `HeaderChecksumMismatchError` |
| Gpt.HeaderFields | src/gptsum/gpt.py:194-210 | the values `pack` hands to `struct.pack` are packable whenever the header's fields fit their widths and the CRC is a u32 |
| Gpt.ComputedCrc32 | src/gptsum/gpt.py:176-192 | the CRC `pack` computes over the header with a zero CRC field is a u32 |
| Gpt.CalculatedCrc32 | src/gptsum/gpt.py:138-144 | the CRC `unpack` recomputes, masked with `0xFFFFFFFF`, is a u32 |
| Gpt.Pack | src/gptsum/gpt.py:165-210 | `pack` returns exactly 512 bytes, with or without an override |
| Gpt.Unpack | src/gptsum/gpt.py:72-163 | every header `unpack` returns has all its integer fields within their u64/u32 widths |
| Gpt.IsBackupOf | src/gptsum/gpt.py:212-225 | `a.is_backup_of(b)` holds exactly when `a` is `b` with current and backup LBAs swapped, up to the entries' starting LBA |
| GptProperties.CalculatedCrc32IsMasked | src/gptsum/gpt.py:138-144 | the three chained `crc32` calls of `unpack` equal one CRC-32 of the 92-byte prefix with bytes 16..20 replaced by zeros |
| GptProperties.PackedCrc32IsComputed | src/gptsum/gpt.py:138-144 | over any packed header, whatever CRC was written, the CRC `unpack` recomputes is the one `pack` computes with the field zeroed |
| GptProperties.PackDefaultIsComputedOverride | src/gptsum/gpt.py:173-192 | `pack()` equals `pack(override_crc32=c)` for `c` the computed CRC |
| GptProperties.UnpackPackOverride | src/gptsum/gpt.py:146-151 | `unpack(pack(h, c))` returns `h` when `c` is the computed CRC, and otherwise fails with `HeaderChecksumMismatchError(c, computed)` |
| GptProperties.UnpackPack | src/gptsum/gpt.py:153-210 | `unpack(pack(h)) == h` for every header whose fields fit their widths, the GUID included |
| GptProperties.UnpackSuccess | src/gptsum/gpt.py:113-163 | a successful `unpack` saw a 512-byte record with the expected signature, revision, header size 92, zero reserved field, zero padding and a stored CRC equal to the recomputed one, and built the header from the unpacked fields with the GUID read as `bytes_le` |
| GptProperties.FieldsOfUnpacked | src/gptsum/gpt.py:95-163 | the fields `pack` would write for a decoded header, with the stored CRC, are exactly the fields `unpack` read, and the stored CRC is the recomputed one |
| GptProperties.PackUnpack | src/gptsum/gpt.py:90-163 | every record `unpack` accepts is byte-for-byte `pack` of the decoded header |
| GptProperties.UnpackAcceptsExactlyPacked | src/gptsum/gpt.py:72-210 | `unpack` succeeds on `raw` if and only if `raw` is `pack(h)` for some header `h` that fits |
| GptProperties.PackConstantRegions | src/gptsum/gpt.py:194-210 | in `pack`'s output: bytes 0..8 are `"EFI PART"`; bytes 8..12 are `00 00 01 00`; bytes 12..16 are 92 little-endian; bytes 16..20 are the CRC (override or computed) little-endian; bytes 20..24 and 92..512 are zero |
| GptProperties.PackFieldOffsets | src/gptsum/gpt.py:194-210 | in `pack`'s output, the LBAs are little-endian at 24, 32, 40, 48 and 72; the GUID's `bytes_le` is at 56..72; `num_entries`, `entry_size` and `entries_crc32` are at 80, 84 and 88 |
| GptProperties.PackOverrideOnlyChangesCrc | src/gptsum/gpt.py:173-174 | `pack(override_crc32=c)` is `pack()` with bytes 16..20 replaced by `c` little-endian, and nothing else changed |
| GptProperties.UnpackCheckOrder | src/gptsum/gpt.py:90-163 | wrong length gives `InvalidHeaderSizeError` before any other check; then come signature, revision, header size, reserved, padding and CRC, in that order, each stated on the raw bytes at its offset, and the first failing check decides the error; when all pass, the result is the header whose LBAs and entry fields are read little-endian at offsets 24..56 and 72..92 and whose GUID is read as `bytes_le` at 56..72 |
| GptProperties.CorruptSignatureDetected | src/gptsum/gpt.py:113-118 | a valid packed header with any other signature fails with `InvalidSignatureError` |
| GptProperties.CorruptRevisionDetected | src/gptsum/gpt.py:120-121 | a valid packed header with any other revision fails with `UnsupportedRevisionError` |
| GptProperties.CorruptHeaderSizeDetected | src/gptsum/gpt.py:123-128 | a valid packed header whose header-size field holds any `n` other than 92 fails with `InvalidHeaderSizeError` carrying `n` |
| GptProperties.CorruptReservedDetected | src/gptsum/gpt.py:132-133 | a valid packed header with a non-zero reserved field fails with `InvalidFieldError` for the reserved field |
| GptProperties.CorruptPaddingDetected | src/gptsum/gpt.py:135-136 | a valid packed header with non-zero padding fails with `InvalidFieldError` for the padding |
| GptProperties.FieldErrorsOfUnpack | src/gptsum/gpt.py:41-46 | a failed `unpack` raises an `InvalidFieldError` (including its subclass `InvalidSignatureError`) exactly when the signature, reserved-field or padding check is the one that failed |
| GptProperties.IsBackupOfSymmetric | src/gptsum/gpt.py:212-225 | `a.is_backup_of(b) == b.is_backup_of(a)` |
| GptProperties.IsBackupOfIgnoresEntriesLba | src/gptsum/gpt.py:214-224 | changing either header's `entries_starting_lba` never changes `is_backup_of` |
| GptProperties.IsBackupOfSelf | src/gptsum/gpt.py:216-217 | a header is a backup of itself exactly when its current and backup LBAs are equal |

## Left out

- The checksum engine and the disk-image layer (`checksum.calculate`, `checksum.hash_file`, `checksum.digest_to_guid`, `gpt.GPTImage`, `gpt.pwrite_all`) are not part of this model. Their source is not among the files modelled, and they consist of positional file I/O and a BLAKE2b hash.
- `src/gptsum/cli.py`, `noxfile.py`, `docs/conf.py` and the test fixtures are not modelled: they are argument parsing, build tooling and file copying.
- The exception messages are not modelled; each error variant carries only the values that distinguish it. In the checksum-mismatch message the source prints the calculated CRC after "got" and the stored one after "expected".
- Gpt.Pack: the `struct.error` that `struct.pack` raises for an integer out of range, or for a negative one, is a precondition (`Fits`, and an override in u32), not an error result.
- Crc.Crc32: agreement with zlib's table-driven implementation is not proved. The fold and its step follow the bitwise definition of the reflected CRC-32; every property above uses only the fold's concatenation property.
- Uuid.BytesLe: its own contract states only the length and the unchanged last 8 bytes; the reversal of the first three groups is pinned down by `Uuid.FromBytesLeOfBytesLe` and the contract of `Uuid.FromBytesLe`, which make the two functions inverse to each other.
- Gpt.CalculatedCrc32: the `& 0xFFFFFFFF` mask is modelled on the 32-bit register, where it changes nothing; Python's `crc32` already returns an unsigned 32-bit value.
- `uuid.UUID` is modelled only by its 16 bytes (`UUID.bytes`), which decide its equality; its other views (`int`, `hex`, fields) are not modelled.
