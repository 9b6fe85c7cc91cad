# OFTStore / PeerConfig account reader — Dafny model

This project models the decoding core of a small Solana account reader for a
LayerZero OFT (omnichain fungible token) program. It has three parts.

- **`deserializeOFTStore`** takes raw OFTStore account data and decodes it with a
  strict fixed-offset cursor. The cursor skips the 8-byte Anchor discriminator
  without checking it. It then reads `oft_type`, `ld2sd_rate`, three 32-byte keys,
  `bump`, `tvl_ld`, `admin`, `default_fee_bps` and `paused`. Last come two
  Borsh-style optional keys, `pauser` and `unpauser`: a tag byte, then 32 key bytes
  when the tag is nonzero. Every integer read is bounds-checked and throws
  `RangeError` past the end. Key slices are clamped and never throw.
- **`deserializePeerConfig`** decodes a PeerConfig account with a heuristic layout.
  The peer address is re-padded to 12 zero bytes followed by bytes 20..40. The
  enforced options are bytes 40..72. The tail from byte 72 on is read by fixed
  guesses: three tag bytes, two overlapping 32-byte rate-limiter slices, a u16 fee,
  and the last byte as the bump. It never throws.
- **`calculatePDAAddress`** builds the PeerConfig address seeds and hands them to
  the Solana client's address derivation. The seeds are `"Peer"`, the OFTStore key,
  and the remote endpoint id as 8-byte big-endian.

Modules:

- `Wrappers` holds `Option` / `Result`.
- `Bytes` models the Node `Buffer` primitives: clamped `subarray`, checked
  `readUInt8` / `readUInt16LE` / `readBigUInt64LE`, and the in-place
  `writeBigUInt64BE` on an `array`. It also has little- and big-endian values and
  encodings, with their round trips.
- `OFTStoreCodec` holds the record and the cursor decoder, written as a method
  with a mutable `offset`. The decoder is proved equal to an absolute-offset
  layout function. The module also has the Borsh encoding that function inverts,
  and the length guard.
- `PeerConfigCodec` holds the heuristic decoder, as a method that conditionally
  reassigns its results. Its contract states the tail rules at absolute offsets.
- `PeerSeeds` holds the seed list, the method that fills the 8-byte buffer in
  place, and `calculatePDAAddress`.

Facts about the code that shape the model:

- The OFTStore decoder needs at least 159 bytes: it skips the 8-byte
  discriminator and then reads 149 bytes of fixed fields and both option tags.
  Any shorter buffer fails.
- It makes no length check up front. The first read that runs past the end throws
  `RangeError`. The model carries the offset and width of that read as
  `OutOfRange(offset, width)`.

## Model

| member | source | states |
|---|---|---|
| `Bytes.Subarray` | index.ts:76 | `subarray(start, end)` never throws. Its length is `min(end, len) - min(start, len)`, or 0 when that is negative. Byte `i` of the result is byte `start + i` of the buffer. Within bounds it is the plain slice |
| `Bytes.Tail` | index.ts:164 | `subarray(start)` is everything from `start` on, or empty when `start` is past the end |
| `Bytes.LeValue` | index.ts:72 | the little-endian value of n bytes is below 256^n |
| `Bytes.BeValue` | index.ts:220 | the big-endian value of n bytes is below 256^n |
| `Bytes.ReadUInt8` | index.ts:68 | succeeds exactly when `offset < length` and then returns that byte; otherwise throws `OutOfRange(offset, 1)` |
| `Bytes.ReadUInt16LE` | index.ts:100 | succeeds exactly when `offset + 2 <= length` and returns `b[offset] + 256 * b[offset+1]`; otherwise throws `OutOfRange(offset, 2)` |
| `Bytes.ReadBigUInt64LE` | index.ts:72 | succeeds exactly when `offset + 8 <= length` and returns the little-endian value of those 8 bytes; otherwise throws `OutOfRange(offset, 8)` |
| `Bytes.LeValueOfBytes` | index.ts:72 | decoding the `width`-byte little-endian encoding of any `n < 256^width` gives back `n` |
| `Bytes.LeBytesOfValue` | index.ts:72 | re-encoding the little-endian value of any byte string gives back the same bytes |
| `Bytes.BeValueOfBytes` | index.ts:220 | decoding the `width`-byte big-endian encoding of any `n < 256^width` gives back `n` |
| `Bytes.BeBytesOfValue` | index.ts:220 | re-encoding the big-endian value of any byte string gives back the same bytes |
| `Bytes.WriteBigUInt64BE` | index.ts:219-220 | bytes `offset..offset+8` of the buffer become the big-endian encoding of the value; every other byte is unchanged |
| `OFTStoreCodec.OFTStoreLayout` | index.ts:60-137 | decoding succeeds exactly when the buffer reaches past the pauser tag (byte 157) and past the unpauser tag (byte 158, or byte 190 when the pauser tag is nonzero); anything shorter than 159 bytes fails; the first four keys are 32 bytes, and so is a present pauser |
| `OFTStoreCodec.DeserializeOFTStore` | index.ts:60-137 | the cursor decoder returns exactly the fixed-offset layout: `oft_type` = byte 8, `ld2sd_rate` = LE u64 of 9..17, keys 17..49 / 49..81 / 81..113, `bump` = byte 113, `tvl_ld` = LE u64 of 114..122, `admin` = 122..154, `default_fee_bps` = LE u16 of 154..156, `paused` = byte 156 ≠ 0; an optional key is present exactly when its tag is nonzero, and then the cursor moves 33 bytes instead of 1; a successful decode leaves the cursor at `EncodedSize` of the record (159, plus 32 per present key); otherwise it throws the first out-of-range read |
| `OFTStoreCodec.EncodeFixed` | index.ts:61-105 | the fixed part of the encoding is 157 bytes long |
| `OFTStoreCodec.EncodeOFTStore` | index.ts:61-121 | the encoding of a record is `EncodedSize` bytes long: 159, plus 32 for each present optional key |
| `OFTStoreCodec.EncodeFixedFields` | index.ts:61-105 | in the fixed part, each field lands at the offset the decoder reads it from |
| `OFTStoreCodec.FixedPartDecodes` | index.ts:68-105 | a buffer whose first 157 bytes are the fixed part of a record yields that record's fixed fields at their offsets |
| `OFTStoreCodec.OFTStoreRoundTrip` | index.ts:60-137 | for any well-formed record and any 8-byte discriminator, with the pauser and the unpauser each present or absent, decoding the encoding gives back the record |
| `OFTStoreCodec.FixedPartOfFields` | index.ts:68-105 | 157 bytes that hold a record's fields at their offsets, with `paused` as 0/1, are that record's fixed part |
| `OFTStoreCodec.OFTStoreEncodesDecoded` | index.ts:60-137 | converse of the round trip: if decoding succeeds with 0/1 flag and tags and the whole last key fits, the record is well-formed and the buffer begins with its encoding under its own discriminator |
| `OFTStoreCodec.OFTStoreReadsOnlyItsBytes` | index.ts:107-121 | a successful decode reads nothing past the record's `EncodedSize` bytes: any buffer that agrees on those bytes decodes to the same record, so trailing bytes are ignored |
| `OFTStoreCodec.OFTStoreMinimalRecord` | index.ts:68-121 | a buffer of 159 or more bytes with zero bytes at 157 and 158 decodes with both optional keys absent, consumes exactly 159 bytes, and decodes like its first 159 bytes alone |
| `OFTStoreCodec.OFTStoreIgnoresDiscriminator` | index.ts:63-65 | two buffers that differ only in their first 8 bytes decode to the same record or the same error |
| `OFTStoreCodec.PassesLengthGuard` | index.ts:399-400 | the guard lets a buffer through exactly when it is 151 bytes or longer (the sum of field widths it uses) |
| `OFTStoreCodec.PassesAccountLengthGuard` | index.ts:399-400 | the corrected guard, with the 8-byte discriminator counted, lets a buffer through exactly when it is 159 bytes or longer |
| `OFTStoreCodec.LengthGuardAdmitsUndecodable` | index.ts:399-408 | the guard's minimum of 151 lets every buffer of 151 to 158 bytes reach the decoder, and the decoder throws on each; the all-zero 151-byte buffer fails at the u16 read at offset 154 |
| `OFTStoreCodec.AccountLengthGuardExact` | index.ts:399-400 | a guard of 159 bytes (the discriminator counted) rejects only buffers the decoder cannot decode, and it is tight: a 159-byte buffer can decode |
| `Bytes.SubarrayOfSubarray` | index.ts:149-153 | when `start <= end`, `start2 <= end2`, and either `end2 <= end - start` or the outer slice reaches the end of the buffer (`len <= end`), slicing `subarray(start, end)` by `(start2, end2)` is `subarray(start + start2, start + end2)` of the buffer |
| `PeerConfigCodec.PeerAddressSlices` | index.ts:149-155 | the re-padded peer address is 12 zero bytes followed by `subarray(20, 40)`; for a buffer of at least 40 bytes it is 32 bytes, ending in bytes 20..40 |
| `PeerConfigCodec.TailSlices` | index.ts:164-198 | with at least three tail bytes, the tail bytes read as tags, fee and bump, and both rate-limiter slices, sit at their absolute offsets 72.. of the buffer |
| `PeerConfigCodec.DeserializePeerConfig` | index.ts:140-209 | never fails. `peer_address` = 12 zeros + bytes 20..40 (clamped), so bytes 8..20 are dropped; `enforced_options` = bytes 40..72 (clamped). Under 75 bytes: no rate limiters, no fee, bump 0. Otherwise: bump = last byte; outbound present iff byte 72 ≠ 0, holding bytes 73..min(105, len); inbound present iff byte 73 ≠ 0, holding 74..min(106, len); fee present iff byte 74 ≠ 0 and length ≥ 77, equal to the LE u16 of bytes 75..77 |
| `PeerSeeds.AsciiBytes` | index.ts:217 | UTF-8 of an ASCII string is one byte per character, with the same code |
| `PeerSeeds.PeerSeedBytes` | index.ts:217 | the first seed is the four bytes `0x50 0x65 0x65 0x72` |
| `PeerSeeds.PeerConfigSeeds` | index.ts:222 | the seed list has three entries: the "Peer" seed, the store key, and 8 bytes whose big-endian value is the endpoint id |
| `PeerSeeds.BuildPeerConfigSeeds` | index.ts:217-222 | allocating a zeroed 8-byte buffer and writing the id into it in place yields the seed list `["Peer", store key, 8-byte big-endian id]` |
| `PeerSeeds.PeerConfigSeedsShape` | index.ts:217-222 | exactly three seeds: "Peer", the store key, and 8 bytes whose big-endian value is `remoteEid`; no seed is longer than 32 bytes |
| `PeerSeeds.PeerConfigSeedsInjective` | index.ts:217-222 | two (store key, endpoint id) pairs with the same seed list are the same pair |
| `PeerSeeds.CalculatePDAAddress` | index.ts:212-229 | the result is the address the derivation finds for (the seed list, the program id), and depends on nothing else; it fails exactly when the derivation fails; the bump is dropped |

## Findings

| source | as written | input that shows it | evidently intended | confidence | as-written member | corrected member |
|---|---|---|---|---|---|---|
| index.ts:399-408 | the minimum-length guard sums the field widths to 151 and leaves out the 8-byte discriminator, while the decoder needs 159 bytes | any 151-byte buffer passes the guard; `deserializeOFTStore` then throws a `RangeError` reading the u16 at offset 154 instead of the guard printing its "too short" message | reject every buffer shorter than the smallest decodable record (159 bytes) | medium, not executed | `OFTStoreCodec.LengthGuardAdmitsUndecodable` | `OFTStoreCodec.AccountLengthGuardExact` |

## Left out

- `Connection`, `getAccountInfo`, `readPeerConfigAccount`, the rest of `readOFTStoreAccount` and `main` (index.ts:278-534): network I/O, console output and driver glue. Only the length guard (index.ts:399-400) is modelled.
- `analyzeAccountData` and the per-byte description tables (index.ts:232-275, 343-363). They only print. Their offsets leave out the discriminator, but that affects presentation only.
- `PublicKey.findProgramAddressSync` belongs to the Solana client library and is not shown here. That covers its hashing, its curve test, its bump search order and its per-seed length check. It is a function parameter of any behaviour, and it may fail. No bump range or failure mode is claimed.
- `PublicKey` construction and base58 rendering are library behaviour. Keys are kept as byte sequences. The `PublicKey` built from a short clamped slice is kept as those bytes, so the model does not capture how the library pads or rejects a short key.
- The `BigInt(remoteEid)` conversion from a JavaScript number: `remoteEid` is a natural number below 2^64, by precondition. `writeBigUInt64BE`'s range errors are therefore out of reach and are not modelled.
- `OFTType` name rendering (index.ts:10-14, 413). `oft_type` stays a raw byte, as the code casts it without checking.
- `subarray` returns a view that shares memory with the account buffer, so `enforced_options.data`, both rate-limiter payloads (index.ts:158, 180, 187) and the key slices alias the buffer and one another. The model copies them into immutable sequences. Nothing in the core writes to the buffer, so no behaviour is lost, but the sharing is not represented.
- The discriminator slices (index.ts:64, 144) were never used. The model skips the 8 bytes without taking the slice.
