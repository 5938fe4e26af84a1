# PNG chunk layer of png-me-rs, in Dafny

This project models the chunk layer of the `png` crate of png-me-rs and proves properties of
that model. The chunk layer covers:

- the chunk record: a 4-byte big-endian length, a 4-byte type, the payload, and a CRC-32 over
  type and payload (section 5.3 of the PNG Specification);
- the chunk type tag and its four property bits (section 5.4);
- the payload codecs for IHDR, tEXt and iCCP;
- the payload encoders for PLTE, gAMA, cHRM, sRGB, tRNS, zTXt and iTXt;
- the colour-type and filter-type byte vocabularies;
- the in-place reversal of the four scanline filters.

How the model is shaped:

- The stateful `Chunk` is a class with the source's four fields. `set_data` is a method that
  overwrites them.
- The source's copy loops are methods with loop invariants, each proved equal to a
  specification function:
  - `Chunk::try_from` becomes `Chunks.Chunk.TryFrom`;
  - the IHDR arm of `map_chunk_data` becomes `Chunks.MapChunkData`;
  - the `ChunkType` constructors become `ChunkTypes.TryFrom` and `ChunkTypes.FromStr`;
  - the scanline loops become `FilterMethods.Reverse*Filter`, working on an `array<u8>`.
- The pure codecs are functions.
- Bytes are the integers 0..255 (`u8`), and `u32` is 0..2^32-1.
- Wrap-around is written out explicitly:
  - `wrapping_add`, `as u8` and `as u32` become `% 256` and `% 2^32`;
  - `usize` subtraction becomes `% 2^64`.

Panics in the chunk decoders are modelled as outcomes. A decoding routine that can panic
returns `Outcome = Returned(Result) | Panicked(cause)`, with these causes:

- `unwrap` on an `Err`;
- `unwrap` on a `None`;
- an array index out of range;
- an unsigned subtraction below zero.

`map_chunk_data` yields `Err(cause)` when it would panic. `Chunk::new` and `set_data` (the
class constructor and `SetData`) require that `map_chunk_data` does not panic, because a
panic there aborts before any state exists. The scanline filters likewise require a
previous row at least as long as the scanline; a shorter one makes `prev_scanline[i]` panic.

The checksum is CRC-32/ISO-HDLC (section 5.5 of the PNG Specification):

- it is computed bit by bit on `bv32`;
- the reflected polynomial is 0xEDB88320;
- the initial register and the final XOR are both 0xFFFFFFFF.

UTF-8 validity, used by `String::from_utf8`, is the well-formedness table of the Unicode
Standard (Table 3-7). The bytes of a Rust `&str` are given by an explicit UTF-8 encoder.

Some behaviour of the code as written is reproduced on purpose:

- **`predict_paeth`.** It returns `b` where the Paeth predictor of section 9.4 returns `a`.
- **The left neighbour.** In the filters it is always the previous byte.
- **The declared length.** It is never checked against the payload.
- **Short IHDR payloads.** They are zero-padded to 13 bytes.
- **iCCP decoding.** It keeps the compression-method byte inside the profile, so
  re-encoding writes that byte twice.
- **IEND payloads.** They are dropped.
- **Paeth at `i = 0`.** `reverse_paeth_filter` is modelled as a release build behaves:
  `i - 1` wraps, `get` returns `None`, and the neighbour reads as 0.
- **`Chunk::try_from` on a short input.** With a valid type and fewer than 12 bytes, it
  panics (`Panicked(ArithmeticOverflow)`):
  - in a debug build, `len - 12` underflows;
  - in a release build, the wrapped value overflows `Vec::with_capacity`.

  An input shorter than 8 bytes cannot reach that point. Its zero-padded type contains a 0,
  so the type check rejects it first.

## Model

| member | source | states |
|---|---|---|
| ChunkTypes.IsValidWord | png/src/chunk/chunk_type.rs:46-53 | a byte is accepted exactly when it is an ASCII upper-case (65..=90) or lower-case (97..=122) letter |
| ChunkTypes.BitFiveOf | png/src/chunk/chunk_type.rs:55-57 | bit 5 of a byte is 0 or 1 |
| ChunkTypes.BitFiveIsCase | png/src/chunk/chunk_type.rs:55-57 | for a letter, bit 5 is 0 exactly for upper case and 1 exactly for lower case |
| ChunkTypes.ChunkTypeFromBytes | png/src/chunk/chunk_type.rs:32-43 | `try_from([u8;4])` succeeds iff every byte is in 65..=90 or 97..=122; the tag then holds exactly those bytes; failure is `ChunkTypeParseError` |
| ChunkTypes.TryFrom | png/src/chunk/chunk_type.rs:32-43 | the validation loop returns exactly the result of `ChunkTypeFromBytes` |
| ChunkTypes.ChunkTypeFromStr | png/src/chunk/chunk_type.rs:62-77 | `from_str` fails only with `ChunkParseError` |
| ChunkTypes.FromStr | png/src/chunk/chunk_type.rs:62-77 | the length check and the checking copy loop return exactly `ChunkTypeFromStr` |
| ChunkTypes.FromStrAcceptsFourLetters | png/src/chunk/chunk_type.rs:62-77 | a string is accepted iff it is exactly four ASCII letters; the tag's bytes are then the character codes |
| ChunkTypes.ToString | png/src/chunk/chunk_type.rs:19-24 | the rendering of a tag has four characters |
| ChunkTypes.DisplayRoundTrip | png/src/chunk/chunk_type.rs:19-24 | rendering a tag parsed from `s` gives `s` back |
| ChunkTypes.ToStringInjective | png/src/chunk/chunk_type.rs:19-24 | two tags with the same rendering are equal |
| ChunkTypes.IsCritical | png/src/chunk/chunk_type.rs:93-95 | no contract of its own: `FlagsAreLetterCase` states it is upper case of byte 0 |
| ChunkTypes.IsPublic | png/src/chunk/chunk_type.rs:97-99 | no contract of its own: `FlagsAreLetterCase` states it is upper case of byte 1 |
| ChunkTypes.IsReservedBitValid | png/src/chunk/chunk_type.rs:101-103 | no contract of its own: `FlagsAreLetterCase` states it is upper case of byte 2 |
| ChunkTypes.IsSafeToCopy | png/src/chunk/chunk_type.rs:105-107 | no contract of its own: `FlagsAreLetterCase` states it is lower case of byte 3 |
| ChunkTypes.IsValid | png/src/chunk/chunk_type.rs:85-91 | no contract of its own: `FlagsAreLetterCase` states it equals `IsReservedBitValid` |
| ChunkTypes.FlagsAreLetterCase | png/src/chunk/chunk_type.rs:85-107 | for a letter tag: critical iff byte 0 is upper case, public iff byte 1 is, reserved bit valid iff byte 2 is, safe to copy iff byte 3 is lower case; `is_valid` equals `is_reserved_bit_valid` |
| ChunkTypes.RuStExample | png/src/chunk/chunk_type.rs:116-183 | `from_str("RuSt")` equals `try_from([82,117,83,116])`, and "RuSt" is critical, not public, reserved-bit valid, safe to copy and valid |
| ChunkTypes.RustIsInvalid | png/src/chunk/chunk_type.rs:161-188 | "Rust" parses, but it is neither reserved-bit valid nor valid |
| ChunkTypes.AncillaryExample | png/src/chunk/chunk_type.rs:137-141 | "ruSt" parses and is not critical |
| ChunkTypes.PublicExample | png/src/chunk/chunk_type.rs:143-147 | "RUSt" parses and is public |
| ChunkTypes.UnsafeToCopyExample | png/src/chunk/chunk_type.rs:173-177 | "RuST" parses and is not safe to copy |
| ChunkTypes.DigitIsRejected | png/src/chunk/chunk_type.rs:185-192 | "Ru1t" is refused with `ChunkParseError` |
| ColorTypes.ColorTypeFromByte | png/src/color_type.rs:38-51 | `try_from(u8)` succeeds exactly for 0, 2, 3, 4, 6; any other byte gives `InvalidColorType` |
| ColorTypes.ColorTypeToByte | png/src/color_type.rs:53-63 | every colour type encodes to one of 0, 2, 3, 4, 6; `ColorTypeRoundTrip` makes it the inverse of `try_from` |
| ColorTypes.Channels | png/src/color_type.rs:65-75 | no contract of its own: `ChannelCounts` gives the counts 1 to 4 |
| ColorTypes.ColorTypeName | png/src/color_type.rs:26-36 | no contract of its own: `NamesDistinct` states the names differ |
| ColorTypes.ByteRoundTrip | png/src/color_type.rs:38-63 | `into(try_from(v)) == v` for every accepted byte |
| ColorTypes.ColorTypeRoundTrip | png/src/color_type.rs:38-63 | `try_from(into(c)) == Ok(c)` for every colour type |
| ColorTypes.ChannelCounts | png/src/color_type.rs:65-75 | channels are 1 to 4; exactly grey and palette have one; alpha adds exactly one channel to grey and to RGB |
| ColorTypes.NamesDistinct | png/src/color_type.rs:26-36 | the five display names are pairwise different |
| FilterTypes.FilterTypeFromByte | png/src/filter_type.rs:28-41 | `try_from(u8)` succeeds exactly for 0..=4; any other byte gives `InvalidFilterType` |
| FilterTypes.FilterTypeToByte | png/src/filter_type.rs:43-53 | every filter type encodes to a byte at most 4 |
| FilterTypes.ByteRoundTrip | png/src/filter_type.rs:28-53 | for v ≤ 4, `try_from(v)` succeeds and `into` gives v back |
| FilterTypes.FilterTypeRoundTrip | png/src/filter_type.rs:28-53 | `try_from(into(t)) == Ok(t)` for every filter type |
| FilterTypes.FilterTypeName | png/src/filter_type.rs:16-26 | no contract of its own: `NamesDistinct` states the names differ |
| FilterTypes.NamesDistinct | png/src/filter_type.rs:16-26 | the five display names are pairwise different |
| ImageHeaderChunk.ImageHeaderFromBytes | png/src/chunk/image_header.rs:46-112 | an accepted header is well formed (Table 11.1, compression and filter 0, interlace 0 or 1); a refusal is one of the five header errors |
| ImageHeaderChunk.BitDepthTableAgrees | png/src/chunk/image_header.rs:64-73 | the decoder's (colour type, bit depth) table is Table 11.1 of the PNG Specification |
| ImageHeaderChunk.DecodeOutcome | png/src/chunk/image_header.rs:46-112 | a bad colour type gives `InvalidColorType` before anything else; then a bad bit depth gives `InvalidBitDepth`, compression ≠ 0 `InvalidCompressionMethod`, filter ≠ 0 `InvalidFilterMethod` and interlace > 1 `InvalidInterlaceMethod`, in that order; the header is accepted iff all checks pass |
| ImageHeaderChunk.DecodedFields | png/src/chunk/image_header.rs:47-111 | an accepted header has width and height big-endian from bytes 0..4 and 4..8 and the five one-byte fields at 8..12; it satisfies Table 11.1 and its channel count is that of the colour-type byte |
| ImageHeaderChunk.ImageHeaderAsBytes | png/src/chunk/image_header.rs:115-127 | the encoding is always 13 bytes |
| ImageHeaderChunk.ColorChannels | png/src/chunk/image_header.rs:146-148 | `color_channels` is between 1 and 4 |
| ImageHeaderChunk.DecodeEncode | png/src/chunk/image_header.rs:103-126 | every accepted 13-byte input is re-encoded byte for byte |
| ImageHeaderChunk.EncodeDecode | png/src/chunk/image_header.rs:43-126 | every header satisfying the decoder's checks decodes back from its encoding |
| ImageHeaderChunk.HeaderExamples | png/src/chunk/image_header.rs:64-85 | a 1-bit palette header is accepted; grey at depth 3 gives `InvalidBitDepth`; compression 1 gives `InvalidCompressionMethod` |
| TextualChunks.TextualFromBytes | png/src/chunk/textual.rs:22-29 | a tEXt payload with no zero byte, or with its first zero at position 0, gives `ChunkParseError` |
| TextualChunks.DecodedParts | png/src/chunk/textual.rs:22-41 | an accepted payload's keyword is the non-empty, zero-free run before the first zero; its text is always `Some` of the bytes after it (possibly empty); both are UTF-8 |
| TextualChunks.Utf8Failure | png/src/chunk/textual.rs:31-35 | a keyword or text that is not UTF-8 gives a UTF-8 error |
| TextualChunks.TextualAsBytes | png/src/chunk/textual.rs:44-53 | a `None` text encodes as keyword followed by one zero byte |
| TextualChunks.DecodeEncode | png/src/chunk/textual.rs:19-53 | every accepted tEXt payload is re-encoded byte for byte |
| TextualChunks.EncodeDecode | png/src/chunk/textual.rs:19-53 | a non-empty, zero-free UTF-8 keyword with UTF-8 text decodes back from its encoding |
| TextualChunks.CompressedAsBytes | png/src/chunk/textual.rs:88-96 | the zTXt encoding is two bytes longer than keyword and compressed text together |
| TextualChunks.CompressedLayout | png/src/chunk/textual.rs:88-96 | the zTXt encoding is the keyword, a zero, the method, then the compressed text; with a zero-free keyword, its first zero ends the keyword |
| TextualChunks.InternationalAsBytes | png/src/chunk/textual.rs:133-146 | the iTXt encoding is five bytes longer than its four variable fields together |
| TextualChunks.InternationalLayout | png/src/chunk/textual.rs:133-146 | the iTXt encoding is the keyword, 0, flag, method, language, 0, translated keyword, 0, text, in that order at those offsets; with a zero-free keyword, its first zero ends the keyword |
| IccProfileChunk.IccFromBytes | png/src/chunk/icc_profile.rs:21-36 | no zero byte, a first zero at 0, or a first zero past 79 each give their own error |
| IccProfileChunk.DecodedParts | png/src/chunk/icc_profile.rs:21-49 | an accepted payload has a UTF-8 name of 1..=79 bytes before the first zero; the method is the next byte; the profile is every byte from the method on, so its first byte is the method |
| IccProfileChunk.Panics | png/src/chunk/icc_profile.rs:38-40 | a name that is not UTF-8 panics on `unwrap`; a separator in the last position panics on the `get(end + 1)` unwrap |
| IccProfileChunk.IccAsBytes | png/src/chunk/icc_profile.rs:52-61 | the encoding is two bytes longer than name and profile together |
| IccProfileChunk.ReencodeDuplicatesMethod | png/src/chunk/icc_profile.rs:40-60 | re-encoding an accepted payload gives the input with the method byte duplicated: one byte longer, never equal to the input |
| PaletteChunk.EntriesAsBytes | png/src/chunk/palette.rs:24-31 | the encoding of a list of entries is three bytes per entry |
| PaletteChunk.PaletteAsBytes | png/src/chunk/palette.rs:24-31 | `as_bytes` is three bytes per entry, and an empty palette encodes to nothing |
| PaletteChunk.EntryAt | png/src/chunk/palette.rs:26-29 | bytes 3i, 3i+1, 3i+2 are entry i's three components |
| PaletteChunk.EncodeAppend | png/src/chunk/palette.rs:26-29 | encoding a concatenation of entry lists concatenates their encodings |
| PaletteChunk.TriplesOfEncoding | png/src/chunk/palette.rs:26-29 | grouping the encoding into triples gives the entries back |
| PaletteChunk.DecimalString | png/src/chunk/palette.rs:8-12 | an entry component renders as a non-empty run of decimal digits |
| PaletteChunk.EntryHasNoNewline | png/src/chunk/palette.rs:8-12 | an entry's display text holds no newline |
| PaletteChunk.PaletteToString | png/src/chunk/palette.rs:18-22 | no contract of its own: `OneLinePerEntry` counts its lines |
| PaletteChunk.OneLinePerEntry | png/src/chunk/palette.rs:18-22 | the display text of a non-empty palette has one newline fewer than entries |
| GammaChunk.GammaAsBytes | png/src/chunk/gamma.rs:13-17 | the encoding is four bytes |
| GammaChunk.MostSignificantFirst | png/src/chunk/gamma.rs:15 | byte 0 is the most significant byte and byte 3 the least |
| GammaChunk.GammaRoundTrip | png/src/chunk/gamma.rs:15 | reading the four bytes back big-endian gives the stored value; distinct values encode differently |
| ChromaticitiesChunk.ChromaticitiesAsBytes | png/src/chunk/chromaticities.rs:33-46 | the encoding is 32 bytes |
| ChromaticitiesChunk.FieldAt | png/src/chunk/chromaticities.rs:35-44 | field k (white x, white y, red x, red y, green x, green y, blue x, blue y) is big-endian at bytes 4k..4k+4 and reads back as itself |
| SrgbChunk.SrgbAsBytes | png/src/chunk/srgb.rs:23-27 | the encoding is the single intent byte |
| SrgbChunk.IntentName | png/src/chunk/srgb.rs:11-21 | no contract of its own: `IntentNames` states the names |
| SrgbChunk.IntentNames | png/src/chunk/srgb.rs:11-21 | intents 0..=3 have four different names; the name is "Unknown" exactly for intents ≥ 4 |
| TransparencyChunk.TransparencyAsBytes | png/src/chunk/transparency.rs:5-9 | `as_bytes` is exactly the captured bytes |
| TransparencyChunk.AsIndexedColorBytes | png/src/chunk/transparency.rs:11-15 | `as_indexed_color_bytes` equals `as_bytes`, with the captured length |
| Crc32.Checksum | png/src/chunk/mod.rs:27 | no contract of its own: CRC-32/ISO-HDLC, bit by bit; fixed by the three known answers below and `UpdateAppend` |
| Crc32.UpdateAppend | png/src/chunk/mod.rs:27 | the CRC register can be fed in pieces: feeding `a ++ b` equals feeding `a`, then `b` |
| Crc32.EmptyChecksum | png/src/chunk/mod.rs:27 | the CRC-32/ISO-HDLC of no bytes is 0 |
| Crc32.ZeroByteChecksum | png/src/chunk/mod.rs:27 | the CRC-32/ISO-HDLC of the single byte 0 is 0xD202EF8D |
| Crc32.LetterChecksum | png/src/chunk/mod.rs:27 | the CRC-32/ISO-HDLC of the single byte 0x61 ("a") is 0xE8B7BE43, which fixes the bit order in which a byte enters the register |
| ByteOrder.BeU32OfBeBytes | png/src/chunk/mod.rs:269-272 | `u32::from_be_bytes(x.to_be_bytes()) == x` |
| ByteOrder.BeBytesOfBeU32 | png/src/chunk/mod.rs:147 | `u32::from_be_bytes(b).to_be_bytes() == b` |
| ByteOrder.FirstZero | png/src/chunk/textual.rs:23 | `position(|v| v == 0)` returns the first zero and nothing else; `None` exactly when there is no zero |
| FilterMethods.Unsub | png/src/filter_method.rs:1-5 | reversing Sub keeps the scanline's length |
| FilterMethods.Unaverage | png/src/filter_method.rs:13-21 | reversing Average keeps the scanline's length |
| FilterMethods.Unpaeth | png/src/filter_method.rs:23-31 | reversing Paeth keeps the scanline's length |
| FilterMethods.ReverseSubFilter | png/src/filter_method.rs:1-5 | the scanline afterwards is `Unsub` of the old scanline |
| FilterMethods.UnsubAt | png/src/filter_method.rs:2-4 | byte 0 is kept; byte i becomes `old[i] + new[i-1]` modulo 256 |
| FilterMethods.UnsubIsPrefixSum | png/src/filter_method.rs:1-5 | byte i afterwards is the sum of the original bytes 0..=i modulo 256 |
| FilterMethods.ReverseUpFilter | png/src/filter_method.rs:7-11 | with `prev` at least as long, the scanline afterwards is `Unup(old, prev)` |
| FilterMethods.Unup | png/src/filter_method.rs:7-11 | byte i is `(old[i] + prev[i]) mod 256`, and the length is kept |
| FilterMethods.UnupZeroRow | png/src/filter_method.rs:9 | an all-zero previous row leaves the scanline unchanged |
| FilterMethods.ReverseAverageFilter | png/src/filter_method.rs:13-21 | the scanline afterwards is `Unaverage(old, prev)` |
| FilterMethods.UnaverageAt | png/src/filter_method.rs:13-21 | byte i is `(old[i] + (prev[i] + new[i-1]) div 2) mod 256`, with `new[-1] = 0` |
| FilterMethods.PredictPaeth | png/src/filter_method.rs:33-47 | the predictor returns `b` or `c`, never `a` |
| FilterMethods.PredictPaethPassesOverLeft | png/src/filter_method.rs:40-43 | where `a` is strictly nearest to `a + b - c`, the result is still `b`; (1, 0, 0) gives 0 |
| FilterMethods.ReversePaethFilter | png/src/filter_method.rs:23-31 | the scanline afterwards is `Unpaeth(old, prev)`; neighbours at index -1 read as 0 |
| FilterMethods.UnpaethAt | png/src/filter_method.rs:23-31 | byte i is `old[i] + predict_paeth(new[i-1], prev[i], prev[i-1])` modulo 256, with out-of-range neighbours 0 |
| Chunks.TagText | png/src/chunk/mod.rs:108-123 | comparing the tag's text with "IHDR", "IDAT", "iCCP", "IEND", "tEXt" holds exactly when the tag has that tag's bytes |
| Chunks.ChunkDataOf | png/src/chunk/mod.rs:107-131 | only IHDR, IDAT, iCCP, IEND and tEXt get typed payloads; every other tag becomes `Other` of the bytes unchanged; IDAT keeps the bytes; IEND gives `ImageEnd`; an IHDR payload over 13 bytes panics on the index; IHDR, iCCP and tEXt give their own variant (what they decode to is in `DecodingArms`) |
| Chunks.DecodingArms | png/src/chunk/mod.rs:108-126 | an IHDR payload of at most 13 bytes decodes as its zero-padding to 13 bytes does: to the header decoder's value, or to the `unwrap` panic when that decoder fails; a tEXt payload gives the tEXt decoder's value or the `unwrap` panic; an iCCP payload gives the iCCP decoder's value, the `unwrap` panic on its error, or its own panic |
| Chunks.ShortHeaderAccepted | png/src/chunk/mod.rs:109-116 | a 12-byte IHDR payload is accepted with interlace method 0, and re-encodes one byte longer |
| Chunks.MapChunkData | png/src/chunk/mod.rs:107-131 | the dispatch, with the IHDR copy loop into a zeroed 13-byte array, returns exactly `ChunkDataOf` |
| Chunks.UndecodedPayloadTypes | png/src/chunk/mod.rs:127-129 | PLTE, gAMA, cHRM, sRGB and tRNS payloads are kept raw as `Other` |
| Chunks.ImageEndIsEmpty | png/src/chunk/mod.rs:122 | an IEND payload is dropped and re-encodes as empty |
| Chunks.PayloadKeptCases | png/src/chunk/mod.rs:79-131 | re-encoding the decoded payload gives it back under any raw tag, IDAT, and accepted tEXt; under IHDR exactly for accepted 13-byte payloads; under IEND only for the empty one; under iCCP never |
| Chunks.TextualPayloadKept | png/src/chunk/mod.rs:123-126 | a tEXt payload comes back from `data()` exactly when the tEXt decoder accepts it |
| Chunks.HeaderPayloadKept | png/src/chunk/mod.rs:109-116 | an IHDR payload comes back exactly when it is accepted and 13 bytes long |
| Chunks.IccPayloadNotKept | png/src/chunk/mod.rs:118-121 | an iCCP payload never comes back unchanged |
| Chunks.DataAsBytes | png/src/chunk/mod.rs:79-96 | `ChunkData::as_bytes`: a header re-encodes to 13 bytes, a gamma to 4, chromaticities to 32, an sRGB intent to 1, a palette to 3 per entry, IEND to nothing, and IDAT and raw payloads to their bytes |
| Chunks.DecodeChunk | png/src/chunk/mod.rs:133-195 | `Chunk::try_from` as a value; the only errors it returns are `ChunkTypeParseError` and `ChunkCrcMismatch` (the rest of its behaviour is in the lemmas below) |
| Chunks.Chunk.Data | png/src/chunk/mod.rs:236-238 | no contract of its own: `data()` is the re-encoded payload; `NewChunkInvariant` and `PayloadKeptCases` say when it is the payload given |
| Chunks.Chunk.AsBytes | png/src/chunk/mod.rs:268-275 | `as_bytes` is 12 bytes longer than `data()`, with the length and CRC big-endian at either end, the type at 4..8 and `data()` between |
| Chunks.FieldsAsBytes | png/src/chunk/mod.rs:268-275 | `as_bytes` is 12 bytes longer than the re-encoded payload |
| Chunks.EncodedSlices | png/src/chunk/mod.rs:268-275 | `as_bytes` is the length big-endian, the type, the re-encoded payload and the CRC big-endian, at offsets 0, 4, 8 and len-4 |
| Chunks.NewFields | png/src/chunk/mod.rs:205-222 | a new chunk's length is the payload size as `u32`, its type the given tag, and its CRC the CRC-32 of type bytes followed by payload |
| Chunks.Chunk.constructor | png/src/chunk/mod.rs:205-222 | `Chunk::new` sets the four fields to `NewFields(t, payload)` |
| Chunks.Chunk.SetData | png/src/chunk/mod.rs:244-260 | the type is unchanged; the length, payload and CRC become those of a new chunk of that type with the new payload |
| Chunks.NewChunkInvariant | png/src/chunk/mod.rs:205-238 | after `new` or `set_data` with a payload that survives decoding, `data()` is that payload, the length is its size modulo 2^32, and the CRC covers type ++ `data()` |
| Chunks.Chunk.DataAsString | png/src/chunk/mod.rs:262-266 | `data_as_string` succeeds iff `data()` is valid UTF-8, and then holds exactly those bytes; it fails otherwise with the UTF-8 error |
| Chunks.ReadPadded | png/src/chunk/mod.rs:139-153 | a zeroed array filled from `skip(start).take(count)` has `count` bytes: the slice when the input is long enough, all zeros when it starts past the end |
| Chunks.CopyPadded | png/src/chunk/mod.rs:139-145 | the copy loop returns exactly `ReadPadded` |
| Chunks.CollectSlice | png/src/chunk/mod.rs:161-165 | the push loop collects exactly the bytes `start..start+count` |
| Chunks.Chunk.TryFrom | png/src/chunk/mod.rs:133-195 | `try_from` with its copy loops panics, fails or returns exactly as `DecodeChunk`; on success the new chunk's fields are the decoded ones |
| Chunks.Chunk.CheckAndBuild | png/src/chunk/mod.rs:173-195 | the CRC comparison, `map_chunk_data` and the struct literal panic, fail or return exactly as `CheckAndMap` |
| Chunks.Chunk.FromFields | png/src/chunk/mod.rs:189-194 | the struct literal stores exactly the given fields |
| Chunks.CheckAndMapOutcome | png/src/chunk/mod.rs:167-195 | past the header, the result is `ChunkCrcMismatch` iff the stored CRC differs from the CRC of type ++ payload; it is accepted iff the CRC matches and the payload decodes without panic, and then holds the length, type, decoded data and CRC read |
| Chunks.DecodeSteps | png/src/chunk/mod.rs:136-176 | decoding reads the type from bytes 4..8, zero-padded, and fails on a bad type; with a valid type, it panics under 12 bytes and otherwise checks the last 4 bytes as CRC over the payload between offsets 8 and len-4 |
| Chunks.DecodeLong | png/src/chunk/mod.rs:137-176 | for 12 bytes or more, a non-letter type gives `ChunkTypeParseError`; otherwise the length is bytes 0..4, the payload bytes 8..len-4 and the CRC the last four |
| Chunks.ShortInputs | png/src/chunk/mod.rs:149-159 | under 8 bytes the type check fails; with a valid type and under 12 bytes, decoding panics |
| Chunks.InvalidType | png/src/chunk/mod.rs:149-155 | with 8 bytes or more and a non-letter in bytes 4..8, decoding fails with `ChunkTypeParseError` |
| Chunks.AcceptedIsLong | png/src/chunk/mod.rs:149-159 | only inputs of 12 bytes or more with a letter type are accepted |
| Chunks.CrcChecked | png/src/chunk/mod.rs:167-185 | with a valid type and 12 bytes or more, the result is `ChunkCrcMismatch` exactly when the big-endian last four bytes differ from the CRC-32 of bytes 4..len-4 |
| Chunks.DecodedParts | png/src/chunk/mod.rs:136-195 | an accepted input has at least 12 bytes; length from bytes 0..4, type from 4..8, CRC from the last four (equal to the CRC-32 of type ++ payload), and data is the payload decoded by tag |
| Chunks.DeclaredLengthIgnored | png/src/chunk/mod.rs:139-147 | replacing the length field by any value changes only the decoded `length`; failures stay the same |
| Chunks.LengthOnlyInResult | png/src/chunk/mod.rs:147-195 | the length read is used only as the length field of an accepted result |
| Chunks.AlteredCrcRejected | png/src/chunk/mod.rs:364-382 | replacing the CRC of an accepted input with any other value makes it fail with `ChunkCrcMismatch` |
| Chunks.CrcReplaced | png/src/chunk/mod.rs:167-185 | a letter-typed record whose CRC field is not the CRC of its type and payload is rejected as `ChunkCrcMismatch` |
| Chunks.DecodeEncode | png/src/chunk/mod.rs:268-275 | an accepted input whose payload survives decoding is given back by `as_bytes` byte for byte, whatever its declared length |
| Chunks.EncodeDecode | png/src/chunk/mod.rs:204-275 | a chunk built by `new` from a letter tag and a payload that survives decoding decodes back from `as_bytes` to the same fields |

## Left out

- Command-line parsing, printing and file reading and writing (cmd/, utils/) are I/O.
- The whole-file container (signature, chunk list) is not part of this model.
- `Display` for `Chunk`, `ChunkData`, `ChunkImageHeader`, `ChunkChromaticities` and
  `ChunkICCProfile` is left out. It produces diagnostic text only.
- The `Display` texts that are modelled are these: palette, sRGB intent, colour type, filter
  type, and the chunk type tag.
- Bodies that are `todo!()` have nothing to model:
  - the zTXt and iTXt decoders and their `Display`;
  - `ChunkTransparency::as_grayscale_bytes`.
- `reverse_paeth_filter` at `i = 0` follows the release build. The debug-build panic on
  `i - 1` is not modelled.
- The known answer of the source's tests is not evaluated by the verifier:
  - "RuSt" with the 42-byte message gives CRC 2882656334.
  - Expanding the bit-serial CRC over 46 bytes is beyond the verifier's budget.
  - The CRC definition is fixed instead by three one-byte-or-less known answers
    (`Crc32.EmptyChecksum`, `Crc32.ZeroByteChecksum`, `Crc32.LetterChecksum`). Together they
    exercise the start value, the final XOR, the polynomial and the bit order in which a byte
    enters the register. Longer inputs rest on the definition alone.
- The `String` payloads of the error values (`ChunkTypeParseError(String)`, the wrapped
  `io::Error` and `FromUtf8Error`) are dropped. Each error is one value.
- The source spells one variant `InvalidCompressionMehtod`; here it is
  `InvalidCompressionMethod`.
- png/src/color.rs is an unused enum and is not part of this model.
- The getters `length`, `chunk_type`, `chunk_data`, `crc` and `bytes`, and the image-header
  accessors, return a field unchanged. They are functions without contracts (`Chunk.Length`
  and similar) or the datatype's destructors.
- Chunks.Chunk.constructor: a panic in `map_chunk_data` is a precondition, not an outcome.
  A chunk that was never built has no state to describe.
- Chunks.Chunk.SetData: a panic in `map_chunk_data` is a precondition, for the same reason.
- FilterMethods.ReverseUpFilter: the index panic on a previous row shorter than the scanline
  is a precondition, not an outcome.
- FilterMethods.ReverseAverageFilter: the same index panic is a precondition.
- FilterMethods.ReversePaethFilter: the same index panic is a precondition.
- A `ChunkType` value can hold any four bytes. In the source the field is private and only
  letter tags are ever built. Lemmas about built chunks therefore require `AllLetters`.
- Rust's own memory layout of `Vec` and arrays is not modelled:
  - payloads are sequences;
  - only the filter routines work on an `array`, because they update it in place.
