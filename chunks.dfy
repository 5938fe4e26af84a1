/** A PNG chunk (png/src/chunk/mod.rs; section 5.3 of the PNG Specification): a 4-byte
    big-endian length, a 4-byte type, the payload and a CRC-32 over type and payload.
    The payload is decoded by tag into a `ChunkData` value. */
module Chunks {
  import opened ByteOrder
  import opened Wrappers
  import opened Errors
  import opened Utf8
  import opened ChunkTypes
  import Crc32
  import ImageHeaderChunk
  import PaletteChunk
  import GammaChunk
  import ChromaticitiesChunk
  import SrgbChunk
  import TransparencyChunk
  import IccProfileChunk
  import TextualChunks

  const CHUNK_LENGTH_BYTE_LEN: nat := 4
  const CHUNK_TYPE_BYTE_LEN: nat := 4
  const CHUNK_CRC_BYTE_LEN: nat := 4

  /** The decoded payload of a chunk, one variant per recognised kind. */
  datatype ChunkData =
    | ImageHeader(header: ImageHeaderChunk.ChunkImageHeader)
    | Palette(palette: PaletteChunk.ChunkPalette)
    | ImageData(bytes: seq<u8>)
    | ImageEnd
    | Transparency(transparency: TransparencyChunk.ChunkTransparency)
    | Gamma(gamma: GammaChunk.ChunkGamma)
    | Chromaticities(chromaticities: ChromaticitiesChunk.ChunkChromaticities)
    | SRgb(srgb: SrgbChunk.ChunkSrgb)
    | IccProfile(profile: IccProfileChunk.ChunkIccProfile)
    | Textual(textual: TextualChunks.ChunkTextual)
    | TextualCompressed(compressed: TextualChunks.ChunkTextualCompressed)
    | TextualInternational(international: TextualChunks.ChunkTextualInternational)
    | Other(bytes: seq<u8>)

  /** `ChunkData::as_bytes`: each variant re-encodes through its own payload encoder. */
  function DataAsBytes(d: ChunkData): (r: seq<u8>)
    ensures d.ImageHeader? ==> |r| == ImageHeaderChunk.IMAGE_HEADER_CHUNK_DATA_LEN
    ensures d.Gamma? ==> |r| == 4
    ensures d.Chromaticities? ==> |r| == 32
    ensures d.SRgb? ==> |r| == 1
    ensures d.Palette? ==> |r| == 3 * |d.palette.palettes|
    ensures d.ImageEnd? ==> r == []
    ensures d.ImageData? || d.Other? ==> r == d.bytes
  {
    match d
    case ImageHeader(h) => ImageHeaderChunk.ImageHeaderAsBytes(h)
    case Palette(p) => PaletteChunk.PaletteAsBytes(p)
    case ImageData(b) => b
    case ImageEnd => []
    case Transparency(t) => TransparencyChunk.TransparencyAsBytes(t)
    case Gamma(g) => GammaChunk.GammaAsBytes(g)
    case Chromaticities(c) => ChromaticitiesChunk.ChromaticitiesAsBytes(c)
    case SRgb(s) => SrgbChunk.SrgbAsBytes(s)
    case IccProfile(p) => IccProfileChunk.IccAsBytes(p)
    case Textual(t) => TextualChunks.TextualAsBytes(t)
    case TextualCompressed(t) => TextualChunks.CompressedAsBytes(t)
    case TextualInternational(t) => TextualChunks.InternationalAsBytes(t)
    case Other(b) => b
  }

  /** The bytes of the five tags that `map_chunk_data` decodes. */
  const IHDR_TAG: seq<u8> := [73, 72, 68, 82]
  const IDAT_TAG: seq<u8> := [73, 68, 65, 84]
  const ICCP_TAG: seq<u8> := [105, 67, 67, 80]
  const IEND_TAG: seq<u8> := [73, 69, 78, 68]
  const TEXT_TAG: seq<u8> := [116, 69, 88, 116]

  /** The source compares the tag's text rendering with "IHDR", "IDAT", "iCCP", "IEND" and
      "tEXt"; each comparison holds exactly when the tag has that tag's bytes. */
  lemma TagText(t: ChunkType)
    ensures ToString(t) == "IHDR" <==> t.bytes == IHDR_TAG
    ensures ToString(t) == "IDAT" <==> t.bytes == IDAT_TAG
    ensures ToString(t) == "iCCP" <==> t.bytes == ICCP_TAG
    ensures ToString(t) == "IEND" <==> t.bytes == IEND_TAG
    ensures ToString(t) == "tEXt" <==> t.bytes == TEXT_TAG
  {
    var name := ToString(t);
    assert forall i | 0 <= i < 4 :: name[i] as int == t.bytes[i];
  }

  /** The five tags that `map_chunk_data` decodes; every other tag is kept raw. */
  predicate IsDecodedTag(t: ChunkType)
  {
    t.bytes in {IHDR_TAG, IDAT_TAG, ICCP_TAG, IEND_TAG, TEXT_TAG}
  }

  /** `map_chunk_data`, as a value: `Ok(d)` is the decoded payload, `Err(cause)` the
      reason the call panics. The tag is compared through its text rendering. IHDR copies
      the payload into a zeroed 13-byte array, which panics past index 12, and unwraps
      the header decoder; iCCP and tEXt unwrap their decoders. */
  function ChunkDataOf(t: ChunkType, payload: seq<u8>): (r: Result<ChunkData, PanicCause>)
    ensures !IsDecodedTag(t) ==> r == Ok(Other(payload))
    ensures t.bytes == IDAT_TAG ==> r == Ok(ImageData(payload))
    ensures t.bytes == IEND_TAG ==> r == Ok(ImageEnd)
    ensures t.bytes == IHDR_TAG && |payload| > ImageHeaderChunk.IMAGE_HEADER_CHUNK_DATA_LEN ==>
      r == Err(IndexOutOfRange)
    ensures r.Ok? && t.bytes == IHDR_TAG ==> r.value.ImageHeader?
    ensures r.Ok? && t.bytes == ICCP_TAG ==> r.value.IccProfile?
    ensures r.Ok? && t.bytes == TEXT_TAG ==> r.value.Textual?
  {
    if t.bytes == IHDR_TAG then
      if |payload| > ImageHeaderChunk.IMAGE_HEADER_CHUNK_DATA_LEN then Err(IndexOutOfRange)
      else
        match ImageHeaderChunk.ImageHeaderFromBytes(ZeroPadded(payload, ImageHeaderChunk.IMAGE_HEADER_CHUNK_DATA_LEN))
        case Err(_) => Err(UnwrapOnErr)
        case Ok(h) => Ok(ImageHeader(h))
    else if t.bytes == IDAT_TAG then Ok(ImageData(payload))
    else if t.bytes == ICCP_TAG then
      match IccProfileChunk.IccFromBytes(payload)
      case Panicked(cause) => Err(cause)
      case Returned(Err(_)) => Err(UnwrapOnErr)
      case Returned(Ok(p)) => Ok(IccProfile(p))
    else if t.bytes == IEND_TAG then Ok(ImageEnd)
    else if t.bytes == TEXT_TAG then
      match TextualChunks.TextualFromBytes(payload)
      case Err(_) => Err(UnwrapOnErr)
      case Ok(x) => Ok(Textual(x))
    else Ok(Other(payload))
  }

  /** What the three decoding arms of `map_chunk_data` yield. An IHDR payload of at most
      13 bytes is zero-padded, not rejected, so it decodes as its padding does. A tEXt or
      iCCP payload goes to its decoder. A decoder's error becomes the panic of its `unwrap`,
      and a panic inside the iCCP decoder passes through. */
  lemma DecodingArms(t: ChunkType, payload: seq<u8>)
    ensures t.bytes == IHDR_TAG && |payload| <= ImageHeaderChunk.IMAGE_HEADER_CHUNK_DATA_LEN ==>
      var padded := ZeroPadded(payload, ImageHeaderChunk.IMAGE_HEADER_CHUNK_DATA_LEN);
      var header := ImageHeaderChunk.ImageHeaderFromBytes(padded);
      && ChunkDataOf(t, payload) == ChunkDataOf(t, padded)
      && (header.Ok? ==> ChunkDataOf(t, payload) == Ok(ImageHeader(header.value)))
      && (header.Err? ==> ChunkDataOf(t, payload) == Err(UnwrapOnErr))
    ensures t.bytes == TEXT_TAG ==>
      var text := TextualChunks.TextualFromBytes(payload);
      && (text.Ok? ==> ChunkDataOf(t, payload) == Ok(Textual(text.value)))
      && (text.Err? ==> ChunkDataOf(t, payload) == Err(UnwrapOnErr))
    ensures t.bytes == ICCP_TAG ==>
      var icc := IccProfileChunk.IccFromBytes(payload);
      && (icc.Returned? && icc.result.Ok? ==> ChunkDataOf(t, payload) == Ok(IccProfile(icc.result.value)))
      && (icc.Returned? && icc.result.Err? ==> ChunkDataOf(t, payload) == Err(UnwrapOnErr))
      && (icc.Panicked? ==> ChunkDataOf(t, payload) == Err(icc.cause))
  {
    if t.bytes == IHDR_TAG && |payload| <= ImageHeaderChunk.IMAGE_HEADER_CHUNK_DATA_LEN {
      var padded := ZeroPadded(payload, ImageHeaderChunk.IMAGE_HEADER_CHUNK_DATA_LEN);
      assert ZeroPadded(padded, ImageHeaderChunk.IMAGE_HEADER_CHUNK_DATA_LEN) == padded;
    }
  }

  /** A 12-byte IHDR payload is accepted: its missing interlace byte reads as 0. Its
      re-encoding is 13 bytes, so `data()` does not give the payload back. */
  lemma ShortHeaderAccepted()
    ensures var t := ChunkType([73, 72, 68, 82]);
      var payload: seq<u8> := [0, 0, 0, 1, 0, 0, 0, 1, 8, 2, 0, 0];
      && ChunkDataOf(t, payload).Ok?
      && ChunkDataOf(t, payload).value.header.interlaceMethod == 0
      && |DataAsBytes(ChunkDataOf(t, payload).value)| == |payload| + 1
  {
    var t := ChunkType([73, 72, 68, 82]);
    var payload: seq<u8> := [0, 0, 0, 1, 0, 0, 0, 1, 8, 2, 0, 0];
    DecodingArms(t, payload);
    var padded := ZeroPadded(payload, ImageHeaderChunk.IMAGE_HEADER_CHUNK_DATA_LEN);
    assert padded == [0, 0, 0, 1, 0, 0, 0, 1, 8, 2, 0, 0, 0];
    ImageHeaderChunk.DecodeOutcome(padded);
  }

  /** `map_chunk_data`, with the source's copy loop for IHDR. */
  method MapChunkData(t: ChunkType, payload: seq<u8>) returns (r: Result<ChunkData, PanicCause>)
    ensures r == ChunkDataOf(t, payload)
  {
    TagText(t);
    var name := ToString(t);
    if name == "IHDR" {
      var bytes := new u8[ImageHeaderChunk.IMAGE_HEADER_CHUNK_DATA_LEN](_ => 0);
      var i := 0;
      while i < |payload|
        invariant 0 <= i <= |payload| && i <= bytes.Length
        invariant forall j | 0 <= j < i :: bytes[j] == payload[j]
        invariant forall j | i <= j < bytes.Length :: bytes[j] == 0
      {
        if i >= bytes.Length {
          return Err(IndexOutOfRange);
        }
        bytes[i] := payload[i];
        i := i + 1;
      }
      assert bytes[..] == ZeroPadded(payload, ImageHeaderChunk.IMAGE_HEADER_CHUNK_DATA_LEN);
      var header := ImageHeaderChunk.ImageHeaderFromBytes(bytes[..]);
      if header.Err? {
        return Err(UnwrapOnErr);
      }
      return Ok(ImageHeader(header.value));
    } else if name == "IDAT" {
      return Ok(ImageData(payload));
    } else if name == "iCCP" {
      var icc := IccProfileChunk.IccFromBytes(payload);
      if icc.Panicked? {
        return Err(icc.cause);
      } else if icc.result.Err? {
        return Err(UnwrapOnErr);
      }
      return Ok(IccProfile(icc.result.value));
    } else if name == "IEND" {
      return Ok(ImageEnd);
    } else if name == "tEXt" {
      var text := TextualChunks.TextualFromBytes(payload);
      if text.Err? {
        return Err(UnwrapOnErr);
      }
      return Ok(Textual(text.value));
    }
    return Ok(Other(payload));
  }

  /** The state of a `Chunk`: its four fields. */
  datatype ChunkFields = ChunkFields(length: u32, chunkType: ChunkType, data: ChunkData, crc: u32)

  /** `Chunk::as_bytes`: length and CRC big-endian around the type and the re-encoded payload. */
  function FieldsAsBytes(f: ChunkFields): (r: seq<u8>)
    ensures |r| == 12 + |DataAsBytes(f.data)|
  {
    BeBytes(f.length) + f.chunkType.bytes + DataAsBytes(f.data) + BeBytes(f.crc)
  }

  /** The fields `Chunk::new` and `set_data` give a chunk of type `t` holding `payload`:
      the length truncated to 32 bits (`as u32`), the decoded payload and the CRC of the
      type bytes followed by the payload. */
  function NewFields(t: ChunkType, payload: seq<u8>): (r: ChunkFields)
    requires ChunkDataOf(t, payload).Ok?
    ensures r.length == |payload| % U32_MODULUS && r.chunkType == t
    ensures r.crc == Crc32.Checksum(t.bytes + payload)
  {
    ChunkFields(|payload| % U32_MODULUS, t, ChunkDataOf(t, payload).value, Crc32.Checksum(t.bytes + payload))
  }

  /** A zeroed array of `count` bytes filled from `v.iter().skip(start).take(count)`. */
  function ReadPadded(v: seq<u8>, start: nat, count: nat): (r: seq<u8>)
    ensures |r| == count
    ensures start + count <= |v| ==> r == v[start..start + count]
    ensures |v| <= start ==> forall i | 0 <= i < count :: r[i] == 0
  {
    var r := ZeroPadded(SkipTake(v, start, count), count);
    assert start + count <= |v| ==> r == v[start..start + count];
    r
  }

  /** The copy loop behind `ReadPadded`. */
  method CopyPadded(v: seq<u8>, start: nat, count: nat) returns (r: seq<u8>)
    ensures r == ReadPadded(v, start, count)
  {
    var a := new u8[count](_ => 0);
    var n := if |v| <= start then 0 else if |v| - start < count then |v| - start else count;
    for i := 0 to n
      invariant forall j | 0 <= j < i :: a[j] == v[start + j]
      invariant forall j | i <= j < count :: a[j] == 0
    {
      a[i] := v[start + i];
    }
    r := a[..];
    assert r == ZeroPadded(SkipTake(v, start, count), count);
  }

  /** The push loop that collects `count` bytes from `start` on into a vector. */
  method CollectSlice(v: seq<u8>, start: nat, count: nat) returns (r: seq<u8>)
    requires start + count <= |v|
    ensures r == v[start..start + count]
  {
    r := [];
    for i := 0 to count
      invariant r == v[start..start + i]
    {
      assert v[start..start + i + 1] == v[start..start + i] + [v[start + i]];
      r := r + [v[start + i]];
    }
  }

  /** The part of `Chunk::try_from` after the header: the CRC check, then `map_chunk_data`. */
  function CheckAndMap(length: u32, t: ChunkType, payload: seq<u8>, crc: u32): (r: Outcome<ChunkFields, PngError>)
  {
    if crc != Crc32.Checksum(t.bytes + payload) then Returned(Err(ChunkCrcMismatch))
    else
      match ChunkDataOf(t, payload)
      case Err(cause) => Panicked(cause)
      case Ok(d) => Returned(Ok(ChunkFields(length, t, d, crc)))
  }

  /** Past the header, a record is refused as corrupt exactly when its CRC does not match;
      it is accepted exactly when the CRC matches and its payload decodes without a panic,
      and the result then holds the four values read. */
  lemma CheckAndMapOutcome(length: u32, t: ChunkType, payload: seq<u8>, crc: u32)
    ensures CheckAndMap(length, t, payload, crc) == Returned(Err(ChunkCrcMismatch))
      <==> crc != Crc32.Checksum(t.bytes + payload)
    ensures CheckAndMap(length, t, payload, crc).Returned? && CheckAndMap(length, t, payload, crc).result.Ok?
      <==> crc == Crc32.Checksum(t.bytes + payload) && ChunkDataOf(t, payload).Ok?
    ensures CheckAndMap(length, t, payload, crc).Returned? && CheckAndMap(length, t, payload, crc).result.Ok? ==>
      CheckAndMap(length, t, payload, crc).result.value == ChunkFields(length, t, ChunkDataOf(t, payload).value, crc)
    ensures crc == Crc32.Checksum(t.bytes + payload) && ChunkDataOf(t, payload).Err? ==>
      CheckAndMap(length, t, payload, crc) == Panicked(ChunkDataOf(t, payload).error)
  {
  }

  /** `Chunk::try_from(&[u8])` past the length field, given the length read and the bytes
      after that field: the type from the first four (zero-padded); fewer than eight bytes
      with a valid type underflow `len - 12`; the payload is everything between the type
      and the last four bytes, which hold the CRC. */
  function DecodeAfterLength(length: u32, rest: seq<u8>): (r: Outcome<ChunkFields, PngError>)
  {
    var typeBytes: Bytes4 := ReadPadded(rest, 0, CHUNK_TYPE_BYTE_LEN);
    match ChunkTypeFromBytes(typeBytes)
    case Err(e) => Returned(Err(e))
    case Ok(t) =>
      if |rest| < CHUNK_TYPE_BYTE_LEN + CHUNK_CRC_BYTE_LEN then Panicked(ArithmeticOverflow)
      else CheckAndMap(length, t, rest[4..|rest| - 4], BeU32(rest[|rest| - 4..]))
  }

  /** The bytes after the length field (none if the input is shorter than it). */
  function AfterLength(v: seq<u8>): seq<u8>
  {
    if |v| < CHUNK_LENGTH_BYTE_LEN then [] else v[CHUNK_LENGTH_BYTE_LEN..]
  }

  /** `Chunk::try_from(&[u8])`, as a value. The length is read from the first four bytes
      (zero-padded) and never used again: the rest of the decoding depends only on the
      bytes after it. */
  function DecodeChunk(v: seq<u8>): (r: Outcome<ChunkFields, PngError>)
    ensures r.Returned? && r.result.Err? ==>
      r.result.error == ChunkTypeParseError || r.result.error == ChunkCrcMismatch
  {
    DecodeAfterLength(BeU32(ReadPadded(v, 0, CHUNK_LENGTH_BYTE_LEN)), AfterLength(v))
  }

  /** The type bytes, payload and CRC seen through `AfterLength` sit at offsets 4, 8 and
      `len - 4` of the input. */
  lemma AfterLengthView(v: seq<u8>)
    ensures ReadPadded(AfterLength(v), 0, 4) == ReadPadded(v, 4, 4)
    ensures |AfterLength(v)| < 8 <==> |v| < 12
    ensures |v| >= 12 ==> var rest := AfterLength(v);
      rest[4..|rest| - 4] == v[8..|v| - 4] && rest[|rest| - 4..] == v[|v| - 4..]
  {
    var rest := AfterLength(v);
    if |v| >= 4 {
      assert SkipTake(rest, 0, 4) == SkipTake(v, 4, 4);
    }
  }

  /** The decoding read at the input's own offsets: the type from bytes 4 to 8 (zero-padded),
      then, for twelve bytes or more, the CRC check and the payload mapping on the bytes
      between the type and the last four. */
  lemma DecodeSteps(v: seq<u8>)
    ensures var typed := ChunkTypeFromBytes(ReadPadded(v, 4, 4));
      && (typed.Err? ==> DecodeChunk(v) == Returned(Err(typed.error)))
      && (typed.Ok? && |v| < 12 ==> DecodeChunk(v) == Panicked(ArithmeticOverflow))
      && (typed.Ok? && |v| >= 12 ==>
            DecodeChunk(v) == CheckAndMap(BeU32(ReadPadded(v, 0, 4)), typed.value, v[8..|v| - 4], BeU32(v[|v| - 4..])))
  {
    AfterLengthView(v);
  }

  /** For an input of twelve bytes or more, the type check reads bytes 4 to 8, and past it
      the length, payload and CRC are read at their fixed offsets. */
  lemma DecodeLong(v: seq<u8>)
    requires |v| >= 12
    ensures !AllLetters(v[4..8]) ==> DecodeChunk(v) == Returned(Err(ChunkTypeParseError))
    ensures AllLetters(v[4..8]) ==>
      DecodeChunk(v) == CheckAndMap(BeU32(v[..4]), ChunkType(v[4..8]), v[8..|v| - 4], BeU32(v[|v| - 4..]))
  {
    DecodeSteps(v);
    assert ReadPadded(v, 0, 4) == v[..4];
    assert ReadPadded(v, 4, 4) == v[4..8];
  }

  /** `Chunk`: the fields the source keeps, updated in place by `set_data`. */
  class Chunk {
    var length: u32
    var chunkType: ChunkType
    var data: ChunkData
    var crc: u32

    function Fields(): ChunkFields
      reads this
    {
      ChunkFields(length, chunkType, data, crc)
    }

    /** `Chunk::new`; it panics exactly when `map_chunk_data` does. */
    constructor (t: ChunkType, payload: seq<u8>)
      requires ChunkDataOf(t, payload).Ok?
      ensures Fields() == NewFields(t, payload)
    {
      var crcValue := Crc32.Checksum(t.bytes + payload);
      var d := MapChunkData(t, payload);
      length := |payload| % U32_MODULUS;
      chunkType := t;
      data := d.value;
      crc := crcValue;
    }

    /** The struct literal `Self { length, chunk_type, data, crc }`. */
    constructor FromFields(f: ChunkFields)
      ensures Fields() == f
    {
      length := f.length;
      chunkType := f.chunkType;
      data := f.data;
      crc := f.crc;
    }

    /** `Chunk::try_from(&[u8])`, with the source's copy loops. */
    static method TryFrom(v: seq<u8>) returns (r: Outcome<Chunk, PngError>)
      ensures DecodeChunk(v).Panicked? ==> r == Panicked(DecodeChunk(v).cause)
      ensures DecodeChunk(v).Returned? && DecodeChunk(v).result.Err? ==>
        r == Returned(Err(DecodeChunk(v).result.error))
      ensures DecodeChunk(v).Returned? && DecodeChunk(v).result.Ok? ==>
        r.Returned? && r.result.Ok? && fresh(r.result.value)
        && r.result.value.Fields() == DecodeChunk(v).result.value
    {
      var len := |v|;

      var lengthBytes := CopyPadded(v, 0, CHUNK_LENGTH_BYTE_LEN);
      var length := BeU32(lengthBytes);
      var chunkBytes := CopyPadded(v, CHUNK_LENGTH_BYTE_LEN, CHUNK_TYPE_BYTE_LEN);
      var typeResult := ChunkTypes.TryFrom(chunkBytes);
      if typeResult.Err? {
        DecodeSteps(v);
        return Returned(Err(typeResult.error));
      }
      var t := typeResult.value;

      var bytesLenBeforeData := CHUNK_LENGTH_BYTE_LEN + CHUNK_TYPE_BYTE_LEN;
      var exceptDataLen := bytesLenBeforeData + CHUNK_CRC_BYTE_LEN;
      if len < exceptDataLen {
        DecodeSteps(v);
        return Panicked(ArithmeticOverflow);
      }
      var dataLen := len - exceptDataLen;

      var payload := CollectSlice(v, bytesLenBeforeData, dataLen);

      var crcBytes := CopyPadded(v, len - CHUNK_CRC_BYTE_LEN, CHUNK_CRC_BYTE_LEN);
      var crcValue := BeU32(crcBytes);
      assert payload == v[8..len - 4];
      assert crcBytes == v[len - 4..];
      assert lengthBytes == ReadPadded(v, 0, 4);
      DecodeSteps(v);
      assert DecodeChunk(v) == CheckAndMap(length, t, payload, crcValue);
      r := CheckAndBuild(length, t, payload, crcValue);
    }

    /** The end of `Chunk::try_from`: compare the stored CRC with the CRC of type and
        payload, then map the payload and build the chunk. */
    static method CheckAndBuild(length: u32, t: ChunkType, payload: seq<u8>, crcValue: u32)
      returns (r: Outcome<Chunk, PngError>)
      ensures CheckAndMap(length, t, payload, crcValue).Panicked? ==>
        r == Panicked(CheckAndMap(length, t, payload, crcValue).cause)
      ensures CheckAndMap(length, t, payload, crcValue).Returned? && CheckAndMap(length, t, payload, crcValue).result.Err? ==>
        r == Returned(Err(CheckAndMap(length, t, payload, crcValue).result.error))
      ensures CheckAndMap(length, t, payload, crcValue).Returned? && CheckAndMap(length, t, payload, crcValue).result.Ok? ==>
        r.Returned? && r.result.Ok? && fresh(r.result.value)
        && r.result.value.Fields() == CheckAndMap(length, t, payload, crcValue).result.value
    {
      var crcChecksum := Crc32.Checksum(t.bytes + payload);
      CheckAndMapOutcome(length, t, payload, crcValue);
      if crcValue != crcChecksum {
        return Returned(Err(ChunkCrcMismatch));
      }
      var chunkData := MapChunkData(t, payload);
      if chunkData.Err? {
        return Panicked(chunkData.error);
      }
      var c := new Chunk.FromFields(ChunkFields(length, t, chunkData.value, crcValue));
      return Returned(Ok(c));
    }

    function Length(): u32
      reads this
    {
      length
    }

    function ChunkTypeOf(): ChunkType
      reads this
    {
      chunkType
    }

    function ChunkDataOfChunk(): ChunkData
      reads this
    {
      data
    }

    /** `Chunk::data`: the re-encoded payload. */
    function Data(): seq<u8>
      reads this
    {
      DataAsBytes(data)
    }

    function Crc(): u32
      reads this
    {
      crc
    }

    /** `Chunk::data_as_string`: the payload as a `String` (held as its UTF-8 bytes), or a
        UTF-8 error. */
    function DataAsString(): (r: Result<seq<u8>, PngError>)
      reads this
      ensures r.Ok? <==> ValidUtf8(Data())
      ensures r.Ok? ==> r.value == Data()
      ensures r.Err? ==> r.error == StringFromUtf8Error
    {
      var bytes := DataAsBytes(data);
      if ValidUtf8(bytes) then Ok(bytes) else Err(StringFromUtf8Error)
    }

    /** `Chunk::as_bytes`: the length, the type, `data()` and the CRC, the two numbers
        big-endian. */
    function AsBytes(): (r: seq<u8>)
      reads this
      ensures |r| == 12 + |Data()|
      ensures r[..4] == BeBytes(length) && r[4..8] == chunkType.bytes
      ensures r[8..|r| - 4] == Data() && r[|r| - 4..] == BeBytes(crc)
    {
      EncodedSlices(Fields());
      FieldsAsBytes(Fields())
    }

    /** `Chunk::set_data`: the type is kept; length, payload and CRC are replaced as in
        `Chunk::new`. It panics exactly when `map_chunk_data` does. */
    method SetData(payload: seq<u8>)
      requires ChunkDataOf(chunkType, payload).Ok?
      modifies this
      ensures Fields() == NewFields(old(chunkType), payload)
    {
      var newLen := |payload|;
      var t := chunkType;
      var newData := MapChunkData(t, payload);
      var newCrc := Crc32.Checksum(t.bytes + payload);
      length := newLen % U32_MODULUS;
      data := newData.value;
      crc := newCrc;
    }
  }
  /** The decoded payload of a chunk of type `t` re-encodes to `payload` itself. */
  predicate PayloadKept(t: ChunkType, payload: seq<u8>)
  {
    ChunkDataOf(t, payload).Ok? && DataAsBytes(ChunkDataOf(t, payload).value) == payload
  }

  /** Which payloads survive decoding and re-encoding: all of them under a raw tag, IDAT
      and tEXt; under IHDR exactly the accepted 13-byte ones (a shorter one comes back
      zero-padded); under IEND only the empty one; under iCCP none, since the compression
      method byte comes back twice. */
  lemma PayloadKeptCases(t: ChunkType, payload: seq<u8>)
    ensures !IsDecodedTag(t) || t.bytes == IDAT_TAG ==> PayloadKept(t, payload)
    ensures t.bytes == TEXT_TAG ==>
      (PayloadKept(t, payload) <==> TextualChunks.TextualFromBytes(payload).Ok?)
    ensures t.bytes == IHDR_TAG ==>
      (PayloadKept(t, payload) <==> ChunkDataOf(t, payload).Ok? && |payload| == ImageHeaderChunk.IMAGE_HEADER_CHUNK_DATA_LEN)
    ensures t.bytes == IEND_TAG ==> (PayloadKept(t, payload) <==> payload == [])
    ensures t.bytes == ICCP_TAG ==> !PayloadKept(t, payload)
  {
    if t.bytes == TEXT_TAG {
      TextualPayloadKept(t, payload);
    } else if t.bytes == IHDR_TAG {
      HeaderPayloadKept(t, payload);
    } else if t.bytes == ICCP_TAG {
      IccPayloadNotKept(t, payload);
    }
  }

  /** A tEXt payload is kept exactly when the tEXt decoder accepts it. */
  lemma TextualPayloadKept(t: ChunkType, payload: seq<u8>)
    requires t.bytes == TEXT_TAG
    ensures PayloadKept(t, payload) <==> TextualChunks.TextualFromBytes(payload).Ok?
  {
    if TextualChunks.TextualFromBytes(payload).Ok? {
      TextualChunks.DecodeEncode(payload);
    }
  }

  /** An IHDR payload is kept exactly when it is accepted and thirteen bytes long. */
  lemma HeaderPayloadKept(t: ChunkType, payload: seq<u8>)
    requires t.bytes == IHDR_TAG
    ensures PayloadKept(t, payload) <==> ChunkDataOf(t, payload).Ok? && |payload| == ImageHeaderChunk.IMAGE_HEADER_CHUNK_DATA_LEN
  {
    if ChunkDataOf(t, payload).Ok? {
      var padded := ZeroPadded(payload, ImageHeaderChunk.IMAGE_HEADER_CHUNK_DATA_LEN);
      ImageHeaderChunk.DecodeEncode(padded);
    }
  }

  /** No iCCP payload is kept. */
  lemma IccPayloadNotKept(t: ChunkType, payload: seq<u8>)
    requires t.bytes == ICCP_TAG
    ensures !PayloadKept(t, payload)
  {
    if ChunkDataOf(t, payload).Ok? {
      IccProfileChunk.ReencodeDuplicatesMethod(payload);
    }
  }

  /** The tags with payload types of their own but no decoder in `map_chunk_data` (PLTE,
      gAMA, cHRM, sRGB, tRNS) are kept as raw bytes. */
  lemma UndecodedPayloadTypes(payload: seq<u8>)
    ensures ChunkDataOf(ChunkType([80, 76, 84, 69]), payload) == Ok(Other(payload))
    ensures ChunkDataOf(ChunkType([103, 65, 77, 65]), payload) == Ok(Other(payload))
    ensures ChunkDataOf(ChunkType([99, 72, 82, 77]), payload) == Ok(Other(payload))
    ensures ChunkDataOf(ChunkType([115, 82, 71, 66]), payload) == Ok(Other(payload))
    ensures ChunkDataOf(ChunkType([116, 82, 78, 83]), payload) == Ok(Other(payload))
  {
  }

  /** An input shorter than eight bytes has a zero in its padded type, so it is refused
      as a type error; with a valid type, one shorter than twelve bytes panics. */
  lemma ShortInputs(v: seq<u8>)
    ensures |v| < 8 ==> DecodeChunk(v) == Returned(Err(ChunkTypeParseError))
    ensures 8 <= |v| < 12 && AllLetters(v[4..8]) ==> DecodeChunk(v) == Panicked(ArithmeticOverflow)
  {
    AfterLengthView(v);
    if |v| < 8 {
      assert ReadPadded(v, 4, 4)[3] == 0;
    }
  }

  /** With at least eight bytes, the type is bytes 4 to 8 and is checked first. */
  lemma InvalidType(v: seq<u8>)
    requires |v| >= 8 && !AllLetters(v[4..8])
    ensures DecodeChunk(v) == Returned(Err(ChunkTypeParseError))
  {
    AfterLengthView(v);
  }

  /** For an input of twelve bytes or more with a valid type, the stored CRC (the last
      four bytes) is compared with the CRC of everything between the length and the CRC,
      and a mismatch is reported exactly when they differ. */
  lemma CrcChecked(v: seq<u8>)
    requires |v| >= 12 && AllLetters(v[4..8])
    ensures DecodeChunk(v) == Returned(Err(ChunkCrcMismatch)) <==>
      BeU32(v[|v| - 4..]) != Crc32.Checksum(v[4..|v| - 4])
  {
    DecodeLong(v);
    RecordSlices(v);
    CheckAndMapOutcome(BeU32(v[..4]), ChunkType(v[4..8]), v[8..|v| - 4], BeU32(v[|v| - 4..]));
  }

  /** What an accepted input decodes to: the length is the first four bytes as written,
      the type the next four, the CRC the last four, equal to the CRC of type and
      payload, and the data the payload decoded by tag. */
  lemma DecodedParts(v: seq<u8>, f: ChunkFields)
    requires DecodeChunk(v) == Returned(Ok(f))
    ensures |v| >= 12
    ensures f.length == BeU32(v[..4])
    ensures f.chunkType.bytes == v[4..8]
    ensures f.crc == BeU32(v[|v| - 4..])
    ensures f.crc == Crc32.Checksum(v[4..|v| - 4])
    ensures ChunkDataOf(f.chunkType, v[8..|v| - 4]) == Ok(f.data)
  {
    AcceptedIsLong(v);
    DecodeLong(v);
    RecordSlices(v);
    CheckAndMapOutcome(BeU32(v[..4]), ChunkType(v[4..8]), v[8..|v| - 4], BeU32(v[|v| - 4..]));
  }

  /** Only an input of twelve bytes or more with a valid type can be accepted. */
  lemma AcceptedIsLong(v: seq<u8>)
    requires DecodeChunk(v).Returned? && DecodeChunk(v).result.Ok?
    ensures |v| >= 12 && AllLetters(v[4..8])
  {
    if |v| < 12 || !AllLetters(v[4..8]) {
      ShortInputs(v);
      if |v| >= 8 {
        InvalidType(v);
      }
    }
  }

  /** The type and payload slices of a record are adjacent. */
  lemma RecordSlices(v: seq<u8>)
    requires |v| >= 12
    ensures v[4..8] + v[8..|v| - 4] == v[4..|v| - 4]
  {
  }

  /** The declared length is never compared with the payload: replacing it by any value
      changes nothing but the length field of the result. */
  lemma DeclaredLengthIgnored(v: seq<u8>, n: u32)
    requires |v| >= 4
    ensures var w := BeBytes(n) + v[4..];
      && (DecodeChunk(v).Returned? && DecodeChunk(v).result.Ok? ==>
            DecodeChunk(w) == Returned(Ok(DecodeChunk(v).result.value.(length := n))))
      && (!(DecodeChunk(v).Returned? && DecodeChunk(v).result.Ok?) ==> DecodeChunk(w) == DecodeChunk(v))
  {
    var w := BeBytes(n) + v[4..];
    assert AfterLength(w) == AfterLength(v);
    assert ReadPadded(w, 0, 4) == BeBytes(n);
    BeU32OfBeBytes(n);
    LengthOnlyInResult(BeU32(ReadPadded(v, 0, 4)), n, AfterLength(v));
  }

  /** The length given to `DecodeAfterLength` only ends up in the length field of an
      accepted result. */
  lemma LengthOnlyInResult(length: u32, n: u32, rest: seq<u8>)
    ensures var r := DecodeAfterLength(length, rest);
      && (r.Returned? && r.result.Ok? ==> DecodeAfterLength(n, rest) == Returned(Ok(r.result.value.(length := n))))
      && (!(r.Returned? && r.result.Ok?) ==> DecodeAfterLength(n, rest) == r)
  {
    var typeBytes: Bytes4 := ReadPadded(rest, 0, CHUNK_TYPE_BYTE_LEN);
    if ChunkTypeFromBytes(typeBytes).Ok? && |rest| >= 8 {
      var t := ChunkTypeFromBytes(typeBytes).value;
      var payload, crc := rest[4..|rest| - 4], BeU32(rest[|rest| - 4..]);
      CheckAndMapOutcome(length, t, payload, crc);
      CheckAndMapOutcome(n, t, payload, crc);
    }
  }

  /** Changing the stored CRC of an accepted input to any other value makes it rejected. */
  lemma AlteredCrcRejected(v: seq<u8>, f: ChunkFields, c: u32)
    requires DecodeChunk(v) == Returned(Ok(f))
    requires c != f.crc
    ensures DecodeChunk(v[..|v| - 4] + BeBytes(c)) == Returned(Err(ChunkCrcMismatch))
  {
    DecodedParts(v, f);
    CrcReplaced(v, c);
  }

  /** A record with a valid type whose CRC field holds a wrong value is rejected. */
  lemma CrcReplaced(v: seq<u8>, c: u32)
    requires |v| >= 12 && AllLetters(v[4..8])
    requires c != Crc32.Checksum(v[4..|v| - 4])
    ensures DecodeChunk(v[..|v| - 4] + BeBytes(c)) == Returned(Err(ChunkCrcMismatch))
  {
    var w := v[..|v| - 4] + BeBytes(c);
    assert w[4..8] == v[4..8];
    assert w[|w| - 4..] == BeBytes(c);
    BeU32OfBeBytes(c);
    assert w[4..|w| - 4] == v[4..|v| - 4];
    CrcChecked(w);
  }

  /** Four values laid out as a record give back the bytes they were read from. */
  lemma FieldsAsBytesOfParts(f: ChunkFields, v: seq<u8>)
    requires |v| >= 12
    requires f.length == BeU32(v[..4]) && f.chunkType.bytes == v[4..8] && f.crc == BeU32(v[|v| - 4..])
    requires DataAsBytes(f.data) == v[8..|v| - 4]
    ensures FieldsAsBytes(f) == v
  {
    BeBytesOfBeU32(v[..4]);
    BeBytesOfBeU32(v[|v| - 4..]);
    assert v == v[..4] + v[4..8] + v[8..|v| - 4] + v[|v| - 4..];
  }

  /** Decoding then encoding gives the input back whenever the payload survives its own
      decoding (see `PayloadKeptCases`); the declared length need not match. */
  lemma DecodeEncode(v: seq<u8>, f: ChunkFields)
    requires DecodeChunk(v) == Returned(Ok(f))
    requires PayloadKept(f.chunkType, v[8..|v| - 4])
    ensures FieldsAsBytes(f) == v
  {
    DecodedParts(v, f);
    FieldsAsBytesOfParts(f, v);
  }

  /** A chunk built by `Chunk::new` from a valid type and a payload that survives its own
      decoding is decoded back from its bytes to the same fields. */
  lemma EncodeDecode(t: ChunkType, payload: seq<u8>)
    requires AllLetters(t.bytes)
    requires PayloadKept(t, payload)
    ensures DecodeChunk(FieldsAsBytes(NewFields(t, payload))) == Returned(Ok(NewFields(t, payload)))
  {
    var f := NewFields(t, payload);
    EncodedSlices(f);
    BeU32OfBeBytes(f.length);
    BeU32OfBeBytes(f.crc);
    DecodeLong(FieldsAsBytes(f));
    CheckAndMapOutcome(f.length, t, payload, f.crc);
  }

  /** Where the four fields sit in a laid-out record. */
  lemma EncodedSlices(f: ChunkFields)
    ensures var v := FieldsAsBytes(f);
      && v[..4] == BeBytes(f.length)
      && v[4..8] == f.chunkType.bytes
      && v[8..|v| - 4] == DataAsBytes(f.data)
      && v[|v| - 4..] == BeBytes(f.crc)
  {
  }

  /** After `Chunk::new` or `set_data` with a payload that survives its own decoding,
      `data()` is that payload, the length is its size modulo 2^32 and the CRC covers the
      type followed by `data()`. */
  lemma NewChunkInvariant(t: ChunkType, payload: seq<u8>)
    requires PayloadKept(t, payload)
    ensures var f := NewFields(t, payload);
      && DataAsBytes(f.data) == payload
      && f.length == |DataAsBytes(f.data)| % U32_MODULUS
      && f.crc == Crc32.Checksum(t.bytes + DataAsBytes(f.data))
  {
  }

  /** An IEND chunk always re-encodes with an empty payload, whatever it was built from. */
  lemma ImageEndIsEmpty(t: ChunkType, payload: seq<u8>)
    requires t.bytes == IEND_TAG
    ensures ChunkDataOf(t, payload) == Ok(ImageEnd)
    ensures DataAsBytes(ChunkDataOf(t, payload).value) == []
  {
  }
}
