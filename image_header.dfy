/** The IHDR payload (png/src/chunk/image_header.rs; section 11.2.2 of the PNG Specification). */
module ImageHeaderChunk {
  import opened ByteOrder
  import opened Wrappers
  import opened Errors
  import opened ColorTypes

  const IMAGE_HEADER_CHUNK_DATA_LEN: nat := 13

  /** `ChunkImageHeader`: width, height, bit depth, colour type, compression method,
      filter method and interlace method. The source's getters are the destructors. */
  datatype ChunkImageHeader = ChunkImageHeader(
    width: u32,
    height: u32,
    bitDepth: u8,
    colorType: ColorType,
    compressionMethod: u8,
    filterMethod: u8,
    interlaceMethod: u8)

  /** The `match` on the pair (colour type byte, bit depth) in the decoder. */
  predicate BitDepthMatches(colorTypeRaw: u8, bitDepth: u8)
  {
    match (colorTypeRaw, bitDepth)
    case (0, d) => d in {1, 2, 4, 8, 16}
    case (2, d) => d in {8, 16}
    case (3, d) => d in {1, 2, 4, 8}
    case (4, d) => d in {8, 16}
    case (6, d) => d in {8, 16}
    case _ => false
  }

  /** The allowed bit depths per colour type, Table 11.1 of the PNG Specification. */
  function AllowedBitDepths(c: ColorType): set<u8>
  {
    match c
    case Grayscale => {1, 2, 4, 8, 16}
    case Rgb => {8, 16}
    case PaletteIndex => {1, 2, 4, 8}
    case GrayscaleWithAlpha => {8, 16}
    case RgbWithAlpha => {8, 16}
  }

  /** The decoder's table agrees with Table 11.1. */
  lemma BitDepthTableAgrees(c: ColorType, d: u8)
    ensures BitDepthMatches(ColorTypeToByte(c), d) <==> d in AllowedBitDepths(c)
  {
  }

  /** `ChunkImageHeader::try_from([u8; 13])`: checks colour type, then bit depth, then
      compression, filter and interlace method, returning the first failure. */
  function ImageHeaderFromBytes(bytes: seq<u8>): (r: Result<ChunkImageHeader, PngError>)
    requires |bytes| == IMAGE_HEADER_CHUNK_DATA_LEN
    ensures r.Ok? ==> WellFormed(r.value)
    ensures r.Err? ==> r.error in {InvalidColorType, InvalidBitDepth, InvalidCompressionMethod,
                                   InvalidFilterMethod, InvalidInterlaceMethod}
  {
    var width := BeU32(bytes[0..4]);
    var height := BeU32(bytes[4..8]);
    var bitDepth := bytes[8];
    var colorTypeRaw := bytes[9];
    match ColorTypeFromByte(colorTypeRaw)
    case Err(e) => Err(e)
    case Ok(colorType) =>
      if !BitDepthMatches(colorTypeRaw, bitDepth) then Err(InvalidBitDepth)
      else if bytes[10] != 0 then Err(InvalidCompressionMethod)
      else if bytes[11] != 0 then Err(InvalidFilterMethod)
      else if !(bytes[12] == 0 || bytes[12] == 1) then Err(InvalidInterlaceMethod)
      else Ok(ChunkImageHeader(width, height, bitDepth, colorType, bytes[10], bytes[11], bytes[12]))
  }

  /** `as_bytes`: width and height big-endian, then the five one-byte fields. */
  function ImageHeaderAsBytes(h: ChunkImageHeader): (r: seq<u8>)
    ensures |r| == IMAGE_HEADER_CHUNK_DATA_LEN
  {
    BeBytes(h.width) + BeBytes(h.height)
      + [h.bitDepth, ColorTypeToByte(h.colorType), h.compressionMethod, h.filterMethod, h.interlaceMethod]
  }

  /** `color_channels`. */
  function ColorChannels(h: ChunkImageHeader): (r: u8)
    ensures 1 <= r <= 4
  {
    Channels(h.colorType)
  }

  /** The header field checks the decoder applies, in the terms of Table 11.1. */
  predicate WellFormed(h: ChunkImageHeader)
  {
    && h.bitDepth in AllowedBitDepths(h.colorType)
    && h.compressionMethod == 0
    && h.filterMethod == 0
    && h.interlaceMethod in {0, 1}
  }

  /** Which error the decoder reports: the colour type is checked before anything else,
      then the bit depth against the table, then compression, filter and interlace
      method in that order; a header passing all of them is accepted. */
  lemma DecodeOutcome(bytes: seq<u8>)
    requires |bytes| == IMAGE_HEADER_CHUNK_DATA_LEN
    ensures bytes[9] !in {0, 2, 3, 4, 6} ==> ImageHeaderFromBytes(bytes) == Err(InvalidColorType)
    ensures bytes[9] in {0, 2, 3, 4, 6} && !BitDepthMatches(bytes[9], bytes[8]) ==>
      ImageHeaderFromBytes(bytes) == Err(InvalidBitDepth)
    ensures BitDepthMatches(bytes[9], bytes[8]) && bytes[10] != 0 ==>
      ImageHeaderFromBytes(bytes) == Err(InvalidCompressionMethod)
    ensures BitDepthMatches(bytes[9], bytes[8]) && bytes[10] == 0 && bytes[11] != 0 ==>
      ImageHeaderFromBytes(bytes) == Err(InvalidFilterMethod)
    ensures BitDepthMatches(bytes[9], bytes[8]) && bytes[10] == 0 && bytes[11] == 0 && bytes[12] > 1 ==>
      ImageHeaderFromBytes(bytes) == Err(InvalidInterlaceMethod)
    ensures ImageHeaderFromBytes(bytes).Ok? <==>
      BitDepthMatches(bytes[9], bytes[8]) && bytes[10] == 0 && bytes[11] == 0 && bytes[12] <= 1
  {
  }

  /** An accepted header holds the fields at their offsets: width and height big-endian
      at 0..4 and 4..8, then bit depth, colour type, compression, filter and interlace;
      it is well formed and its channel count is that of the colour type byte. */
  lemma DecodedFields(bytes: seq<u8>)
    requires |bytes| == IMAGE_HEADER_CHUNK_DATA_LEN
    requires ImageHeaderFromBytes(bytes).Ok?
    ensures var h := ImageHeaderFromBytes(bytes).value;
      && h.width == BeU32(bytes[0..4]) && h.height == BeU32(bytes[4..8])
      && h.bitDepth == bytes[8] && ColorTypeToByte(h.colorType) == bytes[9]
      && h.compressionMethod == bytes[10] && h.filterMethod == bytes[11]
      && h.interlaceMethod == bytes[12]
      && WellFormed(h)
      && ColorTypeFromByte(bytes[9]) == Ok(h.colorType)
      && ColorChannels(h) == Channels(ColorTypeFromByte(bytes[9]).value)
  {
    var h := ImageHeaderFromBytes(bytes).value;
    BitDepthTableAgrees(h.colorType, h.bitDepth);
  }

  /** Every accepted 13-byte payload is re-encoded byte for byte. */
  lemma DecodeEncode(bytes: seq<u8>)
    requires |bytes| == IMAGE_HEADER_CHUNK_DATA_LEN
    requires ImageHeaderFromBytes(bytes).Ok?
    ensures ImageHeaderAsBytes(ImageHeaderFromBytes(bytes).value) == bytes
  {
    var h := ImageHeaderFromBytes(bytes).value;
    BeBytesOfBeU32(bytes[0..4]);
    BeBytesOfBeU32(bytes[4..8]);
    assert bytes == bytes[0..4] + bytes[4..8] + bytes[8..];
  }

  /** Every well-formed header survives encoding and decoding. */
  lemma EncodeDecode(h: ChunkImageHeader)
    requires WellFormed(h)
    ensures ImageHeaderFromBytes(ImageHeaderAsBytes(h)) == Ok(h)
  {
    var b := ImageHeaderAsBytes(h);
    assert b[0..4] == BeBytes(h.width);
    assert b[4..8] == BeBytes(h.height);
    BeU32OfBeBytes(h.width);
    BeU32OfBeBytes(h.height);
    BitDepthTableAgrees(h.colorType, h.bitDepth);
  }

  /** A 1-bit palette image of size 0 x 0 is accepted; bit depth 3 for grey scale and
      compression method 1 are refused. */
  lemma HeaderExamples()
    ensures ImageHeaderFromBytes([0, 0, 0, 0, 0, 0, 0, 0, 1, 3, 0, 0, 0]).Ok?
    ensures ImageHeaderFromBytes([0, 0, 0, 0, 0, 0, 0, 0, 3, 0, 0, 0, 0]) == Err(InvalidBitDepth)
    ensures ImageHeaderFromBytes([0, 0, 0, 0, 0, 0, 0, 0, 8, 2, 1, 0, 0]) == Err(InvalidCompressionMethod)
  {
    DecodeOutcome([0, 0, 0, 0, 0, 0, 0, 0, 1, 3, 0, 0, 0]);
    DecodeOutcome([0, 0, 0, 0, 0, 0, 0, 0, 3, 0, 0, 0, 0]);
    DecodeOutcome([0, 0, 0, 0, 0, 0, 0, 0, 8, 2, 1, 0, 0]);
  }
}
