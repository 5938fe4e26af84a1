/** The text chunks (png/src/chunk/textual.rs; sections 11.3.4.3 to 11.3.4.5 of the PNG
    Specification): the tEXt decoder and encoder, and the zTXt and iTXt encoders. */
module TextualChunks {
  import opened ByteOrder
  import opened Wrappers
  import opened Errors
  import opened Utf8

  const NULL_SEPARATOR: u8 := 0

  /** `ChunkTextual`: a keyword and an optional text, both Rust `String`s, held here as
      their UTF-8 bytes. */
  datatype ChunkTextual = ChunkTextual(keyword: seq<u8>, text: Option<seq<u8>>)

  /** `ChunkTextual::try_from(&[u8])`: split at the first zero byte; the keyword must be
      non-empty and both parts valid UTF-8. */
  function TextualFromBytes(bytes: seq<u8>): (r: Result<ChunkTextual, PngError>)
    ensures FirstZero(bytes).None? ==> r == Err(ChunkParseError)
    ensures FirstZero(bytes) == Some(0) ==> r == Err(ChunkParseError)
  {
    match FirstZero(bytes)
    case None => Err(ChunkParseError)
    case Some(pos) =>
      if pos < 1 then Err(ChunkParseError)
      else if !ValidUtf8(bytes[0..pos]) then Err(StringFromUtf8Error)
      else
        // `bytes.get(pos + 1..)` is always `Some`, since `pos < bytes.len()`
        var rest := bytes[pos + 1..];
        if !ValidUtf8(rest) then Err(StringFromUtf8Error)
        else Ok(ChunkTextual(bytes[0..pos], Some(rest)))
  }

  /** `ChunkTextual::as_bytes`: keyword, one zero byte, then the text (empty if absent). */
  function TextualAsBytes(t: ChunkTextual): (r: seq<u8>)
    ensures t.text.None? ==> r == t.keyword + [0]
  {
    var text := match t.text case Some(s) => s case None => [];
    t.keyword + [NULL_SEPARATOR] + text
  }

  /** What an accepted payload decodes to: the keyword is the non-empty run before the
      first zero byte (so it holds no zero), and the text is always present, being the
      bytes after that zero, possibly none. */
  lemma DecodedParts(bytes: seq<u8>)
    requires TextualFromBytes(bytes).Ok?
    ensures var t := TextualFromBytes(bytes).value;
      && 1 <= |t.keyword| < |bytes|
      && t.keyword == bytes[..|t.keyword|] && bytes[|t.keyword|] == 0
      && (forall i | 0 <= i < |t.keyword| :: t.keyword[i] != 0)
      && t.text == Some(bytes[|t.keyword| + 1..])
      && ValidUtf8(t.keyword) && ValidUtf8(t.text.value)
  {
  }

  /** A payload whose keyword or text is not UTF-8 gives a UTF-8 error, not a value. */
  lemma Utf8Failure(bytes: seq<u8>, pos: nat)
    requires FirstZero(bytes) == Some(pos) && pos >= 1
    requires !ValidUtf8(bytes[..pos]) || !ValidUtf8(bytes[pos + 1..])
    ensures TextualFromBytes(bytes) == Err(StringFromUtf8Error)
  {
  }

  /** Every accepted payload is re-encoded byte for byte. */
  lemma DecodeEncode(bytes: seq<u8>)
    requires TextualFromBytes(bytes).Ok?
    ensures TextualAsBytes(TextualFromBytes(bytes).value) == bytes
  {
    var pos := FirstZero(bytes).value;
    assert bytes == bytes[0..pos] + [bytes[pos]] + bytes[pos + 1..];
  }

  /** A keyword free of zero bytes, non-empty and UTF-8, with UTF-8 text, is decoded back
      from its encoding. */
  lemma EncodeDecode(t: ChunkTextual)
    requires 1 <= |t.keyword| && forall i | 0 <= i < |t.keyword| :: t.keyword[i] != 0
    requires ValidUtf8(t.keyword) && t.text.Some? && ValidUtf8(t.text.value)
    ensures TextualFromBytes(TextualAsBytes(t)) == Ok(t)
  {
    var b := TextualAsBytes(t);
    FirstZeroAfterPrefix(t.keyword, t.text.value);
    assert b[0..|t.keyword|] == t.keyword;
    assert b[|t.keyword| + 1..] == t.text.value;
  }

  /** `ChunkTextualCompressed` (zTXt): its decoder is not implemented in the source. */
  datatype ChunkTextualCompressed = ChunkTextualCompressed(
    keyword: seq<u8>, compressionMethod: u8, compressedText: seq<u8>)

  /** `ChunkTextualCompressed::as_bytes`: keyword, zero, compression method, compressed text. */
  function CompressedAsBytes(t: ChunkTextualCompressed): (r: seq<u8>)
    ensures |r| == |t.keyword| + 2 + |t.compressedText|
  {
    t.keyword + [NULL_SEPARATOR] + [t.compressionMethod] + t.compressedText
  }

  /** With a keyword free of zero bytes, the first zero of the encoding ends the keyword,
      the compression method follows it and the compressed text is the rest. */
  lemma CompressedLayout(t: ChunkTextualCompressed)
    requires forall i | 0 <= i < |t.keyword| :: t.keyword[i] != 0
    ensures var r := CompressedAsBytes(t);
      && FirstZero(r) == Some(|t.keyword|)
      && r[..|t.keyword|] == t.keyword
      && r[|t.keyword| + 1] == t.compressionMethod
      && r[|t.keyword| + 2..] == t.compressedText
  {
    FirstZeroAfterPrefix(t.keyword, [t.compressionMethod] + t.compressedText);
    assert CompressedAsBytes(t) == t.keyword + [0] + ([t.compressionMethod] + t.compressedText);
  }

  /** `ChunkTextualInternational` (iTXt): its decoder is not implemented in the source. */
  datatype ChunkTextualInternational = ChunkTextualInternational(
    keyword: seq<u8>,
    compressionFlag: u8,
    compressionMethod: u8,
    languageTag: seq<u8>,
    translatedKeyword: seq<u8>,
    text: seq<u8>)

  /** `ChunkTextualInternational::as_bytes`: keyword, zero, compression flag, compression
      method, language tag, zero, translated keyword, zero, text. */
  function InternationalAsBytes(t: ChunkTextualInternational): (r: seq<u8>)
    ensures |r| == |t.keyword| + |t.languageTag| + |t.translatedKeyword| + |t.text| + 5
  {
    t.keyword + [NULL_SEPARATOR] + [t.compressionFlag] + [t.compressionMethod]
      + t.languageTag + [NULL_SEPARATOR] + t.translatedKeyword + [NULL_SEPARATOR] + t.text
  }

  /** The iTXt fields sit in order at the offsets their lengths give, each zero separator
      in its place; with a keyword free of zero bytes, the first zero ends the keyword. */
  lemma InternationalLayout(t: ChunkTextualInternational)
    ensures var r := InternationalAsBytes(t);
      var k, l, tk := |t.keyword|, |t.languageTag|, |t.translatedKeyword|;
      && r[..k] == t.keyword && r[k] == 0
      && r[k + 1] == t.compressionFlag && r[k + 2] == t.compressionMethod
      && r[k + 3 .. k + 3 + l] == t.languageTag && r[k + 3 + l] == 0
      && r[k + 4 + l .. k + 4 + l + tk] == t.translatedKeyword && r[k + 4 + l + tk] == 0
      && r[k + 5 + l + tk..] == t.text
    ensures (forall i | 0 <= i < |t.keyword| :: t.keyword[i] != 0) ==>
      FirstZero(InternationalAsBytes(t)) == Some(|t.keyword|)
  {
    var rest := [t.compressionFlag] + [t.compressionMethod] + t.languageTag + [NULL_SEPARATOR]
      + t.translatedKeyword + [NULL_SEPARATOR] + t.text;
    assert InternationalAsBytes(t) == t.keyword + [0] + rest;
    if forall i | 0 <= i < |t.keyword| :: t.keyword[i] != 0 {
      FirstZeroAfterPrefix(t.keyword, rest);
    }
  }
}
