/** The sRGB payload encoder and its display text (png/src/chunk/srgb.rs; section 11.3.3.5
    of the PNG Specification). */
module SrgbChunk {
  import opened ByteOrder

  /** `ChunkSRGB(u8)`: the rendering intent. */
  datatype ChunkSrgb = ChunkSrgb(intent: u8)

  /** `ChunkSRGB::as_bytes`. */
  function SrgbAsBytes(s: ChunkSrgb): (r: seq<u8>)
    ensures |r| == 1 && r[0] == s.intent
  {
    [s.intent]
  }

  /** `Display for ChunkSRGB`. */
  function IntentName(s: ChunkSrgb): (r: string)
  {
    match s.intent
    case 0 => "Perceptual"
    case 1 => "Relative colorimetric"
    case 2 => "Saturation"
    case 3 => "Absolute colorimetric"
    case _ => "Unknown"
  }

  /** The four intents of the PNG Specification have distinct names, none of them
      "Unknown"; every other value is "Unknown". */
  lemma IntentNames(s: ChunkSrgb, t: ChunkSrgb)
    ensures s.intent <= 3 && t.intent <= 3 && IntentName(s) == IntentName(t) ==> s == t
    ensures IntentName(s) == "Unknown" <==> s.intent >= 4
  {
  }
}
