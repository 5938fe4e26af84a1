/** The tRNS payload (png/src/chunk/transparency.rs; section 11.3.2.1 of the PNG
    Specification): the captured bytes, uninterpreted. */
module TransparencyChunk {
  import opened ByteOrder

  /** `ChunkTransparency(Vec<u8>)`. */
  datatype ChunkTransparency = ChunkTransparency(bytes: seq<u8>)

  /** `ChunkTransparency::as_bytes`: a copy of the captured bytes. */
  function TransparencyAsBytes(t: ChunkTransparency): (r: seq<u8>)
    ensures r == t.bytes
  {
    t.bytes
  }

  /** `as_indexed_color_bytes`: the same bytes, one alpha value per palette index. */
  function AsIndexedColorBytes(t: ChunkTransparency): (r: seq<u8>)
    ensures r == TransparencyAsBytes(t)
    ensures |r| == |t.bytes|
  {
    TransparencyAsBytes(t)
  }
}
