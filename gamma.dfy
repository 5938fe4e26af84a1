/** The gAMA payload encoder (png/src/chunk/gamma.rs; section 11.3.3.2 of the PNG Specification). */
module GammaChunk {
  import opened ByteOrder

  /** `ChunkGamma(u32)`: the image gamma times 100000. */
  datatype ChunkGamma = ChunkGamma(value: u32)

  /** `ChunkGamma::as_bytes`: the stored value, four bytes big-endian. */
  function GammaAsBytes(g: ChunkGamma): (r: seq<u8>)
    ensures |r| == 4
  {
    BeBytes(g.value)
  }

  /** The most significant byte comes first. */
  lemma MostSignificantFirst(g: ChunkGamma)
    ensures GammaAsBytes(g)[0] as int * 0x100_0000 <= g.value < (GammaAsBytes(g)[0] as int + 1) * 0x100_0000
    ensures GammaAsBytes(g)[3] == g.value % 256
  {
  }

  /** Reading the four bytes back big-endian yields the stored value, so distinct
      values encode differently. */
  lemma GammaRoundTrip(g: ChunkGamma, h: ChunkGamma)
    ensures BeU32(GammaAsBytes(g)) == g.value
    ensures GammaAsBytes(g) == GammaAsBytes(h) ==> g == h
  {
    BeU32OfBeBytes(g.value);
    BeBytesInjective(g.value, h.value);
  }
}
