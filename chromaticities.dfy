/** The cHRM payload encoder (png/src/chunk/chromaticities.rs; section 11.3.3.1 of the PNG
    Specification). */
module ChromaticitiesChunk {
  import opened ByteOrder

  /** `ChunkChromaticities`: the white point and the three primaries, each times 100000. */
  datatype ChunkChromaticities = ChunkChromaticities(
    whitePointX: u32, whitePointY: u32,
    redX: u32, redY: u32,
    greenX: u32, greenY: u32,
    blueX: u32, blueY: u32)

  /** The eight fields in the order the PNG Specification lays them out. */
  function Fields(c: ChunkChromaticities): (r: seq<u32>)
    ensures |r| == 8
  {
    [c.whitePointX, c.whitePointY, c.redX, c.redY, c.greenX, c.greenY, c.blueX, c.blueY]
  }

  /** `ChunkChromaticities::as_bytes`: the chain of eight `to_be_bytes`. */
  function ChromaticitiesAsBytes(c: ChunkChromaticities): (r: seq<u8>)
    ensures |r| == 32
  {
    BeBytes(c.whitePointX) + BeBytes(c.whitePointY)
      + BeBytes(c.redX) + BeBytes(c.redY)
      + BeBytes(c.greenX) + BeBytes(c.greenY)
      + BeBytes(c.blueX) + BeBytes(c.blueY)
  }

  /** Field k (white x, white y, red x, red y, green x, green y, blue x, blue y) sits
      big-endian at bytes 4k..4k+4, and reading those bytes back yields it. */
  lemma FieldAt(c: ChunkChromaticities, k: nat)
    requires k < 8
    ensures ChromaticitiesAsBytes(c)[4 * k .. 4 * k + 4] == BeBytes(Fields(c)[k])
    ensures BeU32(ChromaticitiesAsBytes(c)[4 * k .. 4 * k + 4]) == Fields(c)[k]
  {
    var r := ChromaticitiesAsBytes(c);
    var f := Fields(c);
    assert r == BeBytes(f[0]) + BeBytes(f[1]) + BeBytes(f[2]) + BeBytes(f[3])
      + BeBytes(f[4]) + BeBytes(f[5]) + BeBytes(f[6]) + BeBytes(f[7]);
    BeU32OfBeBytes(f[k]);
  }
}
