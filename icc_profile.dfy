/** The iCCP payload (png/src/chunk/icc_profile.rs; section 11.3.3.3 of the PNG Specification). */
module IccProfileChunk {
  import opened ByteOrder
  import opened Wrappers
  import opened Utf8

  /** `ChunkICCProfile`: profile name (a `String`, held as its UTF-8 bytes), compression
      method and compressed profile. */
  datatype ChunkIccProfile = ChunkIccProfile(
    profileName: seq<u8>, compressionMethod: u8, compressionProfile: seq<u8>)

  /** The source's `&'static str` errors. */
  datatype IccError =
    | MissingSeparator     // "Cannot determine null separator position"
    | SeparatorAtStart     // "Invalid null separator position at 0"
    | ProfileNameTooLong   // "Profile name out of range"

  /** `ChunkICCProfile::try_from(&Vec<u8>)`. Two `unwrap`s can panic: on a name that is
      not UTF-8, and on a separator that is the last byte. As written, the profile is
      every byte from `end + 1` on, so it starts with the compression method byte. */
  function IccFromBytes(bytes: seq<u8>): (r: Outcome<ChunkIccProfile, IccError>)
    ensures FirstZero(bytes).None? ==> r == Returned(Err(MissingSeparator))
    ensures FirstZero(bytes) == Some(0) ==> r == Returned(Err(SeparatorAtStart))
    ensures FirstZero(bytes).Some? && FirstZero(bytes).value > 79 ==> r == Returned(Err(ProfileNameTooLong))
  {
    match FirstZero(bytes)
    case None => Returned(Err(MissingSeparator))
    case Some(end) =>
      if end == 0 then Returned(Err(SeparatorAtStart))
      else if end > 79 then Returned(Err(ProfileNameTooLong))
      else if !ValidUtf8(bytes[0..end]) then Panicked(UnwrapOnErr)
      else if end + 1 >= |bytes| then Panicked(UnwrapOnNone)
      else Returned(Ok(ChunkIccProfile(bytes[0..end], bytes[end + 1], bytes[end + 1..])))
  }

  /** `ChunkICCProfile::as_bytes`: name, zero, compression method, profile. */
  function IccAsBytes(p: ChunkIccProfile): (r: seq<u8>)
    ensures |r| == |p.profileName| + 2 + |p.compressionProfile|
  {
    p.profileName + [0] + [p.compressionMethod] + p.compressionProfile
  }

  /** What an accepted payload decodes to: a UTF-8 name of 1 to 79 bytes before the first
      zero, the byte after that zero as the compression method, and every byte from the
      method on as the profile, so the profile starts with the method byte. */
  lemma DecodedParts(bytes: seq<u8>)
    requires IccFromBytes(bytes).Returned? && IccFromBytes(bytes).result.Ok?
    ensures var p := IccFromBytes(bytes).result.value;
      var end := |p.profileName|;
      && 1 <= end <= 79 && end + 1 < |bytes|
      && FirstZero(bytes) == Some(end)
      && p.profileName == bytes[..end] && ValidUtf8(p.profileName)
      && p.compressionMethod == bytes[end + 1]
      && p.compressionProfile == bytes[end + 1..]
      && p.compressionProfile[0] == p.compressionMethod
  {
  }

  /** The two panics: a name that is not UTF-8, and a separator in the last position. */
  lemma Panics(bytes: seq<u8>, end: nat)
    requires FirstZero(bytes) == Some(end) && 1 <= end <= 79
    ensures !ValidUtf8(bytes[..end]) ==> IccFromBytes(bytes) == Panicked(UnwrapOnErr)
    ensures ValidUtf8(bytes[..end]) && end == |bytes| - 1 ==> IccFromBytes(bytes) == Panicked(UnwrapOnNone)
  {
  }

  /** Re-encoding a decoded payload is not a round trip: the compression method byte
      is written twice, so the output is the input with that byte duplicated, one byte
      longer. */
  lemma ReencodeDuplicatesMethod(bytes: seq<u8>)
    requires IccFromBytes(bytes).Returned? && IccFromBytes(bytes).result.Ok?
    ensures var end := FirstZero(bytes).value;
      IccAsBytes(IccFromBytes(bytes).result.value) == bytes[..end + 2] + bytes[end + 1..]
    ensures |IccAsBytes(IccFromBytes(bytes).result.value)| == |bytes| + 1
    ensures IccAsBytes(IccFromBytes(bytes).result.value) != bytes
  {
    var end := FirstZero(bytes).value;
    assert bytes[..end + 2] == bytes[..end] + [0] + [bytes[end + 1]];
  }
}
