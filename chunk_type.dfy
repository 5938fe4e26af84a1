/** The four-byte chunk type and the property bits carried by the case of its letters
    (png/src/chunk/chunk_type.rs; section 5.4 of the PNG Specification). */
module ChunkTypes {
  import opened ByteOrder
  import opened Wrappers
  import opened Errors
  import Utf8

  /** Four bytes, Rust's `[u8; 4]`. */
  type Bytes4 = s: seq<u8> | |s| == 4 witness [0, 0, 0, 0]

  /** `ChunkType([u8; 4])`. Equality is byte equality. */
  datatype ChunkType = ChunkType(bytes: Bytes4)

  predicate IsUpper(w: u8) { 65 <= w <= 90 }
  predicate IsLower(w: u8) { 97 <= w <= 122 }

  /** `is_valid_word`: rejects below 65, between 90 and 97, and above 122. */
  function IsValidWord(w: u8): (r: bool)
    ensures r <==> IsUpper(w) || IsLower(w)
  {
    if w < 65 then false
    else if 90 < w < 97 then false
    else if w > 122 then false
    else true
  }

  /** `bit_5_of`: `(val >> 5) & 1`. */
  function BitFiveOf(val: u8): (r: u8)
    ensures r <= 1
  {
    (((val as bv8) >> 5) & 1) as int
  }

  /** For a letter, bit 5 is the case bit: 0 for upper case, 1 for lower case. */
  lemma BitFiveIsCase(w: u8)
    requires IsValidWord(w)
    ensures BitFiveOf(w) == 0 <==> IsUpper(w)
    ensures BitFiveOf(w) == 1 <==> IsLower(w)
  {
    var b := w as bv8;
    if IsUpper(w) {
      assert 65 <= b <= 90;
      assert (b >> 5) & 1 == 0;
    } else {
      assert 97 <= b <= 122;
      assert (b >> 5) & 1 == 1;
    }
  }

  /** Every byte of the tag is an ASCII letter. */
  predicate AllLetters(b: seq<u8>)
  {
    forall i | 0 <= i < |b| :: IsValidWord(b[i])
  }

  /** `ChunkType::try_from([u8; 4])`, as a value. */
  function ChunkTypeFromBytes(value: Bytes4): (r: Result<ChunkType, PngError>)
    ensures r.Ok? <==> forall i | 0 <= i < 4 :: 65 <= value[i] <= 90 || 97 <= value[i] <= 122
    ensures r.Ok? ==> r.value.bytes == value
    ensures r.Err? ==> r.error == ChunkTypeParseError
  {
    if AllLetters(value) then Ok(ChunkType(value)) else Err(ChunkTypeParseError)
  }

  /** `ChunkType::try_from([u8; 4])`: the validation loop of the source. */
  method TryFrom(value: Bytes4) returns (r: Result<ChunkType, PngError>)
    ensures r == ChunkTypeFromBytes(value)
  {
    for i := 0 to 4
      invariant forall j | 0 <= j < i :: IsValidWord(value[j])
    {
      if !IsValidWord(value[i]) {
        return Err(ChunkTypeParseError);
      }
    }
    return Ok(ChunkType(value));
  }

  /** `ChunkType::from_str`, as a value: the string must be exactly four bytes long and
      each byte must be a letter. */
  function ChunkTypeFromStr(s: string): (r: Result<ChunkType, PngError>)
    ensures r.Err? ==> r.error == ChunkParseError
  {
    var b := Utf8.Encode(s);
    if |b| != 4 then Err(ChunkParseError)
    else if AllLetters(b) then Ok(ChunkType(b))
    else Err(ChunkParseError)
  }

  /** `ChunkType::from_str`: the length check, then the loop that copies each checked byte. */
  method FromStr(s: string) returns (r: Result<ChunkType, PngError>)
    ensures r == ChunkTypeFromStr(s)
  {
    var bytes := Utf8.Encode(s);
    if |bytes| != 4 {
      return Err(ChunkParseError);
    }
    var v := new u8[4](_ => 0);
    for i := 0 to 4
      invariant forall j | 0 <= j < i :: IsValidWord(bytes[j]) && v[j] == bytes[j]
    {
      if !IsValidWord(bytes[i]) {
        return Err(ChunkParseError);
      }
      v[i] := bytes[i];
    }
    assert v[..] == bytes;
    return Ok(ChunkType(v[..]));
  }

  /** `ChunkType::bytes`. */
  function Bytes(t: ChunkType): (r: Bytes4)
  {
    t.bytes
  }

  /** `ChunkType::is_critical`: the ancillary bit, bit 5 of byte 0, is clear. */
  function IsCritical(t: ChunkType): bool { BitFiveOf(t.bytes[0]) == 0 }

  /** `ChunkType::is_public`: the private bit, bit 5 of byte 1, is clear. */
  function IsPublic(t: ChunkType): bool { BitFiveOf(t.bytes[1]) == 0 }

  /** `ChunkType::is_reserved_bit_valid`: the reserved bit, bit 5 of byte 2, is clear. */
  function IsReservedBitValid(t: ChunkType): bool { BitFiveOf(t.bytes[2]) == 0 }

  /** `ChunkType::is_safe_to_copy`: the safe-to-copy bit, bit 5 of byte 3, is set. */
  function IsSafeToCopy(t: ChunkType): bool { BitFiveOf(t.bytes[3]) == 1 }

  /** `ChunkType::is_valid`: an early return when the reserved bit is set. */
  function IsValid(t: ChunkType): bool
  {
    if BitFiveOf(t.bytes[2]) != 0 then false else true
  }

  /** `Display for ChunkType`: each byte becomes the character with that code. */
  function ToString(t: ChunkType): (r: string)
    ensures |r| == 4
  {
    seq(4, i requires 0 <= i < 4 => t.bytes[i] as char)
  }

  /** For a tag accepted by the parsers, each flag is the case of one letter:
      critical = byte 0 upper case, public = byte 1 upper case, reserved bit valid =
      byte 2 upper case, safe to copy = byte 3 lower case; `is_valid` is the reserved-bit test. */
  lemma FlagsAreLetterCase(t: ChunkType)
    requires AllLetters(t.bytes)
    ensures IsCritical(t) <==> IsUpper(t.bytes[0])
    ensures IsPublic(t) <==> IsUpper(t.bytes[1])
    ensures IsReservedBitValid(t) <==> IsUpper(t.bytes[2])
    ensures IsSafeToCopy(t) <==> IsLower(t.bytes[3])
    ensures IsValid(t) == IsReservedBitValid(t)
  {
    BitFiveIsCase(t.bytes[0]);
    BitFiveIsCase(t.bytes[1]);
    BitFiveIsCase(t.bytes[2]);
    BitFiveIsCase(t.bytes[3]);
  }

  /** A string is accepted exactly when it is four ASCII letters; the bytes of the tag
      are then the character codes. */
  lemma FromStrAcceptsFourLetters(s: string)
    ensures ChunkTypeFromStr(s).Ok? <==>
      |s| == 4 && forall i | 0 <= i < 4 :: 65 <= s[i] as int <= 90 || 97 <= s[i] as int <= 122
    ensures ChunkTypeFromStr(s).Ok? ==>
      forall i | 0 <= i < 4 :: ChunkTypeFromStr(s).value.bytes[i] == s[i] as int
  {
    var b := Utf8.Encode(s);
    if |b| == 4 && AllLetters(b) {
      Utf8.EncodeAscii(s);
    } else if |s| == 4 && forall i | 0 <= i < 4 :: 65 <= s[i] as int <= 90 || 97 <= s[i] as int <= 122 {
      AsciiEncoding(s);
      assert false;
    }
  }

  /** The encoding of a string of ASCII characters is their codes. */
  lemma {:induction false} AsciiEncoding(s: string)
    requires forall i | 0 <= i < |s| :: s[i] as int < 0x80
    ensures Utf8.Encode(s) == seq(|s|, i requires 0 <= i < |s| => s[i] as int)
  {
    if s != [] {
      AsciiEncoding(s[1..]);
    }
  }

  /** Rendering a tag parsed from `s` gives `s` back. */
  lemma DisplayRoundTrip(s: string)
    requires ChunkTypeFromStr(s).Ok?
    ensures ToString(ChunkTypeFromStr(s).value) == s
  {
    FromStrAcceptsFourLetters(s);
  }

  /** Rendering tells tags apart. */
  lemma ToStringInjective(t: ChunkType, u: ChunkType)
    ensures ToString(t) == ToString(u) ==> t == u
  {
    if ToString(t) == ToString(u) {
      forall i | 0 <= i < 4 ensures t.bytes[i] == u.bytes[i] {
        assert ToString(t)[i] == ToString(u)[i];
      }
    }
  }

  /** Parsing "RuSt" from text equals parsing the bytes 82, 117, 83, 116, and the tag is
      critical, private, reserved-bit valid and safe to copy. */
  lemma RuStExample()
    ensures ChunkTypeFromStr("RuSt") == ChunkTypeFromBytes([82, 117, 83, 116])
    ensures var t := ChunkTypeFromStr("RuSt").value;
      IsCritical(t) && !IsPublic(t) && IsReservedBitValid(t) && IsSafeToCopy(t) && IsValid(t)
  {
    FromStrAcceptsFourLetters("RuSt");
    var t := ChunkTypeFromStr("RuSt").value;
    assert t.bytes == [82, 117, 83, 116];
    FlagsAreLetterCase(t);
  }

  /** "Rust" parses, but its reserved bit is set, so it is not valid. */
  lemma RustIsInvalid()
    ensures ChunkTypeFromStr("Rust").Ok?
    ensures !IsValid(ChunkTypeFromStr("Rust").value) && !IsReservedBitValid(ChunkTypeFromStr("Rust").value)
  {
    FromStrAcceptsFourLetters("Rust");
    FlagsAreLetterCase(ChunkTypeFromStr("Rust").value);
  }

  /** "ruSt" parses and is ancillary. */
  lemma AncillaryExample()
    ensures ChunkTypeFromStr("ruSt").Ok? && !IsCritical(ChunkTypeFromStr("ruSt").value)
  {
    FromStrAcceptsFourLetters("ruSt");
    FlagsAreLetterCase(ChunkTypeFromStr("ruSt").value);
  }

  /** "RuST" parses and is unsafe to copy. */
  lemma UnsafeToCopyExample()
    ensures ChunkTypeFromStr("RuST").Ok? && !IsSafeToCopy(ChunkTypeFromStr("RuST").value)
  {
    FromStrAcceptsFourLetters("RuST");
    FlagsAreLetterCase(ChunkTypeFromStr("RuST").value);
  }

  /** "RUSt" parses and is public. */
  lemma PublicExample()
    ensures ChunkTypeFromStr("RUSt").Ok? && IsPublic(ChunkTypeFromStr("RUSt").value)
  {
    FromStrAcceptsFourLetters("RUSt");
    FlagsAreLetterCase(ChunkTypeFromStr("RUSt").value);
  }

  /** "Ru1t" does not parse: '1' is not a letter. */
  lemma DigitIsRejected()
    ensures ChunkTypeFromStr("Ru1t") == Err(ChunkParseError)
  {
    FromStrAcceptsFourLetters("Ru1t");
  }
}
