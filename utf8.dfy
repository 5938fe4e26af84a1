/** UTF-8 as Rust's `String` uses it: the validity check of `String::from_utf8` and
    the byte view of a `&str` (`str::len`, `str::bytes`). */
module Utf8 {
  import opened ByteOrder

  predicate IsContinuation(b: u8) { 0x80 <= b <= 0xBF }

  /** Well-formed UTF-8 (the Unicode Standard, Table 3-7): no overlong forms,
      no surrogates, nothing above U+10FFFF. */
  predicate ValidUtf8(s: seq<u8>)
    decreases |s|
  {
    if s == [] then true
    else
      var b := s[0];
      if b < 0x80 then ValidUtf8(s[1..])
      else if 0xC2 <= b <= 0xDF then
        |s| >= 2 && IsContinuation(s[1]) && ValidUtf8(s[2..])
      else if 0xE0 <= b <= 0xEF then
        |s| >= 3
        && (if b == 0xE0 then 0xA0 <= s[1] <= 0xBF
            else if b == 0xED then 0x80 <= s[1] <= 0x9F
            else IsContinuation(s[1]))
        && IsContinuation(s[2]) && ValidUtf8(s[3..])
      else if 0xF0 <= b <= 0xF4 then
        |s| >= 4
        && (if b == 0xF0 then 0x90 <= s[1] <= 0xBF
            else if b == 0xF4 then 0x80 <= s[1] <= 0x8F
            else IsContinuation(s[1]))
        && IsContinuation(s[2]) && IsContinuation(s[3]) && ValidUtf8(s[4..])
      else false
  }

  /** Every byte sequence below 0x80 is valid UTF-8. */
  lemma {:induction false} AsciiIsValidUtf8(s: seq<u8>)
    requires forall i | 0 <= i < |s| :: s[i] < 0x80
    ensures ValidUtf8(s)
  {
    if s != [] {
      AsciiIsValidUtf8(s[1..]);
    }
  }

  /** The UTF-8 encoding of one Unicode scalar value. */
  function EncodeChar(c: char): (r: seq<u8>)
    ensures 1 <= |r| <= 4
    ensures (c as int < 0x80) == (|r| == 1)
    ensures c as int < 0x80 ==> r == [c as int]
    ensures c as int >= 0x80 ==> r[0] >= 0xC0
  {
    var n := c as int;
    if n < 0x80 then [n]
    else if n < 0x800 then [0xC0 + n / 0x40, 0x80 + n % 0x40]
    else if n < 0x1_0000 then [0xE0 + n / 0x1000, 0x80 + (n / 0x40) % 0x40, 0x80 + n % 0x40]
    else [0xF0 + n / 0x4_0000, 0x80 + (n / 0x1000) % 0x40, 0x80 + (n / 0x40) % 0x40, 0x80 + n % 0x40]
  }

  /** The bytes of a Rust `&str` holding the characters `s`. */
  function Encode(s: string): (r: seq<u8>)
    ensures |r| >= |s|
  {
    if s == [] then [] else EncodeChar(s[0]) + Encode(s[1..])
  }

  /** When no byte of the encoding is 0x80 or above, the string is ASCII and its
      bytes are its character codes, one per character. */
  lemma {:induction false} EncodeAscii(s: string)
    requires forall i | 0 <= i < |Encode(s)| :: Encode(s)[i] < 0x80
    ensures |Encode(s)| == |s|
    ensures forall i | 0 <= i < |s| :: Encode(s)[i] == s[i] as int
  {
    if s != [] {
      var e := Encode(s);
      var head := EncodeChar(s[0]);
      assert e == head + Encode(s[1..]);
      assert e[0] == head[0];
      assert s[0] as int < 0x80;
      forall i | 0 <= i < |Encode(s[1..])| ensures Encode(s[1..])[i] < 0x80 {
        assert Encode(s[1..])[i] == e[i + 1];
      }
      EncodeAscii(s[1..]);
      forall i | 0 <= i < |s| ensures e[i] == s[i] as int {
        if i > 0 { assert e[i] == Encode(s[1..])[i - 1]; }
      }
    }
  }
}
