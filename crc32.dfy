/** CRC-32/ISO-HDLC (section 5.5 of the PNG Specification, ISO/IEC 15948), the checksum
    the `crc` crate computes for `CRC_32_ISO_HDLC`: reflected polynomial 0xEDB88320,
    initial register 0xFFFFFFFF, final XOR 0xFFFFFFFF, processed one bit at a time. */
module Crc32 {
  import opened ByteOrder

  const POLYNOMIAL: bv32 := 0xEDB8_8320

  /** One shift of the reflected register: shift right, then XOR the polynomial in
      when the bit shifted out was 1 (the mask is all ones exactly then). */
  function ShiftBit(reg: bv32): bv32
  {
    (reg >> 1) ^ (POLYNOMIAL & (0 - (reg & 1)))
  }

  function ShiftBits(reg: bv32, n: nat): bv32
    decreases n
  {
    if n == 0 then reg else ShiftBits(ShiftBit(reg), n - 1)
  }

  /** Feed one byte, least significant bit first. */
  function UpdateByte(reg: bv32, b: u8): bv32
  {
    ShiftBits(reg ^ (b as bv32), 8)
  }

  /** Feed a byte sequence. */
  function Update(reg: bv32, data: seq<u8>): bv32
    decreases |data|
  {
    if data == [] then reg else Update(UpdateByte(reg, data[0]), data[1..])
  }

  function ToU32(x: bv32): u32
  {
    x as int
  }

  /** The CRC of `data`. */
  function Checksum(data: seq<u8>): (r: u32)
  {
    ToU32(Update(0xFFFF_FFFF, data) ^ 0xFFFF_FFFF)
  }

  /** The register can be fed in pieces: feeding `a ++ b` is feeding `a`, then `b`. */
  lemma {:induction false} UpdateAppend(reg: bv32, a: seq<u8>, b: seq<u8>)
    ensures Update(reg, a + b) == Update(Update(reg, a), b)
    decreases |a|
  {
    if a == [] {
      assert a + b == b;
    } else {
      assert (a + b)[0] == a[0] && (a + b)[1..] == a[1..] + b;
      UpdateAppend(UpdateByte(reg, a[0]), a[1..], b);
    }
  }

  lemma EmptyChecksum()
    ensures Checksum([]) == 0
  {
  }

  /** Known answer: the CRC of the single byte 0x00 is 0xD202EF8D. */
  lemma ZeroByteChecksum()
    ensures Checksum([0]) == 0xD202_EF8D
  {
    assert 0xFFFF_FFFF ^ (0 as bv32) == 0xFFFF_FFFF && ShiftBits(0xFFFF_FFFF, 8) == 0x2DFD_1072;
  }

  /** Known answer: the CRC of the single byte 0x61 ("a") is 0xE8B7BE43. A non-zero byte
      fixes how an input byte enters the register: least significant bit first, into the
      low end. */
  lemma LetterChecksum()
    ensures Checksum([0x61]) == 0xE8B7_BE43
  {
    LetterByte();
    assert Update(0xFFFF_FFFF, [0x61]) == 0x1748_41BC;
  }

  /** The register after the byte 0x61, starting from all ones. */
  lemma LetterByte()
    ensures UpdateByte(0xFFFF_FFFF, 0x61) == 0x1748_41BC
  {
    assert 0xFFFF_FFFF ^ (0x61 as bv32) == 0xFFFF_FF9E;
    LetterRegister();
  }

  /** The eight shifts of the register once 0x61 has been XORed into all ones. */
  lemma LetterRegister()
    ensures ShiftBits(0xFFFF_FF9E, 8) == 0x1748_41BC
  {
  }
}
