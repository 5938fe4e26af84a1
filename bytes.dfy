/** Unsigned machine integers, big-endian byte order and zero-byte search. */
module ByteOrder {
  import opened Wrappers

  const U32_MODULUS: int := 0x1_0000_0000

  type u8 = x: int | 0 <= x < 256
  type u16 = x: int | 0 <= x < 0x1_0000
  type u32 = x: int | 0 <= x < U32_MODULUS

  /** Rust's `u32::to_be_bytes`: most significant byte first. */
  function BeBytes(x: u32): (r: seq<u8>)
    ensures |r| == 4
  {
    [x / 0x100_0000, (x / 0x1_0000) % 256, (x / 0x100) % 256, x % 256]
  }

  /** Rust's `u32::from_be_bytes`. */
  function BeU32(b: seq<u8>): u32
    requires |b| == 4
  {
    b[0] as int * 0x100_0000 + b[1] as int * 0x1_0000 + b[2] as int * 0x100 + b[3] as int
  }

  /** A non-zero multiple of a positive `d` is at least `d` away from zero. */
  lemma MultipleBound(k: int, d: int)
    requires d > 0
    ensures k >= 1 ==> k * d >= d
    ensures k <= -1 ==> k * d <= -d
  {
    if k >= 1 {
      assert k * d == (k - 1) * d + d;
    } else if k <= -1 {
      assert k * d == (k + 1) * d - d;
    }
  }

  /** Quotient and remainder are determined by any decomposition `x == q * d + r` with `r` in range. */
  lemma DivModUnique(x: int, d: int, q: int, r: int)
    requires 0 < d && 0 <= r < d && x == q * d + r
    ensures x / d == q && x % d == r
  {
    var q', r' := x / d, x % d;
    assert (q - q') * d == r' - r;
    MultipleBound(q - q', d);
  }

  /** Reading back the big-endian bytes of `x` gives `x`. */
  lemma BeU32OfBeBytes(x: u32)
    ensures BeU32(BeBytes(x)) == x
  {
    var b0, r0 := x / 0x100_0000, x % 0x100_0000;
    var b1, r1 := r0 / 0x1_0000, r0 % 0x1_0000;
    var b2, b3 := r1 / 0x100, r1 % 0x100;
    assert r1 == b2 * 0x100 + b3;
    assert r0 == b1 * 0x1_0000 + r1;
    assert x == b0 * 0x100_0000 + r0;
    DivModUnique(x, 0x1_0000, b0 * 0x100 + b1, r1);
    DivModUnique(b0 * 0x100 + b1, 0x100, b0, b1);
    DivModUnique(x, 0x100, b0 * 0x1_0000 + b1 * 0x100 + b2, b3);
    DivModUnique(b0 * 0x1_0000 + b1 * 0x100 + b2, 0x100, b0 * 0x100 + b1, b2);
    assert BeBytes(x) == [b0, b1, b2, b3];
  }

  /** Writing back the big-endian value of four bytes gives the bytes. */
  lemma BeBytesOfBeU32(b: seq<u8>)
    requires |b| == 4
    ensures BeBytes(BeU32(b)) == b
  {
    var x := BeU32(b);
    var b0, b1, b2, b3 := b[0] as int, b[1] as int, b[2] as int, b[3] as int;
    var mid := b2 * 0x100 + b3;
    var high := b1 * 0x1_0000 + mid;
    assert x == b0 * 0x100_0000 + high;
    DivModUnique(x, 0x100_0000, b0, high);
    DivModUnique(x, 0x1_0000, b0 * 0x100 + b1, mid);
    DivModUnique(b0 * 0x100 + b1, 0x100, b0, b1);
    DivModUnique(x, 0x100, b0 * 0x1_0000 + b1 * 0x100 + b2, b3);
    DivModUnique(b0 * 0x1_0000 + b1 * 0x100 + b2, 0x100, b0 * 0x100 + b1, b2);
  }

  /** Distinct values have distinct big-endian encodings. */
  lemma BeBytesInjective(x: u32, y: u32)
    ensures BeBytes(x) == BeBytes(y) ==> x == y
  {
    BeU32OfBeBytes(x);
    BeU32OfBeBytes(y);
  }

  /** `s` followed by zero bytes up to length `n` (a zero-initialised Rust array filled from `s`). */
  function ZeroPadded(s: seq<u8>, n: nat): (r: seq<u8>)
    requires |s| <= n
    ensures |r| == n && r[..|s|] == s
    ensures forall i | |s| <= i < n :: r[i] == 0
  {
    s + seq(n - |s|, _ => 0)
  }

  /** The bytes of `s` from `start` on, at most `count` of them (Rust's `skip(start).take(count)`). */
  function SkipTake(s: seq<u8>, start: nat, count: nat): (r: seq<u8>)
    ensures |r| <= count
  {
    if start >= |s| then [] else if |s| - start <= count then s[start..] else s[start..start + count]
  }

  /** Rust's `iter().position(|&v| v == 0)`: the index of the first zero byte. */
  function FirstZero(s: seq<u8>): (r: Option<nat>)
    ensures r.Some? ==> r.value < |s| && s[r.value] == 0 && forall j | 0 <= j < r.value :: s[j] != 0
    ensures r.None? <==> forall j | 0 <= j < |s| :: s[j] != 0
  {
    if s == [] then None
    else if s[0] == 0 then Some(0)
    else match FirstZero(s[1..])
      case None => None
      case Some(p) => Some(p + 1)
  }

  /** The first zero byte of `a + [0] + b`, when `a` holds none, is the one after `a`. */
  lemma FirstZeroAfterPrefix(a: seq<u8>, b: seq<u8>)
    requires forall j | 0 <= j < |a| :: a[j] != 0
    ensures FirstZero(a + [0] + b) == Some(|a|)
  {
    var s := a + [0] + b;
    assert s[|a|] == 0;
    assert forall j | 0 <= j < |a| :: s[j] == a[j];
  }
}
