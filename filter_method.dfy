/** Reversal of the scanline filters, in place (png/src/filter_method.rs; section 9.2 of
    the PNG Specification, Paeth in section 9.4). The code as written differs from the
    standard: the left neighbour is always the previous byte, and the Paeth predictor
    returns `b` where the standard returns `a`. Overflowing byte sums wrap, as
    `wrapping_add` and the `as u8` truncation do; `i - 1` at `i = 0` wraps as in a
    release build, so `get` yields `None` and the neighbour reads as 0. */
module FilterMethods {
  import opened ByteOrder

  const USIZE_MODULUS: int := 0x1_0000_0000_0000_0000

  /** `u8::wrapping_add`. */
  function WrappingAdd(x: u8, y: u8): u8
  {
    (x + y) % 256
  }

  /** `usize` subtraction, wrapping as in a release build. */
  function WrappingSubUsize(x: nat, y: nat): nat
    requires x < USIZE_MODULUS && y < USIZE_MODULUS
  {
    (x - y) % USIZE_MODULUS
  }

  /** `slice.get(j).unwrap_or(&0)`. */
  function GetOrZero(s: seq<u8>, j: nat): u8
  {
    if j < |s| then s[j] else 0
  }

  /** The sum of a byte sequence, as an unbounded integer. */
  function Sum(s: seq<u8>): int
  {
    if s == [] then 0 else Sum(s[..|s| - 1]) + s[|s| - 1]
  }

  /** The scanline after reversing the Sub filter: each byte plus the already
      reconstructed byte to its left; the first byte stays. */
  function Unsub(s: seq<u8>): (r: seq<u8>)
    ensures |r| == |s|
  {
    if |s| <= 1 then s
    else
      var done := Unsub(s[..|s| - 1]);
      done + [WrappingAdd(s[|s| - 1], done[|s| - 2])]
  }

  /** After reversing Sub, byte 0 is unchanged and byte i is `old[i] + new[i-1]` modulo 256. */
  lemma {:induction false} UnsubAt(s: seq<u8>, i: nat)
    requires i < |s|
    ensures Unsub(s)[i] == if i == 0 then s[0] else WrappingAdd(s[i], Unsub(s)[i - 1])
  {
    var n := |s|;
    if n > 1 {
      var done := Unsub(s[..n - 1]);
      assert Unsub(s) == done + [WrappingAdd(s[n - 1], done[n - 2])];
      assert i > 0 ==> Unsub(s)[i - 1] == done[i - 1];
      if i < n - 1 {
        UnsubAt(s[..n - 1], i);
        assert Unsub(s)[i] == done[i];
      }
    }
  }

  /** After reversing Sub, byte i is the sum of the original bytes 0..=i, modulo 256;
      in particular byte 0 is unchanged. */
  lemma {:induction false} UnsubIsPrefixSum(s: seq<u8>, i: nat)
    requires i < |s|
    ensures Unsub(s)[i] == Sum(s[..i + 1]) % 256
  {
    UnsubAt(s, i);
    if i == 0 {
      assert s[..1] == [s[0]] && s[..1][..0] == [];
    } else {
      UnsubIsPrefixSum(s, i - 1);
      assert s[..i + 1][..i] == s[..i];
      var prefix := Sum(s[..i]);
      assert Sum(s[..i + 1]) == prefix + s[i];
      ModAddLeft(prefix, s[i]);
    }
  }

  /** Reducing one addend modulo 256 first does not change the sum modulo 256. */
  lemma ModAddLeft(x: int, y: int)
    ensures (x % 256 + y) % 256 == (x + y) % 256
  {
    var z := x + y;
    var q := x / 256;
    assert x % 256 + y == z - q * 256;
    DivModUnique(z - q * 256, 256, z / 256 - q, z % 256);
  }

  /** `reverse_sub_filter`. */
  method ReverseSubFilter(scanline: array<u8>)
    modifies scanline
    ensures scanline[..] == Unsub(old(scanline[..]))
  {
    ghost var s := scanline[..];
    ghost var target := Unsub(s);
    if scanline.Length > 0 {
      UnsubAt(s, 0);
    }
    var i := 1;
    while i < scanline.Length
      invariant 1 <= i
      invariant scanline.Length > 0 ==> i <= scanline.Length
      invariant forall j | 0 <= j < i && j < scanline.Length :: scanline[j] == target[j]
      invariant forall j | i <= j < scanline.Length :: scanline[j] == s[j]
    {
      UnsubAt(s, i);
      assert WrappingAdd(scanline[i], scanline[i - 1]) == target[i];
      scanline[i] := WrappingAdd(scanline[i], scanline[i - 1]);
      i := i + 1;
    }
    assert scanline[..] == target;
  }

  /** The scanline after reversing the Up filter: each byte plus the byte above it. */
  function Unup(s: seq<u8>, prev: seq<u8>): (r: seq<u8>)
    requires |s| <= |prev|
    ensures |r| == |s|
    ensures forall i | 0 <= i < |s| :: r[i] == (s[i] as int + prev[i]) % 256
  {
    seq(|s|, i requires 0 <= i < |s| => WrappingAdd(s[i], prev[i]))
  }

  /** Reversing Up against an all-zero previous row changes nothing. */
  lemma UnupZeroRow(s: seq<u8>, prev: seq<u8>)
    requires |s| <= |prev|
    requires forall i | 0 <= i < |prev| :: prev[i] == 0
    ensures Unup(s, prev) == s
  {
  }

  /** `reverse_up_filter`; indexing `prev_scanline[i]` requires it to be at least as long. */
  method ReverseUpFilter(scanline: array<u8>, prev: seq<u8>)
    requires |prev| >= scanline.Length
    modifies scanline
    ensures scanline[..] == Unup(old(scanline[..]), prev)
  {
    ghost var s := scanline[..];
    for i := 0 to scanline.Length
      invariant forall j | 0 <= j < i :: scanline[j] == WrappingAdd(s[j], prev[j])
      invariant forall j | i <= j < scanline.Length :: scanline[j] == s[j]
    {
      scanline[i] := WrappingAdd(scanline[i], prev[i]);
    }
  }

  /** One Average step: `(a + ((b + c) / 2)) as u8` computed in `u16`. */
  function AverageStep(x: u8, above: u8, left: u8): u8
  {
    (x + (above + left) / 2) % 256
  }

  /** The scanline after reversing the Average filter. */
  function Unaverage(s: seq<u8>, prev: seq<u8>): (r: seq<u8>)
    requires |s| <= |prev|
    ensures |r| == |s|
  {
    if s == [] then []
    else
      var i := |s| - 1;
      var done := Unaverage(s[..i], prev);
      done + [AverageStep(s[i], prev[i], if i > 0 then done[i - 1] else 0)]
  }

  /** Byte i after reversing Average is `(old[i] + (prev[i] + new[i-1]) div 2) mod 256`,
      with `new[-1] = 0`. */
  lemma {:induction false} UnaverageAt(s: seq<u8>, prev: seq<u8>, i: nat)
    requires |s| <= |prev| && i < |s|
    ensures Unaverage(s, prev)[i] == AverageStep(s[i], prev[i], if i > 0 then Unaverage(s, prev)[i - 1] else 0)
  {
    var n := |s|;
    var done := Unaverage(s[..n - 1], prev);
    assert Unaverage(s, prev) == done + [AverageStep(s[n - 1], prev[n - 1], if n - 1 > 0 then done[n - 2] else 0)];
    assert i > 0 ==> Unaverage(s, prev)[i - 1] == done[i - 1];
    if i < n - 1 {
      UnaverageAt(s[..n - 1], prev, i);
      assert Unaverage(s, prev)[i] == done[i];
    }
  }

  /** `reverse_average_filter`. */
  method ReverseAverageFilter(scanline: array<u8>, prev: seq<u8>)
    requires |prev| >= scanline.Length
    modifies scanline
    ensures scanline[..] == Unaverage(old(scanline[..]), prev)
  {
    ghost var s := scanline[..];
    ghost var target := Unaverage(s, prev);
    for i := 0 to scanline.Length
      invariant forall j | 0 <= j < i :: scanline[j] == target[j]
      invariant forall j | i <= j < scanline.Length :: scanline[j] == s[j]
    {
      UnaverageAt(s, prev, i);
      var a: u16 := scanline[i];
      var b: u16 := prev[i];
      var c: u16 := if i > 0 then scanline[i - 1] else 0;
      assert (a + (b + c) / 2) % 256 == target[i];
      scanline[i] := (a + (b + c) / 2) % 256;
    }
    assert scanline[..] == target;
  }

  function Abs(x: int): nat { if x < 0 then -x else x }

  /** `predict_paeth`, as written: it returns `b` in the branch where the Paeth
      predictor of section 9.4 returns `a`. */
  function PredictPaeth(a: u8, b: u8, c: u8): (r: u8)
    ensures r == b || r == c
  {
    var p := a as int + b as int - c as int;
    var pa := Abs(p - a);
    var pb := Abs(p - b);
    var pc := Abs(p - c);
    if pa <= pb && pa <= pc then b
    else if pb <= pc then b
    else c
  }

  /** Where `a` is strictly nearest to `p = a + b - c` the predictor still gives `b`:
      with a = 1, b = 0, c = 0 it gives 0 where section 9.4 gives 1. */
  lemma PredictPaethPassesOverLeft(a: u8, b: u8, c: u8)
    requires Abs(b - c) < Abs(a - c) && Abs(b - c) < Abs(a + b - 2 * c)
    ensures PredictPaeth(a, b, c) == b
    ensures PredictPaeth(1, 0, 0) == 0
  {
  }

  /** The scanline after reversing the Paeth filter as written, with neighbours outside
      the scanline read as 0. */
  function Unpaeth(s: seq<u8>, prev: seq<u8>): (r: seq<u8>)
    requires |s| <= |prev|
    ensures |r| == |s|
  {
    if s == [] then []
    else
      var i := |s| - 1;
      var done := Unpaeth(s[..i], prev);
      var left := if i > 0 then done[i - 1] else 0;
      var upLeft := if i > 0 then prev[i - 1] else 0;
      done + [WrappingAdd(s[i], PredictPaeth(left, prev[i], upLeft))]
  }

  /** Byte i after reversing Paeth is `old[i] + predict_paeth(new[i-1], prev[i], prev[i-1])`
      modulo 256, with the neighbours at index -1 read as 0. */
  lemma {:induction false} UnpaethAt(s: seq<u8>, prev: seq<u8>, i: nat)
    requires |s| <= |prev| && i < |s|
    ensures Unpaeth(s, prev)[i] ==
      WrappingAdd(s[i], PredictPaeth(if i > 0 then Unpaeth(s, prev)[i - 1] else 0, prev[i],
                                     if i > 0 then prev[i - 1] else 0))
  {
    var n := |s|;
    var done := Unpaeth(s[..n - 1], prev);
    var left := if n - 1 > 0 then done[n - 2] else 0;
    var upLeft := if n - 1 > 0 then prev[n - 2] else 0;
    assert Unpaeth(s, prev) == done + [WrappingAdd(s[n - 1], PredictPaeth(left, prev[n - 1], upLeft))];
    assert i > 0 ==> Unpaeth(s, prev)[i - 1] == done[i - 1];
    if i < n - 1 {
      UnpaethAt(s[..n - 1], prev, i);
      assert Unpaeth(s, prev)[i] == done[i];
    }
  }

  /** `reverse_paeth_filter`. */
  method ReversePaethFilter(scanline: array<u8>, prev: seq<u8>)
    requires |prev| >= scanline.Length
    requires scanline.Length < USIZE_MODULUS && |prev| < USIZE_MODULUS
    modifies scanline
    ensures scanline[..] == Unpaeth(old(scanline[..]), prev)
  {
    ghost var s := scanline[..];
    ghost var target := Unpaeth(s, prev);
    for i := 0 to scanline.Length
      invariant forall j | 0 <= j < i :: scanline[j] == target[j]
      invariant forall j | i <= j < scanline.Length :: scanline[j] == s[j]
    {
      UnpaethAt(s, prev, i);
      var j := WrappingSubUsize(i, 1);
      assert j == if i > 0 then i - 1 else USIZE_MODULUS - 1;
      var a := if j < scanline.Length then scanline[j] else 0;
      var b := prev[i];
      var c := GetOrZero(prev, j);
      var p := PredictPaeth(a, b, c);
      assert a == if i > 0 then target[i - 1] else 0;
      assert c == if i > 0 then prev[i - 1] else 0;
      assert WrappingAdd(scanline[i], p) == target[i];
      scanline[i] := WrappingAdd(scanline[i], p);
    }
    assert scanline[..] == target;
  }
}
