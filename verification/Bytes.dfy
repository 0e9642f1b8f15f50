/** Bytes, and unsigned integers laid out in bytes. */
module Bytes {

  type byte = x: int | 0 <= x < 256
  type bytes = seq<byte>

  const U16_LIMIT: nat := 0x1_0000
  const U32_LIMIT: nat := 0x1_0000_0000
  const U64_LIMIT: nat := 0x1_0000_0000_0000_0000

  type u32 = x: int | 0 <= x < U32_LIMIT
  type u64 = x: int | 0 <= x < U64_LIMIT

  type i32 = x: int | -0x8000_0000 <= x < 0x8000_0000

  /** What a Rust slice can hold: no allocation is longer than `isize::MAX` bytes. */
  const SLICE_LIMIT: nat := 0x8000_0000_0000_0000
  type slice = s: bytes | |s| < SLICE_LIMIT witness []

  datatype Option<+T> = None | Some(value: T)

  datatype Result<+T, +E> = Ok(value: T) | Err(error: E)

  function Zeros(n: nat): (s: bytes)
    ensures |s| == n
  {
    seq(n, i => 0)
  }

  lemma Associative(a: bytes, b: bytes, c: bytes)
    ensures a + b + c == a + (b + c)
  {
  }

  lemma Associative4(a: bytes, b: bytes, c: bytes, d: bytes)
    ensures a + b + c + d == a + (b + (c + d))
  {
  }

  /** How many values fit in `width` bytes. */
  function Capacity(width: nat): (c: nat)
    ensures c > 0
  {
    if width == 0 then 1 else 256 * Capacity(width - 1)
  }

  lemma Capacities()
    ensures Capacity(2) == U16_LIMIT && Capacity(4) == U32_LIMIT && Capacity(8) == U64_LIMIT
  {
    assert Capacity(1) == 256;
    assert Capacity(2) == 256 * Capacity(1);
    assert Capacity(3) == 256 * Capacity(2);
    assert Capacity(4) == 256 * Capacity(3);
    assert Capacity(5) == 256 * Capacity(4);
    assert Capacity(6) == 256 * Capacity(5);
    assert Capacity(7) == 256 * Capacity(6);
    assert Capacity(8) == 256 * Capacity(7);
  }

  lemma {:induction false} CapacityGrows(width: nat, wider: nat)
    requires width <= wider
    ensures Capacity(width) <= Capacity(wider)
    decreases wider
  {
    if width < wider {
      CapacityGrows(width, wider - 1);
    }
  }

  /** `n` as `width` bytes, least significant first; higher bytes of `n` are cut off. */
  function LittleEndian(n: nat, width: nat): (s: bytes)
    ensures |s| == width
    decreases width
  {
    if width == 0 then [] else [n % 256] + LittleEndian(n / 256, width - 1)
  }

  function LittleEndianValue(s: bytes): nat {
    if s == [] then 0 else s[0] + 256 * LittleEndianValue(s[1..])
  }

  /** Reading back yields what was written, whenever it fits. */
  lemma {:induction false} LittleEndianRoundTrip(n: nat, width: nat)
    requires n < Capacity(width)
    ensures LittleEndianValue(LittleEndian(n, width)) == n
    decreases width
  {
    if width > 0 {
      LittleEndianRoundTrip(n / 256, width - 1);
      assert LittleEndian(n, width)[1..] == LittleEndian(n / 256, width - 1);
    }
  }

  /** Writing back yields the bytes that were read. */
  lemma {:induction false} LittleEndianUnique(s: bytes)
    ensures LittleEndianValue(s) < Capacity(|s|)
    ensures LittleEndian(LittleEndianValue(s), |s|) == s
  {
    if s != [] {
      LittleEndianUnique(s[1..]);
      var rest := LittleEndianValue(s[1..]);
      assert LittleEndianValue(s) == s[0] + 256 * rest;
      assert LittleEndianValue(s) / 256 == rest && LittleEndianValue(s) % 256 == s[0];
    }
  }

  /** A two-byte integer, low byte first. */
  function Le16(low: int, high: int): int {
    low + 256 * high
  }

  lemma MulAtLeast(d: int, k: int)
    requires d >= 1 && k > 0
    ensures d * k >= k
  {
  }

  /** Quotient and remainder are unique. */
  lemma DivModUnique(a: int, b: int, k: int, r: int, t: int)
    requires 0 <= r < k && 0 <= t < k
    requires a * k + r == b * k + t
    ensures a == b && r == t
  {
    assert (a - b) * k == t - r && (b - a) * k == r - t;
    if a > b {
      MulAtLeast(a - b, k);
    } else if b > a {
      MulAtLeast(b - a, k);
    }
  }

  lemma DivMod(n: int, k: int)
    requires k > 0
    ensures n == (n / k) * k + n % k && 0 <= n % k < k
  {
  }

  lemma SmallMod(n: nat, k: nat)
    requires n < k
    ensures n % k == n
  {
  }

  /** A remainder does not change when the divisor is added once more. */
  lemma ModPlusDivisor(n: nat, k: nat)
    requires k > 0
    ensures (n + k) % k == n % k
  {
    DivMod(n + k, k);
    DivMod(n, k);
    var a, b, r, t := (n + k) / k, n / k, (n + k) % k, n % k;
    assert (b + 1) * k == b * k + k;
    DivModUnique(a, b + 1, k, r, t);
  }

  /** The same integers with the most significant byte first. */
  function BigEndian(n: nat, width: nat): (s: bytes)
    ensures |s| == width
    decreases width
  {
    if width == 0 then [] else BigEndian(n / 256, width - 1) + [n % 256]
  }

  function BigEndianValue(s: bytes): nat {
    if s == [] then 0 else 256 * BigEndianValue(s[..|s| - 1]) + s[|s| - 1]
  }

  lemma {:induction false} BigEndianRoundTrip(n: nat, width: nat)
    requires n < Capacity(width)
    ensures BigEndianValue(BigEndian(n, width)) == n
    decreases width
  {
    if width > 0 {
      BigEndianRoundTrip(n / 256, width - 1);
      assert BigEndian(n, width)[..width - 1] == BigEndian(n / 256, width - 1);
    }
  }

  lemma {:induction false} BigEndianUnique(s: bytes)
    ensures BigEndianValue(s) < Capacity(|s|) && BigEndian(BigEndianValue(s), |s|) == s
  {
    if s != [] {
      var front, last := s[..|s| - 1], s[|s| - 1];
      BigEndianUnique(front);
      ByteAppended(BigEndianValue(front), last);
      assert s == front + [last];
    }
  }

  lemma ByteAppended(high: nat, low: byte)
    ensures (256 * high + low) / 256 == high && (256 * high + low) % 256 == low
  {
  }
}
