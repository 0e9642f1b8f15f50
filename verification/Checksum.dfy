/**
 CRC32C. The table-driven loop is proved equal to the bit-by-bit division by the polynomial, and the
 properties that the stream layout relies on are derived from that: checksums chain, and for given
 bytes the checksum is one-to-one in its seed.
 */
module Checksum {
  import opened Bytes

  const POLYNOMIAL: u32 := 0x82f6_3b78

  // ---- Exclusive or, on the binary digits of naturals ----

  function Xor(a: nat, b: nat): nat
    decreases a + b
  {
    if a == 0 && b == 0 then 0 else 2 * Xor(a / 2, b / 2) + (if a % 2 == b % 2 then 0 else 1)
  }

  lemma XorHalves(a: nat, b: nat)
    ensures Xor(a, b) / 2 == Xor(a / 2, b / 2)
    ensures Xor(a, b) % 2 == if a % 2 == b % 2 then 0 else 1
  {
  }

  lemma {:induction false} XorZero(a: nat)
    ensures Xor(a, 0) == a
  {
    if a > 0 {
      XorZero(a / 2);
    }
  }

  lemma {:induction false} XorCommutes(a: nat, b: nat)
    ensures Xor(a, b) == Xor(b, a)
    decreases a + b
  {
    if a > 0 || b > 0 {
      XorCommutes(a / 2, b / 2);
    }
  }

  lemma {:induction false} XorAssociates(a: nat, b: nat, c: nat)
    ensures Xor(Xor(a, b), c) == Xor(a, Xor(b, c))
    decreases a + b + c
  {
    XorHalves(a, b);
    XorHalves(b, c);
    XorHalves(Xor(a, b), c);
    XorHalves(a, Xor(b, c));
    if a + b + c > 0 {
      XorAssociates(a / 2, b / 2, c / 2);
    } else {
      XorZero(0);
    }
  }

  lemma {:induction false} XorSelf(a: nat)
    ensures Xor(a, a) == 0
  {
    if a > 0 {
      XorSelf(a / 2);
    }
  }

  lemma XorInjective(x: nat, y: nat, w: nat)
    requires Xor(x, w) == Xor(y, w)
    ensures x == y
  {
    hide Xor;
    XorAssociates(x, w, w);
    XorAssociates(y, w, w);
    XorSelf(w);
    XorZero(x);
    XorZero(y);
  }

  /** Xoring `p` into either or both of two operands. */
  lemma XorMoves(x: nat, y: nat, p: nat)
    ensures Xor(x, Xor(y, p)) == Xor(Xor(x, y), p)
    ensures Xor(Xor(x, p), y) == Xor(Xor(x, y), p)
    ensures Xor(Xor(x, p), Xor(y, p)) == Xor(x, y)
  {
    hide Xor;
    XorAssociates(x, y, p);
    XorAssociates(x, p, y);
    XorCommutes(p, y);
    XorAssociates(Xor(x, p), y, p);
    XorAssociates(Xor(x, y), p, p);
    XorSelf(p);
    XorZero(Xor(x, y));
  }

  function Pow2(k: nat): (p: nat)
    ensures p > 0
  {
    if k == 0 then 1 else 2 * Pow2(k - 1)
  }

  lemma {:induction false} XorBelow(a: nat, b: nat, k: nat)
    requires a < Pow2(k) && b < Pow2(k)
    ensures Xor(a, b) < Pow2(k)
    decreases k
  {
    if k > 0 {
      XorBelow(a / 2, b / 2, k - 1);
      XorHalves(a, b);
    }
  }

  /** A top bit that only one operand has survives. */
  lemma {:induction false} XorTopBit(a: nat, b: nat, k: nat)
    requires a < Pow2(k) <= b < Pow2(k + 1)
    ensures Pow2(k) <= Xor(a, b) < Pow2(k + 1)
    decreases k
  {
    XorHalves(a, b);
    if k > 0 {
      XorTopBit(a / 2, b / 2, k - 1);
    } else {
      assert Pow2(1) == 2 && b == 1;
      XorZero(0);
    }
  }

  lemma Pow2Values()
    ensures Pow2(31) == 0x8000_0000 && Pow2(32) == U32_LIMIT
  {
    assert Pow2(4) == 16;
    Pow2Squares(4);
    Pow2Squares(8);
    Pow2Squares(16);
    assert Pow2(32) == 2 * Pow2(31);
  }

  lemma Pow2Squares(k: nat)
    ensures Pow2(k + k) == Pow2(k) * Pow2(k)
  {
    Pow2Adds(k, k);
  }

  lemma {:induction false} Pow2Adds(j: nat, k: nat)
    ensures Pow2(j + k) == Pow2(j) * Pow2(k)
    decreases j
  {
    if j > 0 {
      Pow2Adds(j - 1, k);
      assert Pow2(j + k) == 2 * Pow2(j - 1 + k);
    }
  }

  // ---- The definition: divide bit by bit ----

  function BitStep(e: nat): nat {
    if e % 2 == 1 then Xor(e / 2, POLYNOMIAL) else e / 2
  }

  lemma BitStepRange(e: u32)
    ensures BitStep(e) < U32_LIMIT
    ensures e % 2 == 1 <==> BitStep(e) >= 0x8000_0000
  {
    Pow2Values();
    if e % 2 == 1 {
      XorTopBit(e / 2, POLYNOMIAL, 31);
    }
  }

  function BitSteps(e: u32, count: nat): u32
    decreases count
  {
    if count == 0 then e else BitStepRange(e); BitSteps(BitStep(e), count - 1)
  }

  function XorByte(crc: u32, b: byte): u32 {
    Pow2Values();
    XorBelow(crc, b, 32);
    Xor(crc, b)
  }

  /** The register after one more byte. */
  function ByteStep(crc: u32, b: byte): u32 {
    BitSteps(XorByte(crc, b), 8)
  }

  /** The register after `s`, without the inversions at either end. */
  function Divide(crc: u32, s: bytes): u32
    decreases |s|
  {
    if s == [] then crc else Divide(ByteStep(crc, s[0]), s[1..])
  }

  function Not(x: u32): u32 {
    U32_LIMIT - 1 - x
  }

  function Crc32cUpdate(seed: u32, s: bytes): u32 {
    Not(Divide(Not(seed), s))
  }

  function Crc32c(s: bytes): u32 {
    Crc32cUpdate(0, s)
  }

  /** The stream's checksum: the same polynomial, no inversion. */
  function StreamCrc(seed: u32, s: bytes): u32 {
    Not(Crc32cUpdate(Not(seed), s))
  }

  // ---- Seeds ----

  lemma StreamCrcIsDivision(seed: u32, s: bytes)
    ensures StreamCrc(seed, s) == Divide(seed, s)
  {
    assert Not(Not(seed)) == seed;
  }

  lemma {:induction false} DivideChains(crc: u32, s: bytes, t: bytes)
    ensures Divide(Divide(crc, s), t) == Divide(crc, s + t)
    decreases |s|
  {
    hide ByteStep;
    if s == [] {
      assert s + t == t;
    } else {
      assert (s + t)[0] == s[0] && (s + t)[1..] == s[1..] + t;
      DivideChains(ByteStep(crc, s[0]), s[1..], t);
    }
  }

  /** A checksum may be accumulated piece by piece. */
  lemma StreamCrcChains(seed: u32, s: bytes, t: bytes)
    ensures StreamCrc(StreamCrc(seed, s), t) == StreamCrc(seed, s + t)
  {
    hide Divide;
    StreamCrcIsDivision(seed, s);
    StreamCrcIsDivision(seed, s + t);
    StreamCrcIsDivision(Divide(seed, s), t);
    DivideChains(seed, s, t);
  }

  /** The polynomial's top bit tells a step that divided from one that only shifted. */
  lemma BitStepInjective(x: u32, y: u32)
    requires BitStep(x) == BitStep(y)
    ensures x == y
  {
    BitStepRange(x);
    BitStepRange(y);
    if x % 2 == 1 {
      XorInjective(x / 2, y / 2, POLYNOMIAL);
    }
  }

  lemma {:induction false} BitStepsInjective(x: u32, y: u32, count: nat)
    requires BitSteps(x, count) == BitSteps(y, count)
    ensures x == y
    decreases count
  {
    if count > 0 {
      BitStepRange(x);
      BitStepRange(y);
      BitStepsInjective(BitStep(x), BitStep(y), count - 1);
      BitStepInjective(x, y);
    }
  }

  lemma ByteStepInjective(x: u32, y: u32, b: byte)
    requires ByteStep(x, b) == ByteStep(y, b)
    ensures x == y
  {
    hide BitSteps;
    BitStepsInjective(XorByte(x, b), XorByte(y, b), 8);
    XorInjective(x, y, b);
  }

  lemma {:induction false} DivideInjective(x: u32, y: u32, s: bytes)
    requires Divide(x, s) == Divide(y, s)
    ensures x == y
    decreases |s|
  {
    hide ByteStep;
    if s != [] {
      DivideInjective(ByteStep(x, s[0]), ByteStep(y, s[0]), s[1..]);
      ByteStepInjective(x, y, s[0]);
    }
  }

  /** Two seeds never give the same checksum over the same bytes. */
  lemma StreamCrcSeedMatters(seed: u32, other: u32, s: bytes)
    ensures StreamCrc(seed, s) == StreamCrc(other, s) <==> seed == other
  {
    hide Divide;
    StreamCrcIsDivision(seed, s);
    StreamCrcIsDivision(other, s);
    if StreamCrc(seed, s) == StreamCrc(other, s) {
      DivideInjective(seed, other, s);
    }
  }

  // ---- The table ----

  lemma BitStepLinear(x: nat, y: nat)
    ensures BitStep(Xor(x, y)) == Xor(BitStep(x), BitStep(y))
  {
    XorHalves(x, y);
    XorMoves(x / 2, y / 2, POLYNOMIAL);
  }

  lemma {:induction false} BitStepsLinear(x: u32, y: u32, z: u32, count: nat)
    requires z == Xor(x, y)
    ensures BitSteps(z, count) == Xor(BitSteps(x, count), BitSteps(y, count))
    decreases count
  {
    hide BitStep;
    if count > 0 {
      BitStepRange(x);
      BitStepRange(y);
      BitStepRange(z);
      BitStepLinear(x, y);
      BitStepsLinear(BitStep(x), BitStep(y), BitStep(z), count - 1);
    }
  }

  /** Bits above the low `count` only shift down. */
  lemma {:induction false} HighBitsShift(h: nat, count: nat)
    requires h * Pow2(count) < U32_LIMIT
    ensures BitSteps(h * Pow2(count), count) == h
    decreases count
  {
    if count == 0 {
      assert h * Pow2(0) == h;
    } else {
      var e := h * Pow2(count);
      assert e == 2 * (h * Pow2(count - 1));
      assert BitStep(e) == h * Pow2(count - 1);
      HighBitsShift(h, count - 1);
    }
  }

  /** Digits that do not overlap simply sit side by side. */
  lemma {:induction false} XorDisjoint(h: nat, low: nat, k: nat)
    requires low < Pow2(k)
    ensures Xor(h * Pow2(k), low) == h * Pow2(k) + low
    decreases k
  {
    if k == 0 {
      assert h * Pow2(0) == h && low == 0;
      XorZero(h);
    } else {
      var a := h * Pow2(k - 1);
      assert h * Pow2(k) == 2 * a;
      XorDisjoint(h, low / 2, k - 1);
      XorHalves(2 * a, low);
      assert Xor(2 * a, low) == 2 * Xor(a, low / 2) + low % 2;
    }
  }

  lemma DivDiv(n: nat)
    ensures n / 2 / 2 == n / 4 && n / 4 / 4 == n / 16 && n / 16 / 16 == n / 256
  {
  }

  lemma XorQuarters(a: nat, b: nat)
    ensures Xor(a, b) / 4 == Xor(a / 4, b / 4)
  {
    hide Xor;
    DivDiv(a);
    DivDiv(b);
    DivDiv(Xor(a, b));
    XorHalves(a, b);
    XorHalves(a / 2, b / 2);
  }

  lemma XorSixteenths(a: nat, b: nat)
    ensures Xor(a, b) / 16 == Xor(a / 16, b / 16)
  {
    hide Xor;
    DivDiv(a);
    DivDiv(b);
    DivDiv(Xor(a, b));
    XorQuarters(a, b);
    XorQuarters(a / 4, b / 4);
  }

  lemma ByteLeavesHighBits(crc: nat, b: byte)
    ensures Xor(crc, b) / 256 == crc / 256
  {
    hide Xor;
    DivDiv(crc);
    DivDiv(b);
    DivDiv(Xor(crc, b));
    XorSixteenths(crc, b);
    XorSixteenths(crc / 16, b / 16);
    XorZero(crc / 256);
  }

  /** One table look-up does the work of eight bit steps. */
  lemma TableStep(crc: u32, b: byte)
    ensures XorByte(crc, b) / 256 == crc / 256
    ensures Xor(crc / 256, BitSteps(XorByte(crc, b) % 256, 8)) == ByteStep(crc, b)
  {
    hide BitSteps;
    hide Xor;
    var c := XorByte(crc, b);
    var h, low := c / 256, c % 256;
    assert Pow2(8) == 256;
    ByteLeavesHighBits(crc, b);
    XorDisjoint(h, low, 8);
    BitStepsLinear(h * 256, low, c, 8);
    HighBitsShift(h, 8);
  }

  // ---- Short changes never go unseen ----

  lemma {:induction false} BitStepsAdd(e: u32, j: nat, k: nat)
    ensures BitSteps(BitSteps(e, j), k) == BitSteps(e, j + k)
    decreases j
  {
    hide BitStep;
    if j > 0 {
      BitStepRange(e);
      BitStepsAdd(BitStep(e), j - 1, k);
    }
  }

  function XorValue(crc: u32, s: bytes): u32
    requires |s| <= 4
  {
    LittleEndianUnique(s);
    Capacities();
    CapacityGrows(|s|, 4);
    Pow2Values();
    XorBelow(crc, LittleEndianValue(s), 32);
    Xor(crc, LittleEndianValue(s))
  }

  /** Up to four bytes act on the register as one number: they are xored in, then all their bits are stepped. */
  lemma {:induction false} DivideFew(crc: u32, s: bytes)
    requires |s| <= 4
    ensures Divide(crc, s) == BitSteps(XorValue(crc, s), 8 * |s|)
    decreases |s|
  {
    hide BitSteps;
    hide Xor;
    if s == [] {
      XorZero(crc);
      NoSteps(crc);
    } else {
      var b, rest := s[0], s[1..];
      DivideFew(ByteStep(crc, b), rest);
      FirstByte(crc, s);
      BitStepsAdd(XorValue(crc, s), 8, 8 * |rest|);
      assert 8 + 8 * |rest| == 8 * |s|;
    }
  }

  lemma NoSteps(e: u32)
    ensures BitSteps(e, 0) == e
  {
  }

  lemma FirstByte(crc: u32, s: bytes)
    requires 0 < |s| <= 4
    ensures BitSteps(XorValue(crc, s), 8) == XorValue(ByteStep(crc, s[0]), s[1..])
  {
    hide BitSteps;
    hide Xor;
    var b, v := s[0], LittleEndianValue(s[1..]);
    LittleEndianUnique(s);
    Capacities();
    CapacityGrows(|s|, 4);
    assert LittleEndianValue(s) == 256 * v + b;
    assert Pow2(8) == 256;
    XorDisjoint(v, b, 8);
    XorMoves(crc, 256 * v, b);
    XorMoves(crc, b, 256 * v);
    XorCommutes(256 * v, b);
    BitStepsLinear(XorByte(crc, b), 256 * v, XorValue(crc, s), 8);
    HighBitsShift(v, 8);
  }

  /** Replacing up to four neighbouring bytes by others always changes the checksum. */
  lemma BurstChangesCrc(seed: u32, before: bytes, a: bytes, b: bytes, after: bytes)
    requires |a| == |b| <= 4
    ensures StreamCrc(seed, before + a + after) == StreamCrc(seed, before + b + after) <==> a == b
  {
    hide Divide;
    hide BitSteps;
    hide Xor;
    var crc := Divide(seed, before);
    StreamCrcIsDivision(seed, before + a + after);
    StreamCrcIsDivision(seed, before + b + after);
    DivideChains(seed, before + a, after);
    DivideChains(seed, before, a);
    DivideChains(seed, before + b, after);
    DivideChains(seed, before, b);
    if Divide(Divide(crc, a), after) == Divide(Divide(crc, b), after) {
      DivideInjective(Divide(crc, a), Divide(crc, b), after);
      DivideFew(crc, a);
      DivideFew(crc, b);
      BitStepsInjective(XorValue(crc, a), XorValue(crc, b), 8 * |a|);
      XorCommutes(crc, LittleEndianValue(a));
      XorCommutes(crc, LittleEndianValue(b));
      XorInjective(LittleEndianValue(a), LittleEndianValue(b), crc);
      LittleEndianUnique(a);
      LittleEndianUnique(b);
    }
  }

  method BuildEntry(index: u32) returns (entry: u32)
    ensures entry == BitSteps(index, 8)
  {
    hide Xor;
    entry := index;
    var bit := 0;
    while bit < 8
      invariant 0 <= bit <= 8
      invariant BitSteps(entry, 8 - bit) == BitSteps(index, 8)
    {
      BitStepRange(entry);
      entry := if entry % 2 == 1 then Xor(entry / 2, POLYNOMIAL) else entry / 2;
      bit := bit + 1;
    }
  }

  method BuildTable() returns (table: seq<u32>)
    ensures |table| == 256
    ensures forall i :: 0 <= i < 256 ==> table[i] == BitSteps(i, 8)
  {
    hide BitSteps;
    table := [];
    for index := 0 to 256
      invariant |table| == index
      invariant forall i :: 0 <= i < index ==> table[i] == BitSteps(i, 8)
    {
      var entry := BuildEntry(index);
      table := table + [entry];
    }
  }

  method Crc32cUpdateTable(seed: u32, s: bytes) returns (r: u32)
    ensures r == Crc32cUpdate(seed, s)
  {
    hide BitSteps;
    hide Xor;
    var table := BuildTable();
    var crc: u32 := Not(seed);
    for i := 0 to |s|
      invariant Divide(Not(seed), s) == Divide(crc, s[i..])
    {
      var index := XorByte(crc, s[i]) % 256;
      TableStep(crc, s[i]);
      assert s[i..][1..] == s[i + 1..];
      crc := Xor(crc / 256, table[index]);
    }
    r := Not(crc);
  }
}
