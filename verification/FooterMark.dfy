/**
 The checksum worked out on the bytes that open a block footer's message: whatever three bytes follow them,
 they do not carry the checksum that a reader would look for in the bytes before them.
 */
module FooterMark {
  import opened Bytes
  import opened Checksum

  // ---- Exclusive or, by binary digits ----

  /** A hexadecimal digit, as its bits. */
  datatype Digit = Digit(b3: bool, b2: bool, b1: bool, b0: bool)

  const H0: Digit := Digit(false, false, false, false)
  const H1: Digit := Digit(false, false, false, true)
  const H2: Digit := Digit(false, false, true, false)
  const H3: Digit := Digit(false, false, true, true)
  const H4: Digit := Digit(false, true, false, false)
  const H5: Digit := Digit(false, true, false, true)
  const H6: Digit := Digit(false, true, true, false)
  const H7: Digit := Digit(false, true, true, true)
  const H8: Digit := Digit(true, false, false, false)
  const H9: Digit := Digit(true, false, false, true)
  const HA: Digit := Digit(true, false, true, false)
  const HB: Digit := Digit(true, false, true, true)
  const HC: Digit := Digit(true, true, false, false)
  const HD: Digit := Digit(true, true, false, true)
  const HE: Digit := Digit(true, true, true, false)
  const HF: Digit := Digit(true, true, true, true)

  function Bit(b: bool): nat {
    if b then 1 else 0
  }

  function Small(d: Digit): (n: nat)
    ensures n < 16
  {
    Bit(d.b0) + 2 * (Bit(d.b1) + 2 * (Bit(d.b2) + 2 * Bit(d.b3)))
  }

  function XorDigit(d: Digit, e: Digit): Digit {
    Digit(d.b3 != e.b3, d.b2 != e.b2, d.b1 != e.b1, d.b0 != e.b0)
  }

  predicate BitsXor(p: nat, q: nat, r: nat) {
    p < 2 && q < 2 && r == if p == q then 0 else 1
  }

  lemma XorBit(m: nat, n: nat, p: nat, a: nat, q: nat, b: nat, r: nat)
    requires m == p + 2 * a && n == q + 2 * b && BitsXor(p, q, r)
    ensures Xor(m, n) == r + 2 * Xor(a, b)
  {
    assert m / 2 == a && n / 2 == b;
    if m == 0 && n == 0 {
      XorZero(0);
    }
  }

  lemma XorFourBits(
    m: nat, n: nat, p0: nat, p1: nat, p2: nat, p3: nat, a: nat, q0: nat, q1: nat, q2: nat, q3: nat, b: nat,
    r0: nat, r1: nat, r2: nat, r3: nat)
    requires m == p0 + 2 * p1 + 4 * p2 + 8 * p3 + 16 * a && n == q0 + 2 * q1 + 4 * q2 + 8 * q3 + 16 * b
    requires BitsXor(p0, q0, r0) && BitsXor(p1, q1, r1) && BitsXor(p2, q2, r2) && BitsXor(p3, q3, r3)
    ensures Xor(m, n) == r0 + 2 * r1 + 4 * r2 + 8 * r3 + 16 * Xor(a, b)
  {
    hide Xor;
    hide BitsXor;
    var x3, y3 := p3 + 2 * a, q3 + 2 * b;
    var x2, y2 := p2 + 2 * x3, q2 + 2 * y3;
    var x1, y1 := p1 + 2 * x2, q1 + 2 * y2;
    XorBit(x3, y3, p3, a, q3, b, r3);
    XorBit(x2, y2, p2, x3, q2, y3, r2);
    XorBit(x1, y1, p1, x2, q1, y2, r1);
    XorBit(m, n, p0, x1, q0, y1, r0);
  }

  lemma SmallOf(d: Digit)
    ensures Small(d) == Bit(d.b0) + 2 * Bit(d.b1) + 4 * Bit(d.b2) + 8 * Bit(d.b3)
  {
  }

  lemma XorCons(m: nat, n: nat, d: Digit, a: nat, e: Digit, b: nat)
    requires m == Small(d) + 16 * a && n == Small(e) + 16 * b
    ensures Xor(m, n) == Small(XorDigit(d, e)) + 16 * Xor(a, b)
  {
    hide Xor;
    hide Small;
    var r := XorDigit(d, e);
    SmallOf(d);
    SmallOf(e);
    SmallOf(r);
    XorFourBits(
      m, n, Bit(d.b0), Bit(d.b1), Bit(d.b2), Bit(d.b3), a, Bit(e.b0), Bit(e.b1), Bit(e.b2), Bit(e.b3), b,
      Bit(r.b0), Bit(r.b1), Bit(r.b2), Bit(r.b3));
  }

  /** A register as eight digits, the highest first. */
  datatype Word = Word(d7: Digit, d6: Digit, d5: Digit, d4: Digit, d3: Digit, d2: Digit, d1: Digit, d0: Digit)

  function Value(w: Word): u32 {
    Small(w.d0) + 16 * (Small(w.d1) + 16 * (Small(w.d2) + 16 * (Small(w.d3)
    + 16 * (Small(w.d4) + 16 * (Small(w.d5) + 16 * (Small(w.d6) + 16 * Small(w.d7)))))))
  }

  function XorWord(v: Word, w: Word): Word {
    Word(
      XorDigit(v.d7, w.d7), XorDigit(v.d6, w.d6), XorDigit(v.d5, w.d5), XorDigit(v.d4, w.d4),
      XorDigit(v.d3, w.d3), XorDigit(v.d2, w.d2), XorDigit(v.d1, w.d1), XorDigit(v.d0, w.d0))
  }

  lemma XorOfWords(v: Word, w: Word)
    ensures Xor(Value(v), Value(w)) == Value(XorWord(v, w))
  {
    hide Xor;
    hide XorDigit;
    hide Small;
    var v6, w6 := Small(v.d6) + 16 * Small(v.d7), Small(w.d6) + 16 * Small(w.d7);
    var v5, w5 := Small(v.d5) + 16 * v6, Small(w.d5) + 16 * w6;
    var v4, w4 := Small(v.d4) + 16 * v5, Small(w.d4) + 16 * w5;
    var v3, w3 := Small(v.d3) + 16 * v4, Small(w.d3) + 16 * w4;
    var v2, w2 := Small(v.d2) + 16 * v3, Small(w.d2) + 16 * w3;
    var v1, w1 := Small(v.d1) + 16 * v2, Small(w.d1) + 16 * w2;
    XorCons(Small(v.d7), Small(w.d7), v.d7, 0, w.d7, 0);
    XorCons(v6, w6, v.d6, Small(v.d7), w.d6, Small(w.d7));
    XorCons(v5, w5, v.d5, v6, w.d5, w6);
    XorCons(v4, w4, v.d4, v5, w.d4, w5);
    XorCons(v3, w3, v.d3, v4, w.d3, w4);
    XorCons(v2, w2, v.d2, v3, w.d2, w3);
    XorCons(v1, w1, v.d1, v2, w.d1, w2);
    XorCons(Value(v), Value(w), v.d0, v1, w.d0, w1);
    XorZero(0);
  }

  // ---- The register, bit by bit ----

  const POLY: Word := Word(H8, H2, HF, H6, H3, HB, H7, H8)

  function Low(d: Digit): nat {
    Bit(d.b0)
  }

  /** A digit shifted down, under the digit above it. */
  function Half(d: Digit, above: Digit): Digit {
    Digit(above.b0, d.b3, d.b2, d.b1)
  }

  function Halved(w: Word): Word {
    Word(
      Half(w.d7, H0), Half(w.d6, w.d7), Half(w.d5, w.d6), Half(w.d4, w.d5),
      Half(w.d3, w.d4), Half(w.d2, w.d3), Half(w.d1, w.d2), Half(w.d0, w.d1))
  }

  lemma ValueHalved(w: Word)
    ensures Value(w) == 2 * Value(Halved(w)) + Low(w.d0)
  {
    hide Low;
    hide Small;
    hide Half;
    HalfLaw(w.d0, w.d1);
    HalfLaw(w.d1, w.d2);
    HalfLaw(w.d2, w.d3);
    HalfLaw(w.d3, w.d4);
    HalfLaw(w.d4, w.d5);
    HalfLaw(w.d5, w.d6);
    HalfLaw(w.d6, w.d7);
    HalfLaw(w.d7, H0);
    var h := Halved(w);
    FourHalves(
      Small(w.d4), Small(w.d5), Small(w.d6), Small(w.d7), 0, Small(h.d4), Small(h.d5), Small(h.d6), Small(h.d7), 0,
      Low(w.d4), Low(w.d5), Low(w.d6), Low(w.d7), 0);
    FourHalves(
      Small(w.d0), Small(w.d1), Small(w.d2), Small(w.d3), Top(w),
      Small(h.d0), Small(h.d1), Small(h.d2), Small(h.d3), Top(h),
      Low(w.d0), Low(w.d1), Low(w.d2), Low(w.d3), Low(w.d4));
  }

  function Top(w: Word): nat {
    Small(w.d4) + 16 * (Small(w.d5) + 16 * (Small(w.d6) + 16 * Small(w.d7)))
  }

  lemma FourHalves(
    d0: nat, d1: nat, d2: nat, d3: nat, rest: nat, h0: nat, h1: nat, h2: nat, h3: nat, half: nat,
    c0: nat, c1: nat, c2: nat, c3: nat, c4: nat)
    requires 2 * h0 == d0 - c0 + 16 * c1 && 2 * h1 == d1 - c1 + 16 * c2
    requires 2 * h2 == d2 - c2 + 16 * c3 && 2 * h3 == d3 - c3 + 16 * c4 && 2 * half == rest - c4
    ensures d0 + 16 * (d1 + 16 * (d2 + 16 * (d3 + 16 * rest))) == 2 * (h0 + 16 * (h1 + 16 * (h2 + 16 * (h3 + 16 * half)))) + c0
  {
  }

  lemma HalfLaw(d: Digit, above: Digit)
    ensures 2 * Small(Half(d, above)) == Small(d) - Low(d) + 16 * Low(above)
    ensures Low(H0) == 0
  {
    SmallOf(d);
    SmallOf(Half(d, above));
  }

  function Stepped(w: Word): Word {
    if w.d0.b0 then XorWord(Halved(w), POLY) else Halved(w)
  }

  lemma StepOfWord(w: Word)
    ensures BitStep(Value(w)) == Value(Stepped(w))
  {
    hide Xor;
    hide XorWord;
    hide Halved;
    ValueHalved(w);
    XorOfWords(Halved(w), POLY);
    ValueOfPoly();
    hide Value;
  }

  lemma ValueOfPoly()
    ensures Value(POLY) == POLYNOMIAL
  {
  }

  lemma NextStep(w: Word, count: nat)
    ensures BitSteps(Value(w), count + 1) == BitSteps(Value(Stepped(w)), count)
  {
    hide BitStep;
    hide Stepped;
    hide Value;
    StepOfWord(w);
  }

  function Eight(w: Word): Word {
    Stepped(Stepped(Stepped(Stepped(Stepped(Stepped(Stepped(Stepped(w))))))))
  }

  lemma EightSteps(w: Word)
    ensures BitSteps(Value(w), 8) == Value(Eight(w))
  {
    hide BitSteps;
    hide Stepped;
    hide Value;
    var a := Stepped(w);
    var b := Stepped(a);
    var c := Stepped(b);
    var d := Stepped(c);
    var e := Stepped(d);
    var f := Stepped(e);
    var g := Stepped(f);
    NextStep(w, 7);
    NextStep(a, 6);
    NextStep(b, 5);
    NextStep(c, 4);
    NextStep(d, 3);
    NextStep(e, 2);
    NextStep(f, 1);
    NextStep(g, 0);
    NoSteps(Value(Stepped(g)));
  }

  lemma ByteOfWord(w: Word, high: Digit, low: Digit, b: byte)
    requires b == Small(low) + 16 * Small(high)
    ensures ByteStep(Value(w), b) == Value(Eight(XorWord(w, Word(H0, H0, H0, H0, H0, H0, high, low))))
  {
    hide BitSteps;
    hide Xor;
    hide Eight;
    var v := Word(H0, H0, H0, H0, H0, H0, high, low);
    XorOfWords(w, v);
    EightSteps(XorWord(w, v));
    NoDigit();
    hide Small;
    assert Value(v) == b;
  }

  lemma NoDigit()
    ensures Small(H0) == 0
  {
  }

  lemma FirstOfMark()
    ensures ByteStep(Value(Word(H0, H0, H0, H0, H0, H0, H0, H0)), 0xbc) == Value(Word(HF, HF, H5, H6, HB, HD, H1, H9))
  {
    hide ByteStep;
    hide Value;
    ByteOfWord(Word(H0, H0, H0, H0, H0, H0, H0, H0), HB, HC, 0xbc);
  }

  lemma SecondOfMark()
    ensures ByteStep(Value(Word(HF, HF, H5, H6, HB, HD, H1, H9)), 0xbc) == Value(Word(H9, H7, H4, H5, HF, H7, H0, H7))
  {
    hide ByteStep;
    hide Value;
    ByteOfWord(Word(HF, HF, H5, H6, HB, HD, H1, H9), HB, HC, 0xbc);
  }

  lemma ThirdOfMark()
    ensures ByteStep(Value(Word(H9, H7, H4, H5, HF, H7, H0, H7)), 0xbc) == Value(Word(H2, HB, H0, HB, H9, HC, H0, H5))
  {
    hide ByteStep;
    hide Value;
    ByteOfWord(Word(H9, H7, H4, H5, HF, H7, H0, H7), HB, HC, 0xbc);
  }

  lemma FourthOfMark()
    ensures ByteStep(Value(Word(H2, HB, H0, HB, H9, HC, H0, H5)), 0xbc) == Value(Word(HC, HA, H8, HC, HA, H2, H9, H9))
  {
    hide ByteStep;
    hide Value;
    ByteOfWord(Word(H2, HB, H0, HB, H9, HC, H0, H5), HB, HC, 0xbc);
  }

  lemma FifthOfMark()
    ensures ByteStep(Value(Word(HC, HA, H8, HC, HA, H2, H9, H9)), 0x10) == Value(Word(HF, HA, H8, HE, H6, HC, H1, H6))
  {
    hide ByteStep;
    hide Value;
    ByteOfWord(Word(HC, HA, H8, HC, HA, H2, H9, H9), H1, H0, 0x10);
  }

  lemma SixthOfMark()
    ensures ByteStep(Value(Word(HF, HA, H8, HE, H6, HC, H1, H6)), 0x01) == Value(Word(HC, H4, H6, HE, H2, HD, HE, H8))
  {
    hide ByteStep;
    hide Value;
    ByteOfWord(Word(HF, HA, H8, HE, H6, HC, H1, H6), H0, H1, 0x01);
  }

  /** What three zero bytes would have to start from to end in four bytes of 0x66. */
  lemma StepsOfThree()
    ensures BitSteps(Value(Word(H0, H8, H1, H2, H3, HA, H7, H5)), 24) == 0x6666_6666
  {
    hide BitSteps;
    hide Eight;
    hide Value;
    var a, b, c := Word(H0, H8, H1, H2, H3, HA, H7, H5), Word(H4, H4, H6, H1, H5, H2, H2, HB), Word(HB, H9, H7, H0, H4, H4, HB, H7);
    EightSteps(a);
    EightSteps(b);
    EightSteps(c);
    ThreeEights();
    BitStepsAdd(Value(a), 8, 16);
    BitStepsAdd(Value(b), 8, 8);
  }

  lemma ThreeEights()
    ensures Eight(Word(H0, H8, H1, H2, H3, HA, H7, H5)) == Word(H4, H4, H6, H1, H5, H2, H2, HB)
    ensures Eight(Word(H4, H4, H6, H1, H5, H2, H2, HB)) == Word(HB, H9, H7, H0, H4, H4, HB, H7)
    ensures Value(Eight(Word(HB, H9, H7, H0, H4, H4, HB, H7))) == 0x6666_6666
  {
  }

  const AFTER_MARK: Word := Word(HC, H4, H6, HE, H2, HD, HE, H8)

  /** The register after the second half of the magic number and the version field. */
  lemma RegisterAfterMark()
    ensures Divide(0, [0xbc, 0xbc, 0xbc, 0xbc, 0x10, 0x01]) == Value(AFTER_MARK)
  {
    hide ByteStep;
    FirstOfMark();
    SecondOfMark();
    ThirdOfMark();
    FourthOfMark();
    FifthOfMark();
    SixthOfMark();
    NoValue();
    hide Value;
    SixBytes(
      [0xbc, 0xbc, 0xbc, 0xbc, 0x10, 0x01], Value(Word(H0, H0, H0, H0, H0, H0, H0, H0)), Value(Word(HF, HF, H5, H6, HB, HD, H1, H9)), Value(Word(H9, H7, H4, H5, HF, H7, H0, H7)), Value(Word(H2, HB, H0, HB, H9, HC, H0, H5)), Value(Word(HC, HA, H8, HC, HA, H2, H9, H9)), Value(Word(HF, HA, H8, HE, H6, HC, H1, H6)),
      Value(AFTER_MARK));
  }

  lemma NoValue()
    ensures Value(Word(H0, H0, H0, H0, H0, H0, H0, H0)) == 0
  {
  }

  lemma SixBytes(s: bytes, r0: u32, r1: u32, r2: u32, r3: u32, r4: u32, r5: u32, r6: u32)
    requires |s| == 6
    requires ByteStep(r0, s[0]) == r1 && ByteStep(r1, s[1]) == r2 && ByteStep(r2, s[2]) == r3
    requires ByteStep(r3, s[3]) == r4 && ByteStep(r4, s[4]) == r5 && ByteStep(r5, s[5]) == r6
    ensures Divide(r0, s) == r6
  {
    hide ByteStep;
    assert Divide(r0, s) == Divide(r1, s[1..]);
    assert s[1..][1..] == s[2..] && Divide(r1, s[1..]) == Divide(r2, s[2..]);
    assert s[2..][1..] == s[3..] && Divide(r2, s[2..]) == Divide(r3, s[3..]);
    assert s[3..][1..] == s[4..] && Divide(r3, s[3..]) == Divide(r4, s[4..]);
    assert s[4..][1..] == s[5..] && Divide(r4, s[4..]) == Divide(r5, s[5..]);
    assert s[5..][1..] == [] && Divide(r5, s[5..]) == Divide(r6, []) == r6;
  }

  lemma DigitOf(n: nat) returns (d: Digit)
    requires n < 16
    ensures Small(d) == n
  {
    d := Digit(n / 8 == 1, n / 4 % 2 == 1, n / 2 % 2 == 1, n % 2 == 1);
  }

  lemma WordOfThree(three: bytes) returns (w: Word)
    requires |three| == 3
    ensures Value(w) == LittleEndianValue(three) && w.d7 == H0
  {
    var x: nat, y: nat, z: nat := three[0], three[1], three[2];
    var d0 := DigitOf(x % 16);
    var d1 := DigitOf(x / 16);
    var d2 := DigitOf(y % 16);
    var d3 := DigitOf(y / 16);
    var d4 := DigitOf(z % 16);
    var d5 := DigitOf(z / 16);
    w := Word(H0, H0, d5, d4, d3, d2, d1, d0);
    NoDigit();
    hide Small;
    assert three[1..][1..] == [three[2]];
    assert LittleEndianValue([three[2]]) == z;
    assert LittleEndianValue(three) == x + 256 * (y + 256 * z);
  }

  lemma TopDigit(w: Word)
    ensures Small(w.d7) * 0x1000_0000 <= Value(w) < (Small(w.d7) + 1) * 0x1000_0000
  {
    hide Small;
  }

  /** No three bytes make the checksum four bytes of 0x66. */
  lemma MarkIsNoRecord(three: bytes)
    requires |three| == 3
    ensures StreamCrc(0, [0xbc, 0xbc, 0xbc, 0xbc, 0x10, 0x01] + three) != 0x6666_6666
  {
    hide BitSteps;
    hide Xor;
    hide Divide;
    hide Value;
    var mark: bytes := [0xbc, 0xbc, 0xbc, 0xbc, 0x10, 0x01];
    StreamCrcIsDivision(0, mark + three);
    DivideChains(0, mark, three);
    RegisterAfterMark();
    DivideFew(Value(AFTER_MARK), three);
    StepsOfThree();
    var w := WordOfThree(three);
    XorOfWords(AFTER_MARK, w);
    var x := XorWord(AFTER_MARK, w);
    TopDigit(x);
    TopDigit(Word(H0, H8, H1, H2, H3, HA, H7, H5));
    if BitSteps(Value(x), 24) == 0x6666_6666 {
      BitStepsInjective(Value(x), Value(Word(H0, H8, H1, H2, H3, HA, H7, H5)), 24);
    }
  }
}
