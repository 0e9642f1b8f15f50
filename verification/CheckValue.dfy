/** The published check value of CRC32C, worked out from the definition. */
module CheckValue {
  import opened Bytes
  import opened Checksum
  import opened FooterMark

  lemma NextRegister(w: Word, v: Word, high: Digit, low: Digit, b: byte)
    requires b == Small(low) + 16 * Small(high)
    requires Eight(XorWord(w, Word(H0, H0, H0, H0, H0, H0, high, low))) == v
    ensures ByteStep(Value(w), b) == Value(v)
  {
    hide ByteStep;
    hide Value;
    ByteOfWord(w, high, low, b);
  }

  lemma FirstDigit()
    ensures ByteStep(Value(Word(HF, HF, HF, HF, HF, HF, HF, HF)), 0x31) == Value(Word(H6, HF, H0, HA, H6, H6, H1, HC))
  {
    hide ByteStep;
    hide Value;
    NextRegister(Word(HF, HF, HF, HF, HF, HF, HF, HF), Word(H6, HF, H0, HA, H6, H6, H1, HC), H3, H1, 0x31);
  }

  lemma SecondDigit()
    ensures ByteStep(Value(Word(H6, HF, H0, HA, H6, H6, H1, HC)), 0x32) == Value(Word(H8, HC, HA, HA, H3, HB, H9, HF))
  {
    hide ByteStep;
    hide Value;
    NextRegister(Word(H6, HF, H0, HA, H6, H6, H1, HC), Word(H8, HC, HA, HA, H3, HB, H9, HF), H3, H2, 0x32);
  }

  lemma ThirdDigit()
    ensures ByteStep(Value(Word(H8, HC, HA, HA, H3, HB, H9, HF)), 0x33) == Value(Word(HE, HF, H8, H4, HD, H0, H4, HD))
  {
    hide ByteStep;
    hide Value;
    NextRegister(Word(H8, HC, HA, HA, H3, HB, H9, HF), Word(HE, HF, H8, H4, HD, H0, H4, HD), H3, H3, 0x33);
  }

  lemma FourthDigit()
    ensures ByteStep(Value(Word(HE, HF, H8, H4, HD, H0, H4, HD)), 0x34) == Value(Word(H0, H9, HC, H5, H0, HB, H1, H1))
  {
    hide ByteStep;
    hide Value;
    NextRegister(Word(HE, HF, H8, H4, HD, H0, H4, HD), Word(H0, H9, HC, H5, H0, HB, H1, H1), H3, H4, 0x34);
  }

  lemma FifthDigit()
    ensures ByteStep(Value(Word(H0, H9, HC, H5, H0, HB, H1, H1)), 0x35) == Value(Word(HE, H7, H2, HE, HD, HC, HC, HA))
  {
    hide ByteStep;
    hide Value;
    NextRegister(Word(H0, H9, HC, H5, H0, HB, H1, H1), Word(HE, H7, H2, HE, HD, HC, HC, HA), H3, H5, 0x35);
  }

  lemma SixthDigit()
    ensures ByteStep(Value(Word(HE, H7, H2, HE, HD, HC, HC, HA)), 0x36) == Value(Word(HB, HE, HC, HA, H8, HE, H7, H9))
  {
    hide ByteStep;
    hide Value;
    NextRegister(Word(HE, H7, H2, HE, HD, HC, HC, HA), Word(HB, HE, HC, HA, H8, HE, H7, H9), H3, H6, 0x36);
  }

  lemma SeventhDigit()
    ensures ByteStep(Value(Word(HB, HE, HC, HA, H8, HE, H7, H9)), 0x37) == Value(Word(HE, HD, HB, HD, H6, H8, H1, H5))
  {
    hide ByteStep;
    hide Value;
    NextRegister(Word(HB, HE, HC, HA, H8, HE, H7, H9), Word(HE, HD, HB, HD, H6, H8, H1, H5), H3, H7, 0x37);
  }

  lemma EighthDigit()
    ensures ByteStep(Value(Word(HE, HD, HB, HD, H6, H8, H1, H5)), 0x38) == Value(Word(H9, HF, H7, H8, H7, HF, H6, H5))
  {
    hide ByteStep;
    hide Value;
    NextRegister(Word(HE, HD, HB, HD, H6, H8, H1, H5), Word(H9, HF, H7, H8, H7, HF, H6, H5), H3, H8, 0x38);
  }

  lemma NinthDigit()
    ensures ByteStep(Value(Word(H9, HF, H7, H8, H7, HF, H6, H5)), 0x39) == Value(Word(H1, HC, HF, H9, H6, HD, H7, HC))
  {
    hide ByteStep;
    hide Value;
    NextRegister(Word(H9, HF, H7, H8, H7, HF, H6, H5), Word(H1, HC, HF, H9, H6, HD, H7, HC), H3, H9, 0x39);
  }

  lemma FirstValue()
    ensures Value(Word(HF, HF, HF, HF, HF, HF, HF, HF)) == 0xFFFF_FFFF
  {
  }

  lemma LastValue()
    ensures Value(Word(H1, HC, HF, H9, H6, HD, H7, HC)) == 0x1CF9_6D7C
  {
  }

  lemma ThreeBytes(s: bytes, r0: u32, r1: u32, r2: u32, r3: u32)
    requires |s| == 3 && ByteStep(r0, s[0]) == r1 && ByteStep(r1, s[1]) == r2 && ByteStep(r2, s[2]) == r3
    ensures Divide(r0, s) == r3
  {
    hide ByteStep;
    assert Divide(r0, s) == Divide(r1, s[1..]);
    assert s[1..][1..] == s[2..] && Divide(r1, s[1..]) == Divide(r2, s[2..]);
    assert s[2..][1..] == [] && Divide(r2, s[2..]) == Divide(r3, []) == r3;
  }

  lemma OpeningDigits()
    ensures Divide(Value(Word(HF, HF, HF, HF, HF, HF, HF, HF)), [0x31, 0x32, 0x33]) == Value(Word(HE, HF, H8, H4, HD, H0, H4, HD))
  {
    hide ByteStep;
    hide Value;
    FirstDigit();
    SecondDigit();
    ThirdDigit();
    ThreeBytes(
      [0x31, 0x32, 0x33], Value(Word(HF, HF, HF, HF, HF, HF, HF, HF)), Value(Word(H6, HF, H0, HA, H6, H6, H1, HC)),
      Value(Word(H8, HC, HA, HA, H3, HB, H9, HF)), Value(Word(HE, HF, H8, H4, HD, H0, H4, HD)));
  }

  lemma MiddleDigits()
    ensures Divide(Value(Word(HE, HF, H8, H4, HD, H0, H4, HD)), [0x34, 0x35, 0x36]) == Value(Word(HB, HE, HC, HA, H8, HE, H7, H9))
  {
    hide ByteStep;
    hide Value;
    FourthDigit();
    FifthDigit();
    SixthDigit();
    ThreeBytes(
      [0x34, 0x35, 0x36], Value(Word(HE, HF, H8, H4, HD, H0, H4, HD)), Value(Word(H0, H9, HC, H5, H0, HB, H1, H1)),
      Value(Word(HE, H7, H2, HE, HD, HC, HC, HA)), Value(Word(HB, HE, HC, HA, H8, HE, H7, H9)));
  }

  lemma ClosingDigits()
    ensures Divide(Value(Word(HB, HE, HC, HA, H8, HE, H7, H9)), [0x37, 0x38, 0x39]) == Value(Word(H1, HC, HF, H9, H6, HD, H7, HC))
  {
    hide ByteStep;
    hide Value;
    SeventhDigit();
    EighthDigit();
    NinthDigit();
    ThreeBytes(
      [0x37, 0x38, 0x39], Value(Word(HB, HE, HC, HA, H8, HE, H7, H9)), Value(Word(HE, HD, HB, HD, H6, H8, H1, H5)),
      Value(Word(H9, HF, H7, H8, H7, HF, H6, H5)), Value(Word(H1, HC, HF, H9, H6, HD, H7, HC)));
  }

  /** CRC32C of the nine digits "123456789". */
  lemma CheckValueOfCrc32c()
    ensures Crc32c([0x31, 0x32, 0x33, 0x34, 0x35, 0x36, 0x37, 0x38, 0x39]) == 0xE306_9283
  {
    hide Value;
    hide Divide;
    OpeningDigits();
    MiddleDigits();
    ClosingDigits();
    FirstValue();
    LastValue();
    var a: bytes, b: bytes, c: bytes := [0x31, 0x32, 0x33], [0x34, 0x35, 0x36], [0x37, 0x38, 0x39];
    DivideChains(0xFFFF_FFFF, a, b);
    DivideChains(0xFFFF_FFFF, a + b, c);
    assert a + b + c == [0x31, 0x32, 0x33, 0x34, 0x35, 0x36, 0x37, 0x38, 0x39];
  }
}
