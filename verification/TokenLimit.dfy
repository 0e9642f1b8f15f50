/** For every token of more than 41 bytes, a run of appends that ends at a record the writer panics on. */
module TokenLimit {
  import opened Bytes
  import opened Protobuf
  import opened Checksum
  import opened StreamMessages
  import opened StreamFormat
  import opened StreamRoundTrip
  import opened StreamCut
  import opened StreamWriter

  // ---- A block of zeros and one length has a checksum ----

  lemma {:induction false} ZeroSteps(count: nat)
    ensures BitSteps(0, count) == 0
  {
    if count > 0 {
      assert BitStep(0) == 0;
      ZeroSteps(count - 1);
    }
  }

  lemma {:induction false} ZerosDivide(n: nat)
    ensures Divide(0, Zeros(n)) == 0
  {
    if n > 0 {
      assert ByteStep(0, 0) == 0 by {
        XorZero(0);
        ZeroSteps(8);
      }
      hide ByteStep;
      assert Zeros(n)[0] == 0 && Zeros(n)[1..] == Zeros(n - 1);
      ZerosDivide(n - 1);
    }
  }

  /** The byte 128 brings the polynomial into the register. */
  lemma TopBitDivides()
    ensures ByteStep(0, 128) == POLYNOMIAL
  {
    assert Pow2(7) == 128;
    XorZero(128);
    XorCommutes(0, 128);
    BitStepsAdd(128, 7, 1);
    HighBitsShift(1, 7);
    XorZero(POLYNOMIAL);
    XorCommutes(0, POLYNOMIAL);
    hide Xor;
    assert BitStep(1) == POLYNOMIAL;
    assert BitSteps(1, 1) == BitSteps(BitStep(1), 0);
  }

  lemma {:induction false} VarintEnds(n: nat)
    ensures Varint(n)[|Varint(n)| - 1] < 128
    decreases n
  {
    if n >= 128 {
      VarintEnds(n / 128);
    }
  }

  lemma FourBytesBelow(s: bytes)
    requires |s| == 4 && s[3] < 128
    ensures LittleEndianValue(s) < 0x8000_0000
  {
    assert s[1..][1..][1..] == [s[3]] && s[1..][1..][0] == s[2] && s[1..][0] == s[1];
    assert LittleEndianValue(s[1..][1..][1..]) == s[3] + 256 * LittleEndianValue([]);
    assert LittleEndianValue(s[1..][1..]) == s[2] + 256 * LittleEndianValue(s[1..][1..][1..]);
    assert LittleEndianValue(s[1..]) == s[1] + 256 * LittleEndianValue(s[1..][1..]);
  }

  lemma PolynomialStays(s: bytes)
    requires |s| == 4 && s[3] < 128
    ensures Divide(POLYNOMIAL, s) != 0
  {
    hide BitSteps;
    hide Xor;
    hide LittleEndianValue;
    var v := LittleEndianValue(s);
    FourBytesBelow(s);
    Pow2Values();
    XorTopBit(v, POLYNOMIAL, 31);
    XorCommutes(v, POLYNOMIAL);
    DivideFew(POLYNOMIAL, s);
    ZeroSteps(32);
    if Divide(POLYNOMIAL, s) == 0 {
      BitStepsInjective(XorValue(POLYNOMIAL, s), 0, 32);
    }
  }

  lemma LengthDivides(n: nat)
    requires n % 128 == 0 && 0x1000_0000 <= n < 0x8_0000_0000
    ensures |Varint(n)| == 5 && Divide(0, Varint(n)) != 0
  {
    Pow128Values();
    VarintAtLeast(n, 4);
    VarintAtMost(n, 5);
    VarintEnds(n);
    var rest := Varint(n / 128);
    assert Varint(n) == [128] + rest && Varint(n)[1..] == rest;
    TopBitDivides();
    PolynomialStays(rest);
  }

  lemma ZerosAround(t: nat, n: nat, q: nat)
    requires n % 128 == 0 && 0x1000_0000 <= n < 0x8_0000_0000
    ensures StreamCrc(0, Zeros(t) + Varint(n) + Zeros(q)) != 0
  {
    hide Divide;
    hide Varint;
    hide Zeros;
    var s := Zeros(t) + Varint(n);
    LengthDivides(n);
    ZerosDivide(t);
    ZerosDivide(q);
    DivideChains(0, Zeros(t), Varint(n));
    DivideChains(0, s, Zeros(q));
    StreamCrcIsDivision(0, s + Zeros(q));
    if Divide(Divide(0, s), Zeros(q)) == 0 {
      DivideInjective(Divide(0, s), 0, Zeros(q));
    }
  }

  // ---- Empty records ----

  ghost predicate AllEmpty(records: seq<StreamRecord>) {
    forall r <- records :: r.payload == []
  }

  lemma {:induction false} EmptyRecordsAreZeros(records: seq<StreamRecord>)
    requires AllEmpty(records)
    ensures AllBytes(records) == Zeros(5 * |records|)
  {
    hide RecordBytes;
    if records != [] {
      assert records[0] in records;
      EmptyRecordsAreZeros(records[1..]);
      EmptyRecord();
    }
  }

  lemma ZerosTail(a: bytes, b: bytes, n: nat)
    requires a + b == Zeros(n)
    ensures b == Zeros(|b|)
  {
    assert forall i :: 0 <= i < |b| ==> b[i] == (a + b)[|a| + i];
  }

  lemma TailIsZeros(log: Log, records: seq<StreamRecord>)
    requires Describes(log, records) && AllEmpty(records)
    ensures log.tail == Zeros(|log.tail|)
  {
    EmptyRecordsAreZeros(records);
    ZerosTail(Flat(log.sealed), log.tail, 5 * |records|);
  }

  // ---- The record that does not go down ----

  /** Its length takes five bytes, the first of them 128. */
  const LONG: nat := 0x1020_0000
  const MANY: nat := 0x100_0000_0000_0000

  lemma LongRecordBytes()
    ensures RecordBytes(Zeros(LONG)) == Varint(LONG) + Zeros(4 + LONG)
    ensures |Varint(LONG)| == 5 && |RecordHeader(Zeros(LONG))| == 9
  {
    hide Varint;
    hide StreamCrc;
    LengthDivides(LONG);
    ZerosDivide(LONG);
    StreamCrcIsDivision(0, Zeros(LONG));
    assert LittleEndian(0, 4) == Zeros(4) by {
      assert LittleEndian(0, 3) == [0] + LittleEndian(0, 2);
      assert LittleEndian(0, 2) == [0, 0];
    }
    assert LONG % U32_LIMIT == LONG;
    Associative(Varint(LONG), Zeros(4), Zeros(LONG));
    MoreZeros(4, LONG);
  }

  /** The data of the block that the record's first bytes go into, up to its end. */
  lemma LongRecordCrc(t: nat, m: nat)
    requires 9 <= m <= 9 + LONG
    ensures |RecordBytes(Zeros(LONG))| == 9 + LONG
    ensures StreamCrc(0, Zeros(t) + RecordBytes(Zeros(LONG))[..m]) != 0
  {
    hide StreamCrc;
    hide Varint;
    hide RecordBytes;
    LongRecordBytes();
    PrefixOfSum(Varint(LONG), Zeros(4 + LONG), m);
    assert Zeros(4 + LONG)[..m - 5] == Zeros(m - 5);
    Associative(Zeros(t), Varint(LONG), Zeros(m - 5));
    ZerosAround(t, LONG, m - 5);
  }

  function Latest(block: nat): FooterStamp {
    FooterStamp(0xFFFF_FFFF_FFFF_FFFF, 0xFFFF_FFFF_FFFF_FFFF)
  }

  /** A writer far into a stream, after very many empty records, whose next record is long. */
  ghost predicate Late(a: Appending) {
    && a.Ready() && a.log.start >= 0x8000_0000_0000_0000 && a.log.prev == 0 && a.log.tail == Zeros(|a.log.tail|)
    && a.rec == RecordBytes(Zeros(LONG)) && a.sequence >= MANY && a.stamp == Latest
    && a.first == FirstPart(|a.log.tail|, 9)
  }

  /** Which of the blocks that the append closes ends inside the record. */
  ghost function Inside(a: Appending): nat {
    if a.first == 0 then 1 else 0
  }

  lemma InsideData(a: Appending)
    requires Late(a)
    ensures var k := Inside(a);
      && |a.rec| == 9 + LONG && 9 <= a.Down(k) <= DATA_SIZE
      && exists t: nat :: a.Data(k) == Zeros(t) + a.rec[..a.Down(k)]
  {
    hide RecordBytes;
    LongRecordCrc(0, 9);
    if a.first == 0 {
      assert a.Down(0) == 0 && a.Down(1) == DATA_SIZE;
      assert Zeros(0) + a.rec[..DATA_SIZE] == a.rec[0..DATA_SIZE];
    } else {
      assert a.Down(0) == a.first;
    }
  }

  lemma InsideIsWidest(a: Appending)
    requires Late(a) && a.Offset(Inside(a)) + FOOTER_SIZE < U64_LIMIT
    ensures a.Down(Inside(a)) < |a.rec| && Widest(a.Footer(Inside(a)))
  {
    hide StreamCrc;
    hide RecordBytes;
    hide Zeros;
    var k := Inside(a);
    InsideData(a);
    var t: nat :| a.Data(k) == Zeros(t) + a.rec[..a.Down(k)];
    LongRecordCrc(t, a.Down(k));
    a.FooterMayClose(k);
    hide a.Data;
    hide a.Down;
    assert a.Footer(k).lastRecordLeftSize == (|a.rec| - a.Down(k)) % U32_LIMIT;
  }

  lemma LateFails(a: Appending)
    requires Late(a) && |a.token| > ALWAYS_FITS
    ensures !a.Fit()
  {
    hide Fits;
    hide Widest;
    hide a.Footer;
    hide a.Offset;
    hide Late;
    var k := Inside(a);
    LateIsReady(a);
    a.ClosingsCount(k);
    if a.Offset(k) + FOOTER_SIZE < U64_LIMIT {
      InsideIsWidest(a);
      WidestIsTooLong(a.Footer(k));
      FooterHasToken(a, k);
    }
  }

  lemma LateIsReady(a: Appending)
    requires Late(a)
    ensures a.Ready() && a.Down(Inside(a)) < |a.rec|
  {
    InsideData(a);
  }

  lemma FooterHasToken(a: Appending, k: nat)
    requires a.Ready() && a.Down(k) <= |a.rec| && a.Offset(k) + FOOTER_SIZE < U64_LIMIT
    ensures a.Footer(k).clientToken == a.token
  {
    hide StreamCrc;
  }

  /**
   Empty records are appended, up to 2^56 of them, then a long one. Some writer on the way is at a record that
   it cannot append, with a footer that has no room; with up to 41 bytes of token there is none.
   */
  method LongTokenPanics(token: bytes) returns (w: BlobWriter, payload: bytes)
    requires |token| > ALWAYS_FITS
    ensures w.Valid() && w.token == token && w.Coming(payload).FooterTooLong()
  {
    var header := PlainHeader(0).(clientToken := token, startOffset := 0x8000_0000_0000_0000);
    assert header.startOffset % BLOCK_SIZE == 0 && header.prevBlockCrc == 0 && header.clientToken == token;
    hide *;
    w := new BlobWriter(header, Latest);
    var appended := 0;
    while appended < MANY
      invariant fresh(w) && w.Valid() && w.header == header && w.token == token && w.stamp == Latest
      invariant |w.records| == appended <= MANY && AllEmpty(w.records)
    {
      var next, ok := OneMore(w);
      if !ok {
        payload := [];
        InRange(w, payload);
        return;
      }
      w := next;
      appended := appended + 1;
    }
    payload := Zeros(LONG);
    IsLate(w);
    LateFails(w.Coming(payload));
    LongIsInRange();
    InRange(w, payload);
  }

  lemma LongIsInRange()
    ensures |Zeros(LONG)| <= LONG
  {
  }

  /** What a closed block holds at least: a header of nine bytes did not fit any more. */
  const LEAST: nat := 130936

  lemma {:induction false} FlatAtLeast(sealed: seq<Sealed>)
    requires forall b <- sealed :: |b.data| >= LEAST
    ensures LEAST * |sealed| <= |Flat(sealed)|
  {
    if sealed != [] {
      assert sealed[0] in sealed;
      FlatAtLeast(sealed[1..]);
      assert |sealed[1..]| == |sealed| - 1;
      assert |Flat(sealed)| == |sealed[0].data| + |Flat(sealed[1..])|;
      hide Flat;
    }
  }

  lemma BlocksAreFull(log: Log, records: seq<StreamRecord>, token: bytes, stamp: nat -> FooterStamp, b: Sealed)
    requires Sound(log) && FootersTell(log, records, token, stamp) && b in log.sealed
    ensures |b.data| >= LEAST
  {
    hide FooterProto;
    hide StreamCrc;
    hide Flat;
    hide Position;
    var i :| 0 <= i < |log.sealed| && log.sealed[i] == b;
    assert FooterTells(b.footer, log.start, i, |Flat(log.sealed[..i + 1])|, records, token, stamp(i));
    assert DATA_SIZE == LEAST + 8;
  }

  /** Padding and footers take less room than the records. */
  lemma EndIsNear(w: BlobWriter)
    requires w.Valid() && AllEmpty(w.records)
    ensures End(w.log) <= w.header.startOffset + 10 * |w.records| + DATA_SIZE
  {
    hide Sound;
    hide BlobBytes;
    hide TailCrc;
    hide FootersTell;
    hide Flat;
    hide AllBytes;
    EmptyRecordsAreZeros(w.records);
    forall b | b in w.log.sealed
      ensures |b.data| >= LEAST
    {
      BlocksAreFull(w.log, w.records, w.token, w.stamp, b);
    }
    FlatAtLeast(w.log.sealed);
    AtMostTwice(|w.log.sealed|, |Flat(w.log.sealed)|);
  }

  lemma AtMostTwice(n: nat, flat: nat)
    requires LEAST * n <= flat
    ensures n * BLOCK_SIZE <= 2 * flat
  {
  }

  lemma InRange(w: BlobWriter, payload: bytes)
    requires w.Valid() && AllEmpty(w.records) && |w.records| <= MANY && |payload| <= LONG
    requires w.header.startOffset == 0x8000_0000_0000_0000
    ensures w.Coming(payload).Fit() <==> !w.Coming(payload).FooterTooLong()
  {
    assert 10 * MANY + 2 * LONG + 400000 < 0x8000_0000_0000_0000;
    assert DATA_SIZE < 140000;
    EndIsNear(w);
    RecordSize(payload);
    RecordHeaderSize(payload);
    ComingIs(w, payload);
    hide *;
    w.Coming(payload).FailsByFooter();
  }

  lemma ComingIs(w: BlobWriter, payload: bytes)
    requires w.Valid()
    ensures var a := w.Coming(payload); a.Ready() && a.log == w.log && a.rec == RecordBytes(payload)
  {
    hide RecordBytes;
    hide RecordHeader;
    hide BlobBytes;
    hide TailCrc;
    hide Sound;
  }

  method OneMore(w: BlobWriter) returns (next: BlobWriter, ok: bool)
    requires w.Valid() && AllEmpty(w.records)
    ensures fresh(next) && next.header == w.header && next.token == w.token && next.stamp == w.stamp
    ensures ok ==> next.Valid() && |next.records| == |w.records| + 1 && AllEmpty(next.records)
    ensures ok <==> w.Coming([]).Fit()
  {
    hide *;
    next := new BlobWriter.Copy(w);
    ghost var records := next.records;
    var id;
    id, ok := next.Append([]);
    if ok {
      OneMoreEmpty(records, StreamRecord(id, []));
    }
  }

  lemma OneMoreEmpty(records: seq<StreamRecord>, r: StreamRecord)
    requires AllEmpty(records) && r.payload == []
    ensures AllEmpty(records + [r])
  {
  }

  lemma IsLate(w: BlobWriter)
    requires w.Valid() && AllEmpty(w.records) && |w.records| == MANY
    requires w.header.startOffset == 0x8000_0000_0000_0000 && w.header.prevBlockCrc == 0
    requires w.stamp == Latest
    ensures Late(w.Coming(Zeros(LONG))) && w.Coming(Zeros(LONG)).token == w.token
  {
    hide BlobBytes;
    hide TailCrc;
    hide RecordBytes;
    hide RecordHeader;
    TailIsZeros(w.log, w.records);
    LongRecordBytes();
  }
}
