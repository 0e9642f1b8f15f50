/**
 A blob cut off at any offset. Cut inside its records, the reader gives the records before the cut. Cut inside
 the rest of a closed block, it takes padding and footer for more of the log, and can give records that
 nobody wrote.
 */
module StreamCut {
  import opened Bytes
  import opened Protobuf
  import opened Checksum
  import opened FooterMark
  import opened StreamMessages
  import opened StreamFormat
  import opened StreamRoundTrip

  // ---- Where a cut falls ----

  /** The closed blocks before the cut, the data kept of the next one, and what is kept of its padding and footer. */
  datatype Cut = Cut(whole: nat, data: bytes, slot: bytes)

  ghost function CutAt(sealed: seq<Sealed>, tail: bytes, m: nat): Cut
    requires forall b <- sealed :: Closed(b)
    requires m <= |Blocks(sealed)| + |tail|
  {
    if sealed == [] then Cut(0, tail[..m], [])
    else if m < BLOCK_SIZE then
      var b := sealed[0];
      if m <= |b.data| then Cut(0, b.data[..m], []) else Cut(0, b.data, BlockBytes(b)[|b.data|..m])
    else
      var c := CutAt(sealed[1..], tail, m - BLOCK_SIZE);
      c.(whole := c.whole + 1)
  }

  /** What a cut keeps of the data. */
  ghost function Kept(sealed: seq<Sealed>, c: Cut): nat
    requires c.whole <= |sealed|
  {
    |Flat(sealed[..c.whole])| + |c.data|
  }

  ghost predicate Pieces(sealed: seq<Sealed>, tail: bytes, m: nat, c: Cut)
    requires forall b <- sealed :: Closed(b)
    requires m <= |Blocks(sealed)| + |tail|
  {
    && c.whole <= |sealed| && |c.data| + |c.slot| < BLOCK_SIZE
    && (Blocks(sealed) + tail)[..m] == Blocks(sealed[..c.whole]) + (c.data + c.slot)
    && Kept(sealed, c) <= |Flat(sealed) + tail|
    && Flat(sealed[..c.whole]) + c.data == (Flat(sealed) + tail)[..Kept(sealed, c)]
    && (c.whole < |sealed| ==> |c.data| <= |sealed[c.whole].data|)
    && (c.slot != [] ==> c.whole < |sealed| && OfBlock(sealed[c.whole], c.data, c.slot))
  }

  ghost predicate OfBlock(b: Sealed, data: bytes, slot: bytes)
    requires Closed(b)
  {
    data == b.data && |b.data| + |slot| <= BLOCK_SIZE && slot == BlockBytes(b)[|b.data|..|b.data| + |slot|]
  }

  lemma {:induction false} CutPieces(sealed: seq<Sealed>, tail: bytes, m: nat)
    requires (forall b <- sealed :: Closed(b)) && |tail| <= DATA_SIZE && m <= |Blocks(sealed)| + |tail|
    ensures Pieces(sealed, tail, m, CutAt(sealed, tail, m))
    decreases |sealed|
  {
    hide Closed;
    hide Blocks;
    hide Flat;
    hide Pieces;
    if sealed == [] {
      NoBlocks();
      CutInTail(tail, m);
    } else if m < BLOCK_SIZE {
      CutInFirst(sealed, tail, m);
    } else {
      BlocksOfRest(sealed);
      var c := CutAt(sealed[1..], tail, m - BLOCK_SIZE);
      CutPieces(sealed[1..], tail, m - BLOCK_SIZE);
      CutInRest(sealed, tail, m, c);
    }
  }

  lemma NoBlocks()
    ensures Blocks([]) == []
  {
  }

  lemma BlocksOfRest(sealed: seq<Sealed>)
    requires sealed != [] && forall b <- sealed :: Closed(b)
    ensures forall b <- sealed[1..] :: Closed(b)
    ensures |Blocks(sealed)| == BLOCK_SIZE + |Blocks(sealed[1..])|
  {
    hide Closed;
    assert sealed[0] in sealed;
  }

  lemma CutInTail(tail: bytes, m: nat)
    requires m <= |tail| <= DATA_SIZE
    ensures Blocks([]) == [] && Pieces([], tail, m, CutAt([], tail, m))
  {
    var none: seq<Sealed> := [];
    assert Blocks(none) + tail == tail && Flat(none) + tail == tail;
    assert none[..0] == [];
    assert tail[..m] + [] == tail[..m];
  }

  lemma CutInFirst(sealed: seq<Sealed>, tail: bytes, m: nat)
    requires (forall b <- sealed :: Closed(b)) && sealed != [] && m < BLOCK_SIZE && m <= |Blocks(sealed)| + |tail|
    ensures Pieces(sealed, tail, m, CutAt(sealed, tail, m))
  {
    hide Closed;
    hide BlockBytes;
    hide OfBlock;
    var c, b := CutAt(sealed, tail, m), sealed[0];
    assert b in sealed && sealed[..0] == [];
    CutInBlock(b, m, c);
    Associative(b.data, Flat(sealed[1..]), tail);
    Associative(BlockBytes(b), Blocks(sealed[1..]), tail);
    SlicePrefix(b.data, Flat(sealed[1..]) + tail, |c.data|);
    SlicePrefix(BlockBytes(b), Blocks(sealed[1..]) + tail, m);
  }

  lemma SlicePrefix(a: bytes, more: bytes, m: nat)
    requires m <= |a|
    ensures (a + more)[..m] == a[..m] && [] + a[..m] == a[..m]
  {
  }

  lemma CutInRest(sealed: seq<Sealed>, tail: bytes, m: nat, c: Cut)
    requires (forall b <- sealed :: Closed(b)) && sealed != [] && BLOCK_SIZE <= m <= |Blocks(sealed)| + |tail|
    requires m - BLOCK_SIZE <= |Blocks(sealed[1..])| + |tail|
    requires Pieces(sealed[1..], tail, m - BLOCK_SIZE, c)
    ensures Pieces(sealed, tail, m, c.(whole := c.whole + 1))
  {
    hide Closed;
    hide Blocks;
    hide Flat;
    hide OfBlock;
    CutBytesInRest(sealed, tail, m, c.whole, c.data + c.slot);
    CutDataInRest(sealed, tail, c.whole, c.data);
    assert c.whole + 1 < |sealed| ==> sealed[c.whole + 1] == sealed[1..][c.whole];
  }

  lemma CutInBlock(b: Sealed, m: nat, c: Cut)
    requires Closed(b) && m < BLOCK_SIZE
    requires c == if m <= |b.data| then Cut(0, b.data[..m], []) else Cut(0, b.data, BlockBytes(b)[|b.data|..m])
    ensures BlockBytes(b)[..m] == c.data + c.slot && |c.data| + |c.slot| == m
    ensures c.data == b.data[..|c.data|] && (c.slot != [] ==> OfBlock(b, c.data, c.slot))
  {
    var s, d := BlockBytes(b), b.data;
    BlockStartsWithData(b);
    hide BlockBytes;
    if m <= |d| {
      assert s[..m] == s[..|d|][..m];
      assert c.data + c.slot == c.data;
    } else {
      assert s[..m] == s[..|d|] + s[|d|..m];
      assert d[..|d|] == d;
    }
  }

  lemma BlockStartsWithData(b: Sealed)
    requires Closed(b)
    ensures BlockBytes(b)[..|b.data|] == b.data
  {
  }

  lemma PrefixOfSum(a: bytes, more: bytes, m: nat)
    requires |a| <= m <= |a| + |more|
    ensures (a + more)[..m] == a + more[..m - |a|]
  {
  }

  lemma CutBytesInRest(sealed: seq<Sealed>, tail: bytes, m: nat, w: nat, kept: bytes)
    requires (forall b <- sealed :: Closed(b)) && sealed != [] && BLOCK_SIZE <= m <= |Blocks(sealed)| + |tail|
    requires m - BLOCK_SIZE <= |Blocks(sealed[1..])| + |tail| && w < |sealed|
    requires (Blocks(sealed[1..]) + tail)[..m - BLOCK_SIZE] == Blocks(sealed[1..][..w]) + kept
    ensures (Blocks(sealed) + tail)[..m] == Blocks(sealed[..w + 1]) + kept
  {
    hide Closed;
    hide BlockBytes;
    var b, rest := sealed[0], sealed[1..];
    assert b in sealed;
    assert sealed[..w + 1][0] == b && sealed[..w + 1][1..] == rest[..w];
    Associative(BlockBytes(b), Blocks(rest), tail);
    PrefixOfSum(BlockBytes(b), Blocks(rest) + tail, m);
    Associative(BlockBytes(b), Blocks(rest[..w]), kept);
  }

  lemma CutDataInRest(sealed: seq<Sealed>, tail: bytes, w: nat, kept: bytes)
    requires sealed != [] && w < |sealed|
    requires var n := |Flat(sealed[1..][..w])| + |kept|;
      n <= |Flat(sealed[1..]) + tail| && Flat(sealed[1..][..w]) + kept == (Flat(sealed[1..]) + tail)[..n]
    ensures var n := |Flat(sealed[..w + 1])| + |kept|;
      n <= |Flat(sealed) + tail| && Flat(sealed[..w + 1]) + kept == (Flat(sealed) + tail)[..n]
  {
    var b, rest := sealed[0], sealed[1..];
    assert sealed[..w + 1][0] == b && sealed[..w + 1][1..] == rest[..w];
    Associative(b.data, Flat(rest), tail);
    Associative(b.data, Flat(rest[..w]), kept);
    PrefixOfSum(b.data, Flat(rest) + tail, |b.data| + |Flat(rest[..w])| + |kept|);
  }

  // ---- Records, then other bytes ----

  /** How many records lie wholly in the first `n` bytes. */
  ghost function Complete(records: seq<StreamRecord>, n: nat): (k: nat)
    ensures k <= |records|
  {
    if records == [] || n < |RecordBytes(records[0].payload)| then 0
    else 1 + Complete(records[1..], n - |RecordBytes(records[0].payload)|)
  }

  /** The bytes left over after the complete records. */
  ghost function LeftOver(records: seq<StreamRecord>, n: nat): nat {
    if records == [] || n < |RecordBytes(records[0].payload)| then n
    else LeftOver(records[1..], n - |RecordBytes(records[0].payload)|)
  }

  /** The cut falls between records, or past the length of the record it falls in. */
  ghost predicate CleanCut(records: seq<StreamRecord>, n: nat) {
    var k, left := Complete(records, n), LeftOver(records, n);
    left == 0 || (k < |records| && left >= |Varint(|records[k].payload|)|)
  }

  lemma {:induction false} CutVarintMalformed(n: nat, room: nat, cut: nat)
    requires room > 0 && cut < |Varint(n)| <= room
    ensures ReadVarint32(Varint(n)[..cut], room).Malformed?
    decreases room
  {
    if cut > 0 {
      var s := Varint(n)[..cut];
      assert s[0] == 128 + n % 128 && s[1..] == Varint(n / 128)[..cut - 1];
      CutVarintMalformed(n / 128, room - 1, cut - 1);
    }
  }

  lemma CutInLength(n: u32, cut: nat, at: nat)
    requires 0 < cut < |Varint(n)|
    ensures ReadRecords(Varint(n)[..cut], at) == Err(TruncatedRecordHeader)
  {
    hide Varint;
    hide ReadVarint32;
    hide Pow128;
    Pow128Values();
    VarintAtMost(n, 5);
    CutVarintMalformed(n, 5, cut);
  }

  lemma CutAfterLength(n: u32, some: bytes, at: nat)
    requires |some| < 4 + n
    ensures ReadRecords(Varint(n) + some, at) == Ok([])
  {
    hide Varint;
    hide ReadLength;
    LengthReads(n, some);
  }

  lemma CutRecord(payload: bytes, cut: nat, at: nat)
    requires |payload| < U32_LIMIT && 0 < cut < |RecordBytes(payload)|
    ensures ReadRecords(RecordBytes(payload)[..cut], at)
         == if cut >= |Varint(|payload|)| then Ok([]) else Err(TruncatedRecordHeader)
  {
    hide StreamCrc;
    hide Varint;
    hide ReadRecords;
    var prefix := Varint(|payload|);
    var crc := LittleEndian(StreamCrc(0, payload), 4);
    var s := RecordBytes(payload)[..cut];
    Associative(prefix, crc, payload);
    if cut < |prefix| {
      assert s == prefix[..cut];
      CutInLength(|payload|, cut, at);
    } else {
      var some := (crc + payload)[..cut - |prefix|];
      assert s == prefix + some;
      CutAfterLength(|payload|, some, at);
    }
  }

  /** What is left of a record after the complete ones. */
  ghost function Unfinished(records: seq<StreamRecord>, n: nat): (s: bytes)
    requires n <= |AllBytes(records)|
    ensures |s| == LeftOver(records, n)
  {
    if records == [] then []
    else if n < |RecordBytes(records[0].payload)| then RecordBytes(records[0].payload)[..n]
    else Unfinished(records[1..], n - |RecordBytes(records[0].payload)|)
  }

  /** The complete records are read, and then whatever the rest reads as. */
  lemma {:induction false} ReadsThrough(records: seq<StreamRecord>, n: nat, extra: bytes, at: nat)
    requires Short(records) && n <= |AllBytes(records)|
    ensures LeftOver(records, n) <= n
    ensures ReadRecords(AllBytes(records)[..n] + extra, at)
         == PrependFound(
              FoundIn(records[..Complete(records, n)], at),
              ReadRecords(Unfinished(records, n) + extra, at + n - LeftOver(records, n)))
    decreases |records|
  {
    hide RecordBytes;
    hide ReadRecords;
    if records == [] {
      assert AllBytes(records)[..n] == [] && records[..0] == [];
      NothingBefore(ReadRecords([] + extra, at));
    } else {
      assert records[0] in records;
      var first, rest := records[0], records[1..];
      var size := |RecordBytes(first.payload)|;
      if n < size {
        assert AllBytes(records)[..n] == RecordBytes(first.payload)[..n];
        assert records[..0] == [];
        NothingBefore(ReadRecords(RecordBytes(first.payload)[..n] + extra, at));
      } else {
        var some := AllBytes(rest)[..n - size];
        assert AllBytes(records)[..n] == RecordBytes(first.payload) + some;
        Associative(RecordBytes(first.payload), some, extra);
        ReadsThrough(rest, n - size, extra, at + size);
        RecordReads(first.payload, some + extra, at);
        var k := Complete(rest, n - size);
        assert records[..k + 1][0] == first && records[..k + 1][1..] == rest[..k];
        OneBefore(Found(at, first.payload), FoundIn(rest[..k], at + size),
          ReadRecords(Unfinished(rest, n - size) + extra, at + n - LeftOver(rest, n - size)));
      }
    }
  }

  lemma NothingBefore(r: Result<seq<Found>, Error>)
    ensures PrependFound([], r) == r
  {
    if r.Ok? {
      assert [] + r.value == r.value;
    }
  }

  lemma OneBefore(one: Found, found: seq<Found>, r: Result<seq<Found>, Error>)
    ensures PrependFound([one], PrependFound(found, r)) == PrependFound([one] + found, r)
  {
    if r.Ok? {
      assert [one] + (found + r.value) == [one] + found + r.value;
    }
  }

  // ---- Zeros are records ----

  /** Five zero bytes: length 0, and the checksum of nothing. */
  lemma EmptyRecord()
    ensures RecordBytes([]) == Zeros(5) && StreamCrc(0, []) == 0
  {
    assert Varint(0) == [0];
    assert LittleEndian(0, 4) == [0] + LittleEndian(0, 3);
    assert LittleEndian(0, 3) == [0] + LittleEndian(0, 2);
    assert LittleEndian(0, 2) == [0, 0];
    NoBytesCrc();
  }

  lemma NoBytesCrc()
    ensures StreamCrc(0, []) == 0
  {
  }

  /** Empty records, one after the other. */
  ghost function Phantoms(count: nat, at: nat): (found: seq<Found>)
    ensures |found| == count
  {
    if count == 0 then [] else [Found(at, [])] + Phantoms(count - 1, at + 5)
  }

  lemma {:induction false} ZerosRead(z: nat, rest: bytes, at: nat)
    ensures ReadRecords(Zeros(z) + rest, at)
         == PrependFound(Phantoms(z / 5, at), ReadRecords(Zeros(z % 5) + rest, at + z - z % 5))
    decreases z
  {
    hide ReadRecords;
    hide RecordBytes;
    if z < 5 {
      NothingBefore(ReadRecords(Zeros(z) + rest, at));
    } else {
      EmptyRecord();
      assert Zeros(z) + rest == Zeros(5) + (Zeros(z - 5) + rest);
      RecordReads([], Zeros(z - 5) + rest, at);
      ZerosRead(z - 5, rest, at + 5);
      FiveLess(z);
      OneBefore(Found(at, []), Phantoms((z - 5) / 5, at + 5), ReadRecords(Zeros(z % 5) + rest, at + z - z % 5));
    }
  }

  lemma FiveLess(z: nat)
    requires z >= 5
    ensures (z - 5) / 5 + 1 == z / 5 && (z - 5) % 5 == z % 5
  {
  }

  // ---- The bytes of a footer are not ----

  /** A footer's message opens with its magic number and version. */
  const MARK: bytes := [0x09, 0x66, 0x66, 0x66, 0x66, 0xbc, 0xbc, 0xbc, 0xbc, 0x10, 0x01]

  ghost predicate StartsLikeFooter(message: bytes) {
    |message| >= 14 && message[..11] == MARK
  }

  /** How many bytes of a footer's message make the reader give up, after `r` zeros that are not a record. */
  function Tolerated(r: nat): nat {
    if r == 0 then 14 else if r < 5 then 5 - r else 0
  }

  lemma AfterZeros(r: nat, message: bytes, p: nat, at: nat)
    requires r < 5 && StartsLikeFooter(message) && p <= |message|
    ensures ReadRecords(Zeros(r) + message[..p], at) == if p < Tolerated(r) then Ok([]) else Err(RecordChecksum)
  {
    if r > 0 {
      AfterSomeZeros(r, message, p, at);
    } else {
      assert Zeros(0) + message[..p] == message[..p];
      if p > 0 {
        AtMessage(message, p, at);
      }
    }
  }

  lemma AfterSomeZeros(r: nat, message: bytes, p: nat, at: nat)
    requires 0 < r < 5 && StartsLikeFooter(message) && p <= |message|
    ensures ReadRecords(Zeros(r) + message[..p], at) == if p < 5 - r then Ok([]) else Err(RecordChecksum)
  {
    hide StreamCrc;
    var s := Zeros(r) + message[..p];
    var rest := s[1..];
    assert s[0] == 0;
    assert ReadLength(s) == Parsed(0, rest);
    if p >= 5 - r {
      NoBytesCrc();
      var crc := rest[..4];
      assert message[0] == MARK[0];
      assert crc[r - 1] == 9;
      NotZero(crc, r - 1);
      assert rest[4..4] == [];
    }
  }

  lemma {:induction false} NotZero(s: bytes, i: nat)
    requires i < |s| && s[i] != 0
    ensures LittleEndianValue(s) != 0
  {
    if i > 0 {
      NotZero(s[1..], i - 1);
    }
  }

  lemma AtMessage(message: bytes, p: nat, at: nat)
    requires StartsLikeFooter(message) && 0 < p <= |message|
    ensures ReadRecords(message[..p], at) == if p < 14 then Ok([]) else Err(RecordChecksum)
  {
    hide StreamCrc;
    var s := message[..p];
    var rest := s[1..];
    assert message[0] == MARK[0];
    assert ReadLength(s) == Parsed(9, rest);
    if p >= 14 {
      assert rest == message[1..p];
      SliceOfSlice(message, 1, p, 0, 4);
      SliceOfSlice(message, 1, p, 4, 13);
      MarkParts(message);
      MarkIsNoRecord(message[11..14]);
      FourSixes();
    }
  }

  lemma MarkParts(message: bytes)
    requires StartsLikeFooter(message)
    ensures message[1..5] == [0x66, 0x66, 0x66, 0x66]
    ensures message[5..14] == [0xbc, 0xbc, 0xbc, 0xbc, 0x10, 0x01] + message[11..14]
  {
    SliceOfSlice(message, 0, 11, 1, 5);
    SliceOfSlice(message, 0, 11, 5, 11);
    assert message[0..11] == MARK;
    assert MARK[1..5] == [0x66, 0x66, 0x66, 0x66] && MARK[5..11] == [0xbc, 0xbc, 0xbc, 0xbc, 0x10, 0x01];
    assert message[5..14] == message[5..11] + message[11..14];
  }

  lemma SliceOfSlice(s: bytes, a: nat, b: nat, c: nat, d: nat)
    requires a <= b <= |s| && c <= d <= b - a
    ensures s[a..b][c..d] == s[a + c..a + d]
  {
    forall i | 0 <= i < d - c
      ensures s[a..b][c..d][i] == s[a + c..a + d][i]
    {
    }
  }

  lemma FourSixes()
    ensures Le32([0x66, 0x66, 0x66, 0x66]) == 0x6666_6666
  {
    assert LittleEndianValue([0x66]) == 0x66;
    assert [0x66, 0x66][1..] == [0x66] && [0x66, 0x66, 0x66][1..] == [0x66, 0x66];
    assert [0x66, 0x66, 0x66, 0x66][1..] == [0x66, 0x66, 0x66];
    assert LittleEndianValue([0x66, 0x66]) == 0x6666;
    assert LittleEndianValue([0x66, 0x66, 0x66]) == 0x66_6666;
  }

  // ---- What lies after the data of a closed block ----

  function LeadingZeros(s: bytes): (z: nat)
    ensures z <= |s|
  {
    if s == [] || s[0] != 0 then 0 else 1 + LeadingZeros(s[1..])
  }

  lemma {:induction false} LeadingZerosAre(z: nat, rest: bytes)
    requires rest == [] || rest[0] != 0
    ensures LeadingZeros(Zeros(z) + rest) == z
  {
    if z == 0 {
      assert Zeros(0) + rest == rest;
    } else {
      assert (Zeros(z) + rest)[1..] == Zeros(z - 1) + rest;
      LeadingZerosAre(z - 1, rest);
    }
  }

  /** Zeros, and then the beginning of a footer's message. */
  ghost predicate OfSlot(slot: bytes, message: bytes) {
    var z := LeadingZeros(slot);
    StartsLikeFooter(message) && |slot| - z <= |message| && slot == Zeros(z) + message[..|slot| - z]
  }

  /** What the reader makes of it: an empty record for every five zeros, unless the message goes on for long enough. */
  ghost function Spilled(slot: bytes, at: nat): Result<seq<Found>, Error> {
    var z := LeadingZeros(slot);
    if |slot| - z < Tolerated(z % 5) then Ok(Phantoms(z / 5, at)) else Err(RecordChecksum)
  }

  lemma SlotReads(slot: bytes, message: bytes, at: nat)
    requires OfSlot(slot, message)
    ensures ReadRecords(slot, at) == Spilled(slot, at)
  {
    hide ReadRecords;
    var z := LeadingZeros(slot);
    var p := |slot| - z;
    ZerosRead(z, message[..p], at);
    AfterZeros(z % 5, message, p, at + z - z % 5);
    assert Phantoms(z / 5, at) + [] == Phantoms(z / 5, at);
  }

  lemma SlotAfterSome(slot: bytes, message: bytes, some: nat)
    requires OfSlot(slot, message) && some <= LeadingZeros(slot)
    ensures OfSlot(slot[some..], message) && LeadingZeros(slot[some..]) == LeadingZeros(slot) - some
  {
    var z := LeadingZeros(slot);
    var rest := message[..|slot| - z];
    assert message[..11][0] == 9;
    assert slot[some..] == Zeros(z - some) + rest;
    LeadingZerosAre(z - some, rest);
  }

  /** A footer's message, with the size and checksum that close its slot. */
  ghost function FooterMessage(b: Sealed): bytes {
    var proto := FooterProto(b.footer);
    proto + (LittleEndian(|proto|, 4) + LittleEndian(StreamCrc(0, proto), 4))
  }

  ghost function Gap(b: Sealed): nat
    requires Closed(b)
  {
    DATA_SIZE - |b.data| + FOOTER_SIZE - PROTO_HEADER_SIZE - |FooterProto(b.footer)|
  }

  lemma AfterData(b: Sealed)
    requires Closed(b)
    ensures BlockBytes(b)[|b.data|..] == Zeros(Gap(b)) + FooterMessage(b)
  {
    hide FooterProto;
    hide FooterBytes;
    hide BlockBytes;
    hide FooterMessage;
    var y, z := DATA_SIZE - |b.data|, FOOTER_SIZE - PROTO_HEADER_SIZE - |FooterProto(b.footer)|;
    FooterIsMessage(b, z);
    BlockIsData(b, y);
    hide *;
    AfterFirst(b.data, Zeros(y), FooterBytes(b.footer));
    Associative(Zeros(y), Zeros(z), FooterMessage(b));
    MoreZeros(y, z);
    GapIs(b, y, z);
  }

  lemma GapIs(b: Sealed, y: nat, z: nat)
    requires Closed(b) && y == DATA_SIZE - |b.data|
    requires z == FOOTER_SIZE - PROTO_HEADER_SIZE - |FooterProto(b.footer)|
    ensures Gap(b) == y + z
  {
    hide FooterProto;
  }

  lemma FooterIsMessage(b: Sealed, z: nat)
    requires Closed(b) && z == FOOTER_SIZE - PROTO_HEADER_SIZE - |FooterProto(b.footer)|
    ensures FooterBytes(b.footer) == Zeros(z) + FooterMessage(b)
  {
    hide StreamCrc;
    hide FooterProto;
    hide LittleEndian;
    hide Zeros;
    var proto := FooterProto(b.footer);
    Associative(Zeros(z), proto, LittleEndian(|proto|, 4) + LittleEndian(StreamCrc(0, proto), 4));
  }

  lemma BlockIsData(b: Sealed, y: nat)
    requires Closed(b) && y == DATA_SIZE - |b.data|
    ensures BlockBytes(b) == b.data + Zeros(y) + FooterBytes(b.footer)
  {
    hide FooterBytes;
    hide Zeros;
  }

  lemma AfterFirst(a: bytes, y: bytes, z: bytes)
    ensures (a + y + z)[|a|..] == y + z
  {
    Associative(a, y, z);
  }

  lemma FooterStart(f: BlockFooter)
    requires f.magic == MAGIC && f.version == VERSION
    ensures |FooterProto(f)| >= 11 && FooterProto(f)[..11] == MARK
  {
    var m := FooterToMessage(f);
    FirstFields(m);
    MagicField();
    VersionField();
    hide FieldBytes;
    hide FieldsBytes;
    var first, second := FieldBytes(Field(1, Fixed64), Number(MAGIC)), FieldBytes(Field(2, UInt32), Number(VERSION));
    var rest := FieldsBytes(FOOTER_SCHEMA, m, 2);
    assert m.values[0] == Number(MAGIC) && m.values[1] == Number(VERSION);
    Associative(first, second, rest);
    assert first + second == MARK;
  }

  lemma FirstFields(m: Message)
    requires |m.values| == 11
    ensures MessageBytes(FOOTER_SCHEMA, m)
         == FieldBytes(Field(1, Fixed64), m.values[0])
            + (FieldBytes(Field(2, UInt32), m.values[1]) + FieldsBytes(FOOTER_SCHEMA, m, 2))
  {
    hide FieldBytes;
    assert FOOTER_SCHEMA.fields[0] == Field(1, Fixed64) && FOOTER_SCHEMA.fields[1] == Field(2, UInt32);
    assert FieldsBytes(FOOTER_SCHEMA, m, 1)
        == FieldBytes(FOOTER_SCHEMA.fields[1], m.values[1]) + FieldsBytes(FOOTER_SCHEMA, m, 2);
  }

  lemma MagicField()
    ensures FieldBytes(Field(1, Fixed64), Number(MAGIC)) == [0x09, 0x66, 0x66, 0x66, 0x66, 0xbc, 0xbc, 0xbc, 0xbc]
  {
    hide LittleEndian;
    MagicBytes();
    assert Varint(9) == [9];
  }

  lemma MagicBytes()
    ensures LittleEndian(MAGIC, 8) == [0x66, 0x66, 0x66, 0x66, 0xbc, 0xbc, 0xbc, 0xbc]
  {
    hide LittleEndian;
    var s: bytes := [0x66, 0x66, 0x66, 0x66, 0xbc, 0xbc, 0xbc, 0xbc];
    LittleEndianUnique(s);
    OneMore(s, 7, 0);
    OneMore(s, 6, 0xbc);
    OneMore(s, 5, 0xbcbc);
    OneMore(s, 4, 0xbc_bcbc);
    OneMore(s, 3, 0xbcbc_bcbc);
    OneMore(s, 2, 0xbc_bcbc_bc66);
    OneMore(s, 1, 0xbcbc_bcbc_6666);
    OneMore(s, 0, 0xbc_bcbc_bc66_6666);
    assert s[0..] == s && s[8..] == [];
  }

  lemma OneMore(s: bytes, i: nat, high: nat)
    requires i < |s|
    ensures LittleEndianValue(s[i + 1..]) == high ==> LittleEndianValue(s[i..]) == s[i] + 256 * high
    ensures LittleEndianValue([]) == 0
  {
    assert s[i..][1..] == s[i + 1..];
  }

  lemma VersionField()
    ensures FieldBytes(Field(2, UInt32), Number(VERSION)) == [0x10, 0x01]
  {
  }

  lemma SlotOfBlock(b: Sealed, data: bytes, slot: bytes)
    requires Closed(b) && b.footer.version == VERSION && OfBlock(b, data, slot)
    ensures OfSlot(slot, FooterMessage(b))
    ensures LeadingZeros(slot) == if |slot| <= Gap(b) then |slot| else Gap(b)
  {
    hide *;
    AfterData(b);
    SlotIsPrefix(b, data, slot);
    MessageStarts(b);
    SlotOfBytes(Gap(b), FooterMessage(b), slot);
  }

  lemma MessageStarts(b: Sealed)
    requires b.footer.magic == MAGIC && b.footer.version == VERSION
    ensures StartsLikeFooter(FooterMessage(b))
  {
    hide FooterProto;
    hide StreamCrc;
    FooterStart(b.footer);
    SlicePrefix(
      FooterProto(b.footer),
      LittleEndian(|FooterProto(b.footer)|, 4) + LittleEndian(StreamCrc(0, FooterProto(b.footer)), 4), 11);
  }

  lemma SlotIsPrefix(b: Sealed, data: bytes, slot: bytes)
    requires Closed(b) && OfBlock(b, data, slot)
    ensures b.footer.magic == MAGIC && |slot| <= |BlockBytes(b)[|b.data|..]|
    ensures slot == BlockBytes(b)[|b.data|..][..|slot|]
  {
    hide FooterBytes;
    hide FooterProto;
    var s := BlockBytes(b);
    hide BlockBytes;
    SliceOfSlice(s, |b.data|, |s|, 0, |slot|);
    assert s[|b.data|..] == s[|b.data|..|s|];
  }

  lemma FewerZeros(z: nat, n: nat)
    requires n <= z
    ensures Zeros(z)[..n] == Zeros(n)
  {
  }

  lemma MoreZeros(y: nat, z: nat)
    ensures Zeros(y) + Zeros(z) == Zeros(y + z)
  {
  }

  lemma SlotOfBytes(gap: nat, message: bytes, slot: bytes)
    requires StartsLikeFooter(message) && |slot| <= gap + |message| && slot == (Zeros(gap) + message)[..|slot|]
    ensures OfSlot(slot, message) && LeadingZeros(slot) == if |slot| <= gap then |slot| else gap
  {
    hide *;
    FirstIsNine(message);
    if |slot| <= gap {
      AllZeros(gap, message, slot);
      IsOfSlot(slot, message, |slot|);
    } else {
      PrefixOfSum(Zeros(gap), message, |slot|);
      LeadingZerosAre(gap, message[..|slot| - gap]);
      IsOfSlot(slot, message, gap);
    }
  }

  lemma IsOfSlot(slot: bytes, message: bytes, z: nat)
    requires z == LeadingZeros(slot) && StartsLikeFooter(message)
    requires |slot| - z <= |message| && slot == Zeros(z) + message[..|slot| - z]
    ensures OfSlot(slot, message)
  {
  }

  lemma FirstIsNine(message: bytes)
    requires StartsLikeFooter(message)
    ensures |message| >= 14 && message[0] == 9
  {
    assert message[0] == message[..11][0] == MARK[0];
  }

  lemma AllZeros(gap: nat, message: bytes, slot: bytes)
    requires |slot| <= gap && slot == (Zeros(gap) + message)[..|slot|]
    ensures LeadingZeros(slot) == |slot| && slot == Zeros(|slot|) + message[..0]
  {
    hide LeadingZeros;
    SlicePrefix(Zeros(gap), message, |slot|);
    FewerZeros(gap, |slot|);
    EmptyAfter(Zeros(|slot|), message);
    LeadingZerosAre(|slot|, message[..0]);
  }

  lemma EmptyAfter(s: bytes, t: bytes)
    ensures s + t[..0] == s
  {
  }

  // ---- A record that a block ends in ----

  /** The cut leaves no record with part of its header. */
  ghost predicate WholeHeader(records: seq<StreamRecord>, n: nat) {
    var k, left := Complete(records, n), LeftOver(records, n);
    left == 0 || (k < |records| && left >= |RecordHeader(records[k].payload)|)
  }

  lemma {:induction false} UnfinishedIs(records: seq<StreamRecord>, n: nat)
    requires n <= |AllBytes(records)| && LeftOver(records, n) > 0
    ensures Complete(records, n) < |records|
    ensures var rec := RecordBytes(records[Complete(records, n)].payload);
      LeftOver(records, n) < |rec| && Unfinished(records, n) == rec[..LeftOver(records, n)]
  {
    hide RecordBytes;
    if records != [] && n >= |RecordBytes(records[0].payload)| {
      UnfinishedIs(records[1..], n - |RecordBytes(records[0].payload)|);
    }
  }

  /** The payload that the reader puts together from what is there of a record and the bytes after it. */
  ghost function Spliced(payload: bytes, left: nat, slot: bytes): bytes
    requires |RecordHeader(payload)| <= left <= |RecordBytes(payload)| <= left + |slot|
  {
    payload[..left - |RecordHeader(payload)|] + slot[..|RecordBytes(payload)| - left]
  }

  ghost function Resumed(payload: bytes, left: nat, slot: bytes, at: nat): Result<seq<Found>, Error>
    requires |RecordHeader(payload)| <= left <= |RecordBytes(payload)|
  {
    var missing := |RecordBytes(payload)| - left;
    if |slot| < missing then Ok([])
    else
      var spliced := Spliced(payload, left, slot);
      if StreamCrc(0, spliced) != StreamCrc(0, payload) then Err(RecordChecksum)
      else PrependFound([Found(at, spliced)], ReadRecords(slot[missing..], at + |RecordBytes(payload)|))
  }

  lemma ResumedReads(payload: bytes, left: nat, slot: bytes, at: nat)
    requires |payload| < U32_LIMIT && |RecordHeader(payload)| <= left < |RecordBytes(payload)|
    ensures ReadRecords(RecordBytes(payload)[..left] + slot, at) == Resumed(payload, left, slot, at)
  {
    hide StreamCrc;
    hide ReadLength;
    hide Varint;
    hide LittleEndian;
    var length, crc := Varint(|payload|), LittleEndian(StreamCrc(0, payload), 4);
    var have := left - |RecordHeader(payload)|;
    var some := payload[..have] + slot;
    Associative4(length, crc, payload[..have], slot);
    PrefixOfSum(RecordHeader(payload), payload, left);
    LengthReads(|payload|, crc + some);
    Le32RoundTrip(StreamCrc(0, payload));
    if |slot| >= |payload| - have {
      TakeAfter(crc, payload[..have], slot, |payload|);
    }
  }

  lemma TakeAfter(a: bytes, b: bytes, c: bytes, n: nat)
    requires |b| <= n <= |b| + |c|
    ensures var s := a + (b + c);
      s[..|a|] == a && s[|a|..|a| + n] == b + c[..n - |b|] && s[|a| + n..] == c[n - |b|..]
  {
  }

  // ---- What is read after the complete records ----

  ghost function Beyond(records: seq<StreamRecord>, n: nat, slot: bytes): Result<seq<Found>, Error>
    requires n <= |AllBytes(records)| && (slot != [] ==> WholeHeader(records, n))
  {
    var k, left := Complete(records, n), LeftOver(records, n);
    if slot == [] then if CleanCut(records, n) then Ok([]) else Err(TruncatedRecordHeader)
    else if left == 0 then Spilled(slot, n)
    else
      UnfinishedIs(records, n);
      CompleteFits(records, n);
      Resumed(records[k].payload, left, slot, n - left)
  }

  lemma BeyondReads(records: seq<StreamRecord>, n: nat, slot: bytes, message: bytes)
    requires Short(records) && n <= |AllBytes(records)|
    requires slot != [] ==> WholeHeader(records, n) && OfSlot(slot, message)
    ensures ReadRecords(AllBytes(records)[..n] + slot, 0)
         == PrependFound(FoundIn(records[..Complete(records, n)], 0), Beyond(records, n, slot))
  {
    hide ReadRecords;
    hide Beyond;
    hide OfSlot;
    hide FoundIn;
    hide AllBytes;
    ReadsThrough(records, n, slot, 0);
    UnfinishedReads(records, n, slot, message);
  }

  lemma UnfinishedReads(records: seq<StreamRecord>, n: nat, slot: bytes, message: bytes)
    requires Short(records) && LeftOver(records, n) <= n <= |AllBytes(records)|
    requires slot != [] ==> WholeHeader(records, n) && OfSlot(slot, message)
    ensures ReadRecords(Unfinished(records, n) + slot, n - LeftOver(records, n)) == Beyond(records, n, slot)
  {
    hide ReadRecords;
    hide RecordBytes;
    hide RecordHeader;
    hide OfSlot;
    hide Spilled;
    hide Resumed;
    hide Complete;
    hide LeftOver;
    hide Unfinished;
    hide AllBytes;
    var k, left := Complete(records, n), LeftOver(records, n);
    var at := n - left;
    if left == 0 {
      assert Unfinished(records, n) + slot == slot;
      if slot == [] {
        NoRecords(at);
      } else {
        SlotReads(slot, message, at);
      }
    } else {
      UnfinishedIs(records, n);
      assert records[k] in records;
      if slot == [] {
        assert Unfinished(records, n) + slot == Unfinished(records, n);
        CutRecord(records[k].payload, left, at);
      } else {
        ResumedReads(records[k].payload, left, slot, at);
      }
    }
  }

  // ---- Where they are found ----

  lemma {:induction false} IdAtPrefix(sealed: seq<Sealed>, w: nat, start: nat, at: nat)
    requires w <= |sealed| && (w < |sealed| ==> at < |Flat(sealed[..w])| + |sealed[w].data|)
    ensures IdAt(sealed[..w], start, at) == IdAt(sealed, start, at)
    decreases w
  {
    if w == 0 {
      assert sealed[..0] == [];
    } else {
      assert sealed[..w][0] == sealed[0] && sealed[..w][1..] == sealed[1..][..w - 1];
      if at >= |sealed[0].data| {
        IdAtPrefix(sealed[1..], w - 1, start + BLOCK_SIZE, at - |sealed[0].data|);
      }
    }
  }

  lemma {:induction false} CompleteFits(records: seq<StreamRecord>, n: nat)
    requires n <= |AllBytes(records)|
    ensures Position(records, Complete(records, n)) + LeftOver(records, n) == n
  {
    hide RecordBytes;
    var k := Complete(records, n);
    if records == [] || n < |RecordBytes(records[0].payload)| {
      assert records[..0] == [];
    } else {
      CompleteFits(records[1..], n - |RecordBytes(records[0].payload)|);
      assert records[..k][0] == records[0] && records[..k][1..] == records[1..][..k - 1];
    }
  }

  lemma CompleteIds(log: Log, records: seq<StreamRecord>, w: nat, n: nat)
    requires Describes(log, records) && w <= |log.sealed| && n <= |AllBytes(records)|
    requires w < |log.sealed| ==> n <= |Flat(log.sealed[..w])| + |log.sealed[w].data|
    ensures var k := Complete(records, n);
      Locate(log.sealed[..w], log.start, FoundIn(records[..k], 0)) == records[..k]
  {
    hide AllBytes;
    hide FoundIn;
    hide Flat;
    hide IdAt;
    hide Complete;
    hide LeftOver;
    var k := Complete(records, n);
    var kept := records[..k];
    CompleteFits(records, n);
    var found := FoundIn(kept, 0);
    var located := Locate(log.sealed[..w], log.start, found);
    FoundCount(kept, 0);
    forall j | 0 <= j < k
      ensures located[j] == kept[j]
    {
      FoundAt(kept, 0, j);
      assert kept[..j] == records[..j];
      PositionGrows(records, j, k);
      IdAtPrefix(log.sealed, w, log.start, Position(records, j));
    }
  }

  lemma {:induction false} FoundCount(records: seq<StreamRecord>, at: nat)
    ensures |FoundIn(records, at)| == |records|
    decreases |records|
  {
    hide RecordBytes;
    if records != [] {
      FoundCount(records[1..], at + |RecordBytes(records[0].payload)|);
    }
  }

  lemma LocateAppends(sealed: seq<Sealed>, start: nat, found: seq<Found>, more: seq<Found>)
    ensures Locate(sealed, start, found + more) == Locate(sealed, start, found) + Locate(sealed, start, more)
  {
  }

  // ---- The whole blob ----

  /** Footers carry the writer's version, and no block ends in the header of a record. */
  ghost predicate AsWritten(log: Log, records: seq<StreamRecord>) {
    forall i :: 0 <= i < |log.sealed| ==> BlockAsWritten(log.sealed, records, i)
  }

  ghost predicate BlockAsWritten(sealed: seq<Sealed>, records: seq<StreamRecord>, i: nat)
    requires i < |sealed|
  {
    sealed[i].footer.version == VERSION && WholeHeader(records, |Flat(sealed[..i + 1])|)
  }

  lemma KeptOfBlock(log: Log, records: seq<StreamRecord>, c: Cut)
    requires AsWritten(log, records) && c.whole < |log.sealed| && c.data == log.sealed[c.whole].data
    ensures WholeHeader(records, Kept(log.sealed, c)) && log.sealed[c.whole].footer.version == VERSION
  {
    hide WholeHeader;
    var w := c.whole;
    assert log.sealed[..w + 1] == log.sealed[..w] + [log.sealed[w]];
    FlatAppend(log.sealed[..w], log.sealed[w]);
    assert BlockAsWritten(log.sealed, records, w);
  }

  /** What the reader is left with: the blocks before the cut, and everything after them taken for the open one. */
  ghost function CutContents(h: BlobHeader, log: Log, records: seq<StreamRecord>, c: Cut): Result<BlobContents, Error>
    requires c.whole <= |log.sealed| && Kept(log.sealed, c) <= |AllBytes(records)|
    requires c.slot != [] ==> WholeHeader(records, Kept(log.sealed, c))
  {
    var sealed, n := log.sealed[..c.whole], Kept(log.sealed, c);
    if log.prev != 0 && sealed != [] then Err(BlockChecksum)
    else
      match Beyond(records, n, c.slot)
      case Err(e) => Err(e)
      case Ok(more) =>
        var complete := records[..Complete(records, n)];
        Ok(BlobContents(Finished(h), complete + Locate(sealed, log.start, more), Footers(sealed)))
  }

  lemma StripsCut(log: Log, w: nat, rest: bytes)
    requires Sound(log) && w <= |log.sealed| && |rest| < BLOCK_SIZE
    ensures forall b <- log.sealed[..w] :: Closed(b)
    ensures Strip(Blocks(log.sealed[..w]) + rest, log.start)
         == if log.prev != 0 && w > 0 then Err(BlockChecksum) else Ok(Stripped(log.sealed[..w], rest))
  {
    hide StreamCrc;
    hide Closed;
    hide Strip;
    var sealed := log.sealed[..w];
    if log.prev != 0 && w > 0 {
      assert sealed[0].footer.blockCrc == StreamCrc(Seed(log, 0), sealed[0].data);
      SeededBlockRejected(sealed, log.prev, rest, log.start);
    } else {
      forall b | b in sealed
        ensures Closed(b) && b.footer.blockCrc == StreamCrc(0, b.data)
      {
        var i :| 0 <= i < w && log.sealed[i] == b;
        assert Seed(log, i) == 0;
      }
      StripsBlocks(sealed, rest, log.start);
    }
  }

  lemma CutBodyReads(h: BlobHeader, log: Log, records: seq<StreamRecord>, c: Cut, message: bytes)
    requires Layout(h, log, records) && Short(records) && c.whole <= |log.sealed| && |c.data| + |c.slot| < BLOCK_SIZE
    requires Kept(log.sealed, c) <= |AllBytes(records)|
    requires Flat(log.sealed[..c.whole]) + c.data == AllBytes(records)[..Kept(log.sealed, c)]
    requires c.whole < |log.sealed| ==> |c.data| <= |log.sealed[c.whole].data|
    requires c.slot != [] ==> WholeHeader(records, Kept(log.sealed, c)) && OfSlot(c.slot, message)
    ensures forall b <- log.sealed[..c.whole] :: Closed(b)
    ensures ReadBody(Finished(h), Blocks(log.sealed[..c.whole]) + (c.data + c.slot)) == CutContents(h, log, records, c)
  {
    hide *;
    LayoutParts(h, log, records);
    StripsCut(log, c.whole, c.data + c.slot);
    var sealed, n := log.sealed[..c.whole], Kept(log.sealed, c);
    Associative(Flat(sealed), c.data, c.slot);
    BeyondReads(records, n, c.slot, message);
    KeptIs(log.sealed, c);
    CompleteIds(log, records, c.whole, n);
    var found := FoundIn(records[..Complete(records, n)], 0);
    if Beyond(records, n, c.slot).Ok? {
      LocateAppends(sealed, log.start, found, Beyond(records, n, c.slot).value);
    }
    BodyIs(h, log, records, c, found);
  }

  lemma LayoutParts(h: BlobHeader, log: Log, records: seq<StreamRecord>)
    requires Layout(h, log, records)
    ensures Sound(log) && Describes(log, records) && h.startOffset % BLOCK_SIZE == 0
    ensures log.start == h.startOffset == Finished(h).startOffset
    ensures forall b <- log.sealed :: Closed(b)
    ensures |log.tail| <= DATA_SIZE && Flat(log.sealed) + log.tail == AllBytes(records)
    ensures Body(log) == Blocks(log.sealed) + log.tail
  {
    hide BlobProto;
  }

  lemma KeptIs(sealed: seq<Sealed>, c: Cut)
    requires c.whole <= |sealed|
    ensures Kept(sealed, c) == |Flat(sealed[..c.whole])| + |c.data|
  {
  }

  lemma BodyIs(h: BlobHeader, log: Log, records: seq<StreamRecord>, c: Cut, found: seq<Found>)
    requires c.whole <= |log.sealed| && Kept(log.sealed, c) <= |AllBytes(records)|
    requires c.slot != [] ==> WholeHeader(records, Kept(log.sealed, c))
    requires log.start == Finished(h).startOffset
    requires forall b <- log.sealed[..c.whole] :: Closed(b)
    requires var sealed, n := log.sealed[..c.whole], Kept(log.sealed, c);
      var beyond := Beyond(records, n, c.slot);
      && Strip(Blocks(sealed) + (c.data + c.slot), log.start)
         == (if log.prev != 0 && c.whole > 0 then Err(BlockChecksum) else Ok(Stripped(sealed, c.data + c.slot)))
      && ReadRecords(Flat(sealed) + (c.data + c.slot), 0) == PrependFound(found, beyond)
      && Locate(sealed, log.start, found) == records[..Complete(records, n)]
      && (beyond.Ok? ==>
        Locate(sealed, log.start, found + beyond.value)
        == Locate(sealed, log.start, found) + Locate(sealed, log.start, beyond.value))
    ensures ReadBody(Finished(h), Blocks(log.sealed[..c.whole]) + (c.data + c.slot)) == CutContents(h, log, records, c)
  {
    hide Strip;
    hide Beyond;
    hide ReadRecords;
    hide Locate;
    hide Finished;
    hide Closed;
    hide Blocks;
    hide Complete;
    hide WholeHeader;
  }

  /**
   A blob cut off at any offset of its body. Cut in the data of a block, it reads as its complete records, or is
   refused when the cut falls in a record's length. Cut in the padding or the footer of a block, it reads as
   its complete records and an empty record for every five zeros, until the reader meets enough of the
   footer's message to refuse it; and a record that the block ends in is put together with those bytes.
   */
  lemma CutBlobReads(h: BlobHeader, log: Log, records: seq<StreamRecord>, m: nat)
    requires HeaderFits(h) && Layout(h, log, records) && Short(records) && AsWritten(log, records) && m <= |Body(log)|
    ensures |Body(log)| == |Blocks(log.sealed)| + |log.tail|
    ensures var c := CutAt(log.sealed, log.tail, m);
      && c.whole <= |log.sealed| && Kept(log.sealed, c) <= |AllBytes(records)|
      && (c.slot != [] ==> WholeHeader(records, Kept(log.sealed, c)))
      && ReadBlob(HeaderBlock(h) + Body(log)[..m]) == CutContents(h, log, records, c)
  {
    hide *;
    LayoutParts(h, log, records);
    var c := CutAt(log.sealed, log.tail, m);
    CutPieces(log.sealed, log.tail, m);
    PiecesAre(log.sealed, log.tail, m, c);
    var message: bytes := [];
    if c.slot != [] {
      KeptOfBlock(log, records, c);
      SlotOfBlock(log.sealed[c.whole], c.data, c.slot);
      message := FooterMessage(log.sealed[c.whole]);
    }
    CutBodyReads(h, log, records, c, message);
    ReadsBody(h, Body(log)[..m]);
  }

  lemma PiecesAre(sealed: seq<Sealed>, tail: bytes, m: nat, c: Cut)
    requires (forall b <- sealed :: Closed(b)) && m <= |Blocks(sealed)| + |tail| && Pieces(sealed, tail, m, c)
    ensures c.whole <= |sealed| && |c.data| + |c.slot| < BLOCK_SIZE
    ensures forall b <- sealed[..c.whole] :: Closed(b)
    ensures (Blocks(sealed) + tail)[..m] == Blocks(sealed[..c.whole]) + (c.data + c.slot)
    ensures Kept(sealed, c) <= |Flat(sealed) + tail|
    ensures Flat(sealed[..c.whole]) + c.data == (Flat(sealed) + tail)[..Kept(sealed, c)]
    ensures c.whole < |sealed| ==> |c.data| <= |sealed[c.whole].data|
    ensures c.slot != [] ==> c.whole < |sealed| && OfBlock(sealed[c.whole], c.data, c.slot) && c.data == sealed[c.whole].data
  {
    hide Closed;
    hide Blocks;
    hide Flat;
    hide BlockBytes;
  }

  // ---- When the reader gives records nobody wrote ----

  /** The reader refuses the blob, or gives some of the records written, from the first on. */
  ghost predicate OnlyWritten(r: Result<BlobContents, Error>, records: seq<StreamRecord>) {
    r.Err? || r.value.records <= records
  }

  /** Bytes of a closed block's padding and footer that give no record: too few zeros, or too much of the message. */
  ghost predicate Harmless(slot: bytes) {
    var z := LeadingZeros(slot);
    z < 5 || |slot| - z >= Tolerated(z % 5)
  }

  /** The bytes pass for the rest of a record: up to four only if they are it, more if the checksum says so. */
  ghost predicate Passes(payload: bytes, left: nat, slot: bytes)
    requires |RecordHeader(payload)| <= left <= |RecordBytes(payload)| <= left + |slot|
  {
    var missing := |RecordBytes(payload)| - left;
    if missing <= 4 then slot[..missing] == payload[|payload| - missing..]
    else StreamCrc(0, Spliced(payload, left, slot)) == StreamCrc(0, payload)
  }

  lemma PassesChecksum(payload: bytes, left: nat, slot: bytes)
    requires |RecordHeader(payload)| <= left <= |RecordBytes(payload)| <= left + |slot|
    ensures Passes(payload, left, slot) <==> StreamCrc(0, Spliced(payload, left, slot)) == StreamCrc(0, payload)
    ensures |RecordBytes(payload)| - left <= 4 && Passes(payload, left, slot) ==> Spliced(payload, left, slot) == payload
  {
    hide StreamCrc;
    hide RecordHeader;
    var missing := |RecordBytes(payload)| - left;
    if missing <= 4 {
      var have, rest, new_ := payload[..|payload| - missing], payload[|payload| - missing..], slot[..missing];
      BurstChangesCrc(0, have, rest, new_, []);
      assert have + rest + [] == payload && have + new_ + [] == Spliced(payload, left, slot);
    }
  }

  /** A record, completed by those bytes, that is not taken for one, or is the record and nothing follows it. */
  ghost predicate HarmlessAfter(payload: bytes, left: nat, slot: bytes)
    requires |RecordHeader(payload)| <= left <= |RecordBytes(payload)|
  {
    var missing := |RecordBytes(payload)| - left;
    || |slot| < missing
    || !Passes(payload, left, slot)
    || (if missing <= LeadingZeros(slot)
        then if Spliced(payload, left, slot) == payload then Harmless(slot[missing..])
             else |slot| - LeadingZeros(slot) >= Tolerated((LeadingZeros(slot) - missing) % 5)
        else ReadRecords(slot[missing..], 0).Err?
             || (Spliced(payload, left, slot) == payload && ReadRecords(slot[missing..], 0) == Ok([])))
  }

  ghost predicate NoPhantom(records: seq<StreamRecord>, n: nat, slot: bytes)
    requires n <= |AllBytes(records)| && (slot != [] ==> WholeHeader(records, n))
  {
    var k, left := Complete(records, n), LeftOver(records, n);
    || slot == []
    || (if left == 0 then Harmless(slot)
        else
          UnfinishedIs(records, n);
          HarmlessAfter(records[k].payload, left, slot))
  }

  lemma {:induction false} ReadRecordsMoves(s: bytes, at: nat, shift: nat)
    ensures ReadRecords(s, at + shift).Err? <==> ReadRecords(s, at).Err?
    ensures ReadRecords(s, at + shift) == Ok([]) <==> ReadRecords(s, at) == Ok([])
    decreases |s|
  {
    hide StreamCrc;
    hide ReadLength;
    if s != [] && ReadLength(s).Parsed? {
      var rest := ReadLength(s).rest;
      var length := ReadLength(s).value;
      if 4 + length <= |rest| {
        var after := rest[4 + length..];
        ReadRecordsMoves(after, at + |s| - |after|, shift);
      }
    }
  }

  lemma FirstFound(s: bytes, at: nat)
    requires ReadRecords(s, at).Ok? && ReadRecords(s, at).value != []
    ensures ReadRecords(s, at).value[0].at == at && s != []
  {
    hide StreamCrc;
    hide ReadLength;
  }

  /** A record found past the data of a closed block would belong to the next one. */
  lemma PastDataIsNotWritten(log: Log, records: seq<StreamRecord>, w: nat, k: nat, at: nat)
    requires Describes(log, records) && w < |log.sealed| && k < |records|
    requires |Flat(log.sealed[..w + 1])| <= at < |Flat(log.sealed[..w])| + BLOCK_SIZE && Position(records, k) >= |Flat(log.sealed[..w + 1])|
    ensures IdAt(log.sealed[..w], log.start, at) != records[k].id
  {
    hide Position;
    hide Flat;
    hide IdAt;
    FlatGrows(log.sealed, w);
    IdAtTail(log.sealed[..w], log.start, at);
    IdAtBeyond(log.sealed, w + 1, log.start, Position(records, k));
  }

  lemma FlatGrows(sealed: seq<Sealed>, w: nat)
    requires w < |sealed|
    ensures |Flat(sealed[..w + 1])| == |Flat(sealed[..w])| + |sealed[w].data|
  {
    assert sealed[..w + 1] == sealed[..w] + [sealed[w]];
    FlatAppend(sealed[..w], sealed[w]);
  }

  lemma {:induction false} IdAtBeyond(sealed: seq<Sealed>, w: nat, start: nat, at: nat)
    requires w <= |sealed| && at >= |Flat(sealed[..w])|
    ensures IdAt(sealed, start, at) >= start + w * BLOCK_SIZE
    decreases w
  {
    if w > 0 {
      assert sealed[..w][0] == sealed[0] && sealed[..w][1..] == sealed[1..][..w - 1];
      IdAtBeyond(sealed[1..], w - 1, start + BLOCK_SIZE, at - |sealed[0].data|);
    } else {
      IdAtStarts(sealed, start, at);
    }
  }

  lemma {:induction false} IdAtStarts(sealed: seq<Sealed>, start: nat, at: nat)
    ensures IdAt(sealed, start, at) >= start
    decreases |sealed|
  {
    if sealed != [] && at >= |sealed[0].data| {
      IdAtStarts(sealed[1..], start + BLOCK_SIZE, at - |sealed[0].data|);
    }
  }

  lemma PrefixEnds(records: seq<StreamRecord>, k: nat, more: seq<StreamRecord>)
    requires k <= |records|
    ensures records[..k] + more <= records <==> k + |more| <= |records| && more == records[k..k + |more|]
  {
    var all := records[..k] + more;
    if all <= records {
      assert records[k..k + |more|] == records[..|all|][k..];
      assert all[k..] == more;
    }
    if k + |more| <= |records| && more == records[k..k + |more|] {
      assert records[..k + |more|] == records[..k] + records[k..k + |more|];
    }
  }

  /** Between records: everything the reader finds past the data is foreign. */
  lemma SpillIsForeign(log: Log, records: seq<StreamRecord>, c: Cut, n: nat)
    requires Describes(log, records) && c.whole < |log.sealed| && c.data == log.sealed[c.whole].data
    requires |c.data| < BLOCK_SIZE && n == Kept(log.sealed, c) <= |AllBytes(records)| && LeftOver(records, n) == 0
    requires Spilled(c.slot, n).Ok?
    ensures var found := Locate(log.sealed[..c.whole], log.start, Spilled(c.slot, n).value);
      records[..Complete(records, n)] + found <= records <==> Harmless(c.slot)
  {
    hide AllBytes;
    hide Complete;
    hide LeftOver;
    hide LeadingZeros;
    hide Describes;
    var sealed, z, k := log.sealed[..c.whole], LeadingZeros(c.slot), Complete(records, n);
    var found := Locate(sealed, log.start, Spilled(c.slot, n).value);
    PrefixEnds(records, k, found);
    CompleteFits(records, n);
    FlatGrows(log.sealed, c.whole);
    if z >= 5 && k < |records| {
      assert found[0].id == IdAt(sealed, log.start, n);
      PastDataIsNotWritten(log, records, c.whole, k, n);
      if k + |found| <= |records| {
        assert records[k..k + |found|][0] == records[k];
      }
    }
  }

  /** In a record: what the reader puts together is the record, or foreign, and so is all that follows it. */
  lemma ResumedIsForeign(log: Log, records: seq<StreamRecord>, c: Cut, n: nat, more: seq<Found>)
    requires Describes(log, records) && c.whole < |log.sealed| && c.data == log.sealed[c.whole].data
    requires |c.data| + |c.slot| < BLOCK_SIZE && n == Kept(log.sealed, c) <= |AllBytes(records)| && LeftOver(records, n) > 0
    requires Complete(records, n) < |records| && LeftOver(records, n) <= n
    requires var payload, left := records[Complete(records, n)].payload, LeftOver(records, n);
      && |RecordHeader(payload)| <= left < |RecordBytes(payload)| <= left + |c.slot|
      && ReadRecords(c.slot[|RecordBytes(payload)| - left..], n - left + |RecordBytes(payload)|) == Ok(more)
    ensures var k := Complete(records, n);
      var spliced := Spliced(records[k].payload, LeftOver(records, n), c.slot);
      var found := [Found(n - LeftOver(records, n), spliced)] + more;
      records[..k] + Locate(log.sealed[..c.whole], log.start, found) <= records
      <==> spliced == records[k].payload && more == []
  {
    hide AllBytes;
    hide Complete;
    hide LeftOver;
    hide RecordBytes;
    hide RecordHeader;
    hide ReadRecords;
    hide Spliced;
    hide IdAt;
    hide Flat;
    hide Position;
    var sealed, k, left := log.sealed[..c.whole], Complete(records, n), LeftOver(records, n);
    var payload := records[k].payload;
    var next := n - left + |RecordBytes(payload)|;
    var spliced := Spliced(payload, left, c.slot);
    var found := [Found(n - left, spliced)] + more;
    var located := Locate(sealed, log.start, found);
    PrefixEnds(records, k, located);
    CompleteFits(records, n);
    KeptIs(log.sealed, c);
    FlatGrows(log.sealed, c.whole);
    IdAtPrefix(log.sealed, c.whole, log.start, n - left);
    assert located[0] == StreamRecord(records[k].id, spliced);
    NextPosition(records, k);
    if more != [] {
      FirstFound(c.slot[|RecordBytes(payload)| - left..], next);
      assert located[1].id == IdAt(sealed, log.start, next);
      if k + 1 < |records| {
        PastDataIsNotWritten(log, records, c.whole, k + 1, next);
      }
    }
    assert k + |located| <= |records| ==> records[k..k + |located|][0] == records[k];
    assert more != [] && k + |located| <= |records| ==> records[k..k + |located|][1] == records[k + 1];
    if more == [] {
      assert located == [located[0]] && records[k..k + 1] == [records[k]];
    }
  }

  lemma NextPosition(records: seq<StreamRecord>, k: nat)
    requires k < |records|
    ensures Position(records, k + 1) == Position(records, k) + |RecordBytes(records[k].payload)|
  {
    assert records[..k + 1] == records[..k] + [records[k]];
    AllBytesAppend(records[..k], records[k]);
  }

  lemma HarmlessMeans(payload: bytes, left: nat, slot: bytes, message: bytes, at: nat)
    requires |RecordHeader(payload)| <= left < |RecordBytes(payload)| <= left + |slot| && OfSlot(slot, message)
    requires StreamCrc(0, Spliced(payload, left, slot)) == StreamCrc(0, payload)
    ensures var tail := ReadRecords(slot[|RecordBytes(payload)| - left..], at);
      HarmlessAfter(payload, left, slot) <==> tail.Err? || (Spliced(payload, left, slot) == payload && tail == Ok([]))
  {
    hide ReadRecords;
    hide RecordBytes;
    hide RecordHeader;
    hide StreamCrc;
    hide Spliced;
    hide LeadingZeros;
    hide OfSlot;
    hide Passes;
    PassesChecksum(payload, left, slot);
    var missing := |RecordBytes(payload)| - left;
    var rest := slot[missing..];
    if missing <= LeadingZeros(slot) {
      SlotAfterSome(slot, message, missing);
      SlotReads(rest, message, at);
    } else {
      ReadRecordsMoves(rest, 0, at);
    }
  }

  lemma BeyondIsForeign(log: Log, records: seq<StreamRecord>, c: Cut, n: nat, message: bytes)
    requires Describes(log, records) && c.whole < |log.sealed| && c.data == log.sealed[c.whole].data && c.slot != []
    requires |c.data| + |c.slot| < BLOCK_SIZE && n == Kept(log.sealed, c) <= |AllBytes(records)|
    requires WholeHeader(records, n) && OfSlot(c.slot, message)
    ensures var r := Beyond(records, n, c.slot);
      r.Err? || records[..Complete(records, n)] + Locate(log.sealed[..c.whole], log.start, r.value) <= records
      <==> NoPhantom(records, n, c.slot)
  {
    hide AllBytes;
    hide Complete;
    hide LeftOver;
    hide RecordBytes;
    hide RecordHeader;
    hide ReadRecords;
    hide LeadingZeros;
    hide OfSlot;
    hide Describes;
    hide Locate;
    hide Kept;
    hide Spliced;
    hide StreamCrc;
    var k, left := Complete(records, n), LeftOver(records, n);
    if left == 0 {
      if Spilled(c.slot, n).Ok? {
        SpillIsForeign(log, records, c, n);
      }
    } else {
      hide HarmlessAfter;
      UnfinishedIs(records, n);
      CompleteFits(records, n);
      var payload := records[k].payload;
      var missing := |RecordBytes(payload)| - left;
      if |c.slot| < missing {
        NoMore(log, records, c, k);
        FewIsHarmless(payload, left, c.slot);
      } else if StreamCrc(0, Spliced(payload, left, c.slot)) != StreamCrc(0, payload) {
        MismatchIsHarmless(payload, left, c.slot);
      } else {
        var at := n - left + |RecordBytes(payload)|;
        HarmlessMeans(payload, left, c.slot, message, at);
        var tail := ReadRecords(c.slot[missing..], at);
        if tail.Ok? {
          ResumedIsForeign(log, records, c, n, tail.value);
        }
      }
    }
  }

  lemma NoMore(log: Log, records: seq<StreamRecord>, c: Cut, k: nat)
    requires k <= |records| && c.whole <= |log.sealed|
    ensures records[..k] + Locate(log.sealed[..c.whole], log.start, []) <= records
  {
    assert Locate(log.sealed[..c.whole], log.start, []) == [];
    assert records[..k] + [] == records[..k];
  }

  lemma FewIsHarmless(payload: bytes, left: nat, slot: bytes)
    requires |RecordHeader(payload)| <= left <= |RecordBytes(payload)| && left + |slot| < |RecordBytes(payload)|
    ensures HarmlessAfter(payload, left, slot)
  {
  }

  lemma MismatchIsHarmless(payload: bytes, left: nat, slot: bytes)
    requires |RecordHeader(payload)| <= left <= |RecordBytes(payload)| <= left + |slot|
    requires StreamCrc(0, Spliced(payload, left, slot)) != StreamCrc(0, payload)
    ensures HarmlessAfter(payload, left, slot)
  {
    PassesChecksum(payload, left, slot);
  }

  /**
   A blob cut off at any offset gives only records that were written exactly when what is kept of a closed block's
   padding and footer holds fewer than five zeros or enough of the message to be refused, and does not, by its
   bytes and checksum, complete the record that the block ends in.
   */
  lemma CutGivesOnlyWritten(h: BlobHeader, log: Log, records: seq<StreamRecord>, m: nat)
    requires HeaderFits(h) && Layout(h, log, records) && Short(records) && AsWritten(log, records) && m <= |Body(log)|
    ensures |Body(log)| == |Blocks(log.sealed)| + |log.tail|
    ensures var c := CutAt(log.sealed, log.tail, m);
      && c.whole <= |log.sealed| && Kept(log.sealed, c) <= |AllBytes(records)|
      && (c.slot != [] ==> WholeHeader(records, Kept(log.sealed, c)))
      && (OnlyWritten(ReadBlob(HeaderBlock(h) + Body(log)[..m]), records)
          <==> (log.prev != 0 && c.whole > 0) || NoPhantom(records, Kept(log.sealed, c), c.slot))
  {
    hide *;
    LayoutParts(h, log, records);
    CutBlobReads(h, log, records, m);
    var c := CutAt(log.sealed, log.tail, m);
    CutPieces(log.sealed, log.tail, m);
    PiecesAre(log.sealed, log.tail, m, c);
    var n := Kept(log.sealed, c);
    if c.slot == [] {
      CleanIsWritten(h, log, records, c);
    } else {
      KeptOfBlock(log, records, c);
      SlotOfBlock(log.sealed[c.whole], c.data, c.slot);
      BeyondIsForeign(log, records, c, n, FooterMessage(log.sealed[c.whole]));
      ContentsOnlyWritten(h, log, records, c);
    }
  }

  lemma CleanIsWritten(h: BlobHeader, log: Log, records: seq<StreamRecord>, c: Cut)
    requires c.whole <= |log.sealed| && Kept(log.sealed, c) <= |AllBytes(records)| && c.slot == []
    ensures OnlyWritten(CutContents(h, log, records, c), records) && NoPhantom(records, Kept(log.sealed, c), c.slot)
  {
    NoMore(log, records, c, Complete(records, Kept(log.sealed, c)));
  }

  lemma ContentsOnlyWritten(h: BlobHeader, log: Log, records: seq<StreamRecord>, c: Cut)
    requires c.whole <= |log.sealed| && Kept(log.sealed, c) <= |AllBytes(records)|
    requires c.slot != [] ==> WholeHeader(records, Kept(log.sealed, c))
    ensures var n := Kept(log.sealed, c);
      var r := Beyond(records, n, c.slot);
      OnlyWritten(CutContents(h, log, records, c), records)
      <==> (log.prev != 0 && c.whole > 0) || r.Err?
           || records[..Complete(records, n)] + Locate(log.sealed[..c.whole], log.start, r.value) <= records
  {
    hide Beyond;
    hide Locate;
    hide Complete;
    hide Kept;
  }

  lemma FinishedKeeps(h: BlobHeader)
    ensures Finished(h).startOffset == h.startOffset && Finished(h).magic == MAGIC
  {
    hide BlobProto;
  }

  /** A blob cut off in its header block is always refused. */
  lemma CutHeaderReads(h: BlobHeader, m: nat)
    requires HeaderFits(h) && h.startOffset % BLOCK_SIZE == 0 && m < |HeaderBlock(h)|
    ensures ReadBlob(HeaderBlock(h)[..m])
         == Err(if m < 8 then BlobTooShort else if m < 8 + Finished(h).headerSize then HeaderPastEnd else NoDataRegion)
  {
    hide StreamCrc;
    hide BlobProto;
    hide HeaderBlockSize;
    hide HeaderBlock;
    hide DecodeBlobHeader;
    hide LittleEndian;
    var proto, s := BlobProto(Finished(h)), HeaderBlock(h)[..m];
    FinishedSize(h);
    FinishedKeeps(h);
    hide Finished;
    HeaderBlockParts(h, []);
    assert HeaderBlock(h) + [] == HeaderBlock(h);
    if m >= 8 {
      assert s[..4] == HeaderBlock(h)[..4] && s[4..8] == HeaderBlock(h)[4..8];
      Le32RoundTrip(|proto|);
      if m >= 8 + |proto| {
        assert s[8..8 + |proto|] == HeaderBlock(h)[8..8 + |proto|];
        Le32RoundTrip(StreamCrc(0, proto));
        BlobHeaderRoundTrip(Finished(h));
        assert ReadHeader(s) == Ok(Finished(h));
      }
    }
  }
}
