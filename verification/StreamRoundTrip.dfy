/** What the stream reader makes of what the stream writer lays out. */
module StreamRoundTrip {
  import opened Bytes
  import opened Protobuf
  import opened ProtobufSize
  import opened Checksum
  import opened StreamMessages
  import opened StreamFormat

  // ---- The header block ----

  lemma HeaderBlockParts(h: BlobHeader, body: bytes)
    requires HeaderFits(h)
    ensures var proto := BlobProto(Finished(h));
      var s := HeaderBlock(h) + body;
      && |HeaderBlock(h)| == HeaderBlockSize(|proto|, h.startOffset) >= 8 + |proto|
      && s[..4] == LittleEndian(|proto|, 4)
      && s[4..8] == LittleEndian(StreamCrc(0, proto), 4)
      && s[8..8 + |proto|] == proto
  {
    hide StreamCrc;
    hide BlobProto;
    hide HeaderBlockSize;
    FinishedSize(h);
    HeaderBlockHoldsHeader(|BlobProto(Finished(h))|, h.startOffset);
  }

  lemma HeaderBlockReads(h: BlobHeader, body: bytes)
    requires HeaderFits(h) && h.startOffset % BLOCK_SIZE == 0
    ensures ReadHeader(HeaderBlock(h) + body) == Ok(Finished(h))
    ensures |HeaderBlock(h)| == HeaderBlockSize(Finished(h).headerSize, h.startOffset)
  {
    hide StreamCrc;
    hide HeaderBlock;
    hide HeaderBlockSize;
    hide BlobProto;
    var proto := BlobProto(Finished(h));
    FinishedSize(h);
    HeaderBlockParts(h, body);
    Le32RoundTrip(|proto|);
    Le32RoundTrip(StreamCrc(0, proto));
    BlobHeaderRoundTrip(Finished(h));
  }

  // ---- One block ----

  lemma FooterReads(b: Sealed)
    requires Closed(b)
    ensures ReadFooter(BlockBytes(b)) == Ok(b.footer)
  {
    hide StreamCrc;
    var proto := FooterProto(b.footer);
    var s := BlockBytes(b);
    assert s[BLOCK_SIZE - 8..BLOCK_SIZE - 4] == LittleEndian(|proto|, 4);
    assert s[BLOCK_SIZE - 4..] == LittleEndian(StreamCrc(0, proto), 4);
    assert s[BLOCK_SIZE - 8 - |proto|..BLOCK_SIZE - 8] == proto;
    Le32RoundTrip(|proto|);
    Le32RoundTrip(StreamCrc(0, proto));
    FooterRoundTrip(b.footer);
  }

  lemma BlockReads(b: Sealed)
    requires Closed(b)
    ensures ReadBlock(BlockBytes(b))
         == if StreamCrc(0, b.data) == b.footer.blockCrc then Ok(b) else Err(BlockChecksum)
  {
    hide StreamCrc;
    FooterReads(b);
    assert BlockBytes(b)[..|b.data|] == b.data;
  }

  // ---- All blocks ----

  predicate OffsetsFit(start: nat, blocks: nat) {
    blocks == 0 || start + (blocks - 1) * BLOCK_SIZE < U64_LIMIT
  }

  function BlockCount(sealed: seq<Sealed>, tail: bytes): nat {
    |sealed| + if tail == [] then 0 else 1
  }

  lemma {:induction false} StripsBlocks(sealed: seq<Sealed>, tail: bytes, start: nat)
    requires |tail| < BLOCK_SIZE
    requires forall b <- sealed :: Closed(b) && b.footer.blockCrc == StreamCrc(0, b.data)
    ensures Strip(Blocks(sealed) + tail, start)
         == if OffsetsFit(start, BlockCount(sealed, tail)) then Ok(Stripped(sealed, tail)) else Err(OffsetOverflow)
    decreases |sealed|
  {
    hide StreamCrc;
    hide ReadBlock;
    hide BlockBytes;
    if sealed == [] {
      assert Blocks(sealed) + tail == tail;
    } else {
      var body := Blocks(sealed) + tail;
      assert sealed[0] in sealed;
      assert body[..BLOCK_SIZE] == BlockBytes(sealed[0]);
      assert body[BLOCK_SIZE..] == Blocks(sealed[1..]) + tail;
      BlockReads(sealed[0]);
      StripsBlocks(sealed[1..], tail, start + BLOCK_SIZE);
      assert [sealed[0]] + sealed[1..] == sealed;
    }
  }

  /** A blob that continues another one carries its last block's checksum as the seed of its first. */
  lemma SeededBlockRejected(sealed: seq<Sealed>, prev: u32, rest: bytes, start: u64)
    requires sealed != [] && (forall b <- sealed :: Closed(b)) && prev != 0
    requires sealed[0].footer.blockCrc == StreamCrc(prev, sealed[0].data)
    ensures Strip(Blocks(sealed) + rest, start) == Err(BlockChecksum)
  {
    hide StreamCrc;
    hide ReadBlock;
    hide BlockBytes;
    var b := sealed[0];
    assert b in sealed;
    assert (Blocks(sealed) + rest)[..BLOCK_SIZE] == BlockBytes(b);
    BlockReads(b);
    StreamCrcSeedMatters(prev, 0, b.data);
  }

  lemma StripsLog(log: Log)
    requires Sound(log) && (log.prev == 0 || log.sealed == [])
    ensures Strip(Body(log), log.start) == Ok(Stripped(log.sealed, log.tail))
  {
    hide StreamCrc;
    forall b | b in log.sealed
      ensures Closed(b) && b.footer.blockCrc == StreamCrc(0, b.data)
    {
      var i :| 0 <= i < |log.sealed| && log.sealed[i] == b;
      assert Seed(log, i) == 0;
    }
    StripsBlocks(log.sealed, log.tail, log.start);
  }

  // ---- Records ----

  lemma {:induction false} Varint32Reads(n: nat, room: nat, rest: bytes)
    requires room > 0 && |Varint(n)| <= room
    ensures ReadVarint32(Varint(n) + rest, room) == Parsed(n, rest)
    decreases room
  {
    var s := Varint(n) + rest;
    if n < 128 {
      assert s[0] == n && s[1..] == rest;
    } else {
      assert s[0] == 128 + n % 128 && s[1..] == Varint(n / 128) + rest;
      Varint32Reads(n / 128, room - 1, rest);
      assert n == n % 128 + 128 * (n / 128);
    }
  }

  lemma LengthReads(n: u32, rest: bytes)
    ensures ReadLength(Varint(n) + rest) == Parsed(n, rest)
  {
    hide Varint;
    hide ReadVarint32;
    hide Pow128;
    Pow128Values();
    VarintAtMost(n, 5);
    Varint32Reads(n, 5, rest);
  }

  /** What the reader sees at the start of a record: its length, its checksum, its payload. */
  lemma RecordParts(payload: bytes, rest: bytes)
    ensures var s := RecordBytes(payload) + rest;
      var crc := LittleEndian(StreamCrc(0, payload), 4);
      && ReadLength(s) == Parsed(|payload| % U32_LIMIT, crc + (payload + rest))
      && Le32(crc) == StreamCrc(0, payload)
  {
    hide StreamCrc;
    var crc := LittleEndian(StreamCrc(0, payload), 4);
    var s := RecordBytes(payload) + rest;
    Associative4(Varint(|payload| % U32_LIMIT), crc, payload, rest);
    LengthReads(|payload| % U32_LIMIT, crc + (payload + rest));
    Le32RoundTrip(StreamCrc(0, payload));
  }

  lemma RecordReads(payload: bytes, rest: bytes, at: nat)
    requires |payload| < U32_LIMIT
    ensures ReadRecords(RecordBytes(payload) + rest, at) ==
      match ReadRecords(rest, at + |RecordBytes(payload)|)
      case Err(e) => Err(e)
      case Ok(more) => Ok([Found(at, payload)] + more)
  {
    hide StreamCrc;
    hide ReadLength;
    RecordParts(payload, rest);
    var s := RecordBytes(payload) + rest;
    var after := ReadLength(s).rest;
    RecordHeaderSize(payload);
    assert after[..4] == LittleEndian(StreamCrc(0, payload), 4);
    assert after[4..4 + |payload|] == payload && after[4 + |payload|..] == rest;
  }

  ghost function FoundIn(records: seq<StreamRecord>, at: nat): seq<Found> {
    if records == [] then []
    else [Found(at, records[0].payload)] + FoundIn(records[1..], at + |RecordBytes(records[0].payload)|)
  }

  ghost predicate Short(records: seq<StreamRecord>) {
    forall r <- records :: |r.payload| < U32_LIMIT
  }

  lemma NoRecords(at: nat)
    ensures ReadRecords([], at) == Ok([])
  {
  }

  lemma {:induction false} RecordsRead(records: seq<StreamRecord>, at: nat)
    requires Short(records)
    ensures ReadRecords(AllBytes(records), at) == Ok(FoundIn(records, at))
  {
    hide RecordBytes;
    hide ReadRecords;
    if records == [] {
      NoRecords(at);
    } else {
      assert records[0] in records;
      RecordsRead(records[1..], at + |RecordBytes(records[0].payload)|);
      RecordReads(records[0].payload, AllBytes(records[1..]), at);
    }
  }

  ghost function Payloads(found: seq<Found>): (p: seq<bytes>)
    ensures |p| == |found|
  {
    seq(|found|, i requires 0 <= i < |found| => found[i].payload)
  }

  ghost function RecordPayloads(records: seq<StreamRecord>): (p: seq<bytes>)
    ensures |p| == |records|
  {
    seq(|records|, i requires 0 <= i < |records| => records[i].payload)
  }

  /** A length that does not fit its 32 bits is cut, and the record comes back as something else. */
  lemma LongRecordMisread(payload: bytes, rest: bytes, at: nat)
    requires |payload| >= U32_LIMIT
    ensures var r := ReadRecords(RecordBytes(payload) + rest, at);
      r.Err? || r.value == [] || r.value[0].payload != payload
  {
    hide StreamCrc;
    hide ReadLength;
    RecordParts(payload, rest);
  }

  lemma SameFirst(first: bytes, a: seq<bytes>, b: seq<bytes>)
    ensures [first] + a == [first] + b ==> a == b
  {
    assert ([first] + a)[1..] == a && ([first] + b)[1..] == b;
  }

  lemma {:induction false} LongRecordsMisread(records: seq<StreamRecord>, at: nat)
    requires !Short(records)
    ensures var r := ReadRecords(AllBytes(records), at);
      r.Err? || Payloads(r.value) != RecordPayloads(records)
  {
    hide RecordBytes;
    hide ReadRecords;
    assert records != [];
    var first, rest := records[0], records[1..];
    if |first.payload| >= U32_LIMIT {
      LongRecordMisread(first.payload, AllBytes(rest), at);
      assert RecordPayloads(records)[0] == first.payload;
    } else {
      var next := at + |RecordBytes(first.payload)|;
      assert records == [first] + rest;
      LongRecordsMisread(rest, next);
      RecordReads(first.payload, AllBytes(rest), at);
      var r, more := ReadRecords(AllBytes(records), at), ReadRecords(AllBytes(rest), next);
      if r.Ok? {
        assert Payloads(r.value) == [first.payload] + Payloads(more.value);
        assert RecordPayloads(records) == [first.payload] + RecordPayloads(rest);
        SameFirst(first.payload, Payloads(more.value), RecordPayloads(rest));
      }
    }
  }

  // ---- Where records are found ----

  lemma {:induction false} FoundAt(records: seq<StreamRecord>, at: nat, j: nat)
    requires j < |records|
    ensures |FoundIn(records, at)| == |records|
    ensures FoundIn(records, at)[j] == Found(at + Position(records, j), records[j].payload)
    decreases |records|
  {
    hide RecordBytes;
    var next := at + |RecordBytes(records[0].payload)|;
    if |records| > 1 {
      FoundAt(records[1..], next, if j == 0 then 0 else j - 1);
    }
    if j == 0 {
      assert records[..0] == [];
    } else {
      assert records[..j][0] == records[0] && records[..j][1..] == records[1..][..j - 1];
    }
  }

  lemma LocatesRecords(log: Log, records: seq<StreamRecord>)
    requires Describes(log, records)
    ensures Locate(log.sealed, log.start, FoundIn(records, 0)) == records
  {
    if records != [] {
      FoundAt(records, 0, 0);
    }
    var located := Locate(log.sealed, log.start, FoundIn(records, 0));
    forall j | 0 <= j < |records|
      ensures |located| == |records| && located[j] == records[j]
    {
      FoundAt(records, 0, j);
    }
    assert |located| == |records|;
  }

  lemma {:induction false} IdAtGrows(sealed: seq<Sealed>, start: nat, a: nat, b: nat)
    requires a < b && forall c <- sealed :: |c.data| <= DATA_SIZE
    ensures start <= IdAt(sealed, start, a) < IdAt(sealed, start, b)
    decreases |sealed|
  {
    if sealed != [] {
      var size := |sealed[0].data|;
      assert sealed[0] in sealed;
      if a >= size {
        IdAtGrows(sealed[1..], start + BLOCK_SIZE, a - size, b - size);
      } else if b >= size {
        IdAtGrows(sealed[1..], start + BLOCK_SIZE, b - size, b - size + 1);
      }
    }
  }

  lemma {:induction false} IdAtTail(sealed: seq<Sealed>, start: nat, at: nat)
    requires at >= |Flat(sealed)|
    ensures IdAt(sealed, start, at) == start + |sealed| * BLOCK_SIZE + at - |Flat(sealed)|
    decreases |sealed|
  {
    if sealed != [] {
      IdAtTail(sealed[1..], start + BLOCK_SIZE, at - |sealed[0].data|);
    }
  }

  lemma {:induction false} PositionGrows(records: seq<StreamRecord>, i: nat, j: nat)
    requires i < j <= |records|
    ensures Position(records, i) < Position(records, j)
    decreases j - i
  {
    hide Position;
    PositionStep(records, i);
    if i + 1 < j {
      PositionGrows(records, i + 1, j);
    }
  }

  lemma PositionStep(records: seq<StreamRecord>, i: nat)
    requires i < |records|
    ensures Position(records, i) < Position(records, i + 1)
  {
    assert records[..i + 1] == records[..i] + [records[i]];
    AllBytesAppend(records[..i], records[i]);
    RecordNotEmpty(records[i].payload);
  }

  /** Ids only grow, so no two records of a blob share one. */
  lemma IdsGrow(log: Log, records: seq<StreamRecord>, i: nat, j: nat)
    requires Sound(log) && Describes(log, records) && i < j < |records|
    ensures log.start <= records[i].id < records[j].id
  {
    hide Position;
    PositionGrows(records, i, j);
    IdAtGrows(log.sealed, log.start, Position(records, i), Position(records, j));
  }

  // ---- The whole blob ----

  ghost function BlobBytes(h: BlobHeader, log: Log): bytes
    requires Sound(log)
  {
    HeaderBlock(h) + Body(log)
  }

  ghost function Written(h: BlobHeader, log: Log, records: seq<StreamRecord>): BlobContents {
    BlobContents(Finished(h), records, Footers(log.sealed))
  }

  ghost predicate Layout(h: BlobHeader, log: Log, records: seq<StreamRecord>) {
    && h.startOffset % BLOCK_SIZE == 0
    && log.start == h.startOffset && log.prev == h.prevBlockCrc
    && Sound(log) && Describes(log, records)
  }

  lemma ReadsBody(h: BlobHeader, body: bytes)
    requires HeaderFits(h) && h.startOffset % BLOCK_SIZE == 0
    ensures ReadBlob(HeaderBlock(h) + body) == ReadBody(Finished(h), body)
  {
    hide ReadHeader;
    hide HeaderBlock;
    hide ReadBody;
    HeaderBlockReads(h, body);
    var s := HeaderBlock(h) + body;
    assert s[|HeaderBlock(h)|..] == body;
  }

  lemma LocateKeepsPayloads(sealed: seq<Sealed>, start: nat, found: seq<Found>)
    ensures RecordPayloads(Locate(sealed, start, found)) == Payloads(found)
  {
  }

  lemma BlobSchemaIsPlain()
    ensures Plain(BLOB_SCHEMA)
  {
    forall i | 0 <= i < |BLOB_SCHEMA.fields|
      ensures PlainKind(BLOB_SCHEMA.fields[i].kind)
    {
    }
  }

  /** A header message of 4 GiB or more, whose stated size wraps, is never read back as it was. */
  lemma LongHeaderMisread(h: BlobHeader, body: bytes)
    requires ReadBlob(HeaderBlock(h) + body).Ok? && ReadBlob(HeaderBlock(h) + body).value.header == Finished(h)
    ensures HeaderFits(h)
  {
    hide ReadHeader;
    hide HeaderBlock;
    hide HeaderBlockSize;
    hide ReadBody;
    hide Finished;
    hide HeaderFits;
    var s := HeaderBlock(h) + body;
    var header := ReadHeader(s).value;
    HeaderBlockHoldsHeader(header.headerSize, header.startOffset);
    BodyKeepsHeader(header, s[HeaderBlockSize(header.headerSize, header.startOffset)..]);
    ReadHeaderFits(h, s);
  }

  lemma BodyKeepsHeader(header: BlobHeader, body: bytes)
    ensures ReadBody(header, body).Ok? ==> ReadBody(header, body).value.header == header
  {
    hide Strip;
    hide ReadRecords;
  }

  lemma ReadHeaderFits(h: BlobHeader, s: bytes)
    requires ReadHeader(s) == Ok(Finished(h))
    ensures HeaderFits(h)
  {
    hide StreamCrc;
    hide MessageBytes;
    hide DecodeMessage;
    var size := Le32(s[..4]);
    LittleEndianUnique(s[..4]);
    Capacities();
    var proto := s[PROTO_HEADER_SIZE..PROTO_HEADER_SIZE + size];
    BlobSchemaIsPlain();
    BlobSchemaIsSound();
    DecodedIsNoShorter(BLOB_SCHEMA, proto);
    DecodedIsTyped(BLOB_SCHEMA, proto);
    assert |BlobProto(Finished(h))| <= size < U32_LIMIT && Finished(h).headerSize == size;
    BlobProtoNotEmpty(Finished(h));
    var sized := h.(magic := MAGIC, version := VERSION, headerSize := 1);
    SizeFieldKeepsSize(sized, 1, size);
    assert sized.(headerSize := 1) == sized && sized.(headerSize := size) == Finished(h);
  }

  lemma ReadsRecords(h: BlobHeader, log: Log, records: seq<StreamRecord>)
    requires Layout(h, log, records) && (log.prev == 0 || log.sealed == [])
    ensures Short(records) ==> ReadBody(Finished(h), Body(log)) == Ok(Written(h, log, records))
    ensures !Short(records) ==> ReadBody(Finished(h), Body(log)) != Ok(Written(h, log, records))
  {
    hide Body;
    hide BlobProto;
    StripsLog(log);
    if Short(records) {
      RecordsRead(records, 0);
      LocatesRecords(log, records);
    } else {
      LongRecordsMisread(records, 0);
      var r := ReadRecords(AllBytes(records), 0);
      if r.Ok? {
        LocateKeepsPayloads(log.sealed, log.start, r.value);
      }
    }
  }

  lemma SameStart(h: BlobHeader)
    ensures Finished(h).startOffset == h.startOffset
  {
    hide BlobProto;
  }

  lemma SeedsFirst(h: BlobHeader, log: Log)
    requires Sound(log) && log.sealed != [] && log.prev != 0 && log.start == h.startOffset
    ensures ReadBody(Finished(h), Body(log)) == Err(BlockChecksum)
  {
    hide Closed;
    hide Strip;
    hide Finished;
    SameStart(h);
    assert log.sealed[0].footer.blockCrc == StreamCrc(Seed(log, 0), log.sealed[0].data);
    SeededBlockRejected(log.sealed, log.prev, log.tail, log.start);
  }

  /**
   The reader returns exactly what was written if and only if no filled block was checksummed from
   another blob's seed, and the header and every payload are short enough for a 32-bit length.
   */
  lemma ReadsBack(h: BlobHeader, log: Log, records: seq<StreamRecord>)
    requires Layout(h, log, records)
    ensures ReadBlob(BlobBytes(h, log)) == Ok(Written(h, log, records))
       <==> HeaderFits(h) && (h.prevBlockCrc == 0 || log.sealed == []) && Short(records)
    ensures HeaderFits(h) && h.prevBlockCrc != 0 && log.sealed != [] ==> ReadBlob(BlobBytes(h, log)) == Err(BlockChecksum)
  {
    hide Body;
    hide Written;
    hide HeaderBlock;
    hide ReadBlob;
    hide ReadBody;
    hide HeaderFits;
    hide Finished;
    if ReadBlob(BlobBytes(h, log)) == Ok(Written(h, log, records)) {
      WrittenHeader(h, log, records);
      LongHeaderMisread(h, Body(log));
    }
    if HeaderFits(h) {
      ReadsBody(h, Body(log));
      if log.prev != 0 && log.sealed != [] {
        SeedsFirst(h, log);
      } else {
        ReadsRecords(h, log, records);
      }
    }
  }

  lemma WrittenHeader(h: BlobHeader, log: Log, records: seq<StreamRecord>)
    ensures Written(h, log, records).header == Finished(h)
  {
  }
}
