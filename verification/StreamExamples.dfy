/** Blobs at which the promises of the log stream fail. */
module StreamExamples {
  import opened Bytes
  import opened Protobuf
  import opened Checksum
  import opened StreamMessages
  import opened StreamFormat
  import opened StreamRoundTrip
  import opened StreamCut
  import opened StreamWriter

  lemma PlainHeaderFits(prev: u32)
    ensures HeaderFits(PlainHeader(prev))
  {
    PlainHeaderSize(MAGIC, VERSION, 1, prev);
  }

  lemma MoreThanABlock(log: Log, records: seq<StreamRecord>, r: StreamRecord)
    requires Sound(log) && Describes(log, records) && records == [r] && |r.payload| >= BLOCK_SIZE
    ensures log.sealed != []
  {
    assert records[1..] == [];
    assert AllBytes(records) == RecordBytes(r.payload) + AllBytes([]);
  }

  /** A blob that continues another, with one record that fills a block, is refused by its own reader. */
  method ContinuedBlob() returns (w: BlobWriter)
    ensures w.Valid() && w.header.prevBlockCrc == 1 && |w.records| == 1
    ensures ReadBlob(w.out) == Err(BlockChecksum)
  {
    w := OneRecord(1, Zeros(BLOCK_SIZE));
    PlainHeaderFits(1);
    hide *;
    PlainHeaderFields(1);
    RefusesLarge(w);
  }

  method OneRecord(prev: u32, payload: bytes) returns (w: BlobWriter)
    requires |payload| <= U32_LIMIT
    ensures w.Valid() && w.header == PlainHeader(prev) && |w.records| == 1 && w.records[0].payload == payload
  {
    assert 0 % BLOCK_SIZE == 0 && ALWAYS_FITS == 41 && 2 * U32_LIMIT + 200 < U64_LIMIT;
    hide *;
    PlainHeaderFields(prev);
    w := new BlobWriter(PlainHeader(prev), i => FooterStamp(0, 0));
    var id, ok := w.Append(payload);
  }

  lemma PlainHeaderFields(prev: u32)
    ensures var h := PlainHeader(prev); h.startOffset == 0 && h.clientToken == [] && h.prevBlockCrc == prev
  {
  }

  lemma RefusesLarge(w: BlobWriter)
    requires w.Valid() && HeaderFits(w.header) && w.header.prevBlockCrc != 0 && |w.records| == 1 && |w.records[0].payload| >= BLOCK_SIZE
    ensures ReadBlob(w.out) == Err(BlockChecksum)
  {
    hide ReadBlob;
    hide HeaderBlock;
    hide HeaderFits;
    hide BlobProto;
    hide Body;
    hide TailCrc;
    hide FootersTell;
    w.WriterLayout();
    assert w.records == [w.records[0]];
    MoreThanABlock(w.log, w.records, w.records[0]);
    ReadsBack(w.header, w.log, w.records);
  }

  /** A record of 4 GiB is not read back. */
  method LongRecord() returns (w: BlobWriter)
    ensures w.Valid() && w.header.prevBlockCrc == 0 && |w.records| == 1
    ensures ReadBlob(w.out) != Ok(Written(w.header, w.log, w.records))
  {
    w := OneRecord(0, Zeros(U32_LIMIT));
    PlainHeaderFields(0);
    assert w.records[0] in w.records;
    assert !Short(w.records);
    hide *;
    w.WrittenReadsBack();
  }

  lemma {:induction false} FieldWithin(schema: Schema, m: Message, from: nat, i: nat)
    requires |m.values| == |schema.fields| && from <= i < |schema.fields|
    ensures |FieldBytes(schema.fields[i], m.values[i])| <= |FieldsBytes(schema, m, from)|
    decreases i - from
  {
    if from < i {
      FieldWithin(schema, m, from + 1, i);
    }
  }

  lemma NameWithin(h: BlobHeader)
    ensures |h.blobName| <= |BlobProto(h)|
  {
    FieldWithin(BLOB_SCHEMA, BlobToMessage(h), 0, 2);
    assert BlobToMessage(h).values[2] == Data(h.blobName);
  }

  lemma LongNameDoesNotFit(h: BlobHeader)
    requires |h.blobName| >= U32_LIMIT
    ensures !HeaderFits(h)
  {
    hide BlobProto;
    NameWithin(h.(magic := MAGIC, version := VERSION, headerSize := 1));
  }

  /** A blob whose name takes 4 GiB is not read back, even with no record in it. */
  method LongHeader() returns (w: BlobWriter)
    ensures w.Valid() && w.header.prevBlockCrc == 0 && w.records == []
    ensures ReadBlob(w.out) != Ok(Written(w.header, w.log, w.records))
  {
    var header := PlainHeader(0).(blobName := Zeros(U32_LIMIT));
    assert header.startOffset % BLOCK_SIZE == 0 && header.prevBlockCrc == 0 && |header.blobName| == U32_LIMIT;
    LongNameDoesNotFit(header);
    hide *;
    w := new BlobWriter(header, i => FooterStamp(0, 0));
    w.WrittenReadsBack();
  }

  /** With a token of 100 bytes no block can be closed: the first record that is longer than one makes the writer panic. */
  method LongToken() returns (w: BlobWriter)
    ensures w.Valid() && w.records == [] && |w.token| == 100
    ensures !w.Coming(Zeros(BLOCK_SIZE)).Fit()
  {
    var header := PlainHeader(0).(clientToken := Zeros(100));
    assert header.startOffset % BLOCK_SIZE == 0 && |header.clientToken| == 100;
    w := new BlobWriter(header, i => FooterStamp(0, 0));
    LongerThanBlock(w);
    hide *;
    w.Coming(Zeros(BLOCK_SIZE)).LongTokenFails();
  }

  lemma LongerThanBlock(w: BlobWriter)
    requires w.Valid() && |w.token| == 100
    ensures var a := w.Coming(Zeros(BLOCK_SIZE)); a.Ready() && |a.rec| > a.first && |a.token| > EVER_FITS
  {
    RecordSize(Zeros(BLOCK_SIZE));
  }

  // ---- A record nobody wrote ----

  /** A record that leaves one byte of a block's data area, which the next record's header does not fit in. */
  ghost function FirstPayload(): bytes {
    Zeros(DATA_SIZE - 8)
  }

  lemma FirstRecordSize()
    ensures |RecordBytes(FirstPayload())| == DATA_SIZE - 1
  {
    hide StreamCrc;
    FewPow128();
    VarintAtMost(DATA_SIZE - 8, 3);
    VarintAtLeast(DATA_SIZE - 8, 2);
  }

  ghost function FirstBlock(): Sealed {
    var data := RecordBytes(FirstPayload());
    Sealed(data, BlockFooter(MAGIC, VERSION, 0, StreamCrc(0, data), 0, DATA_SIZE - 1, DATA_SIZE, 0, 1, [], 0))
  }

  lemma FirstBlockIsClosed()
    ensures Closed(FirstBlock()) && Gap(FirstBlock()) >= 5
  {
    hide StreamCrc;
    hide FooterProto;
    hide RecordBytes;
    FirstRecordSize();
    FooterBounds(FirstBlock().footer);
    NoToken();
  }

  ghost function TwoRecords(): seq<StreamRecord> {
    [StreamRecord(0, FirstPayload()), StreamRecord(BLOCK_SIZE, [])]
  }

  ghost function TwoRecordLog(): Log {
    Log(0, 0, [FirstBlock()], RecordBytes([]))
  }

  lemma TwoRecordLayout()
    ensures HeaderFits(PlainHeader(0)) && Layout(PlainHeader(0), TwoRecordLog(), TwoRecords()) && Short(TwoRecords())
    ensures AsWritten(TwoRecordLog(), TwoRecords())
    ensures Complete(TwoRecords(), DATA_SIZE - 1) == 1 && LeftOver(TwoRecords(), DATA_SIZE - 1) == 0
    ensures Flat([FirstBlock()]) == RecordBytes(FirstPayload())
  {
    hide StreamCrc;
    hide FooterProto;
    hide HeaderFits;
    hide FirstPayload;
    var log, records, b := TwoRecordLog(), TwoRecords(), FirstBlock();
    var rec := RecordBytes(FirstPayload());
    FirstRecordSize();
    FirstBlockIsClosed();
    PlainHeaderFits(0);
    EmptyRecord();
    hide RecordBytes;
    assert [b][1..] == [] && Flat([b]) == rec + Flat([]);
    assert Flat([b]) == rec;
    assert records[1..] == [records[1]] && records[1..][1..] == [];
    assert AllBytes(records[1..]) == RecordBytes([]) + AllBytes([]);
    assert AllBytes(records) == rec + RecordBytes([]);
    assert records[..0] == [] && records[..1] == [records[0]] && [records[0]][1..] == [];
    assert AllBytes(records[..1]) == rec + AllBytes([]);
    assert Position(records, 0) == 0 && Position(records, 1) == |rec|;
    assert log.sealed[..1] == [b];
    assert Seed(log, 0) == 0;
    PayloadIsShort();
  }

  lemma PayloadIsShort()
    ensures |FirstPayload()| < U32_LIMIT
  {
  }

  /** Cut five bytes past the data of its closed block, the blob reads as two records; only the first was written there. */
  lemma PhantomAppears()
    ensures Layout(PlainHeader(0), TwoRecordLog(), TwoRecords()) && |Body(TwoRecordLog())| >= DATA_SIZE + 4
    ensures var r := ReadBlob(HeaderBlock(PlainHeader(0)) + Body(TwoRecordLog())[..DATA_SIZE + 4]);
      && r == Ok(BlobContents(Finished(PlainHeader(0)), [TwoRecords()[0], StreamRecord(DATA_SIZE - 1, [])], []))
      && !OnlyWritten(r, TwoRecords())
  {
    hide *;
    TwoRecordLayout();
    FirstBlockIsClosed();
    FirstRecordSize();
    var log, records, b := TwoRecordLog(), TwoRecords(), FirstBlock();
    TwoRecordBody();
    CutBlobReads(PlainHeader(0), log, records, DATA_SIZE + 4);
    var c := CutAt(log.sealed, log.tail, DATA_SIZE + 4);
    PhantomCut(c);
    SlotOfBlock(b, c.data, c.slot);
    OnePhantom(c);
  }

  lemma TwoRecordBody()
    ensures Closed(FirstBlock()) && Sound(TwoRecordLog()) && |Body(TwoRecordLog())| >= DATA_SIZE + 4
    ensures FirstBlock().footer.version == VERSION
    ensures Closed(FirstBlock()) ==> forall d <- TwoRecordLog().sealed :: Closed(d)
  {
    hide FooterProto;
    hide StreamCrc;
    hide RecordBytes;
    hide FirstPayload;
    hide FooterBytes;
    TwoRecordLayout();
    FirstBlockIsClosed();
    assert Blocks([FirstBlock()]) == BlockBytes(FirstBlock()) + Blocks([]);
  }

  lemma PhantomCut(c: Cut)
    requires Closed(FirstBlock()) && (forall d <- TwoRecordLog().sealed :: Closed(d))
    requires DATA_SIZE + 4 <= |Blocks(TwoRecordLog().sealed)| + |TwoRecordLog().tail|
    requires c == CutAt(TwoRecordLog().sealed, TwoRecordLog().tail, DATA_SIZE + 4)
    ensures c.whole == 0 && |c.slot| == 5 && OfBlock(FirstBlock(), c.data, c.slot)
    ensures Kept(TwoRecordLog().sealed, c) == DATA_SIZE - 1
  {
    hide FooterProto;
    hide StreamCrc;
    hide RecordBytes;
    hide FirstPayload;
    hide Closed;
    FirstRecordSize();
    assert TwoRecordLog().sealed[..0] == [];
  }

  lemma OnePhantom(c: Cut)
    requires c.whole == 0 && |c.slot| == 5 && LeadingZeros(c.slot) == 5
    requires Kept(TwoRecordLog().sealed, c) == DATA_SIZE - 1 <= |AllBytes(TwoRecords())|
    requires WholeHeader(TwoRecords(), DATA_SIZE - 1)
    requires Complete(TwoRecords(), DATA_SIZE - 1) == 1 && LeftOver(TwoRecords(), DATA_SIZE - 1) == 0
    ensures CutContents(PlainHeader(0), TwoRecordLog(), TwoRecords(), c)
         == Ok(BlobContents(Finished(PlainHeader(0)), [TwoRecords()[0], StreamRecord(DATA_SIZE - 1, [])], []))
    ensures !OnlyWritten(CutContents(PlainHeader(0), TwoRecordLog(), TwoRecords(), c), TwoRecords())
  {
    hide Complete;
    hide LeftOver;
    hide LeadingZeros;
    hide AllBytes;
    hide Kept;
    hide FirstPayload;
    hide FirstBlock;
    hide WholeHeader;
    hide Finished;
    hide RecordBytes;
    var log, records := TwoRecordLog(), TwoRecords();
    assert log.sealed[..0] == [];
    assert Phantoms(1, DATA_SIZE - 1) == [Found(DATA_SIZE - 1, [])];
    assert Spilled(c.slot, DATA_SIZE - 1) == Ok([Found(DATA_SIZE - 1, [])]);
    var none: seq<Sealed> := [];
    assert Locate(none, 0, [Found(DATA_SIZE - 1, [])]) == [StreamRecord(DATA_SIZE - 1, [])];
    assert records[..1] == [records[0]];
    assert Footers(none) == [];
    var two := [records[0], StreamRecord(DATA_SIZE - 1, [])];
    assert [records[0]] + [StreamRecord(DATA_SIZE - 1, [])] == two;
    assert two[1] != records[1];
  }
}
