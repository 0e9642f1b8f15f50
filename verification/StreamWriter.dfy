/** The writer of a blob: what its bytes are after any appends, and when it panics. */
module StreamWriter {
  import opened Bytes
  import opened Protobuf
  import opened Checksum
  import opened StreamMessages
  import opened StreamFormat
  import opened StreamRoundTrip
  import opened StreamCut

  // ---- How a log grows ----

  ghost function Grow(log: Log, chunk: bytes): Log {
    log.(tail := log.tail + chunk)
  }

  ghost function Seal(log: Log, footer: BlockFooter): Log {
    log.(sealed := log.sealed + [Sealed(log.tail, footer)], tail := [])
  }

  /** The stream offset after the last byte of a log. */
  ghost function End(log: Log): nat {
    log.start + |log.sealed| * BLOCK_SIZE + |log.tail|
  }

  ghost function TailCrc(log: Log): u32 {
    StreamCrc(Seed(log, |log.sealed|), log.tail)
  }

  lemma {:induction false} BlocksAppend(sealed: seq<Sealed>, b: Sealed)
    requires Closed(b) && forall c <- sealed :: Closed(c)
    ensures forall c <- sealed + [b] :: Closed(c)
    ensures Blocks(sealed + [b]) == Blocks(sealed) + BlockBytes(b)
  {
    hide BlockBytes;
    hide Closed;
    if sealed == [] {
      assert sealed + [b] == [b];
      assert Blocks([b]) == BlockBytes(b) + Blocks([]);
    } else {
      assert sealed[0] in sealed;
      assert (sealed + [b])[1..] == sealed[1..] + [b];
      BlocksAppend(sealed[1..], b);
    }
  }

  lemma GrowKeepsSound(log: Log, chunk: bytes)
    requires Sound(log) && |log.tail| + |chunk| <= DATA_SIZE
    ensures Sound(Grow(log, chunk))
    ensures Body(Grow(log, chunk)) == Body(log) + chunk
    ensures Data_(Grow(log, chunk)) == Data_(log) + chunk
    ensures TailCrc(Grow(log, chunk)) == StreamCrc(TailCrc(log), chunk)
  {
    hide Closed;
    hide StreamCrc;
    hide Blocks;
    hide Flat;
    StreamCrcChains(Seed(log, |log.sealed|), log.tail, chunk);
    assert Sound(Grow(log, chunk));
    Associative(Blocks(log.sealed), log.tail, chunk);
    Associative(Flat(log.sealed), log.tail, chunk);
  }

  lemma SealKeepsSound(log: Log, footer: BlockFooter)
    requires Sound(log) && Closed(Sealed(log.tail, footer)) && footer.blockCrc == TailCrc(log)
    requires log.start + (|log.sealed| + 1) * BLOCK_SIZE < U64_LIMIT
    ensures Sound(Seal(log, footer))
    ensures Body(Seal(log, footer)) == Body(log) + Zeros(DATA_SIZE - |log.tail|) + FooterBytes(footer)
    ensures Data_(Seal(log, footer)) == Data_(log)
    ensures TailCrc(Seal(log, footer)) == 0
  {
    hide Closed;
    hide StreamCrc;
    hide FooterBytes;
    var b := Sealed(log.tail, footer);
    BlocksAppend(log.sealed, b);
    FlatAppend(log.sealed, b);
    EmptyCrc(0);
  }

  lemma EmptyCrc(seed: u32)
    ensures StreamCrc(seed, []) == seed
  {
  }

  // ---- Where bytes lie does not change as the log grows ----

  lemma {:induction false} IdAtStable(sealed: seq<Sealed>, b: Sealed, start: nat, at: nat)
    requires at < |Flat(sealed)| + |b.data|
    ensures IdAt(sealed + [b], start, at) == IdAt(sealed, start, at)
    decreases |sealed|
  {
    if sealed == [] {
      assert sealed + [b] == [b];
    } else {
      assert (sealed + [b])[0] == sealed[0] && (sealed + [b])[1..] == sealed[1..] + [b];
      if at >= |sealed[0].data| {
        IdAtStable(sealed[1..], b, start + BLOCK_SIZE, at - |sealed[0].data|);
      }
    }
  }

  lemma {:induction false} PositionBelow(records: seq<StreamRecord>, j: nat)
    requires j < |records|
    ensures Position(records, j) < |AllBytes(records)|
    decreases |records|
  {
    hide RecordBytes;
    RecordNotEmpty(records[0].payload);
    if j == 0 {
      assert records[..0] == [];
    } else {
      assert records[..j][0] == records[0] && records[..j][1..] == records[1..][..j - 1];
      PositionBelow(records[1..], j - 1);
    }
  }

  // ---- Placing one record ----

  /**
   `written` bytes of the record `rec` have been laid down after `records`. Until its first byte is
   down, the record's id is the offset where that byte will go: here, or at the start of the next block
   when this one has been filled up (`here` is then the end of the data area).
   */
  ghost predicate Placing(log: Log, records: seq<StreamRecord>, rec: bytes, written: nat, id: nat, here: nat) {
    && written <= |rec|
    && Data_(log) == AllBytes(records) + rec[..written]
    && (forall j :: 0 <= j < |records| ==> records[j].id == IdAt(log.sealed, log.start, Position(records, j)))
    && id == (if written > 0 then IdAt(log.sealed, log.start, |AllBytes(records)|)
              else if here == DATA_SIZE then log.start + (|log.sealed| + 1) * BLOCK_SIZE
              else End(log))
  }

  lemma PlaceChunk(log: Log, records: seq<StreamRecord>, rec: bytes, written: nat, id: nat, chunk: bytes, here: nat)
    requires Placing(log, records, rec, written, id, |log.tail|) && |log.tail| < DATA_SIZE
    requires chunk != [] && written + |chunk| <= |rec| && chunk == rec[written..written + |chunk|]
    ensures Placing(Grow(log, chunk), records, rec, written + |chunk|, id, here)
  {
    hide AllBytes;
    hide Flat;
    assert rec[..written + |chunk|] == rec[..written] + chunk;
    Associative(Flat(log.sealed), log.tail, chunk);
    Associative(AllBytes(records), rec[..written], chunk);
    if written == 0 {
      assert rec[..0] == [];
      IdAtTail(log.sealed, log.start, |AllBytes(records)|);
    }
  }

  lemma PlaceSeal(log: Log, records: seq<StreamRecord>, rec: bytes, written: nat, id: nat, footer: BlockFooter)
    requires Placing(log, records, rec, written, id, DATA_SIZE) && log.tail != []
    ensures Placing(Seal(log, footer), records, rec, written, id, 0)
  {
    var b := Sealed(log.tail, footer);
    FlatAppend(log.sealed, b);
    forall j | 0 <= j < |records|
      ensures records[j].id == IdAt(log.sealed + [b], log.start, Position(records, j))
    {
      PositionBelow(records, j);
      IdAtStable(log.sealed, b, log.start, Position(records, j));
    }
    if written > 0 {
      IdAtStable(log.sealed, b, log.start, |AllBytes(records)|);
    }
  }

  lemma Placed(log: Log, records: seq<StreamRecord>, payload: bytes, id: nat, here: nat)
    requires Placing(log, records, RecordBytes(payload), |RecordBytes(payload)|, id, here)
    ensures Describes(log, records + [StreamRecord(id, payload)])
  {
    hide RecordBytes;
    var rec := RecordBytes(payload);
    var r := StreamRecord(id, payload);
    var all := records + [r];
    AllBytesAppend(records, r);
    assert rec[..|rec|] == rec;
    RecordNotEmpty(payload);
    forall j | 0 <= j < |all|
      ensures all[j].id == IdAt(log.sealed, log.start, Position(all, j))
    {
      if j < |records| {
        assert all[..j] == records[..j];
      } else {
        assert all[..j] == records;
      }
    }
  }

  lemma NothingPlaced(log: Log, records: seq<StreamRecord>, rec: bytes)
    requires Describes(log, records) && |log.tail| <= DATA_SIZE
    ensures |log.tail| < DATA_SIZE ==> Placing(log, records, rec, 0, End(log), |log.tail|)
    ensures Placing(log, records, rec, 0, log.start + (|log.sealed| + 1) * BLOCK_SIZE, DATA_SIZE)
  {
    assert rec[..0] == [];
    assert AllBytes(records) + [] == AllBytes(records);
  }

  // ---- Footers ----

  /**
   What the footer of block `i` says, for a block whose data ends at data offset `end`: which block it
   is, how many records are complete by then, and how much of a straddling record is still to come. The
   header of that record is never split.
   */
  ghost predicate FooterTells(
    f: BlockFooter, start: nat, i: nat, end: nat, records: seq<StreamRecord>, token: bytes, stamp: FooterStamp)
  {
    && MayClose(f) && f.clientToken == token
    && f.timestampMs == stamp.timestampMs && f.truncatedOffset == stamp.truncatedOffset
    && f.blockNumber * BLOCK_SIZE == start + i * BLOCK_SIZE
    && f.lastRecordSequence <= |records|
    && var complete := f.lastRecordSequence;
      if Position(records, complete) == end then f.lastRecordLeftSize == 0
      else
        && complete < |records|
        && Position(records, complete) + |RecordHeader(records[complete].payload)| <= end < Position(records, complete + 1)
        && f.lastRecordLeftSize == (Position(records, complete + 1) - end) % U32_LIMIT
  }

  ghost predicate FootersTell(log: Log, records: seq<StreamRecord>, token: bytes, stamp: nat -> FooterStamp) {
    forall i :: 0 <= i < |log.sealed| ==>
      FooterTells(log.sealed[i].footer, log.start, i, |Flat(log.sealed[..i + 1])|, records, token, stamp(i))
  }

  lemma PositionOfPrefix(records: seq<StreamRecord>, r: StreamRecord, j: nat)
    requires j <= |records|
    ensures Position(records + [r], j) == Position(records, j)
    ensures Position(records + [r], |records| + 1) == Position(records, |records|) + |RecordBytes(r.payload)|
  {
    assert (records + [r])[..j] == records[..j];
    assert (records + [r])[..|records| + 1] == records + [r];
    assert records[..|records|] == records;
    AllBytesAppend(records, r);
  }

  lemma FootersKeepTelling(
    log: Log, records: seq<StreamRecord>, r: StreamRecord, token: bytes, stamp: nat -> FooterStamp)
    requires FootersTell(log, records, token, stamp)
    ensures FootersTell(log, records + [r], token, stamp)
  {
    hide FooterTells;
    forall i | 0 <= i < |log.sealed|
      ensures FooterTells(
        log.sealed[i].footer, log.start, i, |Flat(log.sealed[..i + 1])|, records + [r], token, stamp(i))
    {
      FooterKeepsTelling(
        log.sealed[i].footer, log.start, i, |Flat(log.sealed[..i + 1])|, records, r, token, stamp(i));
    }
  }

  lemma FooterKeepsTelling(
    f: BlockFooter, start: nat, i: nat, end: nat, records: seq<StreamRecord>, r: StreamRecord, token: bytes,
    stamp: FooterStamp)
    requires FooterTells(f, start, i, end, records, token, stamp)
    ensures FooterTells(f, start, i, end, records + [r], token, stamp)
  {
    hide Position;
    hide RecordHeader;
    hide RecordBytes;
    hide MayClose;
    PositionOfPrefix(records, r, f.lastRecordSequence);
    if Position(records, f.lastRecordSequence) != end {
      PositionOfPrefix(records, r, f.lastRecordSequence + 1);
      assert (records + [r])[f.lastRecordSequence] == records[f.lastRecordSequence];
    }
  }

  lemma NextFooterTells(
    log: Log, footer: BlockFooter, records: seq<StreamRecord>, token: bytes, stamp: nat -> FooterStamp)
    requires FootersTell(log, records, token, stamp)
    requires FooterTells(footer, log.start, |log.sealed|, |Data_(log)|, records, token, stamp(|log.sealed|))
    ensures FootersTell(Seal(log, footer), records, token, stamp)
  {
    hide FooterTells;
    var sealed := log.sealed + [Sealed(log.tail, footer)];
    FlatAppend(log.sealed, Sealed(log.tail, footer));
    forall i | 0 <= i < |sealed|
      ensures FooterTells(sealed[i].footer, log.start, i, |Flat(sealed[..i + 1])|, records, token, stamp(i))
    {
      if i < |log.sealed| {
        assert sealed[..i + 1] == log.sealed[..i + 1];
      } else {
        assert sealed[..i + 1] == sealed;
      }
    }
  }

  datatype FooterStamp = FooterStamp(timestampMs: u64, truncatedOffset: u64)

  ghost function FooterFieldSize(f: BlockFooter, i: nat): nat
    requires i < 11
  {
    |FieldBytes(FOOTER_SCHEMA.fields[i], FooterToMessage(f).values[i])|
  }

  lemma FooterSize(f: BlockFooter)
    ensures |FooterProto(f)| == FooterFieldSize(f, 0) + FooterFieldSize(f, 1) + FooterFieldSize(f, 2)
      + FooterFieldSize(f, 3) + FooterFieldSize(f, 4) + FooterFieldSize(f, 5) + FooterFieldSize(f, 6)
      + FooterFieldSize(f, 7) + FooterFieldSize(f, 8) + FooterFieldSize(f, 9) + FooterFieldSize(f, 10)
  {
    FooterSizeStep(f, 0);
    FooterSizeStep(f, 1);
    FooterSizeStep(f, 2);
    FooterSizeStep(f, 3);
    FooterSizeStep(f, 4);
    FooterSizeStep(f, 5);
    FooterSizeStep(f, 6);
    FooterSizeStep(f, 7);
    FooterSizeStep(f, 8);
    FooterSizeStep(f, 9);
    FooterSizeStep(f, 10);
  }

  lemma FooterSizeStep(f: BlockFooter, i: nat)
    requires i < 11
    ensures var m := FooterToMessage(f);
      |FieldsBytes(FOOTER_SCHEMA, m, i)| == FooterFieldSize(f, i) + |FieldsBytes(FOOTER_SCHEMA, m, i + 1)|
    ensures |FieldsBytes(FOOTER_SCHEMA, FooterToMessage(f), 11)| == 0
  {
  }

  // ---- How long a token may be ----

  /**
   The footers a writer can come to: its data area is used up but for a header that did not fit, the block
   number follows from the offset, and each record counted took five bytes or more.
   */
  predicate MayClose(f: BlockFooter) {
    && f.magic == MAGIC && f.version == VERSION
    && DATA_SIZE - 9 < f.blockEnd <= DATA_SIZE
    && f.lastRecordOffset == f.blockNumber * BLOCK_SIZE + DATA_SIZE && f.lastRecordOffset + FOOTER_SIZE < U64_LIMIT
    && 5 * f.lastRecordSequence <= f.lastRecordOffset
  }

  predicate Fits(f: BlockFooter) {
    |FooterProto(f)| + PROTO_HEADER_SIZE <= FOOTER_SIZE
  }

  function TokenSize(token: bytes): nat {
    if token == [] then 0 else 1 + |Varint(|token|)| + |token|
  }

  lemma FixedFieldSizes(f: BlockFooter)
    requires f.magic == MAGIC
    ensures FooterFieldSize(f, 0) == 9 && FooterFieldSize(f, 3) == if f.blockCrc == 0 then 0 else 5
    ensures FooterFieldSize(f, 9) == TokenSize(f.clientToken)
  {
    KeyIsOneByte(Field(1, Fixed64));
    KeyIsOneByte(Field(4, Fixed32));
    KeyIsOneByte(Field(10, Blob));
  }

  /** The size of a field that holds a number. */
  lemma NumberFieldSizes(f: BlockFooter)
    ensures FooterFieldSize(f, 1) == |FieldBytes(Field(2, UInt32), Number(f.version))|
    ensures FooterFieldSize(f, 2) == |FieldBytes(Field(3, UInt64), Number(f.timestampMs))|
    ensures FooterFieldSize(f, 4) == |FieldBytes(Field(5, UInt64), Number(f.blockNumber))|
    ensures FooterFieldSize(f, 5) == |FieldBytes(Field(6, UInt32), Number(f.blockEnd))|
    ensures FooterFieldSize(f, 6) == |FieldBytes(Field(7, UInt64), Number(f.lastRecordOffset))|
    ensures FooterFieldSize(f, 7) == |FieldBytes(Field(8, UInt32), Number(f.lastRecordLeftSize))|
    ensures FooterFieldSize(f, 8) == |FieldBytes(Field(9, UInt64), Number(f.lastRecordSequence))|
    ensures FooterFieldSize(f, 10) == |FieldBytes(Field(12, UInt64), Number(f.truncatedOffset))|
  {
    hide FieldBytes;
  }

  lemma FewPow128()
    ensures Pow128(1) == 0x80 && Pow128(2) == 0x4000 && Pow128(3) == 0x20_0000 && Pow128(6) == 0x400_0000_0000
    ensures Pow128(7) == 0x2_0000_0000_0000 && Pow128(8) == 0x100_0000_0000_0000 && Pow128(9) == 0x8000_0000_0000_0000
  {
    Pow128Values();
    assert Pow128(1) == 128 * Pow128(0);
    assert Pow128(2) == 128 * Pow128(1);
    assert Pow128(3) == 128 * Pow128(2);
    assert Pow128(4) == 128 * Pow128(3);
    assert Pow128(5) == 128 * Pow128(4);
    assert Pow128(6) == 128 * Pow128(5);
    assert Pow128(7) == 128 * Pow128(6);
    assert Pow128(8) == 128 * Pow128(7);
    assert Pow128(9) == 128 * Pow128(8);
  }

  /** What a writer's footer takes besides its token: at least 19 bytes and at most 77. */
  lemma FooterBounds(f: BlockFooter)
    requires MayClose(f)
    ensures 19 + TokenSize(f.clientToken) <= |FooterProto(f)| <= 77 + TokenSize(f.clientToken)
  {
    hide FieldBytes;
    hide FooterProto;
    hide FooterFieldSize;
    hide Pow128;
    FewPow128();
    Pow128Values();
    FooterSize(f);
    FixedFieldSizes(f);
    NumberFieldSizes(f);
    VarintFieldSize(Field(2, UInt32), f.version, 1);
    VarintFieldSize(Field(3, UInt64), f.timestampMs, 10);
    VarintFieldSize(Field(5, UInt64), f.blockNumber, 7);
    VarintFieldSize(Field(6, UInt32), f.blockEnd, 3);
    VarintFieldSize(Field(8, UInt32), f.lastRecordLeftSize, 5);
    VarintFieldSize(Field(9, UInt64), f.lastRecordSequence, 9);
    VarintFieldSize(Field(12, UInt64), f.truncatedOffset, 10);
    OffsetFieldSize(f.lastRecordOffset);
    VersionFieldSize();
  }

  lemma VersionFieldSize()
    ensures |FieldBytes(Field(2, UInt32), Number(VERSION))| == 2
  {
    KeyIsOneByte(Field(2, UInt32));
  }

  lemma OffsetFieldSize(offset: u64)
    requires offset >= DATA_SIZE
    ensures 4 <= |FieldBytes(Field(7, UInt64), Number(offset))| <= 11
  {
    FewPow128();
    Pow128Values();
    KeyIsOneByte(Field(7, UInt64));
    VarintFieldSize(Field(7, UInt64), offset, 10);
    VarintAtLeast(offset, 2);
  }

  /** Every field of a footer takes as many bytes as it can in a writer. */
  predicate Widest(f: BlockFooter) {
    && MayClose(f)
    && f.timestampMs >= 0x8000_0000_0000_0000 && f.blockCrc != 0 && f.blockNumber >= 0x400_0000_0000
    && f.lastRecordOffset >= 0x8000_0000_0000_0000 && f.lastRecordLeftSize >= 0x1000_0000
    && f.lastRecordSequence >= 0x100_0000_0000_0000 && f.truncatedOffset >= 0x8000_0000_0000_0000
  }

  function WideFooter(token: bytes): (f: BlockFooter)
    ensures Widest(f) && f.clientToken == token
  {
    BlockFooter(
      MAGIC, VERSION, 0xFFFF_FFFF_FFFF_FFFF, 1, 0x7FFF_FFFF_FFFE, DATA_SIZE, 0xFFFF_FFFF_FFFD_FF80, 0xFFFF_FFFF,
      0x200_0000_0000_0000, token, 0xFFFF_FFFF_FFFF_FFFF)
  }

  lemma WidestSize(f: BlockFooter)
    requires Widest(f)
    ensures |FooterProto(f)| == 77 + TokenSize(f.clientToken)
  {
    hide FieldBytes;
    hide FooterProto;
    hide FooterFieldSize;
    hide Pow128;
    FewPow128();
    Pow128Values();
    FooterSize(f);
    FixedFieldSizes(f);
    NumberFieldSizes(f);
    VersionFieldSize();
    VarintFieldSize(Field(3, UInt64), f.timestampMs, 10);
    VarintFieldSize(Field(5, UInt64), f.blockNumber, 7);
    VarintFieldSize(Field(6, UInt32), f.blockEnd, 3);
    VarintFieldSize(Field(7, UInt64), f.lastRecordOffset, 10);
    VarintFieldSize(Field(8, UInt32), f.lastRecordLeftSize, 5);
    VarintFieldSize(Field(9, UInt64), f.lastRecordSequence, 9);
    VarintFieldSize(Field(12, UInt64), f.truncatedOffset, 10);
  }

  /** Such a footer has no room for a token of more than 41 bytes. */
  lemma WidestIsTooLong(f: BlockFooter)
    requires Widest(f)
    ensures Fits(f) <==> |f.clientToken| <= ALWAYS_FITS
  {
    hide FooterProto;
    hide TokenSize;
    WidestSize(f);
    TokenSizes(f.clientToken);
    NoToken();
  }

  function BareFooter(token: bytes): (f: BlockFooter)
    ensures MayClose(f) && f.clientToken == token
  {
    BlockFooter(MAGIC, VERSION, 0, 0, 0, DATA_SIZE, DATA_SIZE, 0, 0, token, 0)
  }

  lemma BareFooterSize(token: bytes)
    ensures |FooterProto(BareFooter(token))| == 19 + TokenSize(token)
  {
    hide FooterProto;
    hide FooterFieldSize;
    hide Pow128;
    var f := BareFooter(token);
    FewPow128();
    FooterSize(f);
    FixedFieldSizes(f);
    NumberFieldSizes(f);
    VersionFieldSize();
    VarintFieldSize(Field(6, UInt32), DATA_SIZE, 3);
    VarintFieldSize(Field(7, UInt64), DATA_SIZE, 3);
  }

  const ALWAYS_FITS: nat := 41
  const EVER_FITS: nat := 99

  lemma TokenSizes(token: bytes)
    ensures token != [] ==> TokenSize(token) >= 2 + |token|
    ensures 0 < |token| < 128 ==> TokenSize(token) == 2 + |token|
  {
  }

  /** With a token of up to 41 bytes every footer of a writer fits its slot; with no longer token do they all. */
  lemma TokenAlwaysFits(length: nat)
    ensures (forall f: BlockFooter :: MayClose(f) && |f.clientToken| == length ==> Fits(f)) <==> length <= ALWAYS_FITS
  {
    hide FooterProto;
    hide TokenSize;
    hide WideFooter;
    if length <= ALWAYS_FITS {
      forall f: BlockFooter | MayClose(f) && |f.clientToken| == length
        ensures Fits(f)
      {
        FooterBounds(f);
        TokenSizes(f.clientToken);
        NoToken();
      }
    } else {
      var f := WideFooter(Zeros(length));
      WidestIsTooLong(f);
      assert !Fits(f);
    }
  }

  lemma NoToken()
    ensures TokenSize([]) == 0
  {
  }

  /** Some footer of a writer fits its slot with a token of up to 99 bytes; none with a longer one. */
  lemma TokenEverFits(length: nat)
    ensures (exists f: BlockFooter :: MayClose(f) && |f.clientToken| == length && Fits(f)) <==> length <= EVER_FITS
  {
    hide FooterProto;
    hide TokenSize;
    hide BareFooter;
    if length <= EVER_FITS {
      var f := BareFooter(Zeros(length));
      BareFooterSize(Zeros(length));
      TokenSizes(Zeros(length));
      NoToken();
      assert Zeros(0) == [];
      assert Fits(f);
    } else {
      forall f: BlockFooter | MayClose(f) && |f.clientToken| == length
        ensures !Fits(f)
      {
        FooterBounds(f);
        TokenSizes(f.clientToken);
      }
    }
  }

  // ---- The blocks that one append closes ----

  /** How much of a record goes into the open block: nothing when its header does not fit there whole. */
  function FirstPart(tail: nat, recordHeader: nat): nat {
    if tail + recordHeader > DATA_SIZE then 0 else DATA_SIZE - tail
  }

  /** How many blocks are closed: one that the end of the record just fills stays open. */
  function Closings(size: nat, first: nat): nat {
    if size <= first then 0 else 1 + (size - first - 1) / DATA_SIZE
  }

  /** A record about to be appended to a log, of which `first` bytes go into the open block. */
  datatype Appending = Appending(
    log: Log, rec: bytes, first: nat, sequence: nat, token: bytes, stamp: nat -> FooterStamp)
  {
    ghost predicate Ready() {
      && log.start % BLOCK_SIZE == 0 && 5 * sequence <= End(log)
      && |log.tail| <= DATA_SIZE && (first == 0 || |log.tail| + first == DATA_SIZE)
      && (first == 0 ==> |log.tail| + 9 > DATA_SIZE)
    }

    /** How much of the record is down when its `k`th block is closed. */
    ghost function Down(k: nat): nat {
      first + k * DATA_SIZE
    }

    ghost function Data(k: nat): bytes
      requires Down(k) <= |rec|
    {
      if k == 0 then log.tail + rec[..first] else rec[Down(k - 1)..Down(k)]
    }

    ghost function Offset(k: nat): nat {
      log.start + (|log.sealed| + k) * BLOCK_SIZE + DATA_SIZE
    }

    ghost function Footer(k: nat): BlockFooter
      requires Ready() && Down(k) <= |rec| && Offset(k) + FOOTER_SIZE < U64_LIMIT
    {
      var block := |log.sealed| + k;
      BlockFooter(
        MAGIC, VERSION, stamp(block).timestampMs, StreamCrc(Seed(log, block), Data(k)), Offset(k) / BLOCK_SIZE,
        |Data(k)|, Offset(k), if Down(k) == 0 then 0 else (|rec| - Down(k)) % U32_LIMIT, sequence, token,
        stamp(block).truncatedOffset)
    }

    /** The `k`th block can be closed: the stream goes on within 64 bits, and its footer has room. */
    ghost predicate Closes(k: nat)
      requires Ready() && Down(k) <= |rec|
    {
      Offset(k) + FOOTER_SIZE < U64_LIMIT && Fits(Footer(k))
    }

    ghost predicate FirstClose(n: nat)
      requires Ready()
    {
      forall k | 0 <= k < n :: Down(k) <= |rec| && Closes(k)
    }

    ghost predicate Fit()
      requires Ready()
    {
      FirstClose(Closings(|rec|, first))
    }

    /** Some block cannot be closed although the stream goes on within 64 bits. */
    ghost predicate FooterTooLong()
      requires Ready()
    {
      exists k: nat :: Outgrown(k)
    }

    ghost predicate Outgrown(k: nat)
      requires Ready()
    {
      Down(k) < |rec| && Offset(k) + FOOTER_SIZE < U64_LIMIT && !Fits(Footer(k))
    }

    /** Well inside 64 bits, only a footer can make an append fail. */
    lemma FailsByFooter()
      requires Ready() && End(log) + 2 * |rec| + 150 < U64_LIMIT
      ensures Fit() <==> !FooterTooLong()
    {
      hide Footer;
      hide Fits;
      hide Ready;
      if !Fit() {
        var k :| 0 <= k < Closings(|rec|, first) && !(Down(k) <= |rec| && Closes(k));
        ClosingsCount(k);
        OffsetsStayBelow(k);
        assert Outgrown(k);
      }
      if FooterTooLong() {
        var k: nat :| Outgrown(k);
        ClosingsCount(k);
      }
    }

    lemma ClosingsCount(k: nat)
      ensures k < Closings(|rec|, first) <==> Down(k) < |rec|
    {
      if |rec| > first {
        var left := |rec| - first - 1;
        assert left == left / DATA_SIZE * DATA_SIZE + left % DATA_SIZE;
        if k > left / DATA_SIZE {
          assert k * DATA_SIZE >= (left / DATA_SIZE + 1) * DATA_SIZE;
        } else {
          assert k * DATA_SIZE <= left / DATA_SIZE * DATA_SIZE;
        }
      }
    }

    lemma FooterMayClose(k: nat)
      requires Ready() && Down(k) <= |rec| && Offset(k) + FOOTER_SIZE < U64_LIMIT
      ensures MayClose(Footer(k)) && Footer(k).clientToken == token
    {
      hide StreamCrc;
      LengthAtClose(log.(sealed := log.sealed + seq(k, i => Sealed([], BareFooter([])))), Offset(k));
    }

    lemma OffsetsStayBelow(k: nat)
      requires Ready() && Down(k) < |rec|
      ensures Offset(k) + FOOTER_SIZE <= End(log) + 2 * |rec| + 150
    {
      assert k * BLOCK_SIZE <= 2 * (k * DATA_SIZE);
      assert (|log.sealed| + k) * BLOCK_SIZE == |log.sealed| * BLOCK_SIZE + k * BLOCK_SIZE;
    }

    /** A token of up to 41 bytes, and offsets well inside 64 bits. */
    lemma ShortTokenFits()
      requires Ready() && |token| <= ALWAYS_FITS && End(log) + 2 * |rec| + 150 < U64_LIMIT
      ensures Fit()
    {
      hide Footer;
      hide Fits;
      hide MayClose;
      hide Ready;
      TokenAlwaysFits(|token|);
      forall k | 0 <= k < Closings(|rec|, first)
        ensures Down(k) <= |rec| && Closes(k)
      {
        ClosingsCount(k);
        OffsetsStayBelow(k);
        FooterMayClose(k);
      }
    }

    /** Closing one block is too much for a token of more than 99 bytes. */
    lemma LongTokenFails()
      requires Ready() && |token| > EVER_FITS && |rec| > first
      ensures !Fit()
    {
      hide Footer;
      hide Fits;
      hide MayClose;
      ClosingsCount(0);
      TokenEverFits(|token|);
      if Offset(0) + FOOTER_SIZE < U64_LIMIT {
        FooterMayClose(0);
        assert MayClose(Footer(0)) && !Fits(Footer(0));
      }
    }

    // -- Part of the way --

    /** `written` bytes are down, in a log whose open block is used up to `here`. */
    ghost predicate Midway(now: Log, written: nat, here: nat)
      requires Ready()
    {
      |log.sealed| <= |now.sealed| && After(now, written, here, |now.sealed| - |log.sealed|)
    }

    ghost predicate After(now: Log, written: nat, here: nat, j: nat)
      requires Ready()
    {
      && now.start == log.start && now.prev == log.prev && |now.sealed| == |log.sealed| + j && written <= |rec|
      && FirstClose(j)
      && written <= Down(j) && (here == DATA_SIZE <==> written == Down(j))
      && if j == 0 then now.tail == log.tail + rec[..written]
         else Down(j - 1) <= written && Down(j - 1) < |rec| && now.tail == rec[Down(j - 1)..written]
    }

    lemma MidwayStart(here: nat)
      requires Ready() && here == if first == 0 then DATA_SIZE else |log.tail|
      ensures Midway(log, 0, here)
    {
      assert rec[..0] == [];
    }

    lemma MidwayWrite(now: Log, written: nat, chunk: bytes)
      requires Ready() && Midway(now, written, |now.tail|) && |now.tail| < DATA_SIZE
      requires written + |chunk| <= |rec| && chunk == rec[written..written + |chunk|]
      requires |now.tail| + |chunk| <= DATA_SIZE
      ensures Midway(Grow(now, chunk), written + |chunk|, |now.tail| + |chunk|)
    {
      hide FirstClose;
      var j := |now.sealed| - |log.sealed|;
      if j == 0 {
        assert rec[..written + |chunk|] == rec[..written] + chunk;
        Associative(log.tail, rec[..written], chunk);
      } else {
        assert rec[Down(j - 1)..written + |chunk|] == rec[Down(j - 1)..written] + chunk;
      }
    }

    /** The footer made at that point is the one foreseen. */
    lemma MidwayFooter(now: Log, written: nat, f: BlockFooter, j: nat)
      requires Ready() && Midway(now, written, DATA_SIZE) && written < |rec| && |now.sealed| == |log.sealed| + j
      requires Offset(j) + FOOTER_SIZE < U64_LIMIT
      requires MayClose(f) && f.clientToken == token && f.blockCrc == TailCrc(now) && f.blockEnd == |now.tail|
      requires f.timestampMs == stamp(|now.sealed|).timestampMs
      requires f.truncatedOffset == stamp(|now.sealed|).truncatedOffset
      requires f.blockNumber * BLOCK_SIZE == now.start + |now.sealed| * BLOCK_SIZE && f.lastRecordSequence == sequence
      requires f.lastRecordLeftSize == if written > 0 then (|rec| - written) % U32_LIMIT else 0
      ensures Down(j) == written && Footer(j) == f
    {
      hide Midway;
      hide Data;
      hide Ready;
      hide Down;
      hide TailCrc;
      hide StreamCrc;
      MidwayData(now, written, j);
      FooterMayClose(j);
      assert Footer(j).blockNumber == f.blockNumber;
    }

    lemma MidwayData(now: Log, written: nat, j: nat)
      requires Ready() && Midway(now, written, DATA_SIZE) && |now.sealed| == |log.sealed| + j
      ensures now.start == log.start && Down(j) == written <= |rec| && now.tail == Data(j)
      ensures TailCrc(now) == StreamCrc(Seed(log, |log.sealed| + j), Data(j))
      ensures End(now) + DATA_SIZE - |now.tail| == Offset(j)
    {
      hide StreamCrc;
      hide FirstClose;
      hide Ready;
      assert Down(0) == first;
      hide Down;
    }

    lemma MidwayClose(now: Log, written: nat, f: BlockFooter, j: nat)
      requires Ready() && Midway(now, written, DATA_SIZE) && written < |rec| && |now.sealed| == |log.sealed| + j
      requires Down(j) == written && Closes(j)
      ensures Midway(Seal(now, f), written, 0)
    {
      MidwayIs(now, written, DATA_SIZE, j);
      MidwayIs(Seal(now, f), written, 0, j + 1);
      hide *;
      AfterClose(now, written, f, j);
    }

    lemma MidwayIs(now: Log, written: nat, here: nat, j: nat)
      requires Ready() && |now.sealed| == |log.sealed| + j
      ensures Midway(now, written, here) <==> After(now, written, here, j)
    {
      hide After;
      hide Ready;
    }

    lemma DownSteps(j: nat)
      ensures Down(j + 1) == Down(j) + DATA_SIZE
    {
    }

    lemma AfterClose(now: Log, written: nat, f: BlockFooter, j: nat)
      requires Ready() && After(now, written, DATA_SIZE, j) && written < |rec| && Closes(j)
      ensures After(Seal(now, f), written, 0, j + 1)
    {
      hide Closes;
      hide FirstClose;
      hide Down;
      hide Ready;
      OneMoreCloses(j);
      DownSteps(j);
      assert rec[written..written] == [];
    }

    lemma OneMoreCloses(j: nat)
      requires Ready() && FirstClose(j) && Down(j) <= |rec| && Closes(j)
      ensures FirstClose(j + 1)
    {
      hide Closes;
    }

    lemma MidwayEnds(now: Log, here: nat)
      requires Ready() && Midway(now, |rec|, here)
      ensures Fit()
    {
      hide FirstClose;
      var j := |now.sealed| - |log.sealed|;
      ClosingsCount(j);
      if j > 0 {
        ClosingsCount(j - 1);
      }
    }

    lemma MidwayFails(now: Log, written: nat, j: nat)
      requires Ready() && Midway(now, written, DATA_SIZE) && written < |rec| && |now.sealed| == |log.sealed| + j
      ensures Fit() ==> Down(j) <= |rec| && Closes(j)
    {
      hide Closes;
      hide Down;
      ClosingsCount(j);
    }
  }

  lemma {:induction false} FewRecords(records: seq<StreamRecord>)
    ensures 5 * |records| <= |AllBytes(records)|
  {
    hide RecordBytes;
    if records != [] {
      RecordNotEmpty(records[0].payload);
      FewRecords(records[1..]);
    }
  }

  lemma {:induction false} FlatWithinBlocks(sealed: seq<Sealed>)
    requires forall b <- sealed :: Closed(b)
    ensures |Flat(sealed)| <= |sealed| * BLOCK_SIZE
  {
    if sealed != [] {
      assert sealed[0] in sealed;
      FlatWithinBlocks(sealed[1..]);
    }
  }

  // ---- Footers and cuts ----

  lemma {:induction false} PlaceOf(records: seq<StreamRecord>, n: nat, c: nat)
    requires c <= |records| && Position(records, c) <= n
    requires if c < |records| then n < Position(records, c + 1) else n == Position(records, c)
    ensures Complete(records, n) == c && LeftOver(records, n) == n - Position(records, c)
    decreases |records|
  {
    hide RecordBytes;
    if c == 0 {
      assert records[..0] == [];
      if records != [] {
        assert records[..1][1..] == [] && records[..1][0] == records[0];
        RecordNotEmpty(records[0].payload);
      }
    } else {
      var rest := records[1..];
      assert records[..c][0] == records[0] && records[..c][1..] == rest[..c - 1];
      if c < |records| {
        assert records[..c + 1][0] == records[0] && records[..c + 1][1..] == rest[..c];
      }
      PlaceOf(rest, n - |RecordBytes(records[0].payload)|, c - 1);
    }
  }

  lemma TellingIsAsWritten(log: Log, records: seq<StreamRecord>, token: bytes, stamp: nat -> FooterStamp)
    requires FootersTell(log, records, token, stamp)
    ensures AsWritten(log, records)
  {
    hide FooterTells;
    hide WholeHeader;
    hide Flat;
    forall i | 0 <= i < |log.sealed|
      ensures BlockAsWritten(log.sealed, records, i)
    {
      assert FooterTells(
        log.sealed[i].footer, log.start, i, |Flat(log.sealed[..i + 1])|, records, token, stamp(i));
      FooterTellsWhole(log.sealed[i].footer, log.start, i, |Flat(log.sealed[..i + 1])|, records, token, stamp(i));
    }
  }

  lemma FooterTellsWhole(
    f: BlockFooter, start: nat, i: nat, end: nat, records: seq<StreamRecord>, token: bytes, stamp: FooterStamp)
    requires FooterTells(f, start, i, end, records, token, stamp)
    ensures f.version == VERSION && WholeHeader(records, end)
  {
    hide Position;
    hide RecordHeader;
    hide RecordBytes;
    hide Complete;
    hide LeftOver;
    var c := f.lastRecordSequence;
    if Position(records, c) == end && c < |records| {
      PositionStep(records, c);
    }
    PlaceOf(records, end, c);
  }

  // ---- The writer ----

  class BlobWriter {
    var out: bytes
    /** How long the stream is, with all blobs before this one. */
    var length: nat
    var blockCrc: u32
    /** Records appended so far. */
    var sequence: nat
    var stampsTaken: nat
    const startOffset: nat
    const token: bytes
    /** What each footer is stamped with, call by call. */
    const stamp: nat -> FooterStamp
    ghost const header: BlobHeader
    ghost var log: Log
    ghost var records: seq<StreamRecord>

    /** Between records, and inside one: `here` is the offset in the open block, past any padding. */
    ghost predicate Consistent(here: nat)
      reads this
    {
      && header.startOffset % BLOCK_SIZE == 0
      && log.start == header.startOffset && log.prev == header.prevBlockCrc
      && startOffset == header.startOffset && token == header.clientToken
      && Sound(log)
      && |log.tail| <= here <= DATA_SIZE && (here > |log.tail| ==> here == DATA_SIZE)
      && out == BlobBytes(header, log) + Zeros(here - |log.tail|)
      && length == End(log) + here - |log.tail|
      && blockCrc == TailCrc(log)
      && sequence == |records| && stampsTaken == |log.sealed|
    }

    ghost predicate Valid()
      reads this
    {
      Consistent(|log.tail|) && Describes(log, records) && FootersTell(log, records, token, stamp)
    }

    constructor (header: BlobHeader, stamp: nat -> FooterStamp)
      requires header.startOffset % BLOCK_SIZE == 0
      ensures Valid() && records == [] && this.header == header && this.stamp == stamp
      ensures token == header.clientToken && length == header.startOffset
    {
      this.header := header;
      this.stamp := stamp;
      startOffset := header.startOffset;
      token := header.clientToken;
      out := HeaderBlock(header);
      length := header.startOffset;
      blockCrc := header.prevBlockCrc;
      sequence := 0;
      stampsTaken := 0;
      log := Log(header.startOffset, header.prevBlockCrc, [], []);
      records := [];
      EmptyCrc(header.prevBlockCrc);
    }

    /** A writer in the state of another. */
    constructor Copy(w: BlobWriter)
      requires w.Valid()
      ensures Valid() && header == w.header && records == w.records && token == w.token && stamp == w.stamp
      ensures forall payload :: Coming(payload) == w.Coming(payload)
    {
      header := w.header;
      stamp := w.stamp;
      startOffset := w.startOffset;
      token := w.token;
      out := w.out;
      length := w.length;
      blockCrc := w.blockCrc;
      sequence := w.sequence;
      stampsTaken := w.stampsTaken;
      log := w.log;
      records := w.records;
      new;
      hide Consistent;
      assert Consistent(|log.tail|) by {
        SameState(w);
      }
    }

    lemma SameState(w: BlobWriter)
      requires header == w.header && stamp == w.stamp && startOffset == w.startOffset && token == w.token
      requires out == w.out && length == w.length && blockCrc == w.blockCrc && sequence == w.sequence
      requires stampsTaken == w.stampsTaken && log == w.log && records == w.records
      requires w.Consistent(|w.log.tail|)
      ensures Consistent(|log.tail|)
    {
      hide Sound;
      hide BlobBytes;
      hide TailCrc;
    }

    /** The bytes written so far read back as the records appended, exactly in the stated cases. */
    lemma WrittenReadsBack()
      requires Valid()
      ensures ReadBlob(out) == Ok(Written(header, log, records))
         <==> HeaderFits(header) && (header.prevBlockCrc == 0 || log.sealed == []) && Short(records)
    {
      assert out == BlobBytes(header, log);
      ReadsBack(header, log, records);
    }

    /** Cut off anywhere in its body, the blob gives only records that were appended, exactly in the stated cases. */
    lemma WrittenCut(m: nat)
      requires Valid() && HeaderFits(header) && Short(records) && m <= |Body(log)|
      ensures AsWritten(log, records) && |Body(log)| == |Blocks(log.sealed)| + |log.tail|
      ensures var c := CutAt(log.sealed, log.tail, m);
        && c.whole <= |log.sealed| && Kept(log.sealed, c) <= |AllBytes(records)|
        && (c.slot != [] ==> WholeHeader(records, Kept(log.sealed, c)))
        && ReadBlob(HeaderBlock(header) + Body(log)[..m]) == CutContents(header, log, records, c)
        && (OnlyWritten(ReadBlob(HeaderBlock(header) + Body(log)[..m]), records)
            <==> (header.prevBlockCrc != 0 && c.whole > 0) || NoPhantom(records, Kept(log.sealed, c), c.slot))
    {
      hide *;
      WriterLayout();
      TellingIsAsWritten(log, records, token, stamp);
      CutBlobReads(header, log, records, m);
      CutGivesOnlyWritten(header, log, records, m);
    }

    lemma WriterLayout()
      requires Valid()
      ensures Layout(header, log, records) && FootersTell(log, records, token, stamp)
      ensures log.prev == header.prevBlockCrc && |log.tail| <= DATA_SIZE && out == BlobBytes(header, log)
    {
      assert out == BlobBytes(header, log);
      hide BlobBytes;
      hide TailCrc;
    }

    method Push(data: bytes)
      modifies this`out, this`length
      ensures out == old(out) + data && length == old(length) + |data|
    {
      out := out + data;
      length := length + |data|;
    }

    /** Data into the open block. */
    method WriteChunk(chunk: bytes)
      requires Consistent(|log.tail|) && |log.tail| + |chunk| <= DATA_SIZE
      modifies this`out, this`length, this`blockCrc, this`log
      ensures log == Grow(old(log), chunk) && Consistent(|log.tail|) && length == old(length) + |chunk|
    {
      hide HeaderBlock;
      hide Body;
      hide StreamCrc;
      hide Sound;
      GrowKeepsSound(log, chunk);
      BlobGrows(header, log, chunk);
      blockCrc := StreamCrc(blockCrc, chunk);
      Push(chunk);
      log := Grow(log, chunk);
    }

    /** Padding up to the footer of a block in which the next record's header does not fit. */
    method Pad(blockOffset: nat)
      requires Consistent(|log.tail|) && blockOffset == |log.tail|
      modifies this`out, this`length
      ensures Consistent(DATA_SIZE) && length == old(length) + DATA_SIZE - |log.tail|
    {
      hide BlobBytes;
      hide Sound;
      hide TailCrc;
      Push(Zeros(BLOCK_SIZE - blockOffset - FOOTER_SIZE));
    }

    /**
     The footer of a block whose data area is used up. The slot has room for 120 bytes of message; a
     footer that outgrows it, or an offset past 64 bits, panics (`ok` is false).
     */
    method CloseBlock(blockEnd: nat, leftSize: nat, size: nat) returns (ok: bool, ghost footer: BlockFooter)
      requires Consistent(DATA_SIZE) && blockEnd == |log.tail| && |log.tail| + 9 > DATA_SIZE && 5 * sequence <= length
      modifies this`out, this`length, this`blockCrc, this`log, this`stampsTaken
      ensures ok <==> old(length) + FOOTER_SIZE < U64_LIMIT && Fits(footer)
      ensures ok ==> Consistent(0) && length == old(length) + FOOTER_SIZE && log == Seal(old(log), footer)
      ensures old(length) + FOOTER_SIZE < U64_LIMIT ==>
        && MayClose(footer) && footer.clientToken == token
        && footer.blockCrc == old(blockCrc) && footer.blockEnd == blockEnd
        && footer.timestampMs == stamp(old(stampsTaken)).timestampMs
        && footer.truncatedOffset == stamp(old(stampsTaken)).truncatedOffset
        && footer.blockNumber * BLOCK_SIZE == old(log).start + |old(log).sealed| * BLOCK_SIZE
        && footer.lastRecordSequence == sequence
        && footer.lastRecordLeftSize == if leftSize < size then leftSize % U32_LIMIT else 0
    {
      hide HeaderBlock;
      hide Body;
      hide StreamCrc;
      hide FooterProto;
      hide FooterBytes;
      var now := stamp(stampsTaken);
      stampsTaken := stampsTaken + 1;
      footer := BlockFooter(0, 0, 0, 0, 0, 0, 0, 0, 0, [], 0);
      if length + FOOTER_SIZE >= U64_LIMIT {
        return false, footer;
      }
      var closing := BlockFooter(
        MAGIC, VERSION, now.timestampMs, blockCrc, length / BLOCK_SIZE, blockEnd, length,
        if leftSize < size then leftSize % U32_LIMIT else 0, sequence, token, now.truncatedOffset);
      footer := closing;
      LengthAtClose(log, length);
      if |FooterProto(closing)| + PROTO_HEADER_SIZE > FOOTER_SIZE {
        return false, footer;
      }
      SealKeepsSound(log, closing);
      BlobSeals(header, log, closing);
      Push(FooterBytes(closing));
      blockCrc := 0;
      log := Seal(log, closing);
      ok := true;
    }

    method AppendWithinBlock(recordHeader: bytes, payload: bytes)
      requires Valid() && recordHeader == RecordHeader(payload)
      requires |log.tail| + |recordHeader| + |payload| <= DATA_SIZE
      modifies this`out, this`length, this`blockCrc, this`log
      ensures Consistent(|log.tail|)
      ensures Describes(log, records + [StreamRecord(old(length), payload)])
      ensures FootersTell(log, records + [StreamRecord(old(length), payload)], token, stamp)
    {
      hide HeaderBlock;
      hide StreamCrc;
      hide BlobBytes;
      hide Sound;
      hide TailCrc;
      hide Placing;
      hide Describes;
      hide RecordHeader;
      ghost var id, before, record := length, log, RecordBytes(payload);
      RecordHeaderSize(payload);
      NothingPlaced(log, records, record);
      assert record[..|recordHeader|] == recordHeader && record[|recordHeader|..] == payload;
      WriteChunk(recordHeader);
      PlaceChunk(before, records, record, 0, id, recordHeader, |log.tail|);
      if payload != [] {
        ghost var between := log;
        WriteChunk(payload);
        PlaceChunk(between, records, record, |recordHeader|, id, payload, |log.tail|);
      }
      Placed(log, records, payload, id, |log.tail|);
      FootersKeepTelling(log, records, StreamRecord(id, payload), token, stamp);
    }

    /** The next bytes of a record into the open block. */
    method PlaceBytes(chunk: bytes, ghost payload: bytes, ghost id: nat, ghost written: nat, ghost a: Appending)
      requires Consistent(|log.tail|) && |log.tail| + |chunk| <= DATA_SIZE && chunk != []
      requires IsFor(a, payload) && a.Midway(log, written, |log.tail|)
      requires written + |chunk| <= |RecordBytes(payload)|
      requires chunk == RecordBytes(payload)[written..written + |chunk|]
      requires Placing(log, records, RecordBytes(payload), written, id, |log.tail|)
      requires FootersTell(log, records + [StreamRecord(id, payload)], token, stamp)
      modifies this`out, this`length, this`blockCrc, this`log
      ensures Consistent(|log.tail|) && log == Grow(old(log), chunk) && length == old(length) + |chunk|
      ensures a.Midway(log, written + |chunk|, |log.tail|)
      ensures Placing(log, records, RecordBytes(payload), written + |chunk|, id, |log.tail|)
      ensures FootersTell(log, records + [StreamRecord(id, payload)], token, stamp)
    {
      hide BlobBytes;
      hide Sound;
      hide TailCrc;
      hide Placing;
      hide FootersTell;
      hide RecordBytes;
      hide a.Midway;
      hide a.Ready;
      ghost var before := log;
      a.MidwayWrite(log, written, chunk);
      WriteChunk(chunk);
      PlaceChunk(before, records, RecordBytes(payload), written, id, chunk, |log.tail|);
      FootersIgnoreTail(before, log, records + [StreamRecord(id, payload)], token, stamp);
    }

    /** The footer of a block inside, or right before, a record. */
    method CloseWithin(
      blockEnd: nat, leftSize: nat, size: nat, ghost payload: bytes, ghost id: nat, ghost written: nat, ghost a: Appending)
      returns (ok: bool)
      requires Consistent(DATA_SIZE) && blockEnd == |log.tail| && |log.tail| + 9 > DATA_SIZE && 5 * sequence <= length
      requires size == |RecordBytes(payload)| && leftSize == size - written && leftSize > 0
      requires written == 0 || written >= |RecordHeader(payload)|
      requires Placing(log, records, RecordBytes(payload), written, id, DATA_SIZE)
      requires FootersTell(log, records + [StreamRecord(id, payload)], token, stamp)
      requires IsFor(a, payload) && a.Midway(log, written, DATA_SIZE)
      modifies this`out, this`length, this`blockCrc, this`log, this`stampsTaken
      ensures ok ==> Consistent(0) && log.tail == [] && length == old(length) + FOOTER_SIZE
      ensures ok ==> Placing(log, records, RecordBytes(payload), written, id, 0)
      ensures ok ==> FootersTell(log, records + [StreamRecord(id, payload)], token, stamp)
      ensures ok ==> a.Midway(log, written, 0)
      ensures !ok ==> !a.Fit()
    {
      hide BlobBytes;
      hide Sound;
      hide TailCrc;
      hide Placing;
      hide FootersTell;
      hide RecordBytes;
      hide Fits;
      hide MayClose;
      hide End;
      hide a.Midway;
      hide a.Fit;
      hide a.Ready;
      hide a.Footer;
      hide a.Down;
      hide a.Data;
      MidwayLater(a, log, written);
      ghost var before := log;
      ghost var footer;
      ok, footer := CloseBlock(blockEnd, leftSize, size);
      ghost var j: nat := |before.sealed| - |a.log.sealed|;
      a.MidwayData(before, written, j);
      a.MidwayFails(before, written, j);
      if old(length) + FOOTER_SIZE < U64_LIMIT {
        a.MidwayFooter(before, written, footer, j);
      }
      if ok {
        a.MidwayClose(before, written, footer, j);
        ClosingFooterTells(before, records, payload, written, id, footer, token, stamp);
        PlaceSeal(before, records, RecordBytes(payload), written, id, footer);
      }
    }

    /** The append of a payload, as its outcome is settled by the state before it. */
    ghost function Coming(payload: bytes): (a: Appending)
      requires Valid()
      reads this
      ensures a.Ready()
    {
      RecordHeaderSize(payload);
      FewRecordsInLog(log, records);
      Appending(
        log, RecordBytes(payload), FirstPart(|log.tail|, |RecordHeader(payload)|), sequence, token, stamp)
    }

    ghost predicate IsFor(a: Appending, payload: bytes)
      reads this
    {
      a.Ready() && a.rec == RecordBytes(payload) && a.sequence == sequence && a.token == token && a.stamp == stamp
    }

    lemma MidwayLater(a: Appending, now: Log, written: nat)
      requires a.Ready() && a.Midway(now, written, DATA_SIZE)
      ensures |a.log.sealed| <= |now.sealed|
    {
    }

    method AppendAcrossBlocks(recordHeader: bytes, payload: bytes) returns (id: nat, ok: bool)
      requires Valid() && recordHeader == RecordHeader(payload)
      modifies this`out, this`length, this`blockCrc, this`log, this`stampsTaken
      ensures ok ==> Consistent(|log.tail|)
      ensures ok ==> Describes(log, records + [StreamRecord(id, payload)])
      ensures ok ==> FootersTell(log, records + [StreamRecord(id, payload)], token, stamp)
      ensures ok <==> old(Coming(payload).Fit())
    {
      hide HeaderBlock;
      hide StreamCrc;
      hide BlobBytes;
      hide Sound;
      hide TailCrc;
      hide Placing;
      hide Appending.Fit;
      hide Appending.Midway;
      hide Describes;
      hide RecordHeader;
      hide FootersTell;
      hide AllBytes;
      RecordHeaderSize(payload);
      NothingPlaced(log, records, RecordBytes(payload));
      FewRecordsInLog(log, records);
      OffsetInBlock(log);
      ghost var a := Coming(payload);
      a.MidwayStart(if a.first == 0 then DATA_SIZE else |log.tail|);
      id := length;
      var blockOffset: nat := length % BLOCK_SIZE;
      // Where the data of the open block ends, which padding does not move.
      var blockEnd := blockOffset;
      if blockOffset + |recordHeader| + FOOTER_SIZE > BLOCK_SIZE {
        Pad(blockOffset);
        blockOffset := DATA_SIZE;
        AlignedEnd(log);
        id := AlignUp(length, BLOCK_SIZE);
      }
      FootersKeepTelling(log, records, StreamRecord(id, payload), token, stamp);
      ok := LayDown(recordHeader, payload, id, blockOffset, blockEnd, a);
      if ok {
        Placed(log, records, payload, id, |log.tail|);
      }
    }

    lemma Room(here: nat)
      requires Consistent(here)
      ensures |log.tail| <= here <= DATA_SIZE && (here > |log.tail| ==> here == DATA_SIZE)
    {
      hide BlobBytes;
      hide Sound;
    }

    /** The two pieces of a record, cut where blocks end. */
    method LayDown(
      recordHeader: bytes, payload: bytes, ghost id: nat, blockOffset0: nat, blockEnd0: nat, ghost a: Appending)
      returns (ok: bool)
      requires recordHeader == RecordHeader(payload) && 5 <= |recordHeader| <= 9
      requires Consistent(blockOffset0) && blockEnd0 == |log.tail| && 5 * sequence <= length
      requires blockOffset0 == DATA_SIZE ==> |log.tail| + 9 > DATA_SIZE
      requires blockOffset0 < DATA_SIZE ==> blockOffset0 + |recordHeader| <= DATA_SIZE
      requires Placing(log, records, RecordBytes(payload), 0, id, blockOffset0)
      requires FootersTell(log, records + [StreamRecord(id, payload)], token, stamp)
      requires IsFor(a, payload) && a.Midway(log, 0, blockOffset0)
      modifies this`out, this`length, this`blockCrc, this`log, this`stampsTaken
      ensures ok ==> Consistent(|log.tail|)
      ensures ok ==> Placing(log, records, RecordBytes(payload), |RecordBytes(payload)|, id, |log.tail|)
      ensures ok ==> FootersTell(log, records + [StreamRecord(id, payload)], token, stamp)
      ensures ok <==> a.Fit()
    {
      hide HeaderBlock;
      hide StreamCrc;
      hide BlobBytes;
      hide Sound;
      hide TailCrc;
      hide Placing;
      hide RecordHeader;
      hide RecordBytes;
      hide FootersTell;
      hide a.Fit;
      hide a.Midway;
      hide a.Ready;
      hide End;
      hide At;
      hide Consistent;
      Room(blockOffset0);
      RecordSize(payload);
      StartsAt(recordHeader, payload);
      var blockOffset: nat, blockEnd: nat := blockOffset0, blockEnd0;
      var size := |recordHeader| + |payload|;
      var pieceIndex: nat, offsetInPiece: nat, leftSize: nat := 0, 0, size;
      while leftSize > 0
        invariant Consistent(blockOffset) && blockEnd == |log.tail|
        invariant blockOffset == DATA_SIZE ==> |log.tail| + 9 > DATA_SIZE
        invariant 0 <= leftSize <= size && (leftSize < size ==> blockOffset == |log.tail|)
        invariant leftSize == size ==> offsetInPiece == 0 && (blockOffset < DATA_SIZE ==> blockOffset + |recordHeader| <= DATA_SIZE)
        invariant leftSize < size ==> size - leftSize >= |recordHeader|
        invariant 5 * sequence <= length
        invariant leftSize > 0 ==> At(pieceIndex, offsetInPiece, recordHeader, payload, size - leftSize)
        invariant Placing(log, records, RecordBytes(payload), size - leftSize, id, blockOffset)
        invariant FootersTell(log, records + [StreamRecord(id, payload)], token, stamp)
        invariant a.Midway(log, size - leftSize, blockOffset)
        decreases leftSize, if blockOffset == DATA_SIZE then 1 else 0
      {
        Room(blockOffset);
        if blockOffset + FOOTER_SIZE == BLOCK_SIZE {
          ok := CloseWithin(blockEnd, leftSize, size, payload, id, size - leftSize, a);
          if !ok {
            return;
          }
          blockOffset := 0;
          blockEnd := 0;
          continue;
        }
        var piece := if pieceIndex == 0 then recordHeader else payload;
        AtIsInside(recordHeader, payload, pieceIndex, offsetInPiece, size - leftSize);
        var room := BLOCK_SIZE - FOOTER_SIZE - blockOffset;
        var take := if |piece| - offsetInPiece < room then |piece| - offsetInPiece else room;
        var chunk := piece[offsetInPiece..offsetInPiece + take];
        CutIsSlice(recordHeader, payload, pieceIndex, offsetInPiece, take, size - leftSize);
        AtAdvances(recordHeader, payload, pieceIndex, offsetInPiece, take, size - leftSize);
        PlaceBytes(chunk, payload, id, size - leftSize, a);
        offsetInPiece := offsetInPiece + take;
        blockOffset := blockOffset + take;
        blockEnd := blockEnd + take;
        leftSize := leftSize - take;
        if offsetInPiece == |piece| {
          pieceIndex := pieceIndex + 1;
          offsetInPiece := 0;
        }
      }
      a.MidwayEnds(log, blockOffset);
      ok := true;
    }

    /** A record goes down after all earlier ones; the offset of its first byte identifies it. */
    method Append(payload: bytes) returns (id: nat, ok: bool)
      requires Valid()
      modifies this
      ensures ok ==> Valid() && records == old(records) + [StreamRecord(id, payload)]
      ensures ok <==> old(Coming(payload).Fit())
      ensures |RecordHeader(payload)| + |payload| + old(length) % BLOCK_SIZE <= DATA_SIZE ==> ok
      ensures |token| <= ALWAYS_FITS && old(length) + 2 * |payload| + 200 < U64_LIMIT ==> ok
    {
      hide HeaderBlock;
      hide StreamCrc;
      hide BlobBytes;
      hide Sound;
      hide TailCrc;
      hide Describes;
      hide FootersTell;
      hide RecordHeader;
      var recordHeader := RecordHeader(payload);
      var blockOffset := length % BLOCK_SIZE;
      OffsetInBlock(log);
      if |recordHeader| + |payload| + blockOffset <= DATA_SIZE {
        id := length;
        AppendWithinBlock(recordHeader, payload);
        ok := true;
      } else {
        ghost var a := Coming(payload);
        if |token| <= ALWAYS_FITS && length + 2 * |payload| + 200 < U64_LIMIT {
          RecordHeaderSize(payload);
          RecordSize(payload);
          a.ShortTokenFits();
        }
        id, ok := AppendAcrossBlocks(recordHeader, payload);
        if !ok {
          return;
        }
      }
      sequence := sequence + 1;
      records := records + [StreamRecord(id, payload)];
    }
  }

  /** `written` bytes of a record are down when its cursor is at `offset` in piece `index`. */
  ghost predicate At(index: nat, offset: nat, recordHeader: bytes, payload: bytes, written: nat) {
    if index == 0 then offset == written < |recordHeader|
    else index == 1 && written == |recordHeader| + offset && offset < |payload|
  }

  lemma AtIsInside(recordHeader: bytes, payload: bytes, index: nat, offset: nat, written: nat)
    requires At(index, offset, recordHeader, payload, written)
    ensures offset < |if index == 0 then recordHeader else payload|
    ensures written < |recordHeader| + |payload|
  {
  }

  lemma AtAdvances(recordHeader: bytes, payload: bytes, index: nat, offset: nat, take: nat, written: nat)
    requires At(index, offset, recordHeader, payload, written)
    requires offset + take <= |if index == 0 then recordHeader else payload|
    ensures written + take <= |recordHeader| + |payload|
    ensures written + take < |recordHeader| + |payload| ==>
      if offset + take == |if index == 0 then recordHeader else payload|
      then At(index + 1, 0, recordHeader, payload, written + take)
      else At(index, offset + take, recordHeader, payload, written + take)
  {
  }

  lemma StartsAt(recordHeader: bytes, payload: bytes)
    requires recordHeader != []
    ensures At(0, 0, recordHeader, payload, 0)
  {
  }

  lemma CutIsSlice(recordHeader: bytes, payload: bytes, index: nat, offset: nat, take: nat, written: nat)
    requires At(index, offset, recordHeader, payload, written) && recordHeader == RecordHeader(payload)
    requires offset + take <= |if index == 0 then recordHeader else payload|
    ensures written + take <= |RecordBytes(payload)|
    ensures (if index == 0 then recordHeader else payload)[offset..offset + take]
         == RecordBytes(payload)[written..written + take]
  {
  }

  lemma OffsetInBlock(log: Log)
    requires log.start % BLOCK_SIZE == 0 && |log.tail| <= DATA_SIZE
    ensures End(log) % BLOCK_SIZE == |log.tail|
  {
  }

  lemma LengthAtClose(log: Log, length: nat)
    requires log.start % BLOCK_SIZE == 0 && length == log.start + |log.sealed| * BLOCK_SIZE + DATA_SIZE
    ensures length / BLOCK_SIZE * BLOCK_SIZE == log.start + |log.sealed| * BLOCK_SIZE
  {
  }

  lemma AlignedEnd(log: Log)
    requires log.start % BLOCK_SIZE == 0 && |log.tail| <= DATA_SIZE
    ensures AlignUp(End(log) + DATA_SIZE - |log.tail|, BLOCK_SIZE) == log.start + (|log.sealed| + 1) * BLOCK_SIZE
  {
  }

  lemma FewRecordsInLog(log: Log, records: seq<StreamRecord>)
    requires Sound(log) && Describes(log, records)
    ensures 5 * |records| <= End(log)
  {
    FewRecords(records);
    FlatWithinBlocks(log.sealed);
  }

  lemma FootersIgnoreTail(
    before: Log, log: Log, records: seq<StreamRecord>, token: bytes, stamp: nat -> FooterStamp)
    requires FootersTell(before, records, token, stamp) && log.sealed == before.sealed && log.start == before.start
    ensures FootersTell(log, records, token, stamp)
  {
    hide FooterTells;
    forall i | 0 <= i < |log.sealed|
      ensures FooterTells(log.sealed[i].footer, log.start, i, |Flat(log.sealed[..i + 1])|, records, token, stamp(i))
    {
      assert log.sealed[i].footer == before.sealed[i].footer && log.sealed[..i + 1] == before.sealed[..i + 1];
    }
  }

  lemma ClosingFooterTells(
    log: Log, records: seq<StreamRecord>, payload: bytes, written: nat, id: nat, footer: BlockFooter, token: bytes,
    stamp: nat -> FooterStamp)
    requires FootersTell(log, records + [StreamRecord(id, payload)], token, stamp)
    requires Placing(log, records, RecordBytes(payload), written, id, DATA_SIZE) && written < |RecordBytes(payload)|
    requires MayClose(footer) && footer.clientToken == token && (written == 0 || written >= |RecordHeader(payload)|)
    requires footer.timestampMs == stamp(|log.sealed|).timestampMs
    requires footer.truncatedOffset == stamp(|log.sealed|).truncatedOffset
    requires footer.blockNumber * BLOCK_SIZE == log.start + |log.sealed| * BLOCK_SIZE
    requires footer.lastRecordSequence == |records|
    requires var left := |RecordBytes(payload)| - written;
      footer.lastRecordLeftSize == if left < |RecordBytes(payload)| then left % U32_LIMIT else 0
    ensures FootersTell(Seal(log, footer), records + [StreamRecord(id, payload)], token, stamp)
  {
    hide RecordBytes;
    hide RecordHeader;
    hide MayClose;
    hide FootersTell;
    hide AllBytes;
    hide IdAt;
    var all := records + [StreamRecord(id, payload)];
    PositionOfPrefix(records, StreamRecord(id, payload), |records|);
    assert records[..|records|] == records;
    assert |Data_(log)| == Position(records, |records|) + written;
    RecordSize(payload);
    hide Placing;
    hide Position;
    assert FooterTells(footer, log.start, |log.sealed|, |Data_(log)|, all, token, stamp(|log.sealed|));
    NextFooterTells(log, footer, all, token, stamp);
  }

  /** A start inside a block is refused. */
  method NewWriter(header: BlobHeader, stamp: nat -> FooterStamp) returns (w: BlobWriter?)
    ensures w == null <==> header.startOffset % BLOCK_SIZE != 0
    ensures w != null ==> fresh(w) && w.Valid() && w.records == [] && w.header == header
  {
    if header.startOffset % BLOCK_SIZE != 0 {
      return null;
    }
    w := new BlobWriter(header, stamp);
  }

  lemma BlobGrows(h: BlobHeader, log: Log, chunk: bytes)
    requires Sound(log) && Sound(Grow(log, chunk)) && Body(Grow(log, chunk)) == Body(log) + chunk
    ensures BlobBytes(h, Grow(log, chunk)) + Zeros(0) == BlobBytes(h, log) + Zeros(0) + chunk
  {
    hide HeaderBlock;
    hide Body;
    Associative(HeaderBlock(h), Body(log), chunk);
  }

  lemma BlobSeals(h: BlobHeader, log: Log, footer: BlockFooter)
    requires Sound(log) && Sound(Seal(log, footer)) && |FooterProto(footer)| + PROTO_HEADER_SIZE <= FOOTER_SIZE
    requires Body(Seal(log, footer)) == Body(log) + Zeros(DATA_SIZE - |log.tail|) + FooterBytes(footer)
    ensures BlobBytes(h, Seal(log, footer)) + Zeros(0)
         == BlobBytes(h, log) + Zeros(DATA_SIZE - |log.tail|) + FooterBytes(footer)
  {
    hide HeaderBlock;
    hide Body;
    hide FooterBytes;
    hide FooterProto;
    hide Sound;
    Associative(Body(log), Zeros(DATA_SIZE - |log.tail|), FooterBytes(footer));
    Associative(HeaderBlock(h), Body(log), Zeros(DATA_SIZE - |log.tail|) + FooterBytes(footer));
    Associative(BlobBytes(h, log), Zeros(DATA_SIZE - |log.tail|), FooterBytes(footer));
  }
}
