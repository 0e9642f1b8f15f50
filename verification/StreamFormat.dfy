/**
 The log-stream layout: one header block, and then blocks of 128 KiB, each closed by a footer once it is full;
 records are laid over the data areas back to back and may straddle blocks.

 `Log` says what a blob holds block by block, `Describes` ties it to the records written, and
 `ReadBlob` is the reader as a function.
 */
module StreamFormat {
  import opened Bytes
  import opened Protobuf
  import opened Checksum
  import opened StreamMessages

  const BLOCK_SIZE: nat := 0x2_0000
  const FOOTER_SIZE: nat := 0x80
  const DATA_SIZE: nat := BLOCK_SIZE - FOOTER_SIZE
  const MAGIC: u64 := 0xBCBC_BCBC_6666_6666
  const VERSION: u32 := 1
  const PROTO_HEADER_SIZE: nat := 8

  datatype StreamRecord = StreamRecord(id: nat, payload: bytes)

  datatype BlobContents = BlobContents(header: BlobHeader, records: seq<StreamRecord>, footers: seq<BlockFooter>)

  datatype Error =
    | BlobTooShort
    | HeaderPastEnd
    | HeaderChecksum
    | BadHeader
    | HeaderMagic
    | HeaderSizeDiffers
    | Misaligned
    | NoDataRegion
    | OffsetOverflow
    | FooterTooLong
    | FooterChecksum
    | BadFooter
    | FooterMagic
    | BlockEndPastData
    | BlockChecksum
    | TruncatedRecordHeader
    | RecordChecksum

  function Le32(s: bytes): nat
    requires |s| == 4
  {
    LittleEndianValue(s)
  }

  lemma Le32RoundTrip(n: u32)
    ensures Le32(LittleEndian(n, 4)) == n
  {
    Capacities();
    LittleEndianRoundTrip(n, 4);
  }

  // ---- The header block ----

  function AlignUp(size: nat, unit: nat): nat
    requires unit > 0
  {
    (size + unit - 1) / unit * unit
  }

  function HeaderBlockSize(protoSize: nat, startOffset: nat): int {
    var startInBlock := startOffset % BLOCK_SIZE;
    var left := (BLOCK_SIZE - startInBlock) % BLOCK_SIZE;
    AlignUp(protoSize + PROTO_HEADER_SIZE + left, BLOCK_SIZE) - left
  }

  lemma HeaderBlockHoldsHeader(protoSize: nat, startOffset: nat)
    ensures HeaderBlockSize(protoSize, startOffset) >= protoSize + PROTO_HEADER_SIZE
  {
  }

  /** The header with the fields its writer sets; the size is that of the message holding it. */
  function Finished(h: BlobHeader): BlobHeader {
    var sized := h.(magic := MAGIC, version := VERSION, headerSize := 1);
    sized.(headerSize := |BlobProto(sized)| % U32_LIMIT)
  }

  /** The header message is no longer than its own 32-bit size field can say. */
  predicate HeaderFits(h: BlobHeader) {
    |BlobProto(h.(magic := MAGIC, version := VERSION, headerSize := 1))| < U32_LIMIT
  }

  function HeaderBlock(h: BlobHeader): bytes {
    var proto := BlobProto(Finished(h));
    HeaderBlockHoldsHeader(|proto|, h.startOffset);
    LittleEndian(|proto|, 4) + LittleEndian(StreamCrc(0, proto), 4)
    + (proto + Zeros(HeaderBlockSize(|proto|, h.startOffset) - PROTO_HEADER_SIZE - |proto|))
  }

  lemma FinishedSize(h: BlobHeader)
    requires HeaderFits(h)
    ensures |BlobProto(Finished(h))| == Finished(h).headerSize
  {
    var sized := h.(magic := MAGIC, version := VERSION, headerSize := 1);
    var size := |BlobProto(sized)|;
    BlobProtoNotEmpty(sized);
    SizeFieldKeepsSize(sized, 1, size);
    assert sized == sized.(headerSize := 1);
  }

  lemma BlobProtoNotEmpty(h: BlobHeader)
    requires h.magic != 0
    ensures BlobProto(h) != []
  {
    var field := BLOB_SCHEMA.fields[0];
    assert field == Field(1, Fixed64) && BlobToMessage(h).values[0] == Number(h.magic);
    assert FieldsBytes(BLOB_SCHEMA, BlobToMessage(h), 0)
        == FieldBytes(field, Number(h.magic)) + FieldsBytes(BLOB_SCHEMA, BlobToMessage(h), 1);
  }

  // ---- Records ----

  function RecordHeader(payload: bytes): bytes {
    Varint(|payload| % U32_LIMIT) + LittleEndian(StreamCrc(0, payload), 4)
  }

  function RecordBytes(payload: bytes): bytes {
    RecordHeader(payload) + payload
  }

  lemma RecordHeaderSize(payload: bytes)
    ensures 5 <= |RecordHeader(payload)| <= 9
  {
    Pow128Values();
    VarintAtMost(|payload| % U32_LIMIT, 5);
  }

  lemma RecordSize(payload: bytes)
    ensures |RecordBytes(payload)| == |RecordHeader(payload)| + |payload|
  {
  }

  lemma RecordNotEmpty(payload: bytes)
    ensures |RecordBytes(payload)| >= 5
  {
    RecordHeaderSize(payload);
  }

  function AllBytes(records: seq<StreamRecord>): bytes {
    if records == [] then [] else RecordBytes(records[0].payload) + AllBytes(records[1..])
  }

  lemma {:induction false} AllBytesAppend(records: seq<StreamRecord>, r: StreamRecord)
    ensures AllBytes(records + [r]) == AllBytes(records) + RecordBytes(r.payload)
  {
    if records == [] {
      assert records + [r] == [r];
      assert AllBytes([r]) == RecordBytes(r.payload) + AllBytes([]);
    } else {
      assert (records + [r])[1..] == records[1..] + [r];
      AllBytesAppend(records[1..], r);
    }
  }

  // ---- Blocks ----

  /** A filled block: its data and the footer that closes it. */
  datatype Sealed = Sealed(data: bytes, footer: BlockFooter)

  function FooterBytes(f: BlockFooter): (s: bytes)
    requires |FooterProto(f)| + PROTO_HEADER_SIZE <= FOOTER_SIZE
    ensures |s| == FOOTER_SIZE
  {
    var proto := FooterProto(f);
    Zeros(FOOTER_SIZE - PROTO_HEADER_SIZE - |proto|) + proto
    + (LittleEndian(|proto|, 4) + LittleEndian(StreamCrc(0, proto), 4))
  }

  predicate Closed(b: Sealed) {
    && 0 < |b.data| <= DATA_SIZE
    && |FooterProto(b.footer)| + PROTO_HEADER_SIZE <= FOOTER_SIZE
    && b.footer.magic == MAGIC
    && b.footer.blockEnd == |b.data|
  }

  function BlockBytes(b: Sealed): (s: bytes)
    requires Closed(b)
    ensures |s| == BLOCK_SIZE
  {
    b.data + Zeros(DATA_SIZE - |b.data|) + FooterBytes(b.footer)
  }

  /** A blob's data region: filled blocks, then the open one. The first block's checksum starts from `prev`. */
  datatype Log = Log(start: nat, prev: u32, sealed: seq<Sealed>, tail: bytes)

  function Flat(sealed: seq<Sealed>): bytes {
    if sealed == [] then [] else sealed[0].data + Flat(sealed[1..])
  }

  lemma {:induction false} FlatAppend(sealed: seq<Sealed>, b: Sealed)
    ensures Flat(sealed + [b]) == Flat(sealed) + b.data
  {
    if sealed == [] {
      assert sealed + [b] == [b];
      assert Flat([b]) == b.data + Flat([]);
    } else {
      assert (sealed + [b])[1..] == sealed[1..] + [b];
      FlatAppend(sealed[1..], b);
    }
  }

  function Blocks(sealed: seq<Sealed>): bytes
    requires forall b <- sealed :: Closed(b)
  {
    if sealed == [] then [] else BlockBytes(sealed[0]) + Blocks(sealed[1..])
  }

  function Seed(log: Log, i: nat): u32 {
    if i == 0 then log.prev else 0
  }

  ghost predicate Sound(log: Log) {
    && |log.tail| <= DATA_SIZE && log.start + |log.sealed| * BLOCK_SIZE < U64_LIMIT
    && (forall b <- log.sealed :: Closed(b))
    && (forall i :: 0 <= i < |log.sealed| ==>
      log.sealed[i].footer.blockCrc == StreamCrc(Seed(log, i), log.sealed[i].data))
  }

  ghost function Body(log: Log): bytes
    requires Sound(log)
  {
    Blocks(log.sealed) + log.tail
  }

  ghost function Data_(log: Log): bytes {
    Flat(log.sealed) + log.tail
  }

  /** Where in the stream the byte at data offset `at` lies. */
  function IdAt(sealed: seq<Sealed>, start: nat, at: nat): nat {
    if sealed == [] then start + at
    else if at < |sealed[0].data| then start + at
    else IdAt(sealed[1..], start + BLOCK_SIZE, at - |sealed[0].data|)
  }

  ghost function Position(records: seq<StreamRecord>, j: nat): nat
    requires j <= |records|
  {
    |AllBytes(records[..j])|
  }

  /** The log holds exactly these records, each under the stream offset of its first byte. */
  ghost predicate Describes(log: Log, records: seq<StreamRecord>) {
    && Data_(log) == AllBytes(records)
    && forall j :: 0 <= j < |records| ==> records[j].id == IdAt(log.sealed, log.start, Position(records, j))
  }

  // ---- The reader ----

  /** A record's length: at most five bytes; bits past the thirty-second are dropped. */
  function ReadVarint32(s: bytes, room: nat): (r: Parsed<nat>)
    requires room > 0
    ensures r.Parsed? ==> |r.rest| < |s|
  {
    if s == [] then Malformed
    else if s[0] < 128 then Parsed(s[0], s[1..])
    else if room == 1 then Malformed
    else
      match ReadVarint32(s[1..], room - 1)
      case Malformed => Malformed
      case Parsed(high, rest) => Parsed(s[0] - 128 + 128 * high, rest)
  }

  function ReadLength(s: bytes): (r: Parsed<nat>)
    ensures r.Parsed? ==> |r.rest| < |s| && r.value < U32_LIMIT
  {
    match ReadVarint32(s, 5)
    case Malformed => Malformed
    case Parsed(n, rest) => Parsed(n % U32_LIMIT, rest)
  }

  datatype Found = Found(at: nat, payload: bytes)

  function ReadRecords(s: bytes, at: nat): Result<seq<Found>, Error>
    decreases |s|
  {
    if s == [] then Ok([])
    else
      match ReadLength(s)
      case Malformed => Err(TruncatedRecordHeader)
      case Parsed(length, rest) =>
        if 4 + length > |rest| then Ok([])
        else
          var payload := rest[4..4 + length];
          if StreamCrc(0, payload) != Le32(rest[..4]) then Err(RecordChecksum)
          else
            var after := rest[4 + length..];
            match ReadRecords(after, at + |s| - |after|)
            case Err(e) => Err(e)
            case Ok(more) => Ok([Found(at, payload)] + more)
  }

  ghost function PrependFound(found: seq<Found>, r: Result<seq<Found>, Error>): Result<seq<Found>, Error> {
    match r
    case Err(e) => Err(e)
    case Ok(more) => Ok(found + more)
  }

  function ReadFooter(slot: bytes): Result<BlockFooter, Error>
    requires |slot| == BLOCK_SIZE
  {
    var protoLen := Le32(slot[BLOCK_SIZE - 8..BLOCK_SIZE - 4]);
    var protoCrc := Le32(slot[BLOCK_SIZE - 4..]);
    if protoLen + PROTO_HEADER_SIZE > FOOTER_SIZE then Err(FooterTooLong)
    else
      var proto := slot[BLOCK_SIZE - PROTO_HEADER_SIZE - protoLen..BLOCK_SIZE - PROTO_HEADER_SIZE];
      if StreamCrc(0, proto) != protoCrc then Err(FooterChecksum)
      else
        match DecodeFooter(proto)
        case None => Err(BadFooter)
        case Some(footer) => if footer.magic != MAGIC then Err(FooterMagic) else Ok(footer)
  }

  function ReadBlock(slot: bytes): Result<Sealed, Error>
    requires |slot| == BLOCK_SIZE
  {
    match ReadFooter(slot)
    case Err(e) => Err(e)
    case Ok(footer) =>
      if footer.blockEnd > DATA_SIZE then Err(BlockEndPastData)
      else
        var data := slot[..footer.blockEnd];
        if StreamCrc(0, data) != footer.blockCrc then Err(BlockChecksum) else Ok(Sealed(data, footer))
  }

  datatype Stripped = Stripped(sealed: seq<Sealed>, tail: bytes)

  /**
   The data region without its footers: every full block has one, the rest is the open block.
   The stream offset of each block is taken down before the block is looked at, in 64 bits.
   */
  function Strip(body: bytes, start: nat): Result<Stripped, Error>
    decreases |body|
  {
    if body == [] then Ok(Stripped([], []))
    else if start >= U64_LIMIT then Err(OffsetOverflow)
    else if |body| < BLOCK_SIZE then Ok(Stripped([], body))
    else
      match ReadBlock(body[..BLOCK_SIZE])
      case Err(e) => Err(e)
      case Ok(b) =>
        match Strip(body[BLOCK_SIZE..], start + BLOCK_SIZE)
        case Err(e) => Err(e)
        case Ok(more) => Ok(Stripped([b] + more.sealed, more.tail))
  }

  function Locate(sealed: seq<Sealed>, start: nat, found: seq<Found>): (records: seq<StreamRecord>)
    ensures |records| == |found|
  {
    seq(|found|, i requires 0 <= i < |found| =>
      StreamRecord(IdAt(sealed, start, found[i].at), found[i].payload))
  }

  function Footers(sealed: seq<Sealed>): (footers: seq<BlockFooter>)
    ensures |footers| == |sealed|
  {
    seq(|sealed|, i requires 0 <= i < |sealed| => sealed[i].footer)
  }

  function ReadHeader(s: bytes): Result<BlobHeader, Error> {
    if |s| < PROTO_HEADER_SIZE then Err(BlobTooShort)
    else
      var protoSize := Le32(s[..4]);
      if PROTO_HEADER_SIZE + protoSize > |s| then Err(HeaderPastEnd)
      else
        var proto := s[PROTO_HEADER_SIZE..PROTO_HEADER_SIZE + protoSize];
        if StreamCrc(0, proto) != Le32(s[4..8]) then Err(HeaderChecksum)
        else
          match DecodeBlobHeader(proto)
          case None => Err(BadHeader)
          case Some(header) =>
            if header.magic != MAGIC then Err(HeaderMagic)
            else if header.headerSize != protoSize then Err(HeaderSizeDiffers)
            else if header.startOffset % BLOCK_SIZE != 0 then Err(Misaligned)
            else Ok(header)
  }

  function ReadBody(header: BlobHeader, body: bytes): Result<BlobContents, Error> {
    match Strip(body, header.startOffset)
    case Err(e) => Err(e)
    case Ok(stripped) =>
      match ReadRecords(Flat(stripped.sealed) + stripped.tail, 0)
      case Err(e) => Err(e)
      case Ok(found) =>
        Ok(BlobContents(header, Locate(stripped.sealed, header.startOffset, found), Footers(stripped.sealed)))
  }

  function ReadBlob(s: bytes): Result<BlobContents, Error> {
    match ReadHeader(s)
    case Err(e) => Err(e)
    case Ok(header) =>
      var dataStart := HeaderBlockSize(header.headerSize, header.startOffset);
      HeaderBlockHoldsHeader(header.headerSize, header.startOffset);
      if dataStart > |s| then Err(NoDataRegion) else ReadBody(header, s[dataStart..])
  }
}
