/** The messages of the log-stream layout: blob headers, with their lists of blobs, and block footers. */
module StreamMessages {
  import opened Bytes
  import opened Protobuf

  // ---- Listed blobs ----

  datatype BlobInfo = BlobInfo(
    blobId: u64,
    startOffset: u64,
    blobStartOffset: u64,
    blobEndOffset: u64,
    endRecordSequence: u64,
    freezeMs: u64,
    endOffset: u64,
    truncatedOffset: u64)

  function InfoTag(i: nat): nat {
    if i < 8 then i + 1 else 1
  }

  function InfoKind(tag: nat): Kind {
    UInt64
  }

  const INFO_SCHEMA: Schema := Tagged(8, InfoTag, InfoKind)

  lemma InfoSchemaIsSound()
    ensures DistinctTagsWithin(INFO_SCHEMA) && Nesting(INFO_SCHEMA) <= 1
  {
    TaggedIsSound(8, InfoTag, InfoKind, 0);
  }

  function InfoToMessage(b: BlobInfo): Message {
    Message([
      Number(b.blobId), Number(b.startOffset), Number(b.blobStartOffset), Number(b.blobEndOffset),
      Number(b.endRecordSequence), Number(b.freezeMs), Number(b.endOffset), Number(b.truncatedOffset)])
  }

  lemma InfoIsTyped(b: BlobInfo)
    ensures Typed(INFO_SCHEMA, InfoToMessage(b))
  {
    InfoSchemaIsSound();
  }

  function InfoFromMessage(m: Message): (b: BlobInfo)
    requires Typed(INFO_SCHEMA, m)
    ensures InfoToMessage(b) == m
  {
    var v := m.values;
    assert forall i :: 0 <= i < 8 ==> TypedValue(UInt64, v[i]);
    var b := BlobInfo(v[0].n, v[1].n, v[2].n, v[3].n, v[4].n, v[5].n, v[6].n, v[7].n);
    assert InfoToMessage(b).values == v;
    b
  }

  lemma InfoToMessageInjective(a: BlobInfo, b: BlobInfo)
    requires InfoToMessage(a) == InfoToMessage(b)
    ensures a == b
  {
    var v, w := InfoToMessage(a).values, InfoToMessage(b).values;
    assert v[0] == w[0] && v[1] == w[1] && v[2] == w[2] && v[3] == w[3];
    assert v[4] == w[4] && v[5] == w[5] && v[6] == w[6] && v[7] == w[7];
  }

  function InfosToRows(infos: seq<BlobInfo>): (rows: seq<Message>)
    ensures |rows| == |infos|
  {
    seq(|infos|, i requires 0 <= i < |infos| => InfoToMessage(infos[i]))
  }

  function InfosFromRows(rows: seq<Message>): (infos: seq<BlobInfo>)
    requires forall k :: 0 <= k < |rows| ==> Typed(INFO_SCHEMA, rows[k])
    ensures InfosToRows(infos) == rows
  {
    seq(|rows|, i requires 0 <= i < |rows| => InfoFromMessage(rows[i]))
  }

  lemma InfosToRowsInjective(a: seq<BlobInfo>, b: seq<BlobInfo>)
    requires InfosToRows(a) == InfosToRows(b)
    ensures a == b
  {
    forall i | 0 <= i < |a|
      ensures a[i] == b[i]
    {
      assert InfosToRows(a)[i] == InfosToRows(b)[i];
      InfoToMessageInjective(a[i], b[i]);
    }
  }

  lemma RowsAreTyped(infos: seq<BlobInfo>)
    ensures TypedValue(Repeated(INFO_SCHEMA), Rows(InfosToRows(infos)))
  {
    forall k | 0 <= k < |infos|
      ensures Typed(INFO_SCHEMA, InfosToRows(infos)[k])
    {
      InfoIsTyped(infos[k]);
    }
  }

  // ---- Blob headers ----

  datatype BlobHeader = BlobHeader(
    magic: u64,
    blobId: u64,
    blobName: bytes,
    timestampMs: u64,
    version: u32,
    startRecordSequence: u64,
    clientToken: bytes,
    dataBlobs: seq<BlobInfo>,
    startOffset: u64,
    prevBlockCrc: u32,
    truncatedOffset: u64,
    headerSize: u32,
    obsoleteBlobs: seq<BlobInfo>)

  function BlobTag(i: nat): nat {
    if i < 13 then i + 1 else 1
  }

  function BlobKind(tag: nat): Kind {
    match tag
    case 1 => Fixed64
    case 3 | 7 => Blob
    case 5 | 10 => UInt32
    case 8 | 13 => Repeated(INFO_SCHEMA)
    case 12 => Fixed32
    case _ => UInt64
  }

  const BLOB_SCHEMA: Schema := Tagged(13, BlobTag, BlobKind)

  lemma BlobSchemaIsSound()
    ensures DistinctTagsWithin(BLOB_SCHEMA) && Nesting(BLOB_SCHEMA) <= 2
  {
    InfoSchemaIsSound();
    TaggedIsSound(13, BlobTag, BlobKind, 1);
  }

  function BlobValue(h: BlobHeader, tag: nat): Value {
    match tag
    case 1 => Number(h.magic)
    case 2 => Number(h.blobId)
    case 3 => Data(h.blobName)
    case 4 => Number(h.timestampMs)
    case 5 => Number(h.version)
    case 6 => Number(h.startRecordSequence)
    case 7 => Data(h.clientToken)
    case 8 => Rows(InfosToRows(h.dataBlobs))
    case 9 => Number(h.startOffset)
    case 10 => Number(h.prevBlockCrc)
    case 11 => Number(h.truncatedOffset)
    case 12 => Number(h.headerSize)
    case _ => Rows(InfosToRows(h.obsoleteBlobs))
  }

  function BlobToMessage(h: BlobHeader): (m: Message)
    ensures |m.values| == 13
  {
    Message(seq(13, i requires 0 <= i < 13 => BlobValue(h, i + 1)))
  }

  lemma BlobIsTyped(h: BlobHeader)
    ensures Typed(BLOB_SCHEMA, BlobToMessage(h))
  {
    BlobSchemaIsSound();
    RowsAreTyped(h.dataBlobs);
    RowsAreTyped(h.obsoleteBlobs);
    forall i | 0 <= i < 13
      ensures TypedValue(BLOB_SCHEMA.fields[i].kind, BlobToMessage(h).values[i])
    {
    }
  }

  function BlobFromMessage(m: Message): (h: BlobHeader)
    requires Typed(BLOB_SCHEMA, m) && |m.values| == 13
    ensures BlobToMessage(h) == m
  {
    var v := m.values;
    assert forall i :: 0 <= i < 13 ==> TypedValue(BlobKind(i + 1), v[i]);
    var h := BlobHeader(
      v[0].n, v[1].n, v[2].s, v[3].n, v[4].n, v[5].n, v[6].s, InfosFromRows(v[7].rows), v[8].n, v[9].n, v[10].n,
      v[11].n, InfosFromRows(v[12].rows));
    assert BlobToMessage(h).values == v;
    h
  }

  lemma BlobToMessageInjective(g: BlobHeader, h: BlobHeader)
    requires BlobToMessage(g) == BlobToMessage(h)
    ensures g == h
  {
    var v, w := BlobToMessage(g).values, BlobToMessage(h).values;
    assert v[0] == w[0] && v[1] == w[1] && v[2] == w[2] && v[3] == w[3] && v[4] == w[4] && v[5] == w[5];
    assert v[6] == w[6] && v[7] == w[7] && v[8] == w[8] && v[9] == w[9] && v[10] == w[10] && v[11] == w[11];
    assert v[12] == w[12];
    InfosToRowsInjective(g.dataBlobs, h.dataBlobs);
    InfosToRowsInjective(g.obsoleteBlobs, h.obsoleteBlobs);
  }

  function BlobProto(h: BlobHeader): bytes {
    MessageBytes(BLOB_SCHEMA, BlobToMessage(h))
  }

  function DecodeBlobHeader(s: bytes): Option<BlobHeader> {
    match DecodeMessage(BLOB_SCHEMA, s)
    case None => None
    case Some(m) =>
      BlobSchemaIsSound();
      DecodedIsTyped(BLOB_SCHEMA, s);
      Some(BlobFromMessage(m))
  }

  lemma BlobHeaderRoundTrip(h: BlobHeader)
    requires |BlobProto(h)| < U64_LIMIT
    ensures DecodeBlobHeader(BlobProto(h)) == Some(h)
  {
    BlobSchemaIsSound();
    BlobIsTyped(h);
    MessageRoundTrip(BLOB_SCHEMA, BlobToMessage(h));
    DecodedIsTyped(BLOB_SCHEMA, BlobProto(h));
    BlobToMessageInjective(BlobFromMessage(BlobToMessage(h)), h);
  }

  /** The size field has a fixed width, so putting the size in does not change the size. */
  lemma SizeFieldKeepsSize(h: BlobHeader, a: u32, b: u32)
    requires a != 0 && b != 0
    ensures |BlobProto(h.(headerSize := a))| == |BlobProto(h.(headerSize := b))|
  {
    SameLengthFrom(h.(headerSize := a), h.(headerSize := b), 0);
  }

  lemma {:induction false} SameLengthFrom(g: BlobHeader, h: BlobHeader, i: nat)
    requires i <= 13 && g.headerSize != 0 && h.headerSize != 0 && g.(headerSize := 0) == h.(headerSize := 0)
    ensures |FieldsBytes(BLOB_SCHEMA, BlobToMessage(g), i)| == |FieldsBytes(BLOB_SCHEMA, BlobToMessage(h), i)|
    decreases 13 - i
  {
    if i < 13 {
      SameLengthFrom(g, h, i + 1);
      var field := BLOB_SCHEMA.fields[i];
      if i == 11 {
        assert |FieldBytes(field, Number(g.headerSize))| == |Key(field)| + 4;
        assert |FieldBytes(field, Number(h.headerSize))| == |Key(field)| + 4;
      } else {
        assert BlobValue(g, i + 1) == BlobValue(h, i + 1);
      }
    }
  }

  /** A header with nothing in it but the checksum of the block before. */
  function PlainHeader(prevBlockCrc: u32): BlobHeader {
    BlobHeader(0, 0, [], 0, 0, 0, [], [], 0, prevBlockCrc, 0, 0, [])
  }

  /** It stays small with the fields its writer sets. */
  lemma PlainHeaderSize(magic: u64, version: u32, headerSize: u32, prevBlockCrc: u32)
    ensures |BlobProto(PlainHeader(prevBlockCrc).(magic := magic, version := version, headerSize := headerSize))| <= 200
  {
    var h := PlainHeader(prevBlockCrc).(magic := magic, version := version, headerSize := headerSize);
    Pow128Values();
    KeyIsOneByte(Field(1, Fixed64));
    VarintFieldSize(Field(5, UInt32), version, 5);
    VarintFieldSize(Field(10, UInt32), prevBlockCrc, 5);
    KeyIsOneByte(Field(12, Fixed32));
    forall i | 0 <= i < 13
      ensures |FieldBytes(BLOB_SCHEMA.fields[i], BlobToMessage(h).values[i])| <= 15
    {
    }
    FieldsAtMost(BLOB_SCHEMA, BlobToMessage(h), 0, 15);
  }

  // ---- Block footers ----

  datatype BlockFooter = BlockFooter(
    magic: u64,
    version: u32,
    timestampMs: u64,
    blockCrc: u32,
    blockNumber: u64,
    blockEnd: u32,
    lastRecordOffset: u64,
    lastRecordLeftSize: u32,
    lastRecordSequence: u64,
    clientToken: bytes,
    truncatedOffset: u64)

  /** Eleven fields under twelve tags: the eleventh tag is skipped. */
  function FooterTag(i: nat): nat {
    if i < 10 then i + 1 else i + 2
  }

  function FooterKind(tag: nat): Kind {
    match tag
    case 1 => Fixed64
    case 2 | 6 | 8 => UInt32
    case 4 => Fixed32
    case 10 => Blob
    case _ => UInt64
  }

  const FOOTER_SCHEMA: Schema := Tagged(11, FooterTagWithin, FooterKind)

  function FooterTagWithin(i: nat): nat {
    if i < 11 then FooterTag(i) else 1
  }

  lemma FooterSchemaIsSound()
    ensures DistinctTagsWithin(FOOTER_SCHEMA) && Nesting(FOOTER_SCHEMA) <= 1
  {
    TaggedIsSound(11, FooterTagWithin, FooterKind, 0);
  }

  function FooterValue(f: BlockFooter, tag: nat): Value {
    match tag
    case 1 => Number(f.magic)
    case 2 => Number(f.version)
    case 3 => Number(f.timestampMs)
    case 4 => Number(f.blockCrc)
    case 5 => Number(f.blockNumber)
    case 6 => Number(f.blockEnd)
    case 7 => Number(f.lastRecordOffset)
    case 8 => Number(f.lastRecordLeftSize)
    case 9 => Number(f.lastRecordSequence)
    case 10 => Data(f.clientToken)
    case _ => Number(f.truncatedOffset)
  }

  function FooterToMessage(f: BlockFooter): (m: Message)
    ensures |m.values| == 11
  {
    Message(seq(11, i requires 0 <= i < 11 => FooterValue(f, FooterTag(i))))
  }

  lemma FooterIsTyped(f: BlockFooter)
    ensures Typed(FOOTER_SCHEMA, FooterToMessage(f))
  {
    FooterSchemaIsSound();
    forall i | 0 <= i < 11
      ensures TypedValue(FOOTER_SCHEMA.fields[i].kind, FooterToMessage(f).values[i])
    {
    }
  }

  function FooterFromMessage(m: Message): (f: BlockFooter)
    requires Typed(FOOTER_SCHEMA, m) && |m.values| == 11
    ensures FooterToMessage(f) == m
  {
    var v := m.values;
    assert forall i :: 0 <= i < 11 ==> TypedValue(FooterKind(FooterTag(i)), v[i]);
    var f := BlockFooter(
      v[0].n, v[1].n, v[2].n, v[3].n, v[4].n, v[5].n, v[6].n, v[7].n, v[8].n, v[9].s, v[10].n);
    assert FooterToMessage(f).values == v;
    f
  }

  lemma FooterToMessageInjective(f: BlockFooter, g: BlockFooter)
    requires FooterToMessage(f) == FooterToMessage(g)
    ensures f == g
  {
    var v, w := FooterToMessage(f).values, FooterToMessage(g).values;
    assert v[0] == w[0] && v[1] == w[1] && v[2] == w[2] && v[3] == w[3] && v[4] == w[4] && v[5] == w[5];
    assert v[6] == w[6] && v[7] == w[7] && v[8] == w[8] && v[9] == w[9] && v[10] == w[10];
  }

  function FooterProto(f: BlockFooter): bytes {
    MessageBytes(FOOTER_SCHEMA, FooterToMessage(f))
  }

  function DecodeFooter(s: bytes): Option<BlockFooter> {
    match DecodeMessage(FOOTER_SCHEMA, s)
    case None => None
    case Some(m) =>
      FooterSchemaIsSound();
      DecodedIsTyped(FOOTER_SCHEMA, s);
      Some(FooterFromMessage(m))
  }

  lemma FooterRoundTrip(f: BlockFooter)
    requires |FooterProto(f)| < U64_LIMIT
    ensures DecodeFooter(FooterProto(f)) == Some(f)
  {
    FooterSchemaIsSound();
    FooterIsTyped(f);
    MessageRoundTrip(FOOTER_SCHEMA, FooterToMessage(f));
    DecodedIsTyped(FOOTER_SCHEMA, FooterProto(f));
    FooterToMessageInjective(FooterFromMessage(FooterToMessage(f)), f);
  }
}
