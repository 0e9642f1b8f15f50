/**
 The bytes of the four messages as they stand on the wire: literal key bytes, each followed by its own field's
 value, and nothing for a field that holds its default. No schema is named.
 */
module WireLayout {
  import opened Bytes
  import opened Protobuf
  import opened ProtobufMerge
  import BlockImage
  import opened StreamMessages
  import FrameReport

  // ---- The pieces ----

  function NumberField(key: byte, n: nat): bytes {
    if n == 0 then [] else [key] + Varint(n)
  }

  function FixedField(key: byte, n: nat, width: nat): bytes {
    if n == 0 then [] else [key] + LittleEndian(n, width)
  }

  function DataField(key: byte, s: bytes): bytes {
    if s == [] then [] else [key] + (Varint(|s|) + s)
  }

  function ListField(key: byte, rows: seq<bytes>): bytes {
    if rows == [] then [] else [key] + (Varint(|rows[0]|) + rows[0] + ListField(key, rows[1..]))
  }

  function Concat(parts: seq<bytes>): bytes {
    if parts == [] then [] else parts[0] + Concat(parts[1..])
  }

  // ---- Digits ----

  lemma {:induction false} VarintSize(n: nat)
    ensures Pow128(|Varint(n)|) > n && (|Varint(n)| == 1 || n >= Pow128(|Varint(n)| - 1))
    decreases n
  {
    if n < 128 {
      assert Pow128(1) == 128 * Pow128(0);
    } else {
      VarintSize(n / 128);
      MoreThanPower(n, |Varint(n / 128)|);
    }
  }

  lemma {:induction false} VarintDigit(n: nat, i: nat)
    requires i < |Varint(n)|
    ensures Varint(n)[i] == n / Pow128(i) % 128 + if i < |Varint(n)| - 1 then 128 else 0
    decreases i
  {
    if i == 0 {
      assert n / Pow128(0) == n;
    } else {
      VarintDigit(n / 128, i - 1);
      NextDigit(n, i);
      hide Pow128;
    }
  }

  /** Seven bits to a byte, lowest first, the top bit on all bytes but the last, and as few bytes as that takes. */
  lemma VarintDigits(n: nat)
    ensures var s := Varint(n);
      && Pow128(|s|) > n && (|s| == 1 || n >= Pow128(|s| - 1))
      && forall i :: 0 <= i < |s| ==> s[i] == n / Pow128(i) % 128 + if i < |s| - 1 then 128 else 0
  {
    hide Varint;
    hide Pow128;
    VarintSize(n);
    forall i | 0 <= i < |Varint(n)|
      ensures Varint(n)[i] == n / Pow128(i) % 128 + if i < |Varint(n)| - 1 then 128 else 0
    {
      VarintDigit(n, i);
    }
  }

  lemma MoreThanPower(n: nat, k: nat)
    requires k > 0 && Pow128(k) > n / 128 && (k == 1 || n / 128 >= Pow128(k - 1)) && n >= 128
    ensures Pow128(k + 1) > n >= Pow128(k)
  {
    assert Pow128(k + 1) == 128 * Pow128(k);
    assert Pow128(k) == 128 * Pow128(k - 1);
    assert n == 128 * (n / 128) + n % 128;
  }

  lemma NextDigit(n: nat, i: nat)
    requires i > 0
    ensures n / Pow128(i) == n / 128 / Pow128(i - 1)
  {
    DivideTwice(n, 128, Pow128(i - 1));
  }

  lemma DivideTwice(n: nat, a: nat, b: nat)
    requires a > 0 && b > 0
    ensures a * b > 0 && n / a / b == n / (a * b)
  {
    var q, r, x := n / a / b, n / a % b, n % a;
    RemainderFits(a, b, r, x);
    Recompose(n, a, b, q, r, x);
    QuotientIs(n, a * b, q, a * r + x);
  }

  lemma RemainderFits(a: nat, b: nat, r: nat, x: nat)
    requires r < b && x < a
    ensures a * b > 0 && a * r + x < a * b
  {
    assert a * (r + 1) <= a * b;
  }

  lemma Recompose(n: nat, a: nat, b: nat, q: nat, r: nat, x: nat)
    requires a > 0 && b > 0 && q == n / a / b && r == n / a % b && x == n % a
    ensures n == a * b * q + (a * r + x)
  {
    var y := n / a;
    assert y == b * q + r;
    assert n == a * y + x;
    assert a * (b * q + r) == a * (b * q) + a * r;
    assert a * (b * q) == a * b * q;
  }

  lemma QuotientIs(n: nat, d: nat, q: nat, r: nat)
    requires n == d * q + r && r < d
    ensures n / d == q
  {
    var k := n / d - q;
    assert n == d * (n / d) + n % d;
    assert d * k == d * (n / d) - d * q;
    NoMultiple(k, d);
  }

  lemma NoMultiple(k: int, d: int)
    requires d > 0 && -d < d * k < d
    ensures k == 0
  {
    assert k >= 1 ==> d * k >= d;
    assert k <= -1 ==> d * k <= -d;
  }

  lemma {:induction false} LittleEndianDigits(n: nat, width: nat, i: nat)
    requires i < width
    ensures LittleEndian(n, width)[i] == n / Capacity(i) % 256
    decreases width
  {
    if i > 0 {
      LittleEndianDigits(n / 256, width - 1, i - 1);
      DivideTwice(n, 256, Capacity(i - 1));
    }
  }

  lemma {:induction false} BigEndianDigits(n: nat, width: nat, i: nat)
    requires i < width
    ensures BigEndian(n, width)[i] == n / Capacity(width - 1 - i) % 256
    decreases width
  {
    if i < width - 1 {
      BigEndianDigits(n / 256, width - 1, i);
      DivideTwice(n, 256, Capacity(width - 2 - i));
    }
  }

  // ---- Messages are their fields, one after the other ----

  lemma {:induction false} FieldsAreParts(schema: Schema, m: Message, i: nat, parts: seq<bytes>)
    requires |m.values| == |schema.fields| == |parts| && i <= |parts|
    requires forall j :: i <= j < |parts| ==> FieldBytes(schema.fields[j], m.values[j]) == parts[j]
    ensures FieldsBytes(schema, m, i) == Concat(parts[i..])
    decreases |parts| - i
  {
    hide FieldBytes;
    if i < |parts| {
      FieldsAreParts(schema, m, i + 1, parts);
      assert parts[i..][0] == parts[i] && parts[i..][1..] == parts[i + 1..];
    }
  }

  lemma MessageIsParts(schema: Schema, m: Message, parts: seq<bytes>)
    requires |m.values| == |schema.fields| == |parts|
    requires forall j :: 0 <= j < |parts| ==> FieldBytes(schema.fields[j], m.values[j]) == parts[j]
    ensures MessageBytes(schema, m) == Concat(parts)
  {
    hide FieldBytes;
    FieldsAreParts(schema, m, 0, parts);
    assert parts[0..] == parts;
  }

  lemma OneByteKey(tag: nat, wire: nat)
    requires 8 * tag + wire < 128
    ensures Varint(8 * tag + wire) == [8 * tag + wire]
  {
  }

  lemma NumberIs(tag: nat, kind: Kind, n: nat)
    requires 1 <= tag <= 15 && kind in {UInt64, UInt32, Enum, Bool}
    ensures FieldBytes(Field(tag, kind), Number(n)) == NumberField(8 * tag, n)
  {
    hide Varint;
    OneByteKey(tag, 0);
  }

  lemma FixedIs(tag: nat, kind: Kind, n: nat, width: nat, key: byte)
    requires 1 <= tag <= 15
    requires (kind.Fixed64? && width == 8 && key == 8 * tag + 1) || (kind.Fixed32? && width == 4 && key == 8 * tag + 5)
    ensures FieldBytes(Field(tag, kind), Number(n)) == FixedField(key, n, width)
  {
    hide Varint;
    hide LittleEndian;
    OneByteKey(tag, key - 8 * tag);
  }

  lemma DataIs(tag: nat, kind: Kind, s: bytes, key: byte)
    requires 1 <= tag <= 15 && kind in {Blob, Text} && key == 8 * tag + 2
    ensures FieldBytes(Field(tag, kind), Data(s)) == DataField(key, s)
  {
    hide Varint;
    OneByteKey(tag, 2);
  }

  // ---- Block headers ----

  ghost function BlockHeaderParts(h: BlockImage.Header): (parts: seq<bytes>)
    ensures |parts| == 12
  {
    [ FixedField(0x09, h.routingBucket, 8),
      NumberField(0x10, h.objectId),
      NumberField(0x18, h.blockId),
      NumberField(0x20, h.rawDataSize),
      NumberField(0x28, h.dataSize),
      NumberField(0x30, h.timestampMs),
      DataField(0x3a, h.key),
      NumberField(0x40, h.modelId),
      NumberField(0x48, if h.compress < 0 then h.compress + 0x1_0000_0000_0000_0000 else h.compress),
      NumberField(0x50, if h.inWal then 1 else 0),
      NumberField(0x58, h.version),
      NumberField(0x60, h.walSequence)
    ]
  }

  lemma BlockHeaderField(h: BlockImage.Header, i: nat)
    requires i < 12
    ensures FieldBytes(BlockImage.HEADER_SCHEMA.fields[i], BlockImage.ToMessage(h).values[i]) == BlockHeaderParts(h)[i]
  {
    hide FieldBytes;
    hide NumberField;
    hide FixedField;
    hide DataField;
    if i == 0 {
      FixedIs(1, Fixed64, h.routingBucket, 8, 0x09);
    } else if i == 1 {
      NumberIs(2, UInt32, h.objectId);
    } else if i == 2 {
      NumberIs(3, UInt32, h.blockId);
    } else if i == 3 {
      NumberIs(4, UInt64, h.rawDataSize);
    } else if i == 4 {
      NumberIs(5, UInt64, h.dataSize);
    } else if i == 5 {
      NumberIs(6, UInt64, h.timestampMs);
    } else if i == 6 {
      DataIs(7, Blob, h.key, 0x3a);
    } else if i == 7 {
      NumberIs(8, UInt32, h.modelId);
    } else if i == 8 {
      CompressIs(h.compress);
    } else if i == 9 {
      NumberIs(10, Bool, if h.inWal then 1 else 0);
    } else if i == 10 {
      NumberIs(11, UInt64, h.version);
    } else {
      NumberIs(12, UInt64, h.walSequence);
    }
  }

  lemma CompressIs(n: i32)
    ensures FieldBytes(Field(9, Enum), Number(n))
         == NumberField(0x48, if n < 0 then n + 0x1_0000_0000_0000_0000 else n)
  {
    hide Varint;
    OneByteKey(9, 0);
  }

  lemma BlockHeaderBytes(h: BlockImage.Header)
    ensures BlockImage.HeaderBytes(h) == Concat(BlockHeaderParts(h))
  {
    hide FieldBytes;
    hide BlockHeaderParts;
    forall j | 0 <= j < 12
      ensures FieldBytes(BlockImage.HEADER_SCHEMA.fields[j], BlockImage.ToMessage(h).values[j]) == BlockHeaderParts(h)[j]
    {
      BlockHeaderField(h, j);
    }
    MessageIsParts(BlockImage.HEADER_SCHEMA, BlockImage.ToMessage(h), BlockHeaderParts(h));
  }

  lemma HeaderFrom(s: bytes, h: BlockImage.Header)
    requires DecodeMessage(BlockImage.HEADER_SCHEMA, s) == Some(BlockImage.ToMessage(h))
    ensures BlockImage.DecodeHeader(s) == Some(h)
  {
    hide DecodeMessage;
    BlockImage.ToMessageInjective(BlockImage.DecodeHeader(s).value, h);
  }

  lemma MessageOf(s: bytes)
    requires BlockImage.DecodeHeader(s).Some?
    ensures DecodeMessage(BlockImage.HEADER_SCHEMA, s) == Some(BlockImage.ToMessage(BlockImage.DecodeHeader(s).value))
    ensures DistinctTags(BlockImage.HEADER_SCHEMA)
  {
    hide DecodeMessage;
    BlockImage.HeaderSchemaIsSound();
  }

  lemma SetsOne(h: BlockImage.Header, g: BlockImage.Header, i: nat, v: Value)
    requires i < 12 && BlockImage.ToMessage(g).values[i] == v
    requires forall j :: 0 <= j < 12 && j != i ==> BlockImage.ToMessage(g).values[j] == BlockImage.ToMessage(h).values[j]
    ensures Message(BlockImage.ToMessage(h).values[i := v]) == BlockImage.ToMessage(g)
  {
    assert BlockImage.ToMessage(h).values[i := v] == BlockImage.ToMessage(g).values;
  }

  ghost function Updated(h: BlockImage.Header, tag: nat, n: u64): BlockImage.Header {
    var low := n % 0x1_0000_0000;
    match tag
    case 2 => h.(objectId := low)
    case 3 => h.(blockId := low)
    case 4 => h.(rawDataSize := n)
    case 5 => h.(dataSize := n)
    case 6 => h.(timestampMs := n)
    case 8 => h.(modelId := low)
    case 9 => h.(compress := if low < 0x8000_0000 then low else low - 0x1_0000_0000)
    case 10 => h.(inWal := n != 0)
    case 11 => h.(version := n)
    case _ => h.(walSequence := n)
  }

  lemma UpdatedSets(h: BlockImage.Header, tag: nat, n: u64)
    requires 2 <= tag <= 12 && tag != 7
    ensures var v := BlockImage.HeaderValue(Updated(h, tag, n), tag);
      Message(BlockImage.ToMessage(h).values[tag - 1 := v]) == BlockImage.ToMessage(Updated(h, tag, n))
  {
    SetsOne(h, Updated(h, tag, n), tag - 1, BlockImage.HeaderValue(Updated(h, tag, n), tag));
  }

  lemma NumberSets(s: bytes, tag: nat, n: u64)
    requires BlockImage.DecodeHeader(s).Some? && 2 <= tag <= 12 && tag != 7
    ensures BlockImage.DecodeHeader(s + ([8 * tag] + Varint(n))) == Some(Updated(BlockImage.DecodeHeader(s).value, tag, n))
  {
    hide DecodeMessage;
    hide BlockImage.DecodeHeader;
    hide BlockImage.ToMessage;
    hide Varint;
    var h := BlockImage.DecodeHeader(s).value;
    MessageOf(s);
    OneByteKey(tag, 0);
    UpdatedSets(h, tag, n);
    VarintFieldSets(BlockImage.HEADER_SCHEMA, s, tag - 1, n);
    HeaderFrom(s + ([8 * tag] + Varint(n)), Updated(h, tag, n));
  }

  /** A field after any header that decodes sets that field and no other; numbers are cut to the field's width. */
  lemma BlockHeaderNumbers(s: bytes, n: u64)
    requires BlockImage.DecodeHeader(s).Some?
    ensures var h, low := BlockImage.DecodeHeader(s).value, n % 0x1_0000_0000;
      && BlockImage.DecodeHeader(s + ([0x10] + Varint(n))) == Some(h.(objectId := low))
      && BlockImage.DecodeHeader(s + ([0x18] + Varint(n))) == Some(h.(blockId := low))
      && BlockImage.DecodeHeader(s + ([0x20] + Varint(n))) == Some(h.(rawDataSize := n))
      && BlockImage.DecodeHeader(s + ([0x28] + Varint(n))) == Some(h.(dataSize := n))
      && BlockImage.DecodeHeader(s + ([0x30] + Varint(n))) == Some(h.(timestampMs := n))
      && BlockImage.DecodeHeader(s + ([0x40] + Varint(n))) == Some(h.(modelId := low))
      && BlockImage.DecodeHeader(s + ([0x48] + Varint(n)))
         == Some(h.(compress := if low < 0x8000_0000 then low else low - 0x1_0000_0000))
      && BlockImage.DecodeHeader(s + ([0x50] + Varint(n))) == Some(h.(inWal := n != 0))
      && BlockImage.DecodeHeader(s + ([0x58] + Varint(n))) == Some(h.(version := n))
      && BlockImage.DecodeHeader(s + ([0x60] + Varint(n))) == Some(h.(walSequence := n))
  {
    hide BlockImage.DecodeHeader;
    hide Varint;
    NumberSets(s, 2, n);
    NumberSets(s, 3, n);
    NumberSets(s, 4, n);
    NumberSets(s, 5, n);
    NumberSets(s, 6, n);
    NumberSets(s, 8, n);
    NumberSets(s, 9, n);
    NumberSets(s, 10, n);
    NumberSets(s, 11, n);
    NumberSets(s, 12, n);
  }

  lemma BlockHeaderBucketAndKey(s: bytes, n: u64, key: bytes)
    requires BlockImage.DecodeHeader(s).Some? && |key| < U64_LIMIT
    ensures var h := BlockImage.DecodeHeader(s).value;
      && BlockImage.DecodeHeader(s + ([0x09] + LittleEndian(n, 8))) == Some(h.(routingBucket := n))
      && BlockImage.DecodeHeader(s + ([0x3a] + (Varint(|key|) + key))) == Some(h.(key := key))
  {
    hide BlockImage.DecodeHeader;
    hide DecodeMessage;
    hide Varint;
    hide LittleEndian;
    var h := BlockImage.DecodeHeader(s).value;
    MessageOf(s);
    Capacities();
    SetsOne(h, h.(routingBucket := n), 0, Number(n));
    SetsOne(h, h.(key := key), 6, Data(key));
    hide BlockImage.ToMessage;
    OneByteKey(1, 1);
    OneByteKey(7, 2);
    FixedFieldSets(BlockImage.HEADER_SCHEMA, s, 0, n, 8);
    DataFieldSets(BlockImage.HEADER_SCHEMA, s, 6, key);
    HeaderFrom(s + ([0x09] + LittleEndian(n, 8)), h.(routingBucket := n));
    HeaderFrom(s + ([0x3a] + (Varint(|key|) + key)), h.(key := key));
  }

  // ---- Block footers ----

  ghost function FooterParts(f: BlockFooter): (parts: seq<bytes>)
    ensures |parts| == 11
  {
    [ FixedField(0x09, f.magic, 8),
      NumberField(0x10, f.version),
      NumberField(0x18, f.timestampMs),
      FixedField(0x25, f.blockCrc, 4),
      NumberField(0x28, f.blockNumber),
      NumberField(0x30, f.blockEnd),
      NumberField(0x38, f.lastRecordOffset),
      NumberField(0x40, f.lastRecordLeftSize),
      NumberField(0x48, f.lastRecordSequence),
      DataField(0x52, f.clientToken),
      NumberField(0x60, f.truncatedOffset)
    ]
  }

  lemma FooterField(f: BlockFooter, i: nat)
    requires i < 11
    ensures FieldBytes(FOOTER_SCHEMA.fields[i], FooterToMessage(f).values[i]) == FooterParts(f)[i]
  {
    hide FieldBytes;
    hide NumberField;
    hide FixedField;
    hide DataField;
    if i == 0 {
      FixedIs(1, Fixed64, f.magic, 8, 0x09);
    } else if i == 1 {
      NumberIs(2, UInt32, f.version);
    } else if i == 2 {
      NumberIs(3, UInt64, f.timestampMs);
    } else if i == 3 {
      FixedIs(4, Fixed32, f.blockCrc, 4, 0x25);
    } else if i == 4 {
      NumberIs(5, UInt64, f.blockNumber);
    } else if i == 5 {
      NumberIs(6, UInt32, f.blockEnd);
    } else if i == 6 {
      NumberIs(7, UInt64, f.lastRecordOffset);
    } else if i == 7 {
      NumberIs(8, UInt32, f.lastRecordLeftSize);
    } else if i == 8 {
      NumberIs(9, UInt64, f.lastRecordSequence);
    } else if i == 9 {
      DataIs(10, Blob, f.clientToken, 0x52);
    } else {
      NumberIs(12, UInt64, f.truncatedOffset);
    }
  }

  lemma FooterIsParts(f: BlockFooter)
    ensures FooterProto(f) == Concat(FooterParts(f))
  {
    hide FieldBytes;
    hide FooterParts;
    forall j | 0 <= j < 11
      ensures FieldBytes(FOOTER_SCHEMA.fields[j], FooterToMessage(f).values[j]) == FooterParts(f)[j]
    {
      FooterField(f, j);
    }
    MessageIsParts(FOOTER_SCHEMA, FooterToMessage(f), FooterParts(f));
  }

  // ---- Blob headers ----

  ghost function InfoParts(b: BlobInfo): (parts: seq<bytes>)
    ensures |parts| == 8
  {
    [ NumberField(0x08, b.blobId),
      NumberField(0x10, b.startOffset),
      NumberField(0x18, b.blobStartOffset),
      NumberField(0x20, b.blobEndOffset),
      NumberField(0x28, b.endRecordSequence),
      NumberField(0x30, b.freezeMs),
      NumberField(0x38, b.endOffset),
      NumberField(0x40, b.truncatedOffset)
    ]
  }

  lemma InfoField(b: BlobInfo, i: nat)
    requires i < 8
    ensures FieldBytes(INFO_SCHEMA.fields[i], InfoToMessage(b).values[i]) == InfoParts(b)[i]
  {
    hide FieldBytes;
    hide NumberField;
    NumberIs(i + 1, UInt64, InfoToMessage(b).values[i].n);
  }

  lemma InfoIsParts(b: BlobInfo)
    ensures MessageBytes(INFO_SCHEMA, InfoToMessage(b)) == Concat(InfoParts(b))
  {
    hide FieldBytes;
    hide InfoParts;
    forall j | 0 <= j < 8
      ensures FieldBytes(INFO_SCHEMA.fields[j], InfoToMessage(b).values[j]) == InfoParts(b)[j]
    {
      InfoField(b, j);
    }
    MessageIsParts(INFO_SCHEMA, InfoToMessage(b), InfoParts(b));
  }

  ghost function InfoRows(infos: seq<BlobInfo>): (rows: seq<bytes>)
    ensures |rows| == |infos|
  {
    seq(|infos|, i requires 0 <= i < |infos| => Concat(InfoParts(infos[i])))
  }

  lemma {:induction false} RowsFrom(tag: nat, infos: seq<BlobInfo>, k: nat)
    requires 1 <= tag <= 15 && k <= |infos|
    ensures RowsBytes(Field(tag, Repeated(INFO_SCHEMA)), Rows(InfosToRows(infos)), k)
         == ListField(8 * tag + 2, InfoRows(infos)[k..])
    decreases |infos| - k
  {
    hide Varint;
    hide MessageBytes;
    hide InfoParts;
    if k < |infos| {
      RowsFrom(tag, infos, k + 1);
      InfoIsParts(infos[k]);
      OneByteKey(tag, 2);
      var rows := InfoRows(infos)[k..];
      assert rows[0] == Concat(InfoParts(infos[k])) && rows[1..] == InfoRows(infos)[k + 1..];
    }
  }

  lemma ListIs(tag: nat, infos: seq<BlobInfo>)
    requires 1 <= tag <= 15
    ensures FieldBytes(Field(tag, Repeated(INFO_SCHEMA)), Rows(InfosToRows(infos))) == ListField(8 * tag + 2, InfoRows(infos))
  {
    hide InfoParts;
    RowsFrom(tag, infos, 0);
    assert InfoRows(infos)[0..] == InfoRows(infos);
  }

  ghost function BlobHeaderParts(h: BlobHeader): (parts: seq<bytes>)
    ensures |parts| == 13
  {
    [ FixedField(0x09, h.magic, 8),
      NumberField(0x10, h.blobId),
      DataField(0x1a, h.blobName),
      NumberField(0x20, h.timestampMs),
      NumberField(0x28, h.version),
      NumberField(0x30, h.startRecordSequence),
      DataField(0x3a, h.clientToken),
      ListField(0x42, InfoRows(h.dataBlobs)),
      NumberField(0x48, h.startOffset),
      NumberField(0x50, h.prevBlockCrc),
      NumberField(0x58, h.truncatedOffset),
      FixedField(0x65, h.headerSize, 4),
      ListField(0x6a, InfoRows(h.obsoleteBlobs))
    ]
  }

  lemma BlobHeaderField(h: BlobHeader, i: nat)
    requires i < 13
    ensures FieldBytes(BLOB_SCHEMA.fields[i], BlobToMessage(h).values[i]) == BlobHeaderParts(h)[i]
  {
    hide FieldBytes;
    hide NumberField;
    hide FixedField;
    hide DataField;
    hide ListField;
    hide InfoRows;
    if i == 0 {
      FixedIs(1, Fixed64, h.magic, 8, 0x09);
    } else if i == 1 {
      NumberIs(2, UInt64, h.blobId);
    } else if i == 2 {
      DataIs(3, Blob, h.blobName, 0x1a);
    } else if i == 3 {
      NumberIs(4, UInt64, h.timestampMs);
    } else if i == 4 {
      NumberIs(5, UInt32, h.version);
    } else if i == 5 {
      NumberIs(6, UInt64, h.startRecordSequence);
    } else if i == 6 {
      DataIs(7, Blob, h.clientToken, 0x3a);
    } else if i == 7 {
      ListIs(8, h.dataBlobs);
    } else if i == 8 {
      NumberIs(9, UInt64, h.startOffset);
    } else if i == 9 {
      NumberIs(10, UInt32, h.prevBlockCrc);
    } else if i == 10 {
      NumberIs(11, UInt64, h.truncatedOffset);
    } else if i == 11 {
      FixedIs(12, Fixed32, h.headerSize, 4, 0x65);
    } else {
      ListIs(13, h.obsoleteBlobs);
    }
  }

  lemma BlobHeaderIsParts(h: BlobHeader)
    ensures BlobProto(h) == Concat(BlobHeaderParts(h))
  {
    hide FieldBytes;
    hide BlobHeaderParts;
    forall j | 0 <= j < 13
      ensures FieldBytes(BLOB_SCHEMA.fields[j], BlobToMessage(h).values[j]) == BlobHeaderParts(h)[j]
    {
      BlobHeaderField(h, j);
    }
    MessageIsParts(BLOB_SCHEMA, BlobToMessage(h), BlobHeaderParts(h));
  }

  // ---- Log frames ----

  ghost function FrameParts(f: FrameReport.Frame): (parts: seq<bytes>)
    ensures |parts| == 9
  {
    [ NumberField(0x08, f.shardId),
      NumberField(0x10, f.walIndex),
      DataField(0x1a, f.payload),
      NumberField(0x20, f.byteSize),
      DataField(0x2a, f.sha256),
      NumberField(0x30, f.encoding),
      DataField(0x4a, f.digest),
      NumberField(0x50, f.format),
      FixedField(0x5d, f.crc32c, 4)
    ]
  }

  lemma FrameField(f: FrameReport.Frame, i: nat)
    requires i < 9
    ensures FieldBytes(FrameReport.FRAME_SCHEMA.fields[i], FrameReport.FrameToMessage(f).values[i]) == FrameParts(f)[i]
  {
    hide FieldBytes;
    hide NumberField;
    hide FixedField;
    hide DataField;
    if i == 0 {
      NumberIs(1, UInt64, f.shardId);
    } else if i == 1 {
      NumberIs(2, UInt64, f.walIndex);
    } else if i == 2 {
      DataIs(3, Blob, f.payload, 0x1a);
    } else if i == 3 {
      NumberIs(4, UInt64, f.byteSize);
    } else if i == 4 {
      DataIs(5, Text, f.sha256, 0x2a);
    } else if i == 5 {
      NumberIs(6, UInt32, f.encoding);
    } else if i == 6 {
      DataIs(9, Blob, f.digest, 0x4a);
    } else if i == 7 {
      NumberIs(10, UInt32, f.format);
    } else {
      FixedIs(11, Fixed32, f.crc32c, 4, 0x5d);
    }
  }

  lemma FrameIsParts(f: FrameReport.Frame)
    ensures FrameReport.FrameBody(f) == Concat(FrameParts(f))
  {
    hide FieldBytes;
    hide FrameParts;
    forall j | 0 <= j < 9
      ensures FieldBytes(FrameReport.FRAME_SCHEMA.fields[j], FrameReport.FrameToMessage(f).values[j]) == FrameParts(f)[j]
    {
      FrameField(f, j);
    }
    MessageIsParts(FrameReport.FRAME_SCHEMA, FrameReport.FrameToMessage(f), FrameParts(f));
  }
}
