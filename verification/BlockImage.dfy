/**
 One stored block: a two-byte header size, the header message, and the data, either plain or as one
 raw LZ4 block. Writing is always uncompressed; reading handles both.
 */
module BlockImage {
  import opened Bytes
  import opened Protobuf
  import Lz4

  const UNCOMPRESSED: i32 := 0
  const LZ4: i32 := 1

  datatype Header = Header(
    routingBucket: u64,
    objectId: u32,
    blockId: u32,
    rawDataSize: u64,
    dataSize: u64,
    timestampMs: u64,
    key: bytes,
    modelId: u32,
    compress: i32,
    inWal: bool,
    version: u64,
    walSequence: u64)

  datatype Image = Image(header: Header, data: bytes)

  datatype Error =
    | InWal
    | HeaderTooLong(size: nat)
    | NoSizePrefix
    | ShortHeader
    | BadHeader
    | StoredSizeDiffers(stored: nat, stated: nat)
    | SizesDiffer
    | BadLz4(error: Lz4.Error)
    | UnknownCompression(compress: i32)
    | ReservationPanic // no error value: the decoder panics before it reads the block

  // ---- The header message ----

  function HeaderKind(tag: nat): (k: Kind)
    ensures !k.Repeated?
  {
    match tag
    case 1 => Fixed64
    case 2 | 3 | 8 => UInt32
    case 7 => Blob
    case 9 => Enum
    case 10 => Bool
    case _ => UInt64
  }

  function HeaderTag(i: nat): nat {
    if i < 12 then i + 1 else 1
  }

  const HEADER_SCHEMA: Schema := Tagged(12, HeaderTag, HeaderKind)

  lemma HeaderSchemaIsSound()
    ensures DistinctTagsWithin(HEADER_SCHEMA) && Nesting(HEADER_SCHEMA) <= 1
  {
    TaggedIsSound(12, HeaderTag, HeaderKind, 0);
  }

  function HeaderValue(h: Header, tag: nat): Value {
    match tag
    case 1 => Number(h.routingBucket)
    case 2 => Number(h.objectId)
    case 3 => Number(h.blockId)
    case 4 => Number(h.rawDataSize)
    case 5 => Number(h.dataSize)
    case 6 => Number(h.timestampMs)
    case 7 => Data(h.key)
    case 8 => Number(h.modelId)
    case 9 => Number(h.compress)
    case 10 => Number(if h.inWal then 1 else 0)
    case 11 => Number(h.version)
    case _ => Number(h.walSequence)
  }

  function ToMessage(h: Header): (m: Message)
    ensures |m.values| == 12
  {
    Message(seq(12, i requires 0 <= i < 12 => HeaderValue(h, i + 1)))
  }

  lemma HeaderIsTyped(h: Header)
    ensures Typed(HEADER_SCHEMA, ToMessage(h))
  {
    HeaderSchemaIsSound();
    forall i | 0 <= i < 12
      ensures TypedValue(HEADER_SCHEMA.fields[i].kind, ToMessage(h).values[i])
    {
    }
  }

  function FromMessage(m: Message): (h: Header)
    requires Typed(HEADER_SCHEMA, m) && |m.values| == 12
    ensures ToMessage(h) == m
  {
    var v := m.values;
    assert forall i :: 0 <= i < 12 ==> TypedValue(HeaderKind(i + 1), v[i]);
    var h := Header(v[0].n, v[1].n, v[2].n, v[3].n, v[4].n, v[5].n, v[6].s, v[7].n, v[8].n, v[9].n == 1, v[10].n, v[11].n);
    assert ToMessage(h).values == v;
    h
  }

  function HeaderBytes(h: Header): bytes {
    MessageBytes(HEADER_SCHEMA, ToMessage(h))
  }

  function DecodeHeader(s: bytes): Option<Header> {
    match DecodeMessage(HEADER_SCHEMA, s)
    case None => None
    case Some(m) =>
      HeaderSchemaIsSound();
      DecodedIsTyped(HEADER_SCHEMA, s);
      Some(FromMessage(m))
  }

  lemma ToMessageInjective(g: Header, h: Header)
    requires ToMessage(g) == ToMessage(h)
    ensures g == h
  {
    assert forall tag :: 1 <= tag <= 12 ==> ToMessage(g).values[tag - 1] == HeaderValue(g, tag);
    assert forall tag :: 1 <= tag <= 12 ==> ToMessage(h).values[tag - 1] == HeaderValue(h, tag);
    assert forall tag {:trigger HeaderValue(g, tag)} :: 1 <= tag <= 12 ==> HeaderValue(g, tag) == HeaderValue(h, tag);
    assert HeaderValue(g, 1) == HeaderValue(h, 1) && HeaderValue(g, 2) == HeaderValue(h, 2);
    assert HeaderValue(g, 3) == HeaderValue(h, 3) && HeaderValue(g, 4) == HeaderValue(h, 4);
    assert HeaderValue(g, 5) == HeaderValue(h, 5) && HeaderValue(g, 6) == HeaderValue(h, 6);
    assert HeaderValue(g, 7) == HeaderValue(h, 7) && HeaderValue(g, 8) == HeaderValue(h, 8);
    assert HeaderValue(g, 9) == HeaderValue(h, 9) && HeaderValue(g, 10) == HeaderValue(h, 10);
    assert HeaderValue(g, 11) == HeaderValue(h, 11) && HeaderValue(g, 12) == HeaderValue(h, 12);
  }

  lemma HeaderRoundTrip(h: Header)
    requires |HeaderBytes(h)| < U64_LIMIT
    ensures DecodeHeader(HeaderBytes(h)) == Some(h)
  {
    HeaderSchemaIsSound();
    HeaderIsTyped(h);
    MessageRoundTrip(HEADER_SCHEMA, ToMessage(h));
    DecodedIsTyped(HEADER_SCHEMA, HeaderBytes(h));
    ToMessageInjective(FromMessage(ToMessage(h)), h);
  }

  // ---- Encoding and decoding a block ----

  /** The header as the encoder writes it: its own sizes and compression, not the caller's. */
  function Stamped(h: Header, size: u64): Header {
    h.(rawDataSize := size, dataSize := size, compress := UNCOMPRESSED)
  }

  function EncodeImage(header: Header, data: slice): Result<bytes, Error> {
    if header.inWal then Err(InWal)
    else
      var proto := HeaderBytes(Stamped(header, |data|));
      if |proto| >= U16_LIMIT then Err(HeaderTooLong(|proto|))
      else Ok(LittleEndian(|proto|, 2) + proto + data)
  }

  /** The header of a payload and the bytes stored after it. */
  function Split(payload: bytes): Result<(Header, bytes), Error> {
    if |payload| < 2 then Err(NoSizePrefix)
    else
      var headerSize := Le16(payload[0], payload[1]);
      if 2 + headerSize > |payload| then Err(ShortHeader)
      else
        match DecodeHeader(payload[2..2 + headerSize])
        case None => Err(BadHeader)
        case Some(header) => Ok((header, payload[2 + headerSize..]))
  }

  function Unpack(header: Header, stored: bytes): Result<bytes, Error> {
    if |stored| != header.dataSize then Err(StoredSizeDiffers(|stored|, header.dataSize))
    else if header.compress == UNCOMPRESSED then
      if header.rawDataSize != header.dataSize then Err(SizesDiffer) else Ok(stored)
    else if header.compress == LZ4 then
      if header.rawDataSize >= SLICE_LIMIT then Err(ReservationPanic)
      else
        match Lz4.Decode(stored, [], Lz4.Stated(header.rawDataSize))
        case Decoded(out) => Ok(out)
        case Rejected(e) => Err(BadLz4(e))
    else Err(UnknownCompression(header.compress))
  }

  function DecodeImage(payload: bytes): Result<Image, Error> {
    match Split(payload)
    case Err(e) => Err(e)
    case Ok((header, stored)) =>
      match Unpack(header, stored)
      case Err(e) => Err(e)
      case Ok(data) => Ok(Image(header, data))
  }

  method EncodeBlockImage(header: Header, data: slice) returns (r: Result<bytes, Error>)
    ensures r == EncodeImage(header, data)
    ensures var h := header.(rawDataSize := |data|, dataSize := |data|, compress := 0);
      && (r.Ok? <==> !header.inWal && |HeaderBytes(h)| <= 65535)
      && (r.Ok? ==> r.value == LittleEndian(|HeaderBytes(h)|, 2) + HeaderBytes(h) + data)
      && (r.Ok? ==> DecodeImage(r.value) == Ok(Image(h, data)))
      && (r.Err? ==> r.error == if header.inWal then InWal else HeaderTooLong(|HeaderBytes(h)|))
  {
    if header.inWal {
      return Err(InWal);
    }
    var stamped := header;
    stamped := stamped.(rawDataSize := |data|);
    stamped := stamped.(dataSize := |data|);
    stamped := stamped.(compress := UNCOMPRESSED);
    var proto := HeaderBytes(stamped);
    if |proto| >= U16_LIMIT {
      return Err(HeaderTooLong(|proto|));
    }
    var out: bytes := [];
    out := out + LittleEndian(|proto|, 2);
    out := out + proto;
    out := out + data;
    assert out == LittleEndian(|proto|, 2) + proto + data;
    r := Ok(out);
    ImageRoundTrip(header, data);
  }

  method DecodeBlockImage(payload: bytes) returns (r: Result<Image, Error>)
    ensures r == DecodeImage(payload)
    ensures r.Ok? ==> |r.value.data| == r.value.header.rawDataSize
  {
    match Split(payload)
    case Err(e) => r := Err(e);
    case Ok((header, stored)) =>
      if |stored| == header.dataSize && header.compress == LZ4 {
        var call, _ := Lz4.Decompress(stored, header.rawDataSize);
        match call
        case Panicked => r := Err(ReservationPanic);
        case Returned(Decoded(out)) => r := Ok(Image(header, out));
        case Returned(Rejected(e)) => r := Err(BadLz4(e));
      } else {
        var unpacked := Unpack(header, stored);
        r := if unpacked.Ok? then Ok(Image(header, unpacked.value)) else Err(unpacked.error);
      }
  }

  // ---- What is written reads back ----

  lemma SplitsPayload(header: Header, stored: bytes)
    requires |HeaderBytes(header)| < U16_LIMIT
    ensures var proto := HeaderBytes(header);
      Split(LittleEndian(|proto|, 2) + proto + stored) == Ok((header, stored))
  {
    var proto := HeaderBytes(header);
    var payload := LittleEndian(|proto|, 2) + proto + stored;
    Associative(LittleEndian(|proto|, 2), proto, stored);
    Lz4.OffsetBytes(|proto|, proto + stored);
    assert payload[2..2 + |proto|] == proto && payload[2 + |proto|..] == stored;
    HeaderRoundTrip(header);
  }

  lemma ImageRoundTrip(header: Header, data: slice)
    requires EncodeImage(header, data).Ok?
    ensures DecodeImage(EncodeImage(header, data).value)
         == Ok(Image(header.(rawDataSize := |data|, dataSize := |data|, compress := 0), data))
  {
    SplitsPayload(Stamped(header, |data|), data);
  }

  /** A size of two bytes, a header message of that size, and what is stored: read for any message and any store. */
  lemma PayloadReads(message: bytes, stored: bytes)
    requires |message| < U16_LIMIT
    ensures DecodeImage(LittleEndian(|message|, 2) + message + stored) ==
      match DecodeHeader(message)
      case None => Err(BadHeader)
      case Some(h) =>
        if |stored| != h.dataSize then Err(StoredSizeDiffers(|stored|, h.dataSize))
        else if h.compress == 0 then if h.rawDataSize == |stored| then Ok(Image(h, stored)) else Err(SizesDiffer)
        else if h.compress == 1 then
          if h.rawDataSize >= 0x8000_0000_0000_0000 then Err(ReservationPanic)
          else
            match Lz4.Decode(stored, [], Lz4.Stated(h.rawDataSize))
            case Decoded(out) => Ok(Image(h, out))
            case Rejected(e) => Err(BadLz4(e))
        else Err(UnknownCompression(h.compress))
  {
    hide DecodeHeader;
    hide Lz4.Decode;
    var payload := LittleEndian(|message|, 2) + message + stored;
    Associative(LittleEndian(|message|, 2), message, stored);
    Lz4.OffsetBytes(|message|, message + stored);
    assert payload[2..2 + |message|] == message && payload[2 + |message|..] == stored;
  }

  /** Fewer bytes than the size, or than the size says. */
  lemma ShortPayloadRefused(payload: bytes)
    ensures |payload| < 2 ==> DecodeImage(payload) == Err(NoSizePrefix)
    ensures |payload| >= 2 && 2 + payload[0] + 256 * payload[1] > |payload| ==> DecodeImage(payload) == Err(ShortHeader)
  {
    hide DecodeHeader;
  }

  /** Equal payloads mean equal data and headers equal but for the three fields the encoder sets. */
  lemma EncodeInjective(g: Header, d: slice, h: Header, e: slice)
    requires EncodeImage(g, d).Ok? && EncodeImage(h, e).Ok?
    ensures EncodeImage(g, d) == EncodeImage(h, e)
       <==> d == e && g == h.(rawDataSize := g.rawDataSize, dataSize := g.dataSize, compress := g.compress)
  {
    ImageRoundTrip(g, d);
    ImageRoundTrip(h, e);
  }

  lemma AcceptedSizes(payload: bytes)
    requires DecodeImage(payload).Ok?
    ensures |payload| >= 2
    ensures var image := DecodeImage(payload).value;
      && |payload| == 2 + Le16(payload[0], payload[1]) + image.header.dataSize
      && |image.data| == image.header.rawDataSize
  {
    var image := DecodeImage(payload).value;
    var headerSize := Le16(payload[0], payload[1]);
    var stored := payload[2 + headerSize..];
    if image.header.compress == LZ4 {
      Lz4.BudgetOnlyRejects(stored, [], image.header.rawDataSize, image.data);
    }
  }

  /** Reading a block and writing it again keeps the block; only its storage form may change. */
  lemma RewriteKeepsBlock(payload: bytes)
    requires DecodeImage(payload).Ok?
    ensures var image := DecodeImage(payload).value;
      |image.data| < SLICE_LIMIT && EncodeImage(image.header, image.data).Ok? ==>
        DecodeImage(EncodeImage(image.header, image.data).value)
        == Ok(Image(image.header.(dataSize := image.header.rawDataSize, compress := 0), image.data))
  {
    AcceptedSizes(payload);
    var image := DecodeImage(payload).value;
    if |image.data| < SLICE_LIMIT && EncodeImage(image.header, image.data).Ok? {
      ImageRoundTrip(image.header, image.data);
    }
  }

  // ---- Blocks stored compressed ----

  ghost predicate DescribesBlock(header: Header, b: Lz4.Block)
    requires Lz4.WellFormed(b)
  {
    && header.compress == 1
    && header.dataSize == |Lz4.Serialise(b)|
    && header.rawDataSize == |Lz4.Meaning(b)|
  }

  /**
   A payload whose header, however encoded, is marked LZ4 reads exactly when the header describes a
   well-formed block of a size that can be reserved, and then to the meaning of that block.
   */
  lemma CompressedImageReads(payload: bytes, header: Header, stored: bytes)
    requires Split(payload) == Ok((header, stored)) && header.compress == 1
    ensures var r := DecodeImage(payload);
      && (r.Ok? <==>
        && header.rawDataSize < SLICE_LIMIT
        && exists b: Lz4.Block :: Lz4.WellFormed(b) && Lz4.Serialise(b) == stored && DescribesBlock(header, b))
      && (forall b: Lz4.Block :: Lz4.WellFormed(b) && Lz4.Serialise(b) == stored && DescribesBlock(header, b) ==>
        r == if header.rawDataSize < SLICE_LIMIT then Ok(Image(header, Lz4.Meaning(b))) else Err(ReservationPanic))
  {
    Lz4.AcceptsExactlyBlocks(stored, header.rawDataSize);
  }

  /** Decoding panics exactly for an LZ4 block, stored at its stated size, that claims 2^63 bytes or more. */
  lemma DecodePanics(payload: bytes)
    ensures DecodeImage(payload) == Err(ReservationPanic) <==> Split(payload).Ok? && Unreservable(Split(payload).value)
  {
    hide Lz4.Decode;
    hide DecodeHeader;
  }

  predicate Unreservable(parts: (Header, bytes)) {
    parts.0.compress == 1 && |parts.1| == parts.0.dataSize && parts.0.rawDataSize >= 0x8000_0000_0000_0000
  }

  /** Such a payload: a header of a few bytes and no data at all. */
  lemma PanicOccurs() returns (payload: bytes)
    ensures DecodeImage(payload) == Err(ReservationPanic) && |payload| < 100
  {
    hide FieldSize;
    hide HeaderBytes;
    var header := BareHeader([]).(rawDataSize := SLICE_LIMIT, compress := LZ4);
    HeaderSize(header);
    EmptyFieldSizes(header);
    TwoFieldSizes(header);
    var proto := HeaderBytes(header);
    payload := LittleEndian(|proto|, 2) + proto + [];
    SplitsPayload(header, []);
  }

  lemma EmptyFieldSizes(h: Header)
    requires h == BareHeader([]).(rawDataSize := SLICE_LIMIT, compress := LZ4)
    ensures FieldSize(h, 1) == 0 && FieldSize(h, 2) == 0 && FieldSize(h, 3) == 0 && FieldSize(h, 5) == 0
    ensures FieldSize(h, 6) == 0 && FieldSize(h, 7) == 0 && FieldSize(h, 8) == 0 && FieldSize(h, 10) == 0
    ensures FieldSize(h, 11) == 0 && FieldSize(h, 12) == 0
  {
  }

  lemma TwoFieldSizes(h: Header)
    requires h.rawDataSize == SLICE_LIMIT && h.compress == LZ4
    ensures FieldSize(h, 4) <= 11 && FieldSize(h, 9) <= 11
  {
    Pow128Values();
    VarintFieldSize(Field(4, UInt64), SLICE_LIMIT, 10);
    KeyIsOneByte(Field(9, Enum));
  }

  // ---- How long a key may be ----

  /** The bytes the field with a given tag takes in a header. */
  function FieldSize(h: Header, tag: nat): nat {
    |FieldBytes(Field(tag, HeaderKind(tag)), HeaderValue(h, tag))|
  }

  function SizeFrom(h: Header, tag: nat): nat
    requires 1 <= tag <= 13
    decreases 13 - tag
  {
    if tag == 13 then 0 else FieldSize(h, tag) + SizeFrom(h, tag + 1)
  }

  lemma {:induction false} HeaderSizeFrom(h: Header, tag: nat)
    requires 1 <= tag <= 13
    ensures |FieldsBytes(HEADER_SCHEMA, ToMessage(h), tag - 1)| == SizeFrom(h, tag)
    decreases 13 - tag
  {
    if tag < 13 {
      HeaderSizeFrom(h, tag + 1);
    }
  }

  lemma HeaderSize(h: Header)
    ensures |HeaderBytes(h)| == FieldSize(h, 1) + FieldSize(h, 2) + FieldSize(h, 3) + FieldSize(h, 4) + FieldSize(h, 5)
      + FieldSize(h, 6) + FieldSize(h, 7) + FieldSize(h, 8) + FieldSize(h, 9) + FieldSize(h, 10) + FieldSize(h, 11)
      + FieldSize(h, 12)
  {
    HeaderSizeFrom(h, 1);
    assert SizeFrom(h, 1) == FieldSize(h, 1) + SizeFrom(h, 2);
    assert SizeFrom(h, 2) == FieldSize(h, 2) + SizeFrom(h, 3);
    assert SizeFrom(h, 3) == FieldSize(h, 3) + SizeFrom(h, 4);
    assert SizeFrom(h, 4) == FieldSize(h, 4) + SizeFrom(h, 5);
    assert SizeFrom(h, 5) == FieldSize(h, 5) + SizeFrom(h, 6);
    assert SizeFrom(h, 6) == FieldSize(h, 6) + SizeFrom(h, 7);
    assert SizeFrom(h, 7) == FieldSize(h, 7) + SizeFrom(h, 8);
    assert SizeFrom(h, 8) == FieldSize(h, 8) + SizeFrom(h, 9);
    assert SizeFrom(h, 9) == FieldSize(h, 9) + SizeFrom(h, 10);
    assert SizeFrom(h, 10) == FieldSize(h, 10) + SizeFrom(h, 11);
    assert SizeFrom(h, 11) == FieldSize(h, 11) + SizeFrom(h, 12);
    assert SizeFrom(h, 12) == FieldSize(h, 12) + SizeFrom(h, 13);
  }

  lemma KeyFieldSize(h: Header)
    ensures 0x4000 <= |h.key| ==> FieldSize(h, 7) >= 4 + |h.key|
    ensures |h.key| < 0x20_0000 ==> FieldSize(h, 7) <= 4 + |h.key|
  {
    KeyIsOneByte(Field(7, Blob));
    Pow128Values();
    if 0x4000 <= |h.key| {
      VarintAtLeast(|h.key|, 2);
    }
    if |h.key| < 0x20_0000 {
      VarintAtMost(|h.key|, 3);
    }
  }

  lemma StampedSizes(h: Header, size: nat)
    requires size < SLICE_LIMIT && !h.inWal
    ensures var s := Stamped(h, size);
      && FieldSize(s, 4) <= 10 && FieldSize(s, 5) <= 10 && FieldSize(s, 9) == 0 && FieldSize(s, 10) == 0
      && (size >= Pow128(8) ==> FieldSize(s, 4) == 10 && FieldSize(s, 5) == 10)
  {
    Pow128Values();
    VarintFieldSize(Field(4, UInt64), size, 9);
    VarintFieldSize(Field(5, UInt64), size, 9);
  }

  lemma CallerSizes(h: Header)
    ensures FieldSize(h, 1) <= 9 && FieldSize(h, 2) <= 6 && FieldSize(h, 3) <= 6 && FieldSize(h, 6) <= 11
    ensures FieldSize(h, 8) <= 6 && FieldSize(h, 11) <= 11 && FieldSize(h, 12) <= 11
  {
    Pow128Values();
    KeyIsOneByte(Field(1, Fixed64));
    VarintFieldSize(Field(2, UInt32), h.objectId, 5);
    VarintFieldSize(Field(3, UInt32), h.blockId, 5);
    VarintFieldSize(Field(6, UInt64), h.timestampMs, 10);
    VarintFieldSize(Field(8, UInt32), h.modelId, 5);
    VarintFieldSize(Field(11, UInt64), h.version, 10);
    VarintFieldSize(Field(12, UInt64), h.walSequence, 10);
  }

  /** A header as wide as its fields allow, for a key. */
  function WideHeader(key: bytes): Header {
    Header(1, 0xFFFF_FFFF, 0xFFFF_FFFF, 0, 0, 0xFFFF_FFFF_FFFF_FFFF, key, 0xFFFF_FFFF, 0, false,
           0xFFFF_FFFF_FFFF_FFFF, 0xFFFF_FFFF_FFFF_FFFF)
  }

  function BareHeader(key: bytes): Header {
    Header(0, 0, 0, 0, 0, 0, key, 0, 0, false, 0, 0)
  }

  lemma WideShortSizes(key: bytes, size: nat)
    requires size < SLICE_LIMIT
    ensures var s := Stamped(WideHeader(key), size);
      FieldSize(s, 1) == 9 && FieldSize(s, 2) == 6 && FieldSize(s, 3) == 6 && FieldSize(s, 8) == 6
  {
    Pow128Values();
    KeyIsOneByte(Field(1, Fixed64));
    VarintFieldSize(Field(2, UInt32), 0xFFFF_FFFF, 5);
    VarintFieldSize(Field(3, UInt32), 0xFFFF_FFFF, 5);
    VarintFieldSize(Field(8, UInt32), 0xFFFF_FFFF, 5);
  }

  lemma WideLongSizes(key: bytes, size: nat)
    requires size < SLICE_LIMIT
    ensures var s := Stamped(WideHeader(key), size);
      FieldSize(s, 6) == 11 && FieldSize(s, 11) == 11 && FieldSize(s, 12) == 11
  {
    Pow128Values();
    assert Pow128(9) <= 0xFFFF_FFFF_FFFF_FFFF;
    VarintFieldSize(Field(6, UInt64), 0xFFFF_FFFF_FFFF_FFFF, 10);
    VarintFieldSize(Field(11, UInt64), 0xFFFF_FFFF_FFFF_FFFF, 10);
    VarintFieldSize(Field(12, UInt64), 0xFFFF_FFFF_FFFF_FFFF, 10);
  }

  const ALWAYS_FITS: nat := 65451
  const EVER_FITS: nat := 65531

  lemma ShortKeyFits(h: Header, data: slice)
    requires !h.inWal && |h.key| <= ALWAYS_FITS
    ensures EncodeImage(h, data).Ok?
  {
    var s := Stamped(h, |data|);
    HeaderSize(s);
    KeyFieldSize(s);
    StampedSizes(h, |data|);
    CallerSizes(s);
  }

  lemma LongKeyFails(h: Header, data: slice)
    requires |h.key| > EVER_FITS
    ensures EncodeImage(h, data).Err?
  {
    var s := Stamped(h, |data|);
    HeaderSize(s);
    KeyFieldSize(s);
  }

  lemma WideHeaderFails(key: bytes, data: slice)
    requires |key| > ALWAYS_FITS && |data| == 0x100_0000_0000_0000
    ensures EncodeImage(WideHeader(key), data).Err?
  {
    hide FieldSize;
    hide HeaderBytes;
    var s := Stamped(WideHeader(key), |data|);
    HeaderSize(s);
    KeyFieldSize(s);
    Pow128Values();
    StampedSizes(WideHeader(key), |data|);
    WideShortSizes(key, |data|);
    WideLongSizes(key, |data|);
  }

  lemma BareSizes(key: bytes)
    ensures var s := Stamped(BareHeader(key), 0);
      && FieldSize(s, 1) == 0 && FieldSize(s, 2) == 0 && FieldSize(s, 3) == 0 && FieldSize(s, 4) == 0
      && FieldSize(s, 5) == 0 && FieldSize(s, 6) == 0 && FieldSize(s, 8) == 0 && FieldSize(s, 9) == 0
      && FieldSize(s, 10) == 0 && FieldSize(s, 11) == 0 && FieldSize(s, 12) == 0
  {
  }

  lemma BareHeaderFits(key: bytes)
    requires |key| <= EVER_FITS
    ensures EncodeImage(BareHeader(key), []).Ok?
  {
    hide FieldSize;
    hide HeaderBytes;
    HeaderSize(Stamped(BareHeader(key), 0));
    KeyFieldSize(Stamped(BareHeader(key), 0));
    BareSizes(key);
  }

  /** Keys of up to 65451 bytes, and no longer ones, fit whatever the other fields and the data are. */
  lemma KeyAlwaysFits(length: nat)
    ensures (forall h: Header, data: slice :: |h.key| == length && !h.inWal ==> EncodeImage(h, data).Ok?)
       <==> length <= ALWAYS_FITS
  {
    if length <= ALWAYS_FITS {
      forall h: Header, data: slice | |h.key| == length && !h.inWal
        ensures EncodeImage(h, data).Ok?
      {
        ShortKeyFits(h, data);
      }
    } else {
      var h, data := WideHeader(Zeros(length)), Zeros(0x100_0000_0000_0000);
      WideHeaderFails(Zeros(length), data);
      assert |h.key| == length && !h.inWal && !EncodeImage(h, data).Ok?;
    }
  }

  /** Keys of up to 65531 bytes, and no longer ones, fit with some other fields and data. */
  lemma KeyEverFits(length: nat)
    ensures (exists h: Header, data: slice :: |h.key| == length && EncodeImage(h, data).Ok?) <==> length <= EVER_FITS
  {
    if length <= EVER_FITS {
      BareHeaderFits(Zeros(length));
      assert |BareHeader(Zeros(length)).key| == length && EncodeImage(BareHeader(Zeros(length)), []).Ok?;
    } else {
      forall h: Header, data: slice | |h.key| == length
        ensures EncodeImage(h, data).Err?
      {
        LongKeyFails(h, data);
      }
    }
  }
}
