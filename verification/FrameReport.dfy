/**
 Reading log frames back at the offsets they were reported at, without the code that wrote them, and the
 checks on those offsets. SHA-256 is a parameter; CRC32C is the crate's.
 */
module FrameReport {
  import opened Bytes
  import opened Protobuf
  import opened Checksum

  // ---- The frame message ----

  datatype Frame = Frame(
    shardId: u64,
    walIndex: u64,
    payload: bytes,
    byteSize: u64,
    sha256: bytes,
    encoding: u32,
    digest: bytes,
    format: u32,
    crc32c: u32)

  const HEX_DIGEST: u32 := 0
  const RAW_DIGEST: u32 := 2
  const CRC32C: u32 := 3
  const NO_SIZE: u32 := 4

  function FrameTag(i: nat): nat {
    if i < 6 then i + 1 else if i < 9 then i + 3 else 1
  }

  function FrameKind(tag: nat): Kind {
    match tag
    case 3 | 9 => Blob
    case 5 => Text
    case 6 | 10 => UInt32
    case 11 => Fixed32
    case _ => UInt64
  }

  const FRAME_SCHEMA: Schema := Tagged(9, FrameTag, FrameKind)

  lemma FrameSchemaIsSound()
    ensures DistinctTagsWithin(FRAME_SCHEMA) && Nesting(FRAME_SCHEMA) <= 1
  {
    TaggedIsSound(9, FrameTag, FrameKind, 0);
  }

  function FrameValue(f: Frame, tag: nat): Value {
    match tag
    case 1 => Number(f.shardId)
    case 2 => Number(f.walIndex)
    case 3 => Data(f.payload)
    case 4 => Number(f.byteSize)
    case 5 => Data(f.sha256)
    case 6 => Number(f.encoding)
    case 9 => Data(f.digest)
    case 10 => Number(f.format)
    case _ => Number(f.crc32c)
  }

  function FrameToMessage(f: Frame): (m: Message)
    ensures |m.values| == 9
  {
    Message(seq(9, i requires 0 <= i < 9 => FrameValue(f, FrameTag(i))))
  }

  lemma FrameIsTyped(f: Frame)
    requires Utf8(f.sha256)
    ensures Typed(FRAME_SCHEMA, FrameToMessage(f))
  {
    FrameSchemaIsSound();
    forall i | 0 <= i < 9
      ensures TypedValue(FRAME_SCHEMA.fields[i].kind, FrameToMessage(f).values[i])
    {
    }
  }

  function FrameFromMessage(m: Message): (f: Frame)
    requires Typed(FRAME_SCHEMA, m) && |m.values| == 9
    ensures FrameToMessage(f) == m
  {
    var v := m.values;
    assert forall i :: 0 <= i < 9 ==> TypedValue(FrameKind(FrameTag(i)), v[i]);
    var f := Frame(v[0].n, v[1].n, v[2].s, v[3].n, v[4].s, v[5].n, v[6].s, v[7].n, v[8].n);
    assert FrameToMessage(f).values == v;
    f
  }

  lemma FrameToMessageInjective(f: Frame, g: Frame)
    requires FrameToMessage(f) == FrameToMessage(g)
    ensures f == g
  {
    var v, w := FrameToMessage(f).values, FrameToMessage(g).values;
    assert v[0] == w[0] && v[1] == w[1] && v[2] == w[2] && v[3] == w[3] && v[4] == w[4] && v[5] == w[5];
    assert v[6] == w[6] && v[7] == w[7] && v[8] == w[8];
  }

  function FrameBody(f: Frame): bytes {
    MessageBytes(FRAME_SCHEMA, FrameToMessage(f))
  }

  function DecodeFrame(s: bytes): Option<Frame> {
    match DecodeMessage(FRAME_SCHEMA, s)
    case None => None
    case Some(m) =>
      FrameSchemaIsSound();
      DecodedIsTyped(FRAME_SCHEMA, s);
      Some(FrameFromMessage(m))
  }

  lemma FrameRoundTrip(f: Frame)
    requires Utf8(f.sha256) && |FrameBody(f)| < U64_LIMIT
    ensures DecodeFrame(FrameBody(f)) == Some(f)
  {
    FrameSchemaIsSound();
    FrameIsTyped(f);
    MessageRoundTrip(FRAME_SCHEMA, FrameToMessage(f));
    DecodedIsTyped(FRAME_SCHEMA, FrameBody(f));
    FrameToMessageInjective(FrameFromMessage(FrameToMessage(f)), f);
  }

  // ---- Digests in hex ----

  function HexDigit(n: nat): (d: byte)
    requires n < 16
    ensures d == "0123456789abcdef"[n] as int
  {
    if n < 10 then 48 + n else 87 + n
  }

  function HexLower(s: bytes): bytes {
    if s == [] then [] else [HexDigit(s[0] / 16), HexDigit(s[0] % 16)] + HexLower(s[1..])
  }

  lemma {:induction false} HexIsAscii(s: bytes)
    ensures forall b <- HexLower(s) :: b < 0x80
  {
    if s != [] {
      HexIsAscii(s[1..]);
    }
  }

  /** Two digits to a byte, the high one first. */
  lemma {:induction false} HexDigits(s: bytes, i: nat)
    requires i < |s|
    ensures |HexLower(s)| == 2 * |s|
    ensures HexLower(s)[2 * i] as char == "0123456789abcdef"[s[i] / 16]
    ensures HexLower(s)[2 * i + 1] as char == "0123456789abcdef"[s[i] % 16]
  {
    if |s| > 1 {
      HexDigits(s[1..], if i == 0 then 0 else i - 1);
    }
  }

  /** Two byte strings have the same hex only if they are the same. */
  lemma {:induction false} HexInjective(s: bytes, t: bytes)
    requires HexLower(s) == HexLower(t)
    ensures s == t
  {
    if s == [] || t == [] {
      assert s == t;
    } else {
      var x, y := HexLower(s), HexLower(t);
      assert x[0] == y[0] && x[1] == y[1];
      assert x[2..] == HexLower(s[1..]) && y[2..] == HexLower(t[1..]);
      HexInjective(s[1..], t[1..]);
      assert s == [s[0]] + s[1..] && t == [t[0]] + t[1..];
    }
  }

  // ---- Reading a frame at the offsets of its receipt ----

  datatype Receipt = Receipt(startOffset: nat, endOffset: nat)

  type Sha = bytes -> bytes

  function FrameAt(blob: bytes, receipt: Receipt): Option<Frame> {
    var start, end := receipt.startOffset, receipt.endOffset;
    if end > |blob| || start >= end || end - start < 4 then None
    else
      var frame := blob[start..end];
      if BigEndianValue(frame[..4]) + 4 != |frame| then None else DecodeFrame(frame[4..])
  }

  function DigestMatches(f: Frame, sha: Sha): bool {
    var hex := HexLower(sha(f.payload));
    if f.format == HEX_DIGEST then f.sha256 == hex
    else if f.format == RAW_DIGEST then HexLower(f.digest) == hex
    else if f.format == CRC32C || f.format == NO_SIZE then f.crc32c == Crc32c(f.payload)
    else false
  }

  function SizeMatches(f: Frame): bool {
    if f.format == NO_SIZE then f.byteSize == 0 else f.byteSize == |f.payload|
  }

  predicate Matches(blob: bytes, receipt: Receipt, shard: u64, index: nat, sha: Sha) {
    match FrameAt(blob, receipt)
    case None => false
    case Some(f) => f.shardId == shard && f.walIndex == index + 1 && SizeMatches(f) && DigestMatches(f, sha)
  }

  datatype Validation = Validation(checked: nat, matched: nat, all: bool, coverage: nat)

  function CountMatches(blob: bytes, receipts: seq<Receipt>, shard: u64, n: nat, sha: Sha): (k: nat)
    requires n <= |receipts|
    ensures k <= n
  {
    if n == 0 then 0
    else
      CountMatches(blob, receipts, shard, n - 1, sha)
      + if Matches(blob, receipts[n - 1], shard, n - 1, sha) then 1 else 0
  }

  /** The end of the last frame that matched. */
  function Coverage(blob: bytes, receipts: seq<Receipt>, shard: u64, n: nat, sha: Sha): nat
    requires n <= |receipts|
  {
    if n == 0 then 0
    else if Matches(blob, receipts[n - 1], shard, n - 1, sha) then receipts[n - 1].endOffset
    else Coverage(blob, receipts, shard, n - 1, sha)
  }

  method ValidateOffsetFrames(blob: bytes, receipts: seq<Receipt>, shard: u64, sha: Sha) returns (v: Validation)
    ensures v.checked == |receipts|
    ensures v.matched == CountMatches(blob, receipts, shard, |receipts|, sha)
    ensures v.all <==> forall i :: 0 <= i < |receipts| ==> Matches(blob, receipts[i], shard, i, sha)
    ensures v.coverage == Coverage(blob, receipts, shard, |receipts|, sha)
  {
    hide DecodeFrame;
    var matched, coverage := 0, 0;
    for i := 0 to |receipts|
      invariant matched == CountMatches(blob, receipts, shard, i, sha)
      invariant coverage == Coverage(blob, receipts, shard, i, sha)
    {
      var start, end := receipts[i].startOffset, receipts[i].endOffset;
      if end > |blob| || start >= end || end - start < 4 {
        continue;
      }
      var frame := blob[start..end];
      if BigEndianValue(frame[..4]) + 4 != |frame| {
        continue;
      }
      var decoded := DecodeFrame(frame[4..]);
      if decoded.None? {
        continue;
      }
      var f := decoded.value;
      if f.shardId == shard && f.walIndex == i + 1 && SizeMatches(f) && DigestMatches(f, sha) {
        matched := matched + 1;
        coverage := end;
      }
    }
    AllMatchIffCount(blob, receipts, shard, |receipts|, sha);
    v := Validation(|receipts|, matched, matched == |receipts|, coverage);
  }

  lemma {:induction false} AllMatchIffCount(blob: bytes, receipts: seq<Receipt>, shard: u64, n: nat, sha: Sha)
    requires n <= |receipts|
    ensures CountMatches(blob, receipts, shard, n, sha) == n
       <==> forall i :: 0 <= i < n ==> Matches(blob, receipts[i], shard, i, sha)
  {
    hide Matches;
    if n > 0 {
      AllMatchIffCount(blob, receipts, shard, n - 1, sha);
    }
  }

  // ---- What a match means ----

  /** A digest of the payload itself, in one of the known shapes, with that shape's size rule. */
  ghost predicate Vouched(f: Frame, sha: Sha) {
    || (f.format == 0 && f.sha256 == HexLower(sha(f.payload)) && f.byteSize == |f.payload|)
    || (f.format == 2 && f.digest == sha(f.payload) && f.byteSize == |f.payload|)
    || (f.format == 3 && f.crc32c == Crc32c(f.payload) && f.byteSize == |f.payload|)
    || (f.format == 4 && f.crc32c == Crc32c(f.payload) && f.byteSize == 0)
  }

  /** The receipt's bytes are one frame: a four-byte length, then exactly that many bytes of message. */
  ghost predicate Framed(blob: bytes, receipt: Receipt, body: bytes) {
    && receipt.startOffset <= receipt.endOffset <= |blob|
    && |body| < U32_LIMIT
    && blob[receipt.startOffset..receipt.endOffset] == BigEndian(|body|, 4) + body
  }

  lemma FrameAtIsFramed(blob: bytes, receipt: Receipt, body: bytes)
    requires Framed(blob, receipt, body)
    ensures FrameAt(blob, receipt) == DecodeFrame(body)
  {
    var frame := blob[receipt.startOffset..receipt.endOffset];
    assert frame[..4] == BigEndian(|body|, 4) && frame[4..] == body;
    Capacities();
    BigEndianRoundTrip(|body|, 4);
  }

  lemma FrameAtSound(blob: bytes, receipt: Receipt) returns (body: bytes)
    requires FrameAt(blob, receipt).Some?
    ensures Framed(blob, receipt, body) && DecodeFrame(body) == FrameAt(blob, receipt)
  {
    var frame := blob[receipt.startOffset..receipt.endOffset];
    body := frame[4..];
    BigEndianUnique(frame[..4]);
    Capacities();
    assert frame == frame[..4] + frame[4..];
  }

  /** The body names this shard and this place in the log, and vouches for its payload. */
  ghost predicate Expected(body: bytes, shard: u64, index: nat, sha: Sha) {
    match DecodeFrame(body)
    case None => false
    case Some(f) => f.shardId == shard && f.walIndex == index + 1 && Vouched(f, sha)
  }

  lemma VouchedIsChecked(f: Frame, sha: Sha)
    ensures Vouched(f, sha) <==> SizeMatches(f) && DigestMatches(f, sha)
  {
    hide Crc32c;
    if f.format == RAW_DIGEST && HexLower(f.digest) == HexLower(sha(f.payload)) {
      HexInjective(f.digest, sha(f.payload));
    }
  }

  /**
   A receipt matches exactly when its bytes are one frame whose message names this shard and this place
   in the log and carries a digest that agrees with its payload, in a known shape.
   */
  lemma MatchMeans(blob: bytes, receipt: Receipt, shard: u64, index: nat, sha: Sha)
    ensures Matches(blob, receipt, shard, index, sha)
       <==> exists body: bytes :: Framed(blob, receipt, body) && Expected(body, shard, index, sha)
  {
    hide DecodeFrame;
    hide DigestMatches;
    hide SizeMatches;
    hide Vouched;
    if Matches(blob, receipt, shard, index, sha) {
      var body := FrameAtSound(blob, receipt);
      VouchedIsChecked(DecodeFrame(body).value, sha);
      assert Expected(body, shard, index, sha);
    }
    forall body: bytes | Framed(blob, receipt, body) && Expected(body, shard, index, sha)
      ensures Matches(blob, receipt, shard, index, sha)
    {
      FrameAtIsFramed(blob, receipt, body);
      VouchedIsChecked(DecodeFrame(body).value, sha);
    }
  }

  // ---- A writer of the four known shapes ----

  datatype Entry = Entry(payload: slice, encoding: u32, format: u32)

  predicate Known(format: u32) {
    format in {0, 2, 3, 4}
  }

  /** The frame of the entry at place `index` of a shard's log. */
  function FrameOf(e: Entry, shard: u64, index: nat, sha: Sha): Frame
    requires index + 1 < U64_LIMIT
  {
    Frame(
      shard, index + 1, e.payload, if e.format == NO_SIZE then 0 else |e.payload|,
      if e.format == HEX_DIGEST then HexLower(sha(e.payload)) else [], e.encoding,
      if e.format == RAW_DIGEST then sha(e.payload) else [], e.format,
      if e.format == CRC32C || e.format == NO_SIZE then Crc32c(e.payload) else 0)
  }

  function BodyOf(e: Entry, shard: u64, index: nat, sha: Sha): bytes
    requires index + 1 < U64_LIMIT
  {
    FrameBody(FrameOf(e, shard, index, sha))
  }

  /** Every entry has a known format and a body whose length fits its four bytes. */
  predicate Writable(entries: seq<Entry>, shard: u64, sha: Sha) {
    && |entries| < U64_LIMIT
    && forall i :: 0 <= i < |entries| ==> Known(entries[i].format) && |BodyOf(entries[i], shard, i, sha)| < U32_LIMIT
  }

  /** The blob after the first `n` appends. */
  function Appended(entries: seq<Entry>, shard: u64, sha: Sha, n: nat): bytes
    requires Writable(entries, shard, sha) && n <= |entries|
  {
    if n == 0 then []
    else
      var body := BodyOf(entries[n - 1], shard, n - 1, sha);
      Appended(entries, shard, sha, n - 1) + (BigEndian(|body|, 4) + body)
  }

  function ReceiptOf(entries: seq<Entry>, shard: u64, sha: Sha, i: nat): Receipt
    requires Writable(entries, shard, sha) && i < |entries|
  {
    Receipt(|Appended(entries, shard, sha, i)|, |Appended(entries, shard, sha, i + 1)|)
  }

  function ReceiptsOf(entries: seq<Entry>, shard: u64, sha: Sha): (r: seq<Receipt>)
    requires Writable(entries, shard, sha)
    ensures |r| == |entries|
  {
    seq(|entries|, i requires 0 <= i < |entries| => ReceiptOf(entries, shard, sha, i))
  }

  lemma {:induction false} BlobGrows(entries: seq<Entry>, shard: u64, sha: Sha, i: nat, n: nat)
    requires Writable(entries, shard, sha) && i <= n <= |entries|
    ensures var before, after := Appended(entries, shard, sha, i), Appended(entries, shard, sha, n);
      |before| <= |after| && after[..|before|] == before
    decreases n - i
  {
    if i < n {
      hide *;
      BlobGrows(entries, shard, sha, i, n - 1);
      AppendedLast(entries, shard, sha, n);
      PrefixOfPrefix(
        Appended(entries, shard, sha, i), Appended(entries, shard, sha, n - 1), Appended(entries, shard, sha, n));
    }
  }

  lemma AppendedLast(entries: seq<Entry>, shard: u64, sha: Sha, n: nat)
    requires Writable(entries, shard, sha) && 0 < n <= |entries|
    ensures var before, after := Appended(entries, shard, sha, n - 1), Appended(entries, shard, sha, n);
      |before| <= |after| && after[..|before|] == before
  {
    hide BodyOf;
    hide Writable;
  }

  lemma PrefixOfPrefix(a: bytes, b: bytes, c: bytes)
    requires |a| <= |b| <= |c| && b[..|a|] == a && c[..|b|] == b
    ensures c[..|a|] == a
  {
    assert c[..|b|][..|a|] == c[..|a|];
  }

  lemma FrameOfIsVouched(e: Entry, shard: u64, index: nat, sha: Sha)
    requires index + 1 < U64_LIMIT && Known(e.format)
    ensures Vouched(FrameOf(e, shard, index, sha), sha) && Utf8(FrameOf(e, shard, index, sha).sha256)
  {
    hide Crc32c;
    HexIsAscii(sha(e.payload));
    AsciiIsUtf8(FrameOf(e, shard, index, sha).sha256);
  }

  lemma BodyOfIsExpected(e: Entry, shard: u64, index: nat, sha: Sha)
    requires index + 1 < U64_LIMIT && Known(e.format) && |BodyOf(e, shard, index, sha)| < U32_LIMIT
    ensures Expected(BodyOf(e, shard, index, sha), shard, index, sha)
  {
    hide FrameBody;
    hide DecodeFrame;
    hide Vouched;
    FrameOfIsVouched(e, shard, index, sha);
    FrameRoundTrip(FrameOf(e, shard, index, sha));
  }

  lemma WrittenFrameIsFramed(entries: seq<Entry>, shard: u64, sha: Sha, i: nat)
    requires Writable(entries, shard, sha) && i < |entries|
    ensures Framed(Appended(entries, shard, sha, |entries|), ReceiptOf(entries, shard, sha, i), BodyOf(entries[i], shard, i, sha))
  {
    hide BodyOf;
    var blob, upTo := Appended(entries, shard, sha, |entries|), Appended(entries, shard, sha, i + 1);
    var receipt, body := ReceiptOf(entries, shard, sha, i), BodyOf(entries[i], shard, i, sha);
    BlobGrows(entries, shard, sha, i + 1, |entries|);
    assert upTo == Appended(entries, shard, sha, i) + (BigEndian(|body|, 4) + body);
    SliceOfPrefix(blob, upTo, Appended(entries, shard, sha, i), BigEndian(|body|, 4) + body);
  }

  lemma SliceOfPrefix(whole: bytes, prefix: bytes, before: bytes, last: bytes)
    requires |prefix| <= |whole| && whole[..|prefix|] == prefix && prefix == before + last
    ensures whole[|before|..|prefix|] == last
  {
    assert whole[|before|..|prefix|] == whole[..|prefix|][|before|..];
  }

  lemma WrittenFrameMatches(entries: seq<Entry>, shard: u64, sha: Sha, i: nat)
    requires Writable(entries, shard, sha) && i < |entries|
    ensures Matches(Appended(entries, shard, sha, |entries|), ReceiptOf(entries, shard, sha, i), shard, i, sha)
  {
    hide Matches;
    hide Framed;
    hide Expected;
    WrittenFrameIsFramed(entries, shard, sha, i);
    BodyOfIsExpected(entries[i], shard, i, sha);
    MatchMeans(Appended(entries, shard, sha, |entries|), ReceiptOf(entries, shard, sha, i), shard, i, sha);
  }

  /** Entries in any mix of the known formats, appended back to back, all match, up to the end of the blob. */
  lemma WrittenFramesAllMatch(entries: seq<Entry>, shard: u64, sha: Sha)
    requires Writable(entries, shard, sha)
    ensures var blob := Appended(entries, shard, sha, |entries|);
      var receipts := ReceiptsOf(entries, shard, sha);
      && (forall i :: 0 <= i < |entries| ==> Matches(blob, receipts[i], shard, i, sha))
      && CountMatches(blob, receipts, shard, |receipts|, sha) == |entries|
      && Coverage(blob, receipts, shard, |receipts|, sha) == |blob|
  {
    hide Matches;
    hide Writable;
    var blob := Appended(entries, shard, sha, |entries|);
    var receipts := ReceiptsOf(entries, shard, sha);
    forall i | 0 <= i < |entries|
      ensures Matches(blob, receipts[i], shard, i, sha)
    {
      WrittenFrameMatches(entries, shard, sha, i);
    }
    AllMatchIffCount(blob, receipts, shard, |receipts|, sha);
  }

  // ---- Offsets ----

  predicate OffsetsMonotonic(receipts: seq<Receipt>) {
    forall i :: 0 <= i < |receipts| - 1 ==>
      receipts[i].startOffset <= receipts[i].endOffset && receipts[i].endOffset <= receipts[i + 1].startOffset
  }

  predicate OffsetsContiguous(receipts: seq<Receipt>) {
    forall i :: 0 <= i < |receipts| - 1 ==> receipts[i].endOffset == receipts[i + 1].startOffset
  }

  function Length(receipts: seq<Receipt>, n: nat): int
    requires n <= |receipts|
  {
    if n == 0 then 0 else Length(receipts, n - 1) + (receipts[n - 1].endOffset - receipts[n - 1].startOffset)
  }

  predicate Holds(r: Receipt, at: nat) {
    r.startOffset <= at < r.endOffset
  }

  lemma {:induction false} StartsGrow(receipts: seq<Receipt>, i: nat, j: nat)
    requires OffsetsMonotonic(receipts) && i < j < |receipts|
    ensures receipts[i].endOffset <= receipts[j].startOffset
    decreases j - i
  {
    if i + 1 < j {
      StartsGrow(receipts, i, j - 1);
    }
  }

  lemma {:induction false} LengthIsSpan(receipts: seq<Receipt>, n: nat)
    requires OffsetsContiguous(receipts) && 0 < n <= |receipts|
    ensures Length(receipts, n) == receipts[n - 1].endOffset - receipts[0].startOffset
  {
    if n > 1 {
      LengthIsSpan(receipts, n - 1);
    }
  }

  /** The first check asks of every pair that the earlier ends before the later starts, and is not reversed. */
  lemma MonotonicExactly(receipts: seq<Receipt>)
    ensures OffsetsMonotonic(receipts)
       <==> forall i, j :: 0 <= i < j < |receipts| ==>
              receipts[i].startOffset <= receipts[i].endOffset && receipts[i].endOffset <= receipts[j].startOffset
  {
    if OffsetsMonotonic(receipts) {
      forall i, j | 0 <= i < j < |receipts|
        ensures receipts[i].startOffset <= receipts[i].endOffset && receipts[i].endOffset <= receipts[j].startOffset
      {
        StartsGrow(receipts, i, j);
      }
    } else {
      var i :| 0 <= i < |receipts| - 1
        && !(receipts[i].startOffset <= receipts[i].endOffset && receipts[i].endOffset <= receipts[i + 1].startOffset);
      var j := i + 1;
      assert i < j && !(receipts[i].startOffset <= receipts[i].endOffset && receipts[i].endOffset <= receipts[j].startOffset);
    }
  }

  /** The second asks that the lengths of the first few always add up to the range they span. */
  lemma ContiguousExactly(receipts: seq<Receipt>)
    ensures OffsetsContiguous(receipts)
       <==> forall n :: 0 < n <= |receipts| ==>
              Length(receipts, n) == receipts[n - 1].endOffset - receipts[0].startOffset
  {
    if OffsetsContiguous(receipts) {
      forall n | 0 < n <= |receipts|
        ensures Length(receipts, n) == receipts[n - 1].endOffset - receipts[0].startOffset
      {
        LengthIsSpan(receipts, n);
      }
    } else {
      var i :| 0 <= i < |receipts| - 1 && receipts[i].endOffset != receipts[i + 1].startOffset;
      var n := i + 1;
      assert Length(receipts, n + 1) == Length(receipts, n) + (receipts[n].endOffset - receipts[n].startOffset);
      assert Length(receipts, n) == receipts[n - 1].endOffset - receipts[0].startOffset ==>
        Length(receipts, n + 1) != receipts[n + 1 - 1].endOffset - receipts[0].startOffset;
    }
  }

  lemma {:induction false} SomeReceiptHolds(receipts: seq<Receipt>, at: nat, n: nat) returns (i: nat)
    requires OffsetsContiguous(receipts) && 0 < n <= |receipts|
    requires receipts[0].startOffset <= at < receipts[n - 1].endOffset
    ensures i < n && Holds(receipts[i], at)
  {
    if n == 1 || receipts[n - 1].startOffset <= at {
      i := n - 1;
    } else {
      i := SomeReceiptHolds(receipts, at, n - 1);
    }
  }

  predicate Held(receipts: seq<Receipt>, at: nat) {
    exists i :: 0 <= i < |receipts| && Holds(receipts[i], at)
  }

  /** The receipts split the range from the first start to the last end among them. */
  ghost predicate Tiles(receipts: seq<Receipt>)
    requires receipts != []
  {
    && (forall at: nat :: receipts[0].startOffset <= at < receipts[|receipts| - 1].endOffset <==> Held(receipts, at))
    && (forall at: nat, i, j :: 0 <= i < j < |receipts| ==> !(Holds(receipts[i], at) && Holds(receipts[j], at)))
    && Length(receipts, |receipts|) == receipts[|receipts| - 1].endOffset - receipts[0].startOffset
  }

  lemma HeldInSpan(receipts: seq<Receipt>, at: nat)
    requires OffsetsMonotonic(receipts) && OffsetsContiguous(receipts) && receipts != []
    requires receipts[|receipts| - 1].startOffset <= receipts[|receipts| - 1].endOffset
    ensures receipts[0].startOffset <= at < receipts[|receipts| - 1].endOffset <==> Held(receipts, at)
  {
    var last := |receipts| - 1;
    if receipts[0].startOffset <= at < receipts[last].endOffset {
      var i := SomeReceiptHolds(receipts, at, |receipts|);
      assert Holds(receipts[i], at);
    }
    forall i | 0 <= i < |receipts| && Holds(receipts[i], at)
      ensures receipts[0].startOffset <= at < receipts[last].endOffset
    {
      if i > 0 {
        StartsGrow(receipts, 0, i);
      }
      if i < last {
        StartsGrow(receipts, i, last);
      }
    }
  }

  /**
   Two receipts that pass the pairwise checks never overlap and their lengths always add up. They tile the
   range they span exactly when the last one is not reversed, or nothing comes before it.
   */
  lemma ReceiptsTile(receipts: seq<Receipt>)
    requires OffsetsMonotonic(receipts) && OffsetsContiguous(receipts) && receipts != []
    ensures var last := receipts[|receipts| - 1];
      Tiles(receipts)
      <==> last.startOffset <= last.endOffset
           || forall i :: 0 <= i < |receipts| - 1 ==> receipts[i].startOffset == receipts[i].endOffset
  {
    var n := |receipts| - 1;
    var last := receipts[n];
    LengthIsSpan(receipts, |receipts|);
    forall at: nat, i, j | 0 <= i < j < |receipts|
      ensures !(Holds(receipts[i], at) && Holds(receipts[j], at))
    {
      StartsGrow(receipts, i, j);
    }
    if last.startOffset <= last.endOffset {
      forall at: nat
        ensures receipts[0].startOffset <= at < last.endOffset <==> Held(receipts, at)
      {
        HeldInSpan(receipts, at);
      }
    } else if i :| 0 <= i < n && receipts[i].startOffset < receipts[i].endOffset {
      // The byte before the last start is held, and lies beyond the last end.
      if i > 0 {
        StartsGrow(receipts, 0, i);
      }
      StartsGrow(receipts, i, n);
      var k := SomeReceiptHolds(receipts, last.startOffset - 1, n);
      assert Held(receipts, last.startOffset - 1);
    } else {
      EmptyReceipts(receipts, n);
      forall at: nat
        ensures !Held(receipts, at)
      {
      }
    }
  }

  lemma {:induction false} EmptyReceipts(receipts: seq<Receipt>, n: nat)
    requires OffsetsContiguous(receipts) && n < |receipts|
    requires forall i :: 0 <= i < n ==> receipts[i].startOffset >= receipts[i].endOffset
    ensures receipts[n].startOffset <= receipts[0].startOffset
  {
    if n > 0 {
      EmptyReceipts(receipts, n - 1);
    }
  }

  /** Neither check looks at the end of the last receipt, so a reversed one passes. */
  lemma LastReceiptUnchecked()
    ensures var receipts := [Receipt(0, 5), Receipt(5, 3)];
      OffsetsMonotonic(receipts) && OffsetsContiguous(receipts) && !Tiles(receipts)
  {
    ReceiptsTile([Receipt(0, 5), Receipt(5, 3)]);
  }

  /** A writer's receipts pass both checks and tile the blob. */
  lemma WrittenReceiptsTile(entries: seq<Entry>, shard: u64, sha: Sha)
    requires Writable(entries, shard, sha)
    ensures OffsetsMonotonic(ReceiptsOf(entries, shard, sha)) && OffsetsContiguous(ReceiptsOf(entries, shard, sha))
    ensures entries != [] ==> Length(ReceiptsOf(entries, shard, sha), |entries|) == |Appended(entries, shard, sha, |entries|)|
  {
    hide Writable;
    hide Appended;
    var receipts := ReceiptsOf(entries, shard, sha);
    forall i | 0 <= i < |receipts|
      ensures receipts[i].startOffset <= receipts[i].endOffset
    {
      BlobGrows(entries, shard, sha, i, i + 1);
    }
    assert OffsetsMonotonic(receipts);
    if entries != [] {
      LengthIsSpan(receipts, |receipts|);
      NothingAppended(entries, shard, sha);
    }
  }

  lemma NothingAppended(entries: seq<Entry>, shard: u64, sha: Sha)
    requires Writable(entries, shard, sha)
    ensures Appended(entries, shard, sha, 0) == []
  {
  }

  // ---- What the reported coverage covers ----

  /** The offset lies in a receipt whose frame matches. */
  predicate CoveredAt(blob: bytes, receipts: seq<Receipt>, shard: u64, sha: Sha, at: nat) {
    exists i :: 0 <= i < |receipts| && Matches(blob, receipts[i], shard, i, sha) && Holds(receipts[i], at)
  }

  /** No frame that fails to match stands, with any bytes at all, before one that matches. */
  predicate NoGap(blob: bytes, receipts: seq<Receipt>, shard: u64, sha: Sha) {
    forall i, j | 0 <= i < j < |receipts| && receipts[i].startOffset < receipts[i].endOffset ::
      Matches(blob, receipts[j], shard, j, sha) ==> Matches(blob, receipts[i], shard, i, sha)
  }

  lemma {:induction false} LastMatch(blob: bytes, receipts: seq<Receipt>, shard: u64, n: nat, sha: Sha)
    returns (m: nat)
    requires n <= |receipts|
    ensures m <= n && (m == 0 ==> Coverage(blob, receipts, shard, n, sha) == 0)
    ensures m > 0 ==> Matches(blob, receipts[m - 1], shard, m - 1, sha)
    ensures m > 0 ==> Coverage(blob, receipts, shard, n, sha) == receipts[m - 1].endOffset
    ensures forall i :: m <= i < n ==> !Matches(blob, receipts[i], shard, i, sha)
  {
    hide Matches;
    if n == 0 || Matches(blob, receipts[n - 1], shard, n - 1, sha) {
      m := n;
    } else {
      m := LastMatch(blob, receipts, shard, n - 1, sha);
    }
  }

  lemma MatchIsNotEmpty(blob: bytes, receipt: Receipt, shard: u64, index: nat, sha: Sha)
    requires Matches(blob, receipt, shard, index, sha)
    ensures receipt.startOffset < receipt.endOffset
  {
  }

  /**
   For receipts that pass the pairwise checks from offset 0 on, everything below the reported coverage lies
   in a matching frame exactly when no frame with bytes in it fails before one that matches.
   */
  lemma CoverageIsRun(blob: bytes, receipts: seq<Receipt>, shard: u64, sha: Sha)
    requires OffsetsMonotonic(receipts) && OffsetsContiguous(receipts)
    requires receipts != [] ==> receipts[0].startOffset == 0
    ensures (forall at: nat :: at < Coverage(blob, receipts, shard, |receipts|, sha) ==>
        CoveredAt(blob, receipts, shard, sha, at))
      <==> NoGap(blob, receipts, shard, sha)
  {
    hide Matches;
    var m := LastMatch(blob, receipts, shard, |receipts|, sha);
    var coverage := Coverage(blob, receipts, shard, |receipts|, sha);
    if NoGap(blob, receipts, shard, sha) {
      forall at: nat | at < coverage
        ensures CoveredAt(blob, receipts, shard, sha, at)
      {
        var i := SomeReceiptHolds(receipts, at, m);
        assert Matches(blob, receipts[i], shard, i, sha);
      }
    }
    if forall at: nat :: at < coverage ==> CoveredAt(blob, receipts, shard, sha, at) {
      forall i, j | 0 <= i < j < |receipts| && Matches(blob, receipts[j], shard, j, sha)
          && receipts[i].startOffset < receipts[i].endOffset
        ensures Matches(blob, receipts[i], shard, i, sha)
      {
        var at := receipts[i].startOffset;
        MatchIsNotEmpty(blob, receipts[m - 1], shard, m - 1, sha);
        StartBelow(receipts, i, m - 1);
        assert CoveredAt(blob, receipts, shard, sha, at);
        var k :| 0 <= k < |receipts| && Matches(blob, receipts[k], shard, k, sha) && Holds(receipts[k], at);
        HeldOnce(receipts, at, i, k);
      }
    }
  }

  lemma StartBelow(receipts: seq<Receipt>, i: nat, m: nat)
    requires OffsetsMonotonic(receipts) && i < m < |receipts| && receipts[i].startOffset < receipts[i].endOffset
    requires receipts[m].startOffset < receipts[m].endOffset
    ensures receipts[i].startOffset < receipts[m].endOffset
  {
    StartsGrow(receipts, i, m);
  }

  lemma HeldOnce(receipts: seq<Receipt>, at: nat, i: nat, k: nat)
    requires OffsetsMonotonic(receipts) && i < |receipts| && k < |receipts|
    requires Holds(receipts[i], at) && Holds(receipts[k], at)
    ensures i == k
  {
    if i < k {
      StartsGrow(receipts, i, k);
    } else if k < i {
      StartsGrow(receipts, k, i);
    }
  }

  // ---- A gap that the coverage does not show ----

  lemma SliceDecidesMatch(blob: bytes, other: bytes, receipt: Receipt, shard: u64, index: nat, sha: Sha)
    requires |blob| == |other| && receipt.startOffset <= receipt.endOffset <= |blob|
    requires blob[receipt.startOffset..receipt.endOffset] == other[receipt.startOffset..receipt.endOffset]
    ensures Matches(blob, receipt, shard, index, sha) <==> Matches(other, receipt, shard, index, sha)
  {
    hide DecodeFrame;
  }

  function Flipped(blob: bytes): (other: bytes)
    requires blob != []
    ensures |other| == |blob|
  {
    [255 - blob[0]] + blob[1..]
  }

  lemma WrongLengthFails(blob: bytes, other: bytes, receipt: Receipt, shard: u64, index: nat, sha: Sha)
    requires Matches(blob, receipt, shard, index, sha) && receipt.startOffset == 0
    requires blob != [] && other == Flipped(blob)
    ensures !Matches(other, receipt, shard, index, sha)
  {
    hide DecodeFrame;
    hide BigEndianValue;
    hide DigestMatches;
    hide SizeMatches;
    var frame, spoiled := blob[..receipt.endOffset], other[..receipt.endOffset];
    assert frame[..4][0] != spoiled[..4][0];
    BigEndianUnique(frame[..4]);
    BigEndianUnique(spoiled[..4]);
  }

  /** Two appended entries, and a flip in the length of the first: one frame matches, and coverage is still the whole blob. */
  lemma SpoiledFrameIsCovered(entries: seq<Entry>, shard: u64, sha: Sha)
    requires Writable(entries, shard, sha) && |entries| == 2
    ensures var written := Appended(entries, shard, sha, 2);
      var receipts := ReceiptsOf(entries, shard, sha);
      && written != []
      && var blob := Flipped(written);
        && Coverage(blob, receipts, shard, 2, sha) == |blob|
        && CountMatches(blob, receipts, shard, 2, sha) == 1
        && !CoveredAt(blob, receipts, shard, sha, 0)
        && !NoGap(blob, receipts, shard, sha)
  {
    hide Matches;
    hide BodyOf;
    hide Appended;
    hide Writable;
    var written, receipts := Appended(entries, shard, sha, 2), ReceiptsOf(entries, shard, sha);
    WrittenFramesAllMatch(entries, shard, sha);
    WrittenReceiptsTile(entries, shard, sha);
    NothingAppended(entries, shard, sha);
    var first, second := receipts[0], receipts[1];
    MatchIsNotEmpty(written, first, shard, 0, sha);
    MatchIsNotEmpty(written, second, shard, 1, sha);
    SpoilsFirst(written, receipts, shard, sha);
  }

  lemma SpoilsFirst(written: bytes, receipts: seq<Receipt>, shard: u64, sha: Sha)
    requires |receipts| == 2 && written != []
    requires 0 == receipts[0].startOffset < receipts[0].endOffset == receipts[1].startOffset
    requires receipts[1].startOffset < receipts[1].endOffset == |written|
    requires Matches(written, receipts[0], shard, 0, sha) && Matches(written, receipts[1], shard, 1, sha)
    ensures var blob := Flipped(written);
      && Coverage(blob, receipts, shard, 2, sha) == |blob|
      && CountMatches(blob, receipts, shard, 2, sha) == 1
      && !CoveredAt(blob, receipts, shard, sha, 0)
      && !NoGap(blob, receipts, shard, sha)
  {
    hide Matches;
    var blob, second := Flipped(written), receipts[1];
    WrongLengthFails(written, blob, receipts[0], shard, 0, sha);
    assert written[second.startOffset..second.endOffset] == blob[second.startOffset..second.endOffset];
    SliceDecidesMatch(written, blob, second, shard, 1, sha);
    assert CountMatches(blob, receipts, shard, 1, sha) == 0;
  }

  /** Such entries exist, for every shard and digest: two empty commands. */
  lemma EmptyCommandsWritable(shard: u64, sha: Sha)
    ensures Writable([Entry([], 0, NO_SIZE), Entry([], 0, NO_SIZE)], shard, sha)
  {
    EmptyCommandSize(shard, 0, sha);
    EmptyCommandSize(shard, 1, sha);
  }

  lemma EmptyCommandSize(shard: u64, index: nat, sha: Sha)
    requires index < 2
    ensures |BodyOf(Entry([], 0, NO_SIZE), shard, index, sha)| <= 99
  {
    hide Crc32c;
    var m := FrameToMessage(FrameOf(Entry([], 0, NO_SIZE), shard, index, sha));
    Pow128Values();
    VarintFieldSize(Field(1, UInt64), shard, 10);
    VarintFieldSize(Field(2, UInt64), index + 1, 10);
    VarintFieldSize(Field(10, UInt32), NO_SIZE, 10);
    KeyIsOneByte(Field(11, Fixed32));
    FieldsAtMost(FRAME_SCHEMA, m, 0, 11);
  }
}
