/** Up to four neighbouring bytes of a blob's data replaced by others: the reader always refuses the blob. */
module StreamDamage {
  import opened Bytes
  import opened Protobuf
  import opened Checksum
  import opened StreamMessages
  import opened StreamFormat
  import opened StreamRoundTrip
  import opened StreamShapes

  /** `s` with the bytes from `at` on replaced by `patch`. */
  function Patched(s: bytes, at: nat, patch: bytes): (t: bytes)
    requires at + |patch| <= |s|
    ensures |t| == |s|
  {
    s[..at] + patch + s[at + |patch|..]
  }

  /** The patch is no longer than four bytes, and changes something. */
  predicate Burst(s: bytes, at: nat, patch: bytes) {
    |patch| <= 4 && at + |patch| <= |s| && s[at..at + |patch|] != patch
  }

  lemma BurstIsSeen(s: bytes, at: nat, patch: bytes)
    requires Burst(s, at, patch)
    ensures StreamCrc(0, Patched(s, at, patch)) != StreamCrc(0, s)
  {
    hide StreamCrc;
    var was := s[at..at + |patch|];
    assert s == s[..at] + was + s[at + |patch|..];
    BurstChangesCrc(0, s[..at], was, patch, s[at + |patch|..]);
  }

  // ---- In a record ----

  lemma DamagedRecordReads(payload: bytes, at: nat, patch: bytes, rest: bytes, from: nat)
    requires |payload| < U32_LIMIT && Burst(payload, at, patch)
    ensures ReadRecords(RecordHeader(payload) + Patched(payload, at, patch) + rest, from) == Err(RecordChecksum)
  {
    hide StreamCrc;
    hide ReadLength;
    hide Patched;
    hide Varint;
    hide LittleEndian;
    var damaged := Patched(payload, at, patch);
    var crc := LittleEndian(StreamCrc(0, payload), 4);
    Associative4(Varint(|payload|), crc, damaged, rest);
    LengthReads(|payload|, crc + (damaged + rest));
    Le32RoundTrip(StreamCrc(0, payload));
    BurstIsSeen(payload, at, patch);
    var s := crc + (damaged + rest);
    assert s[..4] == crc && s[4..4 + |payload|] == damaged;
  }

  /** Whole records before an error do not change it. */
  lemma {:induction false} RecordsThenError(before: seq<StreamRecord>, rest: bytes, from: nat, e: Error)
    requires Short(before) && ReadRecords(rest, from + |AllBytes(before)|) == Err(e)
    ensures ReadRecords(AllBytes(before) + rest, from) == Err(e)
    decreases |before|
  {
    hide ReadRecords;
    hide RecordBytes;
    if before == [] {
      assert AllBytes(before) + rest == rest;
    } else {
      var first, others := before[0], before[1..];
      assert first in before;
      Associative(RecordBytes(first.payload), AllBytes(others), rest);
      RecordsThenError(others, rest, from + |RecordBytes(first.payload)|, e);
      RecordReads(first.payload, AllBytes(others) + rest, from);
    }
  }

  /** Whatever whole records come before it and whatever bytes after it, a record with such a change is an error. */
  lemma DamagedRecordRefused(
    before: seq<StreamRecord>, payload: bytes, at: nat, patch: bytes, rest: bytes, from: nat)
    requires Short(before) && |payload| < U32_LIMIT && Burst(payload, at, patch)
    ensures ReadRecords(AllBytes(before) + (RecordHeader(payload) + Patched(payload, at, patch) + rest), from)
         == Err(RecordChecksum)
  {
    hide ReadRecords;
    hide RecordHeader;
    hide Patched;
    hide AllBytes;
    var damaged := RecordHeader(payload) + Patched(payload, at, patch) + rest;
    DamagedRecordReads(payload, at, patch, rest, from + |AllBytes(before)|);
    RecordsThenError(before, damaged, from, RecordChecksum);
  }

  /** So is one with such a change in its stored checksum. */
  lemma DamagedRecordCrcRefused(
    before: seq<StreamRecord>, payload: bytes, at: nat, patch: bytes, rest: bytes, from: nat)
    requires Short(before) && |payload| < U32_LIMIT && Burst(LittleEndian(StreamCrc(0, payload), 4), at, patch)
    ensures var stored := Patched(LittleEndian(StreamCrc(0, payload), 4), at, patch);
      ReadRecords(AllBytes(before) + (Varint(|payload|) + (stored + (payload + rest))), from) == Err(RecordChecksum)
  {
    hide ReadRecords;
    hide StreamCrc;
    hide Patched;
    hide AllBytes;
    hide LittleEndian;
    hide Varint;
    hide ReadLength;
    var other := OtherNumber(StreamCrc(0, payload), at, patch);
    var after := LittleEndian(other, 4) + (payload + rest);
    LengthReads(|payload|, after);
    WrongCrcReads(Varint(|payload|), payload, other, rest, from + |AllBytes(before)|);
    RecordsThenError(before, Varint(|payload|) + after, from, RecordChecksum);
  }

  lemma WrongCrcReads(length: bytes, payload: bytes, stored: u32, rest: bytes, at: nat)
    requires stored != StreamCrc(0, payload)
    requires ReadLength(length + (LittleEndian(stored, 4) + (payload + rest)))
          == Parsed(|payload|, LittleEndian(stored, 4) + (payload + rest))
    ensures ReadRecords(length + (LittleEndian(stored, 4) + (payload + rest)), at) == Err(RecordChecksum)
  {
    hide StreamCrc;
    hide ReadLength;
    hide LittleEndian;
    hide Le32;
    var after := LittleEndian(stored, 4) + (payload + rest);
    Le32RoundTrip(stored);
    assert after[..4] == LittleEndian(stored, 4) && after[4..4 + |payload|] == payload;
  }

  lemma PatchedWithin(a: bytes, s: bytes, c: bytes, at: nat, patch: bytes)
    requires at + |patch| <= |s|
    ensures Patched(a + (s + c), |a| + at, patch) == a + (Patched(s, at, patch) + c)
  {
  }

  // ---- In the header block ----

  /** A blob with such a change in its header message is refused. */
  lemma DamagedHeaderRefused(h: BlobHeader, body: bytes, at: nat, patch: bytes)
    requires HeaderFits(h) && Burst(BlobProto(Finished(h)), at, patch)
    ensures 8 + at + |patch| <= |HeaderBlock(h) + body|
    ensures ReadBlob(Patched(HeaderBlock(h) + body, 8 + at, patch)) == Err(HeaderChecksum)
  {
    hide HeaderBlock;
    hide BlobProto;
    hide Finished;
    hide HeaderFits;
    hide StreamCrc;
    hide ReadHeader;
    hide LittleEndian;
    hide Patched;
    var message := BlobProto(Finished(h));
    HeaderBlockBytes(h);
    var size, stored := LittleEndian(|message|, 4), LittleEndian(StreamCrc(0, message), 4);
    var pad := Zeros(|HeaderBlock(h)| - 8 - |message|);
    HeaderRegroups(size, stored, message, pad, body);
    PatchedWithin(size + stored, message, pad + body, at, patch);
    Associative(size, stored, Patched(message, at, patch) + (pad + body));
    HeaderReads(Patched(message, at, patch), StreamCrc(0, message), pad + body);
    BurstIsSeen(message, at, patch);
  }

  lemma HeaderRegroups(size: bytes, stored: bytes, message: bytes, pad: bytes, body: bytes)
    ensures size + (stored + (message + pad)) + body == size + stored + (message + (pad + body))
    ensures size + (stored + (message + pad)) + body == size + (stored + (message + (pad + body)))
  {
  }

  /** So is one with such a change in the header's stored checksum. */
  lemma DamagedHeaderCrcRefused(h: BlobHeader, body: bytes, at: nat, patch: bytes)
    requires HeaderFits(h) && Burst(LittleEndian(StreamCrc(0, BlobProto(Finished(h))), 4), at, patch)
    ensures 4 + at + |patch| <= |HeaderBlock(h) + body|
    ensures ReadBlob(Patched(HeaderBlock(h) + body, 4 + at, patch)) == Err(HeaderChecksum)
  {
    hide HeaderBlock;
    hide BlobProto;
    hide Finished;
    hide HeaderFits;
    hide StreamCrc;
    hide ReadHeader;
    hide LittleEndian;
    hide Patched;
    var message := BlobProto(Finished(h));
    HeaderBlockBytes(h);
    var size, stored := LittleEndian(|message|, 4), LittleEndian(StreamCrc(0, message), 4);
    var pad := Zeros(|HeaderBlock(h)| - 8 - |message|);
    HeaderRegroups(size, stored, message, pad, body);
    PatchedWithin(size, stored, message + (pad + body), at, patch);
    var other := OtherNumber(StreamCrc(0, message), at, patch);
    HeaderReads(message, other, pad + body);
  }

  /** Four bytes changed are those of another number. */
  lemma OtherNumber(n: u32, at: nat, patch: bytes) returns (other: u32)
    requires Burst(LittleEndian(n, 4), at, patch)
    ensures other != n && Patched(LittleEndian(n, 4), at, patch) == LittleEndian(other, 4)
  {
    hide LittleEndian;
    var s := LittleEndian(n, 4);
    var t := Patched(s, at, patch);
    LittleEndianUnique(t);
    Capacities();
    other := LittleEndianValue(t);
    assert t[at..at + |patch|] == patch;
  }

  // ---- In a closed block ----

  lemma {:induction false} BlocksAround(sealed: seq<Sealed>, i: nat)
    requires i < |sealed| && forall b <- sealed :: Closed(b)
    ensures |Blocks(sealed[..i])| == i * BLOCK_SIZE
    ensures Blocks(sealed) == Blocks(sealed[..i]) + (BlockBytes(sealed[i]) + Blocks(sealed[i + 1..]))
  {
    hide Closed;
    hide BlockBytes;
    assert sealed[0] in sealed;
    if i == 0 {
      assert sealed[..0] == [];
      assert Blocks(sealed) == [] + (BlockBytes(sealed[0]) + Blocks(sealed[1..]));
    } else {
      var first, rest := sealed[0], sealed[1..];
      BlocksAround(rest, i - 1);
      assert rest[..i - 1] == sealed[..i][1..] && rest[i..] == sealed[i + 1..] && sealed[..i][0] == first;
      Associative(BlockBytes(first), Blocks(rest[..i - 1]), BlockBytes(sealed[i]) + Blocks(sealed[i + 1..]));
    }
  }

  /** Whole blocks before one that is refused do not change the refusal. */
  lemma {:induction false} StripsToFault(sealed: seq<Sealed>, slot: bytes, e: Error, rest: bytes, start: nat)
    requires |slot| == BLOCK_SIZE && ReadBlock(slot) == Err(e) && start + |sealed| * BLOCK_SIZE < U64_LIMIT
    requires forall b <- sealed :: Closed(b) && b.footer.blockCrc == StreamCrc(0, b.data)
    ensures Strip(Blocks(sealed) + (slot + rest), start) == Err(e)
    decreases |sealed|
  {
    hide StreamCrc;
    hide ReadBlock;
    hide BlockBytes;
    hide Closed;
    if sealed == [] {
      assert Blocks(sealed) + (slot + rest) == slot + rest;
      assert (slot + rest)[..BLOCK_SIZE] == slot;
    } else {
      assert sealed[0] in sealed;
      var more := Blocks(sealed[1..]) + (slot + rest);
      Associative(BlockBytes(sealed[0]), Blocks(sealed[1..]), slot + rest);
      assert (BlockBytes(sealed[0]) + more)[..BLOCK_SIZE] == BlockBytes(sealed[0]);
      assert (BlockBytes(sealed[0]) + more)[BLOCK_SIZE..] == more;
      BlockReads(sealed[0]);
      StripsToFault(sealed[1..], slot, e, rest, start + BLOCK_SIZE);
    }
  }

  /** A change in one closed block that makes the reader refuse that block makes it refuse the blob. */
  lemma DamagedSlotRefused(h: BlobHeader, log: Log, i: nat, at: nat, patch: bytes, e: Error)
    requires HeaderFits(h) && h.startOffset % BLOCK_SIZE == 0 && Sound(log) && log.start == h.startOffset
    requires i < |log.sealed| && (log.prev == 0 || i == 0) && at + |patch| <= BLOCK_SIZE
    requires Closed(log.sealed[i]) && ReadBlock(Patched(BlockBytes(log.sealed[i]), at, patch)) == Err(e)
    ensures i * BLOCK_SIZE + at + |patch| <= |Body(log)|
    ensures ReadBlob(HeaderBlock(h) + Patched(Body(log), i * BLOCK_SIZE + at, patch)) == Err(e)
  {
    hide StreamCrc;
    hide HeaderBlock;
    hide HeaderFits;
    hide ReadBlob;
    hide ReadBlock;
    hide BlockBytes;
    hide Closed;
    hide Strip;
    hide Blocks;
    hide Finished;
    hide Patched;
    var sealed := log.sealed;
    var before, slot, after := Blocks(sealed[..i]), BlockBytes(sealed[i]), Blocks(sealed[i + 1..]) + log.tail;
    BlocksAround(sealed, i);
    Associative(before, slot + Blocks(sealed[i + 1..]), log.tail);
    Associative(slot, Blocks(sealed[i + 1..]), log.tail);
    PatchedWithin(before, slot, after, at, patch);
    forall b | b in sealed[..i]
      ensures Closed(b) && b.footer.blockCrc == StreamCrc(0, b.data)
    {
      var j :| 0 <= j < i && sealed[j] == b;
      assert Seed(log, j) == 0;
    }
    StripsToFault(sealed[..i], Patched(slot, at, patch), e, after, log.start);
    SameStart(h);
    ReadsBody(h, Patched(Body(log), i * BLOCK_SIZE + at, patch));
  }

  /** A blob with such a change in the data of any closed block is refused. */
  lemma DamagedBlobRefused(h: BlobHeader, log: Log, i: nat, at: nat, patch: bytes)
    requires HeaderFits(h) && h.startOffset % BLOCK_SIZE == 0 && Sound(log) && log.prev == 0
    requires log.start == h.startOffset
    requires i < |log.sealed| && Burst(log.sealed[i].data, at, patch)
    ensures i * BLOCK_SIZE + at + |patch| <= |Body(log)|
    ensures ReadBlob(HeaderBlock(h) + Patched(Body(log), i * BLOCK_SIZE + at, patch)) == Err(BlockChecksum)
  {
    hide HeaderBlock;
    hide HeaderFits;
    hide ReadBlob;
    hide ReadBlock;
    hide BlockBytes;
    hide Body;
    hide StreamCrc;
    hide Finished;
    var b := log.sealed[i];
    assert b in log.sealed;
    assert Seed(log, i) == 0;
    DamagedDataReads(b, at, patch);
    DamagedSlotRefused(h, log, i, at, patch, BlockChecksum);
  }

  lemma DamagedDataReads(b: Sealed, at: nat, patch: bytes)
    requires Closed(b) && b.footer.blockCrc == StreamCrc(0, b.data) && Burst(b.data, at, patch)
    ensures ReadBlock(Patched(BlockBytes(b), at, patch)) == Err(BlockChecksum)
  {
    hide StreamCrc;
    hide FooterProto;
    hide ReadFooter;
    hide LittleEndian;
    var message := FooterProto(b.footer);
    var pad := Zeros(131064 - |b.data| - |message|);
    var trailer := message + (LittleEndian(|message|, 4) + LittleEndian(StreamCrc(0, message), 4));
    var data := Patched(b.data, at, patch);
    BlockIs(b);
    hide BlockBytes;
    Associative(b.data, pad, trailer);
    PatchedWithin([], b.data, pad + trailer, at, patch);
    NothingBefore(b.data + (pad + trailer), data + (pad + trailer));
    Associative(data, pad, trailer);
    var slot := Patched(BlockBytes(b), at, patch);
    FooterReadsAs(data + pad, message, StreamCrc(0, message));
    FooterRoundTrip(b.footer);
    BlockReadsAs(slot);
    hide ReadBlock;
    hide Patched;
    StartsWith(data, pad, trailer);
    BurstIsSeen(b.data, at, patch);
  }

  lemma StartsWith(a: bytes, b: bytes, c: bytes)
    ensures (a + b + c)[..|a|] == a
  {
  }

  lemma NothingBefore(a: bytes, b: bytes)
    ensures [] + a == a && [] + b == b
  {
  }

  /** A blob with such a change in the footer message of any closed block is refused. */
  lemma DamagedFooterRefused(h: BlobHeader, log: Log, i: nat, at: nat, patch: bytes)
    requires HeaderFits(h) && h.startOffset % BLOCK_SIZE == 0 && Sound(log) && log.start == h.startOffset
    requires i < |log.sealed| && (log.prev == 0 || i == 0) && Burst(FooterProto(log.sealed[i].footer), at, patch)
    ensures var from := (i + 1) * BLOCK_SIZE - 8 - |FooterProto(log.sealed[i].footer)| + at;
      0 <= from && from + |patch| <= |Body(log)|
      && ReadBlob(HeaderBlock(h) + Patched(Body(log), from, patch)) == Err(FooterChecksum)
  {
    hide HeaderBlock;
    hide HeaderFits;
    hide ReadBlob;
    hide ReadBlock;
    hide BlockBytes;
    hide Body;
    hide StreamCrc;
    hide Finished;
    hide FooterProto;
    var b := log.sealed[i];
    assert b in log.sealed;
    var from := BLOCK_SIZE - 8 - |FooterProto(b.footer)| + at;
    DamagedFooterReads(b, at, patch);
    DamagedSlotRefused(h, log, i, from, patch, FooterChecksum);
  }

  lemma DamagedFooterReads(b: Sealed, at: nat, patch: bytes)
    requires Closed(b) && Burst(FooterProto(b.footer), at, patch)
    ensures var from := BLOCK_SIZE - 8 - |FooterProto(b.footer)| + at;
      0 <= from && from + |patch| <= BLOCK_SIZE && ReadBlock(Patched(BlockBytes(b), from, patch)) == Err(FooterChecksum)
  {
    hide StreamCrc;
    hide FooterProto;
    hide ReadFooter;
    hide LittleEndian;
    hide Patched;
    var message := FooterProto(b.footer);
    var front := b.data + Zeros(131064 - |b.data| - |message|);
    BlockIs(b);
    hide BlockBytes;
    PatchedWithin(front, message, LittleEndian(|message|, 4) + LittleEndian(StreamCrc(0, message), 4), at, patch);
    FooterReadsAs(front, Patched(message, at, patch), StreamCrc(0, message));
    BurstIsSeen(message, at, patch);
  }

  /** So is one with such a change in a footer's stored checksum. */
  lemma DamagedFooterCrcRefused(h: BlobHeader, log: Log, i: nat, at: nat, patch: bytes)
    requires HeaderFits(h) && h.startOffset % BLOCK_SIZE == 0 && Sound(log) && log.start == h.startOffset
    requires i < |log.sealed| && (log.prev == 0 || i == 0)
    requires Burst(LittleEndian(StreamCrc(0, FooterProto(log.sealed[i].footer)), 4), at, patch)
    ensures var from := (i + 1) * BLOCK_SIZE - 4 + at;
      from + |patch| <= |Body(log)|
      && ReadBlob(HeaderBlock(h) + Patched(Body(log), from, patch)) == Err(FooterChecksum)
  {
    hide HeaderBlock;
    hide HeaderFits;
    hide ReadBlob;
    hide ReadBlock;
    hide BlockBytes;
    hide Body;
    hide StreamCrc;
    hide Finished;
    hide FooterProto;
    hide LittleEndian;
    var b := log.sealed[i];
    assert b in log.sealed;
    DamagedFooterCrcReads(b, at, patch);
    DamagedSlotRefused(h, log, i, BLOCK_SIZE - 4 + at, patch, FooterChecksum);
  }

  lemma DamagedFooterCrcReads(b: Sealed, at: nat, patch: bytes)
    requires Closed(b) && Burst(LittleEndian(StreamCrc(0, FooterProto(b.footer)), 4), at, patch)
    ensures ReadBlock(Patched(BlockBytes(b), BLOCK_SIZE - 4 + at, patch)) == Err(FooterChecksum)
  {
    hide StreamCrc;
    hide FooterProto;
    hide ReadFooter;
    hide LittleEndian;
    hide Patched;
    var message := FooterProto(b.footer);
    var front := b.data + Zeros(131064 - |b.data| - |message|);
    var size, stored := LittleEndian(|message|, 4), LittleEndian(StreamCrc(0, message), 4);
    BlockIs(b);
    hide BlockBytes;
    FooterRegroups(front, message, size, stored);
    PatchedWithin(front + (message + size), stored, [], at, patch);
    assert stored + [] == stored;
    var other := OtherNumber(StreamCrc(0, message), at, patch);
    assert LittleEndian(other, 4) + [] == LittleEndian(other, 4);
    FooterRegroups(front, message, size, LittleEndian(other, 4));
    FooterReadsAs(front, message, other);
  }

  lemma FooterRegroups(front: bytes, message: bytes, size: bytes, stored: bytes)
    ensures front + (message + (size + stored)) == front + (message + size) + stored
  {
  }

  /** A block whose footer has another magic, under its right checksum, is refused. */
  lemma OtherFooterMagicRefused(front: bytes, f: BlockFooter)
    requires f.magic != 0xBCBC_BCBC_6666_6666 && |FooterProto(f)| <= 120 && |front| + |FooterProto(f)| + 8 == 131072
    ensures var message := FooterProto(f);
      ReadBlock(front + (message + (LittleEndian(|message|, 4) + LittleEndian(StreamCrc(0, message), 4))))
      == Err(FooterMagic)
  {
    hide ReadFooter;
    hide FooterProto;
    hide StreamCrc;
    hide LittleEndian;
    FooterReadsAs(front, FooterProto(f), StreamCrc(0, FooterProto(f)));
    FooterRoundTrip(f);
  }

  // ---- In the open block ----

  lemma {:induction false} AllBytesAround(records: seq<StreamRecord>, j: nat)
    requires j < |records|
    ensures AllBytes(records)
         == AllBytes(records[..j]) + (RecordBytes(records[j].payload) + AllBytes(records[j + 1..]))
  {
    hide RecordBytes;
    if j == 0 {
      assert records[..0] == [];
      assert AllBytes(records) == [] + (RecordBytes(records[0].payload) + AllBytes(records[1..]));
    } else {
      var first, rest := records[0], records[1..];
      AllBytesAround(rest, j - 1);
      assert rest[..j - 1] == records[..j][1..] && rest[j..] == records[j + 1..];
      Associative(RecordBytes(first.payload), AllBytes(rest[..j - 1]),
                  RecordBytes(records[j].payload) + AllBytes(records[j + 1..]));
    }
  }

  /** Where in a blob's data a byte of a record's payload lies. */
  ghost function PayloadAt(records: seq<StreamRecord>, j: nat, at: nat): nat
    requires j < |records|
  {
    Position(records, j) + |RecordHeader(records[j].payload)| + at
  }

  lemma PatchedRecords(records: seq<StreamRecord>, j: nat, at: nat, patch: bytes)
    requires j < |records| && at + |patch| <= |records[j].payload|
    ensures PayloadAt(records, j, at) + |patch| <= |AllBytes(records)|
    ensures Patched(AllBytes(records), PayloadAt(records, j, at), patch)
         == AllBytes(records[..j])
            + (RecordHeader(records[j].payload) + Patched(records[j].payload, at, patch) + AllBytes(records[j + 1..]))
  {
    hide AllBytes;
    hide RecordHeader;
    hide Patched;
    var before, head, payload, after :=
      AllBytes(records[..j]), RecordHeader(records[j].payload), records[j].payload, AllBytes(records[j + 1..]);
    AllBytesAround(records, j);
    Associative(head, payload, after);
    Associative(before, head, payload + after);
    PatchedWithin(before + head, payload, after, at, patch);
    Associative(before, head, Patched(payload, at, patch) + after);
    Associative(head, Patched(payload, at, patch), after);
  }

  /** A blob with such a change in a payload, at bytes of the open block, is refused. */
  lemma DamagedTailRefused(h: BlobHeader, log: Log, records: seq<StreamRecord>, j: nat, at: nat, patch: bytes)
    requires HeaderFits(h) && Layout(h, log, records) && (log.prev == 0 || log.sealed == []) && Short(records)
    requires j < |records| && Burst(records[j].payload, at, patch)
    requires PayloadAt(records, j, at) >= |Flat(log.sealed)|
    ensures var from := PayloadAt(records, j, at) - |Flat(log.sealed)|;
      && from + |patch| <= |log.tail|
      && ReadBlob(HeaderBlock(h) + (Blocks(log.sealed) + Patched(log.tail, from, patch))) == Err(RecordChecksum)
  {
    hide *;
    LayoutHolds(h, log, records);
    BurstFits(records[j].payload, at, patch);
    PatchedRecords(records, j, at, patch);
    var flat, from := Flat(log.sealed), PayloadAt(records, j, at) - |Flat(log.sealed)|;
    assert from + |patch| <= |log.tail|;
    var tail := Patched(log.tail, from, patch);
    PatchedWithin(flat, log.tail, [], from, patch);
    assert log.tail + [] == log.tail && tail + [] == tail;
    ShortBefore(records, j);
    DamagedRecordRefused(records[..j], records[j].payload, at, patch, AllBytes(records[j + 1..]), 0);
    PatchedTailStrips(log, tail);
    BodyWithBadRecords(h, log, tail);
    ReadsBody(h, Blocks(log.sealed) + tail);
  }

  lemma LayoutHolds(h: BlobHeader, log: Log, records: seq<StreamRecord>)
    requires Layout(h, log, records)
    ensures Sound(log) && h.startOffset % BLOCK_SIZE == 0 && log.start == h.startOffset == Finished(h).startOffset
    ensures Flat(log.sealed) + log.tail == AllBytes(records)
    ensures forall b <- log.sealed :: Closed(b)
  {
    hide BlobProto;
  }

  lemma BurstFits(s: bytes, at: nat, patch: bytes)
    requires Burst(s, at, patch)
    ensures at + |patch| <= |s|
  {
  }

  lemma ShortBefore(records: seq<StreamRecord>, j: nat)
    requires Short(records) && j < |records|
    ensures Short(records[..j]) && |records[j].payload| < U32_LIMIT
  {
    assert records[j] in records;
  }

  lemma PatchedTailStrips(log: Log, tail: bytes)
    requires Sound(log) && (log.prev == 0 || log.sealed == []) && |tail| == |log.tail|
    ensures forall b <- log.sealed :: Closed(b)
    ensures Strip(Blocks(log.sealed) + tail, log.start) == Ok(Stripped(log.sealed, tail))
  {
    hide Strip;
    hide Closed;
    hide Blocks;
    hide StreamCrc;
    var other := log.(tail := tail);
    assert Sound(other) by {
      assert forall i :: 0 <= i < |log.sealed| ==> Seed(other, i) == Seed(log, i);
    }
    StripsLog(other);
  }

  lemma BodyWithBadRecords(h: BlobHeader, log: Log, tail: bytes)
    requires (forall b <- log.sealed :: Closed(b)) && log.start == Finished(h).startOffset
    requires Strip(Blocks(log.sealed) + tail, log.start) == Ok(Stripped(log.sealed, tail))
    requires ReadRecords(Flat(log.sealed) + tail, 0) == Err(RecordChecksum)
    ensures ReadBody(Finished(h), Blocks(log.sealed) + tail) == Err(RecordChecksum)
  {
    hide Strip;
    hide ReadRecords;
    hide Finished;
    hide Closed;
    hide Blocks;
  }
}
