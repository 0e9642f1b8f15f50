/**
 What the stream reader makes of any header block, any block and any record, whoever wrote them: the layout with its
 numbers written out, and every check in its place.
 */
module StreamShapes {
  import opened Bytes
  import opened Protobuf
  import opened Checksum
  import opened StreamMessages
  import opened StreamFormat
  import opened StreamRoundTrip

  // ---- The header block ----

  lemma RoundedUp(need: nat)
    ensures need <= AlignUp(need, 131072) < need + 131072 && AlignUp(need, 131072) == (need + 131071) / 131072 * 131072
  {
  }

  /** What is left of a block after an offset, as a number of whole blocks. */
  lemma LeftOfBlock(offset: nat)
    ensures var left := (131072 - offset % 131072) % 131072;
      0 <= left < 131072 && offset + left == 131072 * ((offset + left) / 131072)
  {
    var x := offset % 131072;
    assert offset == 131072 * (offset / 131072) + x;
    if x > 0 {
      assert offset + (131072 - x) == 131072 * (offset / 131072 + 1);
    }
  }

  lemma WholeBlocksApart(a: int, b: int)
    ensures (131072 * a - 131072 * b) % 131072 == 0
  {
    assert 131072 * a - 131072 * b == 131072 * (a - b);
  }

  /** The header block is the shortest that holds the header and ends where data at `startOffset` can begin. */
  lemma HeaderBlockEndsBlock(protoSize: nat, startOffset: nat)
    ensures var size := HeaderBlockSize(protoSize, startOffset);
      protoSize + 8 <= size < protoSize + 8 + 131072 && (size - startOffset) % 131072 == 0
  {
    var left := (131072 - startOffset % 131072) % 131072;
    LeftOfBlock(startOffset);
    RoundedUp(protoSize + 8 + left);
    assert HeaderBlockSize(protoSize, startOffset) == AlignUp(protoSize + 8 + left, 131072) - left;
    hide *;
    WholeBlocksApart((protoSize + 8 + left + 131071) / 131072, (startOffset + left) / 131072);
  }

  lemma Le32Digits(n: nat, rest: bytes)
    requires n < U32_LIMIT
    ensures Le32((LittleEndian(n, 4) + rest)[..4]) == n
  {
    assert (LittleEndian(n, 4) + rest)[..4] == LittleEndian(n, 4);
    Le32RoundTrip(n);
  }

  /** Any four-byte size, stored checksum, message of that size, and whatever follows. */
  lemma HeaderReads(message: bytes, stored: u32, rest: bytes)
    requires |message| < U32_LIMIT
    ensures ReadHeader(LittleEndian(|message|, 4) + (LittleEndian(stored, 4) + (message + rest))) ==
      if StreamCrc(0, message) != stored then Err(HeaderChecksum)
      else
        match DecodeBlobHeader(message)
        case None => Err(BadHeader)
        case Some(h) =>
          if h.magic != 0xBCBC_BCBC_6666_6666 then Err(HeaderMagic)
          else if h.headerSize != |message| then Err(HeaderSizeDiffers)
          else if h.startOffset % 131072 != 0 then Err(Misaligned)
          else Ok(h)
  {
    hide StreamCrc;
    hide DecodeBlobHeader;
    hide LittleEndian;
    hide Le32;
    var s := LittleEndian(|message|, 4) + (LittleEndian(stored, 4) + (message + rest));
    Le32Digits(|message|, LittleEndian(stored, 4) + (message + rest));
    Le32RoundTrip(stored);
    assert s[4..8] == LittleEndian(stored, 4);
    assert s[8..8 + |message|] == message;
  }

  /** Fewer than eight bytes, or fewer than the stated size. */
  lemma ShortHeaderRefused(s: bytes)
    ensures |s| < 8 ==> ReadBlob(s) == Err(BlobTooShort)
    ensures |s| >= 8 && 8 + LittleEndianValue(s[..4]) > |s| ==> ReadBlob(s) == Err(HeaderPastEnd)
  {
  }

  /** A header that reads is followed by its block's padding and the data region, or by nothing that is one. */
  lemma BlobReads(s: bytes)
    requires ReadHeader(s).Ok?
    ensures var h := ReadHeader(s).value;
      var size := HeaderBlockSize(h.headerSize, h.startOffset);
      if |s| < size then ReadBlob(s) == Err(NoDataRegion) else size >= 8 && ReadBlob(s) == ReadBody(h, s[size..])
  {
    hide ReadHeader;
    hide ReadBody;
    hide HeaderBlockSize;
    HeaderBlockHoldsHeader(ReadHeader(s).value.headerSize, ReadHeader(s).value.startOffset);
  }

  /** The header block as bytes. */
  lemma HeaderBlockBytes(h: BlobHeader)
    requires HeaderFits(h)
    ensures var message := BlobProto(Finished(h));
      && |message| < U32_LIMIT && |message| + 8 <= |HeaderBlock(h)|
      && HeaderBlock(h)
         == LittleEndian(|message|, 4)
            + (LittleEndian(StreamCrc(0, message), 4) + (message + Zeros(|HeaderBlock(h)| - 8 - |message|)))
  {
    hide StreamCrc;
    hide BlobProto;
    hide HeaderBlockSize;
    FinishedSize(h);
    HeaderBlockParts(h, []);
    assert HeaderBlock(h) + [] == HeaderBlock(h);
  }

  /** A writer sets three fields of the header and keeps the rest; the size is that of the message it stands in. */
  lemma FinishedIs(h: BlobHeader)
    ensures var f := Finished(h);
      && f == h.(magic := 0xBCBC_BCBC_6666_6666, version := 1, headerSize := f.headerSize)
      && (HeaderFits(h) ==> f.headerSize == |BlobProto(f)|)
  {
    hide BlobProto;
    if HeaderFits(h) {
      FinishedSize(h);
    }
  }

  /** What was written: that header, the records, and the footers of the closed blocks. */
  lemma WrittenIs(h: BlobHeader, log: Log, records: seq<StreamRecord>)
    ensures var w := Written(h, log, records);
      && w.header == h.(magic := 0xBCBC_BCBC_6666_6666, version := 1, headerSize := w.header.headerSize)
      && w.records == records && |w.footers| == |log.sealed|
      && forall i :: 0 <= i < |log.sealed| ==> w.footers[i] == log.sealed[i].footer
  {
    hide Finished;
    FinishedIs(h);
  }

  /** A message with another magic, under its right checksum, is refused. */
  lemma OtherMagicRefused(h: BlobHeader, rest: bytes)
    requires h.magic != 0xBCBC_BCBC_6666_6666 && |BlobProto(h)| < U32_LIMIT
    ensures var message := BlobProto(h);
      ReadBlob(LittleEndian(|message|, 4) + (LittleEndian(StreamCrc(0, message), 4) + (message + rest)))
      == Err(HeaderMagic)
  {
    hide ReadHeader;
    hide BlobProto;
    hide StreamCrc;
    HeaderReads(BlobProto(h), StreamCrc(0, BlobProto(h)), rest);
    BlobHeaderRoundTrip(h);
  }

  // ---- One block ----

  lemma Ends(front: bytes, message: bytes, size: bytes, crc: bytes)
    requires |size| == 4 && |crc| == 4
    ensures var slot := front + (message + (size + crc));
      var n := |slot|;
      slot[n - 8..n - 4] == size && slot[n - 4..] == crc && slot[n - 8 - |message|..n - 8] == message
  {
  }

  /** A block whose last eight bytes are a size and a checksum, with a message of that size before them. */
  lemma FooterReadsAs(front: bytes, message: bytes, stored: u32)
    requires |front| + |message| + 8 == 131072
    ensures ReadFooter(front + (message + (LittleEndian(|message|, 4) + LittleEndian(stored, 4)))) ==
      if |message| > 120 then Err(FooterTooLong)
      else if StreamCrc(0, message) != stored then Err(FooterChecksum)
      else
        match DecodeFooter(message)
        case None => Err(BadFooter)
        case Some(f) => if f.magic != 0xBCBC_BCBC_6666_6666 then Err(FooterMagic) else Ok(f)
  {
    hide StreamCrc;
    hide DecodeFooter;
    hide LittleEndian;
    hide Le32;
    Ends(front, message, LittleEndian(|message|, 4), LittleEndian(stored, 4));
    Le32RoundTrip(|message|);
    Le32RoundTrip(stored);
  }

  /** A size larger than the slot is refused, whatever the block holds. */
  lemma LargeFooterRefused(slot: bytes)
    requires |slot| == 131072 && LittleEndianValue(slot[131064..131068]) > 120
    ensures ReadBlock(slot) == Err(FooterTooLong)
  {
    hide DecodeFooter;
  }

  /** With a footer that reads, the block is its first bytes, if they are inside the data area and the checksum agrees. */
  lemma BlockReadsAs(slot: bytes)
    requires |slot| == 131072
    ensures ReadBlock(slot) ==
      match ReadFooter(slot)
      case Err(e) => Err(e)
      case Ok(f) =>
        if f.blockEnd > 130944 then Err(BlockEndPastData)
        else if StreamCrc(0, slot[..f.blockEnd]) != f.blockCrc then Err(BlockChecksum)
        else Ok(Sealed(slot[..f.blockEnd], f))
  {
    hide ReadFooter;
    hide StreamCrc;
  }

  /** The block as bytes. */
  lemma BlockIs(b: Sealed)
    requires Closed(b)
    ensures var message := FooterProto(b.footer);
      && |message| <= 120
      && BlockBytes(b)
         == b.data + Zeros(131064 - |b.data| - |message|)
            + (message + (LittleEndian(|message|, 4) + LittleEndian(StreamCrc(0, message), 4)))
  {
    hide StreamCrc;
    hide FooterProto;
    hide LittleEndian;
    var message := FooterProto(b.footer);
    var trailer := LittleEndian(|message|, 4) + LittleEndian(StreamCrc(0, message), 4);
    var y, z := Zeros(130944 - |b.data|), Zeros(120 - |message|);
    assert y + z == Zeros(131064 - |b.data| - |message|);
    assert BlockBytes(b) == b.data + y + (z + message + trailer);
    assert b.data + y + (z + message + trailer) == b.data + (y + z) + (message + trailer);
  }

  // ---- One record ----

  /** The value of base-128 digits, lowest first, whatever their top bits. */
  ghost function Digits(v: bytes): nat {
    if v == [] then 0 else v[0] % 128 + 128 * Digits(v[1..])
  }

  /** One to `most` bytes, each but the last with its top bit set. */
  ghost predicate Continued(v: bytes, most: nat) {
    0 < |v| <= most && v[|v| - 1] < 128 && forall i :: 0 <= i < |v| - 1 ==> v[i] >= 128
  }

  lemma {:induction false} VarintReads(v: bytes, rest: bytes, room: nat)
    requires Continued(v, room)
    ensures ReadVarint32(v + rest, room) == Parsed(Digits(v), rest)
    decreases room
  {
    var s := v + rest;
    assert s[0] == v[0];
    if |v| == 1 {
      assert s[1..] == rest && v[1..] == [];
    } else {
      assert s[1..] == v[1..] + rest;
      VarintReads(v[1..], rest, room - 1);
    }
  }

  /** A length is up to five such bytes, of which thirty-two bits count. */
  lemma LengthReadsAs(v: bytes, rest: bytes)
    requires Continued(v, 5)
    ensures ReadLength(v + rest) == Parsed(Digits(v) % 0x1_0000_0000, rest)
  {
    VarintReads(v, rest, 5);
  }

  /** Five bytes that all continue, or an end before the last byte, is no length. */
  lemma {:induction false} NoVarint(s: bytes, room: nat)
    requires room > 0 && forall i :: 0 <= i < |s| && i < room ==> s[i] >= 128
    ensures ReadVarint32(s, room) == Malformed
    decreases room
  {
    if s != [] && room > 1 {
      NoVarint(s[1..], room - 1);
    }
  }

  lemma NoLength(s: bytes)
    requires forall i :: 0 <= i < |s| && i < 5 ==> s[i] >= 128
    ensures ReadLength(s) == Malformed
  {
    NoVarint(s, 5);
  }

  /** Records are read one by one: a length, four bytes of checksum, and that many bytes of payload. */
  lemma RecordReadsAs(v: bytes, stored: u32, payload: bytes, rest: bytes, at: nat)
    requires Continued(v, 5) && Digits(v) % 0x1_0000_0000 == |payload|
    ensures var s := v + (LittleEndian(stored, 4) + (payload + rest));
      ReadRecords(s, at) ==
      if StreamCrc(0, payload) != stored then Err(RecordChecksum)
      else
        match ReadRecords(rest, at + |v| + 4 + |payload|)
        case Err(e) => Err(e)
        case Ok(more) => Ok([Found(at, payload)] + more)
  {
    hide StreamCrc;
    hide ReadLength;
    hide LittleEndian;
    hide Le32;
    var after := LittleEndian(stored, 4) + (payload + rest);
    LengthReadsAs(v, after);
    Le32RoundTrip(stored);
    assert after[..4] == LittleEndian(stored, 4);
    assert after[4..4 + |payload|] == payload && after[4 + |payload|..] == rest;
  }

  /** Bytes that start with no length are an error; a length that reaches past the end is where the records stop. */
  lemma RecordsStop(v: bytes, rest: bytes, at: nat)
    ensures ReadRecords([], at) == Ok([])
    ensures rest != [] && (forall i :: 0 <= i < |rest| && i < 5 ==> rest[i] >= 128) ==>
      ReadRecords(rest, at) == Err(TruncatedRecordHeader)
    ensures Continued(v, 5) && 4 + Digits(v) % 0x1_0000_0000 > |rest| ==> ReadRecords(v + rest, at) == Ok([])
  {
    hide ReadLength;
    hide StreamCrc;
    if rest != [] && forall i :: 0 <= i < |rest| && i < 5 ==> rest[i] >= 128 {
      NoLength(rest);
    }
    if Continued(v, 5) {
      LengthReadsAs(v, rest);
    }
  }
}
