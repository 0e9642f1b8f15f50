/** Reads a whole blob in two passes: strip the footers, then cut the logical stream into records. */
module StreamReader {
  import opened Bytes
  import opened Protobuf
  import opened Checksum
  import opened StreamMessages
  import opened StreamFormat

  // ---- From data offsets to stream offsets ----

  datatype BlockStart = BlockStart(logical: nat, stream: nat)

  /** How many entries from the front start at or before `at`. */
  function PartitionPoint(starts: seq<BlockStart>, at: nat): (p: nat)
    ensures p <= |starts|
  {
    if starts == [] || starts[0].logical > at then 0 else 1 + PartitionPoint(starts[1..], at)
  }

  /** One entry per filled block, and one for the open block when there is one. */
  ghost function StartsOf(sealed: seq<Sealed>, open: bool, logical: nat, stream: nat): seq<BlockStart> {
    if sealed == [] then (if open then [BlockStart(logical, stream)] else [])
    else
      [BlockStart(logical, stream)]
      + StartsOf(sealed[1..], open, logical + |sealed[0].data|, stream + BLOCK_SIZE)
  }

  lemma StartsOfCons(sealed: seq<Sealed>, open: bool, logical: nat, stream: nat)
    requires sealed != []
    ensures StartsOf(sealed, open, logical, stream)
         == [BlockStart(logical, stream)]
            + StartsOf(sealed[1..], open, logical + |sealed[0].data|, stream + BLOCK_SIZE)
  {
  }

  lemma StartsOfFirst(sealed: seq<Sealed>, open: bool, logical: nat, stream: nat)
    ensures var starts := StartsOf(sealed, open, logical, stream); starts == [] || starts[0].logical == logical
  {
  }

  lemma {:induction false} StartsOfAppend(sealed: seq<Sealed>, b: Sealed, logical: nat, stream: nat)
    ensures StartsOf(sealed + [b], false, logical, stream)
         == StartsOf(sealed, false, logical, stream)
            + [BlockStart(logical + |Flat(sealed)|, stream + |sealed| * BLOCK_SIZE)]
    decreases |sealed|
  {
    if sealed == [] {
      assert sealed + [b] == [b];
      assert StartsOf([b][1..], false, logical + |b.data|, stream + BLOCK_SIZE) == [];
    } else {
      var first, rest := sealed[0], sealed[1..];
      var logical', stream' := logical + |first.data|, stream + BLOCK_SIZE;
      assert (sealed + [b])[0] == first && (sealed + [b])[1..] == rest + [b];
      StartsOfAppend(rest, b, logical', stream');
      StartsOfCons(sealed + [b], false, logical, stream);
      StartsOfCons(sealed, false, logical, stream);
      assert logical' + |Flat(rest)| == logical + |Flat(sealed)|;
      assert stream' + |rest| * BLOCK_SIZE == stream + |sealed| * BLOCK_SIZE;
    }
  }

  lemma {:induction false} StartsOfOpen(sealed: seq<Sealed>, logical: nat, stream: nat)
    ensures StartsOf(sealed, true, logical, stream)
         == StartsOf(sealed, false, logical, stream)
            + [BlockStart(logical + |Flat(sealed)|, stream + |sealed| * BLOCK_SIZE)]
    decreases |sealed|
  {
    if sealed != [] {
      StartsOfOpen(sealed[1..], logical + |sealed[0].data|, stream + BLOCK_SIZE);
    }
  }

  /** The last entry that starts at or before `at`, and what it says the stream offset is. */
  ghost predicate Finds(starts: seq<BlockStart>, at: nat, id: nat) {
    var p := PartitionPoint(starts, at);
    p > 0 && starts[p - 1].logical <= at && starts[p - 1].stream + (at - starts[p - 1].logical) == id
  }

  lemma FindsInFirst(first: BlockStart, rest: seq<BlockStart>, at: nat)
    requires first.logical <= at && (rest == [] || at < rest[0].logical)
    ensures Finds([first] + rest, at, first.stream + (at - first.logical))
  {
    assert ([first] + rest)[1..] == rest;
  }

  lemma FindsInRest(first: BlockStart, rest: seq<BlockStart>, at: nat, id: nat)
    requires first.logical <= at && Finds(rest, at, id)
    ensures Finds([first] + rest, at, id)
  {
    var starts := [first] + rest;
    assert starts[1..] == rest;
    var p := PartitionPoint(rest, at);
    assert PartitionPoint(starts, at) == 1 + p && starts[p] == rest[p - 1];
  }

  lemma {:induction false} FindsBlock(sealed: seq<Sealed>, open: bool, logical: nat, stream: nat, at: nat)
    requires logical <= at && (at < logical + |Flat(sealed)| || open)
    ensures Finds(StartsOf(sealed, open, logical, stream), at, IdAt(sealed, stream, at - logical))
    decreases |sealed|
  {
    hide Finds;
    if sealed == [] {
      assert StartsOf(sealed, open, logical, stream) == [BlockStart(logical, stream)] + [];
      FindsInFirst(BlockStart(logical, stream), [], at);
    } else {
      hide StartsOf;
      var logical', stream' := logical + |sealed[0].data|, stream + BLOCK_SIZE;
      var next := StartsOf(sealed[1..], open, logical', stream');
      StartsOfCons(sealed, open, logical, stream);
      if at >= logical' {
        FindsBlock(sealed[1..], open, logical', stream', at);
        FindsInRest(BlockStart(logical, stream), next, at, IdAt(sealed, stream, at - logical));
      } else {
        StartsOfFirst(sealed[1..], open, logical', stream');
        FindsInFirst(BlockStart(logical, stream), next, at);
      }
    }
  }

  // ---- Pass one ----

  ghost function Prepend(sealed: seq<Sealed>, r: Result<Stripped, Error>): Result<Stripped, Error> {
    match r
    case Err(e) => Err(e)
    case Ok(more) => Ok(Stripped(sealed + more.sealed, more.tail))
  }

  datatype FirstPass = FirstPass(logical: bytes, starts: seq<BlockStart>, footers: seq<BlockFooter>)

  ghost predicate Passed(pass: FirstPass, sealed: seq<Sealed>, tail: bytes, start: nat) {
    && pass.logical == Flat(sealed) + tail
    && pass.footers == Footers(sealed)
    && pass.starts == StartsOf(sealed, tail != [], 0, start)
  }

  lemma PassesBlock(pass: FirstPass, sealed: seq<Sealed>, b: Sealed, start: nat)
    requires Passed(pass, sealed, [], start)
    ensures Passed(
      FirstPass(
        pass.logical + b.data, pass.starts + [BlockStart(|pass.logical|, start + |sealed| * BLOCK_SIZE)],
        pass.footers + [b.footer]),
      sealed + [b], [], start)
  {
    StartsOfAppend(sealed, b, 0, start);
    FlatAppend(sealed, b);
    assert Footers(sealed + [b]) == Footers(sealed) + [b.footer];
  }

  method StripFooters(body: bytes, start: nat) returns (r: Result<FirstPass, Error>, ghost stripped: Stripped)
    ensures r.Ok? <==> Strip(body, start).Ok?
    ensures r.Ok? ==> Strip(body, start) == Ok(stripped) && Passed(r.value, stripped.sealed, stripped.tail, start)
    ensures r.Err? ==> Strip(body, start) == Err(r.error)
  {
    hide ReadBlock;
    hide Passed;
    var pass := FirstPass([], [], []);
    var fullBlocks := |body| / BLOCK_SIZE;
    ghost var sealed: seq<Sealed> := [];
    stripped := Stripped([], []);
    NothingPassed(start);
    StartOfStrip(body, start);
    for block := 0 to fullBlocks
      invariant |sealed| == block && block * BLOCK_SIZE <= |body|
      invariant Passed(pass, sealed, [], start)
      invariant Strip(body, start) == Prepend(sealed, Strip(body[block * BLOCK_SIZE..], start + block * BLOCK_SIZE))
    {
      var slot := body[block * BLOCK_SIZE..(block + 1) * BLOCK_SIZE];
      StripStep(body, sealed, block, start);
      if start + block * BLOCK_SIZE >= U64_LIMIT {
        return Err(OffsetOverflow), stripped;
      }
      var read := ReadBlock(slot);
      if read.Err? {
        return Err(read.error), stripped;
      }
      LogicalLength(pass, sealed, start);
      PassesBlock(pass, sealed, read.value, start);
      pass := FirstPass(
        pass.logical + read.value.data,
        pass.starts + [BlockStart(|pass.logical|, start + block * BLOCK_SIZE)],
        pass.footers + [read.value.footer]);
      sealed := sealed + [read.value];
    }
    var tail := body[fullBlocks * BLOCK_SIZE..];
    stripped := Stripped(sealed, tail);
    assert sealed + [] == sealed;
    if tail != [] {
      if start + fullBlocks * BLOCK_SIZE >= U64_LIMIT {
        return Err(OffsetOverflow), stripped;
      }
      PassesTail(pass, sealed, tail, start);
      pass := pass.(
        starts := pass.starts + [BlockStart(|pass.logical|, start + fullBlocks * BLOCK_SIZE)],
        logical := pass.logical + tail);
    }
    r := Ok(pass);
  }

  lemma NothingPassed(start: nat)
    ensures Passed(FirstPass([], [], []), [], [], start)
  {
    assert Flat([]) + [] == [];
  }

  lemma LogicalLength(pass: FirstPass, sealed: seq<Sealed>, start: nat)
    requires Passed(pass, sealed, [], start)
    ensures |pass.logical| == |Flat(sealed)|
  {
  }

  lemma PassesTail(pass: FirstPass, sealed: seq<Sealed>, tail: bytes, start: nat)
    requires Passed(pass, sealed, [], start) && tail != []
    ensures Passed(
      pass.(
        starts := pass.starts + [BlockStart(|pass.logical|, start + |sealed| * BLOCK_SIZE)],
        logical := pass.logical + tail),
      sealed, tail, start)
  {
    StartsOfOpen(sealed, 0, start);
    assert Flat(sealed) + [] == Flat(sealed);
  }

  lemma StartOfStrip(body: bytes, start: nat)
    ensures Strip(body, start) == Prepend([], Strip(body[0 * BLOCK_SIZE..], start + 0 * BLOCK_SIZE))
  {
    assert body[0 * BLOCK_SIZE..] == body;
    var r := Strip(body, start);
    if r.Ok? {
      assert [] + r.value.sealed == r.value.sealed;
    }
  }

  lemma StripUnfolds(rest: bytes, start: nat)
    requires |rest| >= BLOCK_SIZE
    ensures Strip(rest, start) ==
      if start >= U64_LIMIT then Err(OffsetOverflow)
      else
        match ReadBlock(rest[..BLOCK_SIZE])
        case Err(e) => Err(e)
        case Ok(b) => Prepend([b], Strip(rest[BLOCK_SIZE..], start + BLOCK_SIZE))
  {
    hide ReadBlock;
  }

  lemma PrependTwice(a: seq<Sealed>, b: Sealed, r: Result<Stripped, Error>)
    ensures Prepend(a, Prepend([b], r)) == Prepend(a + [b], r)
  {
    if r.Ok? {
      assert a + ([b] + r.value.sealed) == a + [b] + r.value.sealed;
    }
  }

  lemma StripStep(body: bytes, sealed: seq<Sealed>, block: nat, start: nat)
    requires (block + 1) * BLOCK_SIZE <= |body|
    requires Strip(body, start) == Prepend(sealed, Strip(body[block * BLOCK_SIZE..], start + block * BLOCK_SIZE))
    ensures var slot := body[block * BLOCK_SIZE..(block + 1) * BLOCK_SIZE];
      Strip(body, start) ==
      if start + block * BLOCK_SIZE >= U64_LIMIT then Err(OffsetOverflow)
      else
        match ReadBlock(slot)
        case Err(e) => Err(e)
        case Ok(b) => Prepend(sealed + [b], Strip(body[(block + 1) * BLOCK_SIZE..], start + (block + 1) * BLOCK_SIZE))
  {
    hide ReadBlock;
    hide Strip;
    hide Prepend;
    var rest := body[block * BLOCK_SIZE..];
    var slot := body[block * BLOCK_SIZE..(block + 1) * BLOCK_SIZE];
    assert rest[..BLOCK_SIZE] == slot;
    assert rest[BLOCK_SIZE..] == body[(block + 1) * BLOCK_SIZE..];
    var at := start + block * BLOCK_SIZE;
    StripUnfolds(rest, at);
    if at >= U64_LIMIT {
      PrependError(sealed, OffsetOverflow);
    } else if ReadBlock(slot).Ok? {
      PrependTwice(sealed, ReadBlock(slot).value, Strip(rest[BLOCK_SIZE..], at + BLOCK_SIZE));
    } else {
      PrependError(sealed, ReadBlock(slot).error);
    }
  }

  lemma PrependError(sealed: seq<Sealed>, e: Error)
    ensures Prepend(sealed, Err(e)) == Err(e)
  {
  }

  // ---- Pass two ----

  lemma RecordStep(s: bytes, at: nat, found: seq<Found>, length: nat, afterLength: nat)
    requires at < |s| && at <= afterLength <= |s| && ReadLength(s[at..]) == Parsed(length, s[afterLength..])
    requires afterLength + 4 + length <= |s|
    requires ReadRecords(s, 0) == PrependFound(found, ReadRecords(s[at..], at))
    ensures var crcEnd := afterLength + 4;
      var payload := s[crcEnd..crcEnd + length];
      ReadRecords(s, 0) ==
      if StreamCrc(0, payload) != Le32(s[afterLength..crcEnd]) then Err(RecordChecksum)
      else PrependFound(found + [Found(at, payload)], ReadRecords(s[crcEnd + length..], crcEnd + length))
  {
    hide StreamCrc;
    hide ReadLength;
    var crcEnd := afterLength + 4;
    var rest := s[afterLength..];
    assert rest[4..4 + length] == s[crcEnd..crcEnd + length];
    assert rest[..4] == s[afterLength..crcEnd];
    assert rest[4 + length..] == s[crcEnd + length..];
    var more := ReadRecords(s[crcEnd + length..], crcEnd + length);
    if more.Ok? {
      var one := Found(at, s[crcEnd..crcEnd + length]);
      assert found + ([one] + more.value) == found + [one] + more.value;
    }
  }

  /** What is read after `value` has been, with each further unit worth `unit`. */
  function Continued(value: nat, unit: nat, r: Parsed<nat>): Parsed<nat> {
    match r
    case Malformed => Malformed
    case Parsed(high, rest) => Parsed(value + unit * high, rest)
  }

  lemma ShiftValues()
    ensures Pow2(0) == 1 && Pow2(7) == 0x80 && Pow2(14) == 0x4000 && Pow2(21) == 0x20_0000 && Pow2(28) == 0x1000_0000
  {
    assert Pow2(7) == 128;
    Pow2Adds(7, 7);
    Pow2Adds(7, 14);
    Pow2Adds(7, 21);
  }

  /** The bits of a byte put above those read so far; the two do not meet, so joining them is adding. */
  function Joined(value: nat, unit: nat, b: byte): nat {
    value + b % 128 * unit % U32_LIMIT
  }

  /** The first four bytes stay below thirty-two bits. */
  lemma JoinedLow(value: nat, unit: nat, b: byte)
    requires value < unit && 128 * unit <= U32_LIMIT
    ensures value + unit * (b % 128) == Joined(value, unit, b) < 128 * unit
  {
    LowProduct(b % 128, unit);
    BelowLimit(b % 128 * unit);
  }

  lemma LowProduct(low: nat, unit: nat)
    requires low <= 127
    ensures 0 <= low * unit == unit * low <= 127 * unit
  {
    assert (127 - low) * unit >= 0;
    assert (127 - low) * unit == 127 * unit - low * unit;
  }

  lemma BelowLimit(n: nat)
    requires n < U32_LIMIT
    ensures n % U32_LIMIT == n
  {
  }

  /** Of the fifth, three bits are lost. */
  lemma JoinedHigh(value: nat, b: byte)
    requires value < 0x1000_0000
    ensures (value + 0x1000_0000 * (b % 128)) % U32_LIMIT == Joined(value, 0x1000_0000, b)
  {
    var high, low := b % 128 / 16, b % 128 % 16;
    assert b % 128 * 0x1000_0000 == high * U32_LIMIT + low * 0x1000_0000;
  }

  lemma JoinedBits(value: nat, unit: nat, b: byte)
    requires value < unit && unit in {1, 0x80, 0x4000, 0x20_0000, 0x1000_0000}
    ensures (value + unit * (b % 128)) % U32_LIMIT == Joined(value, unit, b)
    ensures unit < 0x1000_0000 ==> value + unit * (b % 128) == Joined(value, unit, b) < 128 * unit
  {
    hide Joined;
    if unit == 0x1000_0000 {
      JoinedHigh(value, b);
    } else {
      assert unit <= 0x20_0000;
      JoinedLow(value, unit, b);
    }
  }

  /** Seven more bits of a length. */
  lemma JoinMore(s: bytes, room: nat, value: nat, unit: nat)
    requires room > 1 && s != [] && s[0] >= 128 && value < unit && unit in {1, 0x80, 0x4000, 0x20_0000}
    ensures Continued(value, unit, ReadVarint32(s, room))
         == Continued(Joined(value, unit, s[0]), 128 * unit, ReadVarint32(s[1..], room - 1))
    ensures Joined(value, unit, s[0]) < 128 * unit
  {
    hide Joined;
    JoinedBits(value, unit, s[0]);
    var more := ReadVarint32(s[1..], room - 1);
    if more.Parsed? {
      Regroup(unit, s[0] - 128, more.value);
    }
  }

  lemma Regroup(unit: nat, low: nat, high: nat)
    ensures unit * (low + 128 * high) == unit * low + 128 * unit * high
  {
  }

  lemma JoinLast(s: bytes, room: nat, value: nat, unit: nat)
    requires room > 0 && s != [] && s[0] < 128
    requires value < unit && unit in {1, 0x80, 0x4000, 0x20_0000, 0x1000_0000}
    ensures var r := Continued(value, unit, ReadVarint32(s, room));
      r.Parsed? && r.value % U32_LIMIT == Joined(value, unit, s[0]) && r.rest == s[1..]
  {
    hide Joined;
    JoinedBits(value, unit, s[0]);
  }

  /**
   The length at `at`, and where it ends: seven bits a byte, the low ones first. Bits shifted past the
   thirty-second are lost, and a fifth byte must be the last.
   */
  method ReadLengthAt(s: bytes, at: nat) returns (length: nat, after: nat, ok: bool)
    requires at <= |s|
    ensures ok <==> ReadLength(s[at..]).Parsed?
    ensures ok ==> at < after <= |s| && ReadLength(s[at..]) == Parsed(length, s[after..])
  {
    hide Pow2;
    hide Joined;
    ShiftValues();
    var value: nat, shift: nat, i: nat := 0, 0, at;
    assert Continued(0, 1, ReadVarint32(s[at..], 5)) == ReadVarint32(s[at..], 5);
    while true
      invariant at <= i <= |s| && shift == 7 * (i - at) && shift in {0, 7, 14, 21, 28}
      invariant value < Pow2(shift)
      invariant ReadVarint32(s[at..], 5) == Continued(value, Pow2(shift), ReadVarint32(s[i..], 5 - (i - at)))
      decreases |s| - i
    {
      if i >= |s| {
        return value, i, false;
      }
      var b := s[i];
      ghost var rest, room, before := s[i..], 5 - (i - at), value;
      assert rest[0] == b && rest[1..] == s[i + 1..];
      i := i + 1;
      value := Joined(value, Pow2(shift), b);
      if b < 128 {
        JoinLast(rest, room, before, Pow2(shift));
        return value, i, true;
      }
      shift := shift + 7;
      if shift > 28 {
        return value, i, false;
      }
      JoinMore(rest, room, before, Pow2(shift - 7));
    }
  }

  method CutRecords(pass: FirstPass, ghost stripped: Stripped, start: nat)
    returns (r: Result<seq<StreamRecord>, Error>, ghost found: seq<Found>)
    requires Passed(pass, stripped.sealed, stripped.tail, start)
    ensures r.Err? ==> ReadRecords(pass.logical, 0) == Err(r.error)
    ensures r.Ok? ==> ReadRecords(pass.logical, 0) == Ok(found) && r.value == Locate(stripped.sealed, start, found)
  {
    hide StreamCrc;
    hide ReadLength;
    var logical := pass.logical;
    var records: seq<StreamRecord> := [];
    found := [];
    var at := 0;
    assert logical[0..] == logical;
    StartOfRecords(logical);
    while at < |logical|
      invariant 0 <= at <= |logical|
      invariant ReadRecords(logical, 0) == PrependFound(found, ReadRecords(logical[at..], at))
      invariant records == Locate(stripped.sealed, start, found)
      decreases |logical| - at
    {
      var length, afterLength, ok := ReadLengthAt(logical, at);
      if !ok {
        return Err(TruncatedRecordHeader), found;
      }
      var crcEnd := afterLength + 4;
      var payloadEnd := crcEnd + length;
      if payloadEnd > |logical| {
        // The rest of this record was never written.
        assert ReadRecords(logical[at..], at) == Ok([]);
        assert found + [] == found;
        return Ok(records), found;
      }
      var stored := Le32(logical[afterLength..crcEnd]);
      var payload := logical[crcEnd..payloadEnd];
      RecordStep(logical, at, found, length, afterLength);
      if StreamCrc(0, payload) != stored {
        return Err(RecordChecksum), found;
      }
      var id := FindId(pass, stripped, start, at);
      records := records + [StreamRecord(id, payload)];
      found := found + [Found(at, payload)];
      at := payloadEnd;
    }
    assert logical[at..] == [] && found + [] == found;
    r := Ok(records);
  }

  method FindId(pass: FirstPass, ghost stripped: Stripped, start: nat, at: nat) returns (id: nat)
    requires Passed(pass, stripped.sealed, stripped.tail, start) && at < |pass.logical|
    ensures id == IdAt(stripped.sealed, start, at)
  {
    FindsBlock(stripped.sealed, stripped.tail != [], 0, start, at);
    var blockIndex := PartitionPoint(pass.starts, at) - 1;
    var found := pass.starts[blockIndex];
    id := found.stream + (at - found.logical);
  }

  lemma StartOfRecords(s: bytes)
    ensures ReadRecords(s, 0) == PrependFound([], ReadRecords(s, 0))
  {
    hide StreamCrc;
    hide ReadLength;
    var r := ReadRecords(s, 0);
    if r.Ok? {
      assert [] + r.value == r.value;
    }
  }

  // ---- The reader ----

  method Read(s: bytes) returns (r: Result<BlobContents, Error>)
    ensures r == ReadBlob(s)
  {
    hide ReadHeader;
    hide Strip;
    hide ReadRecords;
    var head := ReadHeader(s);
    if head.Err? {
      return Err(head.error);
    }
    var header := head.value;
    var dataStart := HeaderBlockSize(header.headerSize, header.startOffset);
    HeaderBlockHoldsHeader(header.headerSize, header.startOffset);
    if dataStart > |s| {
      return Err(NoDataRegion);
    }
    var pass, stripped := StripFooters(s[dataStart..], header.startOffset);
    if pass.Err? {
      return Err(pass.error);
    }
    var records, _ := CutRecords(pass.value, stripped, header.startOffset);
    if records.Err? {
      return Err(records.error);
    }
    r := Ok(BlobContents(header, records.value, pass.value.footers));
  }
}
