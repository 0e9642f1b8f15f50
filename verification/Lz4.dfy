/**
 The raw LZ4 block decoder.

 `Decode` is the decoder's control flow as a function, with every way to reject; `Decompress` is the
 loop itself. Neither defines the format: that is `Block`, `Serialise` and `Meaning`, an abstract
 syntax with its printer and its denotation, and the lemmas show that the decoder accepts exactly the
 printed well-formed blocks and returns their meaning.
 */
module Lz4 {
  import opened Bytes

  // ---- The format: abstract syntax, printer, meaning ----

  /** Literals, then a match of `matchLen` bytes starting `offset` bytes back. */
  datatype Sequence = Sequence(literals: bytes, offset: nat, matchLen: nat)

  /** A block stops right after a match, or in a token with literals only, whose low nibble is unused. */
  datatype Ending = AfterMatch | LastLiterals(tail: bytes, spare: nat)

  datatype Block = Block(sequences: seq<Sequence>, ending: Ending)

  function Nibble(n: nat): (k: nat)
    ensures k < 16
  {
    if n < 15 then n else 15
  }

  function Token(high: nat, low: nat): (t: byte)
    requires high < 16 && low < 16
    ensures t / 16 == high && t % 16 == low
  {
    16 * high + low
  }

  lemma TokenUnique(t: byte)
    ensures t / 16 < 16 && Token(t / 16, t % 16) == t
  {
  }

  function Run255(n: nat): (s: bytes)
    ensures |s| > 0
  {
    if n < 255 then [n] else [255] + Run255(n - 255)
  }

  /** The bytes that follow a nibble of 15. */
  function Extension(n: nat): bytes {
    if n < 15 then [] else Run255(n - 15)
  }

  ghost predicate Printable(q: Sequence) {
    1 <= q.offset < U16_LIMIT && 4 <= q.matchLen
  }

  ghost function SequenceBytes(q: Sequence): bytes
    requires Printable(q)
  {
    [Token(Nibble(|q.literals|), Nibble(q.matchLen - 4))]
    + (Extension(|q.literals|) + q.literals + (LittleEndian(q.offset, 2) + Extension(q.matchLen - 4)))
  }

  ghost predicate PrintableEnding(e: Ending) {
    e.LastLiterals? ==> e.spare < 16
  }

  ghost function EndingBytes(e: Ending): bytes
    requires PrintableEnding(e)
  {
    match e
    case AfterMatch => []
    case LastLiterals(tail, spare) => [Token(Nibble(|tail|), spare)] + (Extension(|tail|) + tail)
  }

  ghost predicate PrintableBlock(b: Block) {
    (forall q <- b.sequences :: Printable(q)) && PrintableEnding(b.ending)
  }

  ghost function Serialise(b: Block): bytes
    requires PrintableBlock(b)
    decreases |b.sequences|
  {
    if b.sequences == [] then EndingBytes(b.ending)
    else SequenceBytes(b.sequences[0]) + Serialise(Block(b.sequences[1..], b.ending))
  }

  /** The match copied onto `out`: each byte is the one `offset` back, which may itself have been copied. */
  function Copied(out: bytes, offset: nat, length: nat): (s: bytes)
    requires 0 < offset <= |out|
    ensures |s| == |out| + length
  {
    if length == 0 then out
    else
      var s := Copied(out, offset, length - 1);
      s + [s[|s| - offset]]
  }

  lemma {:induction false} CopiedKeeps(out: bytes, offset: nat, length: nat)
    requires 0 < offset <= |out|
    ensures Copied(out, offset, length)[..|out|] == out
  {
    if length > 0 {
      CopiedKeeps(out, offset, length - 1);
    }
  }

  /** `i` reduced by whole periods of `k`. */
  function Phase(i: nat, k: nat): (r: nat)
    requires k > 0
    ensures r < k
  {
    if i < k then i else Phase(i - k, k)
  }

  lemma {:induction false} PhaseIsRemainder(i: nat, k: nat)
    requires k > 0
    ensures Phase(i, k) == i % k
    decreases i
  {
    if i < k {
      SmallMod(i, k);
    } else {
      PhaseIsRemainder(i - k, k);
      ModPlusDivisor(i - k, k);
    }
  }

  lemma {:induction false} CopiedAt(out: bytes, offset: nat, length: nat, i: nat)
    requires 0 < offset <= |out| && i < length
    ensures Copied(out, offset, length)[|out| + i] == out[|out| - offset + Phase(i, offset)]
    decreases length, i
  {
    var s := Copied(out, offset, length - 1);
    if i < length - 1 {
      CopiedAt(out, offset, length - 1, i);
    } else if i < offset {
      CopiedKeeps(out, offset, length - 1);
      assert s[|s| - offset] == s[..|out|][|out| - offset + i];
    } else {
      CopiedAt(out, offset, length - 1, i - offset);
    }
  }

  /** A match, even one longer than its offset, repeats the last `offset` bytes of the output. */
  lemma CopiedIsPeriodic(out: bytes, offset: nat, length: nat, i: nat)
    requires 0 < offset <= |out| && i < length
    ensures Copied(out, offset, length)[|out| + i] == out[|out| - offset + i % offset]
  {
    PhaseIsRemainder(i, offset);
    CopiedAt(out, offset, length, i);
  }

  ghost predicate Reaches(out: bytes, q: Sequence) {
    Printable(q) && q.offset <= |out| + |q.literals|
  }

  ghost function Apply(out: bytes, q: Sequence): bytes
    requires Reaches(out, q)
  {
    var o := out + q.literals;
    Copied(o, q.offset, q.matchLen)
  }

  /** Every match of the block reaches back into output that is already there. */
  ghost predicate WellFormedFrom(out: bytes, b: Block)
    decreases |b.sequences|
  {
    if b.sequences == [] then PrintableEnding(b.ending)
    else
      && Reaches(out, b.sequences[0])
      && WellFormedFrom(Apply(out, b.sequences[0]), Block(b.sequences[1..], b.ending))
  }

  ghost function MeaningFrom(out: bytes, b: Block): bytes
    requires WellFormedFrom(out, b)
    decreases |b.sequences|
  {
    if b.sequences == [] then (if b.ending.LastLiterals? then out + b.ending.tail else out)
    else MeaningFrom(Apply(out, b.sequences[0]), Block(b.sequences[1..], b.ending))
  }

  ghost predicate WellFormed(b: Block)
    ensures WellFormed(b) ==> PrintableBlock(b)
  {
    WellFormedIsPrintable([], b);
    WellFormedFrom([], b)
  }

  ghost function Meaning(b: Block): bytes
    requires WellFormed(b)
  {
    MeaningFrom([], b)
  }

  lemma {:induction false} WellFormedIsPrintable(out: bytes, b: Block)
    ensures WellFormedFrom(out, b) ==> PrintableBlock(b)
    decreases |b.sequences|
  {
    if WellFormedFrom(out, b) && b.sequences != [] {
      var rest := Block(b.sequences[1..], b.ending);
      WellFormedIsPrintable(Apply(out, b.sequences[0]), rest);
      assert b.sequences == [b.sequences[0]] + rest.sequences;
    }
  }

  // ---- The decoder as a function ----

  datatype Error =
    | LengthPastInput
    | LiteralsPastInput
    | OffsetPastInput
    | BadOffset(offset: nat, written: nat)
    | Outgrows
    | WrongSize(written: nat, stated: nat)

  datatype Outcome = Decoded(out: bytes) | Rejected(error: Error)

  /** A call that comes back with an outcome, or one that panics reserving its output. */
  datatype Call = Panicked | Returned(outcome: Outcome)

  datatype Read<+T> = Got(value: T, rest: bytes) | Failed(error: Error)

  /** The decoder checks its output against a stated size; `Unlimited` is the decoder without the checks. */
  datatype Budget = Unlimited | Stated(size: nat)

  function Extend(s: bytes, length: nat): (r: Read<nat>)
    ensures r.Got? ==> |r.rest| < |s|
    ensures r.Failed? ==> r.error == LengthPastInput
  {
    if s == [] then Failed(LengthPastInput)
    else if s[0] != 255 then Got(length + s[0], s[1..])
    else Extend(s[1..], length + 255)
  }

  function Length(nibble: nat, s: bytes): (r: Read<nat>)
    ensures r.Got? ==> |r.rest| <= |s|
  {
    if nibble == 15 then Extend(s, 15) else Got(nibble, s)
  }

  function LiteralRun(token: byte, s: bytes): (r: Read<bytes>)
    ensures r.Got? ==> |r.rest| + |r.value| <= |s|
  {
    match Length(token / 16, s)
    case Failed(e) => Failed(e)
    case Got(n, rest) => if n > |rest| then Failed(LiteralsPastInput) else Got(rest[..n], rest[n..])
  }

  function MatchOffset(s: bytes, written: nat): (r: Read<nat>)
    ensures r.Got? ==> |r.rest| == |s| - 2 && 0 < r.value <= written
  {
    if |s| < 2 then Failed(OffsetPastInput)
    else
      var offset := Le16(s[0], s[1]);
      if offset == 0 || offset > written then Failed(BadOffset(offset, written))
      else Got(offset, s[2..])
  }

  function Finish(out: bytes, budget: Budget): Outcome {
    if budget.Stated? && |out| != budget.size then Rejected(WrongSize(|out|, budget.size))
    else Decoded(out)
  }

  /** One turn of the sequence loop: the input ends after the literals, or a match follows. */
  datatype Turn = Last(out: bytes) | More(out: bytes, rest: bytes) | Broken(error: Error)

  datatype Match = Match(offset: nat, length: nat)

  function ReadMatch(token: byte, s: bytes, written: nat): (r: Read<Match>)
    ensures r.Got? ==> |r.rest| < |s| && 0 < r.value.offset <= written
  {
    match MatchOffset(s, written)
    case Failed(e) => Failed(e)
    case Got(offset, afterOffset) =>
      match Length(token % 16, afterOffset)
      case Failed(e) => Failed(e)
      case Got(n, rest) => Got(Match(offset, n + 4), rest)
  }

  function MatchTurn(token: byte, s: bytes, out: bytes): (t: Turn)
    ensures t.More? ==> |t.rest| < |s|
    ensures !t.Last?
  {
    match ReadMatch(token, s, |out|)
    case Failed(e) => Broken(e)
    case Got(m, rest) => More(Copied(out, m.offset, m.length), rest)
  }

  function OneTurn(s: bytes, out: bytes): (t: Turn)
    requires s != []
    ensures t.More? ==> |t.rest| < |s|
  {
    match LiteralRun(s[0], s[1..])
    case Failed(e) => Broken(e)
    case Got(literals, rest) =>
      if rest == [] then Last(out + literals) else MatchTurn(s[0], rest, out + literals)
  }

  function Decode(s: bytes, out: bytes, budget: Budget): Outcome
    decreases |s|
  {
    if s == [] then Finish(out, budget)
    else
      match OneTurn(s, out)
      case Broken(e) => Rejected(e)
      case Last(o) => Finish(o, budget)
      case More(o, rest) =>
        if budget.Stated? && |o| > budget.size then Rejected(Outgrows) else Decode(rest, o, budget)
  }

  // ---- Lengths: the reader inverts the printer, and nothing else is read ----

  lemma {:induction false} ExtendInverts(n: nat, base: nat, rest: bytes)
    ensures Extend(Run255(n) + rest, base) == Got(base + n, rest)
  {
    var s := Run255(n) + rest;
    if n < 255 {
      assert s[1..] == rest;
    } else {
      assert s[1..] == Run255(n - 255) + rest;
      ExtendInverts(n - 255, base + 255, rest);
    }
  }

  lemma {:induction false} ExtendSound(s: bytes, base: nat)
    requires Extend(s, base).Got?
    ensures var r := Extend(s, base); r.value >= base && s == Run255(r.value - base) + r.rest
  {
    var r := Extend(s, base);
    if s[0] == 255 {
      ExtendSound(s[1..], base + 255);
      assert Run255(r.value - base) == [255] + Run255(r.value - base - 255);
      assert s == [255] + s[1..];
    } else {
      assert Run255(r.value - base) == [s[0]];
      assert s == [s[0]] + s[1..];
    }
  }

  lemma LengthInverts(n: nat, rest: bytes)
    ensures Length(Nibble(n), Extension(n) + rest) == Got(n, rest)
  {
    if n >= 15 {
      ExtendInverts(n - 15, 15, rest);
    } else {
      assert Extension(n) + rest == rest;
    }
  }

  lemma LengthSound(nibble: nat, s: bytes)
    requires nibble < 16 && Length(nibble, s).Got?
    ensures var r := Length(nibble, s); nibble == Nibble(r.value) && s == Extension(r.value) + r.rest
  {
    if nibble == 15 {
      ExtendSound(s, 15);
    } else {
      assert s == [] + s;
    }
  }

  lemma LiteralRunInverts(token: byte, literals: bytes, rest: bytes)
    requires token / 16 == Nibble(|literals|)
    ensures LiteralRun(token, Extension(|literals|) + literals + rest) == Got(literals, rest)
  {
    LengthInverts(|literals|, literals + rest);
    Associative(Extension(|literals|), literals, rest);
    assert (literals + rest)[..|literals|] == literals && (literals + rest)[|literals|..] == rest;
  }

  lemma LiteralRunSound(token: byte, s: bytes)
    requires LiteralRun(token, s).Got?
    ensures var r := LiteralRun(token, s);
      token / 16 == Nibble(|r.value|) && s == Extension(|r.value|) + r.value + r.rest
  {
    LengthSound(token / 16, s);
    var n := Length(token / 16, s).value;
    var rest := Length(token / 16, s).rest;
    assert rest == rest[..n] + rest[n..];
    Associative(Extension(n), rest[..n], rest[n..]);
  }

  lemma OffsetBytes(offset: nat, rest: bytes)
    requires offset < U16_LIMIT
    ensures var s := LittleEndian(offset, 2) + rest; Le16(s[0], s[1]) == offset && s[2..] == rest
  {
    assert LittleEndian(offset, 2) == [offset % 256] + LittleEndian(offset / 256, 1);
    assert LittleEndian(offset / 256, 1) == [offset / 256 % 256] + LittleEndian(offset / 256 / 256, 0);
  }

  lemma OffsetBytesUnique(s: bytes)
    requires |s| >= 2
    ensures s == LittleEndian(Le16(s[0], s[1]), 2) + s[2..]
  {
    var n := Le16(s[0], s[1]);
    assert LittleEndian(n, 2) == [n % 256] + LittleEndian(n / 256, 1);
    assert LittleEndian(n / 256, 1) == [n / 256 % 256] + LittleEndian(n / 256 / 256, 0);
    assert n % 256 == s[0] && n / 256 == s[1];
  }

  // ---- Parsing undoes printing ----

  lemma Regroup(a: bytes, b: bytes, c: bytes, d: bytes, e: bytes)
    ensures a + (b + (c + d)) + e == a + (b + (c + (d + e)))
  {
  }

  /** What the decoder's readers find at the start of a printed sequence. */
  lemma ReadsSequence(q: Sequence, rest: bytes)
    requires Printable(q)
    ensures var s := SequenceBytes(q) + rest;
      var afterOffset := Extension(q.matchLen - 4) + rest;
      var afterLiterals := LittleEndian(q.offset, 2) + afterOffset;
      && LiteralRun(s[0], s[1..]) == Got(q.literals, afterLiterals)
      && Length(s[0] % 16, afterOffset) == Got(q.matchLen - 4, rest)
  {
    var s := SequenceBytes(q) + rest;
    var afterOffset := Extension(q.matchLen - 4) + rest;
    var afterLiterals := LittleEndian(q.offset, 2) + afterOffset;
    Regroup([s[0]], Extension(|q.literals|) + q.literals, LittleEndian(q.offset, 2), Extension(q.matchLen - 4), rest);
    assert s[1..] == Extension(|q.literals|) + q.literals + afterLiterals;
    LiteralRunInverts(s[0], q.literals, afterLiterals);
    LengthInverts(q.matchLen - 4, rest);
  }

  lemma ReadsMatch(token: byte, q: Sequence, rest: bytes, written: nat)
    requires Printable(q) && q.offset <= written && token % 16 == Nibble(q.matchLen - 4)
    ensures var s := LittleEndian(q.offset, 2) + (Extension(q.matchLen - 4) + rest);
      ReadMatch(token, s, written) == Got(Match(q.offset, q.matchLen), rest)
  {
    OffsetBytes(q.offset, Extension(q.matchLen - 4) + rest);
    LengthInverts(q.matchLen - 4, rest);
  }

  lemma TurnOnSequence(out: bytes, q: Sequence, rest: bytes)
    requires Reaches(out, q)
    ensures OneTurn(SequenceBytes(q) + rest, out) == More(Apply(out, q), rest)
  {
    var s := SequenceBytes(q) + rest;
    ReadsSequence(q, rest);
    ReadsMatch(s[0], q, rest, |out + q.literals|);
  }

  lemma DecodesSequence(out: bytes, q: Sequence, rest: bytes)
    requires Reaches(out, q)
    ensures Decode(SequenceBytes(q) + rest, out, Unlimited) == Decode(rest, Apply(out, q), Unlimited)
  {
    TurnOnSequence(out, q, rest);
  }

  lemma ReadsEnding(e: Ending)
    requires e.LastLiterals? && PrintableEnding(e)
    ensures var s := EndingBytes(e); LiteralRun(s[0], s[1..]) == Got(e.tail, []) && s[0] % 16 == e.spare
  {
    var s := EndingBytes(e);
    assert s[1..] == Extension(|e.tail|) + e.tail;
    assert s[1..] == Extension(|e.tail|) + e.tail + [];
    LiteralRunInverts(s[0], e.tail, []);
  }

  lemma {:induction false} DecodesSerialised(out: bytes, b: Block)
    requires WellFormedFrom(out, b)
    ensures PrintableBlock(b)
    ensures Decode(Serialise(b), out, Unlimited) == Decoded(MeaningFrom(out, b))
    decreases |b.sequences|
  {
    WellFormedIsPrintable(out, b);
    if b.sequences == [] {
      if b.ending.LastLiterals? {
        ReadsEnding(b.ending);
      }
    } else {
      var rest := Block(b.sequences[1..], b.ending);
      DecodesSerialised(Apply(out, b.sequences[0]), rest);
      DecodesSequence(out, b.sequences[0], Serialise(rest));
    }
  }

  // ---- Nothing else parses ----

  lemma MatchIsPrinted(token: byte, s: bytes, written: nat)
    requires ReadMatch(token, s, written).Got?
    ensures var r := ReadMatch(token, s, written);
      && 1 <= r.value.offset < U16_LIMIT && 4 <= r.value.length && token % 16 == Nibble(r.value.length - 4)
      && s == LittleEndian(r.value.offset, 2) + (Extension(r.value.length - 4) + r.rest)
  {
    OffsetBytesUnique(s);
    LengthSound(token % 16, s[2..]);
  }

  lemma SequenceBytesFromParts(s: bytes, q: Sequence, rest: bytes)
    requires Printable(q) && s != []
    requires s[0] / 16 == Nibble(|q.literals|) && s[0] % 16 == Nibble(q.matchLen - 4)
    requires s[1..] == Extension(|q.literals|) + q.literals
      + (LittleEndian(q.offset, 2) + (Extension(q.matchLen - 4) + rest))
    ensures s == SequenceBytes(q) + rest
  {
    TokenUnique(s[0]);
    assert s == [s[0]] + s[1..];
    Regroup([s[0]], Extension(|q.literals|) + q.literals, LittleEndian(q.offset, 2), Extension(q.matchLen - 4), rest);
  }

  /** A turn that ends in a match has read exactly one printed sequence. */
  lemma TurnReadsSequence(s: bytes, out: bytes) returns (q: Sequence)
    requires s != [] && OneTurn(s, out).More?
    ensures Reaches(out, q)
    ensures OneTurn(s, out).out == Apply(out, q)
    ensures s == SequenceBytes(q) + OneTurn(s, out).rest
  {
    LiteralRunSound(s[0], s[1..]);
    var literals := LiteralRun(s[0], s[1..]).value;
    var afterLiterals := LiteralRun(s[0], s[1..]).rest;
    var rest := OneTurn(s, out).rest;
    MatchIsPrinted(s[0], afterLiterals, |out + literals|);
    var m := ReadMatch(s[0], afterLiterals, |out + literals|).value;
    q := Sequence(literals, m.offset, m.length);
    SequenceBytesFromParts(s, q, rest);
  }

  lemma TurnReadsEnding(s: bytes, out: bytes) returns (e: Ending)
    requires s != [] && OneTurn(s, out).Last?
    ensures e.LastLiterals? && PrintableEnding(e)
    ensures OneTurn(s, out).out == out + e.tail && s == EndingBytes(e)
  {
    hide LiteralRun;
    hide Extension;
    hide Nibble;
    hide Token;
    LiteralRunSound(s[0], s[1..]);
    e := LastLiterals(LiteralRun(s[0], s[1..]).value, s[0] % 16);
    TokenUnique(s[0]);
    assert Extension(|e.tail|) + e.tail + [] == Extension(|e.tail|) + e.tail;
    assert s == [s[0]] + s[1..];
  }

  lemma {:induction false} DecodedIsSerialised(s: bytes, out: bytes) returns (b: Block)
    requires Decode(s, out, Unlimited).Decoded?
    ensures WellFormedFrom(out, b) && PrintableBlock(b)
    ensures Serialise(b) == s
    ensures Decode(s, out, Unlimited) == Decoded(MeaningFrom(out, b))
    decreases |s|
  {
    if s == [] {
      b := Block([], AfterMatch);
    } else if OneTurn(s, out).Last? {
      var e := TurnReadsEnding(s, out);
      b := Block([], e);
    } else {
      var q := TurnReadsSequence(s, out);
      var tail := DecodedIsSerialised(OneTurn(s, out).rest, Apply(out, q));
      b := Block([q] + tail.sequences, tail.ending);
      assert b.sequences[1..] == tail.sequences;
    }
  }

  // ---- Exactly one block prints to given bytes ----

  lemma {:induction false} SerialiseInjective(b: Block, c: Block)
    requires PrintableBlock(b) && PrintableBlock(c) && Serialise(b) == Serialise(c)
    ensures b == c
    decreases |b.sequences|
  {
    var s := Serialise(b);
    if s == [] {
      assert b.sequences == [] && c.sequences == [];
    } else {
      var bRest, cRest := AfterFirstLiterals(b), AfterFirstLiterals(c);
      ReadsFirstLiterals(b);
      ReadsFirstLiterals(c);
      if b.sequences == [] {
        ReadsEnding(b.ending);
        assert c.sequences == [];
        ReadsEnding(c.ending);
      } else {
        assert c.sequences != [];
        SameFirstSequence(b, c);
        var bTail := Block(b.sequences[1..], b.ending);
        var cTail := Block(c.sequences[1..], c.ending);
        SerialiseInjective(bTail, cTail);
        assert b.sequences == [b.sequences[0]] + bTail.sequences;
        assert c.sequences == [c.sequences[0]] + cTail.sequences;
      }
    }
  }

  ghost function FirstLiterals(b: Block): bytes {
    if b.sequences != [] then b.sequences[0].literals
    else if b.ending.LastLiterals? then b.ending.tail else []
  }

  /** What follows the first literals of a printed block: nothing only when no sequence does. */
  ghost function AfterFirstLiterals(b: Block): (r: bytes)
    requires PrintableBlock(b)
    ensures b.sequences != [] ==> r != []
  {
    if b.sequences == [] then []
    else
      var q := b.sequences[0];
      assert q in b.sequences;
      LittleEndian(q.offset, 2) + (Extension(q.matchLen - 4) + Serialise(Block(b.sequences[1..], b.ending)))
  }

  lemma ReadsFirstLiterals(b: Block)
    requires PrintableBlock(b) && Serialise(b) != []
    ensures var s := Serialise(b); LiteralRun(s[0], s[1..]) == Got(FirstLiterals(b), AfterFirstLiterals(b))
  {
    if b.sequences == [] {
      ReadsEnding(b.ending);
    } else {
      ReadsSequence(b.sequences[0], Serialise(Block(b.sequences[1..], b.ending)));
    }
  }

  lemma SameFirstSequence(b: Block, c: Block)
    requires PrintableBlock(b) && PrintableBlock(c) && Serialise(b) == Serialise(c)
    requires b.sequences != [] && c.sequences != []
    ensures b.sequences[0] == c.sequences[0]
    ensures Serialise(Block(b.sequences[1..], b.ending)) == Serialise(Block(c.sequences[1..], c.ending))
  {
    var bq, cq := b.sequences[0], c.sequences[0];
    var bs, cs := Serialise(Block(b.sequences[1..], b.ending)), Serialise(Block(c.sequences[1..], c.ending));
    ReadsSequence(bq, bs);
    ReadsSequence(cq, cs);
    OffsetBytes(bq.offset, Extension(bq.matchLen - 4) + bs);
    OffsetBytes(cq.offset, Extension(cq.matchLen - 4) + cs);
  }

  // ---- The size budget only rejects ----

  lemma TurnGrows(s: bytes, out: bytes)
    requires s != [] && !OneTurn(s, out).Broken?
    ensures |out| <= |OneTurn(s, out).out|
  {
  }

  lemma {:induction false} OutputOnlyGrows(s: bytes, out: bytes)
    requires Decode(s, out, Unlimited).Decoded?
    ensures |out| <= |Decode(s, out, Unlimited).out|
    decreases |s|
  {
    if s != [] {
      TurnGrows(s, out);
      if OneTurn(s, out).More? {
        OutputOnlyGrows(OneTurn(s, out).rest, OneTurn(s, out).out);
      }
    }
  }

  /** The decoder with a stated size accepts exactly what the unchecked decoder turns into that many bytes. */
  lemma {:induction false} BudgetOnlyRejects(s: bytes, out: bytes, size: nat, result: bytes)
    ensures Decode(s, out, Stated(size)) == Decoded(result)
       <==> Decode(s, out, Unlimited) == Decoded(result) && |result| == size
    decreases |s|
  {
    if s != [] && OneTurn(s, out).More? {
      var t := OneTurn(s, out);
      BudgetOnlyRejects(t.rest, t.out, size, result);
      if Decode(t.rest, t.out, Unlimited).Decoded? {
        OutputOnlyGrows(t.rest, t.out);
      }
    }
  }

  // ---- How much a block can expand ----

  lemma {:induction false} ExtendBound(s: bytes, base: nat)
    requires Extend(s, base).Got?
    ensures Extend(s, base).value <= base + 255 * (|s| - |Extend(s, base).rest|)
  {
    if s[0] == 255 {
      ExtendBound(s[1..], base + 255);
    }
  }

  lemma LengthBound(nibble: nat, s: bytes)
    requires nibble < 16 && Length(nibble, s).Got?
    ensures Length(nibble, s).value <= 15 + 255 * (|s| - |Length(nibble, s).rest|)
  {
    if nibble == 15 {
      ExtendBound(s, 15);
    }
  }

  lemma TurnExpansion(s: bytes, out: bytes)
    requires s != [] && !OneTurn(s, out).Broken?
    ensures var t := OneTurn(s, out);
      |t.out| <= |out| + 255 * (|s| - if t.More? then |t.rest| else 0)
  {
    var afterLiterals := LiteralRun(s[0], s[1..]).rest;
    if afterLiterals != [] {
      LengthBound(s[0] % 16, afterLiterals[2..]);
    }
  }

  lemma {:induction false} ExpansionBound(s: bytes, out: bytes, budget: Budget)
    requires Decode(s, out, budget).Decoded?
    ensures |Decode(s, out, budget).out| <= |out| + 255 * |s|
    decreases |s|
  {
    if s != [] {
      TurnExpansion(s, out);
      if OneTurn(s, out).More? {
        ExpansionBound(OneTurn(s, out).rest, OneTurn(s, out).out, budget);
      }
    }
  }

  // ---- The decoder as it runs ----

  method ExtendLength(source: bytes, start: nat, base: nat) returns (length: nat, at: nat, ok: bool)
    requires start <= |source|
    ensures ok <==> Extend(source[start..], base).Got?
    ensures ok ==> start < at <= |source| && Extend(source[start..], base) == Got(length, source[at..])
  {
    at, length := start, base;
    while true
      invariant start <= at <= |source|
      invariant Extend(source[start..], base) == Extend(source[at..], length)
      decreases |source| - at
    {
      if at >= |source| {
        return length, at, false;
      }
      var b := source[at];
      assert source[at..][1..] == source[at + 1..];
      at := at + 1;
      length := length + b;
      if b != 255 {
        return length, at, true;
      }
    }
  }

  method ReadLength(source: bytes, start: nat, nibble: nat) returns (length: nat, at: nat, ok: bool)
    requires start <= |source|
    ensures ok <==> Length(nibble, source[start..]).Got?
    ensures !ok ==> Length(nibble, source[start..]) == Failed(LengthPastInput)
    ensures ok ==> start <= at <= |source| && Length(nibble, source[start..]) == Got(length, source[at..])
  {
    length, at, ok := nibble, start, true;
    if length == 15 {
      length, at, ok := ExtendLength(source, start, length);
    }
  }

  /** One byte at a time, since the bytes to copy may be among those just copied. */
  method CopyMatch(before: bytes, offset: nat, length: nat) returns (out: bytes)
    requires 0 < offset <= |before|
    ensures out == Copied(before, offset, length)
    ensures out[..|before|] == before
    ensures forall i :: 0 <= i < length ==> out[|before| + i] == before[|before| - offset + i % offset]
  {
    out := before;
    var from := |out| - offset;
    for index := 0 to length
      invariant out == Copied(before, offset, index)
    {
      var b := out[from + index];
      out := out + [b];
    }
    CopiedKeeps(before, offset, length);
    forall i | 0 <= i < length
      ensures out[|before| + i] == before[|before| - offset + i % offset]
    {
      CopiedIsPeriodic(before, offset, length, i);
    }
  }

  /** The output is reserved first, which panics for a size no allocation can have. */
  method Decompress(source: bytes, rawSize: nat) returns (call: Call, ghost peak: nat)
    ensures call.Panicked? <==> rawSize >= SLICE_LIMIT
    ensures call.Returned? ==>
      var r := call.outcome;
      && r == Decode(source, [], Stated(rawSize))
      && (r.Decoded? <==> exists b: Block :: WellFormed(b) && Serialise(b) == source && |Meaning(b)| == rawSize)
      && (forall b: Block :: WellFormed(b) && Serialise(b) == source ==>
        (r.Decoded? <==> |Meaning(b)| == rawSize) && (r.Decoded? ==> r.out == Meaning(b)))
      && (r.Decoded? ==> |r.out| == rawSize <= 255 * |source|)
    ensures peak <= rawSize + |source|
  {
    if rawSize >= SLICE_LIMIT {
      return Panicked, 0;
    }
    var r;
    r, peak := DecompressLoop(source, rawSize);
    AcceptsExactlyBlocks(source, rawSize);
    if r.Decoded? {
      ExpansionBound(source, [], Stated(rawSize));
      BudgetOnlyRejects(source, [], rawSize, r.out);
    }
    call := Returned(r);
  }

  /** The acceptance theorem, about the decoder as a function. */
  lemma AcceptsExactlyBlocks(source: bytes, rawSize: nat)
    ensures var r := Decode(source, [], Stated(rawSize));
      && (r.Decoded? <==> exists b: Block :: WellFormed(b) && Serialise(b) == source && |Meaning(b)| == rawSize)
      && (forall b: Block :: WellFormed(b) && Serialise(b) == source ==>
        (r.Decoded? <==> |Meaning(b)| == rawSize) && (r.Decoded? ==> r.out == Meaning(b)))
  {
    var r := Decode(source, [], Stated(rawSize));
    if r.Decoded? {
      BudgetOnlyRejects(source, [], rawSize, r.out);
      var b := DecodedIsSerialised(source, []);
      assert WellFormed(b) && Serialise(b) == source && |Meaning(b)| == rawSize;
    }
    forall b: Block | WellFormed(b) && Serialise(b) == source
      ensures (r.Decoded? <==> |Meaning(b)| == rawSize) && (r.Decoded? ==> r.out == Meaning(b))
    {
      DecodesSerialised([], b);
      BudgetOnlyRejects(source, [], rawSize, Meaning(b));
      if r.Decoded? {
        BudgetOnlyRejects(source, [], rawSize, r.out);
      }
    }
  }

  /** A token and its literals. */
  method TakeLiterals(source: bytes, start: nat) returns (literals: bytes, at: nat, error: Option<Error>)
    requires start < |source|
    ensures start < at <= |source| || error.Some?
    ensures LiteralRun(source[start], source[start + 1..])
         == if error.Some? then Failed(error.value) else Got(literals, source[at..])
    ensures error.None? ==> |literals| <= at - start
  {
    literals, at, error := [], start + 1, None;
    var count, ok;
    count, at, ok := ReadLength(source, at, source[start] / 16);
    if !ok {
      return [], at, Some(LengthPastInput);
    }
    if at + count > |source| {
      return [], at, Some(LiteralsPastInput);
    }
    assert source[at..][..count] == source[at..at + count];
    assert source[at..][count..] == source[at + count..];
    literals := source[at..at + count];
    at := at + count;
  }

  /** A match: its offset, its length, the size check, and the copy. */
  method TakeMatch(source: bytes, start: nat, token: byte, before: bytes, rawSize: nat)
    returns (out: bytes, at: nat, error: Option<Error>)
    requires start <= |source|
    ensures error.None? ==> start < at <= |source| && |out| <= rawSize
    ensures var t := MatchTurn(token, source[start..], before);
      error == if t.Broken? then Some(t.error) else if |t.out| > rawSize then Some(Outgrows) else None
    ensures error.None? ==> MatchTurn(token, source[start..], before) == More(out, source[at..])
  {
    out, at, error := before, start, None;
    if at + 2 > |source| {
      return out, at, Some(OffsetPastInput);
    }
    var offset := Le16(source[at], source[at + 1]);
    at := at + 2;
    assert source[start..][2..] == source[at..];
    if offset == 0 || offset > |out| {
      return out, at, Some(BadOffset(offset, |out|));
    }
    var length, ok;
    length, at, ok := ReadLength(source, at, token % 16);
    if !ok {
      return out, at, Some(LengthPastInput);
    }
    length := length + 4;
    if |out| + length > rawSize {
      return out, at, Some(Outgrows);
    }
    out := CopyMatch(out, offset, length);
  }

  /** The sequence loop. `peak` is the longest the output ever was. */
  method DecompressLoop(source: bytes, rawSize: nat) returns (r: Outcome, ghost peak: nat)
    ensures r == Decode(source, [], Stated(rawSize))
    ensures peak <= rawSize + |source|
  {
    var out: bytes := [];
    var at := 0;
    peak := 0;
    while at < |source|
      invariant 0 <= at <= |source|
      invariant |out| <= rawSize && peak <= rawSize + |source|
      invariant Decode(source, [], Stated(rawSize)) == Decode(source[at..], out, Stated(rawSize))
      decreases |source| - at
    {
      var token := source[at];
      assert source[at..][1..] == source[at + 1..];
      var literals, error;
      literals, at, error := TakeLiterals(source, at);
      if error.Some? {
        return Rejected(error.value), peak;
      }
      out := out + literals;
      peak := if |out| > peak then |out| else peak;
      if at >= |source| {
        break;
      }
      out, at, error := TakeMatch(source, at, token, out, rawSize);
      if error.Some? {
        return Rejected(error.value), peak;
      }
      peak := if |out| > peak then |out| else peak;
    }
    r := if |out| != rawSize then Rejected(WrongSize(|out|, rawSize)) else Decoded(out);
  }
}
