/** Why the LZ4 decoder refuses: what each kind of broken input, after any output so far, is called. */
module Lz4Refusals {
  import opened Bytes
  import opened Lz4

  lemma {:induction false} EndlessLength(s: bytes, length: nat)
    requires forall b <- s :: b == 255
    ensures Extend(s, length) == Failed(LengthPastInput)
    decreases |s|
  {
    if s != [] {
      assert s[0] in s;
      assert forall b <- s[1..] :: b in s;
      EndlessLength(s[1..], length + 255);
    }
  }

  /** A length past its nibble is as many bytes of 255 as it takes, and the remainder. */
  lemma {:induction false} RunDigits(n: nat)
    ensures var s := Run255(n);
      |s| == n / 255 + 1 && s[|s| - 1] == n % 255 && forall i :: 0 <= i < |s| - 1 ==> s[i] == 255
  {
    if n >= 255 {
      RunDigits(n - 255);
      assert (n - 255) / 255 == n / 255 - 1 && (n - 255) % 255 == n % 255;
    }
  }

  lemma LengthReads(n: nat, rest: bytes)
    ensures Length(Nibble(n), Extension(n) + rest) == Got(n, rest)
  {
    if n >= 15 {
      ExtendInverts(n - 15, 15, rest);
    } else {
      assert Extension(n) + rest == rest;
    }
  }

  lemma OneByteOff(t: byte, s: bytes)
    ensures ([t] + s)[0] == t && ([t] + s)[1..] == s && [t] + s != []
  {
  }

  /** A literal length that never ends. */
  lemma LiteralLengthCutOff(token: byte, s: bytes, out: bytes, budget: Budget)
    requires token / 16 == 15 && forall b <- s :: b == 255
    ensures Decode([token] + s, out, budget) == Rejected(LengthPastInput)
  {
    OneByteOff(token, s);
    EndlessLength(s, 15);
  }

  /** More literals than bytes. */
  lemma LiteralsCutOff(token: byte, n: nat, rest: bytes, out: bytes, budget: Budget)
    requires token / 16 == Nibble(n) && n > |rest|
    ensures Decode([token] + (Extension(n) + rest), out, budget) == Rejected(LiteralsPastInput)
  {
    hide Nibble;
    hide Extension;
    hide Length;
    OneByteOff(token, Extension(n) + rest);
    LengthReads(n, rest);
  }

  lemma LiteralsRead(token: byte, literals: bytes, rest: bytes)
    requires token / 16 == Nibble(|literals|)
    ensures LiteralRun(token, Extension(|literals|) + (literals + rest)) == Got(literals, rest)
  {
    hide Nibble;
    hide Extension;
    hide Length;
    LengthReads(|literals|, literals + rest);
    assert (literals + rest)[..|literals|] == literals && (literals + rest)[|literals|..] == rest;
  }

  /** After the literals: one byte where two must be, an offset that points nowhere, or a length that never ends. */
  lemma MatchCutOff(token: byte, literals: bytes, rest: bytes, out: bytes, budget: Budget)
    requires token / 16 == Nibble(|literals|) && rest != []
    ensures var s := [token] + (Extension(|literals|) + (literals + rest));
      && (|rest| == 1 ==> Decode(s, out, budget) == Rejected(OffsetPastInput))
      && (|rest| >= 2 ==>
        var offset, written := rest[0] as int + 256 * rest[1] as int, |out| + |literals|;
        && (offset == 0 || offset > written ==> Decode(s, out, budget) == Rejected(BadOffset(offset, written)))
        && (0 < offset <= written && token % 16 == 15 && (forall b <- rest[2..] :: b == 255) ==>
          Decode(s, out, budget) == Rejected(LengthPastInput)))
  {
    hide Nibble;
    hide Extension;
    hide LiteralRun;
    var tail := Extension(|literals|) + (literals + rest);
    OneByteOff(token, tail);
    LiteralsRead(token, literals, rest);
    if |rest| >= 2 && token % 16 == 15 && forall b <- rest[2..] :: b == 255 {
      EndlessLength(rest[2..], 15);
    }
  }

  /** A match that goes past the stated size, and one that does not. */
  lemma MatchReads(token: byte, literals: bytes, offset: nat, n: nat, rest: bytes, out: bytes, size: nat)
    requires token / 16 == Nibble(|literals|) && token % 16 == Nibble(n)
    requires 0 < offset <= |out| + |literals| && offset < U16_LIMIT
    ensures var s := [token] + (Extension(|literals|) + (literals + (LittleEndian(offset, 2) + (Extension(n) + rest))));
      Decode(s, out, Stated(size)) ==
      if |out| + |literals| + n + 4 > size then Rejected(Outgrows)
      else Decode(rest, Copied(out + literals, offset, n + 4), Stated(size))
  {
    hide *;
    var after := LittleEndian(offset, 2) + (Extension(n) + rest);
    var s := [token] + (Extension(|literals|) + (literals + after));
    TurnReads(token, literals, offset, n, rest, out);
    DecodeStep(s, out, size);
  }

  lemma DecodeStep(s: bytes, out: bytes, size: nat)
    requires s != [] && OneTurn(s, out).More?
    ensures var turn := OneTurn(s, out);
      Decode(s, out, Stated(size))
      == if |turn.out| > size then Rejected(Outgrows) else Decode(turn.rest, turn.out, Stated(size))
  {
    hide OneTurn;
  }

  lemma TurnReads(token: byte, literals: bytes, offset: nat, n: nat, rest: bytes, out: bytes)
    requires token / 16 == Nibble(|literals|) && token % 16 == Nibble(n)
    requires 0 < offset <= |out| + |literals| && offset < U16_LIMIT
    ensures var s := [token] + (Extension(|literals|) + (literals + (LittleEndian(offset, 2) + (Extension(n) + rest))));
      s != [] && OneTurn(s, out) == More(Copied(out + literals, offset, n + 4), rest)
  {
    hide *;
    var after := LittleEndian(offset, 2) + (Extension(n) + rest);
    var tail := Extension(|literals|) + (literals + after);
    OneByteOff(token, tail);
    LiteralsRead(token, literals, after);
    assert |after| >= 2;
    var all := out + literals;
    MatchPartReads(token, offset, n, rest, |all|);
    TurnIs([token] + tail, out, literals, after, Match(offset, n + 4), rest);
  }

  lemma TurnIs(s: bytes, out: bytes, literals: bytes, after: bytes, m: Match, rest: bytes)
    requires s != [] && LiteralRun(s[0], s[1..]) == Got(literals, after) && after != []
    requires ReadMatch(s[0], after, |out + literals|) == Got(m, rest)
    ensures 0 < m.offset <= |out + literals|
    ensures OneTurn(s, out) == More(Copied(out + literals, m.offset, m.length), rest)
  {
    hide LiteralRun;
    hide ReadMatch;
    hide Copied;
  }

  lemma MatchPartReads(token: byte, offset: nat, n: nat, rest: bytes, written: nat)
    requires token % 16 == Nibble(n) && 0 < offset <= written && offset < U16_LIMIT
    ensures ReadMatch(token, LittleEndian(offset, 2) + (Extension(n) + rest), written) == Got(Match(offset, n + 4), rest)
  {
    hide Nibble;
    hide Extension;
    hide Length;
    hide LittleEndian;
    OffsetBytes(offset, Extension(n) + rest);
    LengthReads(n, rest);
  }

  /** The input ends, after a match or in literals: the output has the stated size, or is refused. */
  lemma EndReads(token: byte, literals: bytes, out: bytes, size: nat)
    requires token / 16 == Nibble(|literals|)
    ensures Decode([], out, Stated(size)) == if |out| == size then Decoded(out) else Rejected(WrongSize(|out|, size))
    ensures var all := out + literals;
      Decode([token] + (Extension(|literals|) + literals), out, Stated(size))
      == if |all| == size then Decoded(all) else Rejected(WrongSize(|all|, size))
  {
    hide Nibble;
    hide Extension;
    hide LiteralRun;
    assert literals + [] == literals;
    OneByteOff(token, Extension(|literals|) + literals);
    LiteralsRead(token, literals, []);
  }
}
