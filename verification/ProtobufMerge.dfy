/**
 Decoding a message piece by piece. What is read from a prefix of the input does not depend on what follows,
 so a field at the end of any message sets that field and no other, in every schema; a tag that the schema does not
 have changes nothing, and a known tag with another wire type is refused.
 */
module ProtobufMerge {
  import opened Bytes
  import opened Protobuf

  // ---- Reading is not changed by what follows ----

  lemma {:induction false} VarintWithinMore(s: bytes, t: bytes, room: nat)
    requires room > 0 && ReadVarintWithin(s, room).Parsed?
    ensures ReadVarintWithin(s + t, room)
         == Parsed(ReadVarintWithin(s, room).value, ReadVarintWithin(s, room).rest + t)
    decreases room
  {
    assert (s + t)[0] == s[0] && (s + t)[1..] == s[1..] + t;
    if room > 1 && s[0] >= 128 {
      VarintWithinMore(s[1..], t, room - 1);
    }
  }

  lemma VarintMore(s: bytes, t: bytes)
    requires ReadVarint(s).Parsed?
    ensures ReadVarint(s + t) == Parsed(ReadVarint(s).value, ReadVarint(s).rest + t)
  {
    VarintWithinMore(s, t, 10);
  }

  lemma TakeMore(s: bytes, t: bytes, n: nat)
    requires TakeBytes(s, n).Parsed?
    ensures TakeBytes(s + t, n) == Parsed(TakeBytes(s, n).value, TakeBytes(s, n).rest + t)
  {
    assert (s + t)[..n] == s[..n] && (s + t)[n..] == s[n..] + t;
  }

  lemma DelimitedMore(s: bytes, t: bytes)
    requires ReadDelimited(s).Parsed?
    ensures ReadDelimited(s + t) == Parsed(ReadDelimited(s).value, ReadDelimited(s).rest + t)
  {
    hide ReadVarint;
    VarintMore(s, t);
    TakeMore(ReadVarint(s).rest, t, ReadVarint(s).value);
  }

  lemma KeyMore(s: bytes, t: bytes)
    requires ReadKey(s).Parsed?
    ensures ReadKey(s + t) == Parsed(ReadKey(s).value, ReadKey(s).rest + t)
  {
    hide ReadVarint;
    VarintMore(s, t);
  }

  lemma NumberMore(kind: Kind, s: bytes, t: bytes)
    requires ReadNumber(kind, s).Parsed?
    ensures ReadNumber(kind, s + t) == Parsed(ReadNumber(kind, s).value, ReadNumber(kind, s).rest + t)
  {
    hide ReadVarint;
    hide TakeBytes;
    if kind.Fixed64? {
      TakeMore(s, t, 8);
    } else if kind.Fixed32? {
      TakeMore(s, t, 4);
    } else {
      VarintMore(s, t);
    }
  }

  lemma {:induction false} SkipMore(parts: KeyParts, s: bytes, t: bytes, depth: nat)
    requires Skip(parts, s, depth).Parsed?
    ensures Skip(parts, s + t, depth) == Parsed((), Skip(parts, s, depth).rest + t)
    decreases |s|, 1
  {
    hide ReadVarint;
    hide ReadDelimited;
    hide TakeBytes;
    match parts.wire
    case 0 => VarintMore(s, t);
    case 1 => TakeMore(s, t, 8);
    case 2 => DelimitedMore(s, t);
    case 3 => SkipGroupMore(parts.tag, s, t, depth);
    case 5 => TakeMore(s, t, 4);
    case _ =>
  }

  lemma {:induction false} SkipGroupMore(tag: nat, s: bytes, t: bytes, depth: nat)
    requires depth > 0 && SkipGroup(tag, s, depth).Parsed?
    ensures SkipGroup(tag, s + t, depth) == Parsed((), SkipGroup(tag, s, depth).rest + t)
    decreases |s|, 0
  {
    hide ReadKey;
    hide Skip;
    KeyMore(s, t);
    var inner, rest := ReadKey(s).value, ReadKey(s).rest;
    if inner.wire != 4 {
      SkipMore(inner, rest, t, depth - 1);
      SkipGroupMore(tag, Skip(inner, rest, depth - 1).rest, t, depth);
    }
  }

  lemma MergeValueMore(kind: Kind, old_: Value, wire: nat, s: bytes, t: bytes, depth: nat)
    requires MergeValue(kind, old_, wire, s, depth).Parsed?
    ensures var r := MergeValue(kind, old_, wire, s, depth);
      MergeValue(kind, old_, wire, s + t, depth) == Parsed(r.value, r.rest + t)
  {
    hide ReadNumber;
    hide ReadDelimited;
    hide Merge;
    hide Utf8;
    if IsNumeric(kind) {
      NumberMore(kind, s, t);
    } else {
      DelimitedMore(s, t);
    }
  }

  /** A message decodes like its first part, and then its second on top of that. */
  lemma {:induction false} MergeMore(schema: Schema, m: Message, s: bytes, t: bytes, depth: nat)
    requires |m.values| == |schema.fields| && Merge(schema, m, s, depth).Some?
    ensures Merge(schema, m, s + t, depth) == Merge(schema, Merge(schema, m, s, depth).value, t, depth)
    decreases |s|
  {
    hide ReadKey;
    hide FieldIndex;
    hide Skip;
    hide MergeValue;
    if s == [] {
      assert s + t == t;
    } else {
      KeyMore(s, t);
      var parts, rest := ReadKey(s).value, ReadKey(s).rest;
      var i := FieldIndex(schema, parts.tag);
      if i == |schema.fields| {
        SkipMore(parts, rest, t, depth);
        MergeMore(schema, m, Skip(parts, rest, depth).rest, t, depth);
      } else {
        MergeValueMore(schema.fields[i].kind, m.values[i], parts.wire, rest, t, depth);
        var r := MergeValue(schema.fields[i].kind, m.values[i], parts.wire, rest, depth);
        MergeMore(schema, Message(m.values[i := r.value]), r.rest, t, depth);
      }
    }
  }

  // ---- One more field ----

  /** The key of a field: its tag and one of the six wire types. */
  lemma KeyReads(tag: nat, wire: nat, body: bytes)
    requires 1 <= tag < 0x2000_0000 && wire <= 5
    ensures ReadKey(Varint(8 * tag + wire) + body) == Parsed(KeyParts(tag, wire), body)
  {
    VarintRoundTrip(8 * tag + wire, body);
  }

  /** What a field at the end of a message that decodes does to it. */
  lemma OneMoreField(schema: Schema, s: bytes, i: nat, wire: nat, body: bytes)
    requires DistinctTags(schema) && i < |schema.fields| && wire <= 5
    requires DecodeMessage(schema, s).Some?
    ensures var m := DecodeMessage(schema, s).value;
      DecodeMessage(schema, s + (Varint(8 * schema.fields[i].tag + wire) + body)) ==
      match MergeValue(schema.fields[i].kind, m.values[i], wire, body, 100)
      case Malformed => None
      case Parsed(v, rest) => Merge(schema, Message(m.values[i := v]), rest, 100)
  {
    hide Varint;
    hide ReadKey;
    hide MergeValue;
    var field := schema.fields[i];
    var more := Varint(8 * field.tag + wire) + body;
    MergeMore(schema, DefaultMessage(schema), s, more, 100);
    KeyReads(field.tag, wire, body);
    assert FieldIndex(schema, field.tag) == i;
    assert more != [];
  }

  /** Wire type 0: a varint, cut down to the width of the field. */
  lemma VarintFieldSets(schema: Schema, s: bytes, i: nat, n: nat)
    requires DistinctTags(schema) && i < |schema.fields| && schema.fields[i].kind in {UInt64, UInt32, Enum, Bool}
    requires DecodeMessage(schema, s).Some? && n < U64_LIMIT
    ensures var m, low := DecodeMessage(schema, s).value, n % 0x1_0000_0000;
      var kind := schema.fields[i].kind;
      DecodeMessage(schema, s + (Varint(8 * schema.fields[i].tag) + Varint(n)))
      == Some(Message(m.values[i := Number(
        if kind.UInt64? then n
        else if kind.UInt32? then low
        else if kind.Bool? then if n == 0 then 0 else 1
        else if low < 0x8000_0000 then low
        else low - 0x1_0000_0000)]))
  {
    hide Merge;
    OneMoreField(schema, s, i, 0, Varint(n));
    VarintRoundTrip(n, []);
    assert Varint(n) + [] == Varint(n);
    NothingToMerge(schema, s, i, MergeValue(schema.fields[i].kind, DecodeMessage(schema, s).value.values[i], 0, Varint(n), 100));
  }

  lemma NothingToMerge(schema: Schema, s: bytes, i: nat, r: Parsed<Value>)
    requires i < |schema.fields| && DecodeMessage(schema, s).Some? && r.Parsed? && r.rest == []
    ensures var m := Message(DecodeMessage(schema, s).value.values[i := r.value]); Merge(schema, m, r.rest, 100) == Some(m)
  {
  }

  /** Wire types 1 and 5: eight bytes and four. */
  lemma FixedFieldSets(schema: Schema, s: bytes, i: nat, n: nat, width: nat)
    requires DistinctTags(schema) && i < |schema.fields| && DecodeMessage(schema, s).Some?
    requires (schema.fields[i].kind.Fixed64? && width == 8) || (schema.fields[i].kind.Fixed32? && width == 4)
    requires n < Capacity(width)
    ensures var m := DecodeMessage(schema, s).value;
      DecodeMessage(schema, s + (Varint(8 * schema.fields[i].tag + if width == 8 then 1 else 5) + LittleEndian(n, width)))
      == Some(Message(m.values[i := Number(n)]))
  {
    hide Merge;
    hide LittleEndian;
    var wire := if width == 8 then 1 else 5;
    OneMoreField(schema, s, i, wire, LittleEndian(n, width));
    FixedRoundTrip(n, width, []);
    assert LittleEndian(n, width) + [] == LittleEndian(n, width);
    NothingToMerge(
      schema, s, i,
      MergeValue(schema.fields[i].kind, DecodeMessage(schema, s).value.values[i], wire, LittleEndian(n, width), 100));
  }

  /** Wire type 2: a length and that many bytes, which must be UTF-8 in a text. */
  lemma DataFieldSets(schema: Schema, s: bytes, i: nat, data: bytes)
    requires DistinctTags(schema) && i < |schema.fields| && schema.fields[i].kind in {Blob, Text}
    requires DecodeMessage(schema, s).Some? && |data| < U64_LIMIT
    ensures var m := DecodeMessage(schema, s).value;
      DecodeMessage(schema, s + (Varint(8 * schema.fields[i].tag + 2) + (Varint(|data|) + data)))
      == if schema.fields[i].kind.Text? && !Utf8(data) then None else Some(Message(m.values[i := Data(data)]))
  {
    hide Merge;
    hide Utf8;
    hide ReadDelimited;
    hide Varint;
    var body := Varint(|data|) + data;
    OneMoreField(schema, s, i, 2, body);
    DelimitedRoundTrip(data, []);
    assert body + [] == body;
    var r := MergeValue(schema.fields[i].kind, DecodeMessage(schema, s).value.values[i], 2, body, 100);
    if r.Parsed? {
      NothingToMerge(schema, s, i, r);
    }
  }

  /** Wire type 2 in a list of messages: one row more, if the bytes are one. */
  lemma RowFieldAdds(schema: Schema, s: bytes, i: nat, row: bytes)
    requires DistinctTags(schema) && i < |schema.fields| && schema.fields[i].kind.Repeated?
    requires DecodeMessage(schema, s).Some? && DecodeMessage(schema, s).value.values[i].Rows? && |row| < U64_LIMIT
    ensures var m, inner := DecodeMessage(schema, s).value, schema.fields[i].kind.schema;
      DecodeMessage(schema, s + (Varint(8 * schema.fields[i].tag + 2) + (Varint(|row|) + row))) ==
      match Merge(inner, DefaultMessage(inner), row, 99)
      case None => None
      case Some(r) => Some(Message(m.values[i := Rows(m.values[i].rows + [r])]))
  {
    hide Merge;
    hide ReadDelimited;
    hide Varint;
    var body := Varint(|row|) + row;
    OneMoreField(schema, s, i, 2, body);
    DelimitedRoundTrip(row, []);
    assert body + [] == body;
    var r := MergeValue(schema.fields[i].kind, DecodeMessage(schema, s).value.values[i], 2, body, 100);
    if r.Parsed? {
      NothingToMerge(schema, s, i, r);
    }
  }

  /** A known tag with a wire type that is not its own is refused. */
  lemma OtherWireRefused(schema: Schema, s: bytes, i: nat, wire: nat, body: bytes)
    requires DistinctTags(schema) && i < |schema.fields| && DecodeMessage(schema, s).Some? && wire <= 5
    requires var kind := schema.fields[i].kind;
      wire != (if kind.Fixed64? then 1 else if kind.Fixed32? then 5
               else if kind.Blob? || kind.Text? || kind.Repeated? then 2 else 0)
    ensures DecodeMessage(schema, s + (Varint(8 * schema.fields[i].tag + wire) + body)) == None
  {
    hide Varint;
    OneMoreField(schema, s, i, wire, body);
  }

  /** An unknown tag is stepped over. */
  lemma UnknownTagIgnored(schema: Schema, s: bytes, tag: nat, wire: nat, n: u64, data: bytes)
    requires 1 <= tag < 0x2000_0000 && forall f <- schema.fields :: f.tag != tag
    requires DecodeMessage(schema, s).Some? && wire in {0, 1, 2, 5} && |data| < U64_LIMIT
    ensures var body := if wire == 0 then Varint(n) else if wire == 1 then LittleEndian(n, 8)
                        else if wire == 5 then LittleEndian(n, 4) else Varint(|data|) + data;
      DecodeMessage(schema, s + (Varint(8 * tag + wire) + body)) == DecodeMessage(schema, s)
  {
    hide Varint;
    hide ReadKey;
    hide LittleEndian;
    hide ReadDelimited;
    hide ReadVarint;
    var body := if wire == 0 then Varint(n) else if wire == 1 then LittleEndian(n, 8)
                else if wire == 5 then LittleEndian(n, 4) else Varint(|data|) + data;
    var more := Varint(8 * tag + wire) + body;
    assert body + [] == body;
    MergeMore(schema, DefaultMessage(schema), s, more, 100);
    KeyReads(tag, wire, body);
    assert more != [];
    if wire == 0 {
      VarintRoundTrip(n, []);
    } else if wire == 2 {
      DelimitedRoundTrip(data, []);
    }
    assert forall i :: 0 <= i < |schema.fields| ==> schema.fields[i] in schema.fields;
  }
}
