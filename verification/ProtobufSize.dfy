/**
 The bytes written for a message are the fewest that decode to it, as long as no field is an enumeration,
 whose negative values are written longer than they need be read from.
 */
module ProtobufSize {
  import opened Bytes
  import opened Protobuf

  /** No field, at any depth, is an enumeration. */
  predicate Plain(schema: Schema)
    decreases schema
  {
    forall i :: 0 <= i < |schema.fields| ==> PlainKind(schema.fields[i].kind)
  }

  predicate PlainKind(kind: Kind)
    decreases kind
  {
    !kind.Enum? && (kind.Repeated? ==> Plain(kind.schema))
  }

  lemma {:induction false} VarintGrows(a: nat, b: nat)
    requires a <= b
    ensures |Varint(a)| <= |Varint(b)|
    decreases b
  {
    if a >= 128 {
      VarintGrows(a / 128, b / 128);
    }
  }

  lemma {:induction false} VarintIsShortest(s: bytes, room: nat)
    requires room > 0 && ReadVarintWithin(s, room).Parsed?
    ensures var r := ReadVarintWithin(s, room); |Varint(r.value)| + |r.rest| <= |s|
    decreases room
  {
    if room > 1 && s[0] >= 128 {
      VarintIsShortest(s[1..], room - 1);
      var high := ReadVarintWithin(s[1..], room - 1).value;
      OneByteMore(s[0] - 128, high);
    }
  }

  lemma OneByteMore(low: nat, high: nat)
    requires low < 128
    ensures |Varint(low + 128 * high)| <= 1 + |Varint(high)|
  {
    var n := low + 128 * high;
    if n >= 128 {
      assert n / 128 == high;
    }
  }

  lemma KeyIsShortest(field: Field, s: bytes)
    requires ReadKey(s).Parsed? && ReadKey(s).value == KeyParts(field.tag, WireType(field.kind))
    ensures |Key(field)| + |ReadKey(s).rest| <= |s|
  {
    hide Varint;
    VarintIsShortest(s, 10);
  }

  lemma NumberIsShortest(kind: Kind, s: bytes)
    requires PlainKind(kind) && IsNumeric(kind) && ReadNumber(kind, s).Parsed?
    ensures var r := ReadNumber(kind, s); |NumberBytes(kind, r.value)| + |r.rest| <= |s|
  {
    hide Varint;
    if !kind.Fixed64? && !kind.Fixed32? {
      var w := ReadVarint(s).value;
      VarintIsShortest(s, 10);
      VarintGrows(FromWire(kind, w), w);
    }
  }

  lemma DelimitedIsShortest(s: bytes)
    requires ReadDelimited(s).Parsed?
    ensures var r := ReadDelimited(s); |Varint(|r.value|)| + |r.value| + |r.rest| <= |s|
  {
    hide Varint;
    VarintIsShortest(s, 10);
  }

  // ---- One more value ----

  function RowBody(schema: Schema, row: Message): bytes {
    if |row.values| == |schema.fields| then MessageBytes(schema, row) else []
  }

  lemma {:induction false} RowsGrow(field: Field, rows: seq<Message>, row: Message, k: nat)
    requires field.kind.Repeated? && k <= |rows|
    ensures var body := RowBody(field.kind.schema, row);
      |RowsBytes(field, Rows(rows + [row]), k)|
      == |RowsBytes(field, Rows(rows), k)| + |Key(field)| + |Varint(|body|)| + |body|
    decreases |rows| - k
  {
    hide Key;
    hide Varint;
    hide MessageBytes;
    var schema, all := field.kind.schema, rows + [row];
    var body := RowBody(schema, all[k]);
    assert RowsBytes(field, Rows(all), k) == Key(field) + (Varint(|body|) + body + RowsBytes(field, Rows(all), k + 1));
    if k < |rows| {
      assert all[k] == rows[k];
      RowsGrow(field, rows, row, k + 1);
      assert RowsBytes(field, Rows(rows), k) == Key(field) + (Varint(|body|) + body + RowsBytes(field, Rows(rows), k + 1));
    } else {
      assert all[k] == row;
      assert RowsBytes(field, Rows(all), k + 1) == [] && RowsBytes(field, Rows(rows), k) == [];
    }
  }

  lemma {:induction false} FieldsChange(schema: Schema, m: Message, i: nat, v: Value, from: nat)
    requires |m.values| == |schema.fields| && i < |schema.fields| && from <= |schema.fields|
    ensures |FieldsBytes(schema, Message(m.values[i := v]), from)| - |FieldsBytes(schema, m, from)|
         == if from <= i then |FieldBytes(schema.fields[i], v)| - |FieldBytes(schema.fields[i], m.values[i])| else 0
    decreases |schema.fields| - from
  {
    hide FieldBytes;
    if from < |schema.fields| {
      FieldsChange(schema, m, i, v, from + 1);
    }
  }

  lemma RowsOf(field: Field, rows: seq<Message>)
    requires field.kind.Repeated?
    ensures FieldBytes(field, Rows(rows)) == RowsBytes(field, Rows(rows), 0)
  {
  }

  lemma {:induction false} ValueIsShortest(field: Field, old_: Value, wire: nat, s: bytes, depth: nat)
    requires PlainKind(field.kind) && MergeValue(field.kind, old_, wire, s, depth).Parsed?
    ensures var r := MergeValue(field.kind, old_, wire, s, depth);
      |FieldBytes(field, r.value)| + |r.rest| <= |FieldBytes(field, old_)| + |Key(field)| + |s|
    decreases |s|, 0
  {
    hide Key;
    hide Varint;
    var kind := field.kind;
    var r := MergeValue(kind, old_, wire, s, depth);
    if IsNumeric(kind) {
      NumberIsShortest(kind, s);
    } else {
      DelimitedIsShortest(s);
      if kind.Repeated? {
        var raw := ReadDelimited(s).value;
        var row := Merge(kind.schema, DefaultMessage(kind.schema), raw, depth - 1).value;
        MessageIsShortest(kind.schema, DefaultMessage(kind.schema), raw, depth - 1);
        NoFields(kind.schema, 0);
        var rows := if old_.Rows? then old_.rows else [];
        RowIsShortest(field, old_, rows, row, raw);
      }
    }
  }

  lemma RowIsShortest(field: Field, old_: Value, rows: seq<Message>, row: Message, raw: bytes)
    requires field.kind.Repeated? && rows == if old_.Rows? then old_.rows else []
    requires |row.values| == |field.kind.schema.fields| && |MessageBytes(field.kind.schema, row)| <= |raw|
    ensures |FieldBytes(field, Rows(rows + [row]))| <= |FieldBytes(field, old_)| + |Key(field)| + |Varint(|raw|)| + |raw|
  {
    hide Key;
    hide Varint;
    hide MessageBytes;
    RowsGrow(field, rows, row, 0);
    RowsOf(field, rows + [row]);
    RowsOf(field, rows);
    VarintGrows(|MessageBytes(field.kind.schema, row)|, |raw|);
    if !old_.Rows? {
      assert RowsBytes(field, Rows([]), 0) == [];
    }
  }

  lemma {:induction false} NoFields(schema: Schema, i: nat)
    requires i <= |schema.fields|
    ensures FieldsBytes(schema, DefaultMessage(schema), i) == []
    decreases |schema.fields| - i
  {
    if i < |schema.fields| {
      NoFields(schema, i + 1);
    }
  }

  lemma {:induction false} MessageIsShortest(schema: Schema, m: Message, s: bytes, depth: nat)
    requires Plain(schema) && |m.values| == |schema.fields| && Merge(schema, m, s, depth).Some?
    ensures |MessageBytes(schema, Merge(schema, m, s, depth).value)| <= |MessageBytes(schema, m)| + |s|
    decreases |s|, 1
  {
    hide Key;
    hide FieldBytes;
    hide FieldsBytes;
    hide Skip;
    if s != [] {
      var parts, rest := ReadKey(s).value, ReadKey(s).rest;
      var i := FieldIndex(schema, parts.tag);
      if i == |schema.fields| {
        MessageIsShortest(schema, m, Skip(parts, rest, depth).rest, depth);
      } else {
        var field := schema.fields[i];
        var r := MergeValue(field.kind, m.values[i], parts.wire, rest, depth);
        KeyIsShortest(field, s);
        ValueIsShortest(field, m.values[i], parts.wire, rest, depth);
        FieldsChange(schema, m, i, r.value, 0);
        MessageIsShortest(schema, Message(m.values[i := r.value]), r.rest, depth);
      }
    }
  }

  /** No bytes that decode to a message are fewer than those written for it. */
  lemma DecodedIsNoShorter(schema: Schema, s: bytes)
    requires Plain(schema) && DecodeMessage(schema, s).Some?
    ensures |MessageBytes(schema, DecodeMessage(schema, s).value)| <= |s|
  {
    hide Merge;
    MessageIsShortest(schema, DefaultMessage(schema), s, MAX_DEPTH);
    NoFields(schema, 0);
  }
}
