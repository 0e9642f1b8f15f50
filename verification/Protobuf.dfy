/**
 The Protocol Buffers wire format, for messages described by a schema.

 A message is a list of values, one per field of its schema. Encoding writes the fields in order and
 leaves out a field that holds its default. Decoding merges fields in whatever order they come: the
 last value of a field wins, rows of a repeated message add up, a known tag with the wrong wire type is
 refused, and an unknown tag is skipped. The main lemma, `MessageRoundTrip`, is proved once for every
 schema.
 */
module Protobuf {
  import opened Bytes

  datatype Parsed<+T> = Parsed(value: T, rest: bytes) | Malformed

  // ---- Base 128 varints ----

  function Varint(n: nat): (s: bytes)
    ensures |s| > 0
  {
    if n < 128 then [n] else [128 + n % 128] + Varint(n / 128)
  }

  /** How many values a varint of at most `room` bytes may take; with ten bytes, the last holds one bit. */
  function VarintLimit(room: nat): nat
    requires room > 0
  {
    if room == 1 then 2 else 128 * VarintLimit(room - 1)
  }

  lemma VarintLimitIsU64()
    ensures VarintLimit(10) == U64_LIMIT
  {
    assert VarintLimit(1) == 2;
    assert VarintLimit(2) == 128 * VarintLimit(1);
    assert VarintLimit(3) == 128 * VarintLimit(2);
    assert VarintLimit(4) == 128 * VarintLimit(3);
    assert VarintLimit(5) == 128 * VarintLimit(4);
    assert VarintLimit(6) == 128 * VarintLimit(5);
    assert VarintLimit(7) == 128 * VarintLimit(6);
    assert VarintLimit(8) == 128 * VarintLimit(7);
    assert VarintLimit(9) == 128 * VarintLimit(8);
    assert VarintLimit(10) == 128 * VarintLimit(9);
  }

  function ReadVarintWithin(s: bytes, room: nat): (r: Parsed<nat>)
    requires room > 0
    ensures r.Parsed? ==> |r.rest| < |s| && r.value < VarintLimit(room)
  {
    if s == [] then Malformed
    else if room == 1 then (if s[0] < 2 then Parsed(s[0], s[1..]) else Malformed)
    else if s[0] < 128 then VarintLimitGrows(room); Parsed(s[0], s[1..])
    else
      match ReadVarintWithin(s[1..], room - 1)
      case Malformed => Malformed
      case Parsed(high, rest) => Parsed(s[0] - 128 + 128 * high, rest)
  }

  lemma VarintLimitGrows(room: nat)
    requires room > 1
    ensures VarintLimit(room) >= 256
  {
    if room > 2 {
      VarintLimitGrows(room - 1);
    }
  }

  function ReadVarint(s: bytes): (r: Parsed<nat>)
    ensures r.Parsed? ==> |r.rest| < |s| && r.value < U64_LIMIT
  {
    VarintLimitIsU64();
    ReadVarintWithin(s, 10)
  }

  lemma {:induction false} VarintRoundTripWithin(n: nat, room: nat, rest: bytes)
    requires room > 0 && n < VarintLimit(room)
    ensures ReadVarintWithin(Varint(n) + rest, room) == Parsed(n, rest)
    decreases room
  {
    var s := Varint(n) + rest;
    if room == 1 || n < 128 {
      assert s[0] == n && s[1..] == rest;
    } else {
      assert s[0] == 128 + n % 128 && s[1..] == Varint(n / 128) + rest;
      VarintRoundTripWithin(n / 128, room - 1, rest);
      assert n == n % 128 + 128 * (n / 128);
    }
  }

  lemma VarintRoundTrip(n: nat, rest: bytes)
    requires n < U64_LIMIT
    ensures ReadVarint(Varint(n) + rest) == Parsed(n, rest)
  {
    VarintLimitIsU64();
    VarintRoundTripWithin(n, 10, rest);
  }

  function Pow128(k: nat): (p: nat)
    ensures p > 0
  {
    if k == 0 then 1 else 128 * Pow128(k - 1)
  }

  lemma {:induction false} VarintAtMost(n: nat, k: nat)
    requires k > 0 && n < Pow128(k)
    ensures |Varint(n)| <= k
    decreases k
  {
    if n >= 128 {
      VarintAtMost(n / 128, k - 1);
    }
  }

  lemma {:induction false} VarintAtLeast(n: nat, k: nat)
    requires n >= Pow128(k)
    ensures |Varint(n)| > k
    decreases k
  {
    if k > 0 {
      VarintAtLeast(n / 128, k - 1);
    }
  }

  lemma Pow128Values()
    ensures Pow128(1) == 0x80 && Pow128(2) == 0x4000 && Pow128(3) == 0x20_0000 && Pow128(4) == 0x1000_0000
    ensures Pow128(5) == 0x8_0000_0000 && Pow128(8) == 0x100_0000_0000_0000 && Pow128(9) == SLICE_LIMIT
    ensures Pow128(10) == 0x40_0000_0000_0000_0000
  {
    assert Pow128(1) == 128 * Pow128(0);
    assert Pow128(2) == 128 * Pow128(1);
    assert Pow128(3) == 128 * Pow128(2);
    assert Pow128(4) == 128 * Pow128(3);
    assert Pow128(5) == 128 * Pow128(4);
    assert Pow128(6) == 128 * Pow128(5);
    assert Pow128(7) == 128 * Pow128(6);
    assert Pow128(8) == 128 * Pow128(7);
    assert Pow128(9) == 128 * Pow128(8);
    assert Pow128(10) == 128 * Pow128(9);
  }

  // ---- UTF-8, as a string field demands ----

  predicate Continuation(b: byte) {
    0x80 <= b < 0xC0
  }

  predicate Utf8(s: bytes) {
    if s == [] then true
    else if s[0] < 0x80 then Utf8(s[1..])
    else if 0xC2 <= s[0] <= 0xDF then
      |s| >= 2 && Continuation(s[1]) && Utf8(s[2..])
    else if 0xE0 <= s[0] <= 0xEF then
      && |s| >= 3 && Continuation(s[1]) && Continuation(s[2])
      && (s[0] == 0xE0 ==> s[1] >= 0xA0) && (s[0] == 0xED ==> s[1] < 0xA0)
      && Utf8(s[3..])
    else if 0xF0 <= s[0] <= 0xF4 then
      && |s| >= 4 && Continuation(s[1]) && Continuation(s[2]) && Continuation(s[3])
      && (s[0] == 0xF0 ==> s[1] >= 0x90) && (s[0] == 0xF4 ==> s[1] < 0x90)
      && Utf8(s[4..])
    else false
  }

  lemma {:induction false} AsciiIsUtf8(s: bytes)
    requires forall b <- s :: b < 0x80
    ensures Utf8(s)
  {
    if s != [] {
      assert s[0] in s;
      assert forall b <- s[1..] :: b in s;
      AsciiIsUtf8(s[1..]);
    }
  }

  // ---- Schemas and messages ----

  datatype Kind = Fixed64 | Fixed32 | UInt64 | UInt32 | Enum | Bool | Blob | Text | Repeated(schema: Schema)

  datatype Field = Field(tag: nat, kind: Kind)

  datatype Schema = Schema(fields: seq<Field>)

  datatype Value = Number(n: int) | Data(s: bytes) | Rows(rows: seq<Message>)

  datatype Message = Message(values: seq<Value>)

  const TAG_LIMIT: nat := 0x2000_0000

  predicate DistinctTags(schema: Schema) {
    && (forall i :: 0 <= i < |schema.fields| ==> 1 <= schema.fields[i].tag < TAG_LIMIT)
    && (forall i, j :: 0 <= i < j < |schema.fields| ==> schema.fields[i].tag != schema.fields[j].tag)
  }

  /** A number that the field's Rust type can hold. */
  predicate InRange(kind: Kind, n: int) {
    match kind
    case Fixed64 | UInt64 => 0 <= n < U64_LIMIT
    case Fixed32 | UInt32 => 0 <= n < U32_LIMIT
    case Enum => -0x8000_0000 <= n < 0x8000_0000
    case Bool => n == 0 || n == 1
    case _ => false
  }

  predicate IsNumeric(kind: Kind) {
    !kind.Blob? && !kind.Text? && !kind.Repeated?
  }

  function Default(kind: Kind): Value {
    match kind
    case Blob | Text => Data([])
    case Repeated(_) => Rows([])
    case _ => Number(0)
  }

  function DefaultMessage(schema: Schema): (m: Message)
    ensures |m.values| == |schema.fields|
  {
    Message(seq(|schema.fields|, i requires 0 <= i < |schema.fields| => Default(schema.fields[i].kind)))
  }

  // ---- Encoding ----

  function WireType(kind: Kind): (w: nat)
    ensures w in {0, 1, 2, 5}
  {
    match kind
    case Fixed64 => 1
    case Fixed32 => 5
    case Blob | Text | Repeated(_) => 2
    case _ => 0
  }

  function Key(field: Field): bytes {
    Varint(8 * field.tag + WireType(field.kind))
  }

  /** A negative enumeration value is sign-extended to 64 bits. */
  function ToWire(n: int): nat {
    if n < 0 then n % U64_LIMIT else n
  }

  function NumberBytes(kind: Kind, n: int): bytes {
    if kind.Fixed64? then LittleEndian(ToWire(n), 8)
    else if kind.Fixed32? then LittleEndian(ToWire(n), 4)
    else Varint(ToWire(n))
  }

  function MessageBytes(schema: Schema, m: Message): bytes
    requires |m.values| == |schema.fields|
    decreases m, |schema.fields| + 1
  {
    FieldsBytes(schema, m, 0)
  }

  /** The fields from the `i`th on. */
  function FieldsBytes(schema: Schema, m: Message, i: nat): bytes
    requires |m.values| == |schema.fields| && i <= |schema.fields|
    decreases m, |schema.fields| - i
  {
    if i == |schema.fields| then []
    else FieldBytes(schema.fields[i], m.values[i]) + FieldsBytes(schema, m, i + 1)
  }

  function FieldBytes(field: Field, v: Value): bytes
    decreases v, if v.Rows? then |v.rows| + 1 else 0
  {
    if v == Default(field.kind) then []
    else
      match v
      case Number(n) => Key(field) + NumberBytes(field.kind, n)
      case Data(s) => Key(field) + (Varint(|s|) + s)
      case Rows(rows) => if field.kind.Repeated? then RowsBytes(field, v, 0) else []
  }

  /** The rows from the `k`th on, each with its own key and length. */
  function RowsBytes(field: Field, v: Value, k: nat): bytes
    requires field.kind.Repeated? && v.Rows? && k <= |v.rows|
    decreases v, |v.rows| - k
  {
    if k == |v.rows| then []
    else
      var schema := field.kind.schema;
      var body := if |v.rows[k].values| == |schema.fields| then MessageBytes(schema, v.rows[k]) else [];
      Key(field) + (Varint(|body|) + body + RowsBytes(field, v, k + 1))
  }

  /** Numbers in range, strings in UTF-8, and rows that follow their own schema. */
  predicate Typed(schema: Schema, m: Message)
    decreases m
  {
    && DistinctTags(schema)
    && |m.values| == |schema.fields|
    && forall i :: 0 <= i < |m.values| ==> TypedValue(schema.fields[i].kind, m.values[i])
  }

  predicate TypedValue(kind: Kind, v: Value)
    decreases v
  {
    match kind
    case Blob => v.Data?
    case Text => v.Data? && Utf8(v.s)
    case Repeated(schema) => v.Rows? && forall k :: 0 <= k < |v.rows| ==> Typed(schema, v.rows[k])
    case _ => v.Number? && InRange(kind, v.n)
  }

  // ---- Sizes ----

  lemma KeyIsOneByte(field: Field)
    requires field.tag <= 15
    ensures |Key(field)| == 1
  {
  }

  /** A varint field takes its one-byte key and at most `k` bytes, exactly `k` when the number needs them. */
  lemma VarintFieldSize(field: Field, n: nat, k: nat)
    requires field.tag <= 15 && field.kind in {UInt32, UInt64} && k > 0 && n < Pow128(k)
    ensures |FieldBytes(field, Number(n))| <= 1 + k
    ensures n >= Pow128(k - 1) ==> |FieldBytes(field, Number(n))| == 1 + k
  {
    KeyIsOneByte(field);
    VarintAtMost(n, k);
    if n >= Pow128(k - 1) {
      VarintAtLeast(n, k - 1);
    }
  }

  lemma {:induction false} FieldsAtMost(schema: Schema, m: Message, i: nat, most: nat)
    requires |m.values| == |schema.fields| && i <= |schema.fields|
    requires forall j :: i <= j < |schema.fields| ==> |FieldBytes(schema.fields[j], m.values[j])| <= most
    ensures |FieldsBytes(schema, m, i)| <= most * (|schema.fields| - i)
    decreases |schema.fields| - i
  {
    hide FieldBytes;
    if i < |schema.fields| {
      FieldsAtMost(schema, m, i + 1, most);
      assert most * (|schema.fields| - i) == most * (|schema.fields| - (i + 1)) + most;
    }
  }

  // ---- Decoding ----

  const MAX_DEPTH: nat := 100

  datatype KeyParts = KeyParts(tag: nat, wire: nat)

  function ReadKey(s: bytes): (r: Parsed<KeyParts>)
    ensures r.Parsed? ==> |r.rest| < |s|
  {
    match ReadVarint(s)
    case Malformed => Malformed
    case Parsed(key, rest) =>
      if key >= U32_LIMIT || key % 8 > 5 || key / 8 == 0 then Malformed
      else Parsed(KeyParts(key / 8, key % 8), rest)
  }

  function TakeBytes(s: bytes, n: nat): (r: Parsed<bytes>)
    ensures r.Parsed? ==> |r.rest| == |s| - n && |r.value| == n
  {
    if n > |s| then Malformed else Parsed(s[..n], s[n..])
  }

  function ReadDelimited(s: bytes): (r: Parsed<bytes>)
    ensures r.Parsed? ==> |r.rest| + |r.value| < |s|
  {
    match ReadVarint(s)
    case Malformed => Malformed
    case Parsed(n, rest) => TakeBytes(rest, n)
  }

  function ReadFixed(s: bytes, width: nat): (r: Parsed<int>)
    ensures r.Parsed? ==> |r.rest| <= |s|
  {
    match TakeBytes(s, width)
    case Malformed => Malformed
    case Parsed(raw, rest) => Parsed(LittleEndianValue(raw), rest)
  }

  /** A varint cut down to the type it is read into. */
  function FromWire(kind: Kind, w: nat): int {
    match kind
    case UInt32 => w % U32_LIMIT
    case Enum => var low := w % U32_LIMIT; if low >= 0x8000_0000 then low - U32_LIMIT else low
    case Bool => if w == 0 then 0 else 1
    case _ => w
  }

  function ReadNumber(kind: Kind, s: bytes): (r: Parsed<int>)
    ensures r.Parsed? ==> |r.rest| <= |s|
  {
    match kind
    case Fixed64 => ReadFixed(s, 8)
    case Fixed32 => ReadFixed(s, 4)
    case _ =>
      match ReadVarint(s)
      case Malformed => Malformed
      case Parsed(w, rest) => Parsed(FromWire(kind, w), rest)
  }

  /** Step over a field that the schema does not name. */
  function Skip(parts: KeyParts, s: bytes, depth: nat): (r: Parsed<()>)
    ensures r.Parsed? ==> |r.rest| <= |s|
    decreases |s|, 1
  {
    if depth == 0 then Malformed
    else
      match parts.wire
      case 0 => (match ReadVarint(s) case Malformed => Malformed case Parsed(_, rest) => Parsed((), rest))
      case 1 => (match TakeBytes(s, 8) case Malformed => Malformed case Parsed(_, rest) => Parsed((), rest))
      case 2 => (match ReadDelimited(s) case Malformed => Malformed case Parsed(_, rest) => Parsed((), rest))
      case 3 => SkipGroup(parts.tag, s, depth)
      case 5 => (match TakeBytes(s, 4) case Malformed => Malformed case Parsed(_, rest) => Parsed((), rest))
      case _ => Malformed
  }

  function SkipGroup(tag: nat, s: bytes, depth: nat): (r: Parsed<()>)
    requires depth > 0
    ensures r.Parsed? ==> |r.rest| < |s|
    decreases |s|, 0
  {
    match ReadKey(s)
    case Malformed => Malformed
    case Parsed(inner, rest) =>
      if inner.wire == 4 then (if inner.tag == tag then Parsed((), rest) else Malformed)
      else
        match Skip(inner, rest, depth - 1)
        case Malformed => Malformed
        case Parsed(_, rest') => SkipGroup(tag, rest', depth)
  }

  function FieldIndex(schema: Schema, tag: nat, from: nat := 0): (i: nat)
    requires from <= |schema.fields|
    ensures from <= i <= |schema.fields|
    ensures i < |schema.fields| ==> schema.fields[i].tag == tag
    ensures forall j :: from <= j < i ==> schema.fields[j].tag != tag
    decreases |schema.fields| - from
  {
    if from == |schema.fields| || schema.fields[from].tag == tag then from
    else FieldIndex(schema, tag, from + 1)
  }

  function MergeValue(kind: Kind, old_: Value, wire: nat, s: bytes, depth: nat): (r: Parsed<Value>)
    ensures r.Parsed? ==> |r.rest| <= |s|
    decreases |s|, 0
  {
    if wire != WireType(kind) then Malformed
    else if IsNumeric(kind) then
      (match ReadNumber(kind, s) case Malformed => Malformed case Parsed(n, rest) => Parsed(Number(n), rest))
    else
      match ReadDelimited(s)
      case Malformed => Malformed
      case Parsed(raw, rest) =>
        match kind
        case Repeated(schema) =>
          if depth == 0 then Malformed
          else
            (match Merge(schema, DefaultMessage(schema), raw, depth - 1)
             case None => Malformed
             case Some(row) => Parsed(Rows((if old_.Rows? then old_.rows else []) + [row]), rest))
        case Text => if Utf8(raw) then Parsed(Data(raw), rest) else Malformed
        case _ => Parsed(Data(raw), rest)
  }

  function Merge(schema: Schema, m: Message, s: bytes, depth: nat): (r: Option<Message>)
    requires |m.values| == |schema.fields|
    ensures r.Some? ==> |r.value.values| == |schema.fields|
    decreases |s|, 1
  {
    if s == [] then Some(m)
    else
      match ReadKey(s)
      case Malformed => None
      case Parsed(parts, rest) =>
        var i := FieldIndex(schema, parts.tag);
        if i == |schema.fields| then
          (match Skip(parts, rest, depth) case Malformed => None case Parsed(_, rest') => Merge(schema, m, rest', depth))
        else
          match MergeValue(schema.fields[i].kind, m.values[i], parts.wire, rest, depth)
          case Malformed => None
          case Parsed(v, rest') => Merge(schema, Message(m.values[i := v]), rest', depth)
  }

  function DecodeMessage(schema: Schema, s: bytes): (r: Option<Message>)
    ensures r.Some? ==> |r.value.values| == |schema.fields|
  {
    Merge(schema, DefaultMessage(schema), s, MAX_DEPTH)
  }

  // ---- Decoding undoes encoding, for every schema ----

  lemma KeyRoundTrip(field: Field, rest: bytes)
    requires 1 <= field.tag < TAG_LIMIT
    ensures ReadKey(Key(field) + rest) == Parsed(KeyParts(field.tag, WireType(field.kind)), rest)
  {
    VarintRoundTrip(8 * field.tag + WireType(field.kind), rest);
  }

  lemma DelimitedRoundTrip(s: bytes, rest: bytes)
    requires |s| < U64_LIMIT
    ensures ReadDelimited(Varint(|s|) + s + rest) == Parsed(s, rest)
  {
    VarintRoundTrip(|s|, s + rest);
    Associative(Varint(|s|), s, rest);
    assert (s + rest)[..|s|] == s && (s + rest)[|s|..] == rest;
  }

  lemma FixedRoundTrip(n: nat, width: nat, rest: bytes)
    requires n < Capacity(width)
    ensures ReadFixed(LittleEndian(n, width) + rest, width) == Parsed(n, rest)
  {
    var s := LittleEndian(n, width) + rest;
    assert s[..width] == LittleEndian(n, width) && s[width..] == rest;
    LittleEndianRoundTrip(n, width);
  }

  lemma WireRoundTrip(kind: Kind, n: int)
    requires InRange(kind, n)
    ensures ToWire(n) < U64_LIMIT && FromWire(kind, ToWire(n)) == n
  {
    if n < 0 {
      assert n % U64_LIMIT == n + U64_LIMIT;
      assert (n + U64_LIMIT) % U32_LIMIT == n + U32_LIMIT;
    }
  }

  lemma NumberRoundTrip(kind: Kind, n: int, rest: bytes)
    requires InRange(kind, n)
    ensures ReadNumber(kind, NumberBytes(kind, n) + rest) == Parsed(n, rest)
  {
    if kind.Fixed64? {
      Capacities();
      FixedRoundTrip(n, 8, rest);
    } else if kind.Fixed32? {
      Capacities();
      FixedRoundTrip(n, 4, rest);
    } else {
      WireRoundTrip(kind, n);
      VarintRoundTrip(ToWire(n), rest);
    }
  }

  /** Reading the key of field `i` leads to merging a value into field `i`. */
  lemma MergesField(schema: Schema, m: Message, i: nat, body: bytes, depth: nat)
    requires DistinctTags(schema) && |m.values| == |schema.fields| && i < |schema.fields|
    ensures
      var field := schema.fields[i];
      Merge(schema, m, Key(field) + body, depth) ==
      match MergeValue(field.kind, m.values[i], WireType(field.kind), body, depth)
      case Malformed => None
      case Parsed(v, rest) => Merge(schema, Message(m.values[i := v]), rest, depth)
  {
    var field := schema.fields[i];
    KeyRoundTrip(field, body);
    assert FieldIndex(schema, field.tag) == i;
  }

  /** How deep messages nest inside a message. */
  function Nesting(schema: Schema): nat
    decreases schema, |schema.fields| + 1
  {
    NestingFrom(schema, 0)
  }

  function NestingFrom(schema: Schema, i: nat): nat
    requires i <= |schema.fields|
    decreases schema, |schema.fields| - i
  {
    if i == |schema.fields| then 0
    else
      var rest := NestingFrom(schema, i + 1);
      if schema.fields[i].kind.Repeated? then
        var inner := 1 + Nesting(schema.fields[i].kind.schema);
        if inner > rest then inner else rest
      else rest
  }

  /** The message whose first `i` fields have been read and whose others still hold their defaults. */
  function Partial(schema: Schema, m: Message, i: nat): (p: Message)
    requires |m.values| == |schema.fields| && i <= |schema.fields|
    ensures |p.values| == |schema.fields|
  {
    Message(m.values[..i] + DefaultMessage(schema).values[i..])
  }

  lemma NothingRead(schema: Schema, m: Message)
    requires |m.values| == |schema.fields|
    ensures Partial(schema, m, 0) == DefaultMessage(schema)
  {
    assert Partial(schema, m, 0).values == DefaultMessage(schema).values;
  }

  lemma {:induction false} MergesFrom(schema: Schema, m: Message, i: nat, depth: nat)
    requires Typed(schema, m) && i <= |schema.fields| && NestingFrom(schema, i) <= depth
    requires |FieldsBytes(schema, m, i)| < U64_LIMIT
    ensures Merge(schema, Partial(schema, m, i), FieldsBytes(schema, m, i), depth) == Some(m)
    decreases m, |schema.fields| - i
  {
    if i == |schema.fields| {
      AllRead(schema, m);
    } else {
      MergesFieldAt(schema, m, i, depth);
      MergesFrom(schema, m, i + 1, depth);
    }
  }

  lemma AllRead(schema: Schema, m: Message)
    requires |m.values| == |schema.fields|
    ensures Partial(schema, m, |schema.fields|) == m
  {
    assert Partial(schema, m, |schema.fields|).values == m.values;
  }

  lemma NextRead(schema: Schema, m: Message, i: nat)
    requires |m.values| == |schema.fields| && i < |schema.fields|
    ensures var p := Partial(schema, m, i);
      p.values[i] == Default(schema.fields[i].kind) && Message(p.values[i := m.values[i]]) == Partial(schema, m, i + 1)
  {
    assert Partial(schema, m, i).values[i := m.values[i]] == Partial(schema, m, i + 1).values;
  }

  lemma {:induction false} MergesFieldAt(schema: Schema, m: Message, i: nat, depth: nat)
    requires Typed(schema, m) && i < |schema.fields| && NestingFrom(schema, i) <= depth
    requires |FieldsBytes(schema, m, i)| < U64_LIMIT
    ensures Merge(schema, Partial(schema, m, i), FieldsBytes(schema, m, i), depth)
         == Merge(schema, Partial(schema, m, i + 1), FieldsBytes(schema, m, i + 1), depth)
    decreases m, |schema.fields| - i, 0
  {
    var p := Partial(schema, m, i);
    var field, v := schema.fields[i], m.values[i];
    var rest := FieldsBytes(schema, m, i + 1);
    assert TypedValue(field.kind, v);
    NextRead(schema, m, i);
    if v == Default(field.kind) {
      assert p.values[i := v] == p.values;
      assert FieldsBytes(schema, m, i) == rest;
    } else {
      match v {
        case Number(n) => MergesNumber(schema, p, i, n, rest, depth);
        case Data(s) => MergesData(schema, p, i, s, rest, depth);
        case Rows(rows) => MergesAllRows(schema, p, i, v, rest, depth);
      }
    }
  }

  lemma {:induction false} MessageMerges(schema: Schema, m: Message, depth: nat)
    requires Typed(schema, m) && Nesting(schema) <= depth && |MessageBytes(schema, m)| < U64_LIMIT
    ensures Merge(schema, DefaultMessage(schema), MessageBytes(schema, m), depth) == Some(m)
    decreases m, |schema.fields| + 1
  {
    NothingRead(schema, m);
    MergesFrom(schema, m, 0, depth);
  }

  lemma MergesNumber(schema: Schema, p: Message, i: nat, n: int, rest: bytes, depth: nat)
    requires DistinctTags(schema) && |p.values| == |schema.fields| && i < |schema.fields|
    requires InRange(schema.fields[i].kind, n) && Number(n) != Default(schema.fields[i].kind)
    ensures Merge(schema, p, FieldBytes(schema.fields[i], Number(n)) + rest, depth)
         == Merge(schema, Message(p.values[i := Number(n)]), rest, depth)
  {
    var field := schema.fields[i];
    var body := NumberBytes(field.kind, n) + rest;
    assert MergeValue(field.kind, p.values[i], WireType(field.kind), body, depth) == Parsed(Number(n), rest) by {
      assert IsNumeric(field.kind);
      NumberRoundTrip(field.kind, n, rest);
    }
    MergesField(schema, p, i, body, depth);
    Associative(Key(field), NumberBytes(field.kind, n), rest);
  }

  lemma MergesData(schema: Schema, p: Message, i: nat, s: bytes, rest: bytes, depth: nat)
    requires DistinctTags(schema) && |p.values| == |schema.fields| && i < |schema.fields|
    requires TypedValue(schema.fields[i].kind, Data(s)) && s != [] && |s| < U64_LIMIT
    ensures Merge(schema, p, FieldBytes(schema.fields[i], Data(s)) + rest, depth)
         == Merge(schema, Message(p.values[i := Data(s)]), rest, depth)
  {
    var field := schema.fields[i];
    var body := Varint(|s|) + s + rest;
    DelimitedRoundTrip(s, rest);
    assert MergeValue(field.kind, p.values[i], WireType(field.kind), body, depth) == Parsed(Data(s), rest);
    MergesField(schema, p, i, body, depth);
    Associative(Key(field), Varint(|s|) + s, rest);
  }

  /** A field of rows, of which `k` have been read, and what is still to be read. */
  ghost function RowsLeft(schema: Schema, p: Message, i: nat, v: Value, k: nat, rest: bytes, depth: nat): Option<Message>
    requires |p.values| == |schema.fields| && i < |schema.fields|
    requires schema.fields[i].kind.Repeated? && v.Rows? && k <= |v.rows|
  {
    Merge(schema, Message(p.values[i := Rows(v.rows[..k])]), RowsBytes(schema.fields[i], v, k) + rest, depth)
  }

  lemma {:induction false} MergesRows(schema: Schema, p: Message, i: nat, v: Value, k: nat, rest: bytes, depth: nat)
    requires DistinctTags(schema) && |p.values| == |schema.fields| && i < |schema.fields|
    requires schema.fields[i].kind.Repeated? && TypedValue(schema.fields[i].kind, v) && k <= |v.rows|
    requires Nesting(schema.fields[i].kind.schema) < depth
    requires |RowsBytes(schema.fields[i], v, k)| < U64_LIMIT
    ensures RowsLeft(schema, p, i, v, k, rest, depth) == RowsLeft(schema, p, i, v, |v.rows|, rest, depth)
    decreases v, |v.rows| - k
  {
    if k < |v.rows| {
      var inner, row := schema.fields[i].kind.schema, v.rows[k];
      assert Typed(inner, row);
      RowsShrink(schema.fields[i], v, k);
      MessageMerges(inner, row, depth - 1);
      MergesNextRow(schema, p, i, v, k, rest, depth);
      MergesRows(schema, p, i, v, k + 1, rest, depth);
    }
  }

  lemma MergesAllRows(schema: Schema, p: Message, i: nat, v: Value, rest: bytes, depth: nat)
    requires DistinctTags(schema) && |p.values| == |schema.fields| && i < |schema.fields|
    requires schema.fields[i].kind.Repeated? && TypedValue(schema.fields[i].kind, v)
    requires p.values[i] == Rows([]) && v != Rows([])
    requires Nesting(schema.fields[i].kind.schema) < depth
    requires |RowsBytes(schema.fields[i], v, 0)| < U64_LIMIT
    ensures Merge(schema, p, FieldBytes(schema.fields[i], v) + rest, depth)
         == Merge(schema, Message(p.values[i := v]), rest, depth)
    decreases v, |v.rows| + 1
  {
    assert p.values[i := Rows(v.rows[..0])] == p.values;
    assert v.rows[..|v.rows|] == v.rows;
    assert RowsBytes(schema.fields[i], v, |v.rows|) + rest == rest;
    MergesRows(schema, p, i, v, 0, rest, depth);
  }

  lemma RowsShrink(field: Field, v: Value, k: nat)
    requires field.kind.Repeated? && v.Rows? && k < |v.rows|
    requires |v.rows[k].values| == |field.kind.schema.fields|
    ensures var body := MessageBytes(field.kind.schema, v.rows[k]);
      && RowsBytes(field, v, k) == Key(field) + (Varint(|body|) + body + RowsBytes(field, v, k + 1))
      && |body| <= |RowsBytes(field, v, k)|
      && |RowsBytes(field, v, k + 1)| <= |RowsBytes(field, v, k)|
  {
  }

  lemma MergesNextRow(schema: Schema, p: Message, i: nat, v: Value, k: nat, rest: bytes, depth: nat)
    requires DistinctTags(schema) && |p.values| == |schema.fields| && i < |schema.fields| && depth > 0
    requires schema.fields[i].kind.Repeated? && v.Rows? && k < |v.rows|
    requires |v.rows[k].values| == |schema.fields[i].kind.schema.fields|
    requires var inner := schema.fields[i].kind.schema;
      && |MessageBytes(inner, v.rows[k])| < U64_LIMIT
      && Merge(inner, DefaultMessage(inner), MessageBytes(inner, v.rows[k]), depth - 1) == Some(v.rows[k])
    ensures RowsLeft(schema, p, i, v, k, rest, depth) == RowsLeft(schema, p, i, v, k + 1, rest, depth)
  {
    var field, row := schema.fields[i], v.rows[k];
    var body := MessageBytes(field.kind.schema, row);
    var after := RowsBytes(field, v, k + 1);
    var q := Message(p.values[i := Rows(v.rows[..k])]);
    RowsShrink(field, v, k);
    AppendInside(Key(field), Varint(|body|) + body, after, rest);
    assert v.rows[..k] + [row] == v.rows[..k + 1];
    assert q.values[i := Rows(v.rows[..k + 1])] == p.values[i := Rows(v.rows[..k + 1])];
    MergesRow(schema, q, i, v.rows[..k], row, after + rest, depth);
  }

  lemma AppendInside(a: bytes, b: bytes, c: bytes, d: bytes)
    ensures a + (b + c) + d == a + (b + (c + d))
  {
  }

  lemma MergesRow(schema: Schema, p: Message, i: nat, rows: seq<Message>, row: Message, rest: bytes, depth: nat)
    requires DistinctTags(schema) && |p.values| == |schema.fields| && i < |schema.fields| && depth > 0
    requires schema.fields[i].kind.Repeated? && p.values[i] == Rows(rows)
    requires |row.values| == |schema.fields[i].kind.schema.fields|
    requires var inner := schema.fields[i].kind.schema;
      && |MessageBytes(inner, row)| < U64_LIMIT
      && Merge(inner, DefaultMessage(inner), MessageBytes(inner, row), depth - 1) == Some(row)
    ensures var field := schema.fields[i];
      var body := MessageBytes(field.kind.schema, row);
      Merge(schema, p, Key(field) + (Varint(|body|) + body + rest), depth)
      == Merge(schema, Message(p.values[i := Rows(rows + [row])]), rest, depth)
  {
    var field := schema.fields[i];
    var body := MessageBytes(field.kind.schema, row);
    var tail := Varint(|body|) + body + rest;
    DelimitedRoundTrip(body, rest);
    assert MergeValue(field.kind, p.values[i], WireType(field.kind), tail, depth) == Parsed(Rows(rows + [row]), rest);
    MergesField(schema, p, i, tail, depth);
  }

  /** Every message of every schema reads back as it was written. */
  lemma MessageRoundTrip(schema: Schema, m: Message)
    requires Typed(schema, m) && Nesting(schema) <= MAX_DEPTH && |MessageBytes(schema, m)| < U64_LIMIT
    ensures DecodeMessage(schema, MessageBytes(schema, m)) == Some(m)
  {
    MessageMerges(schema, m, MAX_DEPTH);
  }

  // ---- What a decoder returns is again a message of the schema ----

  predicate DistinctTagsWithin(schema: Schema)
  {
    && DistinctTags(schema)
    && forall i :: 0 <= i < |schema.fields| && schema.fields[i].kind.Repeated? ==>
      DistinctTagsWithin(schema.fields[i].kind.schema)
  }

  /** A schema whose `i`th field has tag `tag(i)` and the kind of that tag. */
  function Tagged(count: nat, tag: nat -> nat, kind: nat -> Kind): (schema: Schema)
    ensures |schema.fields| == count
    ensures forall i :: 0 <= i < count ==> schema.fields[i] == Field(tag(i), kind(tag(i)))
  {
    Schema(seq(count, i requires 0 <= i < count => Field(tag(i), kind(tag(i)))))
  }

  lemma TaggedIsSound(count: nat, tag: nat -> nat, kind: nat -> Kind, depth: nat)
    requires forall i: nat :: 1 <= tag(i) < TAG_LIMIT
    requires forall i: nat, j: nat :: i < j < count ==> tag(i) < tag(j)
    requires forall t: nat :: kind(t).Repeated? ==>
      DistinctTagsWithin(kind(t).schema) && Nesting(kind(t).schema) <= depth
    ensures DistinctTagsWithin(Tagged(count, tag, kind)) && Nesting(Tagged(count, tag, kind)) <= depth + 1
  {
    NestingBound(Tagged(count, tag, kind), 0, depth);
  }

  lemma {:induction false} NestingBound(schema: Schema, i: nat, depth: nat)
    requires i <= |schema.fields|
    requires forall j :: 0 <= j < |schema.fields| && schema.fields[j].kind.Repeated? ==>
      Nesting(schema.fields[j].kind.schema) <= depth
    ensures NestingFrom(schema, i) <= depth + 1
    decreases |schema.fields| - i
  {
    if i < |schema.fields| {
      NestingBound(schema, i + 1, depth);
    }
  }

  lemma DefaultIsTyped(schema: Schema)
    requires DistinctTagsWithin(schema)
    ensures Typed(schema, DefaultMessage(schema))
  {
  }

  lemma NumberInRange(kind: Kind, s: bytes)
    requires IsNumeric(kind) && ReadNumber(kind, s).Parsed?
    ensures InRange(kind, ReadNumber(kind, s).value)
  {
    Capacities();
    if kind.Fixed64? {
      LittleEndianUnique(s[..8]);
    } else if kind.Fixed32? {
      LittleEndianUnique(s[..4]);
    }
  }

  lemma {:induction false} MergedValueIsTyped(kind: Kind, v: Value, wire: nat, s: bytes, depth: nat)
    requires TypedValue(kind, v) && MergeValue(kind, v, wire, s, depth).Parsed?
    requires kind.Repeated? ==> DistinctTagsWithin(kind.schema)
    ensures TypedValue(kind, MergeValue(kind, v, wire, s, depth).value)
    decreases |s|, 0
  {
    if IsNumeric(kind) {
      NumberInRange(kind, s);
    } else if kind.Repeated? {
      var raw := ReadDelimited(s).value;
      DefaultIsTyped(kind.schema);
      MergedIsTyped(kind.schema, DefaultMessage(kind.schema), raw, depth - 1);
    }
  }

  lemma {:induction false} MergedIsTyped(schema: Schema, m: Message, s: bytes, depth: nat)
    requires DistinctTagsWithin(schema) && Typed(schema, m) && Merge(schema, m, s, depth).Some?
    ensures Typed(schema, Merge(schema, m, s, depth).value)
    decreases |s|, 1
  {
    if s != [] {
      var parts, rest := ReadKey(s).value, ReadKey(s).rest;
      var i := FieldIndex(schema, parts.tag);
      if i == |schema.fields| {
        MergedIsTyped(schema, m, Skip(parts, rest, depth).rest, depth);
      } else {
        var kind := schema.fields[i].kind;
        MergedValueIsTyped(kind, m.values[i], parts.wire, rest, depth);
        var r := MergeValue(kind, m.values[i], parts.wire, rest, depth);
        MergedIsTyped(schema, Message(m.values[i := r.value]), r.rest, depth);
      }
    }
  }

  lemma DecodedIsTyped(schema: Schema, s: bytes)
    requires DistinctTagsWithin(schema) && DecodeMessage(schema, s).Some?
    ensures Typed(schema, DecodeMessage(schema, s).value)
  {
    DefaultIsTyped(schema);
    MergedIsTyped(schema, DefaultMessage(schema), s, MAX_DEPTH);
  }
}
