/** The byte strings a text field takes are exactly the UTF-8 encodings of sequences of Unicode scalar values. */
module Utf8Text {
  import opened Bytes
  import opened Protobuf

  predicate Scalar(c: nat) {
    c < 0xD800 || 0xE000 <= c < 0x11_0000
  }

  function Rune(c: nat): (s: bytes)
    requires Scalar(c)
    ensures s != []
  {
    if c < 0x80 then [c]
    else if c < 0x800 then [0xC0 + c / 0x40, 0x80 + c % 0x40]
    else if c < 0x1_0000 then [0xE0 + c / 0x1000, 0x80 + c / 0x40 % 0x40, 0x80 + c % 0x40]
    else [0xF0 + c / 0x4_0000, 0x80 + c / 0x1000 % 0x40, 0x80 + c / 0x40 % 0x40, 0x80 + c % 0x40]
  }

  function Encoded(text: seq<nat>): bytes
    requires forall c <- text :: Scalar(c)
  {
    if text == [] then [] else Rune(text[0]) + Encoded(text[1..])
  }

  lemma RuneThenMore(c: nat, rest: bytes)
    requires Scalar(c)
    ensures Utf8(Rune(c) + rest) <==> Utf8(rest)
  {
    var s := Rune(c) + rest;
    assert s[|Rune(c)|..] == rest;
    if c < 0x80 {
    } else if c < 0x800 {
    } else if c < 0x1_0000 {
      assert s[0] == 0xE0 + c / 0x1000 && s[1] == 0x80 + c / 0x40 % 0x40;
    } else {
      assert s[0] == 0xF0 + c / 0x4_0000 && s[1] == 0x80 + c / 0x1000 % 0x40;
    }
  }

  lemma {:induction false} EncodedIsUtf8(text: seq<nat>)
    requires forall c <- text :: Scalar(c)
    ensures Utf8(Encoded(text))
  {
    if text != [] {
      hide Rune;
      assert text[0] in text;
      EncodedIsUtf8(text[1..]);
      RuneThenMore(text[0], Encoded(text[1..]));
    }
  }

  lemma Sextet(q: nat, r: nat)
    requires r < 0x40
    ensures (0x40 * q + r) / 0x40 == q && (0x40 * q + r) % 0x40 == r
  {
  }

  lemma Quotients(c: nat)
    ensures c / 0x1000 == c / 0x40 / 0x40 && c / 0x4_0000 == c / 0x40 / 0x40 / 0x40
  {
  }

  lemma TwoBytes(a: byte, b: byte) returns (c: nat)
    requires 0xC2 <= a <= 0xDF && 0x80 <= b < 0xC0
    ensures Scalar(c) && Rune(c) == [a, b]
  {
    var x: int, y: int := a, b;
    c := (x - 0xC0) * 0x40 + (y - 0x80);
  }

  lemma ThreeBytes(a: byte, b: byte, d: byte) returns (c: nat)
    requires 0xE0 <= a <= 0xEF && 0x80 <= b < 0xC0 && 0x80 <= d < 0xC0
    requires (a == 0xE0 ==> b >= 0xA0) && (a == 0xED ==> b < 0xA0)
    ensures Scalar(c) && Rune(c) == [a, b, d]
  {
    var x: nat, y: nat, z: nat := a - 0xE0, b - 0x80, d - 0x80;
    c := 0x40 * (0x40 * x + y) + z;
    Sextet(0x40 * x + y, z);
    Sextet(x, y);
    Quotients(c);
    assert 0x800 <= c < 0x1_0000;
    assert Rune(c) == [0xE0 + c / 0x1000, 0x80 + c / 0x40 % 0x40, 0x80 + c % 0x40];
  }

  lemma FourBytes(a: byte, b: byte, d: byte, e: byte) returns (c: nat)
    requires 0xF0 <= a <= 0xF4 && 0x80 <= b < 0xC0 && 0x80 <= d < 0xC0 && 0x80 <= e < 0xC0
    requires (a == 0xF0 ==> b >= 0x90) && (a == 0xF4 ==> b < 0x90)
    ensures Scalar(c) && Rune(c) == [a, b, d, e]
  {
    var w: nat, x: nat, y: nat, z: nat := a - 0xF0, b - 0x80, d - 0x80, e - 0x80;
    c := 0x40 * (0x40 * (0x40 * w + x) + y) + z;
    Sextet(0x40 * (0x40 * w + x) + y, z);
    Sextet(0x40 * w + x, y);
    Sextet(w, x);
    Quotients(c);
    assert 0x1_0000 <= c < 0x11_0000;
    assert Rune(c) == [0xF0 + c / 0x4_0000, 0x80 + c / 0x1000 % 0x40, 0x80 + c / 0x40 % 0x40, 0x80 + c % 0x40];
  }

  /** The first character of a text. */
  lemma FirstRune(s: bytes) returns (c: nat)
    requires Utf8(s) && s != []
    ensures Scalar(c) && |Rune(c)| <= |s| && s == Rune(c) + s[|Rune(c)|..] && Utf8(s[|Rune(c)|..])
  {
    hide Scalar;
    hide Rune;
    if s[0] < 0x80 {
      c := OneByte(s[0]);
    } else if s[0] < 0xE0 {
      c := TwoBytes(s[0], s[1]);
    } else if s[0] < 0xF0 {
      c := ThreeBytes(s[0], s[1], s[2]);
    } else {
      c := FourBytes(s[0], s[1], s[2], s[3]);
    }
  }

  lemma OneByte(a: byte) returns (c: nat)
    requires a < 0x80
    ensures Scalar(c) && Rune(c) == [a]
  {
    c := a;
  }

  lemma {:induction false} Utf8IsEncoded(s: bytes) returns (text: seq<nat>)
    requires Utf8(s)
    ensures (forall c <- text :: Scalar(c)) && Encoded(text) == s
    decreases |s|
  {
    if s == [] {
      text := [];
    } else {
      hide Utf8;
      hide Rune;
      hide Scalar;
      var c := FirstRune(s);
      var rest := Utf8IsEncoded(s[|Rune(c)|..]);
      text := [c] + rest;
      assert text[1..] == rest;
    }
  }

  lemma Utf8Exactly(s: bytes)
    ensures Utf8(s) <==> exists text: seq<nat> :: (forall c <- text :: Scalar(c)) && Encoded(text) == s
  {
    hide Utf8;
    hide Scalar;
    if Utf8(s) {
      var text := Utf8IsEncoded(s);
    }
    forall text: seq<nat> | (forall c <- text :: Scalar(c)) && Encoded(text) == s
      ensures Utf8(s)
    {
      EncodedIsUtf8(text);
    }
  }
}
