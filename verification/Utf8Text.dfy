/** Well-formed UTF-8 is exactly what encoding Unicode scalar values gives (section 3 of RFC 3629). */
module Utf8Text {
  import opened Numerals
  import opened TreeListing

  type Scalar = c: int | 0 <= c < 0xD800 || 0xE000 <= c < 0x110000

  function EncodeChar(c: Scalar): Bytes {
    if c < 0x80 then [c]
    else if c < 0x800 then [0xC0 + c / 64, 0x80 + c % 64]
    else if c < 0x10000 then [0xE0 + c / 4096, 0x80 + c / 64 % 64, 0x80 + c % 64]
    else [0xF0 + c / 262144, 0x80 + c / 4096 % 64, 0x80 + c / 64 % 64, 0x80 + c % 64]
  }

  function Encode(text: seq<Scalar>): Bytes {
    if text == [] then [] else EncodeChar(text[0]) + Encode(text[1..])
  }

  /** An encoded character is recognised with its length, whatever follows. */
  lemma CharIsRecognised(c: Scalar, rest: Bytes)
    ensures CharLength(EncodeChar(c) + rest) == |EncodeChar(c)|
  {
    var s := EncodeChar(c) + rest;
    assert forall k :: 0 <= k < |EncodeChar(c)| ==> s[k] == EncodeChar(c)[k];
  }

  lemma Digits(x: nat, y: nat)
    requires y < 64
    ensures (64 * x + y) / 64 == x && (64 * x + y) % 64 == y
  {}

  lemma ThreeBytes(x: nat, y: nat, z: nat)
    requires x < 16 && y < 64 && z < 64
    ensures var c := 4096 * x + 64 * y + z; c / 4096 == x && c / 64 % 64 == y && c % 64 == z
  {
    Digits(64 * x + y, z);
    Digits(x, y);
    assert 4096 * x + 64 * y + z == 64 * (64 * x + y) + z;
    assert (4096 * x + 64 * y + z) / 4096 == x;
  }

  lemma FourBytes(w: nat, x: nat, y: nat, z: nat)
    requires w < 5 && x < 64 && y < 64 && z < 64
    ensures var c := 262144 * w + 4096 * x + 64 * y + z;
            c / 262144 == w && c / 4096 % 64 == x && c / 64 % 64 == y && c % 64 == z
  {
    var c := 262144 * w + 4096 * x + 64 * y + z;
    assert c == 64 * (4096 * w + 64 * x + y) + z;
    Digits(4096 * w + 64 * x + y, z);
    assert c / 64 == 64 * (64 * w + x) + y;
    Digits(64 * w + x, y);
    assert c / 4096 == 64 * w + x;
    Digits(w, x);
    assert c / 262144 == w;
  }

  /** What is recognised is the encoding of a scalar value. */
  lemma RecognisedIsChar(s: Bytes) returns (c: Scalar)
    requires CharLength(s) > 0
    ensures EncodeChar(c) == s[..CharLength(s)]
  {
    match CharLength(s)
    case 1 => c := s[0];
    case 2 => c := TwoIsChar(s);
    case 3 => c := ThreeIsChar(s);
    case _ => c := FourIsChar(s);
  }

  lemma TwoIsChar(s: Bytes) returns (c: Scalar)
    requires CharLength(s) == 2
    ensures EncodeChar(c) == s[..2]
  {
    var x: nat, y: nat := s[0] as int - 0xC0, s[1] as int - 0x80;
    Digits(x, y);
    c := 64 * x + y;
  }

  lemma ThreeIsChar(s: Bytes) returns (c: Scalar)
    requires CharLength(s) == 3
    ensures EncodeChar(c) == s[..3]
  {
    var x: nat, y: nat, z: nat := s[0] as int - 0xE0, s[1] as int - 0x80, s[2] as int - 0x80;
    ThreeBytes(x, y, z);
    c := 4096 * x + 64 * y + z;
  }

  lemma FourIsChar(s: Bytes) returns (c: Scalar)
    requires CharLength(s) == 4
    ensures EncodeChar(c) == s[..4]
  {
    var w: nat, x: nat := s[0] as int - 0xF0, s[1] as int - 0x80;
    var y: nat, z: nat := s[2] as int - 0x80, s[3] as int - 0x80;
    FourBytes(w, x, y, z);
    c := 262144 * w + 4096 * x + 64 * y + z;
  }

  lemma {:induction false} EncodedIsValid(text: seq<Scalar>)
    ensures ValidUtf8(Encode(text))
    decreases |text|
  {
    hide CharLength, EncodeChar;
    if text != [] {
      var first, rest := EncodeChar(text[0]), Encode(text[1..]);
      CharIsRecognised(text[0], rest);
      CharIsSome(text[0]);
      assert (first + rest)[|first|..] == rest;
      EncodedIsValid(text[1..]);
    }
  }

  lemma CharIsSome(c: Scalar)
    ensures |EncodeChar(c)| > 0
  {}

  lemma {:induction false} ValidIsEncoded(s: Bytes) returns (text: seq<Scalar>)
    requires ValidUtf8(s)
    ensures Encode(text) == s
    decreases |s|
  {
    hide CharLength, EncodeChar;
    if s == [] {
      text := [];
    } else {
      var n := CharLength(s);
      var c := RecognisedIsChar(s);
      var rest := ValidIsEncoded(s[n..]);
      text := [c] + rest;
      assert text[1..] == rest && s == s[..n] + s[n..];
    }
  }

  /** A listing is read as text exactly when it is the encoding of one. */
  lemma Utf8Iff(s: Bytes)
    ensures ValidUtf8(s) <==> exists text :: Encode(text) == s
  {
    if ValidUtf8(s) {
      var text := ValidIsEncoded(s);
    }
    if text :| Encode(text) == s {
      EncodedIsValid(text);
    }
  }
}
