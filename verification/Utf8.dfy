/** UTF-8: a Rust string is a sequence of Unicode scalars held in this encoding. */
module Utf8 {
  import opened Wrappers

  function EncodeChar(c: char): (bytes: seq<Byte>)
    ensures 1 <= |bytes| <= 4
  {
    var v := c as int;
    if v < 0x80 then [v]
    else if v < 0x800 then [0xc0 + v / 64, 0x80 + v % 64]
    else if v < 0x1_0000 then [0xe0 + v / 64 / 64, 0x80 + v / 64 % 64, 0x80 + v % 64]
    else [0xf0 + v / 64 / 64 / 64, 0x80 + v / 64 / 64 % 64, 0x80 + v / 64 % 64, 0x80 + v % 64]
  }

  function Encode(text: string): seq<Byte> {
    if text == [] then [] else EncodeChar(text[0]) + Encode(text[1..])
  }

  predicate Continuation(b: Byte) {
    0x80 <= b < 0xc0
  }

  /** Append the six payload bits of a continuation byte. */
  function Push(high: int, b: Byte): (code: int)
    requires Continuation(b)
    ensures code / 64 == high && code % 64 == b as int - 0x80
  {
    high * 64 + (b as int - 0x80)
  }

  /** The scalar `code` when it took `width` bytes: neither a surrogate nor an overlong form. */
  function Scalar(code: int, least: int, width: nat): Option<(char, nat)>
  {
    if least <= code && (0 <= code < 0xd800 || 0xe000 <= code < 0x11_0000)
    then Some((code as char, width)) else None
  }

  /** The first scalar of `bytes` and the number of bytes it takes. */
  function DecodeFirst(bytes: seq<Byte>): (r: Option<(char, nat)>)
    requires bytes != []
    ensures r.Some? ==> 1 <= r.value.1 <= |bytes|
  {
    var a: int := bytes[0];
    if a < 0x80 then Some((a as char, 1))
    else if 0xc0 <= a < 0xe0 && |bytes| >= 2 && Continuation(bytes[1]) then
      Scalar(Push(a - 0xc0, bytes[1]), 0x80, 2)
    else if 0xe0 <= a < 0xf0 && |bytes| >= 3 && Continuation(bytes[1]) && Continuation(bytes[2]) then
      Scalar(Push(Push(a - 0xe0, bytes[1]), bytes[2]), 0x800, 3)
    else if 0xf0 <= a < 0xf8 && |bytes| >= 4 && Continuation(bytes[1]) && Continuation(bytes[2])
            && Continuation(bytes[3]) then
      Scalar(Push(Push(Push(a - 0xf0, bytes[1]), bytes[2]), bytes[3]), 0x1_0000, 4)
    else None
  }

  /** `core::str::from_utf8`. */
  function Decode(bytes: seq<Byte>): Option<string> {
    if bytes == [] then Some([])
    else match DecodeFirst(bytes)
      case None => None
      case Some((c, n)) =>
        match Decode(bytes[n..])
        case None => None
        case Some(rest) => Some([c] + rest)
  }

  /** How many bytes a scalar takes, and what the first of them tells, section 3 of RFC 3629. */
  lemma LeadTellsLength(c: char)
    ensures var e := EncodeChar(c);
            && (|e| == 1 <==> c as int < 0x80) && (|e| <= 2 <==> c as int < 0x800)
            && (|e| <= 3 <==> c as int < 0x1_0000) && (e[0] < 0x80 <==> |e| == 1)
            && (0xc0 <= e[0] < 0xe0 <==> |e| == 2) && (0xe0 <= e[0] < 0xf0 <==> |e| == 3)
            && (|e| == 1 ==> e[0] == c as int)
  {
  }

  /** A scalar of each length, section 7 of RFC 3629. */
  lemma KnownScalars()
    ensures EncodeChar('A') == [0x41] && EncodeChar('\U{0391}') == [0xce, 0x91]
    ensures EncodeChar('\U{2262}') == [0xe2, 0x89, 0xa2] && EncodeChar('\U{233b4}') == [0xf0, 0xa3, 0x8e, 0xb4]
  {
  }

  lemma DecodeEncodedChar(c: char, rest: seq<Byte>)
    ensures DecodeFirst(EncodeChar(c) + rest) == Some((c, |EncodeChar(c)|))
  {
    var v, e := c as int, EncodeChar(c);
    var bytes := e + rest;
    assert forall i :: 0 <= i < |e| ==> bytes[i] == e[i];
    if v >= 0x80 {
      assert v == v / 64 * 64 + v % 64 && v / 64 == v / 64 / 64 * 64 + v / 64 % 64;
    }
    if v >= 0x1_0000 {
      assert v / 64 / 64 == v / 64 / 64 / 64 * 64 + v / 64 / 64 % 64;
    }
  }

  lemma EncodeDecodedChar(bytes: seq<Byte>)
    requires bytes != [] && DecodeFirst(bytes).Some?
    ensures EncodeChar(DecodeFirst(bytes).value.0) == bytes[..DecodeFirst(bytes).value.1]
  {
  }

  lemma {:induction false} DecodeEncode(text: string)
    ensures Decode(Encode(text)) == Some(text)
  {
    hide DecodeFirst, EncodeChar;
    if text != [] {
      var tail := Encode(text[1..]);
      DecodeEncodedChar(text[0], tail);
      DecodeEncode(text[1..]);
      assert Encode(text)[|EncodeChar(text[0])|..] == tail;
      assert [text[0]] + text[1..] == text;
    }
  }

  lemma {:induction false} EncodeDecode(bytes: seq<Byte>)
    requires Decode(bytes).Some?
    ensures Encode(Decode(bytes).value) == bytes
  {
    hide DecodeFirst, EncodeChar;
    if bytes != [] {
      var (c, n) := DecodeFirst(bytes).value;
      EncodeDecodedChar(bytes);
      EncodeDecode(bytes[n..]);
      var text := Decode(bytes).value;
      assert text[1..] == Decode(bytes[n..]).value;
      assert bytes[..n] + bytes[n..] == bytes;
    }
  }

  lemma EncodeInjective(a: string, b: string)
    requires Encode(a) == Encode(b)
    ensures a == b
  {
    DecodeEncode(a);
    DecodeEncode(b);
  }

  lemma {:induction false} EncodeConcat(a: string, b: string)
    ensures Encode(a + b) == Encode(a) + Encode(b)
  {
    hide EncodeChar;
    if a == [] {
      assert a + b == b;
    } else {
      EncodeConcat(a[1..], b);
      assert (a + b)[1..] == a[1..] + b;
    }
  }
}
