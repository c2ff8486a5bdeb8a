/** Unpadded base64, section 4 of RFC 4648. */
module Base64 {
  import opened Wrappers
  import opened IpldModel

  type Sextet = x: int | 0 <= x < 64

  function Symbol(x: Sextet): char {
    if x < 26 then ('A' as int + x) as char
    else if x < 52 then ('a' as int + x - 26) as char
    else if x < 62 then ('0' as int + x - 52) as char
    else if x == 62 then '+' else '/'
  }

  /** The place of a symbol in the alphabet. */
  function Place(c: char): (x: Option<Sextet>)
    ensures x.Some? ==> Symbol(x.value) == c
  {
    if 'A' <= c <= 'Z' then Some(c as int - 'A' as int)
    else if 'a' <= c <= 'z' then Some(c as int - 'a' as int + 26)
    else if '0' <= c <= '9' then Some(c as int - '0' as int + 52)
    else if c == '+' then Some(62) else if c == '/' then Some(63) else None
  }

  /** The alphabet in table 1 of RFC 4648. */
  lemma SymbolIsInTable(x: Sextet)
    ensures x < 26 ==> Symbol(x) == "ABCDEFGHIJKLMNOPQRSTUVWXYZ"[x]
    ensures 26 <= x < 52 ==> Symbol(x) == "abcdefghijklmnopqrstuvwxyz"[x - 26]
    ensures 52 <= x ==> Symbol(x) == "0123456789+/"[x - 52]
  {
  }

  lemma PlaceOfSymbol(x: Sextet)
    ensures Place(Symbol(x)) == Some(x)
  {
  }

  /** Three bytes are four symbols; one byte at the end is two, two bytes are three. */
  function Encode(bytes: seq<Byte>): string {
    if bytes == [] then ""
    else if |bytes| == 1 then
      [Symbol(bytes[0] / 4), Symbol(bytes[0] % 4 * 16)]
    else if |bytes| == 2 then
      [Symbol(bytes[0] / 4), Symbol(bytes[0] % 4 * 16 + bytes[1] / 16), Symbol(bytes[1] % 16 * 4)]
    else
      [Symbol(bytes[0] / 4), Symbol(bytes[0] % 4 * 16 + bytes[1] / 16),
       Symbol(bytes[1] % 16 * 4 + bytes[2] / 64), Symbol(bytes[2] % 64)]
      + Encode(bytes[3..])
  }

  /** The examples in section 10 of RFC 4648, without their padding. */
  lemma KnownTexts()
    ensures Encode([0x66]) == "Zg" && Encode([0x66, 0x6f]) == "Zm8" && Encode([0x66, 0x6f, 0x6f]) == "Zm9v"
    ensures Encode([0x66, 0x6f, 0x6f, 0x62, 0x61, 0x72]) == "Zm9vYmFy"
  {
    assert [0x66, 0x6f, 0x6f, 0x62, 0x61, 0x72][3..] == [0x62, 0x61, 0x72];
    assert Encode([0x62, 0x61, 0x72]) == "YmFy";
  }

  /** No symbol needs an escape in a JSON string. */
  lemma {:induction false} SymbolsPlain(bytes: seq<Byte>)
    ensures forall c :: c in Encode(bytes) ==> PlainCharacter(c) || c == '+' || c == '/'
    decreases |bytes|
  {
    if |bytes| > 2 { SymbolsPlain(bytes[3..]); }
  }

  /** The bits not yet written, as a number and how many they are. */
  predicate Pending(value: int, count: int) {
    (count == 0 && value == 0) || (count == 2 && 0 <= value < 4) || (count == 4 && 0 <= value < 16)
    || (count == 6 && 0 <= value < 64)
  }

  /** One symbol: the byte it completes, if any, and the bits left pending. */
  function Shift(value: int, count: int, x: Sextet): (r: (seq<Byte>, int, int))
    requires Pending(value, count)
    ensures Pending(r.1, r.2)
  {
    var bits := value * 64 + x;
    if count == 0 then ([], bits, 6)
    else if count == 2 then ([bits], 0, 0)
    else if count == 4 then ([bits / 4], bits % 4, 2)
    else ([bits / 16], bits % 16, 4)
  }

  /** `out` and then whatever `rest` gives, or its error. */
  function Prefixed(out: seq<Byte>, rest: Result<seq<Byte>, CodecError>): Result<seq<Byte>, CodecError> {
    if rest.Ok? then Ok(out + rest.value) else rest
  }

  lemma PrefixedTwice(a: seq<Byte>, b: seq<Byte>, rest: Result<seq<Byte>, CodecError>)
    ensures Prefixed(a, Prefixed(b, rest)) == Prefixed(a + b, rest)
  {
    if rest.Ok? { assert a + (b + rest.value) == (a + b) + rest.value; }
  }

  lemma PrefixedByNothing(rest: Result<seq<Byte>, CodecError>)
    ensures Prefixed([], rest) == rest
  {
    if rest.Ok? { assert [] + rest.value == rest.value; }
  }

  /** Decoding with some bits pending. */
  function DecodeFrom(text: string, value: int, count: int): Result<seq<Byte>, CodecError>
    requires Pending(value, count)
    decreases |text|
  {
    if text == [] then if count >= 6 then Err(InvalidBase64) else Ok([])
    else match Place(text[0])
      case None => Err(InvalidBase64)
      case Some(x) =>
        var (out, v, c) := Shift(value, count, x);
        Prefixed(out, DecodeFrom(text[1..], v, c))
  }

  function Decode(text: string): Result<seq<Byte>, CodecError> {
    DecodeFrom(text, 0, 0)
  }

  lemma Unfold(text: string, value: int, count: int, x: Sextet)
    requires Pending(value, count) && text != [] && Place(text[0]) == Some(x)
    ensures var (out, v, c) := Shift(value, count, x);
            DecodeFrom(text, value, count) == Prefixed(out, DecodeFrom(text[1..], v, c))
  {
  }

  /** Two symbols give a byte and leave four bits pending. */
  lemma DecodeTwo(text: string, w: Sextet, x: Sextet)
    requires |text| >= 2 && Place(text[0]) == Some(w) && Place(text[1]) == Some(x)
    ensures Decode(text) == Prefixed([w * 4 + x / 16], DecodeFrom(text[2..], x % 16, 4))
  {
    hide DecodeFrom, Prefixed, Place;
    var a := text[1..];
    Unfold(text, 0, 0, w);
    Unfold(a, w, 6, x);
    var bits := w * 64 + x;
    assert bits / 16 == w * 4 + x / 16 && bits % 16 == x % 16;
    assert Shift(w, 6, x) == ([w * 4 + x / 16], x % 16, 4);
    assert a[1..] == text[2..];
    PrefixedByNothing(DecodeFrom(a, w, 6));
  }

  lemma DecodeThird(text: string, w: Sextet, x: Sextet, y: Sextet)
    requires |text| >= 3 && Place(text[0]) == Some(w) && Place(text[1]) == Some(x) && Place(text[2]) == Some(y)
    ensures Decode(text) == Prefixed([w * 4 + x / 16, x % 16 * 16 + y / 4], DecodeFrom(text[3..], y % 4, 2))
  {
    hide DecodeFrom, Prefixed, Place;
    DecodeTwo(text, w, x);
    var b := text[2..];
    Unfold(b, x % 16, 4, y);
    var bits := x % 16 * 64 + y;
    assert bits / 4 == x % 16 * 16 + y / 4 && bits % 4 == y % 4;
    assert Shift(x % 16, 4, y) == ([x % 16 * 16 + y / 4], y % 4, 2);
    assert b[1..] == text[3..];
    PrefixedTwice([w * 4 + x / 16], [x % 16 * 16 + y / 4], DecodeFrom(text[3..], y % 4, 2));
    assert [w * 4 + x / 16] + [x % 16 * 16 + y / 4] == [w * 4 + x / 16, x % 16 * 16 + y / 4];
  }

  /** Four symbols give three bytes and leave nothing pending. */
  lemma DecodeGroup(text: string, w: Sextet, x: Sextet, y: Sextet, z: Sextet)
    requires |text| >= 4 && Place(text[0]) == Some(w) && Place(text[1]) == Some(x)
    requires Place(text[2]) == Some(y) && Place(text[3]) == Some(z)
    ensures Decode(text) == Prefixed([w * 4 + x / 16, x % 16 * 16 + y / 4, y % 4 * 64 + z], Decode(text[4..]))
  {
    hide DecodeFrom, Prefixed, Place;
    DecodeThird(text, w, x, y);
    var c := text[3..];
    Unfold(c, y % 4, 2, z);
    assert c[1..] == text[4..];
    PrefixedTwice([w * 4 + x / 16, x % 16 * 16 + y / 4], [y % 4 * 64 + z], Decode(text[4..]));
    assert [w * 4 + x / 16, x % 16 * 16 + y / 4] + [y % 4 * 64 + z]
        == [w * 4 + x / 16, x % 16 * 16 + y / 4, y % 4 * 64 + z];
  }

  lemma DecodeNothing(text: string, value: int, count: int)
    requires text == [] && Pending(value, count) && count < 6
    ensures DecodeFrom(text, value, count) == Ok([])
  {
  }

  lemma DecodePair(text: string, w: Sextet, x: Sextet)
    requires |text| == 2 && Place(text[0]) == Some(w) && Place(text[1]) == Some(x)
    ensures Decode(text) == Ok([w * 4 + x / 16])
  {
    hide DecodeFrom, Place;
    DecodeTwo(text, w, x);
    DecodeNothing(text[2..], x % 16, 4);
    assert [w * 4 + x / 16] + [] == [w * 4 + x / 16];
  }

  lemma DecodeTriple(text: string, w: Sextet, x: Sextet, y: Sextet)
    requires |text| == 3 && Place(text[0]) == Some(w) && Place(text[1]) == Some(x) && Place(text[2]) == Some(y)
    ensures Decode(text) == Ok([w * 4 + x / 16, x % 16 * 16 + y / 4])
  {
    hide DecodeFrom, Place;
    DecodeThird(text, w, x, y);
    DecodeNothing(text[3..], y % 4, 2);
    var out := [w * 4 + x / 16, x % 16 * 16 + y / 4];
    assert out + [] == out;
  }

  /** Decoding undoes encoding. */
  lemma {:induction false} DecodeEncode(bytes: seq<Byte>)
    ensures Decode(Encode(bytes)) == Ok(bytes)
    decreases |bytes|
  {
    hide DecodeFrom, Place, Symbol;
    var text := Encode(bytes);
    if bytes == [] {
      DecodeNothing(text, 0, 0);
    } else {
      var a: int := bytes[0];
      var b: int := if |bytes| > 1 then bytes[1] else 0;
      var c: int := if |bytes| > 2 then bytes[2] else 0;
      var w: Sextet, x: Sextet := a / 4, a % 4 * 16 + b / 16;
      var y: Sextet, z: Sextet := b % 16 * 4 + c / 64, c % 64;
      PlaceOfSymbol(w);
      PlaceOfSymbol(x);
      PlaceOfSymbol(y);
      PlaceOfSymbol(z);
      GroupBytes(a, b, c);
      if |bytes| == 1 {
        assert text == [Symbol(w), Symbol(x)];
        DecodePair(text, w, x);
        assert bytes == [w * 4 + x / 16];
      } else if |bytes| == 2 {
        assert text == [Symbol(w), Symbol(x), Symbol(y)];
        DecodeTriple(text, w, x, y);
        assert bytes == [w * 4 + x / 16, x % 16 * 16 + y / 4];
      } else {
        assert text == [Symbol(w), Symbol(x), Symbol(y), Symbol(z)] + Encode(bytes[3..]);
        hide Encode, Symbol;
        assert text[4..] == Encode(bytes[3..]);
        DecodeGroup(text, w, x, y, z);
        DecodeEncode(bytes[3..]);
        assert bytes == [w * 4 + x / 16, x % 16 * 16 + y / 4, y % 4 * 64 + z] + bytes[3..];
      }
    }
  }

  lemma GroupBytes(a: Byte, b: Byte, c: Byte)
    ensures var w, x := a / 4, a % 4 * 16 + b / 16;
            var y, z := b % 16 * 4 + c / 64, c % 64;
            w * 4 + x / 16 == a && x % 16 * 16 + y / 4 == b && y % 4 * 64 + z == c
  {
  }

  lemma GroupSymbols(w: Sextet, x: Sextet, y: Sextet, z: Sextet)
    ensures var a, b, c := w * 4 + x / 16, x % 16 * 16 + y / 4, y % 4 * 64 + z;
            && 0 <= a < 256 && 0 <= b < 256 && 0 <= c < 256
            && a / 4 == w && a % 4 * 16 + b / 16 == x && b % 16 * 4 + c / 64 == y && c % 64 == z
  {
  }

  /** The low bits of the last symbol that no byte takes: four after two symbols, two after three. */
  function Unused(n: nat): (u: nat)
    ensures u > 0
  {
    if n % 4 == 2 then 16 else if n % 4 == 3 then 4 else 1
  }

  /** `a` and `b` agree but for the last symbol's unused low bits, which are zero in `b`. */
  predicate SameButUnused(a: string, b: string) {
    && |a| == |b| && |a| > 0
    && a[..|a| - 1] == b[..|a| - 1]
    && var x, y := Place(a[|a| - 1]), Place(b[|a| - 1]);
       x.Some? && y.Some? && y.value == x.value / Unused(|a|) * Unused(|a|)
  }

  /** Accepted text is the encoding of its result, but for the unused bits of its last symbol. */
  lemma {:induction false} EncodeDecode(text: string)
    requires Decode(text).Ok?
    ensures text == [] || SameButUnused(text, Encode(Decode(text).value))
    decreases |text|
  {
    hide DecodeFrom, Encode, SameButUnused, Place, Symbol;
    if text != [] {
      SymbolsPlaced(text, 0, 0);
      assert |text| != 1 by { if |text| == 1 { LoneSymbol(text); } }
      if |text| < 4 {
        EncodeDecodeShort(text);
      } else {
        DecodedGroup(text);
        EncodeDecode(text[4..]);
        if text[4..] == [] {
          DecodeNothing([], 0, 0);
          GroupsAgree(text);
        } else {
          SuffixAgrees(text[..4], text[4..], Encode(Decode(text[4..]).value));
          assert text == text[..4] + text[4..];
        }
      }
    }
  }

  /** Every symbol in the alphabet, and not one symbol left over: exactly then text is accepted. */
  lemma AcceptedExactly(text: string)
    ensures Decode(text).Ok? <==> |text| % 4 != 1 && forall i :: 0 <= i < |text| ==> Place(text[i]).Some?
  {
    AcceptedFrom(text, 0, 0);
  }

  lemma {:induction false} AcceptedFrom(text: string, value: int, count: int)
    requires Pending(value, count)
    ensures DecodeFrom(text, value, count).Ok?
       <==> (|text| + (if count == 0 then 0 else 4 - count / 2)) % 4 != 1
            && forall i :: 0 <= i < |text| ==> Place(text[i]).Some?
    decreases |text|
  {
    hide Place;
    if text != [] && Place(text[0]).Some? {
      var (out, v, c) := Shift(value, count, Place(text[0]).value);
      AcceptedFrom(text[1..], v, c);
      assert forall i :: 1 <= i < |text| ==> text[i] == text[1..][i - 1];
    }
  }

  lemma LoneSymbol(text: string)
    requires |text| == 1 && Place(text[0]).Some?
    ensures Decode(text).Err?
  {
    Unfold(text, 0, 0, Place(text[0]).value);
    assert text[1..] == [];
  }

  lemma EncodeDecodeShort(text: string)
    requires Decode(text).Ok? && 2 <= |text| < 4 && forall i :: 0 <= i < |text| ==> Place(text[i]).Some?
    ensures SameButUnused(text, Encode(Decode(text).value))
  {
    hide DecodeFrom, Symbol, Place;
    var w, x := Place(text[0]).value, Place(text[1]).value;
    SymbolOfPlace(text[0]);
    if |text| == 2 {
      DecodePair(text, w, x);
      GroupSymbols(w, x / 16 * 16, 0, 0);
      PlaceOfSymbol(x / 16 * 16);
    } else {
      var y := Place(text[2]).value;
      SymbolOfPlace(text[1]);
      DecodeTriple(text, w, x, y);
      GroupSymbols(w, x, y / 4 * 4, 0);
      PlaceOfSymbol(y / 4 * 4);
    }
  }

  lemma SymbolOfPlace(c: char)
    ensures Place(c).Some? ==> Symbol(Place(c).value) == c
  {
  }

  /** A group of four symbols is what its three bytes are encoded as. */
  lemma DecodedGroup(text: string)
    requires Decode(text).Ok? && |text| >= 4 && forall i :: 0 <= i < |text| ==> Place(text[i]).Some?
    ensures var rest := Decode(text[4..]);
            rest.Ok? && Encode(Decode(text).value) == text[..4] + Encode(rest.value)
  {
    hide DecodeFrom, Symbol, Place;
    var w, x, y, z := Place(text[0]).value, Place(text[1]).value, Place(text[2]).value, Place(text[3]).value;
    DecodeGroup(text, w, x, y, z);
    GroupSymbols(w, x, y, z);
    forall c ensures Place(c).Some? ==> Symbol(Place(c).value) == c { SymbolOfPlace(c); }
    var bytes, rest := Decode(text).value, Decode(text[4..]).value;
    assert bytes[3..] == rest;
    assert text[..4] == [Symbol(w), Symbol(x), Symbol(y), Symbol(z)];
  }

  lemma GroupsAgree(text: string)
    requires |text| == 4 && Place(text[3]).Some?
    ensures SameButUnused(text, text[..4] + Encode([]))
  {
    assert Encode([]) == "" && text[..4] + Encode([]) == text && Unused(4) == 1;
  }

  lemma SuffixAgrees(group: string, a: string, b: string)
    requires |group| == 4 && SameButUnused(a, b)
    ensures SameButUnused(group + a, group + b)
  {
    assert (group + a)[..|group| + |a| - 1] == group + a[..|a| - 1];
    assert (group + b)[..|group| + |b| - 1] == group + b[..|b| - 1];
  }

  lemma {:induction false} SymbolsPlaced(text: string, value: int, count: int)
    requires Pending(value, count) && DecodeFrom(text, value, count).Ok?
    ensures forall i :: 0 <= i < |text| ==> Place(text[i]).Some?
    decreases |text|
  {
    hide Place;
    if text != [] {
      var (out, v, c) := Shift(value, count, Place(text[0]).value);
      SymbolsPlaced(text[1..], v, c);
      assert forall i :: 1 <= i < |text| ==> text[i] == text[1..][i - 1];
    }
  }

  lemma GroupIndices(a: Byte, b: Byte, c: Byte)
    ensures var bits := a as int * 0x1_0000 + b as int * 0x100 + c;
            && bits / 0x4_0000 % 64 == a / 4 && bits / 0x1000 % 64 == a % 4 * 16 + b / 16
            && bits / 64 % 64 == b % 16 * 4 + c / 64 && bits % 64 == c % 64
  {
    var bits := a as int * 0x1_0000 + b as int * 0x100 + c;
    FirstIndices(a, b, c);
    var high, low := a as int * 16 + b / 16, b % 16 * 4 + c / 64;
    DivideBy64(bits, high * 64 + low, c % 64);
    DivideBy64(high * 64 + low, high, low);
  }

  lemma DivideBy64(n: nat, quotient: nat, remainder: nat)
    requires n == quotient * 64 + remainder && remainder < 64
    ensures n / 64 == quotient && n % 64 == remainder
  {
  }

  lemma FirstIndices(a: Byte, b: Byte, c: Byte)
    ensures var bits := a as int * 0x1_0000 + b as int * 0x100 + c;
            bits / 0x4_0000 % 64 == a / 4 && bits / 0x1000 % 64 == a % 4 * 16 + b / 16
  {
    var bits := a as int * 0x1_0000 + b as int * 0x100 + c;
    var x := b % 16 * 0x100 + c;
    var high, low := a as int * 16 + b / 16, a % 4 * 16 + b / 16;
    assert bits == high * 0x1000 + x && 0 <= x < 0x1000;
    assert bits / 0x1000 == high;
    DivideBy64(high, a / 4, low);
    assert bits == a / 4 * 0x4_0000 + (low * 0x1000 + x);
    assert bits / 0x4_0000 == a / 4;
  }

  lemma EncodeNothing(bytes: seq<Byte>)
    requires bytes == []
    ensures Encode(bytes) == ""
  {
  }

  lemma EncodeOne(bytes: seq<Byte>)
    requires |bytes| == 1
    ensures Encode(bytes) == [Symbol(bytes[0] / 4), Symbol(bytes[0] % 4 * 16)]
  {
  }

  lemma EncodeTwo(bytes: seq<Byte>)
    requires |bytes| == 2
    ensures Encode(bytes) == [Symbol(bytes[0] / 4), Symbol(bytes[0] % 4 * 16 + bytes[1] / 16),
                              Symbol(bytes[1] % 16 * 4)]
  {
  }

  lemma EncodeGroup(bytes: seq<Byte>)
    requires |bytes| > 2
    ensures Encode(bytes) == [Symbol(bytes[0] / 4), Symbol(bytes[0] % 4 * 16 + bytes[1] / 16),
                              Symbol(bytes[1] % 16 * 4 + bytes[2] / 64), Symbol(bytes[2] % 64)] + Encode(bytes[3..])
  {
  }

  /** The six bits of a 24-bit group that its symbol `i` stands for. */
  function Index(bits: nat, i: nat): Sextet
    requires i < 4
  {
    if i == 0 then bits / 0x4_0000 % 64 else if i == 1 then bits / 0x1000 % 64
    else if i == 2 then bits / 64 % 64 else bits % 64
  }

  /** A chunk of one to three bytes, filled with zeros to 24 bits. */
  method EncodeChunk(chunk: seq<Byte>) returns (symbols: string)
    requires 1 <= |chunk| <= 3
    ensures symbols == Encode(chunk)
  {
    hide Symbol, Index;
    var a: int := chunk[0];
    var b: int := if |chunk| > 1 then chunk[1] else 0;
    var c: int := if |chunk| > 2 then chunk[2] else 0;
    var bits := a * 0x1_0000 + b * 0x100 + c;
    symbols := "";
    for i := 0 to |chunk| + 1
      invariant |symbols| == i && forall k :: 0 <= k < i ==> symbols[k] == Symbol(Index(bits, k))
    {
      symbols := symbols + [Symbol(Index(bits, i))];
    }
    ChunkEncoded(chunk, a, b, c, symbols);
  }

  lemma ChunkEncoded(chunk: seq<Byte>, a: Byte, b: Byte, c: Byte, symbols: string)
    requires 1 <= |chunk| <= 3 && a == chunk[0]
    requires b == (if |chunk| > 1 then chunk[1] else 0) && c == (if |chunk| > 2 then chunk[2] else 0)
    requires var bits := a as int * 0x1_0000 + b as int * 0x100 + c;
             |symbols| == |chunk| + 1 && forall k :: 0 <= k < |symbols| ==> symbols[k] == Symbol(Index(bits, k))
    ensures symbols == Encode(chunk)
  {
    hide Symbol, Encode;
    GroupIndices(a, b, c);
    if |chunk| == 1 {
      EncodeOne(chunk);
    } else if |chunk| == 2 {
      EncodeTwo(chunk);
    } else {
      EncodeGroup(chunk);
      EncodeNothing(chunk[3..]);
    }
  }

  method EncodeLoop(bytes: seq<Byte>) returns (out: string)
    ensures out == Encode(bytes)
  {
    out := "";
    var start := 0;
    assert bytes[0..] == bytes && "" + Encode(bytes) == Encode(bytes);
    while start < |bytes|
      invariant 0 <= start <= |bytes| && out + Encode(bytes[start..]) == Encode(bytes)
    {
      hide Encode;
      var size := if start + 3 <= |bytes| then 3 else |bytes| - start;
      var symbols := EncodeChunk(bytes[start..start + size]);
      ChunkFirst(bytes[start..], size);
      assert bytes[start..][..size] == bytes[start..start + size];
      assert bytes[start..][size..] == bytes[start + size..];
      ghost var rest := Encode(bytes[start + size..]);
      assert (out + symbols) + rest == out + (symbols + rest);
      out := out + symbols;
      start := start + size;
    }
    EncodeNothing(bytes[start..]);
    assert out + "" == out;
  }

  lemma ChunkFirst(bytes: seq<Byte>, size: nat)
    requires 1 <= size <= |bytes| && (size == 3 || size == |bytes|)
    ensures Encode(bytes) == Encode(bytes[..size]) + Encode(bytes[size..])
  {
    hide Symbol, Encode;
    EncodeNothing([]);
    if size == |bytes| {
      assert bytes[..size] == bytes && bytes[size..] == [] && Encode(bytes) + "" == Encode(bytes);
    } else {
      EncodeGroup(bytes);
      EncodeGroup(bytes[..3]);
      assert bytes[..3][3..] == [] && Encode(bytes[..3]) == Encode(bytes[..3])[..4];
    }
  }

  method DecodeLoop(text: string) returns (r: Result<seq<Byte>, CodecError>)
    ensures r == Decode(text)
  {
    var out: seq<Byte> := [];
    // A 32-bit register whose high bits fall off; only the low `count` bits are pending.
    var bits, count := 0, 0;
    ghost var value := 0;
    var i := 0;
    assert text[0..] == text;
    PrefixedByNothing(Decode(text));
    while i < |text|
      invariant 0 <= i <= |text| && 0 <= bits < 0x1_0000_0000
      invariant Pending(value, count) && Holds(bits, value, count)
      invariant Decode(text) == Prefixed(out, DecodeFrom(text[i..], value, count))
    {
      hide DecodeFrom, Place, Symbol, Prefixed;
      var place := Place(text[i]);
      BadSymbol(text[i..], value, count);
      if place.None? { return Err(InvalidBase64); }
      var x := place.value;
      Unfold(text[i..], value, count, x);
      assert text[i..][1..] == text[i + 1..];
      ghost var shifted := Shift(value, count, x);
      RegisterStep(bits, value, count, x);
      bits := (bits * 64 + x) % 0x1_0000_0000;
      count := count + 6;
      ghost var before := out;
      if count >= 8 {
        count := count - 8;
        out := out + [bits / Power(count) % 0x100];
      }
      assert out == before + shifted.0;
      PrefixedTwice(before, shifted.0, DecodeFrom(text[i + 1..], shifted.1, shifted.2));
      value := shifted.1;
      i := i + 1;
    }
    assert text[i..] == [] && out + [] == out;
    if count >= 6 { return Err(InvalidBase64); }
    return Ok(out);
  }

  lemma BadSymbol(text: string, value: int, count: int)
    requires Pending(value, count) && text != []
    ensures Place(text[0]).None? ==> DecodeFrom(text, value, count) == Err(InvalidBase64)
  {
  }

  function Power(count: int): (p: nat)
    requires count == 0 || count == 2 || count == 4 || count == 6
    ensures p > 0
  {
    if count == 0 then 1 else if count == 2 then 4 else if count == 4 then 16 else 64
  }

  /** The low `count` bits of the register are the pending ones. */
  ghost predicate Holds(bits: int, value: int, count: int)
    requires Pending(value, count)
  {
    bits % Power(count) == value
  }

  /** Shifting a symbol in, with whatever falls off the top, keeps the low bits right. */
  lemma RegisterStep(bits: int, value: int, count: int, x: Sextet)
    requires 0 <= bits < 0x1_0000_0000 && Pending(value, count) && Holds(bits, value, count)
    ensures var next := (bits * 64 + x) % 0x1_0000_0000;
            var (out, v, c) := Shift(value, count, x);
            Holds(next, v, c) && (count > 0 ==> c == count - 2 && out == [next / Power(c) % 0x100])
            && (count == 0 ==> c == 6 && out == [])
  {
    var next := (bits * 64 + x) % 0x1_0000_0000;
    var q := bits / Power(count);
    var k := (bits * 64 + x) / 0x1_0000_0000;
    if count == 0 {
      LowBits(next, bits - k * 0x400_0000, 64, x);
    } else if count == 2 {
      LowBits(next, q - k * 0x100_0000, 0x100, value * 64 + x);
    } else if count == 4 {
      LowBits(next, q - k * 0x40_0000, 0x400, value * 64 + x);
      NextByte(next, q - k * 0x40_0000, 4, value * 64 + x);
    } else {
      LowBits(next, q - k * 0x10_0000, 0x1000, value * 64 + x);
      NextByte(next, q - k * 0x10_0000, 16, value * 64 + x);
    }
  }

  lemma LowBits(next: int, high: int, unit: nat, low: int)
    requires next == high * unit + low && 0 <= low < unit
    ensures next % unit == low
  {
    assert next / unit == high by {
      var found := next / unit;
      if found < high { assert (found + 1) * unit <= high * unit by { Times(found + 1, high, unit); } }
      if found > high { assert (high + 1) * unit <= found * unit by { Times(high + 1, found, unit); } }
    }
  }

  lemma Times(a: int, b: int, unit: nat)
    requires a <= b
    ensures a * unit <= b * unit
  {
  }

  lemma NextByte(next: int, high: int, unit: nat, low: int)
    requires (unit == 4 || unit == 16) && next == high * (unit * 0x100) + low && 0 <= low < unit * 0x100
    ensures next % unit == low % unit && next / unit % 0x100 == low / unit
  {
    if unit == 4 {
      assert next / 4 == high * 0x100 + low / 4;
    } else {
      assert next / 16 == high * 0x100 + low / 16;
    }
  }
}
