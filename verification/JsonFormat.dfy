/** Strict DAG-JSON as functions: the text of a value, and the value at a position in some text. */
module JsonFormat {
  import opened Wrappers
  import opened IpldModel
  import opened Numerals
  import Base64
  import KeyOrder
  import Utf8

  // Printing

  function HexText(x: nat): char
    requires x < 16
  {
    if x < 10 then ('0' as int + x) as char else ('a' as int + x - 10) as char
  }

  /** A character inside a string, section 7 of RFC 8259. */
  function EscapeText(c: char): (text: string)
    ensures text != []
  {
    if c == '"' then "\\\"" else if c == '\\' then "\\\\"
    else if c == '\n' then "\\n" else if c == '\r' then "\\r" else if c == '\t' then "\\t"
    else if c == 8 as char then "\\b" else if c == 12 as char then "\\f"
    else if c as int < 0x20 then ['\\', 'u', '0', '0', HexText(c as int / 16), HexText(c as int % 16)]
    else [c]
  }

  function Escaped(text: string): string {
    if text == [] then "" else EscapeText(text[0]) + Escaped(text[1..])
  }

  function StringText(text: string): string {
    ['"'] + Escaped(text) + ['"']
  }

  /** The DAG-CBOR integers. */
  predicate InRange(i: int) {
    -USIZE_END <= i < USIZE_END
  }

  function IntegerText(i: int): string {
    if i < 0 then ['-'] + DecimalText(-i) else DecimalText(i)
  }

  function BytesText(bytes: seq<Byte>): string {
    "{\"/\":{\"bytes\":\"" + Base64.Encode(bytes) + "\"}}"
  }

  function LinkText(text: string): string {
    "{\"/\":\"" + text + "\"}"
  }

  /** The keys of a map in the order of a BTreeMap. */
  function SortedKeys(keys: set<string>): (listing: seq<string>)
    ensures forall k :: k in listing <==> k in keys
    ensures KeyOrder.Ascending(listing, KeyOrder.Bytewise)
  {
    KeyOrder.BytewiseIsStrictTotal();
    KeyOrder.Listing(keys, KeyOrder.Bytewise)
  }

  /** The canonical text of `v` nested `depth` deep. */
  function PrintItem(lib: CidLibrary, v: Ipld, depth: nat): Result<string, CodecError>
    requires depth <= MAX_DEPTH + 1
    decreases MAX_DEPTH + 1 - depth, 0, 0
  {
    if depth > MAX_DEPTH then Err(NestingTooDeep)
    else match v
      case Null => Ok("null")
      case Bool(flag) => Ok(if flag then "true" else "false")
      case Integer(i) => if InRange(i) then Ok(IntegerText(i)) else Err(IntegerOutOfRange)
      case Float(_) => Err(FloatInText)
      case String(text) => Ok(StringText(text))
      case Bytes(bytes) => Ok(BytesText(bytes))
      case List(items) =>
        var body :- PrintItems(lib, items, depth + 1);
        Ok(['['] + body + [']'])
      case Map(m) =>
        if "/" in m then Err(ReservedKey)
        else
          var body :- PrintEntries(lib, m, SortedKeys(m.Keys), depth + 1);
          Ok(['{'] + body + ['}'])
      case Link(cid) => Ok(LinkText(lib.toText(cid)))
  }

  /** `,` between two items or entries. */
  function Comma(more: bool): string {
    if more then [','] else []
  }

  function PrintItems(lib: CidLibrary, items: seq<Ipld>, depth: nat): Result<string, CodecError>
    requires depth <= MAX_DEPTH + 1
    decreases MAX_DEPTH + 1 - depth, 1, |items|
  {
    if items == [] then Ok("")
    else
      var first :- PrintItem(lib, items[0], depth);
      var rest :- PrintItems(lib, items[1..], depth);
      Ok(first + Comma(|items| > 1) + rest)
  }

  /** A key and its value. */
  function PrintEntry(lib: CidLibrary, m: map<string, Ipld>, key: string, depth: nat): Result<string, CodecError>
    requires depth <= MAX_DEPTH + 1 && key in m
    decreases MAX_DEPTH + 1 - depth, 1, 0
  {
    var value :- PrintItem(lib, m[key], depth);
    Ok(StringText(key) + [':'] + value)
  }

  function PrintEntries(lib: CidLibrary, m: map<string, Ipld>, keys: seq<string>, depth: nat)
    : Result<string, CodecError>
    requires depth <= MAX_DEPTH + 1 && forall k :: k in keys ==> k in m
    decreases MAX_DEPTH + 1 - depth, 1, |keys|
  {
    if keys == [] then Ok("")
    else
      var first :- PrintEntry(lib, m, keys[0], depth);
      var rest :- PrintEntries(lib, m, keys[1..], depth);
      Ok(first + Comma(|keys| > 1) + rest)
  }

  /** `encode`. */
  function Encode(lib: CidLibrary, v: Ipld): Result<string, CodecError> {
    PrintItem(lib, v, 0)
  }

  // Parsing. Each function gives what it read and the position after it.

  function Next(t: string, pos: nat): Result<char, CodecError> {
    if pos < |t| then Ok(t[pos]) else Err(UnexpectedEnd)
  }

  function Expect(t: string, pos: nat, c: char): (r: Result<nat, CodecError>)
    ensures r.Ok? ==> r.value == pos + 1 <= |t|
  {
    var found :- Next(t, pos);
    if found == c then Ok(pos + 1) else Err(InvalidJson)
  }

  function Literal(t: string, pos: nat, word: string): (r: Result<nat, CodecError>)
    ensures r.Ok? ==> r.value == pos + |word| <= |t|
  {
    if At(t, pos, word) then Ok(pos + |word|) else Err(InvalidJson)
  }

  /** How many characters from `pos` take exactly `n` bytes. */
  function Span(t: string, pos: nat, n: int): (r: Option<nat>)
    ensures r.Some? ==> (r.value == 0 <==> n == 0) && (r.value > 0 ==> pos + r.value <= |t|)
    decreases n
  {
    if n == 0 then Some(0)
    else if n < 0 || pos >= |t| then None
    else match Span(t, pos + 1, n - |Utf8.EncodeChar(t[pos])|)
      case None => None
      case Some(k) => Some(k + 1)
  }

  /** Four bytes of hexadecimal digits. */
  function ReadHex(t: string, pos: nat): (r: Result<(nat, nat), CodecError>)
    ensures r.Ok? ==> pos < r.value.1 <= |t|
  {
    match Span(t, pos, 4)
    case None => Err(UnexpectedEnd)
    case Some(n) =>
      match Radix16(t[pos..pos + n])
      case None => Err(InvalidJson)
      case Some(code) => Ok((code, pos + n))
  }

  /** An escape after its backslash; a high surrogate must be followed by an escaped low one. */
  function ReadEscape(t: string, pos: nat): (r: Result<(char, nat), CodecError>)
    ensures r.Ok? ==> pos < r.value.1 <= |t|
  {
    var c :- Next(t, pos);
    if c == '"' || c == '\\' || c == '/' then Ok((c, pos + 1))
    else if c == 'b' then Ok((8 as char, pos + 1))
    else if c == 'f' then Ok((12 as char, pos + 1))
    else if c == 'n' then Ok(('\n', pos + 1))
    else if c == 'r' then Ok(('\r', pos + 1))
    else if c == 't' then Ok(('\t', pos + 1))
    else if c == 'u' then
      var (high, next) :- ReadHex(t, pos + 1);
      if 0xd800 <= high < 0xdc00 then
        var middle :- Literal(t, next, "\\u");
        var (low, end) :- ReadHex(t, middle);
        if 0xdc00 <= low < 0xe000 then
          Ok(((0x1_0000 + (high - 0xd800) * 0x400 + (low - 0xdc00)) as char, end))
        else Err(InvalidJson)
      else match Scalar(high)
        case Some(scalar) => Ok((scalar, next))
        case None => Err(InvalidJson)
    else Err(InvalidJson)
  }

  /** `head` and then what was read, or its error. */
  function Prefixed<T>(head: seq<T>, rest: Result<(seq<T>, nat), CodecError>): (r: Result<(seq<T>, nat), CodecError>)
    ensures r.Ok? <==> rest.Ok?
    ensures r.Ok? ==> r.value.1 == rest.value.1
  {
    match rest
    case Ok((tail, end)) => Ok((head + tail, end))
    case Err(e) => Err(e)
  }

  lemma PrefixedTwice<T>(a: seq<T>, b: seq<T>, rest: Result<(seq<T>, nat), CodecError>)
    ensures Prefixed(a, Prefixed(b, rest)) == Prefixed(a + b, rest)
  {
    if rest.Ok? { assert a + (b + rest.value.0) == (a + b) + rest.value.0; }
  }

  lemma PrefixedByNothing<T>(rest: Result<(seq<T>, nat), CodecError>)
    ensures Prefixed([], rest) == rest
  {
    if rest.Ok? { assert [] + rest.value.0 == rest.value.0; }
  }

  /** What ends a run of characters that stand for themselves. */
  predicate Special(c: char) {
    c == '"' || c == '\\' || c as int < 0x20
  }

  /** The rest of a string after its opening quote. */
  function ReadChars(t: string, pos: nat): (r: Result<(string, nat), CodecError>)
    ensures r.Ok? ==> pos < r.value.1 <= |t|
    decreases |t| - pos
  {
    if pos >= |t| then Err(UnexpectedEnd)
    else if !Special(t[pos]) then Prefixed([t[pos]], ReadChars(t, pos + 1))
    else if t[pos] == '"' then Ok(([], pos + 1))
    else if t[pos] == '\\' then
      var (c, next) :- ReadEscape(t, pos + 1);
      Prefixed([c], ReadChars(t, next))
    else Err(InvalidJson)
  }

  function ReadString(t: string, pos: nat): (r: Result<(string, nat), CodecError>)
    ensures r.Ok? ==> pos < r.value.1 <= |t|
  {
    var next :- Expect(t, pos, '"');
    ReadChars(t, next)
  }

  /** An integer: an optional minus, digits, and nothing that would make it a float. */
  function ReadNumber(t: string, pos: nat): (r: Result<(Ipld, nat), CodecError>)
    requires pos < |t|
    ensures r.Ok? ==> pos < r.value.1 <= |t|
  {
    var first := if t[pos] == '-' then pos + 1 else pos;
    var end := DigitsEnd(t, first);
    if end == first then Err(InvalidJson)
    else if end < |t| && (t[end] == '.' || t[end] == 'e' || t[end] == 'E') then Err(FloatInText)
    else
      var magnitude: int := Decimal(t[first..end]);
      var value: int := if t[pos] == '-' then -magnitude else magnitude;
      if InRange(value) then Ok((Integer(value), end)) else Err(IntegerOutOfRange)
  }

  /** A map keyed by `/` is a link or bytes, and nothing else. */
  function ReservedForm(lib: CidLibrary, m: map<string, Ipld>): Result<Ipld, CodecError> {
    if "/" !in m then Ok(Map(m))
    else if m.Keys != {"/"} then Err(ReservedKey)
    else match m["/"]
      case String(text) =>
        (match lib.FromText(text)
         case Some(cid) => Ok(Link(cid))
         case None => Err(InvalidCid))
      case Map(form) =>
        if form.Keys == {"bytes"} && form["bytes"].String? then
          match Base64.Decode(form["bytes"].text)
          case Ok(bytes) => Ok(Bytes(bytes))
          case Err(e) => Err(e)
        else Err(ReservedKey)
      case _ => Err(ReservedKey)
  }

  /** The value at `pos`, nested `depth` deep. */
  function ReadValue(lib: CidLibrary, t: string, pos: nat, depth: int): (r: Result<(Ipld, nat), CodecError>)
    ensures r.Ok? ==> pos < r.value.1 <= |t|
    decreases |t| - pos, 0
  {
    if depth > MAX_DEPTH then Err(NestingTooDeep)
    else
      var c :- Next(t, pos);
      if c == 'n' then var end :- Literal(t, pos, "null"); Ok((Null, end))
      else if c == 't' then var end :- Literal(t, pos, "true"); Ok((Bool(true), end))
      else if c == 'f' then var end :- Literal(t, pos, "false"); Ok((Bool(false), end))
      else if c == '"' then var (text, end) :- ReadString(t, pos); Ok((String(text), end))
      else if c == '[' then
        if pos + 1 < |t| && t[pos + 1] == ']' then Ok((List([]), pos + 2))
        else var (items, end) :- ReadItems(lib, t, pos + 1, depth + 1); Ok((List(items), end))
      else if c == '{' then
        if pos + 1 < |t| && t[pos + 1] == '}' then Ok((Map(map[]), pos + 2))
        else
          var (m, end) :- ReadEntries(lib, t, pos + 1, depth + 1, map[]);
          var v :- ReservedForm(lib, m);
          Ok((v, end))
      else if c == '-' || Digit(c) then ReadNumber(t, pos)
      else Err(InvalidJson)
  }

  /** Items up to the closing bracket. */
  function ReadItems(lib: CidLibrary, t: string, pos: nat, depth: int): (r: Result<(seq<Ipld>, nat), CodecError>)
    ensures r.Ok? ==> pos < r.value.1 <= |t|
    decreases |t| - pos, 1
  {
    var (first, next) :- ReadValue(lib, t, pos, depth);
    var c :- Next(t, next);
    if c == ',' then Prefixed([first], ReadItems(lib, t, next + 1, depth))
    else if c == ']' then Ok(([first], next + 1))
    else Err(InvalidJson)
  }

  /** Entries up to the closing brace, added to those of `m`. */
  function ReadEntries(lib: CidLibrary, t: string, pos: nat, depth: int, m: map<string, Ipld>)
    : (r: Result<(map<string, Ipld>, nat), CodecError>)
    ensures r.Ok? ==> pos < r.value.1 <= |t|
    decreases |t| - pos, 1
  {
    var (key, colon) :- ReadString(t, pos);
    var start :- Expect(t, colon, ':');
    var (value, next) :- ReadValue(lib, t, start, depth);
    if key in m then Err(DuplicateKey)
    else
      var c :- Next(t, next);
      if c == ',' then ReadEntries(lib, t, next + 1, depth, m[key := value])
      else if c == '}' then Ok((m[key := value], next + 1))
      else Err(InvalidJson)
  }

  /** `decode`: one value that spans the whole input, in the form `encode` gives it. */
  function Decode(lib: CidLibrary, b: seq<Byte>): Result<Ipld, CodecError> {
    match Utf8.Decode(b)
    case None => Err(InvalidUtf8)
    case Some(t) =>
      var (v, end) :- ReadValue(lib, t, 0, 0);
      if end != |t| then Err(TrailingBytes)
      else
        var canonical :- Encode(lib, v);
        if Utf8.Encode(canonical) == b then Ok(v) else Err(NotCanonical)
  }
}
