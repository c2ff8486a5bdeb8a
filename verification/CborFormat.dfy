/** Strict DAG-CBOR as functions: the bytes of a value, and the value at a position in some bytes. */
module CborFormat {
  import opened Wrappers
  import opened IpldModel
  import KeyOrder
  import Utf8

  const MAJOR_UINT: int := 0
  const MAJOR_NINT: int := 1
  const MAJOR_BYTES: int := 2
  const MAJOR_TEXT: int := 3
  const MAJOR_ARRAY: int := 4
  const MAJOR_MAP: int := 5
  const MAJOR_TAG: int := 6

  const FALSE: Byte := 0xf4
  const TRUE: Byte := 0xf5
  const NULL: Byte := 0xf6
  const FLOAT64: Byte := 0xfb

  const CID_TAG: U64 := 42
  const CID_MULTIBASE_IDENTITY: Byte := 0

  // Big-endian numbers

  function Pow256(n: nat): (p: nat)
    ensures p > 0
  {
    if n == 0 then 1 else 256 * Pow256(n - 1)
  }

  function BigEndian(x: nat, n: nat): (bytes: seq<Byte>)
    requires x < Pow256(n)
    ensures |bytes| == n
  {
    if n == 0 then [] else BigEndian(x / 256, n - 1) + [x % 256]
  }

  function FromBigEndian(bytes: seq<Byte>): (x: nat)
    ensures x < Pow256(|bytes|)
  {
    if bytes == [] then 0
    else FromBigEndian(bytes[..|bytes| - 1]) * 256 + bytes[|bytes| - 1]
  }

  lemma {:induction false} ReadBigEndian(x: nat, n: nat)
    requires x < Pow256(n)
    ensures FromBigEndian(BigEndian(x, n)) == x
  {
    if n > 0 {
      var bytes := BigEndian(x, n);
      assert bytes[..n - 1] == BigEndian(x / 256, n - 1);
      ReadBigEndian(x / 256, n - 1);
    }
  }

  lemma {:induction false} WriteBigEndian(bytes: seq<Byte>)
    ensures BigEndian(FromBigEndian(bytes), |bytes|) == bytes
  {
    if bytes != [] {
      var front, last: int := bytes[..|bytes| - 1], bytes[|bytes| - 1];
      WriteBigEndian(front);
      var x := FromBigEndian(bytes);
      assert x / 256 == FromBigEndian(front) && x % 256 == last;
      assert bytes == front + [last];
    }
  }

  lemma Powers()
    ensures Pow256(1) == 0x100 && Pow256(2) == 0x1_0000
    ensures Pow256(4) == 0x1_0000_0000 && Pow256(8) == 0x1_0000_0000_0000_0000
  {
    assert Pow256(3) == 0x100_0000;
    assert Pow256(5) == 0x100_0000_0000;
    assert Pow256(6) == 0x1_0000_0000_0000;
    assert Pow256(7) == 0x100_0000_0000_0000;
  }

  // Writing

  /** An item head: the major type and its argument in the shortest form, section 3 of RFC 8949. */
  function Head(major: int, arg: U64): (bytes: seq<Byte>)
    requires 0 <= major < 7
    ensures |bytes| >= 1
  {
    Powers();
    if arg < 24 then [major * 32 + arg]
    else if arg < 0x100 then [major * 32 + 24] + BigEndian(arg, 1)
    else if arg < 0x1_0000 then [major * 32 + 25] + BigEndian(arg, 2)
    else if arg < 0x1_0000_0000 then [major * 32 + 26] + BigEndian(arg, 4)
    else [major * 32 + 27] + BigEndian(arg, 8)
  }

  function BytesItem(bytes: seq<Byte>): seq<Byte>
    requires |bytes| <= ALLOCATION_LIMIT + 1
  {
    Head(MAJOR_BYTES, |bytes|) + bytes
  }

  function TextItem(text: string): seq<Byte>
    requires |Utf8.Encode(text)| <= ALLOCATION_LIMIT
  {
    var bytes := Utf8.Encode(text);
    Head(MAJOR_TEXT, |bytes|) + bytes
  }

  function LinkItem(raw: seq<Byte>): seq<Byte>
    requires |raw| <= ALLOCATION_LIMIT
  {
    Head(MAJOR_TAG, CID_TAG) + BytesItem([CID_MULTIBASE_IDENTITY] + raw)
  }

  function FloatItem(bits: U64): seq<Byte> {
    Powers();
    [FLOAT64] + BigEndian(bits, 8)
  }

  function WriteInteger(i: I128): Result<seq<Byte>, CodecError> {
    if 0 <= i < USIZE_END then Ok(Head(MAJOR_UINT, i))
    else if 0 <= -1 - i < USIZE_END then Ok(Head(MAJOR_NINT, -1 - i))
    else Err(IntegerOutOfRange)
  }

  /** The keys of a map in the order the encoder writes them. */
  function CanonicalKeys(keys: set<string>): (listing: seq<string>)
    ensures KeyOrder.Ascending(listing, KeyOrder.LengthFirst)
    ensures forall k :: k in listing <==> k in keys
  {
    KeyOrder.LengthFirstIsStrictTotal();
    KeyOrder.Listing(keys, KeyOrder.LengthFirst)
  }

  /** The canonical bytes of `v` nested `depth` deep. */
  function WriteItem(lib: CidLibrary, v: Ipld, depth: nat): (r: Result<seq<Byte>, CodecError>)
    requires lib.Lawful() && Allocated(v) && depth <= MAX_DEPTH + 1
    ensures r.Ok? ==> r.value != []
    decreases MAX_DEPTH + 1 - depth, 0, 0
  {
    if depth > MAX_DEPTH then Err(NestingTooDeep)
    else match v
      case Null => Ok([NULL])
      case Bool(flag) => Ok([if flag then TRUE else FALSE])
      case Integer(i) => WriteInteger(i)
      case Float(bits) =>
        if !Finite(bits) then Err(InvalidFloat)
        else Ok(FloatItem(if bits == NEGATIVE_ZERO then 0 else bits))
      case String(text) => Ok(TextItem(text))
      case Bytes(bytes) => Ok(BytesItem(bytes))
      case List(items) =>
        var body :- WriteItems(lib, items, depth + 1);
        Ok(Head(MAJOR_ARRAY, |items|) + body)
      case Map(m) =>
        var body :- WriteEntries(lib, m, CanonicalKeys(m.Keys), depth + 1);
        Ok(Head(MAJOR_MAP, |m|) + body)
      case Link(cid) => Ok(LinkItem(lib.toBytes(cid)))
  }

  function WriteItems(lib: CidLibrary, items: seq<Ipld>, depth: nat): Result<seq<Byte>, CodecError>
    requires lib.Lawful() && depth <= MAX_DEPTH + 1
    requires forall i :: 0 <= i < |items| ==> Allocated(items[i])
    decreases MAX_DEPTH + 1 - depth, 1, |items|
  {
    if items == [] then Ok([])
    else
      var first :- WriteItem(lib, items[0], depth);
      var rest :- WriteItems(lib, items[1..], depth);
      Ok(first + rest)
  }

  /** A text key and its value. */
  function WriteEntry(lib: CidLibrary, m: map<string, Ipld>, key: string, depth: nat): Result<seq<Byte>, CodecError>
    requires lib.Lawful() && Allocated(Map(m)) && depth <= MAX_DEPTH + 1 && key in m
    decreases MAX_DEPTH + 1 - depth, 1, 0
  {
    var value :- WriteItem(lib, m[key], depth);
    Ok(TextItem(key) + value)
  }

  /** The entries of `m` under `keys`. */
  function WriteEntries(lib: CidLibrary, m: map<string, Ipld>, keys: seq<string>, depth: nat)
    : Result<seq<Byte>, CodecError>
    requires lib.Lawful() && Allocated(Map(m)) && depth <= MAX_DEPTH + 1
    requires forall k :: k in keys ==> k in m
    decreases MAX_DEPTH + 1 - depth, 1, |keys|
  {
    if keys == [] then Ok([])
    else
      var first :- WriteEntry(lib, m, keys[0], depth);
      var rest :- WriteEntries(lib, m, keys[1..], depth);
      Ok(first + rest)
  }

  /** `encode`. */
  function Encode(lib: CidLibrary, v: Ipld): Result<seq<Byte>, CodecError>
    requires lib.Lawful() && Allocated(v)
  {
    WriteItem(lib, v, 0)
  }

  // Reading. Each function gives what it read and the position after it.

  function ReadByte(b: seq<Byte>, pos: nat): Result<(Byte, nat), CodecError> {
    if pos < |b| then Ok((b[pos], pos + 1)) else Err(UnexpectedEnd)
  }

  function Take(b: seq<Byte>, pos: nat, n: U64): (r: Result<(seq<Byte>, nat), CodecError>)
    ensures r.Ok? ==> r.value.1 == pos + n <= |b| && r.value.0 == b[pos..pos + n]
  {
    if pos + n >= USIZE_END then Err(LengthTooLarge)
    else if pos + n > |b| then Err(UnexpectedEnd)
    else Ok((b[pos..pos + n], pos + n))
  }

  /** An argument of `n` bytes, refused unless it is larger than `shorter` can hold. */
  function LongArgument(b: seq<Byte>, pos: nat, n: U64, shorter: int): (r: Result<(U64, nat), CodecError>)
    requires n <= 8
  {
    var (raw, end) :- Take(b, pos, n);
    Powers();
    PowMonotone(n, 8);
    var v := FromBigEndian(raw);
    if v <= shorter then Err(NonMinimalInteger) else Ok((v, end))
  }

  lemma {:induction n} PowMonotone(m: nat, n: nat)
    requires m <= n
    ensures Pow256(m) <= Pow256(n)
  {
    if m < n { PowMonotone(m, n - 1); }
  }

  function ReadArgument(b: seq<Byte>, pos: nat, info: int): (r: Result<(U64, nat), CodecError>)
    requires pos <= |b| && 0 <= info < 32
    ensures r.Ok? ==> pos <= r.value.1 <= |b|
  {
    if info < 24 then Ok((info, pos))
    else if info == 24 then
      var (v, end) :- ReadByte(b, pos);
      if v < 24 then Err(NonMinimalInteger) else Ok((v, end))
    else if info == 25 then LongArgument(b, pos, 2, 0xff)
    else if info == 26 then LongArgument(b, pos, 4, 0xffff)
    else if info == 27 then LongArgument(b, pos, 8, 0xffff_ffff)
    else if info == 31 then Err(IndefiniteLength)
    else Err(Reserved)
  }

  /** The head of an item: its major type, its argument and the position after it. */
  function ReadHead(b: seq<Byte>, pos: nat): (r: Result<(int, U64, nat), CodecError>)
    requires pos <= |b|
    ensures r.Ok? ==> 0 <= r.value.0 < 7 && pos < r.value.2 <= |b|
  {
    var (initial, next) :- ReadByte(b, pos);
    if initial / 32 == 7 then Err(UnexpectedType)
    else
      var (arg, end) :- ReadArgument(b, next, initial % 32);
      Ok((initial / 32, arg, end))
  }

  /** A head of the given major type, as the typed readers ask for it. */
  function ReadHeadOf(b: seq<Byte>, pos: nat, major: int): (r: Result<(U64, nat), CodecError>)
    requires pos <= |b|
    ensures r.Ok? ==> pos < r.value.1 <= |b|
  {
    var (found, arg, end) :- ReadHead(b, pos);
    if found != major then Err(UnexpectedType) else Ok((arg, end))
  }

  function ReadBytes(b: seq<Byte>, pos: nat): (r: Result<(seq<Byte>, nat), CodecError>)
    requires pos <= |b|
    ensures r.Ok? ==> pos < r.value.1 <= |b|
  {
    var (n, next) :- ReadHeadOf(b, pos, MAJOR_BYTES);
    Take(b, next, n)
  }

  function TakeText(b: seq<Byte>, pos: nat, n: U64): (r: Result<(string, nat), CodecError>)
    ensures r.Ok? ==> r.value.1 == pos + n <= |b|
  {
    var (raw, end) :- Take(b, pos, n);
    match Utf8.Decode(raw)
    case Some(text) => Ok((text, end))
    case None => Err(InvalidUtf8)
  }

  function ReadText(b: seq<Byte>, pos: nat): (r: Result<(string, nat), CodecError>)
    requires pos <= |b|
    ensures r.Ok? ==> pos < r.value.1 <= |b|
  {
    var (n, next) :- ReadHeadOf(b, pos, MAJOR_TEXT);
    TakeText(b, next, n)
  }

  /** A value of major type 7, after its initial byte. */
  function ReadSimple(b: seq<Byte>, pos: nat, info: int): (r: Result<(Ipld, nat), CodecError>)
    requires pos <= |b|
    ensures r.Ok? ==> pos <= r.value.1 <= |b|
  {
    if info == 20 then Ok((Bool(false), pos))
    else if info == 21 then Ok((Bool(true), pos))
    else if info == 22 then Ok((Null, pos))
    else if info == 27 then
      var (raw, end) :- Take(b, pos, 8);
      Powers();
      var bits := FromBigEndian(raw);
      if Finite(bits) && bits != NEGATIVE_ZERO then Ok((Float(bits), end)) else Err(InvalidFloat)
    else if info == 25 || info == 26 then Err(InvalidFloat)
    else if info == 31 then Err(IndefiniteLength)
    else Err(UnsupportedSimple)
  }

  /** A link, after its tag. */
  function ReadLink(lib: CidLibrary, b: seq<Byte>, pos: nat, tag: U64): (r: Result<(Ipld, nat), CodecError>)
    requires pos <= |b|
    ensures r.Ok? ==> pos < r.value.1 <= |b|
  {
    if tag != CID_TAG then Err(UnsupportedTag(tag))
    else match ReadBytes(b, pos)
      case Err(e) => Err(if e == UnexpectedType then InvalidCid else e)
      case Ok((raw, end)) =>
        if raw == [] || raw[0] != CID_MULTIBASE_IDENTITY then Err(InvalidCid)
        else match lib.FromBytes(raw[1..])
          case Some(cid) => Ok((Link(cid), end))
          case None => Err(InvalidCid)
  }

  /** A map key, which must come after `previous`. */
  function ReadKey(b: seq<Byte>, pos: nat, previous: Option<string>): (r: Result<(string, nat), CodecError>)
    requires pos <= |b|
    ensures r.Ok? ==> pos < r.value.1 <= |b|
  {
    match ReadText(b, pos)
    case Err(e) => Err(if e == UnexpectedType then NonStringKey else e)
    case Ok((key, end)) =>
      if previous.None? || KeyOrder.LengthFirst(previous.value, key) then Ok((key, end))
      else if previous.value == key then Err(DuplicateKey)
      else Err(UnsortedKeys)
  }

  /** The value at `pos`, nested `depth` deep. */
  function ReadItem(lib: CidLibrary, b: seq<Byte>, pos: nat, depth: nat): (r: Result<(Ipld, nat), CodecError>)
    requires pos <= |b| && depth <= MAX_DEPTH + 1
    ensures r.Ok? ==> pos < r.value.1 <= |b|
    decreases MAX_DEPTH + 1 - depth, 0, 0
  {
    if depth > MAX_DEPTH then Err(NestingTooDeep)
    else if pos >= |b| then Err(UnexpectedEnd)
    else if b[pos] / 32 == 7 then ReadSimple(b, pos + 1, b[pos] % 32)
    else
      var (major, arg, next) :- ReadHead(b, pos);
      if major == MAJOR_UINT then Ok((Integer(arg), next))
      else if major == MAJOR_NINT then Ok((Integer(-1 - arg as int), next))
      else if major == MAJOR_BYTES then
        var (bytes, end) :- Take(b, next, arg);
        Ok((Bytes(bytes), end))
      else if major == MAJOR_TEXT then
        var (text, end) :- TakeText(b, next, arg);
        Ok((String(text), end))
      else if major == MAJOR_ARRAY then
        var (items, end) :- ReadItems(lib, b, next, arg, depth + 1);
        Ok((List(items), end))
      else if major == MAJOR_MAP then
        var (entries, end) :- ReadEntries(lib, b, next, arg, None, depth + 1);
        Ok((Map(MapOf(entries)), end))
      else ReadLink(lib, b, next, arg)
  }

  function ReadItems(lib: CidLibrary, b: seq<Byte>, pos: nat, n: nat, depth: nat)
    : (r: Result<(seq<Ipld>, nat), CodecError>)
    requires pos <= |b| && depth <= MAX_DEPTH + 1
    ensures r.Ok? ==> pos <= r.value.1 <= |b|
    decreases MAX_DEPTH + 1 - depth, 1, n
  {
    if n == 0 then Ok(([], pos))
    else
      var (first, next) :- ReadItem(lib, b, pos, depth);
      var (rest, end) :- ReadItems(lib, b, next, n - 1, depth);
      Ok(([first] + rest, end))
  }

  function ReadEntries(lib: CidLibrary, b: seq<Byte>, pos: nat, n: nat, previous: Option<string>, depth: nat)
    : (r: Result<(seq<(string, Ipld)>, nat), CodecError>)
    requires pos <= |b| && depth <= MAX_DEPTH + 1
    ensures r.Ok? ==> pos <= r.value.1 <= |b|
    decreases MAX_DEPTH + 1 - depth, 1, n
  {
    if n == 0 then Ok(([], pos))
    else
      var (key, middle) :- ReadKey(b, pos, previous);
      var (value, next) :- ReadItem(lib, b, middle, depth);
      var (rest, end) :- ReadEntries(lib, b, next, n - 1, Some(key), depth);
      Ok(([(key, value)] + rest, end))
  }

  /** The map that inserting the entries one after another gives. */
  function MapOf(entries: seq<(string, Ipld)>): map<string, Ipld> {
    if entries == [] then map[]
    else
      var (key, value) := entries[|entries| - 1];
      MapOf(entries[..|entries| - 1])[key := value]
  }

  /** `decode`: one value that spans the whole input. */
  function Decode(lib: CidLibrary, b: seq<Byte>): Result<Ipld, CodecError> {
    var (v, end) :- ReadItem(lib, b, 0, 0);
    if end == |b| then Ok(v) else Err(TrailingBytes)
  }
}
