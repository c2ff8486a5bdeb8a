/** DAG-CBOR has one encoding for each value and one value for each accepted byte string. */
module CborProofs {
  import opened Wrappers
  import opened IpldModel
  import opened CborFormat
  import KeyOrder
  import Utf8

  // Heads

  lemma OneByte(x: Byte)
    ensures BigEndian(x, 1) == [x] && FromBigEndian([x]) == x
  {
    assert BigEndian(0, 0) == [];
    assert [x][..0] == [];
  }

  lemma ReadWrittenHead(b: seq<Byte>, pos: nat, major: int, arg: U64)
    requires |b| <= ALLOCATION_LIMIT && 0 <= major < 7 && At(b, pos, Head(major, arg))
    ensures ReadHead(b, pos) == Ok((major, arg, pos + |Head(major, arg)|))
  {
    hide BigEndian, FromBigEndian, Pow256;
    var head := Head(major, arg);
    Powers();
    AtHead(b, pos, head);
    var initial: int := b[pos];
    assert initial == head[0];
    assert initial / 32 == major;
    if arg >= 24 {
      var n := |head| - 1;
      assert b[pos + 1..pos + 1 + n] == b[pos..pos + 1 + n][1..] == BigEndian(arg, n);
      if arg < 0x100 { OneByte(arg); } else { ReadBigEndian(arg, n); }
    }
  }

  lemma WriteReadHead(b: seq<Byte>, pos: nat)
    requires pos <= |b| && ReadHead(b, pos).Ok?
    ensures var (major, arg, end) := ReadHead(b, pos).value; b[pos..end] == Head(major, arg)
  {
    hide BigEndian, FromBigEndian, Pow256;
    var (major, arg, end) := ReadHead(b, pos).value;
    Powers();
    var initial: int := b[pos];
    assert initial == major * 32 + initial % 32;
    var raw := b[pos + 1..end];
    assert b[pos..end] == [b[pos]] + raw;
    WriteBigEndian(raw);
    if initial % 32 == 24 {
      assert raw == [arg];
      OneByte(arg);
    }
  }

  // Encoding and then reading

  /** What the encoder accepts. */
  ghost predicate Encodable(v: Ipld, depth: nat) {
    depth <= MAX_DEPTH &&
    match v
    case Integer(i) => -USIZE_END <= i < USIZE_END
    case Float(bits) => Finite(bits)
    case List(items) => forall i :: 0 <= i < |items| ==> Encodable(items[i], depth + 1)
    case Map(m) => forall k :: k in m ==> Encodable(m[k], depth + 1)
    case _ => true
  }

  /** `encode` fails exactly outside its domain. */
  lemma {:induction false} WriteDomain(lib: CidLibrary, v: Ipld, depth: nat)
    requires lib.Lawful() && Allocated(v) && depth <= MAX_DEPTH + 1
    ensures WriteItem(lib, v, depth).Ok? <==> Encodable(v, depth)
    decreases MAX_DEPTH + 1 - depth, 0, 0
  {
    hide WriteItem, WriteItems, WriteEntries, CanonicalKeys;
    AllocatedParts(v);
    hide Allocated;
    WriteStep(lib, v, depth);
    if depth <= MAX_DEPTH {
      match v
      case List(items) => WriteItemsDomain(lib, items, depth + 1);
      case Map(m) => WriteEntriesDomain(lib, m, CanonicalKeys(m.Keys), depth + 1);
      case _ =>
    }
  }

  /** A value is written when its parts are. */
  lemma WriteStep(lib: CidLibrary, v: Ipld, depth: nat)
    requires lib.Lawful() && Allocated(v) && depth <= MAX_DEPTH + 1
    ensures WriteItem(lib, v, depth).Ok? <==>
            depth <= MAX_DEPTH &&
            match v
            case Integer(i) => -USIZE_END <= i < USIZE_END
            case Float(bits) => Finite(bits)
            case List(items) => WriteItems(lib, items, depth + 1).Ok?
            case Map(m) => WriteEntries(lib, m, CanonicalKeys(m.Keys), depth + 1).Ok?
            case _ => true
  {
    hide Head, TextItem, BytesItem, LinkItem, FloatItem, WriteItems, WriteEntries, CanonicalKeys;
  }

  /** What `Allocated` says of the parts of a value. */
  lemma AllocatedParts(v: Ipld)
    requires Allocated(v)
    ensures v.String? ==> |Utf8.Encode(v.text)| <= ALLOCATION_LIMIT
    ensures v.Bytes? ==> |v.bytes| <= ALLOCATION_LIMIT
    ensures v.List? ==> |v.items| <= ALLOCATION_LIMIT && forall i :: 0 <= i < |v.items| ==> Allocated(v.items[i])
    ensures v.Map? ==> |v.entries| <= ALLOCATION_LIMIT
    ensures v.Map? ==> forall k :: k in v.entries ==>
              |Utf8.Encode(k)| <= ALLOCATION_LIMIT && Allocated(v.entries[k])
  {
  }

  lemma {:induction false} WriteItemsDomain(lib: CidLibrary, items: seq<Ipld>, depth: nat)
    requires lib.Lawful() && depth <= MAX_DEPTH + 1
    requires forall i :: 0 <= i < |items| ==> Allocated(items[i])
    ensures WriteItems(lib, items, depth).Ok? <==> forall i :: 0 <= i < |items| ==> Encodable(items[i], depth)
    decreases MAX_DEPTH + 1 - depth, 1, |items|
  {
    hide WriteItem, Encodable;
    if items != [] {
      WriteDomain(lib, items[0], depth);
      WriteItemsDomain(lib, items[1..], depth);
      assert forall i :: 1 <= i < |items| ==> items[i] == items[1..][i - 1];
    }
  }

  lemma {:induction false} WriteEntriesDomain(lib: CidLibrary, m: map<string, Ipld>, keys: seq<string>, depth: nat)
    requires lib.Lawful() && Allocated(Map(m)) && depth <= MAX_DEPTH + 1
    requires forall k :: k in keys ==> k in m
    ensures WriteEntries(lib, m, keys, depth).Ok? <==> forall k :: k in keys ==> Encodable(m[k], depth)
    decreases MAX_DEPTH + 1 - depth, 1, |keys|
  {
    hide WriteItem, Encodable;
    AllocatedParts(Map(m));
    hide Allocated;
    if keys != [] {
      WriteDomain(lib, m[keys[0]], depth);
      WriteEntriesDomain(lib, m, keys[1..], depth);
      assert forall k :: k in keys <==> k == keys[0] || k in keys[1..];
    }
  }

  /** Reading what was written gives the value, its -0.0 read as 0.0, and stops at its end. */
  lemma {:induction false} ReadWritten(lib: CidLibrary, v: Ipld, depth: nat, b: seq<Byte>, pos: nat)
    requires lib.Lawful() && Allocated(v) && depth <= MAX_DEPTH + 1 && |b| <= ALLOCATION_LIMIT
    requires WriteItem(lib, v, depth).Ok? && At(b, pos, WriteItem(lib, v, depth).value)
    ensures ReadItem(lib, b, pos, depth) == Ok((Normal(v), pos + |WriteItem(lib, v, depth).value|))
    decreases MAX_DEPTH + 1 - depth, 0, 0
  {
    hide WriteItem, ReadItem;
    WrittenDepth(lib, v, depth);
    match v
    case List(items) => ReadWrittenList(lib, items, depth, b, pos);
    case Map(m) => ReadWrittenMap(lib, m, depth, b, pos);
    case Link(cid) => ReadWrittenLink(lib, cid, depth, b, pos);
    case _ => ReadWrittenLeaf(lib, v, depth, b, pos);
  }

  lemma {:induction false} ReadWrittenList(lib: CidLibrary, items: seq<Ipld>, depth: nat, b: seq<Byte>, pos: nat)
    requires lib.Lawful() && Allocated(List(items)) && depth <= MAX_DEPTH && |b| <= ALLOCATION_LIMIT
    requires WriteItem(lib, List(items), depth).Ok? && At(b, pos, WriteItem(lib, List(items), depth).value)
    ensures ReadItem(lib, b, pos, depth)
         == Ok((Normal(List(items)), pos + |WriteItem(lib, List(items), depth).value|))
    decreases MAX_DEPTH - depth, 2, 0
  {
    hide ReadHead, Head, ReadItems, WriteItems, ReadSimple, ReadLink, ReadEntries, WriteEntries;
    ReadWrittenContainer(b, pos, MAJOR_ARRAY, |items|, WriteItems(lib, items, depth + 1).value);
    ReadWrittenItems(lib, items, depth + 1, b, pos + |Head(MAJOR_ARRAY, |items|)|);
    assert Normal(List(items)).items == AllNormal(items);
  }

  lemma {:induction false} ReadWrittenMap(lib: CidLibrary, m: map<string, Ipld>, depth: nat, b: seq<Byte>, pos: nat)
    requires lib.Lawful() && Allocated(Map(m)) && depth <= MAX_DEPTH && |b| <= ALLOCATION_LIMIT
    requires WriteItem(lib, Map(m), depth).Ok? && At(b, pos, WriteItem(lib, Map(m), depth).value)
    ensures ReadItem(lib, b, pos, depth) == Ok((Normal(Map(m)), pos + |WriteItem(lib, Map(m), depth).value|))
    decreases MAX_DEPTH - depth, 2, 0
  {
    hide WriteItem, ReadItem, ReadHead, Head, ReadEntries, WriteEntries, Normal, MapOf, CanonicalKeys, Entries,
      KeyOrder.Ascending;
    var keys := CanonicalKeys(m.Keys);
    WriteMapItem(lib, m, depth);
    ReadWrittenContainer(b, pos, MAJOR_MAP, |m|, WriteEntries(lib, m, keys, depth + 1).value);
    ReadMapItem(lib, b, pos, |m|, pos + |Head(MAJOR_MAP, |m|)|, depth);
    KeyOrder.LengthFirstIsStrictTotal();
    KeyOrder.KeyCount(keys, m.Keys, KeyOrder.LengthFirst);
    ReadWrittenEntries(lib, m, keys, None, depth + 1, b, pos + |Head(MAJOR_MAP, |m|)|);
    MapOfListing(m, keys);
  }

  lemma WrittenDepth(lib: CidLibrary, v: Ipld, depth: nat)
    requires lib.Lawful() && Allocated(v) && depth <= MAX_DEPTH + 1 && WriteItem(lib, v, depth).Ok?
    ensures depth <= MAX_DEPTH
  {
  }

  lemma WriteMapItem(lib: CidLibrary, m: map<string, Ipld>, depth: nat)
    requires lib.Lawful() && Allocated(Map(m)) && depth <= MAX_DEPTH && WriteItem(lib, Map(m), depth).Ok?
    ensures var body := WriteEntries(lib, m, CanonicalKeys(m.Keys), depth + 1);
            body.Ok? && WriteItem(lib, Map(m), depth).value == Head(MAJOR_MAP, |m|) + body.value
  {
    hide Head, WriteItems, WriteEntries, CanonicalKeys;
  }

  lemma ReadMapItem(lib: CidLibrary, b: seq<Byte>, pos: nat, n: U64, next: nat, depth: nat)
    requires pos < |b| && b[pos] / 32 == MAJOR_MAP && ReadHead(b, pos) == Ok((MAJOR_MAP, n, next))
    requires depth <= MAX_DEPTH
    ensures ReadItem(lib, b, pos, depth) ==
            match ReadEntries(lib, b, next, n, None, depth + 1)
            case Ok((entries, end)) => Ok((Map(MapOf(entries)), end))
            case Err(e) => Err(e)
  {
    hide ReadHead, ReadItems, ReadEntries, MapOf, ReadSimple, ReadLink, TakeText;
  }

  lemma ReadWrittenContainer(b: seq<Byte>, pos: nat, major: int, n: U64, body: seq<Byte>)
    requires |b| <= ALLOCATION_LIMIT && 0 <= major < 7 && At(b, pos, Head(major, n) + body)
    ensures pos < |b| && b[pos] / 32 == major && ReadHead(b, pos) == Ok((major, n, pos + |Head(major, n)|))
    ensures pos + |Head(major, n)| <= |b| && At(b, pos + |Head(major, n)|, body)
  {
    AtSplit(b, pos, Head(major, n), body);
    ReadWrittenHead(b, pos, major, n);
  }

  lemma ReadWrittenLeaf(lib: CidLibrary, v: Ipld, depth: nat, b: seq<Byte>, pos: nat)
    requires lib.Lawful() && Allocated(v) && depth <= MAX_DEPTH && |b| <= ALLOCATION_LIMIT
    requires !v.List? && !v.Map? && !v.Link?
    requires WriteItem(lib, v, depth).Ok? && At(b, pos, WriteItem(lib, v, depth).value)
    ensures ReadItem(lib, b, pos, depth) == Ok((Normal(v), pos + |WriteItem(lib, v, depth).value|))
  {
    hide Head, ReadHead, BigEndian, FromBigEndian, Utf8.Encode, Utf8.Decode, WriteItems, WriteEntries, ReadItems,
      ReadEntries;
    match v
    case Integer(i) =>
      var major, arg := if i >= 0 then MAJOR_UINT else MAJOR_NINT, if i >= 0 then i else -1 - i;
      assert Head(major, arg) + [] == Head(major, arg);
      ReadWrittenContainer(b, pos, major, arg, []);
    case Float(bits) => ReadWrittenFloat(b, pos, if bits == NEGATIVE_ZERO then 0 else bits);
    case String(text) => ReadWrittenContainer(b, pos, MAJOR_TEXT, |Utf8.Encode(text)|, Utf8.Encode(text));
                         Utf8.DecodeEncode(text);
    case Bytes(raw) => ReadWrittenContainer(b, pos, MAJOR_BYTES, |raw|, raw);
    case Null => AtFirst(b, pos, WriteItem(lib, v, depth).value);
    case Bool(_) => AtFirst(b, pos, WriteItem(lib, v, depth).value);
    case _ =>
  }

  lemma ReadWrittenLink(lib: CidLibrary, cid: Cid, depth: nat, b: seq<Byte>, pos: nat)
    requires lib.Lawful() && depth <= MAX_DEPTH && |b| <= ALLOCATION_LIMIT
    requires At(b, pos, WriteItem(lib, Link(cid), depth).value)
    ensures ReadItem(lib, b, pos, depth) == Ok((Normal(Link(cid)), pos + |WriteItem(lib, Link(cid), depth).value|))
  {
    hide Head, ReadHead, ReadItems, ReadEntries, ReadSimple;
    var raw := [CID_MULTIBASE_IDENTITY] + lib.toBytes(cid);
    ReadWrittenContainer(b, pos, MAJOR_TAG, CID_TAG, BytesItem(raw));
    ReadWrittenBytes(b, pos + |Head(MAJOR_TAG, CID_TAG)|, raw);
    assert raw[1..] == lib.toBytes(cid);
  }

  lemma ReadWrittenFloat(b: seq<Byte>, pos: nat, bits: U64)
    requires |b| <= ALLOCATION_LIMIT && At(b, pos, FloatItem(bits)) && Finite(bits) && bits != NEGATIVE_ZERO
    ensures b[pos] == FLOAT64 && ReadSimple(b, pos + 1, 27) == Ok((Float(bits), pos + 9))
  {
    Powers();
    AtHead(b, pos, FloatItem(bits));
    assert b[pos] == FloatItem(bits)[0];
    assert b[pos + 1..pos + 9] == b[pos..pos + 9][1..] == BigEndian(bits, 8);
    ReadBigEndian(bits, 8);
  }

  lemma ReadWrittenBytes(b: seq<Byte>, pos: nat, raw: seq<Byte>)
    requires |b| <= ALLOCATION_LIMIT && |raw| <= ALLOCATION_LIMIT + 1 && At(b, pos, BytesItem(raw))
    ensures ReadBytes(b, pos) == Ok((raw, pos + |BytesItem(raw)|))
  {
    hide Head, ReadHead;
    ReadWrittenContainer(b, pos, MAJOR_BYTES, |raw|, raw);
  }

  lemma ReadWrittenText(b: seq<Byte>, pos: nat, text: string)
    requires |b| <= ALLOCATION_LIMIT && |Utf8.Encode(text)| <= ALLOCATION_LIMIT && At(b, pos, TextItem(text))
    ensures ReadText(b, pos) == Ok((text, pos + |TextItem(text)|))
  {
    hide Head, ReadHead, Utf8.Encode, Utf8.Decode;
    var raw := Utf8.Encode(text);
    ReadWrittenContainer(b, pos, MAJOR_TEXT, |raw|, raw);
    Utf8.DecodeEncode(text);
  }

  ghost function AllNormal(items: seq<Ipld>): seq<Ipld> {
    seq(|items|, i requires 0 <= i < |items| => Normal(items[i]))
  }

  lemma {:induction false} ReadWrittenItems(
      lib: CidLibrary, items: seq<Ipld>, depth: nat, b: seq<Byte>, pos: nat)
    requires lib.Lawful() && depth <= MAX_DEPTH + 1 && |b| <= ALLOCATION_LIMIT
    requires forall i :: 0 <= i < |items| ==> Allocated(items[i])
    requires WriteItems(lib, items, depth).Ok? && At(b, pos, WriteItems(lib, items, depth).value)
    ensures ReadItems(lib, b, pos, |items|, depth)
         == Ok((AllNormal(items), pos + |WriteItems(lib, items, depth).value|))
    decreases MAX_DEPTH + 1 - depth, 1, |items|
  {
    hide WriteItem, ReadItem;
    if items != [] {
      var first := WriteItem(lib, items[0], depth).value;
      var rest := WriteItems(lib, items[1..], depth).value;
      AtSplit(b, pos, first, rest);
      ReadWritten(lib, items[0], depth, b, pos);
      ReadWrittenItems(lib, items[1..], depth, b, pos + |first|);
      assert AllNormal(items) == [Normal(items[0])] + AllNormal(items[1..]);
      assert WriteItems(lib, items, depth) == Ok(first + rest);
      assert pos + |first| + |rest| == pos + |first + rest|;
    } else {
      assert AllNormal(items) == [];
    }
  }

  /** The entries of `m` in the order of `keys`, as reading gives them. */
  ghost function Entries(m: map<string, Ipld>, keys: seq<string>): seq<(string, Ipld)>
    requires forall k :: k in keys ==> k in m
  {
    seq(|keys|, i requires 0 <= i < |keys| => (keys[i], Normal(m[keys[i]])))
  }

  lemma WriteEntriesStep(lib: CidLibrary, m: map<string, Ipld>, keys: seq<string>, depth: nat)
    requires lib.Lawful() && Allocated(Map(m)) && depth <= MAX_DEPTH + 1
    requires keys != [] && forall k :: k in keys ==> k in m
    ensures WriteEntries(lib, m, keys, depth) ==
            match (WriteItem(lib, m[keys[0]], depth), WriteEntries(lib, m, keys[1..], depth))
            case (Ok(value), Ok(rest)) => Ok(TextItem(keys[0]) + value + rest)
            case (Err(e), _) => Err(e)
            case (_, Err(e)) => Err(e)
  {
    hide WriteItem, TextItem;
  }

  lemma ReadEntriesStep(
      lib: CidLibrary, b: seq<Byte>, pos: nat, n: nat, previous: Option<string>, depth: nat)
    requires pos <= |b| && depth <= MAX_DEPTH + 1 && n > 0 && ReadKey(b, pos, previous).Ok?
    requires var (key, middle) := ReadKey(b, pos, previous).value; ReadItem(lib, b, middle, depth).Ok?
    ensures var (key, middle) := ReadKey(b, pos, previous).value;
            var (value, next) := ReadItem(lib, b, middle, depth).value;
            ReadEntries(lib, b, pos, n, previous, depth) ==
            match ReadEntries(lib, b, next, n - 1, Some(key), depth)
            case Ok((rest, end)) => Ok(([(key, value)] + rest, end))
            case Err(e) => Err(e)
  {
    hide ReadItem, ReadKey;
  }

  /** The pieces of entries that were read. */
  lemma ReadEntriesParts(
      lib: CidLibrary, b: seq<Byte>, pos: nat, n: nat, previous: Option<string>, depth: nat)
    requires pos <= |b| && depth <= MAX_DEPTH + 1 && n > 0 && ReadEntries(lib, b, pos, n, previous, depth).Ok?
    ensures ReadKey(b, pos, previous).Ok?
    ensures var (key, middle) := ReadKey(b, pos, previous).value;
            ReadItem(lib, b, middle, depth).Ok?
            && ReadEntries(lib, b, ReadItem(lib, b, middle, depth).value.1, n - 1, Some(key), depth).Ok?
  {
    hide ReadItem, ReadKey;
  }

  lemma ReadKeyParts(b: seq<Byte>, pos: nat, previous: Option<string>)
    requires pos <= |b| && ReadKey(b, pos, previous).Ok?
    ensures ReadText(b, pos) == ReadKey(b, pos, previous)
    ensures previous.Some? ==> KeyOrder.LengthFirst(previous.value, ReadKey(b, pos, previous).value.0)
  {
    hide ReadText, KeyOrder.LengthFirst;
  }

  lemma ReadWrittenKey(b: seq<Byte>, pos: nat, key: string, previous: Option<string>)
    requires |b| <= ALLOCATION_LIMIT && |Utf8.Encode(key)| <= ALLOCATION_LIMIT && At(b, pos, TextItem(key))
    requires previous.Some? ==> KeyOrder.LengthFirst(previous.value, key)
    ensures ReadKey(b, pos, previous) == Ok((key, pos + |TextItem(key)|))
  {
    hide ReadText, TextItem, KeyOrder.LengthFirst;
    ReadWrittenText(b, pos, key);
  }

  lemma EntriesOf(m: map<string, Ipld>, keys: seq<string>)
    requires forall k :: k in keys ==> k in m
    ensures Entries(m, keys) == if keys == [] then [] else [(keys[0], Normal(m[keys[0]]))] + Entries(m, keys[1..])
  {
    hide Normal;
  }

  lemma AscendingTail(keys: seq<string>)
    requires keys != [] && KeyOrder.Ascending(keys, KeyOrder.LengthFirst)
    ensures KeyOrder.Ascending(keys[1..], KeyOrder.LengthFirst)
    ensures |keys| > 1 ==> KeyOrder.LengthFirst(keys[0], keys[1..][0])
  {
    hide KeyOrder.LengthFirst;
  }

  lemma {:induction false} ReadWrittenEntries(
      lib: CidLibrary, m: map<string, Ipld>, keys: seq<string>, previous: Option<string>, depth: nat,
      b: seq<Byte>, pos: nat)
    requires lib.Lawful() && Allocated(Map(m)) && depth <= MAX_DEPTH + 1 && |b| <= ALLOCATION_LIMIT
    requires (forall k :: k in keys ==> k in m) && KeyOrder.Ascending(keys, KeyOrder.LengthFirst)
    requires previous.Some? && keys != [] ==> KeyOrder.LengthFirst(previous.value, keys[0])
    requires WriteEntries(lib, m, keys, depth).Ok? && At(b, pos, WriteEntries(lib, m, keys, depth).value)
    ensures ReadEntries(lib, b, pos, |keys|, previous, depth)
         == Ok((Entries(m, keys), pos + |WriteEntries(lib, m, keys, depth).value|))
    decreases MAX_DEPTH + 1 - depth, 1, |keys|
  {
    hide WriteItem, ReadItem, ReadKey, TextItem, KeyOrder.LengthFirst, KeyOrder.Ascending, Normal, At, Entries;
    if keys != [] {
      var key := keys[0];
      AllocatedParts(Map(m));
      hide Allocated, Utf8.Encode;
      WriteEntriesStep(lib, m, keys, depth);
      var name, value := TextItem(key), WriteItem(lib, m[key], depth).value;
      var rest := WriteEntries(lib, m, keys[1..], depth).value;
      AtSplit(b, pos, name + value, rest);
      AtSplit(b, pos, name, value);
      ReadWrittenKey(b, pos, key, previous);
      ReadWritten(lib, m[key], depth, b, pos + |name|);
      AscendingTail(keys);
      ReadWrittenEntries(lib, m, keys[1..], Some(key), depth, b, pos + |name + value|);
      hide ReadEntries, WriteEntries;
      ReadEntriesStep(lib, b, pos, |keys|, previous, depth);
      EntriesOf(m, keys);
    } else {
      EntriesOf(m, keys);
    }
  }

  /** Inserting distinct entries one after another gives the map that holds each of them. */
  lemma {:induction false} MapOfDistinct(entries: seq<(string, Ipld)>)
    requires forall i, j :: 0 <= i < j < |entries| ==> entries[i].0 != entries[j].0
    ensures forall i :: 0 <= i < |entries| ==>
              entries[i].0 in MapOf(entries) && MapOf(entries)[entries[i].0] == entries[i].1
    ensures forall k :: k in MapOf(entries) ==> exists i :: 0 <= i < |entries| && entries[i].0 == k
  {
    if entries != [] {
      MapOfDistinct(entries[..|entries| - 1]);
    }
  }

  lemma MapOfListing(m: map<string, Ipld>, keys: seq<string>)
    requires (forall k :: k in keys <==> k in m) && KeyOrder.Ascending(keys, KeyOrder.LengthFirst)
    ensures Map(MapOf(Entries(m, keys))) == Normal(Map(m))
  {
    hide KeyOrder.LengthFirst;
    KeyOrder.LengthFirstIsStrictTotal();
    var entries := Entries(m, keys);
    MapOfDistinct(entries);
    var built := MapOf(entries);
    forall k ensures k in built <==> k in m
    {
      if k in m {
        var i :| 0 <= i < |keys| && keys[i] == k;
        assert entries[i].0 in built;
      }
    }
    forall k | k in m ensures built[k] == Normal(m[k])
    {
      var i :| 0 <= i < |keys| && keys[i] == k;
      assert built[entries[i].0] == entries[i].1;
    }
    assert built == Normal(Map(m)).entries;
  }

  // Reading and then encoding

  /** What was read, written again, is the bytes it was read from. */
  lemma {:induction false} WriteRead(lib: CidLibrary, b: seq<Byte>, pos: nat, depth: nat)
    requires lib.Lawful() && |b| <= ALLOCATION_LIMIT && pos <= |b| && depth <= MAX_DEPTH + 1
    requires ReadItem(lib, b, pos, depth).Ok?
    ensures var (v, end) := ReadItem(lib, b, pos, depth).value;
            Allocated(v) && Normal(v) == v && WriteItem(lib, v, depth) == Ok(b[pos..end])
    decreases MAX_DEPTH + 1 - depth, 0, 0
  {
    hide WriteItem, ReadHead, ReadEntries, ReadItems, ReadSimple, ReadLink, TakeText, MapOf, Normal, Allocated, Head;
    if b[pos] / 32 == 7 {
      WriteReadSimple(lib, b, pos, depth);
    } else {
      var (major, arg, next) := ReadHead(b, pos).value;
      if major == MAJOR_ARRAY {
        WriteReadItems(lib, b, next, arg, depth + 1);
        WriteReadList(lib, b, pos, depth);
      } else if major == MAJOR_MAP {
        WriteReadEntriesAsMap(lib, b, next, arg, depth + 1);
        WriteReadMap(lib, b, pos, depth);
      } else if major == MAJOR_TAG {
        WriteReadLink(lib, b, pos, depth);
      } else {
        WriteReadPlain(lib, b, pos, depth);
      }
    }
  }

  /** An integer, a byte string or a text. */
  lemma WriteReadPlain(lib: CidLibrary, b: seq<Byte>, pos: nat, depth: nat)
    requires lib.Lawful() && |b| <= ALLOCATION_LIMIT && pos < |b| && depth <= MAX_DEPTH && b[pos] / 32 != 7
    requires ReadItem(lib, b, pos, depth).Ok? && ReadHead(b, pos).value.0 < MAJOR_ARRAY
    ensures var (v, end) := ReadItem(lib, b, pos, depth).value;
            Allocated(v) && Normal(v) == v && WriteItem(lib, v, depth) == Ok(b[pos..end])
  {
    hide ReadHead, Head, Utf8.Encode, Utf8.Decode;
    WriteReadHead(b, pos);
    var (v, end) := ReadItem(lib, b, pos, depth).value;
    var (major, arg, next) := ReadHead(b, pos).value;
    assert b[pos..end] == b[pos..next] + b[next..end];
    if major == MAJOR_TEXT {
      Utf8.EncodeDecode(b[next..end]);
    }
  }

  lemma WriteReadList(lib: CidLibrary, b: seq<Byte>, pos: nat, depth: nat)
    requires lib.Lawful() && |b| <= ALLOCATION_LIMIT && pos < |b| && depth <= MAX_DEPTH && b[pos] / 32 != 7
    requires ReadItem(lib, b, pos, depth).Ok? && ReadHead(b, pos).value.0 == MAJOR_ARRAY
    requires var (_, n, next) := ReadHead(b, pos).value;
             && ReadItems(lib, b, next, n, depth + 1).Ok?
             && var (items, end) := ReadItems(lib, b, next, n, depth + 1).value;
             && |items| == n && next + n <= end
             && (forall i :: 0 <= i < n ==> Allocated(items[i]) && Normal(items[i]) == items[i])
             && WriteItems(lib, items, depth + 1) == Ok(b[next..end])
    ensures var (v, end) := ReadItem(lib, b, pos, depth).value;
            Allocated(v) && Normal(v) == v && WriteItem(lib, v, depth) == Ok(b[pos..end])
  {
    hide ReadHead, Head, ReadItems, WriteItems, ReadEntries, WriteEntries;
    WriteReadHead(b, pos);
    var (v, end) := ReadItem(lib, b, pos, depth).value;
    var (_, n, next) := ReadHead(b, pos).value;
    assert b[pos..end] == b[pos..next] + b[next..end];
    assert Normal(v).items == v.items;
  }

  lemma WriteReadMap(lib: CidLibrary, b: seq<Byte>, pos: nat, depth: nat)
    requires lib.Lawful() && |b| <= ALLOCATION_LIMIT && pos < |b| && depth <= MAX_DEPTH && b[pos] / 32 != 7
    requires ReadItem(lib, b, pos, depth).Ok? && ReadHead(b, pos).value.0 == MAJOR_MAP
    requires var (_, n, next) := ReadHead(b, pos).value;
             && ReadEntries(lib, b, next, n, None, depth + 1).Ok?
             && var (entries, end) := ReadEntries(lib, b, next, n, None, depth + 1).value;
             var m := MapOf(entries);
             && |m| == n && Allocated(Map(m)) && Normal(Map(m)) == Map(m)
             && WriteEntries(lib, m, CanonicalKeys(m.Keys), depth + 1) == Ok(b[next..end])
    ensures var (v, end) := ReadItem(lib, b, pos, depth).value;
            Allocated(v) && Normal(v) == v && WriteItem(lib, v, depth) == Ok(b[pos..end])
  {
    hide ReadHead, Head, ReadItems, WriteItems, ReadEntries, WriteEntries, Normal, Allocated, CanonicalKeys, MapOf;
    WriteReadHead(b, pos);
    var (v, end) := ReadItem(lib, b, pos, depth).value;
    var (_, n, next) := ReadHead(b, pos).value;
    assert b[pos..end] == b[pos..next] + b[next..end];
  }

  lemma WriteReadSimple(lib: CidLibrary, b: seq<Byte>, pos: nat, depth: nat)
    requires lib.Lawful() && pos < |b| && depth <= MAX_DEPTH && b[pos] / 32 == 7
    requires ReadSimple(b, pos + 1, b[pos] % 32).Ok?
    ensures var (v, end) := ReadSimple(b, pos + 1, b[pos] % 32).value;
            Allocated(v) && Normal(v) == v && WriteItem(lib, v, depth) == Ok(b[pos..end])
  {
    hide BigEndian, FromBigEndian, Pow256;
    var (v, end) := ReadSimple(b, pos + 1, b[pos] % 32).value;
    var initial: int := b[pos];
    assert initial == 7 * 32 + initial % 32;
    assert b[pos..end] == [b[pos]] + b[pos + 1..end];
    if v.Float? {
      Powers();
      WriteBigEndian(b[pos + 1..end]);
    } else {
      assert b[pos..end] == [b[pos]];
    }
  }

  lemma WriteReadBytes(b: seq<Byte>, pos: nat)
    requires |b| <= ALLOCATION_LIMIT && pos <= |b| && ReadBytes(b, pos).Ok?
    ensures var (raw, end) := ReadBytes(b, pos).value;
            |raw| <= |b| - pos && b[pos..end] == BytesItem(raw)
  {
    hide ReadHead, Head;
    WriteReadHead(b, pos);
    var (n, next) := ReadHeadOf(b, pos, MAJOR_BYTES).value;
    var (raw, end) := ReadBytes(b, pos).value;
    assert b[pos..end] == b[pos..next] + b[next..end];
  }

  lemma WriteReadText(b: seq<Byte>, pos: nat)
    requires |b| <= ALLOCATION_LIMIT && pos <= |b| && ReadText(b, pos).Ok?
    ensures var (text, end) := ReadText(b, pos).value;
            |Utf8.Encode(text)| <= |b| && b[pos..end] == TextItem(text)
  {
    hide ReadHead, Head, Utf8.Encode, Utf8.Decode;
    WriteReadHead(b, pos);
    var (n, next) := ReadHeadOf(b, pos, MAJOR_TEXT).value;
    var (text, end) := ReadText(b, pos).value;
    Utf8.EncodeDecode(b[next..end]);
    assert b[pos..end] == b[pos..next] + b[next..end];
  }

  lemma WriteReadLink(lib: CidLibrary, b: seq<Byte>, pos: nat, depth: nat)
    requires lib.Lawful() && |b| <= ALLOCATION_LIMIT && pos < |b| && depth <= MAX_DEPTH && b[pos] / 32 != 7
    requires ReadItem(lib, b, pos, depth).Ok? && ReadHead(b, pos).value.0 == MAJOR_TAG
    ensures var (v, end) := ReadItem(lib, b, pos, depth).value;
            Allocated(v) && Normal(v) == v && WriteItem(lib, v, depth) == Ok(b[pos..end])
  {
    hide ReadHead, Head, ReadItems, ReadEntries, ReadBytes, BytesItem;
    WriteReadHead(b, pos);
    var (v, end) := ReadItem(lib, b, pos, depth).value;
    var (_, tag, next) := ReadHead(b, pos).value;
    WriteReadBytes(b, next);
    var (raw, _) := ReadBytes(b, next).value;
    assert raw == [CID_MULTIBASE_IDENTITY] + lib.toBytes(v.cid);
    assert b[pos..end] == b[pos..next] + b[next..end];
  }

  lemma {:induction false} WriteReadItems(lib: CidLibrary, b: seq<Byte>, pos: nat, n: nat, depth: nat)
    requires lib.Lawful() && |b| <= ALLOCATION_LIMIT && pos <= |b| && depth <= MAX_DEPTH + 1
    requires ReadItems(lib, b, pos, n, depth).Ok?
    ensures var (items, end) := ReadItems(lib, b, pos, n, depth).value;
            && |items| == n && pos + n <= end
            && (forall i :: 0 <= i < n ==> Allocated(items[i]) && Normal(items[i]) == items[i])
            && WriteItems(lib, items, depth) == Ok(b[pos..end])
    decreases MAX_DEPTH + 1 - depth, 1, n
  {
    hide WriteItem, ReadItem, Normal, Allocated;
    if n > 0 {
      WriteRead(lib, b, pos, depth);
      var (first, next) := ReadItem(lib, b, pos, depth).value;
      WriteReadItems(lib, b, next, n - 1, depth);
      var (items, end) := ReadItems(lib, b, pos, n, depth).value;
      assert items == [first] + ReadItems(lib, b, next, n - 1, depth).value.0;
      assert items[1..] == ReadItems(lib, b, next, n - 1, depth).value.0;
      assert b[pos..end] == b[pos..next] + b[next..end];
      assert WriteItems(lib, items, depth) == Ok(b[pos..next] + b[next..end]);
    } else {
      assert b[pos..pos] == [];
    }
  }

  ghost function Keys(entries: seq<(string, Ipld)>): seq<string> {
    seq(|entries|, i requires 0 <= i < |entries| => entries[i].0)
  }

  /** The keys read ascend, and each value is normal and in the allocation limit. */
  lemma {:induction false} ReadEntriesAscend(
      lib: CidLibrary, b: seq<Byte>, pos: nat, n: nat, previous: Option<string>, depth: nat)
    requires lib.Lawful() && |b| <= ALLOCATION_LIMIT && pos <= |b| && depth <= MAX_DEPTH + 1
    requires ReadEntries(lib, b, pos, n, previous, depth).Ok?
    ensures var (entries, end) := ReadEntries(lib, b, pos, n, previous, depth).value;
            && |entries| == n && pos + n <= end
            && KeyOrder.Ascending(Keys(entries), KeyOrder.LengthFirst)
            && (previous.Some? ==>
                  forall i :: 0 <= i < n ==> KeyOrder.LengthFirst(previous.value, entries[i].0))
            && forall i :: 0 <= i < n ==>
                 && |Utf8.Encode(entries[i].0)| <= ALLOCATION_LIMIT
                 && Allocated(entries[i].1) && Normal(entries[i].1) == entries[i].1
    decreases MAX_DEPTH + 1 - depth, 1, n
  {
    hide ReadItem, ReadText, ReadKey, Normal, Allocated, WriteItem, KeyOrder.LengthFirst, KeyOrder.Ascending;
    var (entries, end) := ReadEntries(lib, b, pos, n, previous, depth).value;
    if n == 0 {
      AscendingWithout(entries);
    } else {
      hide ReadEntries;
      ReadEntriesParts(lib, b, pos, n, previous, depth);
      ReadEntriesStep(lib, b, pos, n, previous, depth);
      ReadKeyParts(b, pos, previous);
      var (key, middle) := ReadKey(b, pos, previous).value;
      WriteReadText(b, pos);
      WriteRead(lib, b, middle, depth);
      var (value, next) := ReadItem(lib, b, middle, depth).value;
      ReadEntriesAscend(lib, b, next, n - 1, Some(key), depth);
      var rest := ReadEntries(lib, b, next, n - 1, Some(key), depth).value.0;
      AscendingWith((key, value), rest);
      assert forall i :: 1 <= i < n ==> entries[i] == rest[i - 1];
      if previous.Some? {
        forall i | 0 <= i < n ensures KeyOrder.LengthFirst(previous.value, entries[i].0) {
          if i > 0 { Before(previous.value, key, entries[i].0); }
        }
      }
    }
  }

  lemma AscendingWithout(entries: seq<(string, Ipld)>)
    requires entries == []
    ensures KeyOrder.Ascending(Keys(entries), KeyOrder.LengthFirst)
  {
  }

  lemma AscendingWith(entry: (string, Ipld), rest: seq<(string, Ipld)>)
    requires KeyOrder.Ascending(Keys(rest), KeyOrder.LengthFirst)
    requires forall i :: 0 <= i < |rest| ==> KeyOrder.LengthFirst(entry.0, rest[i].0)
    ensures KeyOrder.Ascending(Keys([entry] + rest), KeyOrder.LengthFirst)
  {
    hide KeyOrder.LengthFirst;
    var keys := Keys([entry] + rest);
    forall i, j | 0 <= i < j < |keys| ensures KeyOrder.LengthFirst(keys[i], keys[j]) {
      assert keys[j] == Keys(rest)[j - 1] == rest[j - 1].0;
      if i > 0 { assert keys[i] == Keys(rest)[i - 1]; }
    }
  }

  lemma Before(a: string, b: string, c: string)
    requires KeyOrder.LengthFirst(a, b) && KeyOrder.LengthFirst(b, c)
    ensures KeyOrder.LengthFirst(a, c)
  {
    KeyOrder.LengthFirstIsStrictTotal();
  }

  /** Writing a map's entries in the order they were read gives the bytes back. */
  lemma {:induction false} WriteReadEntries(
      lib: CidLibrary, b: seq<Byte>, pos: nat, n: nat, previous: Option<string>, depth: nat, m: map<string, Ipld>)
    requires lib.Lawful() && |b| <= ALLOCATION_LIMIT && pos <= |b| && depth <= MAX_DEPTH + 1
    requires Allocated(Map(m)) && ReadEntries(lib, b, pos, n, previous, depth).Ok?
    requires Within(ReadEntries(lib, b, pos, n, previous, depth).value.0, m)
    ensures var (entries, end) := ReadEntries(lib, b, pos, n, previous, depth).value;
            WriteEntries(lib, m, Keys(entries), depth) == Ok(b[pos..end])
    decreases MAX_DEPTH + 1 - depth, 1, n
  {
    hide ReadItem, ReadText, ReadKey, WriteItem, TextItem, KeyOrder.LengthFirst, Normal, Keys, Within;
    var (entries, end) := ReadEntries(lib, b, pos, n, previous, depth).value;
    AllocatedParts(Map(m));
    hide Allocated, Utf8.Encode;
    if n > 0 {
      hide ReadEntries, WriteEntries;
      ReadEntriesParts(lib, b, pos, n, previous, depth);
      ReadEntriesStep(lib, b, pos, n, previous, depth);
      ReadKeyParts(b, pos, previous);
      var (key, middle) := ReadKey(b, pos, previous).value;
      WriteReadText(b, pos);
      WriteRead(lib, b, middle, depth);
      var (value, next) := ReadItem(lib, b, middle, depth).value;
      var rest := ReadEntries(lib, b, next, n - 1, Some(key), depth).value.0;
      WithinRest((key, value), rest, m);
      WriteReadEntries(lib, b, next, n - 1, Some(key), depth, m);
      WriteEntriesStep(lib, m, Keys(entries), depth);
      ThreePieces(b, pos, middle, next, end);
    } else {
      assert Keys(entries) == [] by { KeysOfNone(entries); }
      assert b[pos..pos] == [];
    }
  }

  lemma ThreePieces(b: seq<Byte>, p: nat, q: nat, r: nat, end: nat)
    requires p <= q <= r <= end <= |b|
    ensures b[p..end] == b[p..q] + b[q..r] + b[r..end]
  {
  }

  lemma KeysOfNone(entries: seq<(string, Ipld)>)
    requires entries == []
    ensures Keys(entries) == []
  {
  }

  lemma WithinRest(entry: (string, Ipld), rest: seq<(string, Ipld)>, m: map<string, Ipld>)
    requires Within([entry] + rest, m)
    ensures Within(rest, m) && entry.0 in m && m[entry.0] == entry.1
    ensures forall k :: k in Keys([entry] + rest) ==> k in m
    ensures Keys([entry] + rest) == [entry.0] + Keys(rest) && Keys([entry] + rest)[1..] == Keys(rest)
  {
    var entries := [entry] + rest;
    assert Keys(entries) == [entry.0] + Keys(rest);
    assert entries[0] == entry;
    forall i | 0 <= i < |rest| ensures rest[i].0 in m && m[rest[i].0] == rest[i].1 {
      assert entries[i + 1] == rest[i];
    }
    forall k | k in Keys(entries) ensures k in m {
      var i :| 0 <= i < |entries| && Keys(entries)[i] == k;
    }
  }

  /** `m` holds every one of the entries. */
  ghost predicate Within(entries: seq<(string, Ipld)>, m: map<string, Ipld>) {
    forall i :: 0 <= i < |entries| ==> entries[i].0 in m && m[entries[i].0] == entries[i].1
  }

  lemma KeysDiffer(entries: seq<(string, Ipld)>)
    requires KeyOrder.Ascending(Keys(entries), KeyOrder.LengthFirst)
    ensures forall i, j :: 0 <= i < j < |entries| ==> entries[i].0 != entries[j].0
  {
    hide KeyOrder.LengthFirst;
    KeyOrder.LengthFirstIsStrictTotal();
    forall i, j | 0 <= i < j < |entries| ensures entries[i].0 != entries[j].0 {
      assert KeyOrder.LengthFirst(Keys(entries)[i], Keys(entries)[j]);
    }
  }

  /** Ascending entries are the canonical listing of the map they make. */
  lemma EntriesAreCanonical(entries: seq<(string, Ipld)>)
    requires KeyOrder.Ascending(Keys(entries), KeyOrder.LengthFirst)
    ensures var m := MapOf(entries);
            && Within(entries, m) && |m| == |entries| && Keys(entries) == CanonicalKeys(m.Keys)
            && forall k :: k in m ==> (k, m[k]) in entries
  {
    hide KeyOrder.LengthFirst, CanonicalKeys, KeyOrder.StrictTotal, KeyOrder.Ascending, MapOf;
    var m, keys := MapOf(entries), Keys(entries);
    KeysDiffer(entries);
    MapOfDistinct(entries);
    forall k ensures k in keys <==> k in m {
      if k in m {
        var i :| 0 <= i < |entries| && entries[i].0 == k;
        assert keys[i] == k;
      }
    }
    KeyOrder.LengthFirstIsStrictTotal();
    KeyOrder.KeyCount(keys, m.Keys, KeyOrder.LengthFirst);
    KeyOrder.ListingUnique(keys, CanonicalKeys(m.Keys), KeyOrder.LengthFirst);
    forall k | k in m ensures (k, m[k]) in entries {
      var i :| 0 <= i < |entries| && entries[i].0 == k;
      assert entries[i] == (k, m[k]);
    }
  }

  lemma {:induction false} WriteReadEntriesAsMap(lib: CidLibrary, b: seq<Byte>, pos: nat, n: nat, depth: nat)
    requires lib.Lawful() && |b| <= ALLOCATION_LIMIT && pos <= |b| && depth <= MAX_DEPTH + 1
    requires ReadEntries(lib, b, pos, n, None, depth).Ok?
    ensures var (entries, end) := ReadEntries(lib, b, pos, n, None, depth).value;
            var m := MapOf(entries);
            && |m| == n && Allocated(Map(m)) && Normal(Map(m)) == Map(m)
            && WriteEntries(lib, m, CanonicalKeys(m.Keys), depth) == Ok(b[pos..end])
    decreases MAX_DEPTH + 1 - depth, 2, n
  {
    hide WriteItem, ReadItem, ReadText, ReadEntries, WriteEntries, CanonicalKeys, MapOf, KeyOrder.LengthFirst,
      Allocated, Normal, Utf8.Encode, Keys, Within;
    ReadEntriesAscend(lib, b, pos, n, None, depth);
    var (entries, end) := ReadEntries(lib, b, pos, n, None, depth).value;
    EntriesAreCanonical(entries);
    var m := MapOf(entries);
    EntriesInMap(entries, m);
    WriteReadEntries(lib, b, pos, n, None, depth, m);
  }

  /** A map of entries that are all sound is sound itself. */
  lemma EntriesInMap(entries: seq<(string, Ipld)>, m: map<string, Ipld>)
    requires |m| <= ALLOCATION_LIMIT && forall k :: k in m ==> (k, m[k]) in entries
    requires forall i :: 0 <= i < |entries| ==>
               && |Utf8.Encode(entries[i].0)| <= ALLOCATION_LIMIT
               && Allocated(entries[i].1) && Normal(entries[i].1) == entries[i].1
    ensures Allocated(Map(m)) && Normal(Map(m)) == Map(m)
  {
    hide Utf8.Encode;
    forall k | k in m ensures |Utf8.Encode(k)| <= ALLOCATION_LIMIT && Allocated(m[k]) && Normal(m[k]) == m[k] {
      var i :| 0 <= i < |entries| && entries[i] == (k, m[k]);
    }
    assert Normal(Map(m)).entries == m;
  }

  // The claims of the codec

  /** `decode` accepts exactly the canonical bytes of each value, and gives that value. */
  lemma DecodeExactlyEncode(lib: CidLibrary, b: seq<Byte>, v: Ipld)
    requires lib.Lawful() && |b| <= ALLOCATION_LIMIT
    ensures Decode(lib, b) == Ok(v) <==> Allocated(v) && Normal(v) == v && Encode(lib, v) == Ok(b)
  {
    hide WriteItem, ReadItem;
    if Decode(lib, b) == Ok(v) {
      WriteRead(lib, b, 0, 0);
      assert b[0..|b|] == b;
    }
    if Allocated(v) && Normal(v) == v && Encode(lib, v) == Ok(b) {
      assert b[0..|b|] == b;
      ReadWritten(lib, v, 0, b, 0);
    }
  }

  /** No two byte strings decode to one value. */
  lemma DecodeInjective(lib: CidLibrary, a: seq<Byte>, b: seq<Byte>)
    requires lib.Lawful() && |a| <= ALLOCATION_LIMIT && |b| <= ALLOCATION_LIMIT
    requires Decode(lib, a).Ok? && Decode(lib, a) == Decode(lib, b)
    ensures a == b
  {
    DecodeExactlyEncode(lib, a, Decode(lib, a).value);
    DecodeExactlyEncode(lib, b, Decode(lib, b).value);
  }

  /** Two values share an encoding exactly when they differ at most in the sign of a zero. */
  lemma EncodeSeparates(lib: CidLibrary, v: Ipld, w: Ipld)
    requires lib.Lawful() && Allocated(v) && Allocated(w)
    requires Encode(lib, v).Ok? && |Encode(lib, v).value| <= ALLOCATION_LIMIT
    requires Encode(lib, w).Ok? && |Encode(lib, w).value| <= ALLOCATION_LIMIT
    ensures Encode(lib, v) == Encode(lib, w) <==> Normal(v) == Normal(w)
  {
    hide WriteItem, ReadItem;
    EncodeNormal(lib, v);
    EncodeNormal(lib, w);
  }

  lemma EncodeNormal(lib: CidLibrary, v: Ipld)
    requires lib.Lawful() && Allocated(v) && Encode(lib, v).Ok? && |Encode(lib, v).value| <= ALLOCATION_LIMIT
    ensures Decode(lib, Encode(lib, v).value) == Ok(Normal(v))
    ensures Allocated(Normal(v)) && Encode(lib, Normal(v)) == Encode(lib, v)
  {
    hide WriteItem, ReadItem;
    var b := Encode(lib, v).value;
    assert b[0..|b|] == b;
    ReadWritten(lib, v, 0, b, 0);
    DecodeExactlyEncode(lib, b, Normal(v));
  }
}
