/** The DAG-CBOR writer and reader as the code runs them, against the functions of CborFormat. */
module Cbor {
  import opened Wrappers
  import opened IpldModel
  import opened Buffers
  import opened Writing
  import F = CborFormat
  import KeyOrder
  import Utf8

  method WriteHead(major: int, arg: U64, out: Output)
    requires 0 <= major < 7
    modifies out
    ensures out.bytes == old(out.bytes) + F.Head(major, arg)
  {
    F.Powers();
    if arg < 24 {
      out.bytes := out.bytes + [major * 32 + arg];
    } else if arg < 0x100 {
      out.bytes := out.bytes + [major * 32 + 24];
      out.bytes := out.bytes + F.BigEndian(arg, 1);
    } else if arg < 0x1_0000 {
      out.bytes := out.bytes + [major * 32 + 25];
      out.bytes := out.bytes + F.BigEndian(arg, 2);
    } else if arg < 0x1_0000_0000 {
      out.bytes := out.bytes + [major * 32 + 26];
      out.bytes := out.bytes + F.BigEndian(arg, 4);
    } else {
      out.bytes := out.bytes + [major * 32 + 27];
      out.bytes := out.bytes + F.BigEndian(arg, 8);
    }
  }

  method WriteBytes(value: seq<Byte>, out: Output)
    requires |value| <= ALLOCATION_LIMIT
    modifies out
    ensures out.bytes == old(out.bytes) + F.BytesItem(value)
  {
    WriteHead(F.MAJOR_BYTES, |value|, out);
    out.bytes := out.bytes + value;
  }

  method WriteText(value: string, out: Output)
    requires |Utf8.Encode(value)| <= ALLOCATION_LIMIT
    modifies out
    ensures out.bytes == old(out.bytes) + F.TextItem(value)
  {
    WriteHead(F.MAJOR_TEXT, |Utf8.Encode(value)|, out);
    out.bytes := out.bytes + Utf8.Encode(value);
  }

  method WriteInteger(i: I128, out: Output) returns (r: Result<(), CodecError>)
    modifies out
    ensures Appended(r, F.WriteInteger(i), old(out.bytes), out.bytes)
  {
    if i >= 0 {
      if i >= USIZE_END { return Err(IntegerOutOfRange); }
      WriteHead(F.MAJOR_UINT, i, out);
    } else {
      if -1 - i >= USIZE_END { return Err(IntegerOutOfRange); }
      WriteHead(F.MAJOR_NINT, -1 - i, out);
    }
    return Ok(());
  }

  method WriteFloat(bits: U64, out: Output)
    modifies out
    ensures out.bytes == old(out.bytes) + F.FloatItem(bits)
  {
    F.Powers();
    out.bytes := out.bytes + [F.FLOAT64];
    out.bytes := out.bytes + F.BigEndian(bits, 8);
  }

  method WriteLink(raw: seq<Byte>, out: Output)
    requires |raw| <= ALLOCATION_LIMIT
    modifies out
    ensures out.bytes == old(out.bytes) + F.LinkItem(raw)
  {
    hide F.Head;
    WriteHead(F.MAJOR_TAG, F.CID_TAG, out);
    WriteHead(F.MAJOR_BYTES, |raw| + 1, out);
    out.bytes := out.bytes + [F.CID_MULTIBASE_IDENTITY];
    out.bytes := out.bytes + raw;
    assert out.bytes == old(out.bytes) + F.LinkItem(raw);
  }

  method WriteItem(lib: CidLibrary, value: Ipld, out: Output, depth: nat) returns (r: Result<(), CodecError>)
    requires lib.Lawful() && Allocated(value) && depth <= MAX_DEPTH + 1
    modifies out
    ensures Appended(r, F.WriteItem(lib, value, depth), old(out.bytes), out.bytes)
    decreases MAX_DEPTH + 1 - depth, 1
  {
    hide F.Head, F.TextItem, F.BytesItem, F.LinkItem, F.FloatItem, F.WriteItems, F.WriteEntries, F.CanonicalKeys;
    if depth > MAX_DEPTH { return Err(NestingTooDeep); }
    match value {
      case Null => out.bytes := out.bytes + [F.NULL];
      case Bool(flag) => out.bytes := out.bytes + [if flag then F.TRUE else F.FALSE];
      case Integer(i) => var _ :- WriteInteger(i, out);
      case Float(bits) =>
        if !Finite(bits) { return Err(InvalidFloat); }
        WriteFloat(if bits == NEGATIVE_ZERO then 0 else bits, out);
      case String(text) => WriteText(text, out);
      case Bytes(bytes) => WriteBytes(bytes, out);
      case List(items) =>
        WriteHead(F.MAJOR_ARRAY, |items|, out);
        r := WriteItems(lib, items, out, depth + 1);
        return;
      case Map(m) =>
        // Canonical order is by key length, then bytewise; a BTreeMap is bytewise only.
        var keys := F.CanonicalKeys(m.Keys);
        WriteHead(F.MAJOR_MAP, |m|, out);
        r := WriteEntries(lib, m, keys, out, depth + 1);
        return;
      case Link(cid) =>
        WriteLink(lib.toBytes(cid), out);
    }
    return Ok(());
  }

  lemma ItemsStep(lib: CidLibrary, items: seq<Ipld>, i: nat, depth: nat)
    requires lib.Lawful() && depth <= MAX_DEPTH + 1 && i < |items|
    requires forall j :: 0 <= j < |items| ==> Allocated(items[j])
    ensures F.WriteItems(lib, items[i..], depth)
         == Joined(F.WriteItem(lib, items[i], depth), [], F.WriteItems(lib, items[i + 1..], depth))
  {
    hide F.WriteItem, Allocated;
    assert items[i..][1..] == items[i + 1..];
    var first := F.WriteItem(lib, items[i], depth);
    if first.Ok? { assert first.value + [] == first.value; }
  }

  lemma EntriesStep(lib: CidLibrary, m: map<string, Ipld>, keys: seq<string>, i: nat, depth: nat)
    requires lib.Lawful() && Allocated(Map(m)) && depth <= MAX_DEPTH + 1
    requires i < |keys| && forall k :: k in keys ==> k in m
    ensures F.WriteEntries(lib, m, keys[i..], depth)
         == Joined(F.WriteEntry(lib, m, keys[i], depth), [], F.WriteEntries(lib, m, keys[i + 1..], depth))
  {
    hide F.WriteEntry, Allocated;
    assert keys[i..][1..] == keys[i + 1..];
    var first := F.WriteEntry(lib, m, keys[i], depth);
    if first.Ok? { assert first.value + [] == first.value; }
  }

  /** The loop over a list's items. */
  method WriteItems(lib: CidLibrary, items: seq<Ipld>, out: Output, depth: nat) returns (r: Result<(), CodecError>)
    requires lib.Lawful() && depth <= MAX_DEPTH + 1
    requires forall i :: 0 <= i < |items| ==> Allocated(items[i])
    modifies out
    ensures Appended(r, F.WriteItems(lib, items, depth), old(out.bytes), out.bytes)
    decreases MAX_DEPTH + 1 - depth, 2
  {
    hide F.WriteItem, Allocated, Joined, Completes;
    ghost var before, done := out.bytes, [];
    ghost var format := F.WriteItems(lib, items, depth);
    CompletesAtStart(format);
    assert items[0..] == items;
    var i := 0;
    while i < |items|
      invariant 0 <= i <= |items| && out.bytes == before + done
      invariant Completes(format, done, F.WriteItems(lib, items[i..], depth))
    {
      hide F.WriteItems;
      ItemsStep(lib, items, i, depth);
      ghost var first := F.WriteItem(lib, items[i], depth);
      JoinedCompletes(format, done, first, [], F.WriteItems(lib, items[i + 1..], depth));
      var _ :- WriteItem(lib, items[i], out, depth);
      done := done + first.value + [];
      i := i + 1;
    }
    CompletesAtEnd(format, done);
    return Ok(());
  }

  /** The loop over a map's sorted entries. */
  method WriteEntries(lib: CidLibrary, m: map<string, Ipld>, keys: seq<string>, out: Output, depth: nat)
    returns (r: Result<(), CodecError>)
    requires lib.Lawful() && Allocated(Map(m)) && depth <= MAX_DEPTH + 1
    requires forall k :: k in keys ==> k in m
    modifies out
    ensures Appended(r, F.WriteEntries(lib, m, keys, depth), old(out.bytes), out.bytes)
    decreases MAX_DEPTH + 1 - depth, 2
  {
    hide F.WriteItem, F.TextItem, Joined, Completes;
    assert forall k :: k in m ==> Allocated(m[k]) && |Utf8.Encode(k)| <= ALLOCATION_LIMIT;
    hide Allocated, Utf8.Encode;
    ghost var before, done := out.bytes, [];
    ghost var format := F.WriteEntries(lib, m, keys, depth);
    CompletesAtStart(format);
    assert keys[0..] == keys;
    var i := 0;
    while i < |keys|
      invariant 0 <= i <= |keys| && out.bytes == before + done
      invariant Completes(format, done, F.WriteEntries(lib, m, keys[i..], depth))
    {
      hide F.WriteEntries;
      EntriesStep(lib, m, keys, i, depth);
      ghost var first := F.WriteEntry(lib, m, keys[i], depth);
      JoinedCompletes(format, done, first, [], F.WriteEntries(lib, m, keys[i + 1..], depth));
      WriteText(keys[i], out);
      var _ :- WriteItem(lib, m[keys[i]], out, depth);
      assert out.bytes == before + done + first.value;
      done := done + first.value + [];
      i := i + 1;
    }
    CompletesAtEnd(format, done);
    return Ok(());
  }

  method Encode(lib: CidLibrary, value: Ipld) returns (r: Result<seq<Byte>, CodecError>)
    requires lib.Lawful() && Allocated(value)
    ensures r == F.Encode(lib, value)
  {
    var out := new Output();
    var _ :- WriteItem(lib, value, out, 0);
    assert forall b: seq<Byte> :: [] + b == b;
    return Ok(out.bytes);
  }

  /** A cursor over strict DAG-CBOR. */
  class Reader {
    const bytes: seq<Byte>
    var pos: nat

    ghost predicate Valid()
      reads this
    {
      pos <= |bytes|
    }

    constructor (bytes: seq<Byte>)
      ensures Valid() && this.bytes == bytes && pos == 0
    {
      this.bytes := bytes;
      pos := 0;
    }

    method Finish() returns (r: Result<(), CodecError>)
      ensures r == if pos == |bytes| then Ok(()) else Err(TrailingBytes)
    {
      return if pos == |bytes| then Ok(()) else Err(TrailingBytes);
    }

    method NextByte() returns (r: Result<Byte, CodecError>)
      requires Valid()
      modifies this
      ensures Valid() && Followed(r, F.ReadByte(bytes, old(pos)), pos)
    {
      if pos >= |bytes| { return Err(UnexpectedEnd); }
      var byte := bytes[pos];
      pos := pos + 1;
      return Ok(byte);
    }

    method Take(n: U64) returns (r: Result<seq<Byte>, CodecError>)
      requires Valid()
      modifies this
      ensures Valid() && Followed(r, F.Take(bytes, old(pos), n), pos)
    {
      if pos + n >= USIZE_END { return Err(LengthTooLarge); }
      var end := pos + n;
      if end > |bytes| { return Err(UnexpectedEnd); }
      var slice := bytes[pos..end];
      pos := end;
      return Ok(slice);
    }

    method LongArgument(n: U64, shorter: int) returns (r: Result<U64, CodecError>)
      requires Valid() && n <= 8
      modifies this
      ensures Valid() && Followed(r, F.LongArgument(bytes, old(pos), n, shorter), pos)
    {
      var raw :- Take(n);
      F.Powers();
      F.PowMonotone(n, 8);
      var v := F.FromBigEndian(raw);
      if v <= shorter { return Err(NonMinimalInteger); }
      return Ok(v);
    }

    method Argument(info: int) returns (r: Result<U64, CodecError>)
      requires Valid() && 0 <= info < 32
      modifies this
      ensures Valid() && Followed(r, F.ReadArgument(bytes, old(pos), info), pos)
    {
      if info < 24 {
        return Ok(info);
      } else if info == 24 {
        var v :- NextByte();
        if v < 24 { return Err(NonMinimalInteger); }
        return Ok(v);
      } else if info == 25 {
        r := LongArgument(2, 0xff);
      } else if info == 26 {
        r := LongArgument(4, 0xffff);
      } else if info == 27 {
        r := LongArgument(8, 0xffff_ffff);
      } else if info == 31 {
        return Err(IndefiniteLength);
      } else {
        return Err(Reserved);
      }
    }

    method Head() returns (r: Result<(int, U64), CodecError>)
      requires Valid()
      modifies this
      ensures r.Ok? ==> 0 <= r.value.0 < 7
      ensures match F.ReadHead(bytes, old(pos))
              case Ok((major, arg, end)) => r == Ok((major, arg)) && pos == end
              case Err(e) => r == Err(e)
      ensures Valid()
    {
      var initial: int :- NextByte();
      var major := initial / 32;
      if major == 7 { return Err(UnexpectedType); }
      var arg :- Argument(initial % 32);
      return Ok((major, arg));
    }

    method HeadOf(major: int) returns (r: Result<U64, CodecError>)
      requires Valid()
      modifies this
      ensures Valid() && Followed(r, F.ReadHeadOf(bytes, old(pos), major), pos)
    {
      var head :- Head();
      if head.0 != major { return Err(UnexpectedType); }
      return Ok(head.1);
    }

    /** Read an array head and return its length. */
    method ArrayLen() returns (r: Result<U64, CodecError>)
      requires Valid()
      modifies this
      ensures Valid() && Followed(r, F.ReadHeadOf(bytes, old(pos), F.MAJOR_ARRAY), pos)
    {
      r := HeadOf(F.MAJOR_ARRAY);
    }

    /** Read a map head and return its entry count. */
    method MapLen() returns (r: Result<U64, CodecError>)
      requires Valid()
      modifies this
      ensures Valid() && Followed(r, F.ReadHeadOf(bytes, old(pos), F.MAJOR_MAP), pos)
    {
      r := HeadOf(F.MAJOR_MAP);
    }

    method ReadBytes() returns (r: Result<seq<Byte>, CodecError>)
      requires Valid()
      modifies this
      ensures Valid() && Followed(r, F.ReadBytes(bytes, old(pos)), pos)
    {
      var n :- HeadOf(F.MAJOR_BYTES);
      r := Take(n);
    }

    method TakeText(n: U64) returns (r: Result<string, CodecError>)
      requires Valid()
      modifies this
      ensures Valid() && Followed(r, F.TakeText(bytes, old(pos), n), pos)
    {
      var raw :- Take(n);
      match Utf8.Decode(raw) {
        case Some(text) => return Ok(text);
        case None => return Err(InvalidUtf8);
      }
    }

    method Text() returns (r: Result<string, CodecError>)
      requires Valid()
      modifies this
      ensures Valid() && Followed(r, F.ReadText(bytes, old(pos)), pos)
    {
      var n :- HeadOf(F.MAJOR_TEXT);
      r := TakeText(n);
    }

    method Value(lib: CidLibrary) returns (r: Result<Ipld, CodecError>)
      requires Valid()
      modifies this
      ensures Valid() && Followed(r, F.ReadItem(lib, bytes, old(pos), 0), pos)
    {
      r := Item(lib, 0);
    }

    method Simple(info: int) returns (r: Result<Ipld, CodecError>)
      requires Valid()
      modifies this
      ensures Valid() && Followed(r, F.ReadSimple(bytes, old(pos), info), pos)
    {
      if info == 20 { return Ok(Bool(false)); }
      if info == 21 { return Ok(Bool(true)); }
      if info == 22 { return Ok(Null); }
      if info == 27 {
        var raw :- Take(8);
        F.Powers();
        var bits := F.FromBigEndian(raw);
        if Finite(bits) && bits != NEGATIVE_ZERO { return Ok(Float(bits)); }
        return Err(InvalidFloat);
      }
      if info == 25 || info == 26 { return Err(InvalidFloat); }
      if info == 31 { return Err(IndefiniteLength); }
      return Err(UnsupportedSimple);
    }

    method ReadLink(lib: CidLibrary, tag: U64) returns (r: Result<Ipld, CodecError>)
      requires Valid()
      modifies this
      ensures Valid() && Followed(r, F.ReadLink(lib, bytes, old(pos), tag), pos)
    {
      if tag != F.CID_TAG { return Err(UnsupportedTag(tag)); }
      var read := ReadBytes();
      match read {
        case Err(e) => return Err(if e == UnexpectedType then InvalidCid else e);
        case Ok(raw) =>
          if raw == [] || raw[0] != F.CID_MULTIBASE_IDENTITY { return Err(InvalidCid); }
          match lib.FromBytes(raw[1..]) {
            case Some(cid) => return Ok(Link(cid));
            case None => return Err(InvalidCid);
          }
      }
    }

    method Key(previous: Option<string>) returns (r: Result<string, CodecError>)
      requires Valid()
      modifies this
      ensures Valid() && Followed(r, F.ReadKey(bytes, old(pos), previous), pos)
    {
      var text := Text();
      match text {
        case Err(e) => return Err(if e == UnexpectedType then NonStringKey else e);
        case Ok(key) =>
          if previous.Some? {
            if previous.value == key {
              KeyOrder.LengthFirstIsStrictTotal();
              return Err(DuplicateKey);
            }
            if !KeyOrder.LengthFirst(previous.value, key) { return Err(UnsortedKeys); }
          }
          return Ok(key);
      }
    }

    method Item(lib: CidLibrary, depth: nat) returns (r: Result<Ipld, CodecError>)
      requires Valid() && depth <= MAX_DEPTH + 1
      modifies this
      ensures Valid() && Followed(r, F.ReadItem(lib, bytes, old(pos), depth), pos)
      decreases MAX_DEPTH + 1 - depth, 1
    {
      hide F.ReadHead, F.ReadItems, F.ReadEntries, F.ReadSimple, F.ReadLink, F.TakeText, F.Take, F.MapOf;
      if depth > MAX_DEPTH { return Err(NestingTooDeep); }
      if pos >= |bytes| { return Err(UnexpectedEnd); }
      var initial: int := bytes[pos];
      if initial / 32 == 7 {
        pos := pos + 1;
        r := Simple(initial % 32);
        return;
      }
      var head :- Head();
      var (major, arg) := head;
      if major == F.MAJOR_UINT {
        return Ok(Integer(arg));
      } else if major == F.MAJOR_NINT {
        return Ok(Integer(-1 - arg as int));
      } else if major == F.MAJOR_BYTES {
        var raw :- Take(arg);
        return Ok(Bytes(raw));
      } else if major == F.MAJOR_TEXT {
        var text :- TakeText(arg);
        return Ok(String(text));
      } else if major == F.MAJOR_ARRAY {
        var items :- Items(lib, arg, depth + 1);
        return Ok(List(items));
      } else if major == F.MAJOR_MAP {
        var m :- Entries(lib, arg, depth + 1);
        return Ok(Map(m));
      } else {
        r := ReadLink(lib, arg);
      }
    }

    /** The loop over an array's items. */
    method Items(lib: CidLibrary, n: U64, depth: nat) returns (r: Result<seq<Ipld>, CodecError>)
      requires Valid() && depth <= MAX_DEPTH + 1
      modifies this
      ensures Valid() && Followed(r, F.ReadItems(lib, bytes, old(pos), n, depth), pos)
      decreases MAX_DEPTH + 1 - depth, 2
    {
      hide F.ReadItem;
      ghost var format := F.ReadItems(lib, bytes, pos, n, depth);
      var items := [];
      var i := 0;
      assert forall rest: seq<Ipld> :: items + rest == rest;
      while i < n
        invariant Valid() && 0 <= i <= n
        invariant match F.ReadItems(lib, bytes, pos, n - i, depth)
                  case Ok((rest, end)) => format == Ok((items + rest, end))
                  case Err(e) => format == Err(e)
      {
        ghost var before := items;
        var item :- Item(lib, depth);
        items := items + [item];
        assert forall rest :: items + rest == before + ([item] + rest);
        i := i + 1;
      }
      assert items + [] == items;
      return Ok(items);
    }

    /** The loop over a map's entries. */
    method Entries(lib: CidLibrary, n: U64, depth: nat) returns (r: Result<map<string, Ipld>, CodecError>)
      requires Valid() && depth <= MAX_DEPTH + 1
      modifies this
      ensures Valid()
      ensures match F.ReadEntries(lib, bytes, old(pos), n, None, depth)
              case Ok((entries, end)) => r == Ok(F.MapOf(entries)) && pos == end
              case Err(e) => r == Err(e)
      decreases MAX_DEPTH + 1 - depth, 2
    {
      hide F.ReadItem, F.ReadKey;
      ghost var format := F.ReadEntries(lib, bytes, pos, n, None, depth);
      ghost var entries := [];
      var m: map<string, Ipld> := map[];
      var previous: Option<string> := None;
      var i := 0;
      assert forall rest: seq<(string, Ipld)> :: entries + rest == rest;
      while i < n
        invariant Valid() && 0 <= i <= n && m == F.MapOf(entries)
        invariant match F.ReadEntries(lib, bytes, pos, n - i, previous, depth)
                  case Ok((rest, end)) => format == Ok((entries + rest, end))
                  case Err(e) => format == Err(e)
      {
        ghost var before := entries;
        var key :- Key(previous);
        previous := Some(key);
        var value :- Item(lib, depth);
        m := m[key := value];
        entries := entries + [(key, value)];
        assert entries[..|entries| - 1] == before;
        assert forall rest :: entries + rest == before + ([(key, value)] + rest);
        i := i + 1;
      }
      assert entries + [] == entries;
      return Ok(m);
    }
  }

  method Decode(lib: CidLibrary, bytes: seq<Byte>) returns (r: Result<Ipld, CodecError>)
    ensures r == F.Decode(lib, bytes)
  {
    var reader := new Reader(bytes);
    var value :- reader.Value(lib);
    var _ :- reader.Finish();
    return Ok(value);
  }
}
