/** The DAG-JSON printer and parser as the code runs them, against the functions of JsonFormat. */
module Json {
  import opened Wrappers
  import opened IpldModel
  import opened Buffers
  import opened Numerals
  import opened Writing
  import Base64
  import F = JsonFormat
  import Utf8

  method PrintChar(c: char, out: TextOutput)
    modifies out
    ensures out.text == old(out.text) + F.EscapeText(c)
  {
    if c == '"' {
      out.text := out.text + "\\\"";
    } else if c == '\\' {
      out.text := out.text + "\\\\";
    } else if c == '\n' {
      out.text := out.text + "\\n";
    } else if c == '\r' {
      out.text := out.text + "\\r";
    } else if c == '\t' {
      out.text := out.text + "\\t";
    } else if c == 8 as char {
      out.text := out.text + "\\b";
    } else if c == 12 as char {
      out.text := out.text + "\\f";
    } else if c as int < 0x20 {
      out.text := out.text + "\\u00";
      out.text := out.text + [F.HexText(c as int / 16)];
      out.text := out.text + [F.HexText(c as int % 16)];
    } else {
      out.text := out.text + [c];
    }
  }

  method PrintString(value: string, out: TextOutput)
    modifies out
    ensures out.text == old(out.text) + F.StringText(value)
  {
    hide F.Escaped, F.EscapeText;
    out.text := out.text + ['"'];
    ghost var before := out.text;
    ghost var done := "";
    var i := 0;
    assert value[0..] == value && done + F.Escaped(value) == F.Escaped(value);
    while i < |value|
      invariant 0 <= i <= |value| && out.text == before + done
      invariant done + F.Escaped(value[i..]) == F.Escaped(value)
    {
      PrintChar(value[i], out);
      EscapedStep(value, i);
      assert done + (F.EscapeText(value[i]) + F.Escaped(value[i + 1..]))
          == (done + F.EscapeText(value[i])) + F.Escaped(value[i + 1..]);
      done := done + F.EscapeText(value[i]);
      i := i + 1;
    }
    EscapedNothing(value[i..]);
    assert done + "" == done;
    out.text := out.text + ['"'];
  }

  lemma EscapedNothing(text: string)
    requires text == ""
    ensures F.Escaped(text) == ""
  {
  }

  lemma EscapedStep(value: string, i: nat)
    requires i < |value|
    ensures F.Escaped(value[i..]) == F.EscapeText(value[i]) + F.Escaped(value[i + 1..])
  {
    assert value[i..][1..] == value[i + 1..];
  }

  /** `check_range`: the magnitude must fit in 64 bits. */
  method CheckRange(value: I128) returns (r: Result<(), CodecError>)
    ensures r == if F.InRange(value) then Ok(()) else Err(IntegerOutOfRange)
  {
    var magnitude := if value >= 0 then value else -1 - value;
    return if magnitude < USIZE_END then Ok(()) else Err(IntegerOutOfRange);
  }

  method PrintItem(lib: CidLibrary, value: Ipld, out: TextOutput, depth: nat) returns (r: Result<(), CodecError>)
    requires depth <= MAX_DEPTH + 1
    modifies out
    ensures Appended(r, F.PrintItem(lib, value, depth), old(out.text), out.text)
    decreases MAX_DEPTH + 1 - depth, 1
  {
    hide F.PrintItems, F.PrintEntries, F.StringText, F.IntegerText, F.SortedKeys, Base64.Encode;
    if depth > MAX_DEPTH { return Err(NestingTooDeep); }
    match value {
      case Null => out.text := out.text + "null";
      case Bool(flag) => out.text := out.text + if flag then "true" else "false";
      case Integer(i) =>
        var _ :- CheckRange(i);
        out.text := out.text + F.IntegerText(i);
      case Float(_) => return Err(FloatInText);
      case String(text) => PrintString(text, out);
      case Bytes(bytes) =>
        out.text := out.text + "{\"/\":{\"bytes\":\"";
        var base64 := Base64.EncodeLoop(bytes);
        out.text := out.text + base64;
        out.text := out.text + "\"}}";
      case List(items) =>
        out.text := out.text + ['['];
        var _ :- PrintItems(lib, items, out, depth + 1);
        out.text := out.text + [']'];
      case Map(m) =>
        if "/" in m { return Err(ReservedKey); }
        out.text := out.text + ['{'];
        var _ :- PrintEntries(lib, m, F.SortedKeys(m.Keys), out, depth + 1);
        out.text := out.text + ['}'];
      case Link(cid) =>
        out.text := out.text + "{\"/\":\"";
        out.text := out.text + lib.toText(cid);
        out.text := out.text + "\"}";
    }
    return Ok(());
  }

  lemma ItemsStep(lib: CidLibrary, items: seq<Ipld>, i: nat, depth: nat)
    requires depth <= MAX_DEPTH + 1 && i < |items|
    ensures F.PrintItems(lib, items[i..], depth)
         == Joined(F.PrintItem(lib, items[i], depth), F.Comma(i + 1 < |items|),
                   F.PrintItems(lib, items[i + 1..], depth))
  {
    hide F.PrintItem;
    assert items[i..][1..] == items[i + 1..];
  }

  lemma EntriesStep(lib: CidLibrary, m: map<string, Ipld>, keys: seq<string>, i: nat, depth: nat)
    requires depth <= MAX_DEPTH + 1 && i < |keys| && forall k :: k in keys ==> k in m
    ensures F.PrintEntries(lib, m, keys[i..], depth)
         == Joined(F.PrintEntry(lib, m, keys[i], depth), F.Comma(i + 1 < |keys|),
                   F.PrintEntries(lib, m, keys[i + 1..], depth))
  {
    hide F.PrintItem, F.StringText;
    assert keys[i..][1..] == keys[i + 1..];
  }

  /** The loop over a list's items. */
  method PrintItems(lib: CidLibrary, items: seq<Ipld>, out: TextOutput, depth: nat)
    returns (r: Result<(), CodecError>)
    requires depth <= MAX_DEPTH + 1
    modifies out
    ensures Appended(r, F.PrintItems(lib, items, depth), old(out.text), out.text)
    decreases MAX_DEPTH + 1 - depth, 2
  {
    hide F.PrintItem, Joined, Completes;
    ghost var before, done := out.text, "";
    ghost var format := F.PrintItems(lib, items, depth);
    CompletesAtStart(format);
    assert items[0..] == items;
    var i := 0;
    while i < |items|
      invariant 0 <= i <= |items| && before + done == out.text + F.Comma(0 < i < |items|)
      invariant Completes(format, done, F.PrintItems(lib, items[i..], depth))
    {
      hide F.PrintItems;
      ItemsStep(lib, items, i, depth);
      var first := F.PrintItem(lib, items[i], depth);
      JoinedCompletes(format, done, first, F.Comma(i + 1 < |items|), F.PrintItems(lib, items[i + 1..], depth));
      if i > 0 { out.text := out.text + [',']; }
      assert out.text == before + done;
      var _ :- PrintItem(lib, items[i], out, depth);
      done := done + first.value + F.Comma(i + 1 < |items|);
      i := i + 1;
    }
    CompletesAtEnd(format, done);
    return Ok(());
  }

  /** The loop over a map's entries, in the order of their keys. */
  method PrintEntries(lib: CidLibrary, m: map<string, Ipld>, keys: seq<string>, out: TextOutput, depth: nat)
    returns (r: Result<(), CodecError>)
    requires depth <= MAX_DEPTH + 1 && forall k :: k in keys ==> k in m
    modifies out
    ensures Appended(r, F.PrintEntries(lib, m, keys, depth), old(out.text), out.text)
    decreases MAX_DEPTH + 1 - depth, 2
  {
    hide F.PrintItem, F.StringText, Joined, Completes;
    ghost var before, done := out.text, "";
    ghost var format := F.PrintEntries(lib, m, keys, depth);
    CompletesAtStart(format);
    assert keys[0..] == keys;
    var i := 0;
    while i < |keys|
      invariant 0 <= i <= |keys| && before + done == out.text + F.Comma(0 < i < |keys|)
      invariant Completes(format, done, F.PrintEntries(lib, m, keys[i..], depth))
    {
      hide F.PrintEntries;
      EntriesStep(lib, m, keys, i, depth);
      var first := F.PrintEntry(lib, m, keys[i], depth);
      JoinedCompletes(format, done, first, F.Comma(i + 1 < |keys|), F.PrintEntries(lib, m, keys[i + 1..], depth));
      if i > 0 { out.text := out.text + [',']; }
      assert out.text == before + done;
      PrintString(keys[i], out);
      out.text := out.text + [':'];
      var _ :- PrintItem(lib, m[keys[i]], out, depth);
      assert out.text == before + done + first.value;
      done := done + first.value + F.Comma(i + 1 < |keys|);
      i := i + 1;
    }
    CompletesAtEnd(format, done);
    return Ok(());
  }

  method Encode(lib: CidLibrary, value: Ipld) returns (r: Result<string, CodecError>)
    ensures r == F.Encode(lib, value)
  {
    var out := new TextOutput();
    var _ :- PrintItem(lib, value, out, 0);
    assert forall t: string :: "" + t == t;
    return Ok(out.text);
  }

  class Parser {
    const text: string
    var pos: nat

    ghost predicate Valid()
      reads this
    {
      pos <= |text|
    }

    constructor (text: string)
      ensures Valid() && this.text == text && pos == 0
    {
      this.text := text;
      pos := 0;
    }

    function Peek(): Option<char>
      reads this
    {
      if pos < |text| then Some(text[pos]) else None
    }

    method Next() returns (r: Result<char, CodecError>)
      requires Valid()
      modifies this
      ensures Valid() && r == F.Next(text, old(pos)) && pos == old(pos) + if r.Ok? then 1 else 0
    {
      if Peek().None? { return Err(UnexpectedEnd); }
      pos := pos + 1;
      return Ok(text[pos - 1]);
    }

    method Expect(c: char) returns (r: Result<(), CodecError>)
      requires Valid()
      modifies this
      ensures Valid()
      ensures match F.Expect(text, old(pos), c)
              case Ok(end) => r == Ok(()) && pos == end
              case Err(e) => r == Err(e)
    {
      var found :- Next();
      return if found == c then Ok(()) else Err(InvalidJson);
    }

    method Literal(word: string) returns (r: Result<(), CodecError>)
      requires Valid()
      modifies this
      ensures Valid()
      ensures match F.Literal(text, old(pos), word)
              case Ok(end) => r == Ok(()) && pos == end
              case Err(e) => r == Err(e)
    {
      var end := pos + |word|;
      if end <= |text| && text[pos..end] == word {
        pos := end;
        return Ok(());
      }
      return Err(InvalidJson);
    }

    method Hex4() returns (r: Result<nat, CodecError>)
      requires Valid()
      modifies this
      ensures Valid() && Followed(r, F.ReadHex(text, old(pos)), pos)
    {
      match F.Span(text, pos, 4) {
        case None => return Err(UnexpectedEnd);
        case Some(n) =>
          var digits := text[pos..pos + n];
          pos := pos + n;
          match Radix16(digits) {
            case None => return Err(InvalidJson);
            case Some(code) => return Ok(code);
          }
      }
    }

    method Escape() returns (r: Result<char, CodecError>)
      requires Valid()
      modifies this
      ensures Valid() && Followed(r, F.ReadEscape(text, old(pos)), pos)
    {
      hide F.ReadHex;
      var c :- Next();
      match c {
        case '"' => return Ok('"');
        case '\\' => return Ok('\\');
        case '/' => return Ok('/');
        case 'b' => return Ok(8 as char);
        case 'f' => return Ok(12 as char);
        case 'n' => return Ok('\n');
        case 'r' => return Ok('\r');
        case 't' => return Ok('\t');
        case 'u' =>
          var high :- Hex4();
          var code := high;
          if 0xd800 <= high < 0xdc00 {
            var _ :- Literal("\\u");
            var low :- Hex4();
            if !(0xdc00 <= low < 0xe000) { return Err(InvalidJson); }
            code := 0x1_0000 + (high - 0xd800) * 0x400 + (low - 0xdc00);
          }
          match Scalar(code) {
            case Some(scalar) => return Ok(scalar);
            case None => return Err(InvalidJson);
          }
        case _ => return Err(InvalidJson);
      }
    }

    /** The run of characters before the next quote, backslash or control character. */
    method Run() returns (run: Option<nat>)
      requires Valid()
      ensures match run
              case None => F.ReadChars(text, pos) == Err(UnexpectedEnd)
              case Some(end) =>
                && pos <= end < |text| && F.Special(text[end])
                && F.ReadChars(text, pos) == F.Prefixed(text[pos..end], F.ReadChars(text, end))
    {
      hide F.ReadEscape;
      var end := pos;
      F.PrefixedByNothing(F.ReadChars(text, pos));
      assert text[pos..pos] == [];
      while end < |text| && !F.Special(text[end])
        invariant pos <= end <= |text|
        invariant F.ReadChars(text, pos) == F.Prefixed(text[pos..end], F.ReadChars(text, end))
      {
        F.PrefixedTwice(text[pos..end], [text[end]], F.ReadChars(text, end + 1));
        assert text[pos..end] + [text[end]] == text[pos..end + 1];
        end := end + 1;
      }
      return if end < |text| then Some(end) else None;
    }

    method StringValue() returns (r: Result<string, CodecError>)
      requires Valid()
      modifies this
      ensures Valid() && Followed(r, F.ReadString(text, old(pos)), pos)
    {
      hide F.ReadEscape;
      var _ :- Expect('"');
      var out := "";
      ghost var format := F.ReadChars(text, pos);
      F.PrefixedByNothing(format);
      while true
        invariant Valid() && format == F.Prefixed(out, F.ReadChars(text, pos))
        decreases |text| - pos
      {
        var run := Run();
        if run.None? { return Err(UnexpectedEnd); }
        F.PrefixedTwice(out, text[pos..run.value], F.ReadChars(text, run.value));
        out := out + text[pos..run.value];
        // The run stops at a character, so the next one is there.
        var c := text[run.value];
        pos := run.value + 1;
        if c == '"' {
          assert out + [] == out;
          return Ok(out);
        } else if c == '\\' {
          var scalar :- Escape();
          F.PrefixedTwice(out, [scalar], F.ReadChars(text, pos));
          out := out + [scalar];
        } else {
          return Err(InvalidJson);
        }
      }
    }

    method Number() returns (r: Result<Ipld, CodecError>)
      requires Valid() && pos < |text|
      modifies this
      ensures Valid() && Followed(r, F.ReadNumber(text, old(pos)), pos)
    {
      var start := pos;
      if Peek() == Some('-') { pos := pos + 1; }
      var digits := pos;
      while pos < |text| && Digit(text[pos])
        invariant Valid() && digits <= pos && forall i :: digits <= i < pos ==> Digit(text[i])
      {
        pos := pos + 1;
      }
      DigitsStop(text, digits, pos);
      if pos == digits { return Err(InvalidJson); }
      if Peek() == Some('.') || Peek() == Some('e') || Peek() == Some('E') { return Err(FloatInText); }
      var magnitude: int := Decimal(text[digits..pos]);
      var value: int := if text[start] == '-' then -magnitude else magnitude;
      // Neither a number outside i128 nor one outside the range of DAG-CBOR is kept.
      if value < -0x8000_0000_0000_0000_0000_0000_0000_0000 || value >= 0x8000_0000_0000_0000_0000_0000_0000_0000 {
        return Err(IntegerOutOfRange);
      }
      var _ :- CheckRange(value);
      return Ok(Integer(value));
    }

    method Value(lib: CidLibrary, depth: nat) returns (r: Result<Ipld, CodecError>)
      requires Valid()
      modifies this
      ensures Valid() && Followed(r, F.ReadValue(lib, text, old(pos), depth), pos)
      decreases |text| - pos, 1
    {
      hide F.ReadString, F.ReadNumber, F.ReadItems, F.ReadEntries, F.ReservedForm;
      if depth > MAX_DEPTH { return Err(NestingTooDeep); }
      if Peek().None? { return Err(UnexpectedEnd); }
      var c := text[pos];
      if c == 'n' {
        var _ :- Literal("null");
        return Ok(Null);
      } else if c == 't' {
        var _ :- Literal("true");
        return Ok(Bool(true));
      } else if c == 'f' {
        var _ :- Literal("false");
        return Ok(Bool(false));
      } else if c == '"' {
        var s :- StringValue();
        return Ok(String(s));
      } else if c == '[' {
        pos := pos + 1;
        if Peek() == Some(']') {
          pos := pos + 1;
          return Ok(List([]));
        }
        var items :- Items(lib, depth + 1);
        return Ok(List(items));
      } else if c == '{' {
        pos := pos + 1;
        if Peek() == Some('}') {
          pos := pos + 1;
          return Ok(Map(map[]));
        }
        var m :- Entries(lib, depth + 1);
        r := Reserve(lib, m);
      } else if c == '-' || Digit(c) {
        r := Number();
      } else {
        return Err(InvalidJson);
      }
    }

    /** The loop over a list's items, up to its closing bracket. */
    method Items(lib: CidLibrary, depth: nat) returns (r: Result<seq<Ipld>, CodecError>)
      requires Valid()
      modifies this
      ensures Valid() && Followed(r, F.ReadItems(lib, text, old(pos), depth), pos)
      decreases |text| - pos, 2
    {
      hide F.ReadValue;
      ghost var start, format := pos, F.ReadItems(lib, text, pos, depth);
      var items: seq<Ipld> := [];
      F.PrefixedByNothing(format);
      while true
        invariant Valid() && start <= pos && format == F.Prefixed(items, F.ReadItems(lib, text, pos, depth))
        decreases |text| - pos
      {
        var item :- Value(lib, depth);
        var c :- Next();
        if c == ',' {
          F.PrefixedTwice(items, [item], F.ReadItems(lib, text, pos, depth));
          items := items + [item];
        } else if c == ']' {
          return Ok(items + [item]);
        } else {
          return Err(InvalidJson);
        }
      }
    }

    /** The loop over a map's entries, up to its closing brace. */
    method Entries(lib: CidLibrary, depth: nat) returns (r: Result<map<string, Ipld>, CodecError>)
      requires Valid()
      modifies this
      ensures Valid() && Followed(r, F.ReadEntries(lib, text, old(pos), depth, map[]), pos)
      decreases |text| - pos, 2
    {
      hide F.ReadValue, F.ReadString;
      ghost var start, format := pos, F.ReadEntries(lib, text, pos, depth, map[]);
      var m: map<string, Ipld> := map[];
      while true
        invariant Valid() && start <= pos && format == F.ReadEntries(lib, text, pos, depth, m)
        decreases |text| - pos
      {
        var key :- StringValue();
        var _ :- Expect(':');
        var value :- Value(lib, depth);
        var duplicate := key in m;
        m := m[key := value];
        if duplicate { return Err(DuplicateKey); }
        var c :- Next();
        if c == '}' { return Ok(m); }
        if c != ',' { return Err(InvalidJson); }
      }
    }
  }

  /** `reserved`: take the `/` key out of the map, and see what else is there. */
  method Reserve(lib: CidLibrary, m: map<string, Ipld>) returns (r: Result<Ipld, CodecError>)
    ensures r == F.ReservedForm(lib, m)
  {
    if "/" !in m { return Ok(Map(m)); }
    var inner, others := m["/"], m - {"/"};
    Alone(m, "/");
    if others != map[] { return Err(ReservedKey); }
    match inner {
      case String(text) =>
        match lib.FromText(text) {
          case Some(cid) => return Ok(Link(cid));
          case None => return Err(InvalidCid);
        }
      case Map(form) =>
        if "bytes" !in form { return Err(ReservedKey); }
        var bytes, rest := form["bytes"], form - {"bytes"};
        Alone(form, "bytes");
        if !bytes.String? || rest != map[] { return Err(ReservedKey); }
        var decoded :- Base64.DecodeLoop(bytes.text);
        return Ok(Bytes(decoded));
      case _ => return Err(ReservedKey);
    }
  }

  lemma Alone(m: map<string, Ipld>, key: string)
    requires key in m
    ensures m - {key} == map[] <==> m.Keys == {key}
  {
    if m.Keys == {key} { assert m - {key} == map[]; }
    if m - {key} == map[] {
      forall k | k in m ensures k == key { assert k != key ==> k in m - {key}; }
    }
  }

  method Decode(lib: CidLibrary, bytes: seq<Byte>) returns (r: Result<Ipld, CodecError>)
    ensures r == F.Decode(lib, bytes)
  {
    var text := Utf8.Decode(bytes);
    if text.None? { return Err(InvalidUtf8); }
    var parser := new Parser(text.value);
    var value :- parser.Value(lib, 0);
    if parser.pos != |parser.text| { return Err(TrailingBytes); }
    var canonical :- Encode(lib, value);
    if Utf8.Encode(canonical) != bytes { return Err(NotCanonical); }
    return Ok(value);
  }
}
