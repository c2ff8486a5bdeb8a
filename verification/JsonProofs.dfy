/** DAG-JSON parsing undoes printing, within the depth the parser counts. */
module JsonProofs {
  import opened Wrappers
  import opened IpldModel
  import opened Numerals
  import opened JsonFormat
  import Base64
  import KeyOrder
  import Utf8

  // Strings

  lemma HexOfText(x: nat)
    requires x < 16
    ensures HexDigit(HexText(x)) == Some(x) && HexText(x) as int < 0x80 && HexText(x) != '+'
  {
  }

  lemma HexPair(h: char, l: char)
    requires HexDigit(h).Some? && HexDigit(l).Some?
    ensures Radix16(['0', '0', h, l]) == Some(16 * HexDigit(h).value + HexDigit(l).value)
  {
    assert HexDigits([]) == Some(0);
    hide HexDigits, HexDigit;
    assert HexDigit('0') == Some(0) by { HexOfText(0); assert HexText(0) == '0'; }
    HexStep([], '0');
    assert [] + ['0'] == ['0'];
    HexStep(['0'], '0');
    assert ['0'] + ['0'] == ['0', '0'];
    HexStep(['0', '0'], h);
    assert ['0', '0'] + [h] == ['0', '0', h];
    HexStep(['0', '0', h], l);
    assert ['0', '0', h] + [l] == ['0', '0', h, l];
  }

  lemma SpanAscii(t: string, pos: nat, n: nat)
    requires pos + n <= |t| && forall i :: pos <= i < pos + n ==> t[i] as int < 0x80
    ensures Span(t, pos, n) == Some(n)
    decreases n
  {
    if n > 0 { SpanAscii(t, pos + 1, n - 1); }
  }

  /** `\u` and four digits give the control character they name. */
  lemma ReadPrintedControl(c: char, t: string, pos: nat)
    requires c as int < 0x20
    requires At(t, pos, ['u', '0', '0', HexText(c as int / 16), HexText(c as int % 16)])
    ensures ReadEscape(t, pos) == Ok((c, pos + 5))
  {
    hide HexText, HexDigit, HexDigits, Span;
    var h, l := HexText(c as int / 16), HexText(c as int % 16);
    HexOfText(c as int / 16);
    HexOfText(c as int % 16);
    AtHead(t, pos, ['u', '0', '0', h, l]);
    assert t[pos] == 'u' && t[pos + 1] == '0' && t[pos + 2] == '0' && t[pos + 3] == h && t[pos + 4] == l;
    SpanAscii(t, pos + 1, 4);
    assert t[pos + 1..pos + 5] == ['0', '0', h, l];
    HexPair(h, l);
    assert c as int / 16 * 16 + c as int % 16 == c as int;
  }

  lemma ReadPrintedChar(c: char, t: string, pos: nat)
    requires At(t, pos, EscapeText(c))
    ensures ReadChars(t, pos) == Prefixed([c], ReadChars(t, pos + |EscapeText(c)|))
  {
    hide HexText, ReadHex, Prefixed;
    var text := EscapeText(c);
    AtHead(t, pos, text);
    assert t[pos] == text[0];
    if Special(c) {
      assert text[0] == '\\' && t[pos + 1] == text[1];
      if text[1] == 'u' {
        AtSplit(t, pos, text[..1], text[1..]);
        assert text == text[..1] + text[1..];
        ReadPrintedControl(c, t, pos + 1);
      }
    }
  }

  lemma ReadQuote(t: string, pos: nat)
    requires At(t, pos, ['"'])
    ensures ReadChars(t, pos) == Ok(([], pos + 1))
  {
    AtFirst(t, pos, ['"']);
  }

  lemma EscapedStep(text: string)
    requires text != []
    ensures Escaped(text) == EscapeText(text[0]) + Escaped(text[1..])
  {
  }

  lemma {:induction false} ReadPrintedChars(text: string, t: string, pos: nat)
    requires At(t, pos, Escaped(text)) && At(t, pos + |Escaped(text)|, ['"'])
    ensures ReadChars(t, pos) == Ok((text, pos + |Escaped(text)| + 1))
  {
    hide ReadChars, EscapeText, At;
    if text == [] {
      ReadQuote(t, pos);
    } else {
      hide Escaped;
      var first, rest := EscapeText(text[0]), Escaped(text[1..]);
      EscapedStep(text);
      AtSplit(t, pos, first, rest);
      ReadPrintedChar(text[0], t, pos);
      ReadPrintedChars(text[1..], t, pos + |first|);
      assert [text[0]] + text[1..] == text;
    }
  }

  lemma ReadPrintedString(text: string, t: string, pos: nat)
    requires At(t, pos, StringText(text))
    ensures ReadString(t, pos) == Ok((text, pos + |StringText(text)|))
  {
    hide ReadChars, Escaped, At;
    AtSplit(t, pos, ['"'] + Escaped(text), ['"']);
    AtSplit(t, pos, ['"'], Escaped(text));
    AtFirst(t, pos, ['"']);
    ReadPrintedChars(text, t, pos + 1);
  }

  /** Text without special characters stands for itself. */
  lemma {:induction false} EscapedPlain(text: string)
    requires forall c :: c in text ==> !Special(c)
    ensures Escaped(text) == text
  {
    if text != [] {
      assert forall c :: c in text[1..] ==> c in text;
      EscapedPlain(text[1..]);
      assert text[0] in text && EscapeText(text[0]) == [text[0]];
      assert [text[0]] + text[1..] == text;
    }
  }

  // Numbers

  /** What may stand after a value: the end, or the punctuation of a list or map. */
  predicate Stops(t: string, pos: nat) {
    pos < |t| ==> t[pos] == ',' || t[pos] == ']' || t[pos] == '}'
  }

  lemma ReadPrintedInteger(i: int, t: string, pos: nat)
    requires InRange(i) && At(t, pos, IntegerText(i)) && Stops(t, pos + |IntegerText(i)|)
    ensures pos < |t| && (t[pos] == '-' || Digit(t[pos]))
    ensures ReadNumber(t, pos) == Ok((Integer(i), pos + |IntegerText(i)|))
  {
    hide DecimalText, Decimal, DigitsEnd, At, ReadNumber;
    var n := if i < 0 then -i else i;
    var digits := DecimalText(n);
    DecimalOfText(n);
    if i < 0 {
      AtSplit(t, pos, ['-'], digits);
      AtFirst(t, pos, ['-']);
      DigitsAreRead(t, pos + 1, digits);
      NumberIsRead(t, pos, true, digits, n);
    } else {
      DigitsAreRead(t, pos, digits);
      NumberIsRead(t, pos, false, digits, n);
    }
  }

  /** Digits that are found after the sign, if any, and not followed by more of a number. */
  lemma NumberIsRead(t: string, pos: nat, minus: bool, digits: string, n: int)
    requires pos < |t| && (t[pos] == '-' <==> minus) && digits != [] && (forall c :: c in digits ==> Digit(c))
    requires var first := if minus then pos + 1 else pos;
             && first + |digits| <= |t| && DigitsEnd(t, first) == first + |digits|
             && t[first..first + |digits|] == digits && Stops(t, first + |digits|)
    requires Decimal(digits) == n && InRange(if minus then -n else n)
    ensures ReadNumber(t, pos) == Ok((Integer(if minus then -n else n),
                                      (if minus then pos + 1 else pos) + |digits|))
  {
    hide DigitsEnd, Decimal;
  }

  // Values

  /** The depth the parser counts: two levels more for bytes, one more for a link. */
  ghost predicate Fits(v: Ipld, depth: int) {
    depth <= MAX_DEPTH &&
    match v
    case Bytes(_) => depth + 2 <= MAX_DEPTH
    case Link(_) => depth + 1 <= MAX_DEPTH
    case List(items) => forall i :: 0 <= i < |items| ==> Fits(items[i], depth + 1)
    case Map(m) => forall k :: k in m ==> Fits(m[k], depth + 1)
    case _ => true
  }

  /** What the printer accepts. */
  ghost predicate Printable(v: Ipld, depth: nat) {
    depth <= MAX_DEPTH &&
    match v
    case Integer(i) => InRange(i)
    case Float(_) => false
    case List(items) => forall i :: 0 <= i < |items| ==> Printable(items[i], depth + 1)
    case Map(m) => "/" !in m && forall k :: k in m ==> Printable(m[k], depth + 1)
    case _ => true
  }

  /** `encode` fails exactly outside its domain. */
  lemma {:induction false} PrintDomain(lib: CidLibrary, v: Ipld, depth: nat)
    requires depth <= MAX_DEPTH + 1
    ensures PrintItem(lib, v, depth).Ok? <==> Printable(v, depth)
    decreases MAX_DEPTH + 1 - depth, 0, 0
  {
    hide PrintItems, PrintEntries, StringText, IntegerText, BytesText, LinkText;
    if depth <= MAX_DEPTH {
      match v
      case List(items) => PrintItemsDomain(lib, items, depth + 1);
      case Map(m) => PrintEntriesDomain(lib, m, SortedKeys(m.Keys), depth + 1);
      case _ =>
    }
  }

  lemma {:induction false} PrintItemsDomain(lib: CidLibrary, items: seq<Ipld>, depth: nat)
    requires depth <= MAX_DEPTH + 1
    ensures PrintItems(lib, items, depth).Ok? <==> forall i :: 0 <= i < |items| ==> Printable(items[i], depth)
    decreases MAX_DEPTH + 1 - depth, 1, |items|
  {
    hide PrintItem, Printable;
    if items != [] {
      PrintDomain(lib, items[0], depth);
      PrintItemsDomain(lib, items[1..], depth);
      assert forall i :: 1 <= i < |items| ==> items[i] == items[1..][i - 1];
    }
  }

  lemma {:induction false} PrintEntriesDomain(lib: CidLibrary, m: map<string, Ipld>, keys: seq<string>, depth: nat)
    requires depth <= MAX_DEPTH + 1 && forall k :: k in keys ==> k in m
    ensures PrintEntries(lib, m, keys, depth).Ok? <==> forall k :: k in keys ==> Printable(m[k], depth)
    decreases MAX_DEPTH + 1 - depth, 1, |keys|
  {
    hide PrintItem, Printable, StringText;
    if keys != [] {
      PrintDomain(lib, m[keys[0]], depth);
      PrintEntriesDomain(lib, m, keys[1..], depth);
      assert forall k :: k in keys <==> k == keys[0] || k in keys[1..];
    }
  }

  /** Reading printed text gives the value, or fails when the parser's depth runs out. */
  function Expected<T>(fits: bool, value: T, end: nat): Result<(T, nat), CodecError> {
    if fits then Ok((value, end)) else Err(NestingTooDeep)
  }

  lemma {:induction false} ReadPrinted(lib: CidLibrary, v: Ipld, depth: nat, t: string, pos: nat, level: int)
    requires lib.Lawful() && depth <= MAX_DEPTH + 1 && PrintItem(lib, v, depth).Ok?
    requires At(t, pos, PrintItem(lib, v, depth).value) && Stops(t, pos + |PrintItem(lib, v, depth).value|)
    ensures ReadValue(lib, t, pos, level)
         == Expected(Fits(v, level), v, pos + |PrintItem(lib, v, depth).value|)
    decreases MAX_DEPTH + 1 - depth, 2, 0
  {
    hide PrintItem, ReadValue, Fits;
    FitsLeaf(v, level);
    if level > MAX_DEPTH {
      TooDeep(lib, t, pos, level);
    } else {
      PrintedDepth(lib, v, depth);
      match v
      case List(items) => ReadPrintedList(lib, items, depth, t, pos, level);
      case Map(m) => ReadPrintedMap(lib, m, depth, t, pos, level);
      case Bytes(bytes) => ReadPrintedBytes(lib, bytes, depth, t, pos, level);
      case Link(cid) => ReadPrintedLink(lib, cid, depth, t, pos, level);
      case _ => ReadPrintedLeaf(lib, v, depth, t, pos, level);
    }
  }

  lemma FitsLeaf(v: Ipld, level: int)
    ensures Fits(v, level) ==> level <= MAX_DEPTH
    ensures !v.List? && !v.Map? && !v.Bytes? && !v.Link? ==> (Fits(v, level) <==> level <= MAX_DEPTH)
  {
  }

  lemma PrintedDepth(lib: CidLibrary, v: Ipld, depth: nat)
    requires depth <= MAX_DEPTH + 1 && PrintItem(lib, v, depth).Ok?
    ensures depth <= MAX_DEPTH
  {
  }

  lemma ReadPrintedLeaf(lib: CidLibrary, v: Ipld, depth: nat, t: string, pos: nat, level: int)
    requires !v.List? && !v.Map? && !v.Bytes? && !v.Link?
    requires depth <= MAX_DEPTH + 1 && PrintItem(lib, v, depth).Ok? && level <= MAX_DEPTH
    requires At(t, pos, PrintItem(lib, v, depth).value) && Stops(t, pos + |PrintItem(lib, v, depth).value|)
    ensures ReadValue(lib, t, pos, level) == Ok((v, pos + |PrintItem(lib, v, depth).value|))
  {
    hide IntegerText, ReadNumber, StringText, ReadString, ReadItems, ReadEntries, ReservedForm, PrintItems,
      PrintEntries;
    var text := PrintItem(lib, v, depth).value;
    match v
    case Integer(i) => ReadPrintedInteger(i, t, pos);
    case String(s) =>
      ReadPrintedString(s, t, pos);
      StringQuote(s);
      AtFirst(t, pos, text);
    case Null => AtFirst(t, pos, text);
    case Bool(_) => AtFirst(t, pos, text);
    case _ =>
  }

  lemma StringQuote(s: string)
    ensures |StringText(s)| > 0 && StringText(s)[0] == '"'
  {
  }

  // The reserved forms

  /** How a map opens whose first key is `key`. */
  function Opening(key: string): string {
    ['{'] + StringText(key) + [':']
  }

  /** A map of one entry reads as its value does, one level down. */
  lemma ReadSingle(lib: CidLibrary, key: string, t: string, pos: nat, level: int)
    requires At(t, pos, Opening(key)) && level <= MAX_DEPTH
    ensures match ReadValue(lib, t, pos + |Opening(key)|, level + 1)
            case Err(e) => ReadValue(lib, t, pos, level) == Err(e)
            case Ok((v, end)) =>
              end < |t| && t[end] == '}' ==>
                ReadValue(lib, t, pos, level) ==
                match ReservedForm(lib, map[key := v])
                case Ok(w) => Ok((w, end + 1))
                case Err(e) => Err(e)
  {
    hide ReadString, StringText, At, ReservedForm, ReadNumber, ReadItems;
    var name := StringText(key);
    AtSplit(t, pos, ['{'] + name, [':']);
    AtSplit(t, pos, ['{'], name);
    AtFirst(t, pos, ['{']);
    StringQuote(key);
    AtFirst(t, pos + 1, name);
    AtFirst(t, pos + 1 + |name|, [':']);
    ReadPrintedString(key, t, pos + 1);
    hide ReadValue;
    ReadValueMap(lib, t, pos, level);
    assert map[][key := ReadValue(lib, t, pos + |Opening(key)|, level + 1)]
        == map[key := ReadValue(lib, t, pos + |Opening(key)|, level + 1)];
  }

  lemma ReadValueMap(lib: CidLibrary, t: string, pos: nat, level: int)
    requires pos + 1 < |t| && t[pos] == '{' && t[pos + 1] == '"' && level <= MAX_DEPTH
    ensures ReadValue(lib, t, pos, level) ==
            match ReadEntries(lib, t, pos + 1, level + 1, map[])
            case Err(e) => Err(e)
            case Ok((m, end)) =>
              match ReservedForm(lib, m)
              case Ok(w) => Ok((w, end))
              case Err(e) => Err(e)
  {
    hide ReadItems, ReadEntries, ReservedForm, ReadNumber;
  }

  lemma PlainString(text: string)
    requires forall c :: c in text ==> !Special(c)
    ensures StringText(text) == ['"'] + text + ['"']
  {
    EscapedPlain(text);
  }

  lemma LinkTextParts(text: string)
    requires forall c :: c in text ==> PlainCharacter(c)
    ensures LinkText(text) == Opening("/") + StringText(text) + ['}']
  {
    hide StringText;
    PlainString(text);
    PlainString("/");
    assert "{\"/\":\"" == Opening("/") + ['"'];
    assert Opening("/") + ['"'] + text + ['"'] + ['}'] == Opening("/") + (['"'] + text + ['"']) + ['}'];
  }

  lemma ReadStringValue(lib: CidLibrary, text: string, t: string, pos: nat, level: int)
    requires At(t, pos, StringText(text)) && level <= MAX_DEPTH
    ensures ReadValue(lib, t, pos, level) == Ok((String(text), pos + |StringText(text)|))
  {
    hide ReadString, StringText, At, ReadItems, ReadEntries;
    StringQuote(text);
    AtFirst(t, pos, StringText(text));
    ReadPrintedString(text, t, pos);
  }

  lemma ReadPrintedLink(lib: CidLibrary, cid: Cid, depth: nat, t: string, pos: nat, level: int)
    requires lib.Lawful() && depth <= MAX_DEPTH && level <= MAX_DEPTH
    requires At(t, pos, PrintItem(lib, Link(cid), depth).value)
    ensures ReadValue(lib, t, pos, level)
         == Expected(Fits(Link(cid), level), Link(cid), pos + |PrintItem(lib, Link(cid), depth).value|)
  {
    hide ReadValue, StringText, At, Opening, LinkText;
    var text := lib.toText(cid);
    LinkTextParts(text);
    AtSplit(t, pos, Opening("/") + StringText(text), ['}']);
    AtSplit(t, pos, Opening("/"), StringText(text));
    AtFirst(t, pos + |Opening("/") + StringText(text)|, ['}']);
    ReadSingle(lib, "/", t, pos, level);
    if level + 1 <= MAX_DEPTH {
      ReadStringValue(lib, text, t, pos + |Opening("/")|, level + 1);
    } else {
      TooDeep(lib, t, pos + |Opening("/")|, level + 1);
    }
  }

  lemma TooDeep(lib: CidLibrary, t: string, pos: nat, level: int)
    requires level > MAX_DEPTH
    ensures ReadValue(lib, t, pos, level) == Err(NestingTooDeep)
  {
  }

  lemma BytesTextParts(bytes: seq<Byte>)
    ensures BytesText(bytes)
         == Opening("/") + (Opening("bytes") + StringText(Base64.Encode(bytes)) + ['}']) + ['}']
  {
    hide StringText, Base64.Encode;
    var text := Base64.Encode(bytes);
    Base64.SymbolsPlain(bytes);
    PlainString(text);
    PlainString("/");
    PlainString("bytes");
    assert "{\"/\":{\"bytes\":\"" == Opening("/") + Opening("bytes") + ['"'];
    assert Opening("/") + Opening("bytes") + ['"'] + text + "\"}}"
        == Opening("/") + (Opening("bytes") + (['"'] + text + ['"']) + ['}']) + ['}'];
  }

  lemma ReadPrintedBytes(lib: CidLibrary, bytes: seq<Byte>, depth: nat, t: string, pos: nat, level: int)
    requires depth <= MAX_DEPTH && level <= MAX_DEPTH
    requires At(t, pos, PrintItem(lib, Bytes(bytes), depth).value)
    ensures ReadValue(lib, t, pos, level)
         == Expected(Fits(Bytes(bytes), level), Bytes(bytes), pos + |PrintItem(lib, Bytes(bytes), depth).value|)
  {
    hide ReadValue, StringText, At, Opening, BytesText, Base64.Encode, Base64.Decode;
    var text := Base64.Encode(bytes);
    var inner := Opening("bytes") + StringText(text);
    BytesTextParts(bytes);
    AtSplit(t, pos, Opening("/") + (inner + ['}']), ['}']);
    AtSplit(t, pos, Opening("/"), inner + ['}']);
    AtSplit(t, pos + |Opening("/")|, inner, ['}']);
    AtSplit(t, pos + |Opening("/")|, Opening("bytes"), StringText(text));
    AtFirst(t, pos + |Opening("/") + (inner + ['}'])|, ['}']);
    AtFirst(t, pos + |Opening("/")| + |inner|, ['}']);
    var middle := pos + |Opening("/")|;
    var last := middle + |Opening("bytes")|;
    ReadSingle(lib, "/", t, pos, level);
    if level + 1 > MAX_DEPTH {
      TooDeep(lib, t, middle, level + 1);
    } else {
      ReadSingle(lib, "bytes", t, middle, level + 1);
      if level + 2 > MAX_DEPTH {
        TooDeep(lib, t, last, level + 2);
      } else {
        ReadStringValue(lib, text, t, last, level + 2);
        BytesForm(lib, bytes);
      }
    }
  }

  lemma BytesForm(lib: CidLibrary, bytes: seq<Byte>)
    ensures var form := map["bytes" := String(Base64.Encode(bytes))];
            && ReservedForm(lib, form) == Ok(Map(form))
            && ReservedForm(lib, map["/" := Map(form)]) == Ok(Bytes(bytes))
  {
    hide Base64.Encode, Base64.Decode;
    Base64.DecodeEncode(bytes);
    assert "bytes"[0] != "/"[0];
  }

  // Lists and maps

  lemma ReadPrintedList(lib: CidLibrary, items: seq<Ipld>, depth: nat, t: string, pos: nat, level: int)
    requires lib.Lawful() && depth <= MAX_DEPTH && PrintItem(lib, List(items), depth).Ok? && level <= MAX_DEPTH
    requires At(t, pos, PrintItem(lib, List(items), depth).value)
    ensures ReadValue(lib, t, pos, level)
         == Expected(Fits(List(items), level), List(items), pos + |PrintItem(lib, List(items), depth).value|)
    decreases MAX_DEPTH + 1 - depth, 1, 0
  {
    hide PrintItems, ReadItems, ReadEntries, ReadNumber, ReadString;
    var body := PrintItems(lib, items, depth + 1).value;
    Bracketed(t, pos, '[', body, ']');
    if items == [] {
      PrintNothing(lib, depth + 1);
    } else {
      PrintedItemsStart(lib, items, depth + 1);
      ReadPrintedItems(lib, items, depth + 1, t, pos + 1, level + 1);
    }
  }

  lemma Bracketed(t: string, pos: nat, open: char, body: string, close: char)
    requires At(t, pos, [open] + body + [close])
    ensures pos + 1 < |t| && t[pos] == open && t[pos + 1] == (if body == [] then close else body[0])
    ensures At(t, pos + 1, body) && At(t, pos + 1 + |body|, [close])
  {
    hide At;
    AtSplit(t, pos, [open] + body, [close]);
    AtSplit(t, pos, [open], body);
    AtFirst(t, pos, [open]);
    AtFirst(t, pos + 1 + |body|, [close]);
    if body != [] { AtFirst(t, pos + 1, body); }
  }

  lemma PrintNothing(lib: CidLibrary, depth: nat)
    requires depth <= MAX_DEPTH + 1
    ensures PrintItems(lib, [], depth) == Ok("") && PrintEntries(lib, map[], [], depth) == Ok("")
  {
  }

  /** The first character of a value. */
  lemma PrintedStart(lib: CidLibrary, v: Ipld, depth: nat)
    requires depth <= MAX_DEPTH + 1 && PrintItem(lib, v, depth).Ok?
    ensures var text := PrintItem(lib, v, depth).value; text != [] && text[0] != ']'
  {
    hide PrintItems, PrintEntries, Escaped, SortedKeys;
    if v.Bytes? { hide Base64.Encode; } else { hide BytesText; }
    if v.Integer? {
      var digits := DecimalText(if v.i < 0 then -v.i else v.i);
      hide DecimalText;
      assert digits[0] in digits && Digit(digits[0]);
    }
  }

  lemma PrintedItemsStart(lib: CidLibrary, items: seq<Ipld>, depth: nat)
    requires depth <= MAX_DEPTH + 1 && items != [] && PrintItems(lib, items, depth).Ok?
    ensures var text := PrintItems(lib, items, depth).value; text != [] && text[0] != ']'
  {
    hide PrintItem;
    PrintedStart(lib, items[0], depth);
  }

  lemma {:induction false} ReadPrintedItems(
      lib: CidLibrary, items: seq<Ipld>, depth: nat, t: string, pos: nat, level: int)
    requires lib.Lawful() && depth <= MAX_DEPTH + 1 && items != [] && PrintItems(lib, items, depth).Ok?
    requires At(t, pos, PrintItems(lib, items, depth).value)
    requires At(t, pos + |PrintItems(lib, items, depth).value|, [']'])
    ensures ReadItems(lib, t, pos, level)
         == Expected(forall i :: 0 <= i < |items| ==> Fits(items[i], level), items,
                     pos + |PrintItems(lib, items, depth).value| + 1)
    decreases MAX_DEPTH + 1 - depth, 3, |items|
  {
    hide PrintItem, ReadValue, Fits, At;
    var first := PrintItem(lib, items[0], depth).value;
    var rest := PrintItems(lib, items[1..], depth).value;
    var comma := Comma(|items| > 1);
    AtSplit(t, pos, first + comma, rest);
    AtSplit(t, pos, first, comma);
    var next := pos + |first|;
    Separated(t, next, comma, rest, ']');
    ReadPrinted(lib, items[0], depth, t, pos, level);
    assert forall i :: 1 <= i < |items| ==> items[i] == items[1..][i - 1];
    if |items| > 1 {
      ReadPrintedItems(lib, items[1..], depth, t, next + 1, level);
      assert items == [items[0]] + items[1..];
    } else {
      assert items == [items[0]];
    }
  }

  /** What follows a value: a comma and more, or the closing bracket. */
  lemma Separated(t: string, next: nat, comma: string, rest: string, close: char)
    requires At(t, next, comma) && At(t, next + |comma| + |rest|, [close])
    ensures comma != [] ==> next < |t| && t[next] == comma[0]
    ensures comma == [] && rest == [] ==> next < |t| && t[next] == close
  {
    hide At;
    AtFirst(t, next + |comma| + |rest|, [close]);
    if comma != [] { AtFirst(t, next, comma); }
  }

  lemma ReadPrintedMap(lib: CidLibrary, m: map<string, Ipld>, depth: nat, t: string, pos: nat, level: int)
    requires lib.Lawful() && depth <= MAX_DEPTH && PrintItem(lib, Map(m), depth).Ok? && level <= MAX_DEPTH
    requires At(t, pos, PrintItem(lib, Map(m), depth).value)
    ensures ReadValue(lib, t, pos, level)
         == Expected(Fits(Map(m), level), Map(m), pos + |PrintItem(lib, Map(m), depth).value|)
    decreases MAX_DEPTH + 1 - depth, 1, 0
  {
    hide PrintEntries, ReadItems, ReadEntries, ReadNumber, ReadString, SortedKeys, StringText, ReservedForm, Added,
      KeyOrder.Bytewise, KeyOrder.Ascending, KeyOrder.StrictTotal, At;
    var keys := SortedKeys(m.Keys);
    var body := PrintEntries(lib, m, keys, depth + 1).value;
    Bracketed(t, pos, '{', body, '}');
    if keys == [] {
      assert m == map[] by { assert forall k :: k in m ==> k in keys; }
      PrintNothing(lib, depth + 1);
    } else {
      PrintedEntriesStart(lib, m, keys, depth + 1);
      KeyOrder.BytewiseIsStrictTotal();
      ReadPrintedEntries(lib, m, keys, depth + 1, t, pos + 1, level + 1, map[]);
      MapOfAllKeys(m, keys);
      NotReserved(lib, m);
    }
  }

  lemma NotReserved(lib: CidLibrary, m: map<string, Ipld>)
    requires "/" !in m
    ensures ReservedForm(lib, m) == Ok(Map(m))
  {
  }

  lemma PrintedEntriesStart(lib: CidLibrary, m: map<string, Ipld>, keys: seq<string>, depth: nat)
    requires depth <= MAX_DEPTH + 1 && keys != [] && (forall k :: k in keys ==> k in m)
    requires PrintEntries(lib, m, keys, depth).Ok?
    ensures var text := PrintEntries(lib, m, keys, depth).value; text != [] && text[0] == '"'
  {
    hide PrintItem, StringText;
    StringQuote(keys[0]);
  }

  /** `base` with the entries of `m` under `keys` added. */
  ghost function Added(base: map<string, Ipld>, m: map<string, Ipld>, keys: seq<string>): map<string, Ipld>
    requires forall k :: k in keys ==> k in m
    decreases |keys|
  {
    if keys == [] then base else Added(base[keys[0] := m[keys[0]]], m, keys[1..])
  }

  lemma {:induction false} AddedHolds(base: map<string, Ipld>, m: map<string, Ipld>, keys: seq<string>)
    requires forall k :: k in keys ==> k in m
    ensures var all := Added(base, m, keys);
            forall k :: (k in all <==> k in base || k in keys)
              && (k in all ==> all[k] == if k in keys then m[k] else base[k])
    decreases |keys|
  {
    if keys != [] {
      AddedHolds(base[keys[0] := m[keys[0]]], m, keys[1..]);
      assert forall k :: k in keys <==> k == keys[0] || k in keys[1..];
    }
  }

  lemma MapOfAllKeys(m: map<string, Ipld>, keys: seq<string>)
    requires forall k :: k in keys <==> k in m
    ensures Added(map[], m, keys) == m
  {
    AddedHolds(map[], m, keys);
  }

  lemma EntryPieces(t: string, pos: nat, name: string, value: string, comma: string, rest: string)
    requires At(t, pos, name + [':'] + value + comma + rest)
    ensures At(t, pos, name) && pos + |name| < |t| && t[pos + |name|] == ':'
    ensures At(t, pos + |name| + 1, value) && At(t, pos + |name| + 1 + |value|, comma)
    ensures At(t, pos + |name| + 1 + |value| + |comma|, rest)
  {
    hide At;
    AtSplit(t, pos, name + [':'] + value + comma, rest);
    AtSplit(t, pos, name + [':'] + value, comma);
    AtSplit(t, pos, name + [':'], value);
    AtSplit(t, pos, name, [':']);
    AtFirst(t, pos + |name|, [':']);
  }

  lemma AddedStep(base: map<string, Ipld>, m: map<string, Ipld>, keys: seq<string>)
    requires keys != [] && forall k :: k in keys ==> k in m
    ensures forall k :: k in keys[1..] ==> k in m
    ensures Added(base, m, keys) == Added(base[keys[0] := m[keys[0]]], m, keys[1..])
    ensures |keys| == 1 ==> Added(base, m, keys) == base[keys[0] := m[keys[0]]]
  {
  }

  lemma TailAscends(keys: seq<string>)
    requires KeyOrder.StrictTotal(KeyOrder.Bytewise) && KeyOrder.Ascending(keys, KeyOrder.Bytewise) && keys != []
    ensures KeyOrder.Ascending(keys[1..], KeyOrder.Bytewise) && keys[0] !in keys[1..]
    ensures forall k :: k in keys <==> k == keys[0] || k in keys[1..]
  {
    hide KeyOrder.Bytewise;
    forall i | 0 <= i < |keys| - 1 ensures keys[1..][i] != keys[0] {
      assert KeyOrder.Bytewise(keys[0], keys[i + 1]);
    }
  }

  lemma {:induction false} ReadPrintedEntries(
      lib: CidLibrary, m: map<string, Ipld>, keys: seq<string>, depth: nat, t: string, pos: nat, level: int,
      base: map<string, Ipld>)
    requires lib.Lawful() && depth <= MAX_DEPTH + 1 && keys != [] && (forall k :: k in keys ==> k in m)
    requires KeyOrder.StrictTotal(KeyOrder.Bytewise) && KeyOrder.Ascending(keys, KeyOrder.Bytewise)
    requires forall k :: k in keys ==> k !in base
    requires PrintEntries(lib, m, keys, depth).Ok?
    requires At(t, pos, PrintEntries(lib, m, keys, depth).value)
    requires At(t, pos + |PrintEntries(lib, m, keys, depth).value|, ['}'])
    ensures ReadEntries(lib, t, pos, level, base)
         == Expected(forall k :: k in keys ==> Fits(m[k], level), Added(base, m, keys),
                     pos + |PrintEntries(lib, m, keys, depth).value| + 1)
    decreases MAX_DEPTH + 1 - depth, 3, |keys|
  {
    hide PrintItem, ReadValue, Fits, StringText, ReadString, KeyOrder.Bytewise,
      KeyOrder.Ascending, KeyOrder.StrictTotal, At, Added;
    var key, name := keys[0], StringText(keys[0]);
    var value := PrintItem(lib, m[key], depth).value;
    var rest := PrintEntries(lib, m, keys[1..], depth).value;
    var comma := Comma(|keys| > 1);
    EntryPieces(t, pos, name, value, comma, rest);
    var start := pos + |name| + 1;
    var next := start + |value|;
    Separated(t, next, comma, rest, '}');
    ReadPrintedString(key, t, pos);
    ReadPrinted(lib, m[key], depth, t, start, level);
    TailAscends(keys);
    AddedStep(base, m, keys);
    if |keys| > 1 {
      ReadPrintedEntries(lib, m, keys[1..], depth, t, next + 1, level, base[key := m[key]]);
    }
  }

  // What the parser gives

  /** A parsed value is within both depths and has nothing the printer refuses. */
  lemma {:induction false} ReadGivesPrintable(lib: CidLibrary, t: string, pos: nat, level: nat)
    requires ReadValue(lib, t, pos, level).Ok?
    ensures var v := ReadValue(lib, t, pos, level).value.0; Printable(v, level) && Fits(v, level)
    decreases |t| - pos, 0
  {
    hide ReadItems, ReadEntries, ReservedForm, ReadNumber, ReadString;
    var v := ReadValue(lib, t, pos, level).value.0;
    if t[pos] == '[' {
      if !(pos + 1 < |t| && t[pos + 1] == ']') { ReadItemsPrintable(lib, t, pos + 1, level + 1); }
    } else if t[pos] == '{' {
      if !(pos + 1 < |t| && t[pos + 1] == '}') {
        ReadEntriesPrintable(lib, t, pos + 1, level + 1, map[]);
        FormPrintable(lib, ReadEntries(lib, t, pos + 1, level + 1, map[]).value.0, level);
      }
    } else if t[pos] == '-' || Digit(t[pos]) {
      NumberPrintable(t, pos);
    }
  }

  lemma NumberPrintable(t: string, pos: nat)
    requires pos < |t| && ReadNumber(t, pos).Ok?
    ensures var v := ReadNumber(t, pos).value.0; v.Integer? && InRange(v.i)
  {
  }

  lemma FormPrintable(lib: CidLibrary, m: map<string, Ipld>, level: nat)
    requires level <= MAX_DEPTH && ReservedForm(lib, m).Ok?
    requires forall k :: k in m ==> Printable(m[k], level + 1) && Fits(m[k], level + 1)
    ensures var v := ReservedForm(lib, m).value; Printable(v, level) && Fits(v, level)
  {
    if "/" in m && m["/"].Map? {
      assert Fits(m["/"], level + 1);
      assert Fits(m["/"].entries["bytes"], level + 2);
    }
  }

  lemma {:induction false} ReadItemsPrintable(lib: CidLibrary, t: string, pos: nat, level: nat)
    requires ReadItems(lib, t, pos, level).Ok?
    ensures var items := ReadItems(lib, t, pos, level).value.0;
            forall i :: 0 <= i < |items| ==> Printable(items[i], level) && Fits(items[i], level)
    decreases |t| - pos, 1
  {
    hide ReadValue, Printable, Fits;
    var (first, next) := ReadValue(lib, t, pos, level).value;
    ReadGivesPrintable(lib, t, pos, level);
    if t[next] == ',' { ReadItemsPrintable(lib, t, next + 1, level); }
  }

  lemma {:induction false} ReadEntriesPrintable(
      lib: CidLibrary, t: string, pos: nat, level: nat, m: map<string, Ipld>)
    requires ReadEntries(lib, t, pos, level, m).Ok?
    requires forall k :: k in m ==> Printable(m[k], level) && Fits(m[k], level)
    ensures var all := ReadEntries(lib, t, pos, level, m).value.0;
            forall k :: k in all ==> Printable(all[k], level) && Fits(all[k], level)
    decreases |t| - pos, 1
  {
    hide ReadValue, ReadString, Printable, Fits;
    var (key, colon) := ReadString(t, pos).value;
    var (value, next) := ReadValue(lib, t, colon + 1, level).value;
    ReadGivesPrintable(lib, t, colon + 1, level);
    if t[next] == ',' { ReadEntriesPrintable(lib, t, next + 1, level, m[key := value]); }
  }

  // The claims of the codec

  /**
   * Once the parser has read one value that spans the text, the only question left is whether the
   * text is that value's canonical one: encoding it again never fails.
   */
  lemma ParsedIsDecodedOrNotCanonical(lib: CidLibrary, t: string)
    requires ReadValue(lib, t, 0, 0).Ok? && ReadValue(lib, t, 0, 0).value.1 == |t|
    ensures var v := ReadValue(lib, t, 0, 0).value.0;
            Encode(lib, v).Ok?
            && Decode(lib, Utf8.Encode(t)) == if Encode(lib, v) == Ok(t) then Ok(v) else Err(NotCanonical)
  {
    hide PrintItem, ReadValue, Printable, Fits, Utf8.Encode, Utf8.Decode;
    var v := ReadValue(lib, t, 0, 0).value.0;
    ReadGivesPrintable(lib, t, 0, 0);
    PrintDomain(lib, v, 0);
    Utf8.DecodeEncode(t);
    if Utf8.Encode(Encode(lib, v).value) == Utf8.Encode(t) { Utf8.EncodeInjective(Encode(lib, v).value, t); }
  }

  /** Decoding printed text gives the value back exactly when the parser's depth allows it. */
  lemma DecodeEncode(lib: CidLibrary, v: Ipld)
    requires lib.Lawful() && Encode(lib, v).Ok?
    ensures Decode(lib, Utf8.Encode(Encode(lib, v).value)) == if Fits(v, 0) then Ok(v) else Err(NestingTooDeep)
  {
    hide PrintItem, ReadValue, Fits, Utf8.Encode, Utf8.Decode;
    var t := Encode(lib, v).value;
    Utf8.DecodeEncode(t);
    assert t[0..|t|] == t;
    ReadPrinted(lib, v, 0, t, 0, 0);
  }

  function Nested(v: Ipld, n: nat): Ipld {
    if n == 0 then v else List([Nested(v, n - 1)])
  }

  lemma {:induction false} NestedDepth(v: Ipld, n: nat, depth: nat)
    ensures Printable(Nested(v, n), depth) <==> depth + n <= MAX_DEPTH && Printable(v, depth + n)
    ensures Fits(Nested(v, n), depth) <==> depth + n <= MAX_DEPTH && Fits(v, depth + n)
    decreases n
  {
    if n > 0 {
      NestedDepth(v, n - 1, depth + 1);
      assert Nested(v, n).items[0] == Nested(v, n - 1);
    }
  }

  /** So not everything printed decodes: bytes inside 127 lists do not, nor does a link inside 128. */
  lemma PrintedButTooDeep(lib: CidLibrary, bytes: seq<Byte>, cid: Cid)
    requires lib.Lawful()
    ensures var text := Encode(lib, Nested(Bytes(bytes), 127));
            text.Ok? && Decode(lib, Utf8.Encode(text.value)) == Err(NestingTooDeep)
    ensures var text := Encode(lib, Nested(Link(cid), 128));
            text.Ok? && Decode(lib, Utf8.Encode(text.value)) == Err(NestingTooDeep)
  {
    hide PrintItem, ReadValue, Utf8.Encode, Utf8.Decode, Nested;
    NestedDepth(Bytes(bytes), 127, 0);
    NestedDepth(Link(cid), 128, 0);
    PrintDomain(lib, Nested(Bytes(bytes), 127), 0);
    PrintDomain(lib, Nested(Link(cid), 128), 0);
    DecodeEncode(lib, Nested(Bytes(bytes), 127));
    DecodeEncode(lib, Nested(Link(cid), 128));
  }

  /** `decode` accepts exactly the canonical text of each value it has the depth for. */
  lemma DecodeExactlyEncode(lib: CidLibrary, b: seq<Byte>, v: Ipld)
    requires lib.Lawful()
    ensures Decode(lib, b) == Ok(v)
       <==> Encode(lib, v).Ok? && Utf8.Encode(Encode(lib, v).value) == b && Fits(v, 0)
  {
    hide PrintItem, ReadValue, Fits, Utf8.Encode, Utf8.Decode;
    if Encode(lib, v).Ok? { DecodeEncode(lib, v); }
  }

  /** Distinct values have distinct texts, however deep the parser could follow them. */
  lemma EncodeInjective(lib: CidLibrary, v: Ipld, w: Ipld)
    requires lib.Lawful() && Encode(lib, v).Ok? && Encode(lib, v) == Encode(lib, w)
    ensures v == w
  {
    hide PrintItem, ReadValue, Fits, Printable;
    var t := Encode(lib, v).value;
    assert t[0..|t|] == t;
    ReadPrinted(lib, v, 0, t, 0, -2);
    ReadPrinted(lib, w, 0, t, 0, -2);
    PrintDomain(lib, v, 0);
    PrintDomain(lib, w, 0);
    FitsWithRoom(v, 0);
    FitsWithRoom(w, 0);
  }

  /** Two spare levels are room for every reserved form. */
  lemma {:induction false} FitsWithRoom(v: Ipld, depth: nat)
    requires Printable(v, depth)
    ensures Fits(v, depth - 2)
    decreases v
  {
    match v
    case List(items) =>
      forall i | 0 <= i < |items| ensures Fits(items[i], depth - 1) { FitsWithRoom(items[i], depth + 1); }
    case Map(m) =>
      forall k | k in m ensures Fits(m[k], depth - 1) { FitsWithRoom(m[k], depth + 1); }
    case _ =>
  }

  /** No two byte strings decode to one value. */
  lemma DecodeInjective(lib: CidLibrary, a: seq<Byte>, b: seq<Byte>)
    requires lib.Lawful() && Decode(lib, a).Ok? && Decode(lib, a) == Decode(lib, b)
    ensures a == b
  {
    DecodeExactlyEncode(lib, a, Decode(lib, a).value);
    DecodeExactlyEncode(lib, b, Decode(lib, b).value);
  }

  /** The text `"\u+xyz"`. */
  function PlusText(x: char, y: char, z: char): string {
    ['"', '\\', 'u', '+', x, y, z, '"']
  }

  /** The parser takes a plus sign for the first of the four digits. */
  lemma PlusIsRead(lib: CidLibrary, x: char, y: char, z: char)
    requires HexDigit(x).Some? && HexDigit(y).Some? && HexDigit(z).Some?
    ensures ReadValue(lib, PlusText(x, y, z), 0, 0) == Ok((String([ThreeDigits(x, y, z)]), 8))
  {
    var t := PlusText(x, y, z);
    Radix16OfPlus(x, y, z);
    HexBelow(x);
    HexBelow(y);
    HexBelow(z);
    SpanAscii(t, 3, 4);
    assert t[3..7] == ['+', x, y, z];
    var c := ThreeDigits(x, y, z);
    hide Radix16, Span, HexDigit, ThreeDigits, ReadItems, ReadEntries;
    assert ReadEscape(t, 2) == Ok((c, 7));
    ReadQuote(t, 7) by { assert t[7..8] == ['"']; }
    assert [c] + [] == [c];
    assert ReadChars(t, 1) == Ok(([c], 8));
  }

  /** So does the decoder, which then refuses the text: a plus sign is never in the canonical escape. */
  lemma PlusIsNotCanonical(lib: CidLibrary, x: char, y: char, z: char)
    requires HexDigit(x).Some? && HexDigit(y).Some? && HexDigit(z).Some?
    ensures Decode(lib, Utf8.Encode(PlusText(x, y, z))) == Err(NotCanonical)
  {
    PlusIsRead(lib, x, y, z);
    PlusIsNotPrinted(ThreeDigits(x, y, z), x, y, z);
    hide ThreeDigits, HexDigit, ReadValue, Decode, StringText, PlusText;
    ParsedIsDecodedOrNotCanonical(lib, PlusText(x, y, z));
  }

  lemma PlusIsNotPrinted(c: char, x: char, y: char, z: char)
    ensures StringText([c]) != PlusText(x, y, z) && |PlusText(x, y, z)| == 8
  {
    EscapedStep([c]);
    assert [c][1..] == [];
    assert StringText([c]) == ['"'] + EscapeText(c) + ['"'];
    if c as int < 0x20 && |EscapeText(c)| == 6 { assert StringText([c])[3] == '0'; }
  }

  /** For one, `"\u+041"` is read as the letter it names and refused. */
  lemma PlusExample(lib: CidLibrary)
    ensures ReadValue(lib, "\"\\u+041\"", 0, 0) == Ok((String("A"), 8))
    ensures Decode(lib, Utf8.Encode("\"\\u+041\"")) == Err(NotCanonical)
  {
    hide ReadValue, Decode, Utf8.Encode;
    Radix16OfPlus('0', '4', '1');
    assert PlusText('0', '4', '1') == "\"\\u+041\"";
    PlusIsRead(lib, '0', '4', '1');
    PlusIsNotCanonical(lib, '0', '4', '1');
  }

  /** Known texts: the words, an empty list, and bytes. */
  lemma KnownTexts(lib: CidLibrary)
    ensures Encode(lib, Null) == Ok("null") && Encode(lib, Bool(true)) == Ok("true")
    ensures Encode(lib, Bool(false)) == Ok("false") && Encode(lib, List([])) == Ok("[]")
    ensures Encode(lib, Bytes([])) == Ok("{\"/\":{\"bytes\":\"\"}}")
    ensures Encode(lib, Bytes([0xfb, 0xff])) == Ok("{\"/\":{\"bytes\":\"+/8\"}}")
  {
    assert Base64.Encode([0xfb, 0xff]) == "+/8";
    assert Base64.Encode([]) == "";
    hide Base64.Encode, StringText, PrintEntries, IntegerText;
    assert BytesText([0xfb, 0xff]) == "{\"/\":{\"bytes\":\"+/8\"}}";
    assert BytesText([]) == "{\"/\":{\"bytes\":\"\"}}";
    hide BytesText;
    PrintNothing(lib, 1);
    assert ['['] + "" + [']'] == "[]";
  }

  /** Two escapes that are the UTF-16 code units of a scalar, section 2.1 of RFC 2781, are read as that scalar. */
  lemma SurrogatesAreRead(c: char, t: string, pos: nat, next: nat, end: nat)
    requires c as int >= 0x1_0000 && pos < |t| && t[pos] == 'u' && At(t, next, "\\u")
    requires ReadHex(t, pos + 1) == Ok((0xd800 + (c as int - 0x1_0000) / 0x400, next))
    requires ReadHex(t, next + 2) == Ok((0xdc00 + (c as int - 0x1_0000) % 0x400, end))
    ensures ReadEscape(t, pos) == Ok((c, end))
  {
    hide ReadHex, At;
  }

  /** The first of the two alone, or followed by anything but the second, is refused. */
  lemma LoneSurrogate(code: nat, t: string, pos: nat, next: nat)
    requires 0xd800 <= code < 0xe000 && pos < |t| && t[pos] == 'u' && ReadHex(t, pos + 1) == Ok((code, next))
    ensures code >= 0xdc00 || !At(t, next, "\\u") ==> ReadEscape(t, pos) == Err(InvalidJson)
  {
    hide ReadHex, At;
  }
}
