/** Text is never shorter than what it says, so a value read from text fits in memory. */
module JsonSizes {
  import opened Wrappers
  import opened IpldModel
  import opened JsonFormat
  import P = JsonProofs
  import Base64
  import KeyOrder
  import Utf8

  function Size(text: string): nat {
    |Utf8.Encode(text)|
  }

  lemma SizeConcat(a: string, b: string)
    ensures Size(a + b) == Size(a) + Size(b)
  {
    Utf8.EncodeConcat(a, b);
  }

  lemma {:induction false} SizeAtLeast(text: string)
    ensures Size(text) >= |text|
  {
    hide Utf8.EncodeChar;
    if text != [] { SizeAtLeast(text[1..]); }
  }

  lemma SizeOfOne(c: char)
    ensures Size([c]) == |Utf8.EncodeChar(c)|
  {
    assert Utf8.Encode([c]) == Utf8.EncodeChar(c) + Utf8.Encode([c][1..]);
  }

  lemma EscapeSize(c: char)
    ensures Size(EscapeText(c)) >= |Utf8.EncodeChar(c)|
  {
    hide Size;
    SizeAtLeast(EscapeText(c));
    SizeOfOne(c);
    if Special(c) { assert |Utf8.EncodeChar(c)| == 1; }
  }

  lemma {:induction false} EscapedSize(text: string)
    ensures Size(Escaped(text)) >= Size(text)
  {
    hide Utf8.EncodeChar, EscapeText;
    if text != [] {
      EscapedSize(text[1..]);
      EscapeSize(text[0]);
      SizeConcat(EscapeText(text[0]), Escaped(text[1..]));
    }
  }

  lemma StringSize(text: string)
    ensures Size(StringText(text)) >= Size(text) + 2
  {
    hide Size, Escaped;
    EscapedSize(text);
    SizeConcat(['"'] + Escaped(text), ['"']);
    SizeConcat(['"'], Escaped(text));
    SizeAtLeast(['"']);
  }

  lemma {:induction false} Base64Size(bytes: seq<Byte>)
    ensures |Base64.Encode(bytes)| >= |bytes|
    decreases |bytes|
  {
    hide Base64.Symbol;
    if |bytes| > 2 { Base64Size(bytes[3..]); }
  }

  /** A value printed in no more text than fits in memory is itself no larger than that. */
  lemma {:induction false} PrintedIsAllocated(lib: CidLibrary, v: Ipld, depth: nat)
    requires depth <= MAX_DEPTH + 1 && PrintItem(lib, v, depth).Ok?
    requires Size(PrintItem(lib, v, depth).value) <= ALLOCATION_LIMIT
    ensures Allocated(v)
    decreases MAX_DEPTH + 1 - depth, 2, 0
  {
    hide PrintItems, PrintEntries, StringText, BytesText, LinkText, IntegerText, Size, SortedKeys;
    P.PrintedDepth(lib, v, depth);
    match v
    case String(text) => StringSize(text); UnfoldSize(text);
    case Bytes(bytes) => BytesSize(bytes);
    case List(items) =>
      var body := PrintItems(lib, items, depth + 1).value;
      InsideSize('[', body, ']');
      ItemsAllocated(lib, items, depth + 1);
    case Map(m) =>
      var keys := SortedKeys(m.Keys);
      var body := PrintEntries(lib, m, keys, depth + 1).value;
      InsideSize('{', body, '}');
      EntriesAllocated(lib, m, keys, depth + 1);
      KeyOrder.BytewiseIsStrictTotal();
      KeyOrder.KeyCount(keys, m.Keys, KeyOrder.Bytewise);
    case _ =>
  }

  lemma UnfoldSize(text: string)
    ensures Size(text) == |Utf8.Encode(text)|
  {
  }

  lemma BytesSize(bytes: seq<Byte>)
    ensures Size(BytesText(bytes)) >= |bytes|
  {
    Base64Size(bytes);
    hide Base64.Encode, Size;
    SizeAtLeast(BytesText(bytes));
  }

  lemma InsideSize(open: char, body: string, close: char)
    ensures Size(body) <= Size([open] + body + [close])
  {
    hide Size;
    SizeConcat([open] + body, [close]);
    SizeConcat([open], body);
  }

  lemma {:induction false} ItemsAllocated(lib: CidLibrary, items: seq<Ipld>, depth: nat)
    requires depth <= MAX_DEPTH + 1 && PrintItems(lib, items, depth).Ok?
    requires Size(PrintItems(lib, items, depth).value) <= ALLOCATION_LIMIT
    ensures |items| <= Size(PrintItems(lib, items, depth).value)
    ensures forall i :: 0 <= i < |items| ==> Allocated(items[i])
    decreases MAX_DEPTH + 1 - depth, 3, |items|
  {
    hide PrintItem, Size, Allocated;
    if items != [] {
      var first := PrintItem(lib, items[0], depth).value;
      var rest := PrintItems(lib, items[1..], depth).value;
      PartSizes(first, Comma(|items| > 1), rest);
      P.PrintedStart(lib, items[0], depth);
      PrintedIsAllocated(lib, items[0], depth);
      ItemsAllocated(lib, items[1..], depth);
      assert forall i :: 1 <= i < |items| ==> items[i] == items[1..][i - 1];
    }
  }

  lemma PartSizes(first: string, comma: string, rest: string)
    ensures Size(first + comma + rest) == Size(first) + Size(comma) + Size(rest)
    ensures first != [] ==> Size(first) >= 1
  {
    hide Size;
    SizeConcat(first + comma, rest);
    SizeConcat(first, comma);
    SizeAtLeast(first);
  }

  lemma {:induction false} EntriesAllocated(lib: CidLibrary, m: map<string, Ipld>, keys: seq<string>, depth: nat)
    requires depth <= MAX_DEPTH + 1 && (forall k :: k in keys ==> k in m) && PrintEntries(lib, m, keys, depth).Ok?
    requires Size(PrintEntries(lib, m, keys, depth).value) <= ALLOCATION_LIMIT
    ensures |keys| <= Size(PrintEntries(lib, m, keys, depth).value)
    ensures forall k :: k in keys ==> |Utf8.Encode(k)| <= ALLOCATION_LIMIT && Allocated(m[k])
    decreases MAX_DEPTH + 1 - depth, 3, |keys|
  {
    hide PrintItem, Size, Allocated, StringText;
    if keys != [] {
      var key := keys[0];
      var value := PrintItem(lib, m[key], depth).value;
      var first := PrintEntry(lib, m, key, depth).value;
      var rest := PrintEntries(lib, m, keys[1..], depth).value;
      PartSizes(first, Comma(|keys| > 1), rest);
      PartSizes(StringText(key), [':'], value);
      StringSize(key);
      UnfoldSize(key);
      PrintedIsAllocated(lib, m[key], depth);
      EntriesAllocated(lib, m, keys[1..], depth);
      assert forall k :: k in keys <==> k == key || k in keys[1..];
    }
  }

  /** A value decoded from text fits in memory when the text does. */
  lemma DecodedIsAllocated(lib: CidLibrary, b: seq<Byte>, v: Ipld)
    requires |b| <= ALLOCATION_LIMIT && Decode(lib, b) == Ok(v)
    ensures Allocated(v)
  {
    hide PrintItem, ReadValue, Allocated, Utf8.Encode, Utf8.Decode;
    PrintedIsAllocated(lib, v, 0);
  }
}
