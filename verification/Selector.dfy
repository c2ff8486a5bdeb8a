/** Selectors: the grammar of their text, the parser, and what a selector finds in a value. */
module Selector {
  import opened Wrappers
  import opened Numerals

  datatype Kind = Key(name: string) | Values | Index(i: I64) | Slice(from: Option<I64>, to: Option<I64>)

  datatype Segment = Segment(kind: Kind, optional: bool)

  datatype SelectorError =
    | Empty
    | MissingLeadingDot
    | DoubleDot
    | TrailingDot
    | DanglingOptional
    | Unexpected(at: nat)
    | UnterminatedString
    | BadEscape
    | BadIndex

  // Characters

  predicate IdentStart(c: char) {
    'a' <= c <= 'z' || 'A' <= c <= 'Z' || c == '_'
  }

  predicate Ident(c: char) {
    IdentStart(c) || Digit(c)
  }

  function EscapedBy(letter: char): Option<char> {
    if letter in ['"', '\\', '/'] then Some(letter)
    else if letter == 'b' then Some('\U{8}')
    else if letter == 'f' then Some('\U{c}')
    else if letter == 'n' then Some('\n')
    else if letter == 'r' then Some('\r')
    else if letter == 't' then Some('\t')
    else None
  }

  // The grammar
  //
  //   selector = "." | part+                      where the first part is dotted
  //   part     = ["."] body "?"*                  where a name is always dotted
  //   body     = name | "[]" | "[" quoted "]" | "[" int "]" | "[" [int] ":" [int] "]"

  datatype QuotedChar = Plain(c: char) | Escape(letter: char) | Code(digits: string) {
    predicate Valid() {
      match this
      case Plain(c) => c != '"' && c != '\\'
      case Escape(letter) => EscapedBy(letter).Some?
      case Code(digits) => |digits| == 4 && Radix16(digits).Some? && Scalar(Radix16(digits).value).Some?
    }

    function Text(): string {
      match this
      case Plain(c) => [c]
      case Escape(letter) => ['\\', letter]
      case Code(digits) => ['\\', 'u'] + digits
    }

    function Meaning(): char
      requires Valid()
    {
      match this
      case Plain(c) => c
      case Escape(letter) => EscapedBy(letter).value
      case Code(digits) => Scalar(Radix16(digits).value).value
    }
  }

  datatype IntText = IntText(minus: bool, digits: string) {
    predicate Valid() {
      && digits != [] && (forall c :: c in digits ==> Digit(c))
      && -0x8000_0000_0000_0000 <= Value() < 0x8000_0000_0000_0000
    }

    function Value(): int
      requires forall c :: c in digits ==> Digit(c)
    {
      var n: int := Decimal(digits);
      if minus then -n else n
    }

    function Text(): string {
      (if minus then "-" else "") + digits
    }
  }

  datatype Body =
    | Name(name: string)
    | AllValues
    | QuotedKey(chars: seq<QuotedChar>)
    | Element(index: IntText)
    | Range(from: Option<IntText>, to: Option<IntText>)
  {
    predicate Valid() {
      match this
      case Name(name) => name != [] && IdentStart(name[0]) && forall c :: c in name ==> Ident(c)
      case AllValues => true
      case QuotedKey(chars) => forall c :: c in chars ==> c.Valid()
      case Element(index) => index.Valid()
      case Range(from, to) => (from.Some? ==> from.value.Valid()) && (to.Some? ==> to.value.Valid())
    }

    function Text(): string {
      match this
      case Name(name) => name
      case AllValues => "[]"
      case QuotedKey(chars) => "[\"" + QuotedText(chars) + "\"]"
      case Element(index) => "[" + index.Text() + "]"
      case Range(from, to) => "[" + OptionalText(from) + ":" + OptionalText(to) + "]"
    }

    function Meaning(): Kind
      requires Valid()
    {
      match this
      case Name(name) => Key(name)
      case AllValues => Values
      case QuotedKey(chars) => Key(QuotedMeaning(chars))
      case Element(index) => Index(index.Value())
      case Range(from, to) => Slice(OptionalValue(from), OptionalValue(to))
    }
  }

  function QuotedText(chars: seq<QuotedChar>): string {
    if chars == [] then "" else chars[0].Text() + QuotedText(chars[1..])
  }

  function QuotedMeaning(chars: seq<QuotedChar>): string
    requires forall c :: c in chars ==> c.Valid()
  {
    if chars == [] then "" else [chars[0].Meaning()] + QuotedMeaning(chars[1..])
  }

  function OptionalText(n: Option<IntText>): string {
    if n.Some? then n.value.Text() else ""
  }

  function OptionalValue(n: Option<IntText>): Option<I64>
    requires n.Some? ==> n.value.Valid()
  {
    if n.Some? then Some(n.value.Value()) else None
  }

  datatype Part = Part(dotted: bool, body: Body, marks: nat) {
    predicate Valid() {
      body.Valid() && (body.Name? ==> dotted)
    }

    function Text(): string {
      (if dotted then "." else "") + body.Text() + Marks(marks)
    }

    function Meaning(): Segment
      requires Valid()
    {
      Segment(body.Meaning(), marks > 0)
    }
  }

  function Marks(n: nat): string {
    if n == 0 then "" else "?" + Marks(n - 1)
  }

  predicate AllValid(parts: seq<Part>) {
    forall p :: p in parts ==> p.Valid()
  }

  function PartsText(parts: seq<Part>): string {
    if parts == [] then "" else parts[0].Text() + PartsText(parts[1..])
  }

  function Meanings(parts: seq<Part>): seq<Segment>
    requires AllValid(parts)
  {
    seq(|parts|, i requires 0 <= i < |parts| => parts[i].Meaning())
  }

  /** `text` is derived by the grammar through `parts`. */
  predicate Derives(parts: seq<Part>, text: string) {
    && AllValid(parts)
    && if parts == [] then text == "." else parts[0].dotted && PartsText(parts) == text
  }

  // The parser, giving the derivation it follows

  function IdentEnd(chars: string, start: nat): (end: nat)
    requires start <= |chars|
    ensures start <= end <= |chars|
    ensures forall i :: start <= i < end ==> Ident(chars[i])
    ensures end < |chars| ==> !Ident(chars[end])
    decreases |chars| - start
  {
    if start < |chars| && Ident(chars[start]) then IdentEnd(chars, start + 1) else start
  }

  predicate CharAt(chars: string, i: nat, c: char) {
    i < |chars| && chars[i] == c
  }

  function ReadInteger(chars: string, start: nat): (r: Result<(Option<IntText>, nat), SelectorError>)
    requires start <= |chars|
    ensures r.Ok? ==> start <= r.value.1 <= |chars| && (r.value.0.Some? ==> r.value.0.value.Valid())
  {
    var minus := CharAt(chars, start, '-');
    var first := if minus then start + 1 else start;
    var end := DigitsEnd(chars, first);
    var n := IntText(minus, chars[first..end]);
    if end == start then Ok((None, end))
    else if first < end && -0x8000_0000_0000_0000 <= n.Value() < 0x8000_0000_0000_0000 then Ok((Some(n), end))
    else Err(BadIndex)
  }

  /** One character of a quoted key, after which `next` is the place to go on. */
  function ReadQuotedChar(chars: string, i: nat): (r: Result<(QuotedChar, nat), SelectorError>)
    requires i < |chars| && chars[i] != '"'
    ensures r.Ok? ==> i < r.value.1 <= |chars| && r.value.0.Valid()
  {
    if chars[i] != '\\' then Ok((Plain(chars[i]), i + 1))
    else if i + 1 < |chars| && EscapedBy(chars[i + 1]).Some? then Ok((Escape(chars[i + 1]), i + 2))
    else if CharAt(chars, i + 1, 'u') && i + 6 <= |chars| && Code(chars[i + 2..i + 6]).Valid() then
      Ok((Code(chars[i + 2..i + 6]), i + 6))
    else Err(BadEscape)
  }

  function ReadQuoted(chars: string, i: nat): (r: Result<(seq<QuotedChar>, nat), SelectorError>)
    requires i <= |chars|
    ensures r.Ok? ==> i < r.value.1 <= |chars| && forall c :: c in r.value.0 ==> c.Valid()
    decreases |chars| - i
  {
    if i == |chars| then Err(UnterminatedString)
    else if chars[i] == '"' then Ok(([], i + 1))
    else
      var (c, next) :- ReadQuotedChar(chars, i);
      var (rest, end) :- ReadQuoted(chars, next);
      Ok(([c] + rest, end))
  }

  /** The inside of `[...]` and the index just past `]`. */
  function ReadBracket(chars: string, start: nat): (r: Result<(Body, nat), SelectorError>)
    requires start <= |chars|
    ensures r.Ok? ==> start < r.value.1 <= |chars| && r.value.0.Valid() && !r.value.0.Name?
  {
    if CharAt(chars, start, ']') then Ok((AllValues, start + 1))
    else if CharAt(chars, start, '"') then
      var (key, next) :- ReadQuoted(chars, start + 1);
      if CharAt(chars, next, ']') then Ok((QuotedKey(key), next + 1)) else Err(Unexpected(next))
    else if start < |chars| && (chars[start] == '-' || chars[start] == ':' || Digit(chars[start])) then
      var (first, i) :- ReadInteger(chars, start);
      if CharAt(chars, i, ':') then
        var (second, next) :- ReadInteger(chars, i + 1);
        if CharAt(chars, next, ']') then Ok((Range(first, second), next + 1)) else Err(Unexpected(next))
      else if first.None? then Err(BadIndex)
      else if CharAt(chars, i, ']') then Ok((Element(first.value), i + 1)) else Err(Unexpected(i))
    else Err(Unexpected(start))
  }

  /** The last part with one more mark. */
  function Mark(parts: seq<Part>): (marked: seq<Part>)
    requires parts != []
    ensures AllValid(parts) ==> AllValid(marked)
  {
    var last := parts[|parts| - 1];
    assert last in parts;
    parts[..|parts| - 1] + [last.(marks := last.marks + 1)]
  }

  /** The parser from `i` on, with the parts read so far; `pending` when a dot waits for its body. */
  function Run(chars: string, i: nat, parts: seq<Part>, pending: bool): (r: Result<seq<Part>, SelectorError>)
    requires i <= |chars| && AllValid(parts)
    ensures r.Ok? ==> AllValid(r.value)
    decreases |chars| - i
  {
    if i == |chars| then
      if pending && parts != [] then Err(TrailingDot) else Ok(parts)
    else if chars[i] == '.' then
      if pending then Err(DoubleDot) else Run(chars, i + 1, parts, true)
    else if chars[i] == '[' then
      var (body, next) :- ReadBracket(chars, i + 1);
      assert Part(pending, body, 0).Valid();
      Run(chars, next, parts + [Part(pending, body, 0)], false)
    else if chars[i] == '?' then
      if pending || parts == [] then Err(DanglingOptional) else Run(chars, i + 1, Mark(parts), false)
    else if IdentStart(chars[i]) then
      if !pending then Err(Unexpected(i))
      else
        var end := IdentEnd(chars, i + 1);
        assert Part(true, Name(chars[i..end]), 0).Valid();
        Run(chars, end, parts + [Part(true, Name(chars[i..end]), 0)], false)
    else Err(Unexpected(i))
  }

  function Tree(text: string): (r: Result<seq<Part>, SelectorError>)
    ensures r.Ok? ==> AllValid(r.value)
  {
    if text == [] then Err(Empty)
    else if text[0] != '.' then Err(MissingLeadingDot)
    else Run(text, 1, [], true)
  }

  function ParseText(text: string): Result<seq<Segment>, SelectorError> {
    var parts :- Tree(text);
    Ok(Meanings(parts))
  }

  // The parser follows the grammar

  lemma ReadIntegerFollows(chars: string, start: nat)
    requires start <= |chars| && ReadInteger(chars, start).Ok?
    ensures var (n, end) := ReadInteger(chars, start).value;
            At(chars, start, OptionalText(n)) && end == start + |OptionalText(n)|
  {
    var (n, end) := ReadInteger(chars, start).value;
    if n.Some? && n.value.minus {
      assert chars[start..end] == "-" + chars[start + 1..end];
    }
  }

  /** An integer is read back when no digit follows it. */
  lemma IntegerIsRead(chars: string, start: nat, n: Option<IntText>)
    requires (n.Some? ==> n.value.Valid()) && At(chars, start, OptionalText(n))
    requires var end := start + |OptionalText(n)|; end < |chars| && !Digit(chars[end]) && chars[end] != '-'
    ensures ReadInteger(chars, start) == Ok((n, start + |OptionalText(n)|))
  {
    hide DigitsEnd, Decimal, At;
    if n.Some? {
      var IntText(minus, digits) := n.value;
      var sign := if minus then "-" else "";
      AtSplit(chars, start, sign, digits);
      DigitsAreRead(chars, start + |sign|, digits);
      AtHead(chars, start, sign);
      assert minus ==> chars[start + 0] == sign[0];
      assert n.value == IntText(minus, chars[start + |sign|..start + |sign| + |digits|]);
    } else {
      assert At(chars, start, "") by { AtSplit(chars, start, "", ""); }
      DigitsAreRead(chars, start, "");
    }
  }

  lemma {:induction false} IdentStop(chars: string, start: nat, end: nat)
    requires start <= end <= |chars| && (end < |chars| ==> !Ident(chars[end]))
    requires forall i :: start <= i < end ==> Ident(chars[i])
    ensures IdentEnd(chars, start) == end
    decreases |chars| - start
  {
    if start < end { IdentStop(chars, start + 1, end); }
  }

  lemma ReadQuotedCharFollows(chars: string, i: nat)
    requires i < |chars| && chars[i] != '"' && ReadQuotedChar(chars, i).Ok?
    ensures var (c, next) := ReadQuotedChar(chars, i).value; At(chars, i, c.Text()) && next == i + |c.Text()|
  {
    if chars[i] == '\\' {
      assert chars[i..i + 2] == ['\\', chars[i + 1]];
      if chars[i + 1] == 'u' {
        assert chars[i..i + 6] == chars[i..i + 2] + chars[i + 2..i + 6];
      }
    }
  }

  lemma QuotedCharIsRead(chars: string, i: nat, c: QuotedChar)
    requires c.Valid() && At(chars, i, c.Text())
    ensures i < |chars| && chars[i] != '"' && ReadQuotedChar(chars, i) == Ok((c, i + |c.Text()|))
  {
    AtHead(chars, i, c.Text());
    assert chars[i] == c.Text()[0];
    if !c.Plain? {
      assert chars[i + 1] == c.Text()[1];
      if c.Code? {
        AtSplit(chars, i, ['\\', 'u'], c.digits);
      }
    }
  }

  lemma {:induction false} ReadQuotedFollows(chars: string, i: nat)
    requires i <= |chars| && ReadQuoted(chars, i).Ok?
    ensures var (key, end) := ReadQuoted(chars, i).value;
            At(chars, i, QuotedText(key) + "\"") && end == i + |QuotedText(key)| + 1
    decreases |chars| - i
  {
    hide ReadQuotedChar, QuotedChar.Valid, QuotedChar.Text;
    var (key, end) := ReadQuoted(chars, i).value;
    if chars[i] != '"' {
      var (c, next) := ReadQuotedChar(chars, i).value;
      ReadQuotedCharFollows(chars, i);
      ReadQuotedFollows(chars, next);
      var rest := ReadQuoted(chars, next).value.0;
      assert key[1..] == rest;
      AtSplit(chars, i, c.Text(), QuotedText(rest) + "\"");
      assert c.Text() + (QuotedText(rest) + "\"") == QuotedText(key) + "\"";
    }
  }

  lemma {:induction false} QuotedIsRead(chars: string, i: nat, key: seq<QuotedChar>)
    requires (forall c :: c in key ==> c.Valid()) && At(chars, i, QuotedText(key) + "\"")
    ensures ReadQuoted(chars, i) == Ok((key, i + |QuotedText(key)| + 1))
    decreases |key|
  {
    hide ReadQuotedChar, QuotedChar.Valid, QuotedChar.Text;
    if key == [] {
      AtHead(chars, i, "\"");
      assert chars[i] == "\""[0];
    } else {
      var rest := key[1..];
      assert QuotedText(key) + "\"" == key[0].Text() + (QuotedText(rest) + "\"");
      AtSplit(chars, i, key[0].Text(), QuotedText(rest) + "\"");
      QuotedCharIsRead(chars, i, key[0]);
      QuotedIsRead(chars, i + |key[0].Text()|, rest);
      assert key == [key[0]] + rest;
    }
  }

  /** `open` and then the text is what stands from the opening bracket on. */
  lemma Joined(chars: string, pos: nat, a: string, b: string, c: string)
    requires At(chars, pos, a) && At(chars, pos + |a|, b) && At(chars, pos + |a| + |b|, c)
    ensures At(chars, pos, a + b + c)
  {
    AtSplit(chars, pos, a, b);
    AtSplit(chars, pos, a + b, c);
  }

  lemma ReadBracketFollows(chars: string, i: nat)
    requires i < |chars| && chars[i] == '[' && ReadBracket(chars, i + 1).Ok?
    ensures var (body, end) := ReadBracket(chars, i + 1).value;
            At(chars, i, body.Text()) && end == i + |body.Text()|
  {
    hide ReadInteger, ReadQuoted, Body.Valid, OptionalText, IntText.Text, At, QuotedText;
    var (body, end) := ReadBracket(chars, i + 1).value;
    OneChar(chars, i);
    OneChar(chars, end - 1);
    match body
    case AllValues =>
      assert "[" + "]" == "[]";
      AtSplit(chars, i, "[", "]");
    case QuotedKey(key) => ReadKeyFollows(chars, i, key, end);
    case Element(n) =>
      ReadIntegerFollows(chars, i + 1);
      PresentText(n);
      assert end == i + 1 + |n.Text()| + 1;
      Joined(chars, i, "[", n.Text(), "]");
    case Range(from, to) => ReadRangeFollows(chars, i, from, to, end);
  }

  lemma OneChar(chars: string, i: nat)
    requires i < |chars|
    ensures At(chars, i, [chars[i]])
  {
  }

  lemma ReadKeyFollows(chars: string, i: nat, key: seq<QuotedChar>, end: nat)
    requires i + 1 < |chars| && chars[i] == '[' && chars[i + 1] == '"'
    requires ReadQuoted(chars, i + 2) == Ok((key, end - 1)) && CharAt(chars, end - 1, ']')
    ensures At(chars, i, QuotedKey(key).Text()) && end == i + |QuotedKey(key).Text()|
  {
    hide ReadQuoted, QuotedText;
    ReadQuotedFollows(chars, i + 2);
    assert "[\"" + (QuotedText(key) + "\"") + "]" == QuotedKey(key).Text();
    assert chars[i..i + 2] == "[\"";
    Joined(chars, i, "[\"", QuotedText(key) + "\"", "]");
  }

  lemma ReadRangeFollows(chars: string, i: nat, from: Option<IntText>, to: Option<IntText>, end: nat)
    requires i < |chars| && chars[i] == '[' && ReadInteger(chars, i + 1).Ok?
    requires var (n, mid) := ReadInteger(chars, i + 1).value;
             n == from && CharAt(chars, mid, ':') && ReadInteger(chars, mid + 1) == Ok((to, end - 1))
    requires end > 0 && CharAt(chars, end - 1, ']')
    ensures At(chars, i, Range(from, to).Text()) && end == i + |Range(from, to).Text()|
  {
    hide ReadInteger, OptionalText;
    ReadIntegerFollows(chars, i + 1);
    var mid := i + 1 + |OptionalText(from)|;
    ReadIntegerFollows(chars, mid + 1);
    OneChar(chars, i);
    OneChar(chars, mid);
    OneChar(chars, end - 1);
    hide At;
    Joined(chars, i, "[", OptionalText(from), ":");
    Joined(chars, i, "[" + OptionalText(from) + ":", OptionalText(to), "]");
  }

  lemma PresentText(n: IntText)
    ensures OptionalText(Some(n)) == n.Text()
  {
  }

  lemma BracketIsRead(chars: string, i: nat, body: Body)
    requires body.Valid() && !body.Name? && At(chars, i, body.Text())
    ensures CharAt(chars, i, '[') && ReadBracket(chars, i + 1) == Ok((body, i + |body.Text()|))
  {
    hide ReadInteger, ReadQuoted, OptionalText, IntText.Text, IntText.Valid, QuotedChar.Valid;
    AtHead(chars, i, body.Text());
    assert chars[i] == body.Text()[0];
    match body
    case AllValues => assert chars[i + 1] == body.Text()[1];
    case QuotedKey(key) => KeyIsRead(chars, i, key);
    case Element(n) => ElementIsRead(chars, i, n);
    case Range(from, to) => RangeIsRead(chars, i, from, to);
  }

  lemma KeyIsRead(chars: string, i: nat, key: seq<QuotedChar>)
    requires (forall c :: c in key ==> c.Valid()) && At(chars, i, QuotedKey(key).Text())
    ensures i + 1 < |chars| && ReadBracket(chars, i + 1) == Ok((QuotedKey(key), i + |QuotedKey(key).Text()|))
  {
    hide ReadQuoted, QuotedText, ReadInteger;
    var text := QuotedKey(key).Text();
    AtHead(chars, i, text);
    assert chars[i + 1] == text[1];
    assert "[\"" + (QuotedText(key) + "\"") + "]" == text;
    AtSplit(chars, i, "[\"" + (QuotedText(key) + "\""), "]");
    AtSplit(chars, i, "[\"", QuotedText(key) + "\"");
    QuotedIsRead(chars, i + 2, key);
    LastChar(chars, i, text);
  }

  lemma ElementIsRead(chars: string, i: nat, n: IntText)
    requires n.Valid() && At(chars, i, Element(n).Text())
    ensures i + 1 < |chars| && ReadBracket(chars, i + 1) == Ok((Element(n), i + |Element(n).Text()|))
  {
    hide ReadQuoted, ReadInteger, OptionalText, IntText.Text, IntText.Valid;
    PresentText(n);
    AtSplit(chars, i, "[" + n.Text(), "]");
    AtSplit(chars, i, "[", n.Text());
    LastChar(chars, i, Element(n).Text());
    IntegerIsRead(chars, i + 1, Some(n));
    IntegerStart(chars, i + 1, n);
  }

  lemma RangeIsRead(chars: string, i: nat, from: Option<IntText>, to: Option<IntText>)
    requires Range(from, to).Valid() && At(chars, i, Range(from, to).Text())
    ensures i + 1 < |chars| && ReadBracket(chars, i + 1) == Ok((Range(from, to), i + |Range(from, to).Text()|))
  {
    hide ReadQuoted, ReadInteger, OptionalText, IntText.Text, IntText.Valid;
    var left := "[" + OptionalText(from) + ":";
    AtSplit(chars, i, left + OptionalText(to), "]");
    AtSplit(chars, i, left, OptionalText(to));
    AtSplit(chars, i, "[" + OptionalText(from), ":");
    AtSplit(chars, i, "[", OptionalText(from));
    LastChar(chars, i, Range(from, to).Text());
    LastChar(chars, i, left);
    IntegerIsRead(chars, i + 1, from);
    IntegerIsRead(chars, i + |left|, to);
    if from.Some? { PresentText(from.value); IntegerStart(chars, i + 1, from.value); } else { NoText(); }
  }

  lemma NoText()
    ensures OptionalText(None) == ""
  {
  }

  lemma LastChar(chars: string, pos: nat, text: string)
    requires At(chars, pos, text) && text != []
    ensures chars[pos + |text| - 1] == text[|text| - 1]
  {
    AtHead(chars, pos, text);
    assert chars[pos + (|text| - 1)] == text[|text| - 1];
  }

  lemma IntegerStart(chars: string, pos: nat, n: IntText)
    requires n.Valid() && At(chars, pos, n.Text())
    ensures pos < |chars| && (chars[pos] == '-' || Digit(chars[pos]))
  {
    AtHead(chars, pos, n.Text());
    assert chars[pos] == n.Text()[0] && n.digits[0] in n.digits;
  }

  // From the helpers to the whole parser

  /** The text behind the parser. */
  ghost function Consumed(parts: seq<Part>, pending: bool): string {
    PartsText(parts) + if pending then "." else ""
  }

  lemma {:induction false} PartsTextAppend(parts: seq<Part>, p: Part)
    ensures PartsText(parts + [p]) == PartsText(parts) + p.Text()
  {
    hide Part.Text;
    if parts == [] {
      assert [p][1..] == [] && [p] == [] + [p];
    } else {
      PartsTextAppend(parts[1..], p);
      assert (parts + [p])[1..] == parts[1..] + [p];
    }
  }

  lemma {:induction false} MarksAppend(n: nat)
    ensures Marks(n + 1) == Marks(n) + "?"
  {
    if n > 0 { MarksAppend(n - 1); }
  }

  lemma MarkText(parts: seq<Part>)
    requires parts != []
    ensures PartsText(Mark(parts)) == PartsText(parts) + "?"
  {
    hide PartsText;
    var front, last := parts[..|parts| - 1], parts[|parts| - 1];
    assert parts == front + [last];
    PartsTextAppend(front, last);
    PartsTextAppend(front, last.(marks := last.marks + 1));
    MarksAppend(last.marks);
  }

  lemma BodyText(parts: seq<Part>, pending: bool, body: Body)
    ensures PartsText(parts + [Part(pending, body, 0)]) == Consumed(parts, pending) + body.Text()
  {
    hide PartsText, Body.Text;
    PartsTextAppend(parts, Part(pending, body, 0));
    assert Part(pending, body, 0).Text() == (if pending then "." else "") + body.Text();
  }

  /** One turn of the parser. */
  lemma RunStep(chars: string, i: nat, parts: seq<Part>, pending: bool)
    requires i <= |chars| && AllValid(parts) && Run(chars, i, parts, pending).Ok?
    ensures i == |chars| ==> (pending ==> parts == []) && Run(chars, i, parts, pending) == Ok(parts)
    ensures i < |chars| ==>
              || (chars[i] == '.' && !pending && Run(chars, i, parts, pending) == Run(chars, i + 1, parts, true))
              || (chars[i] == '[' && ReadBracket(chars, i + 1).Ok?
                  && var (body, next) := ReadBracket(chars, i + 1).value;
                     Run(chars, i, parts, pending) == Run(chars, next, parts + [Part(pending, body, 0)], false))
              || (chars[i] == '?' && !pending && parts != []
                  && Run(chars, i, parts, pending) == Run(chars, i + 1, Mark(parts), false))
              || (IdentStart(chars[i]) && pending
                  && var end := IdentEnd(chars, i + 1);
                     Run(chars, i, parts, pending)
                     == Run(chars, end, parts + [Part(true, Name(chars[i..end]), 0)], false))
  {
    hide ReadBracket, IdentEnd, Mark;
  }

  /** The parts the parser builds are a derivation of the text. */
  lemma {:induction false} RunFollows(chars: string, i: nat, parts: seq<Part>, pending: bool)
    requires i <= |chars| && AllValid(parts) && Run(chars, i, parts, pending).Ok?
    requires chars[..i] == Consumed(parts, pending) && (if parts == [] then pending else parts[0].dotted)
    ensures Derives(Run(chars, i, parts, pending).value, chars)
    decreases |chars| - i
  {
    hide Run, ReadBracket, IdentEnd, PartsText, Mark, Body.Valid, Body.Text;
    RunStep(chars, i, parts, pending);
    if i == |chars| {
      NothingYet();
      assert chars[..i] == chars;
    } else {
      assert chars[..i + 1] == chars[..i] + [chars[i]];
      if chars[i] == '.' {
        RunFollows(chars, i + 1, parts, true);
      } else if chars[i] == '[' {
        var (body, next) := ReadBracket(chars, i + 1).value;
        ReadBracketFollows(chars, i);
        BodyText(parts, pending, body);
        assert chars[..next] == chars[..i] + chars[i..next];
        RunFollows(chars, next, parts + [Part(pending, body, 0)], false);
      } else if chars[i] == '?' {
        MarkText(parts);
        MarkKeepsFirst(parts);
        assert Consumed(Mark(parts), false) == Consumed(parts, false) + "?";
        RunFollows(chars, i + 1, Mark(parts), false);
      } else {
        var end := IdentEnd(chars, i + 1);
        NameValid(chars, i);
        BodyText(parts, true, Name(chars[i..end]));
        assert chars[..end] == chars[..i] + chars[i..end];
        RunFollows(chars, end, parts + [Part(true, Name(chars[i..end]), 0)], false);
      }
    }
  }

  lemma NameValid(chars: string, i: nat)
    requires i < |chars| && IdentStart(chars[i])
    ensures Name(chars[i..IdentEnd(chars, i + 1)]).Valid()
    ensures Name(chars[i..IdentEnd(chars, i + 1)]).Text() == chars[i..IdentEnd(chars, i + 1)]
  {
    hide IdentEnd;
  }

  lemma NothingYet()
    ensures PartsText([]) == ""
  {
  }

  lemma MarkKeepsFirst(parts: seq<Part>)
    requires parts != []
    ensures Mark(parts) != [] && Mark(parts)[0].dotted == parts[0].dotted
  {
  }

  /** What a part opens with, and so what can follow the part before it. */
  lemma RestOpens(chars: string, i: nat, marks: nat, rest: seq<Part>)
    requires AllValid(rest) && At(chars, i, Marks(marks)) && At(chars, i + marks, PartsText(rest))
    requires |Marks(marks)| == marks && i + marks + |PartsText(rest)| == |chars|
    ensures i < |chars| ==> chars[i] in ['?', '.', '[']
  {
    AtHead(chars, i, Marks(marks));
    AtHead(chars, i + marks, PartsText(rest));
    hide At;
    if marks > 0 {
      assert chars[i + 0] == Marks(marks)[0];
    } else if rest != [] {
      assert rest[0].Valid();
      PartStart(rest[0]);
      hide Part.Text, Part.Valid;
      assert chars[i + 0] == PartsText(rest)[0];
    }
  }

  lemma PartStart(p: Part)
    requires p.Valid()
    ensures p.Text() != [] && p.Text()[0] in ['.', '[']
  {
  }

  lemma {:induction false} MarksCount(n: nat)
    ensures |Marks(n)| == n
  {
    if n > 0 { MarksCount(n - 1); }
  }

  lemma BodyIsRead(chars: string, i: nat, done: seq<Part>, pending: bool, body: Body)
    requires AllValid(done) && body.Valid() && (body.Name? ==> pending) && At(chars, i, body.Text())
    requires var end := i + |body.Text()|; end < |chars| ==> chars[end] in ['?', '.', '[']
    ensures Run(chars, i, done, pending)
         == Run(chars, i + |body.Text()|, done + [Part(pending, body, 0)], false)
  {
    hide ReadBracket, IdentEnd, Ident, IdentStart, Run, At, Body.Text, Body.Valid, AllValid;
    if body.Name? {
      NameText(body.name);
      NameIsRead(chars, i, body.name);
      RunName(chars, i, done);
    } else {
      BracketIsRead(chars, i, body);
      RunBracket(chars, i, done, pending);
    }
  }

  lemma RunName(chars: string, i: nat, done: seq<Part>)
    requires i < |chars| && IdentStart(chars[i]) && AllValid(done)
    ensures var end := IdentEnd(chars, i + 1);
            var named := done + [Part(true, Name(chars[i..end]), 0)];
            AllValid(named) && Run(chars, i, done, true) == Run(chars, end, named, false)
  {
    hide ReadBracket, Mark;
    NameValid(chars, i);
  }

  lemma RunBracket(chars: string, i: nat, done: seq<Part>, pending: bool)
    requires i < |chars| && chars[i] == '[' && AllValid(done) && ReadBracket(chars, i + 1).Ok?
    ensures var (body, next) := ReadBracket(chars, i + 1).value;
            Run(chars, i, done, pending) == Run(chars, next, done + [Part(pending, body, 0)], false)
  {
    hide ReadBracket, IdentEnd, Mark;
  }

  lemma NameText(name: string)
    ensures Name(name).Text() == name
  {
  }

  lemma NameIsRead(chars: string, i: nat, name: string)
    requires Name(name).Valid() && At(chars, i, name)
    requires i + |name| < |chars| ==> chars[i + |name|] in ['?', '.', '[']
    ensures i < |chars| && IdentStart(chars[i]) && IdentEnd(chars, i + 1) == i + |name|
    ensures chars[i..i + |name|] == name
  {
    AtHead(chars, i, name);
    assert chars[i + 0] == name[0];
    forall j | i <= j < i + |name| ensures Ident(chars[j]) {
      assert chars[i + (j - i)] == name[j - i] && name[j - i] in name;
    }
    IdentStop(chars, i + 1, i + |name|);
  }

  lemma {:induction false} MarksAreRead(chars: string, i: nat, done: seq<Part>, p: Part, n: nat)
    requires AllValid(done) && p.Valid() && At(chars, i, Marks(n))
    ensures i + n <= |chars|
    ensures Run(chars, i, done + [p], false) == Run(chars, i + n, done + [p.(marks := p.marks + n)], false)
    decreases n
  {
    MarksCount(n);
    if n > 0 {
      AtHead(chars, i, Marks(n));
      assert chars[i + 0] == Marks(n)[0];
      AtSplit(chars, i, "?", Marks(n - 1));
      assert Mark(done + [p]) == done + [p.(marks := p.marks + 1)];
      assert p.(marks := p.marks + 1).Valid();
      MarksAreRead(chars, i + 1, done, p.(marks := p.marks + 1), n - 1);
    }
  }

  /** Every part of a derivation is read back. `pending` when the dot of the next part is already taken. */
  lemma {:induction false} PartsAreRead(chars: string, i: nat, done: seq<Part>, p: Part, rest: seq<Part>)
    requires AllValid(done) && p.Valid() && AllValid(rest)
    requires var text := p.body.Text() + Marks(p.marks);
             At(chars, i, text) && At(chars, i + |text|, PartsText(rest)) && i + |text| + |PartsText(rest)| == |chars|
    ensures Run(chars, i, done, p.dotted) == Ok(done + [p] + rest)
    decreases |rest|
  {
    hide Run, PartsText, Body.Valid, Body.Text, Marks, Part.Text, At;
    var j := i + |p.body.Text()|;
    MarksCount(p.marks);
    AtSplit(chars, i, p.body.Text(), Marks(p.marks));
    RestOpens(chars, j, p.marks, rest);
    BodyIsRead(chars, i, done, p.dotted, p.body);
    var bare := Part(p.dotted, p.body, 0);
    MarksAreRead(chars, j, done, bare, p.marks);
    assert bare.(marks := 0 + p.marks) == p;
    var next := j + p.marks;
    if rest == [] {
      NothingYet();
      RunEnds(chars, done + [p]);
      assert done + [p] + rest == done + [p];
    } else {
      var q, tail := rest[0], rest[1..];
      assert rest == [q] + tail && q.Valid();
      UnfoldParts(rest);
      PartOpens(chars, next, q, tail);
      if q.dotted {
        RunDot(chars, next, done + [p]);
        PartsAreRead(chars, next + 1, done + [p], q, tail);
      } else {
        PartsAreRead(chars, next, done + [p], q, tail);
      }
      assert done + [p] + rest == done + [p] + [q] + tail;
    }
  }

  lemma PartOpens(chars: string, i: nat, q: Part, tail: seq<Part>)
    requires At(chars, i, q.Text() + PartsText(tail))
    ensures var text, start := q.body.Text() + Marks(q.marks), if q.dotted then i + 1 else i;
            && (q.dotted ==> CharAt(chars, i, '.')) && |q.Text()| == start - i + |text|
            && At(chars, start, text) && At(chars, start + |text|, PartsText(tail))
  {
    hide Body.Text, Marks, PartsText, At;
    var text := q.body.Text() + Marks(q.marks);
    AtSplit(chars, i, q.Text(), PartsText(tail));
    if q.dotted {
      assert q.Text() == "." + text;
      AtSplit(chars, i, ".", text);
      FirstIn(chars, i, ".");
    } else {
      assert q.Text() == text;
    }
  }

  lemma FirstIn(chars: string, i: nat, text: string)
    requires At(chars, i, text) && text != []
    ensures i < |chars| && chars[i] == text[0]
  {
    AtHead(chars, i, text);
    assert chars[i + 0] == text[0];
  }

  lemma UnfoldParts(parts: seq<Part>)
    requires parts != []
    ensures PartsText(parts) == parts[0].Text() + PartsText(parts[1..])
  {
  }

  lemma RunEnds(chars: string, parts: seq<Part>)
    requires AllValid(parts)
    ensures Run(chars, |chars|, parts, false) == Ok(parts)
  {
  }

  lemma RunDot(chars: string, i: nat, parts: seq<Part>)
    requires i < |chars| && chars[i] == '.' && AllValid(parts)
    ensures Run(chars, i, parts, false) == Run(chars, i + 1, parts, true)
  {
  }

  /** The parser accepts exactly the texts the grammar derives, and a text has one derivation. */
  lemma TreeExactlyDerives(text: string, parts: seq<Part>)
    ensures Tree(text) == Ok(parts) <==> Derives(parts, text)
  {
    hide Run, Part.Valid, Part.Text;
    if Tree(text).Ok? {
      NothingYet();
      assert text[..1] == Consumed([], true);
      RunFollows(text, 1, [], true);
    }
    if Derives(parts, text) {
      if parts == [] {
        assert Tree(".") == Ok([]) by { OnlyDot(); }
      } else {
        DerivedIsRead(text, parts);
      }
    }
  }

  lemma OnlyDot()
    ensures Run(".", 1, [], true) == Ok([])
  {
  }

  lemma DerivedIsRead(text: string, parts: seq<Part>)
    requires Derives(parts, text) && parts != []
    ensures Tree(text) == Ok(parts)
  {
    hide Run, Marks, Body.Text, Part.Valid, AllValid, PartsText, Derives, At;
    var p, tail := parts[0], parts[1..];
    DerivedText(text, parts);
    var body := p.body.Text() + Marks(p.marks);
    WholeText(text);
    AtSplit(text, 0, "." + body, PartsText(tail));
    AtSplit(text, 0, ".", body);
    FirstIn(text, 0, ".");
    PartsAreRead(text, 1, [], p, tail);
    assert [] + [p] + tail == parts;
  }

  lemma DerivedText(text: string, parts: seq<Part>)
    requires Derives(parts, text) && parts != []
    ensures var p, tail := parts[0], parts[1..];
            && p.Valid() && p.dotted && AllValid([]) && AllValid(tail)
            && text == "." + (p.body.Text() + Marks(p.marks)) + PartsText(tail)
  {
    hide Marks, Body.Text, Body.Valid, PartsText;
    var p := parts[0];
    assert p in parts;
    UnfoldParts(parts);
    assert p.Text() == "." + (p.body.Text() + Marks(p.marks));
  }

  lemma WholeText(text: string)
    ensures At(text, 0, text)
  {
  }

  /** A selector text means what its one derivation means. */
  lemma ParseExactlyDerived(text: string, segments: seq<Segment>)
    ensures ParseText(text) == Ok(segments)
       <==> exists parts :: Derives(parts, text) && Meanings(parts) == segments
  {
    hide Run, Tree;
    if ParseText(text) == Ok(segments) {
      TreeExactlyDerives(text, Tree(text).value);
    }
    if parts :| Derives(parts, text) && Meanings(parts) == segments {
      TreeExactlyDerives(text, parts);
    }
  }
}
