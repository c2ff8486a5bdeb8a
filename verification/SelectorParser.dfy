/** The selector parser as the code runs it, against the grammar's parser. */
module SelectorParser {
  import opened Wrappers
  import opened Numerals
  import opened Selector

  datatype Parsed = Parsed(text: string, segments: seq<Segment>)

  /** `str::parse::<i64>` on an optional minus and digits. */
  function ParseI64(text: string): Option<I64> {
    var minus := text != [] && text[0] == '-';
    var digits := if minus then text[1..] else text;
    if digits == [] || exists c :: c in digits && !Digit(c) then None
    else
      var n := IntText(minus, digits).Value();
      if -0x8000_0000_0000_0000 <= n < 0x8000_0000_0000_0000 then Some(n) else None
  }

  lemma DigitStep(chars: string, i: nat)
    requires i <= |chars|
    ensures DigitsEnd(chars, i) == if i < |chars| && Digit(chars[i]) then DigitsEnd(chars, i + 1) else i
  {
  }

  /** What the loop has gathered is what the grammar's integer is made of. */
  lemma GatheredInteger(chars: string, start: nat, first: nat, end: nat, text: string)
    requires start <= |chars| && first == (if CharAt(chars, start, '-') then start + 1 else start)
    requires end == DigitsEnd(chars, first)
    requires text == (if first > start then "-" else "") + chars[first..end]
    ensures text == "" ==> ReadInteger(chars, start) == Ok((None, end))
    ensures text != "" ==>
              match ParseI64(text)
              case Some(n) =>
                && ReadInteger(chars, start).Ok? && ReadInteger(chars, start).value.1 == end
                && ReadInteger(chars, start).value.0.Some?
                && OptionalValue(ReadInteger(chars, start).value.0) == Some(n)
              case None => ReadInteger(chars, start) == Err(BadIndex)
  {
    hide DigitsEnd, IntText.Value, ParseI64, Digit;
    var digits := chars[first..end];
    forall c | c in digits ensures Digit(c) {
      var k :| 0 <= k < |digits| && digits[k] == c;
      assert digits[k] == chars[first + k];
    }
    if first > start {
      assert text == ['-'] + digits;
      ParseGathered(true, digits, text);
    } else {
      assert text == digits;
      if text != "" { ParseGathered(false, digits, text); }
    }
  }

  lemma ParseGathered(minus: bool, digits: string, text: string)
    requires text == (if minus then ['-'] + digits else digits) && text != []
    requires forall c :: c in digits ==> Digit(c)
    ensures ParseI64(text) ==
            if digits == [] then None
            else
              var n := IntText(minus, digits).Value();
              if -0x8000_0000_0000_0000 <= n < 0x8000_0000_0000_0000 then Some(n) else None
  {
    hide Decimal;
    if minus {
      assert text[1..] == digits;
    } else {
      assert digits[0] in digits;
    }
  }

  method Integer(chars: string, start: nat) returns (r: Result<(Option<I64>, nat), SelectorError>)
    requires start <= |chars|
    ensures match ReadInteger(chars, start)
            case Ok((n, end)) => (n.Some? ==> n.value.Valid()) && r == Ok((OptionalValue(n), end))
            case Err(e) => r == Err(e)
  {
    hide DigitsEnd, Decimal, ParseI64, ReadInteger;
    var text := "";
    var i := start;
    if i < |chars| && chars[i] == '-' {
      text := text + "-";
      i := i + 1;
    }
    ghost var first := i;
    while i < |chars| && Digit(chars[i])
      invariant first <= i <= |chars| && DigitsEnd(chars, first) == DigitsEnd(chars, i)
      invariant text == (if first > start then "-" else "") + chars[first..i]
    {
      DigitStep(chars, i);
      text := text + [chars[i]];
      i := i + 1;
    }
    DigitStep(chars, i);
    GatheredInteger(chars, start, first, i, text);
    if text == "" { return Ok((None, i)); }
    match ParseI64(text) {
      case Some(n) => return Ok((Some(n), i));
      case None => return Err(BadIndex);
    }
  }

  method Escaped(chars: string, backslash: nat) returns (r: Result<(char, nat), SelectorError>)
    requires backslash < |chars| && chars[backslash] == '\\'
    ensures match ReadQuotedChar(chars, backslash)
            case Ok((c, next)) => r == Ok((c.Meaning(), next))
            case Err(e) => r == Err(e)
  {
    var i := backslash + 1;
    if i >= |chars| { return Err(BadEscape); }
    if chars[i] == 'u' {
      if i + 5 > |chars| { return Err(BadEscape); }
      var hex := chars[i + 1..i + 5];
      var code := Radix16(hex);
      if code.None? { return Err(BadEscape); }
      var c := Scalar(code.value);
      if c.None? { return Err(BadEscape); }
      return Ok((c.value, i + 5));
    }
    var c := EscapedBy(chars[i]);
    if c.None? { return Err(BadEscape); }
    return Ok((c.value, i + 1));
  }

  lemma QuotedAppend(chars: seq<QuotedChar>, c: QuotedChar)
    requires c.Valid() && forall x :: x in chars ==> x.Valid()
    ensures QuotedMeaning(chars + [c]) == QuotedMeaning(chars) + [c.Meaning()]
  {
    hide QuotedChar.Valid, QuotedChar.Meaning;
    if chars == [] {
      assert [c][1..] == [];
    } else {
      QuotedAppend(chars[1..], c);
      assert (chars + [c])[1..] == chars[1..] + [c];
    }
  }

  method Quoted(chars: string, start: nat) returns (r: Result<(string, nat), SelectorError>)
    requires start <= |chars|
    ensures match ReadQuoted(chars, start)
            case Ok((key, end)) => (forall c :: c in key ==> c.Valid()) && r == Ok((QuotedMeaning(key), end))
            case Err(e) => r == Err(e)
  {
    hide ReadQuotedChar, QuotedChar.Valid, QuotedChar.Meaning;
    var out := "";
    var i := start;
    ghost var done: seq<QuotedChar> := [];
    assert forall rest: seq<QuotedChar> :: done + rest == rest;
    while true
      invariant start <= i <= |chars| && (forall c :: c in done ==> c.Valid()) && out == QuotedMeaning(done)
      invariant match ReadQuoted(chars, i)
                case Ok((rest, end)) => ReadQuoted(chars, start) == Ok((done + rest, end))
                case Err(e) => ReadQuoted(chars, start) == Err(e)
      decreases |chars| - i
    {
      if i >= |chars| { return Err(UnterminatedString); }
      if chars[i] == '"' {
        assert done + [] == done;
        return Ok((out, i + 1));
      }
      ghost var read := ReadQuotedChar(chars, i);
      ghost var before := done;
      if read.Ok? {
        QuotedAppend(done, read.value.0);
        done := done + [read.value.0];
        assert forall rest: seq<QuotedChar> :: done + rest == before + ([read.value.0] + rest);
      }
      if chars[i] == '\\' {
        var escaped :- Escaped(chars, i);
        out := out + [escaped.0];
        i := escaped.1;
      } else {
        PlainChar(chars, i);
        out := out + [chars[i]];
        i := i + 1;
      }
    }
  }

  lemma PlainChar(chars: string, i: nat)
    requires i < |chars| && chars[i] != '"' && chars[i] != '\\'
    ensures ReadQuotedChar(chars, i) == Ok((Plain(chars[i]), i + 1))
    ensures Plain(chars[i]).Valid() && Plain(chars[i]).Meaning() == chars[i]
  {
  }

  method Bracket(chars: string, start: nat) returns (r: Result<(Kind, nat), SelectorError>)
    requires start <= |chars|
    ensures match ReadBracket(chars, start)
            case Ok((body, end)) => r == Ok((body.Meaning(), end))
            case Err(e) => r == Err(e)
  {
    hide ReadInteger, ReadQuoted, IntText.Valid, IntText.Value, QuotedChar.Valid, QuotedMeaning;
    if CharAt(chars, start, ']') { return Ok((Values, start + 1)); }
    if CharAt(chars, start, '"') {
      var key :- Quoted(chars, start + 1);
      if CharAt(chars, key.1, ']') { return Ok((Key(key.0), key.1 + 1)); }
      return Err(Unexpected(key.1));
    }
    if start < |chars| && (chars[start] == '-' || chars[start] == ':' || Digit(chars[start])) {
      var first :- Integer(chars, start);
      var i := first.1;
      var kind: Kind;
      if CharAt(chars, i, ':') {
        var second :- Integer(chars, i + 1);
        i := second.1;
        kind := Slice(first.0, second.0);
      } else {
        if first.0.None? { return Err(BadIndex); }
        kind := Index(first.0.value);
      }
      if CharAt(chars, i, ']') { return Ok((kind, i + 1)); }
      return Err(Unexpected(i));
    }
    return Err(Unexpected(start));
  }

  lemma MeaningsAppend(parts: seq<Part>, p: Part)
    requires AllValid(parts) && p.Valid()
    ensures AllValid(parts + [p]) && Meanings(parts + [p]) == Meanings(parts) + [p.Meaning()]
  {
  }

  lemma MeaningsMark(parts: seq<Part>)
    requires AllValid(parts) && parts != []
    ensures var segments := Meanings(parts);
            var last := segments[|segments| - 1];
            Meanings(Mark(parts)) == segments[|segments| - 1 := last.(optional := true)]
  {
    hide Body.Valid, Body.Meaning;
    var last := parts[|parts| - 1];
    assert last in parts && last.Valid();
  }

  method Parse(text: string) returns (r: Result<Parsed, SelectorError>)
    ensures match ParseText(text)
            case Ok(segments) => r == Ok(Parsed(text, segments))
            case Err(e) => r == Err(e)
  {
    hide ReadBracket, IdentEnd, Mark, Part.Valid, Part.Meaning, Body.Valid, Body.Meaning;
    var chars := text;
    if chars == [] || chars[0] != '.' {
      return Err(if chars == [] then Empty else MissingLeadingDot);
    }
    var segments: seq<Segment> := [];
    var dotPending := true;
    var i := 1;
    ghost var parts: seq<Part> := [];
    assert Meanings(parts) == [];
    while i < |chars|
      invariant i <= |chars| && AllValid(parts) && segments == Meanings(parts)
      invariant Tree(text) == Run(chars, i, parts, dotPending)
      decreases |chars| - i
    {
      var c := chars[i];
      if c == '.' {
        if dotPending { return Err(DoubleDot); }
        dotPending := true;
        i := i + 1;
      } else if c == '[' {
        var read :- Bracket(chars, i + 1);
        ghost var body := ReadBracket(chars, i + 1).value.0;
        PartOf(dotPending, body);
        MeaningsAppend(parts, Part(dotPending, body, 0));
        parts := parts + [Part(dotPending, body, 0)];
        segments := segments + [Segment(read.0, false)];
        dotPending := false;
        i := read.1;
      } else if c == '?' {
        if dotPending || segments == [] { return Err(DanglingOptional); }
        MeaningsMark(parts);
        parts := Mark(parts);
        segments := segments[|segments| - 1 := segments[|segments| - 1].(optional := true)];
        i := i + 1;
      } else if IdentStart(c) {
        if !dotPending { return Err(Unexpected(i)); }
        ghost var start := i;
        var name := "";
        ghost var end := IdentEnd(chars, i + 1);
        IdentStep(chars, i);
        while i < |chars| && Ident(chars[i])
          invariant start <= i <= |chars| && IdentEnd(chars, i) == end && name == chars[start..i]
          decreases |chars| - i
        {
          IdentStep(chars, i);
          name := name + [chars[i]];
          i := i + 1;
        }
        IdentStopped(chars, i);
        NameValid(chars, start);
        PartOf(true, Name(name));
        MeaningsAppend(parts, Part(true, Name(name), 0));
        parts := parts + [Part(true, Name(name), 0)];
        segments := segments + [Segment(Key(name), false)];
        dotPending := false;
      } else {
        return Err(Unexpected(i));
      }
    }
    if dotPending && segments != [] { return Err(TrailingDot); }
    return Ok(Parsed(text, segments));
  }

  lemma PartOf(dotted: bool, body: Body)
    requires body.Valid() && (body.Name? ==> dotted)
    ensures Part(dotted, body, 0).Valid() && Part(dotted, body, 0).Meaning() == Segment(body.Meaning(), false)
    ensures body.Name? ==> body.Meaning() == Key(body.name)
  {
  }

  lemma IdentStep(chars: string, i: nat)
    requires i < |chars| && Ident(chars[i])
    ensures IdentEnd(chars, i) == IdentEnd(chars, i + 1)
  {
  }

  lemma IdentStopped(chars: string, i: nat)
    requires i <= |chars| && (i < |chars| ==> !Ident(chars[i]))
    ensures IdentEnd(chars, i) == i
  {
  }
}
