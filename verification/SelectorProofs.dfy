/** Where the documented selector grammar and the parser part ways. */
module SelectorProofs {
  import opened Wrappers
  import opened Numerals
  import opened Selector
  import J = JsonFormat

  /**
   * The documentation's grammar: a dot and then the parts, so that a name in front would bring a second
   * dot. It is read here with the marks its prose allows to repeat.
   */
  predicate DocumentedAs(text: string, parts: seq<Part>) {
    AllValid(parts) && text == "." + PartsText(parts)
  }

  ghost predicate Documented(text: string) {
    exists parts: seq<Part> :: DocumentedAs(text, parts)
  }

  /** The parts of the parser's grammar for a documented text: the dot in front is the first part's own. */
  function Dotted(parts: seq<Part>): (dotted: seq<Part>) {
    if parts == [] then [] else [parts[0].(dotted := true)] + parts[1..]
  }

  lemma DottedDerives(text: string, parts: seq<Part>)
    requires DocumentedAs(text, parts) && (parts != [] ==> !parts[0].dotted)
    ensures Derives(Dotted(parts), text)
  {
    hide Body.Text, Body.Valid, PartsText, Marks;
    if parts == [] {
      NothingYet();
    } else {
      var p, dotted := parts[0], Dotted(parts);
      assert p in parts && p.Valid() && dotted[0].Valid() && dotted[1..] == parts[1..];
      assert dotted[0].Text() == "." + p.Text();
      UnfoldParts(parts);
      UnfoldParts(dotted);
      hide Part.Text, Part.Valid;
      assert PartsText(dotted) == "." + PartsText(parts);
      assert forall q :: q in dotted ==> q == dotted[0] || q in parts;
    }
  }

  lemma DotDot(text: string, parts: seq<Part>)
    requires DocumentedAs(text, parts) && parts != [] && parts[0].dotted
    ensures |text| > 1 && text[1] == '.' && Tree(text) == Err(DoubleDot)
  {
    hide Body.Text, Body.Valid;
    assert parts[0].Text()[0] == '.';
  }

  lemma FirstChar(parts: seq<Part>)
    requires AllValid(parts) && parts != []
    ensures var text := PartsText(parts);
            text != [] && (if parts[0].dotted then text[0] == '.' else text[0] == '[')
  {
    assert parts[0] in parts && parts[0].Valid();
    assert parts[0].Text()[0] == PartsText(parts)[0];
  }

  /** A documented text is accepted exactly when no second dot follows the first, and else refused for it. */
  lemma DocumentedIsAccepted(text: string)
    requires Documented(text)
    ensures text != []
    ensures Tree(text).Ok? <==> |text| == 1 || text[1] != '.'
    ensures Tree(text).Err? ==> Tree(text) == Err(DoubleDot)
  {
    var parts: seq<Part> :| DocumentedAs(text, parts);
    hide Run, PartsText, Part.Valid, Part.Text;
    if parts == [] {
      NothingYet();
      DottedDerives(text, parts);
      TreeExactlyDerives(text, []);
    } else if parts[0].dotted {
      DotDot(text, parts);
    } else {
      FirstChar(parts);
      DottedDerives(text, parts);
      TreeExactlyDerives(text, Dotted(parts));
    }
  }

  /** A body after its dot opens as a name does, or with a bracket. */
  lemma SecondChar(text: string, parts: seq<Part>)
    requires Derives(parts, text) && parts != []
    ensures |text| > 1 && (IdentStart(text[1]) <==> parts[0].body.Name?)
  {
    var p := parts[0];
    assert p in parts && p.Valid();
    assert p.body.Text() != [] && p.Text()[1] == p.body.Text()[0];
    assert PartsText(parts)[1] == p.Text()[1];
  }

  /** The parser's own texts: what it accepts is documented exactly when no name comes first. */
  lemma AcceptedIsDocumented(text: string)
    requires Tree(text).Ok?
    ensures Documented(text) <==> |text| == 1 || !IdentStart(text[1])
  {
    hide Run, PartsText, Part.Text, Body.Text, Body.Valid;
    var parts := Tree(text).value;
    TreeExactlyDerives(text, parts);
    if parts == [] {
      NothingYet();
      assert DocumentedAs(text, []);
      return;
    }
    SecondChar(text, parts);
    if !parts[0].body.Name? { Undotted(text, parts); }
    if Documented(text) {
      var q: seq<Part> :| DocumentedAs(text, q);
      DocumentedIsAccepted(text);
      if q != [] && q[0].dotted { DotDot(text, q); }
      DottedDerives(text, q);
      TreeExactlyDerives(text, Dotted(q));
      if q != [] { assert q[0] in q; }
    }
  }

  lemma Undotted(text: string, parts: seq<Part>)
    requires Derives(parts, text) && parts != [] && !parts[0].body.Name?
    ensures Documented(text)
  {
    hide Body.Text, Body.Valid;
    var p := parts[0].(dotted := false);
    var q := [p] + parts[1..];
    assert parts[0] in parts && q[1..] == parts[1..];
    assert parts[0].Text() == "." + p.Text();
    assert DocumentedAs(text, q);
  }

  /** For one, `.foo` is accepted though not documented, and `..foo` documented though not accepted. */
  lemma FooAndDottedFoo()
    ensures ParseText(".foo") == Ok([Segment(Key("foo"), false)]) && !Documented(".foo")
    ensures Documented("..foo") && ParseText("..foo") == Err(DoubleDot)
  {
    var p := Part(true, Name("foo"), 0);
    assert p.Text() == ".foo";
    assert PartsText([p]) == ".foo" by { assert [p][1..] == []; }
    hide Run, PartsText, Part.Text;
    TreeExactlyDerives(".foo", [p]);
    assert Meanings([p]) == [Segment(Key("foo"), false)];
    AcceptedIsDocumented(".foo");
    assert DocumentedAs("..foo", [p]);
    DocumentedIsAccepted("..foo");
  }

  /** In `\u` a plus sign may stand for the first of the four digits. */
  lemma PlusInKey(x: char, y: char, z: char)
    requires HexDigit(x).Some? && HexDigit(y).Some? && HexDigit(z).Some?
    ensures ParseText(".[\"\\u+" + [x, y, z] + "\"]")
         == Ok([Segment(Key([ThreeDigits(x, y, z)]), false)])
  {
    Radix16OfPlus(x, y, z);
    var text := ".[\"\\u+" + [x, y, z] + "\"]";
    var digits := ['+', x, y, z];
    hide Radix16, HexDigit, ThreeDigits;
    var c := Code(digits);
    assert c.Valid();
    assert QuotedText([c]) == ['\\', 'u'] + digits by { assert [c][1..] == []; }
    assert QuotedMeaning([c]) == [ThreeDigits(x, y, z)] by { assert [c][1..] == []; }
    var p := Part(true, QuotedKey([c]), 0);
    hide QuotedText, QuotedMeaning;
    assert p.Text() == text;
    assert PartsText([p]) == text by { assert [p][1..] == []; }
    hide Run, PartsText, Part.Text;
    assert Derives([p], text);
    TreeExactlyDerives(text, [p]);
    assert Meanings([p]) == [Segment(Key([ThreeDigits(x, y, z)]), false)];
  }

  /** For one, `.["\u+041"]` selects the key its digits name. */
  lemma PlusExample()
    ensures ParseText(".[\"\\u+041\"]") == Ok([Segment(Key("A"), false)])
  {
    hide Run, Tree, ParseText;
    Radix16OfPlus('0', '4', '1');
    PlusInKey('0', '4', '1');
    assert ".[\"\\u+" + ['0', '4', '1'] + "\"]" == ".[\"\\u+041\"]";
  }

  // Characters

  const UPPER: string := "ABCDEFGHIJKLMNOPQRSTUVWXYZ"
  const LOWER: string := "abcdefghijklmnopqrstuvwxyz"
  const DECIMAL: string := "0123456789"

  /** ALPHA, DIGIT and the underscore, appendix B.1 of RFC 5234. */
  lemma IdentifierCharacters(c: char)
    ensures IdentStart(c) <==> c in UPPER || c in LOWER || c == '_'
    ensures Ident(c) <==> c in UPPER || c in LOWER || c == '_' || c in DECIMAL
  {
    InUpper(c);
    InLower(c);
    InDecimal(c);
    hide UPPER, LOWER, DECIMAL;
  }

  lemma InUpper(c: char)
    ensures c in UPPER <==> 'A' <= c <= 'Z'
  {
    if 'A' <= c <= 'Z' { assert UPPER[c as int - 'A' as int] == c; }
    assert forall i :: 0 <= i < 26 ==> 'A' <= UPPER[i] <= 'Z';
  }

  lemma InLower(c: char)
    ensures c in LOWER <==> 'a' <= c <= 'z'
  {
    if 'a' <= c <= 'z' { assert LOWER[c as int - 'a' as int] == c; }
    assert forall i :: 0 <= i < 26 ==> 'a' <= LOWER[i] <= 'z';
  }

  lemma InDecimal(c: char)
    ensures c in DECIMAL <==> '0' <= c <= '9'
  {
    if '0' <= c <= '9' { assert DECIMAL[c as int - '0' as int] == c; }
    assert forall i :: 0 <= i < 10 ==> '0' <= DECIMAL[i] <= '9';
  }

  /** A letter escapes in a quoted key what it escapes in a JSON string, and nothing else does. */
  lemma EscapesAsInJson(letter: char, t: string, pos: nat)
    requires pos < |t| && t[pos] == letter != 'u'
    ensures EscapedBy(letter).Some? <==> J.ReadEscape(t, pos).Ok?
    ensures EscapedBy(letter).Some? ==> J.ReadEscape(t, pos) == Ok((EscapedBy(letter).value, pos + 1))
  {
    hide J.ReadHex;
  }

  /** What JSON prints with one letter is what the selector's escape by that letter means. */
  lemma EscapesUndone(c: char)
    ensures |J.EscapeText(c)| == 2 ==> J.EscapeText(c)[0] == '\\' && EscapedBy(J.EscapeText(c)[1]) == Some(c)
    ensures |J.EscapeText(c)| == 2 <==> c in "\"\\\n\r\t" || c as int == 8 || c as int == 12
  {
  }

  lemma KnownIndices()
    ensures IntText(true, "1").Valid() && IntText(true, "1").Value() == -1 && IntText(true, "1").Text() == "-1"
    ensures IntText(false, "2").Valid() && IntText(false, "2").Value() == 2 && IntText(false, "2").Text() == "2"
  {
    assert "1"[..0] == "" && "2"[..0] == "";
    assert Decimal("1") == 1 && Decimal("2") == 2;
  }

  lemma FourParts(a: Part, b: Part, c: Part, d: Part)
    ensures PartsText([a, b, c, d]) == a.Text() + b.Text() + c.Text() + d.Text()
  {
    hide Part.Text, PartsText;
    NothingYet();
    PartsTextAppend([], a);
    PartsTextAppend([a], b);
    PartsTextAppend([a, b], c);
    PartsTextAppend([a, b, c], d);
    assert [] + [a] == [a] && [a] + [b] == [a, b] && [a, b] + [c] == [a, b, c] && [a, b, c] + [d] == [a, b, c, d];
    assert "" + a.Text() == a.Text();
  }

  /** One selector with every kind of segment. */
  lemma KnownSelector()
    ensures ParseText(".a[-1]?[2:][]")
         == Ok([Segment(Key("a"), false), Segment(Index(-1), true), Segment(Slice(Some(2), None), false),
                Segment(Values, false)])
  {
    var a, b, c, d := KnownParts();
    hide Part.Text, Part.Valid, Part.Meaning, PartsText, Run, Tree;
    FourParts(a, b, c, d);
    var parts := [a, b, c, d];
    TreeExactlyDerives(".a[-1]?[2:][]", parts);
    assert Meanings(parts) == [a.Meaning(), b.Meaning(), c.Meaning(), d.Meaning()];
  }

  lemma KnownParts() returns (a: Part, b: Part, c: Part, d: Part)
    ensures a.Valid() && b.Valid() && c.Valid() && d.Valid() && a.dotted
    ensures a.Text() == ".a" && b.Text() == "[-1]?" && c.Text() == "[2:]" && d.Text() == "[]"
    ensures a.Meaning() == Segment(Key("a"), false) && b.Meaning() == Segment(Index(-1), true)
    ensures c.Meaning() == Segment(Slice(Some(2), None), false) && d.Meaning() == Segment(Values, false)
  {
    KnownIndices();
    hide IntText.Valid, IntText.Value, IntText.Text;
    var one, two := IntText(true, "1"), IntText(false, "2");
    a, b := Part(true, Name("a"), 0), Part(false, Element(one), 1);
    c, d := Part(false, Range(Some(two), None), 0), Part(false, AllValues, 0);
    assert Marks(1) == "?" + Marks(0);
  }
}
