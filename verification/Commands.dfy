/** Commands: the `/`-separated paths that name what may be done. */
module Commands {
  import opened Wrappers

  datatype CommandText = CommandText(text: string)

  /** A command that was parsed: only well-formed texts become one. */
  type Command = c: CommandText | WellFormed(c) witness CommandText("/")

  datatype CommandError = Empty | MissingLeadingSlash | TrailingSlash | EmptySegment | Uppercase

  const ROOT: Command := CommandText("/")

  predicate DoubleSlash(text: string) {
    |text| >= 2 && ((text[0] == '/' && text[1] == '/') || DoubleSlash(text[1..]))
  }

  /** `uppercase` is Unicode's property of that name. */
  function Parse(uppercase: char -> bool, text: string): Result<Command, CommandError> {
    if text == "" then Err(Empty)
    else if text[0] != '/' then Err(MissingLeadingSlash)
    else if |text| > 1 && text[|text| - 1] == '/' then Err(TrailingSlash)
    else if |text| > 1 && DoubleSlash(text) then Err(EmptySegment)
    else if exists i :: 0 <= i < |text| && uppercase(text[i]) then Err(Uppercase)
    else Ok(CommandText(text))
  }

  /** A command that `Parse` lets through, whatever counts as uppercase. */
  predicate WellFormed(c: CommandText) {
    c.text == "/" || (|c.text| > 1 && c.text[0] == '/' && c.text[|c.text| - 1] != '/' && !DoubleSlash(c.text))
  }

  function Part(segment: string): seq<string> {
    if segment == "" then [] else [segment]
  }

  /** The non-empty pieces between the slashes, `current` being the one under way. */
  function Pieces(text: string, current: string): seq<string>
    decreases |text|
  {
    if text == "" then Part(current)
    else if text[0] == '/' then Part(current) + Pieces(text[1..], "")
    else Pieces(text[1..], current + [text[0]])
  }

  function Segments(c: CommandText): seq<string> {
    Pieces(c.text, "")
  }

  /** Whether authority over `c` includes authority over `other`. */
  predicate Covers(c: Command, other: Command) {
    c == ROOT
    || (c.text <= other.text && (|other.text| == |c.text| || other.text[|c.text|] == '/'))
  }

  // Segments and text determine each other

  function Joined(segments: seq<string>): string {
    if segments == [] then "" else ['/'] + segments[0] + Joined(segments[1..])
  }

  predicate Segment(s: string) {
    s != "" && '/' !in s
  }

  lemma {:induction false} PiecesAreSegments(text: string, current: string)
    requires '/' !in current
    ensures forall s :: s in Pieces(text, current) ==> Segment(s)
    decreases |text|
  {
    if text != "" {
      if text[0] == '/' {
        PiecesAreSegments(text[1..], "");
      } else {
        PiecesAreSegments(text[1..], current + [text[0]]);
      }
    }
  }

  /** Text that leaves no segment empty is its segments, each after a slash. */
  lemma {:induction false} JoinedPieces(text: string, current: string)
    requires current != "" && !DoubleSlash(text) && (text != "" ==> text[|text| - 1] != '/')
    ensures Joined(Pieces(text, current)) == ['/'] + current + text
    decreases |text|
  {
    if text == "" {
      assert Pieces(text, current)[1..] == [];
    } else {
      var rest := text[1..];
      if text[0] != '/' {
        JoinedPieces(rest, current + [text[0]]);
        assert ['/'] + (current + [text[0]]) + rest == ['/'] + current + text;
      } else {
        assert rest != "" && rest[0] != '/' && !DoubleSlash(rest);
        JoinedPieces(rest[1..], [rest[0]]);
        var pieces := Pieces(rest, "");
        assert "" + [rest[0]] == [rest[0]];
        assert pieces == Pieces(rest[1..], [rest[0]]);
        assert Pieces(text, current) == [current] + pieces && ([current] + pieces)[1..] == pieces;
        assert text == ['/'] + ([rest[0]] + rest[1..]);
      }
    }
  }

  lemma JoinedSegments(c: Command)
    requires c != ROOT
    ensures Segments(c) != [] && Joined(Segments(c)) == c.text
  {
    var rest := c.text[1..];
    assert rest[0] != '/' && !DoubleSlash(rest) && !DoubleSlash(rest[1..]);
    assert "" + [rest[0]] == [rest[0]];
    assert Pieces(c.text, "") == [] + Pieces(rest, "") == Pieces(rest[1..], [rest[0]]);
    JoinedPieces(rest[1..], [rest[0]]);
    assert c.text == ['/'] + [rest[0]] + rest[1..];
  }

  lemma RootHasNoSegments()
    ensures Segments(ROOT) == []
  {
    assert Pieces("/", "") == Pieces("", "");
  }

  lemma {:induction false} JoinedAppend(a: seq<string>, b: seq<string>)
    ensures Joined(a + b) == Joined(a) + Joined(b)
  {
    if a == [] {
      assert a + b == b;
    } else {
      JoinedAppend(a[1..], b);
      assert (a + b)[1..] == a[1..] + b;
    }
  }

  lemma {:induction false} PiecesAppend(a: string, current: string, rest: string)
    requires rest == "" || rest[0] == '/'
    ensures Pieces(a + rest, current) == Pieces(a, current) + Pieces(rest, "")
    decreases |a|
  {
    if a == "" {
      assert a + rest == rest;
    } else {
      assert (a + rest)[1..] == a[1..] + rest;
      if a[0] == '/' {
        PiecesAppend(a[1..], "", rest);
      } else {
        PiecesAppend(a[1..], current + [a[0]], rest);
      }
    }
  }

  /** Coverage is on segment boundaries: one command covers another exactly when its segments come first. */
  lemma CoversIsSegmentPrefix(c: Command, other: Command)
    ensures Covers(c, other) <==> Segments(c) <= Segments(other)
  {
    RootHasNoSegments();
    hide Pieces;
    if c != ROOT {
      if Covers(c, other) {
        var rest := other.text[|c.text|..];
        assert other.text == c.text + rest;
        PiecesAppend(c.text, "", rest);
      }
      if Segments(c) <= Segments(other) { PrefixCovers(c, other); }
    }
  }

  lemma PrefixCovers(c: Command, other: Command)
    requires c != ROOT && Segments(c) <= Segments(other)
    ensures Covers(c, other)
  {
    RootHasNoSegments();
    JoinedSegments(c);
    hide Segments, WellFormed;
    assert other != ROOT;
    JoinedSegments(other);
    var more := Segments(other)[|Segments(c)|..];
    assert Segments(other) == Segments(c) + more;
    JoinedAppend(Segments(c), more);
    assert Joined(more) != "" ==> Joined(more)[0] == '/';
    hide Joined;
    assert other.text == c.text + Joined(more);
  }

  lemma CoversTransitive(a: Command, b: Command, c: Command)
    requires Covers(a, b) && Covers(b, c)
    ensures Covers(a, c)
  {
    CoversIsSegmentPrefix(a, b);
    CoversIsSegmentPrefix(b, c);
    CoversIsSegmentPrefix(a, c);
  }

  /** Two commands cover each other only when they are the same. */
  lemma CoversAntisymmetric(a: Command, b: Command)
    ensures Covers(a, b) && Covers(b, a) <==> a == b
  {
    RootHasNoSegments();
    CoversIsSegmentPrefix(a, b);
    CoversIsSegmentPrefix(b, a);
    if a != ROOT { JoinedSegments(a); }
    if b != ROOT { JoinedSegments(b); }
  }

  // What parses

  lemma {:induction false} JoinedShape(segments: seq<string>)
    requires segments != [] && forall s :: s in segments ==> Segment(s)
    ensures var text := Joined(segments);
            |text| > 1 && text[0] == '/' && text[|text| - 1] != '/' && !DoubleSlash(text)
  {
    var first, rest := segments[0], Joined(segments[1..]);
    assert first in segments && Segment(first);
    if |segments| > 1 {
      JoinedShape(segments[1..]);
    } else {
      assert segments[1..] == [] && rest == "";
    }
    assert ['/'] + first + rest == ['/'] + (first + rest);
    hide Joined;
    NoSlashBefore(first, rest);
    SlashBefore(first + rest);
  }

  lemma SlashBefore(tail: string)
    requires tail != "" && tail[0] != '/' && tail[|tail| - 1] != '/' && !DoubleSlash(tail)
    ensures var text := ['/'] + tail; text[|text| - 1] != '/' && !DoubleSlash(text)
  {
    assert (['/'] + tail)[1..] == tail;
  }

  lemma {:induction false} NoSlashBefore(a: string, b: string)
    requires '/' !in a && a != "" && !DoubleSlash(b) && (b != "" ==> b[|b| - 1] != '/')
    ensures !DoubleSlash(a + b) && (a + b)[|a + b| - 1] != '/' && a[0] != '/'
  {
    assert (a + b)[1..] == a[1..] + b;
    if |a| > 1 {
      NoSlashBefore(a[1..], b);
    } else {
      assert a[1..] + b == b;
      if b == "" { assert a + b == a; }
    }
  }

  /**
   * A text parses exactly when nothing in it is uppercase and it is the root or one or more segments,
   * each after a slash; the command is that text.
   */
  lemma ParsesExactlyJoined(uppercase: char -> bool, text: string, c: CommandText)
    ensures Parse(uppercase, text) == Ok(c)
       <==> c == CommandText(text) && (forall i :: 0 <= i < |text| ==> !uppercase(text[i]))
            && (text == "/" || (Segments(c) != [] && Joined(Segments(c)) == text))
  {
    if c == CommandText(text) && text != "/" {
      if WellFormed(c) { JoinedSegments(c); }
      if Segments(c) != [] && Joined(Segments(c)) == text {
        PiecesAreSegments(text, "");
        JoinedShape(Segments(c));
      }
    }
  }

  /** Why a text does not parse. */
  lemma ParseRefuses(uppercase: char -> bool, text: string)
    ensures Parse(uppercase, text) == Err(Empty) <==> text == ""
    ensures Parse(uppercase, text) == Err(MissingLeadingSlash) <==> text != "" && text[0] != '/'
    ensures Parse(uppercase, text) == Err(TrailingSlash)
       <==> |text| > 1 && text[0] == '/' && text[|text| - 1] == '/'
    ensures Parse(uppercase, text) == Err(EmptySegment)
       <==> |text| > 1 && text[0] == '/' && text[|text| - 1] != '/' && HasTwoSlashes(text)
    ensures Parse(uppercase, text) == Err(Uppercase)
       <==> WellFormed(CommandText(text)) && exists i :: 0 <= i < |text| && uppercase(text[i])
  {
    DoubleSlashExactly(text);
  }

  /** Two slashes stand next to each other. */
  ghost predicate HasTwoSlashes(text: string) {
    exists i :: 0 < i < |text| && text[i - 1] == '/' && text[i] == '/'
  }

  lemma {:induction false} DoubleSlashExactly(text: string)
    ensures DoubleSlash(text) <==> HasTwoSlashes(text)
  {
    if |text| >= 2 {
      var rest := text[1..];
      DoubleSlashExactly(rest);
      if HasTwoSlashes(rest) {
        var i :| 0 < i < |rest| && rest[i - 1] == '/' && rest[i] == '/';
        assert text[i + 1 - 1] == '/' && text[i + 1] == '/';
      }
      if HasTwoSlashes(text) {
        var i :| 0 < i < |text| && text[i - 1] == '/' && text[i] == '/';
        if i > 1 { assert rest[i - 1 - 1] == '/' && rest[i - 1] == '/'; }
      }
    }
  }
}
