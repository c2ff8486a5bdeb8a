/** `like` patterns: `*` is any run of characters, `\*` a literal star, anything else itself. */
module Glob {
  import opened Wrappers

  datatype Token = Literal(c: char) | Any

  datatype Pattern = Pattern(text: string, tokens: seq<Token>)

  predicate EscapedStar(text: string, i: nat) {
    i + 1 < |text| && text[i] == '\\' && text[i + 1] == '*'
  }

  /**
   * What a pattern text means, read off the text: from `i` on it takes the input from `s` on.
   * A star takes nothing, or one more character.
   */
  predicate Means(text: string, i: nat, input: string, s: nat)
    requires i <= |text| && s <= |input|
    decreases |text| - i, |input| - s
  {
    if i == |text| then s == |input|
    else if EscapedStar(text, i) then s < |input| && input[s] == '*' && Means(text, i + 2, input, s + 1)
    else if text[i] == '*' then
      Means(text, i + 1, input, s) || (s < |input| && Means(text, i, input, s + 1))
    else s < |input| && input[s] == text[i] && Means(text, i + 1, input, s + 1)
  }

  /** So a star is any run of characters. */
  lemma {:induction false} StarIsAnyRun(text: string, i: nat, input: string, s: nat)
    requires i < |text| && text[i] == '*' && s <= |input|
    ensures Means(text, i, input, s) <==> exists k: nat :: s <= k <= |input| && MeansAfter(text, i, input, k)
    decreases |input| - s
  {
    if s < |input| { StarIsAnyRun(text, i, input, s + 1); }
    if Means(text, i + 1, input, s) { assert MeansAfter(text, i, input, s); }
  }

  ghost predicate MeansAfter(text: string, i: nat, input: string, s: nat)
    requires i < |text| && s <= |input|
  {
    Means(text, i + 1, input, s)
  }

  /** What a token list means: from `t` on it takes the input from `s` on. */
  ghost predicate Matched(tokens: seq<Token>, t: nat, input: string, s: nat)
    requires t <= |tokens| && s <= |input|
    decreases |tokens| - t, |input| - s
  {
    if t == |tokens| then s == |input|
    else match tokens[t]
      case Any => Matched(tokens, t + 1, input, s) || (s < |input| && Matched(tokens, t, input, s + 1))
      case Literal(c) => s < |input| && input[s] == c && Matched(tokens, t + 1, input, s + 1)
  }

  /** The tokens of a text from `i` on, a run of stars giving one `Any`. */
  function Tokens(text: string, i: nat, afterStar: bool): seq<Token>
    requires i <= |text|
    decreases |text| - i
  {
    if i == |text| then []
    else if EscapedStar(text, i) then [Literal('*')] + Tokens(text, i + 2, false)
    else if text[i] == '*' then (if afterStar then [] else [Any]) + Tokens(text, i + 1, true)
    else [Literal(text[i])] + Tokens(text, i + 1, false)
  }

  /** Collapsing a run of stars into one changes nothing. */
  lemma {:induction false} TokensMean(text: string, i: nat, tokens: seq<Token>, t: nat, input: string, s: nat)
    requires i <= |text| && t <= |tokens| && s <= |input| && tokens[t..] == Tokens(text, i, false)
    ensures Matched(tokens, t, input, s) <==> Means(text, i, input, s)
    decreases |text| - i, |input| - s, 2
  {
    if i < |text| {
      assert tokens[t] == tokens[t..][0] && tokens[t + 1..] == tokens[t..][1..];
      if EscapedStar(text, i) {
        if s < |input| { TokensMean(text, i + 2, tokens, t + 1, input, s + 1); }
      } else if text[i] == '*' {
        StarMeans(text, i, tokens, t, input, s);
      } else if s < |input| {
        TokensMean(text, i + 1, tokens, t + 1, input, s + 1);
      }
    }
  }

  /** One `Any` stands for the star at `i` and every star right after it. */
  lemma {:induction false} StarMeans(text: string, i: nat, tokens: seq<Token>, t: nat, input: string, s: nat)
    requires i < |text| && t < |tokens| && s <= |input| && text[i] == '*'
    requires tokens[t] == Any && tokens[t + 1..] == Tokens(text, i + 1, true)
    ensures Matched(tokens, t, input, s) <==> Means(text, i, input, s)
    decreases |text| - i, |input| - s, 1
  {
    if s < |input| { StarMeans(text, i, tokens, t, input, s + 1); }
    if i + 1 < |text| && text[i + 1] == '*' {
      StarMeans(text, i + 1, tokens, t, input, s);
    } else {
      assert tokens[t + 1..] == Tokens(text, i + 1, false);
      TokensMean(text, i + 1, tokens, t + 1, input, s);
    }
  }

  lemma TokensStep(text: string, i: nat, afterStar: bool)
    requires i < |text|
    ensures EscapedStar(text, i) ==> Tokens(text, i, afterStar) == [Literal('*')] + Tokens(text, i + 2, false)
    ensures text[i] == '*' ==>
              Tokens(text, i, afterStar) == (if afterStar then [] else [Any]) + Tokens(text, i + 1, true)
    ensures !EscapedStar(text, i) && text[i] != '*' ==>
              Tokens(text, i, afterStar) == [Literal(text[i])] + Tokens(text, i + 1, false)
  {
  }

  lemma Regrouped(before: seq<Token>, token: Token, rest: seq<Token>)
    ensures before + ([token] + rest) == before + [token] + rest
    ensures (before + [token])[|before|] == token
  {
  }

  method Parse(text: string) returns (pattern: Pattern)
    ensures pattern == Pattern(text, Tokens(text, 0, false))
  {
    var tokens: seq<Token> := [];
    var i := 0;
    while i < |text|
      invariant 0 <= i <= |text|
      invariant tokens + Tokens(text, i, tokens != [] && tokens[|tokens| - 1] == Any) == Tokens(text, 0, false)
    {
      var c := text[i];
      ghost var before, afterStar := tokens, tokens != [] && tokens[|tokens| - 1] == Any;
      TokensStep(text, i, afterStar);
      hide Tokens;
      i := i + 1;
      if c == '\\' && i < |text| && text[i] == '*' {
        i := i + 1;
        tokens := tokens + [Literal('*')];
        Regrouped(before, Literal('*'), Tokens(text, i, false));
      } else if c == '*' {
        if tokens == [] || tokens[|tokens| - 1] != Any {
          tokens := tokens + [Any];
          Regrouped(before, Any, Tokens(text, i, true));
        }
      } else {
        tokens := tokens + [Literal(c)];
        Regrouped(before, Literal(c), Tokens(text, i, false));
      }
    }
    assert tokens + [] == tokens;
    return Pattern(text, tokens);
  }

  /** The tokens from `from` to `to` are literals, and the input holds them from `at` on. */
  ghost predicate Literals(tokens: seq<Token>, from: nat, to: nat, input: string, at: nat)
    requires from <= to <= |tokens|
  {
    && at + (to - from) <= |input|
    && forall i :: from <= i < to ==> tokens[i] == Literal(input[at + (i - from)])
  }

  /** Literals already met can be skipped. */
  lemma {:induction false} SkipLiterals(tokens: seq<Token>, from: nat, to: nat, input: string, at: nat)
    requires from <= to <= |tokens| && Literals(tokens, from, to, input, at)
    ensures Matched(tokens, from, input, at) <==> Matched(tokens, to, input, at + (to - from))
    decreases |tokens| - from
  {
    if from < to { SkipLiterals(tokens, from + 1, to, input, at + 1); }
  }

  /** A run of literal tokens can only match by meeting those very characters. */
  lemma {:induction false} LiteralsNeeded(tokens: seq<Token>, from: nat, to: nat, input: string, at: nat)
    requires from <= to <= |tokens| && at <= |input| && Matched(tokens, from, input, at)
    requires forall i :: from <= i < to ==> tokens[i].Literal?
    ensures Literals(tokens, from, to, input, at)
    decreases |tokens| - from
  {
    if from < to { LiteralsNeeded(tokens, from + 1, to, input, at + 1); }
  }

  /** A star that matches later matches earlier. */
  lemma {:induction false} AnyAbsorbs(tokens: seq<Token>, t: nat, input: string, s: nat, later: nat)
    requires t < |tokens| && tokens[t] == Any && s <= later <= |input| && Matched(tokens, t, input, later)
    ensures Matched(tokens, t, input, s)
    decreases later - s
  {
    if s < later { AnyAbsorbs(tokens, t, input, s + 1, later); }
  }

  /** A star that matches leaves the rest to match after some run of characters. */
  lemma {:induction false} RunOf(tokens: seq<Token>, t: nat, input: string, s: nat) returns (k: nat)
    requires t < |tokens| && tokens[t] == Any && s <= |input| && Matched(tokens, t, input, s)
    ensures s <= k <= |input| && Matched(tokens, t + 1, input, k)
    decreases |input| - s
  {
    if Matched(tokens, t + 1, input, s) { k := s; } else { k := RunOf(tokens, t, input, s + 1); }
  }

  /** At the next star, only the last match of what came before it is worth keeping. */
  lemma LastStarIsEnough(tokens: seq<Token>, star: nat, next: nat, input: string, at: nat)
    requires star < next < |tokens| && tokens[star] == Any && tokens[next] == Any
    requires Literals(tokens, star + 1, next, input, at)
    ensures Matched(tokens, star, input, at) <==> Matched(tokens, next, input, at + (next - star - 1))
  {
    SkipLiterals(tokens, star + 1, next, input, at);
    if Matched(tokens, star, input, at) {
      var k := RunOf(tokens, star, input, at);
      LiteralsNeeded(tokens, star + 1, next, input, k);
      SkipLiterals(tokens, star + 1, next, input, k);
      AnyAbsorbs(tokens, next, input, at + (next - star - 1), k + (next - star - 1));
    }
  }

  /** Once the input has run out behind the last star, trying that star later cannot help. */
  lemma NoLaterStart(tokens: seq<Token>, star: nat, t: nat, input: string, at: nat)
    requires star < t <= |tokens| && tokens[star] == Any
    requires Literals(tokens, star + 1, t, input, at) && at + (t - star - 1) == |input|
    ensures Matched(tokens, star, input, at) <==> Matched(tokens, t, input, |input|)
  {
    SkipLiterals(tokens, star + 1, t, input, at);
    if Matched(tokens, star, input, at) {
      var k := RunOf(tokens, star, input, at);
      LiteralsNeeded(tokens, star + 1, t, input, k);
      assert k == at;
    }
  }

  /** The end of the input matches exactly when only stars are left. */
  lemma {:induction false} OnlyStarsLeft(tokens: seq<Token>, t: nat, input: string)
    requires t <= |tokens|
    ensures Matched(tokens, t, input, |input|) <==> forall i :: t <= i < |tokens| ==> tokens[i] == Any
    decreases |tokens| - t
  {
    if t < |tokens| { OnlyStarsLeft(tokens, t + 1, input); }
  }

  /** Where the matcher is: a star with the place it is tried at, if one was met, and the next token. */
  ghost predicate Sound(tokens: seq<Token>, input: string, backtrack: Option<(nat, nat)>, s: nat, t: nat) {
    && s <= |input| && t <= |tokens|
    && match backtrack
       case None => s == t && (Matched(tokens, 0, input, 0) <==> Matched(tokens, t, input, s))
       case Some((star, at)) =>
         && star < t && tokens[star] == Any && at <= s && s - at == t - star - 1
         && Literals(tokens, star + 1, t, input, at)
         && (Matched(tokens, 0, input, 0) <==> Matched(tokens, star, input, at))
  }

  lemma StarTurn(tokens: seq<Token>, input: string, backtrack: Option<(nat, nat)>, s: nat, t: nat)
    requires Sound(tokens, input, backtrack, s, t) && t < |tokens| && tokens[t] == Any
    ensures Sound(tokens, input, Some((t, s)), s, t + 1)
  {
    hide Matched;
    if backtrack.Some? {
      LastStarIsEnough(tokens, backtrack.value.0, t, input, backtrack.value.1);
    }
  }

  lemma LiteralTurn(tokens: seq<Token>, input: string, backtrack: Option<(nat, nat)>, s: nat, t: nat)
    requires Sound(tokens, input, backtrack, s, t) && s < |input| && t < |tokens| && tokens[t] == Literal(input[s])
    ensures Sound(tokens, input, backtrack, s + 1, t + 1)
  {
  }

  lemma BacktrackTurn(tokens: seq<Token>, input: string, backtrack: Option<(nat, nat)>, s: nat, t: nat)
    requires Sound(tokens, input, backtrack, s, t) && s < |input|
    requires t == |tokens| || (tokens[t].Literal? && tokens[t] != Literal(input[s]))
    ensures backtrack.None? ==> !Matched(tokens, 0, input, 0)
    ensures backtrack.Some? ==> var (star, at) := backtrack.value;
              Sound(tokens, input, Some((star, at + 1)), at + 1, star + 1)
  {
    if backtrack.Some? {
      var (star, at) := backtrack.value;
      SkipLiterals(tokens, star + 1, t, input, at);
    }
  }

  lemma LastTurn(tokens: seq<Token>, input: string, backtrack: Option<(nat, nat)>, t: nat)
    requires Sound(tokens, input, backtrack, |input|, t)
    ensures Matched(tokens, 0, input, 0) <==> forall i :: t <= i < |tokens| ==> tokens[i] == Any
  {
    hide Matched;
    if backtrack.Some? {
      NoLaterStart(tokens, backtrack.value.0, t, input, backtrack.value.1);
    }
    OnlyStarsLeft(tokens, t, input);
  }

  /** A measure that grows with every turn of the matcher. */
  ghost function Rank(backtrack: Option<(nat, nat)>, t: nat, width: nat): nat {
    match backtrack
    case Some((_, at)) => at * width + t
    case None => t
  }

  lemma RankGrows(before: Option<(nat, nat)>, t: nat, after: Option<(nat, nat)>, u: nat, width: nat)
    requires t < width
    requires var a := if before.Some? then before.value.1 else 0;
             var b := if after.Some? then after.value.1 else 0;
             (a == b && t < u) || (a < b && 0 < u)
    ensures Rank(before, t, width) < Rank(after, u, width)
  {
    var a, b := if before.Some? then before.value.1 else 0, if after.Some? then after.value.1 else 0;
    if a < b {
      MultiplyMonotone(a + 1, b, width);
      assert (a + 1) * width == a * width + width;
    }
  }

  lemma MultiplyMonotone(a: nat, b: nat, width: nat)
    requires a <= b
    ensures a * width <= b * width
  {
  }

  /** The most turns the matcher takes on an input of `n` characters and `m` tokens. */
  ghost function MostTurns(n: nat, m: nat): nat {
    (n + 1) * (m + 1)
  }

  lemma RankBound(backtrack: Option<(nat, nat)>, t: nat, n: nat, m: nat)
    requires t <= m && (backtrack.Some? ==> backtrack.value.1 <= n)
    ensures Rank(backtrack, t, m + 1) < MostTurns(n, m)
  {
    MultiplyMonotone(if backtrack.Some? then backtrack.value.1 else 0, n, m + 1);
    assert (n + 1) * (m + 1) == n * (m + 1) + (m + 1);
  }

  /** The iterative matcher decides what the text means, in a bounded number of turns. */
  method Matches(pattern: Pattern, input: string) returns (r: bool, ghost turns: nat)
    requires pattern.tokens == Tokens(pattern.text, 0, false)
    ensures r <==> Means(pattern.text, 0, input, 0)
    ensures turns <= MostTurns(|input|, |pattern.tokens|)
  {
    var tokens := pattern.tokens;
    ghost var width := |tokens| + 1;
    TokensMean(pattern.text, 0, tokens, 0, input, 0);
    var s, t := 0, 0;
    var backtrack: Option<(nat, nat)> := None;
    turns := 0;
    RankBound(backtrack, t, |input|, |tokens|);
    hide MostTurns, Matched, Literals, Rank, Means, Tokens;
    while s < |input|
      invariant Sound(tokens, input, backtrack, s, t)
      invariant s <= |input| && t <= |tokens|
      invariant backtrack.Some? ==> backtrack.value.0 < |tokens| && backtrack.value.1 <= s
      invariant turns <= Rank(backtrack, t, width) <= MostTurns(|input|, |tokens|)
      decreases MostTurns(|input|, |tokens|) - Rank(backtrack, t, width)
    {
      hide Sound;
      turns := turns + 1;
      if t < |tokens| && tokens[t] == Any {
        StarTurn(tokens, input, backtrack, s, t);
        RankGrows(backtrack, t, Some((t, s)), t + 1, width);
        backtrack := Some((t, s));
        t := t + 1;
      } else if t < |tokens| && tokens[t] == Literal(input[s]) {
        LiteralTurn(tokens, input, backtrack, s, t);
        RankGrows(backtrack, t, backtrack, t + 1, width);
        s := s + 1;
        t := t + 1;
      } else {
        BacktrackTurn(tokens, input, backtrack, s, t);
        match backtrack {
          case None =>
            RankBound(backtrack, t, |input|, |tokens|);
            return false, turns;
          case Some((star, at)) =>
            RankGrows(backtrack, t, Some((star, at + 1)), star + 1, width);
            t := star + 1;
            s := at + 1;
            backtrack := Some((star, at + 1));
        }
      }
      RankBound(backtrack, t, |input|, |tokens|);
    }
    LastTurn(tokens, input, backtrack, t);
    r := forall i | t <= i < |tokens| :: tokens[i] == Any;
  }

  // Text that stands for itself

  /** The pattern that spells a text: its stars escaped. */
  function Quoted(text: string): string {
    if text == "" then "" else (if text[0] == '*' then "\\*" else [text[0]]) + Quoted(text[1..])
  }

  /** A pattern means the same at the end of any other. */
  lemma {:induction false} MeansInside(before: string, text: string, i: nat, input: string, s: nat)
    requires i <= |text| && s <= |input|
    ensures Means(before + text, |before| + i, input, s) <==> Means(text, i, input, s)
    decreases |text| - i, |input| - s
  {
    var all, k := before + text, |before| + i;
    if i < |text| {
      assert all[k] == text[i] && (i + 1 < |text| ==> all[k + 1] == text[i + 1]);
      assert EscapedStar(all, k) <==> EscapedStar(text, i);
      if EscapedStar(text, i) {
        if s < |input| { MeansInside(before, text, i + 2, input, s + 1); }
      } else if text[i] == '*' {
        MeansInside(before, text, i + 1, input, s);
        if s < |input| { MeansInside(before, text, i, input, s + 1); }
      } else if s < |input| {
        MeansInside(before, text, i + 1, input, s + 1);
      }
    }
  }

  /** `rest` cannot turn the end of a spelled text into an escape. */
  predicate Separate(text: string, rest: string) {
    text == "" || text[|text| - 1] != '\\' || rest == "" || rest[0] != '*'
  }

  /** A spelled text takes itself and leaves what follows it to the rest of the pattern. */
  lemma {:induction false} QuotedTakes(text: string, rest: string, input: string, s: nat)
    requires s <= |input| && Separate(text, rest)
    ensures Means(Quoted(text) + rest, 0, input, s) <==>
            text <= input[s..] && Means(rest, 0, input, s + |text|)
    decreases |text|
  {
    hide Means;
    if text == "" {
      assert Quoted(text) + rest == rest;
    } else {
      var tail := text[1..];
      var first := if text[0] == '*' then "\\*" else [text[0]];
      var more := Quoted(tail) + rest;
      assert Quoted(text) + rest == first + more;
      QuotedStart(text, rest);
      TakesOne(text[0], more, input, s);
      if s < |input| {
        MeansInside(first, more, 0, input, s + 1);
        QuotedTakes(tail, rest, input, s + 1);
        assert input[s..] == [input[s]] + input[s + 1..];
        assert text == [text[0]] + tail;
      }
    }
  }

  /** What comes after a backslash in a spelled text is not a star. */
  lemma QuotedStart(text: string, rest: string)
    requires text != "" && Separate(text, rest)
    ensures var more := Quoted(text[1..]) + rest; text[0] == '\\' && more != "" ==> more[0] != '*'
    ensures Separate(text[1..], rest)
  {
  }

  lemma TakesOne(c: char, more: string, input: string, s: nat)
    requires s <= |input| && (c == '\\' && more != "" ==> more[0] != '*')
    ensures var first := if c == '*' then "\\*" else [c];
            Means(first + more, 0, input, s) <==>
            s < |input| && input[s] == c && Means(first + more, |first|, input, s + 1)
  {
    var first := if c == '*' then "\\*" else [c];
    var all := first + more;
    assert all[0] == first[0] && (|first| > 1 ==> all[1] == first[1]);
    assert more != "" ==> all[|first|] == more[0];
  }

  /** So a text is matched by spelling it, and only it is. */
  lemma QuotedMeansItself(text: string, input: string)
    ensures Means(Quoted(text), 0, input, 0) <==> input == text
  {
    assert Quoted(text) + "" == Quoted(text);
    QuotedTakes(text, "", input, 0);
    assert input[0..] == input;
    if |text| <= |input| { assert Means("", 0, input, |text|) <==> |text| == |input|; }
  }

  /** A star after it lets anything follow. */
  lemma QuotedBeginning(text: string, input: string)
    requires text == "" || text[|text| - 1] != '\\'
    ensures Means(Quoted(text) + "*", 0, input, 0) <==> text <= input
  {
    QuotedTakes(text, "*", input, 0);
    assert input[0..] == input;
    if |text| <= |input| {
      StarIsAnyRun("*", 0, input, |text|);
      assert MeansAfter("*", 0, input, |input|);
    }
  }
}
