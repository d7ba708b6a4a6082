/** Escaping of filter values for LIKE (sqlitehistoryplugin.cpp), and what the resulting pattern matches. */
module LikeEscaping {

  const QUOTE := '\''
  const BACKSLASH := '\\'
  const PERCENT := '%'
  const UNDERSCORE := '_'

  /** QString::replace of a one-character text. */
  function ReplaceChar(s: string, c: char, after: string): string {
    if s == [] then [] else (if s[0] == c then after else [s[0]]) + ReplaceChar(s[1..], c, after)
  }

  /** escapeFilterValue: four replacements, one after the other. */
  function EscapeFilterValue(value: string): string {
    var s1 := ReplaceChar(value, BACKSLASH, [BACKSLASH, BACKSLASH]);
    var s2 := ReplaceChar(s1, QUOTE, [QUOTE, QUOTE]);
    var s3 := ReplaceChar(s2, PERCENT, [BACKSLASH, PERCENT]);
    ReplaceChar(s3, UNDERSCORE, [BACKSLASH, UNDERSCORE])
  }

  const LIKE := " LIKE '"
  const ESCAPE := " ESCAPE '\\'"

  /** The condition for MatchContains. */
  function LikeCondition(name: string, value: string): string {
    name + LIKE + ([PERCENT] + EscapeFilterValue(value) + [PERCENT]) + [QUOTE] + ESCAPE
  }

  // ---------------------------------------------------------------- one map per character

  /** What becomes of one character in the pattern; a quote stays one until it is written in a literal. */
  function InPattern(c: char): string {
    if c == BACKSLASH || c == PERCENT || c == UNDERSCORE then [BACKSLASH, c] else [c]
  }

  function Doubled(c: char): string {
    if c == QUOTE then [QUOTE, QUOTE] else [c]
  }

  function EachInPattern(value: string): string {
    if value == [] then [] else InPattern(value[0]) + EachInPattern(value[1..])
  }

  function EachDoubled(s: string): string {
    if s == [] then [] else Doubled(s[0]) + EachDoubled(s[1..])
  }

  lemma {:induction false} ReplaceConcat(a: string, b: string, c: char, after: string)
    ensures ReplaceChar(a + b, c, after) == ReplaceChar(a, c, after) + ReplaceChar(b, c, after)
  {
    if a == [] {
      assert a + b == b;
    } else {
      assert (a + b)[1..] == a[1..] + b;
      ReplaceConcat(a[1..], b, c, after);
    }
  }

  lemma ReplaceOne(x: char, c: char, after: string)
    ensures ReplaceChar([x], c, after) == if x == c then after else [x]
  {
    assert [x][1..] == [];
  }

  lemma ReplaceTwo(x: char, y: char, c: char, after: string)
    ensures ReplaceChar([x, y], c, after) == (if x == c then after else [x]) + (if y == c then after else [y])
  {
    assert [x, y] == [x] + [y];
    ReplaceConcat([x], [y], c, after);
    ReplaceOne(x, c, after);
    ReplaceOne(y, c, after);
  }

  lemma EscapeConcat(a: string, b: string)
    ensures EscapeFilterValue(a + b) == EscapeFilterValue(a) + EscapeFilterValue(b)
  {
    var a1, b1 := ReplaceChar(a, BACKSLASH, [BACKSLASH, BACKSLASH]), ReplaceChar(b, BACKSLASH, [BACKSLASH, BACKSLASH]);
    var a2, b2 := ReplaceChar(a1, QUOTE, [QUOTE, QUOTE]), ReplaceChar(b1, QUOTE, [QUOTE, QUOTE]);
    var a3, b3 := ReplaceChar(a2, PERCENT, [BACKSLASH, PERCENT]), ReplaceChar(b2, PERCENT, [BACKSLASH, PERCENT]);
    ReplaceConcat(a, b, BACKSLASH, [BACKSLASH, BACKSLASH]);
    ReplaceConcat(a1, b1, QUOTE, [QUOTE, QUOTE]);
    ReplaceConcat(a2, b2, PERCENT, [BACKSLASH, PERCENT]);
    ReplaceConcat(a3, b3, UNDERSCORE, [BACKSLASH, UNDERSCORE]);
  }

  lemma {:induction false} DoubledConcat(a: string, b: string)
    ensures EachDoubled(a + b) == EachDoubled(a) + EachDoubled(b)
  {
    if a == [] {
      assert a + b == b;
    } else {
      assert (a + b)[1..] == a[1..] + b;
      DoubledConcat(a[1..], b);
    }
  }

  lemma DoubledOne(x: char)
    ensures EachDoubled([x]) == Doubled(x)
  {
    assert [x][1..] == [];
    assert Doubled(x) + [] == Doubled(x);
  }

  lemma DoubledTwo(x: char, y: char)
    ensures EachDoubled([x, y]) == Doubled(x) + Doubled(y)
  {
    assert [x, y] == [x] + [y];
    DoubledConcat([x], [y]);
    DoubledOne(x);
    DoubledOne(y);
  }

  lemma EscapeOne(c: char)
    ensures EscapeFilterValue([c]) == EachDoubled(InPattern(c))
  {
    ReplaceOne(c, BACKSLASH, [BACKSLASH, BACKSLASH]);
    if c == BACKSLASH {
      ReplaceTwo(c, c, QUOTE, [QUOTE, QUOTE]);
      ReplaceTwo(c, c, PERCENT, [BACKSLASH, PERCENT]);
      ReplaceTwo(c, c, UNDERSCORE, [BACKSLASH, UNDERSCORE]);
      DoubledTwo(c, c);
    } else {
      ReplaceOne(c, QUOTE, [QUOTE, QUOTE]);
      ReplaceOne(c, PERCENT, [BACKSLASH, PERCENT]);
      ReplaceOne(c, UNDERSCORE, [BACKSLASH, UNDERSCORE]);
      ReplaceTwo(QUOTE, QUOTE, PERCENT, [BACKSLASH, PERCENT]);
      ReplaceTwo(QUOTE, QUOTE, UNDERSCORE, [BACKSLASH, UNDERSCORE]);
      ReplaceTwo(BACKSLASH, PERCENT, UNDERSCORE, [BACKSLASH, UNDERSCORE]);
      DoubledTwo(BACKSLASH, c);
      DoubledOne(c);
    }
  }

  /** The four replacements do not disturb each other: together they are one map per character. */
  lemma {:induction false} EscapeIsPerCharacter(value: string)
    ensures EscapeFilterValue(value) == EachDoubled(EachInPattern(value))
  {
    if value != [] {
      assert value == [value[0]] + value[1..];
      EscapeConcat([value[0]], value[1..]);
      EscapeOne(value[0]);
      EscapeIsPerCharacter(value[1..]);
      DoubledConcat(InPattern(value[0]), EachInPattern(value[1..]));
    }
  }

  // ---------------------------------------------------------------- reading the literal

  datatype Literal = Unterminated | Literal(content: string, rest: string)

  /** An SQL text literal after its opening quote: a doubled quote stands for one, a single one ends it. */
  function ReadLiteral(s: string): (r: Literal)
    ensures r.Literal? ==> |r.rest| < |s|
  {
    if s == [] then Unterminated
    else if s[0] != '\'' then
      var r := ReadLiteral(s[1..]);
      if r.Unterminated? then r else Literal([s[0]] + r.content, r.rest)
    else if |s| > 1 && s[1] == '\'' then
      var r := ReadLiteral(s[2..]);
      if r.Unterminated? then r else Literal("'" + r.content, r.rest)
    else Literal([], s[1..])
  }

  lemma ReadDoubled(c: char, more: string)
    requires ReadLiteral(more).Literal?
    ensures ReadLiteral(Doubled(c) + more) == Literal([c] + ReadLiteral(more).content, ReadLiteral(more).rest)
  {
    var whole := Doubled(c) + more;
    if c == QUOTE {
      assert whole[0] == QUOTE && whole[1] == QUOTE && whole[2..] == more;
    } else {
      assert whole[0] == c && whole[1..] == more;
    }
  }

  lemma DoubledCons(s: string, more: string)
    requires s != []
    ensures EachDoubled(s) + more == Doubled(s[0]) + (EachDoubled(s[1..]) + more)
  {
  }

  /** A text with its quotes doubled reads back as the text, and nothing in it ends the literal early. */
  lemma {:induction false} LiteralReadsBack(s: string, rest: string)
    requires rest == [] || rest[0] != QUOTE
    ensures ReadLiteral(EachDoubled(s) + ([QUOTE] + rest)) == Literal(s, rest)
  {
    var closing := [QUOTE] + rest;
    if s == [] {
      assert EachDoubled(s) + closing == closing && closing[1..] == rest;
    } else {
      LiteralReadsBack(s[1..], rest);
      ReadDoubled(s[0], EachDoubled(s[1..]) + closing);
      DoubledCons(s, closing);
      assert s == [s[0]] + s[1..];
    }
  }

  // ---------------------------------------------------------------- matching

  datatype Token = Exactly(c: char) | AnyChar | AnyString
  datatype Pattern = Malformed | Pattern(tokens: seq<Token>)

  /** A LIKE pattern with the backslash as escape character; it may only escape itself and the two wildcards. */
  function ReadPattern(p: string): Pattern {
    if p == [] then Pattern([])
    else if p[0] == '\\' then
      if |p| == 1 || (p[1] != '\\' && p[1] != '%' && p[1] != '_') then Malformed
      else
        var r := ReadPattern(p[2..]);
        if r.Malformed? then r else Pattern([Exactly(p[1])] + r.tokens)
    else
      var r := ReadPattern(p[1..]);
      var t := if p[0] == '%' then AnyString else if p[0] == '_' then AnyChar else Exactly(p[0]);
      if r.Malformed? then r else Pattern([t] + r.tokens)
  }

  /** fold is the case folding of the comparison. */
  predicate LikeMatch(fold: char -> char, tokens: seq<Token>, text: string)
    decreases |tokens|
  {
    if tokens == [] then text == []
    else match tokens[0]
      case Exactly(c) => text != [] && fold(text[0]) == fold(c) && LikeMatch(fold, tokens[1..], text[1..])
      case AnyChar => text != [] && LikeMatch(fold, tokens[1..], text[1..])
      case AnyString => exists i :: 0 <= i <= |text| && LikeMatch(fold, tokens[1..], text[i..])
  }

  function Exacts(value: string): (r: seq<Token>)
    ensures |r| == |value|
  {
    seq(|value|, i requires 0 <= i < |value| => Exactly(value[i]))
  }

  lemma ReadEscaped(c: char, more: string)
    requires ReadPattern(more).Pattern?
    ensures ReadPattern(InPattern(c) + more) == Pattern([Exactly(c)] + ReadPattern(more).tokens)
  {
    var whole := InPattern(c) + more;
    if |InPattern(c)| == 2 {
      assert whole[0] == BACKSLASH && whole[1] == c && whole[2..] == more;
    } else {
      assert whole[0] == c && whole[1..] == more;
    }
  }

  lemma {:induction false} PatternReads(value: string, tail: string)
    requires ReadPattern(tail).Pattern?
    ensures ReadPattern(EachInPattern(value) + tail) == Pattern(Exacts(value) + ReadPattern(tail).tokens)
  {
    var tokens := ReadPattern(tail).tokens;
    if value == [] {
      assert EachInPattern(value) + tail == tail && Exacts(value) + tokens == tokens;
    } else {
      PatternReads(value[1..], tail);
      ReadEscaped(value[0], EachInPattern(value[1..]) + tail);
      InPatternCons(value, tail);
      ExactsCons(value, tokens);
    }
  }

  lemma InPatternCons(value: string, more: string)
    requires value != []
    ensures EachInPattern(value) + more == InPattern(value[0]) + (EachInPattern(value[1..]) + more)
  {
  }

  lemma ExactsCons(value: string, more: seq<Token>)
    requires value != []
    ensures Exacts(value) + more == [Exactly(value[0])] + (Exacts(value[1..]) + more)
  {
  }

  /** text has value at position i, up to case folding. */
  predicate At(fold: char -> char, text: string, value: string, i: nat) {
    i + |value| <= |text| && forall j :: 0 <= j < |value| ==> fold(text[i + j]) == fold(value[j])
  }

  predicate ContainsText(fold: char -> char, text: string, value: string) {
    exists i :: 0 <= i <= |text| && At(fold, text, value, i)
  }

  lemma AnyEnd(fold: char -> char, text: string)
    ensures LikeMatch(fold, [AnyString], text)
  {
    assert text[|text|..] == [] && [AnyString][1..] == [];
    assert LikeMatch(fold, [], text[|text|..]);
  }

  lemma {:induction false} ExactsMatch(fold: char -> char, value: string, text: string)
    ensures LikeMatch(fold, Exacts(value) + [AnyString], text) <==> At(fold, text, value, 0)
    decreases |value|
  {
    var tokens := Exacts(value) + [AnyString];
    if value == [] {
      assert tokens == [AnyString];
      AnyEnd(fold, text);
    } else if text != [] {
      assert tokens[0] == Exactly(value[0]) && tokens[1..] == Exacts(value[1..]) + [AnyString];
      ExactsMatch(fold, value[1..], text[1..]);
      assert At(fold, text[1..], value[1..], 0) && fold(text[0]) == fold(value[0]) ==> At(fold, text, value, 0) by {
        if At(fold, text[1..], value[1..], 0) && fold(text[0]) == fold(value[0]) {
          forall j | 0 <= j < |value| ensures fold(text[0 + j]) == fold(value[j]) {
            if j > 0 { assert fold(text[1..][0 + (j - 1)]) == fold(value[1..][j - 1]); }
          }
        }
      }
    } else {
      assert tokens[0] == Exactly(value[0]);
    }
  }

  lemma AtShift(fold: char -> char, text: string, value: string, i: nat)
    requires i <= |text|
    ensures At(fold, text[i..], value, 0) <==> At(fold, text, value, i)
  {
    if At(fold, text, value, i) {
      forall j | 0 <= j < |value| ensures fold(text[i..][0 + j]) == fold(value[j]) {
        assert text[i..][j] == text[i + j];
      }
    }
    if At(fold, text[i..], value, 0) {
      forall j | 0 <= j < |value| ensures fold(text[i + j]) == fold(value[j]) {
        assert text[i..][0 + j] == text[i + j];
      }
    }
  }

  /**
   * For every value, the condition's literal ends where it should, its content is a proper LIKE
   * pattern, and the pattern matches exactly the texts that contain the value, up to case folding.
   */
  lemma LikeFindsExactlyTheValue(fold: char -> char, name: string, value: string, text: string)
    ensures var start := name + " LIKE '";
            var condition := LikeCondition(name, value);
            && condition[..|start|] == start
            && var literal := ReadLiteral(condition[|start|..]);
               && literal.Literal? && literal.rest == " ESCAPE '\\'"
               && var pattern := ReadPattern(literal.content);
                  && pattern.Pattern?
                  && (LikeMatch(fold, pattern.tokens, text) <==> ContainsText(fold, text, value))
  {
    var content := [PERCENT] + EachInPattern(value) + [PERCENT];
    EscapedContent(value);
    ConditionLayout(name, value);
    LiteralReadsBack(content, ESCAPE);
    PatternOf(value);
    PatternMatches(fold, value, text);
  }

  lemma EscapedContent(value: string)
    ensures [PERCENT] + EscapeFilterValue(value) + [PERCENT]
         == EachDoubled([PERCENT] + EachInPattern(value) + [PERCENT])
  {
    EscapeIsPerCharacter(value);
    DoubledConcat([PERCENT] + EachInPattern(value), [PERCENT]);
    DoubledConcat([PERCENT], EachInPattern(value));
    assert [PERCENT][1..] == [];
  }

  lemma ConditionLayout(name: string, value: string)
    ensures var start, body := name + LIKE, [PERCENT] + EscapeFilterValue(value) + [PERCENT];
            LikeCondition(name, value) == start + (body + ([QUOTE] + ESCAPE))
    ensures ESCAPE[0] == ' '
  {
  }

  lemma PatternOf(value: string)
    ensures ReadPattern([PERCENT] + EachInPattern(value) + [PERCENT])
         == Pattern([AnyString] + (Exacts(value) + [AnyString]))
  {
    var tail := [PERCENT];
    assert tail[1..] == [] && ReadPattern(tail) == Pattern([AnyString] + []);
    PatternReads(value, tail);
    var p := [PERCENT] + EachInPattern(value) + [PERCENT];
    assert p[0] == PERCENT && p[1..] == EachInPattern(value) + tail;
    assert [AnyString] + [] == [AnyString];
  }

  lemma PatternMatches(fold: char -> char, value: string, text: string)
    ensures LikeMatch(fold, [AnyString] + (Exacts(value) + [AnyString]), text) <==> ContainsText(fold, text, value)
  {
    var tokens := [AnyString] + (Exacts(value) + [AnyString]);
    assert tokens[0] == AnyString && tokens[1..] == Exacts(value) + [AnyString];
    forall i | 0 <= i <= |text| ensures LikeMatch(fold, tokens[1..], text[i..]) <==> At(fold, text, value, i) {
      ExactsMatch(fold, value, text[i..]);
      AtShift(fold, text, value, i);
    }
  }
}
