/** The part of regular expressions that robots patterns are turned into. */
module Regex {
  import opened Common

  datatype Token = Literal(c: char) | AnyRun | EndOfInput

  /** `.` matches anything but these. */
  predicate LineTerminator(c: char) { c == '\n' || c == '\r' || c == '\U{2028}' || c == '\U{2029}' }

  predicate OneLine(s: string) { forall k | 0 <= k < |s| :: !LineTerminator(s[k]) }

  /** Characters with a meaning of their own in a regular expression, `$` and `*` apart. */
  predicate Meta(c: char) { c in {'.', '+', '?', '^', '{', '}', '(', ')', '|', '[', ']', '\\'} }

  /** The text of a regular expression read as tokens; `None` for syntax the translation never writes. */
  function Read(re: string): Option<seq<Token>> {
    if re == "" then Some([])
    else if re[0] == '\\' then
      if |re| >= 2 && Meta(re[1]) then Prepend(Literal(re[1]), Read(re[2..])) else None
    else if re[0] == '.' then
      if |re| >= 2 && re[1] == '*' then Prepend(AnyRun, Read(re[2..])) else None
    else if re[0] == '$' then Prepend(EndOfInput, Read(re[1..]))
    else if Meta(re[0]) || re[0] == '*' then None
    else Prepend(Literal(re[0]), Read(re[1..]))
  }

  function Prepend(t: Token, ts: Option<seq<Token>>): Option<seq<Token>> {
    if ts.Some? then Some([t] + ts.value) else None
  }

  /** The tokens match some beginning of the text. */
  predicate Matches(tokens: seq<Token>, s: string)
    decreases |tokens|
  {
    tokens == []
    || match tokens[0]
       case Literal(c) => s != "" && s[0] == c && Matches(tokens[1..], s[1..])
       case EndOfInput => s == "" && Matches(tokens[1..], s)
       case AnyRun => exists k :: 0 <= k <= |s| && OneLine(s[..k]) && Matches(tokens[1..], s[k..])
  }

  function Literals(s: string): (ts: seq<Token>)
    ensures |ts| == |s|
  {
    if s == "" then [] else [Literal(s[0])] + Literals(s[1..])
  }

  lemma BeginsStep(text: string, s: string)
    requires text != "" && s != "" && text[0] == s[0]
    ensures |text| <= |s| && s[..|text|] == text <==> |text[1..]| <= |s[1..]| && s[1..][..|text[1..]|] == text[1..]
    ensures |text| <= |s| ==> s[1..][|text[1..]|..] == s[|text|..]
  {
    if |text| <= |s| {
      assert s[..|text|] == [s[0]] + s[1..][..|text| - 1];
      assert text == [text[0]] + text[1..];
    }
  }

  lemma {:induction false} LiteralsMatch(text: string, more: seq<Token>, s: string)
    ensures Matches(Literals(text) + more, s) <==> |text| <= |s| && s[..|text|] == text && Matches(more, s[|text|..])
    decreases |text|
  {
    if text == "" {
      assert Literals(text) + more == more;
    } else {
      assert (Literals(text) + more)[1..] == Literals(text[1..]) + more;
      if s != "" && s[0] == text[0] {
        LiteralsMatch(text[1..], more, s[1..]);
        BeginsStep(text, s);
      }
    }
  }
}

/** Patterns of robots.txt rules, what they mean, and how rules decide. */
module Robots {
  import opened Common
  import opened Text
  import opened Regex

  // ------------------------------------------------------------------ the translation

  /** First pass: a backslash before every character with a meaning of its own. */
  function Escape(body: string): string {
    if body == "" then "" else (if Meta(body[0]) then ['\\', body[0]] else [body[0]]) + Escape(body[1..])
  }

  /** Second pass: stars become runs of anything. */
  function ExpandStars(escaped: string): string {
    if escaped == "" then "" else (if escaped[0] == '*' then ".*" else [escaped[0]]) + ExpandStars(escaped[1..])
  }

  predicate Anchored(pattern: string) { pattern != "" && pattern[|pattern| - 1] == '$' }

  function Body(pattern: string): string { if Anchored(pattern) then pattern[..|pattern| - 1] else pattern }

  /** The regular expression without its leading `^`, which says that matching begins at the start of the path. */
  function Expression(pattern: string): string {
    ExpandStars(Escape(Body(pattern))) + if Anchored(pattern) then "$" else ""
  }

  predicate PathMatchesPattern(path: string, pattern: string) {
    pattern != "" && var tokens := Read(Expression(pattern)); tokens.Some? && Matches(tokens.value, path)
  }

  // ------------------------------------------------------------------ what a pattern means

  /** The literals with a gap between each two; gaps hold no line break. */
  function Woven(literals: seq<string>, gaps: seq<string>): string
    requires |literals| == |gaps| + 1
  {
    if gaps == [] then literals[0] else literals[0] + gaps[0] + Woven(literals[1..], gaps[1..])
  }

  predicate NoLineBreak(s: string) {
    forall k | 0 <= k < |s| :: s[k] != '\n' && s[k] != '\r' && s[k] != '\U{2028}' && s[k] != '\U{2029}'
  }

  predicate Gaps(gaps: seq<string>) { forall k | 0 <= k < |gaps| :: NoLineBreak(gaps[k]) }

  /** The path, or some beginning of it unless `whole`, is the literals with gaps between them. */
  ghost predicate Decomposes(path: string, literals: seq<string>, whole: bool) {
    exists gaps: seq<string> :: |literals| == |gaps| + 1 && Gaps(gaps)
      && if whole then path == Woven(literals, gaps) else StartsWith(path, Woven(literals, gaps))
  }

  predicate OnlyStarsAndEnds(s: string) { forall k | 0 <= k < |s| :: s[k] == '*' || s[k] == '$' }

  /**
   * A pattern is literals with gaps at its stars, for the whole path when it ends in `$`. A `$` further in also stands
   * for the end, so what comes after it must be able to match nothing.
   */
  ghost predicate Means(pattern: string, path: string) {
    pattern != ""
    && var body := Body(pattern);
       var d := Find(body, '$');
       if d == |body| then Decomposes(path, Split(body, '*'), Anchored(pattern))
       else OnlyStarsAndEnds(body[d..]) && Decomposes(path, Split(body[..d], '*'), true)
  }

  // ------------------------------------------------------------------ the translation read back

  function Token(c: char): Token { if c == '*' then AnyRun else if c == '$' then EndOfInput else Literal(c) }

  function Tokens(body: string): (ts: seq<Token>)
    ensures |ts| == |body| && forall k | 0 <= k < |body| :: ts[k] == Token(body[k])
  {
    if body == "" then [] else [Token(body[0])] + Tokens(body[1..])
  }

  lemma {:induction false} ExpandStarsConcat(a: string, b: string)
    ensures ExpandStars(a + b) == ExpandStars(a) + ExpandStars(b)
  {
    if a == "" {
      assert a + b == b;
    } else {
      assert (a + b)[1..] == a[1..] + b;
      ExpandStarsConcat(a[1..], b);
    }
  }

  /** Escaping and star expansion together read back as one token for each character of the pattern. */
  lemma {:induction false} TranslationReadsBack(body: string, rest: string)
    requires rest == "" || rest == "$"
    ensures Read(ExpandStars(Escape(body)) + rest) == Some(Tokens(body) + Tokens(rest))
  {
    if body == "" {
      EndReadsBack(rest);
    } else {
      hide Read;
      var c := body[0];
      var head := if Meta(c) then ['\\', c] else [c];
      var tail := ExpandStars(Escape(body[1..])) + rest;
      ExpandStarsConcat(head, Escape(body[1..]));
      TranslationReadsBack(body[1..], rest);
      HeadReadsBack(c, tail);
      Associate(ExpandStars(head), ExpandStars(Escape(body[1..])), rest);
      Associate([Token(c)], Tokens(body[1..]), Tokens(rest));
    }
  }

  lemma EndReadsBack(rest: string)
    requires rest == "" || rest == "$"
    ensures Read(ExpandStars(Escape("")) + rest) == Some(Tokens("") + Tokens(rest))
  {
    assert ExpandStars(Escape("")) + rest == rest;
    if rest == "$" {
      var none: seq<Token> := [];
      assert "$"[1..] == "" && Read("") == Some(none);
      assert Read("$") == Some([EndOfInput] + none);
      assert Tokens("") + Tokens("$") == [EndOfInput] + none;
    }
  }

  lemma HeadReadsBack(c: char, tail: string)
    ensures Read(ExpandStars(if Meta(c) then ['\\', c] else [c]) + tail) == Prepend(Token(c), Read(tail))
  {
    if Meta(c) {
      assert ['\\', c][1..] == [c] && [c][1..] == "";
      assert ExpandStars([c]) == [c] + ExpandStars("");
      var re := ExpandStars(['\\', c]) + tail;
      assert re == ['\\', c] + tail;
      assert re[2..] == tail;
    } else if c == '*' {
      assert [c][1..] == "";
      assert ExpandStars([c]) == ".*" + ExpandStars([c][1..]);
      var re := ExpandStars([c]) + tail;
      assert re == ['.', '*'] + tail;
      assert re[2..] == tail;
    } else {
      assert [c][1..] == "";
      assert ExpandStars([c]) == [c] + ExpandStars([c][1..]);
      var re := ExpandStars([c]) + tail;
      assert re == [c] + tail;
      assert re[1..] == tail;
    }
  }

  // ------------------------------------------------------------------ matching is decomposing

  /** Decomposing, one literal at a time. */
  ghost predicate Fits(literals: seq<string>, path: string, whole: bool)
    requires literals != []
    decreases |literals|
  {
    StartsWith(path, literals[0])
    && var rest := path[|literals[0]|..];
       if |literals| == 1 then whole ==> rest == ""
       else exists k :: 0 <= k <= |rest| && OneLine(rest[..k]) && Fits(literals[1..], rest[k..], whole)
  }

  /** Text that begins with, or is, a weaving. */
  predicate Covers(path: string, woven: string, whole: bool) { if whole then path == woven else StartsWith(path, woven) }

  lemma CoversMore(path: string, first: string, gap: string, tail: string, woven: string, whole: bool)
    requires path == first + gap + tail && Covers(tail, woven, whole)
    ensures Covers(path, first + gap + woven, whole)
  {
    if !whole {
      var n := |first| + |gap|;
      assert path[..n + |woven|] == first + gap + tail[..|woven|];
    }
  }

  lemma CoversAlone(path: string, first: string, whole: bool)
    requires StartsWith(path, first) && (whole ==> path[|first|..] == "")
    ensures Covers(path, first, whole) && Gaps([])
  {
    assert path == first + path[|first|..];
  }

  lemma MoreGaps(gap: string, gaps: seq<string>)
    requires OneLine(gap) && Gaps(gaps)
    ensures Gaps([gap] + gaps)
  {
  }

  lemma {:induction false} FitsDecomposes(literals: seq<string>, path: string, whole: bool) returns (gaps: seq<string>)
    requires literals != [] && Fits(literals, path, whole)
    ensures |literals| == |gaps| + 1 && Gaps(gaps) && Covers(path, Woven(literals, gaps), whole)
    decreases |literals|
  {
    hide OneLine, Gaps, Covers;
    var first := literals[0];
    var rest := path[|first|..];
    assert path == first + rest;
    if |literals| == 1 {
      gaps := [];
      CoversAlone(path, first, whole);
    } else {
      var k :| 0 <= k <= |rest| && OneLine(rest[..k]) && Fits(literals[1..], rest[k..], whole);
      var more := FitsDecomposes(literals[1..], rest[k..], whole);
      gaps := [rest[..k]] + more;
      assert gaps[1..] == more;
      MoreGaps(rest[..k], more);
      assert rest == rest[..k] + rest[k..];
      CoversMore(path, first, rest[..k], rest[k..], Woven(literals[1..], more), whole);
    }
  }

  lemma {:induction false} WovenFits(literals: seq<string>, gaps: seq<string>, path: string, whole: bool)
    requires |literals| == |gaps| + 1 && Gaps(gaps)
    requires if whole then path == Woven(literals, gaps) else StartsWith(path, Woven(literals, gaps))
    ensures Fits(literals, path, whole)
    decreases |literals|
  {
    var first := literals[0];
    var woven := Woven(literals, gaps);
    assert path[..|woven|] == woven;
    assert woven[..|first|] == first;
    assert path[..|first|] == path[..|woven|][..|first|];
    var rest := path[|first|..];
    if |literals| > 1 {
      var tail := Woven(literals[1..], gaps[1..]);
      var k := |gaps[0]|;
      assert woven == first + gaps[0] + tail;
      assert rest[..k] == path[..|woven|][|first|..|first| + k] == gaps[0];
      assert rest[k..] == path[|first| + k..];
      assert rest[k..][..|tail|] == path[..|woven|][|first| + k..] == tail;
      WovenFits(literals[1..], gaps[1..], rest[k..], whole);
    }
  }

  lemma FitsIffDecomposes(literals: seq<string>, path: string, whole: bool)
    requires literals != []
    ensures Fits(literals, path, whole) <==> Decomposes(path, literals, whole)
  {
    if Fits(literals, path, whole) {
      var gaps := FitsDecomposes(literals, path, whole);
    }
    if Decomposes(path, literals, whole) {
      var gaps: seq<string> :| |literals| == |gaps| + 1 && Gaps(gaps)
        && if whole then path == Woven(literals, gaps) else StartsWith(path, Woven(literals, gaps));
      WovenFits(literals, gaps, path, whole);
    }
  }

  lemma {:induction false} LiteralTokens(text: string)
    requires forall k | 0 <= k < |text| :: text[k] != '*' && text[k] != '$'
    ensures Tokens(text) == Literals(text)
  {
    if text != "" {
      LiteralTokens(text[1..]);
    }
  }

  lemma {:induction false} TokensConcat(a: string, b: string)
    ensures Tokens(a + b) == Tokens(a) + Tokens(b)
  {
    if a == "" {
      assert a + b == b;
    } else {
      assert (a + b)[1..] == a[1..] + b;
      TokensConcat(a[1..], b);
    }
  }

  /** What stands after the end can match only by matching nothing. */
  lemma {:induction false} AfterTheEnd(s: string)
    ensures Matches(Tokens(s), "") <==> OnlyStarsAndEnds(s)
  {
    if s != "" {
      AfterTheEnd(s[1..]);
      assert Tokens(s)[1..] == Tokens(s[1..]);
      assert OnlyStarsAndEnds(s) <==> (s[0] == '*' || s[0] == '$') && OnlyStarsAndEnds(s[1..]) by {
        assert forall k | 0 <= k < |s[1..]| :: s[1..][k] == s[k + 1];
      }
      if s[0] == '*' {
        var empty := "";
        assert empty[..0] == "" && empty[0..] == "";
        assert OneLine(empty[..0]);
      }
    }
  }

  lemma TokensAround(a: string, b: string)
    ensures Tokens(a + ['*'] + b) == Tokens(a) + ([AnyRun] + Tokens(b))
  {
    TokensConcat(a + ['*'], b);
    TokensConcat(a, ['*']);
    assert ['*'][1..] == "" && Tokens(['*']) == [AnyRun] + Tokens(['*'][1..]);
    Associate(Tokens(a), [AnyRun], Tokens(b));
  }

  /** The tokens of a pattern, split at its first star. */
  lemma TokensAtStar(text: string, end: string)
    requires Find(text, '*') < |text| && forall k | 0 <= k < |text| :: text[k] != '$'
    ensures var i := Find(text, '*');
            Tokens(text) + Tokens(end) == Literals(text[..i]) + ([AnyRun] + (Tokens(text[i + 1..]) + Tokens(end)))
  {
    hide Tokens, Literals;
    var i := Find(text, '*');
    var first, rest := text[..i], text[i + 1..];
    LiteralTokens(first);
    assert text == first + ['*'] + rest;
    TokensAround(first, rest);
    Regroup(Literals(first), [AnyRun], Tokens(rest), Tokens(end));
  }

  lemma Regroup<T>(a: seq<T>, b: seq<T>, c: seq<T>, d: seq<T>)
    ensures a + (b + c) + d == a + (b + (c + d))
  {
  }

  lemma FitsAtStar(text: string, path: string, whole: bool)
    requires Find(text, '*') < |text|
    ensures var i := Find(text, '*');
            Fits(Split(text, '*'), path, whole)
            <==> StartsWith(path, text[..i]) && FitsAfterGap(Split(text[i + 1..], '*'), path[i..], whole)
  {
    var i := Find(text, '*');
    assert Split(text, '*') == [text[..i]] + Split(text[i + 1..], '*');
    assert Split(text, '*')[1..] == Split(text[i + 1..], '*');
  }

  lemma FitsWithoutStar(text: string, path: string, whole: bool)
    requires Find(text, '*') == |text|
    ensures Fits(Split(text, '*'), path, whole) <==> StartsWith(path, text) && (whole ==> path[|text|..] == "")
  {
    assert Split(text, '*') == [text];
  }

  ghost predicate FitsAfterGap(literals: seq<string>, path: string, whole: bool)
    requires literals != []
  {
    exists k :: 0 <= k <= |path| && OneLine(path[..k]) && Fits(literals, path[k..], whole)
  }

  /** Literals and stars up to an optional end, after which only stars and ends may come. */
  lemma {:induction false} TokensFit(text: string, end: string, path: string)
    requires forall k | 0 <= k < |text| :: text[k] != '$'
    requires end == "" || end[0] == '$'
    ensures Matches(Tokens(text) + Tokens(end), path)
            <==> Fits(Split(text, '*'), path, end != "") && OnlyStarsAndEnds(end)
    decreases |text|, 0
  {
    hide Fits, FitsAfterGap, Matches, Tokens, Literals, Split, OnlyStarsAndEnds;
    var i := Find(text, '*');
    if i == |text| {
      LiteralTokens(text);
      LiteralsMatch(text, Tokens(end), path);
      FitsWithoutStar(text, path, end != "");
      if StartsWith(path, text) {
        EndMatches(end, path[i..]);
      }
    } else {
      TokensAtStar(text, end);
      FitsAtStar(text, path, end != "");
      LiteralsMatch(text[..i], [AnyRun] + (Tokens(text[i + 1..]) + Tokens(end)), path);
      if StartsWith(path, text[..i]) {
        RunFits(text[i + 1..], end, path[i..], [AnyRun] + (Tokens(text[i + 1..]) + Tokens(end)));
      }
    }
  }

  lemma EndMatches(end: string, rest: string)
    requires end == "" || end[0] == '$'
    ensures Matches(Tokens(end), rest) <==> (end != "" ==> rest == "") && OnlyStarsAndEnds(end)
  {
    AfterTheEnd(end);
    if end != "" && rest == "" {
      assert rest == "";
    }
  }

  lemma RunFits(rest: string, end: string, path: string, more: seq<Token>)
    requires forall k | 0 <= k < |rest| :: rest[k] != '$'
    requires end == "" || end[0] == '$'
    requires more == [AnyRun] + (Tokens(rest) + Tokens(end))
    ensures Matches(more, path)
            <==> OnlyStarsAndEnds(end) && FitsAfterGap(Split(rest, '*'), path, end != "")
    decreases |rest|, 1
  {
    assert more[1..] == Tokens(rest) + Tokens(end);
    forall k | 0 <= k <= |path|
      ensures Matches(more[1..], path[k..]) <==> Fits(Split(rest, '*'), path[k..], end != "") && OnlyStarsAndEnds(end)
    {
      TokensFit(rest, end, path[k..]);
    }
  }

  /** The tokens of a whole pattern, split at its first end. */
  lemma TokensAtEnd(body: string, final: string)
    requires final == "" || final == "$"
    ensures var d := Find(body, '$');
            Tokens(body) + Tokens(final) == Tokens(body[..d]) + Tokens(body[d..] + final)
  {
    hide Tokens;
    var d := Find(body, '$');
    assert body == body[..d] + body[d..];
    TokensConcat(body[..d], body[d..]);
    TokensConcat(body[d..], final);
    Associate(Tokens(body[..d]), Tokens(body[d..]), Tokens(final));
  }

  lemma EndsOnly(s: string, final: string)
    requires final == "" || final == "$"
    ensures OnlyStarsAndEnds(s + final) <==> OnlyStarsAndEnds(s)
  {
    assert forall k | 0 <= k < |s| :: (s + final)[k] == s[k];
  }

  /** The tokens of a pattern match exactly if its text up to the first end decomposes the path and only stars and ends follow. */
  lemma BodyFits(path: string, body: string, final: string)
    requires final == "" || final == "$"
    ensures var d := Find(body, '$');
            Matches(Tokens(body) + Tokens(final), path)
            <==> OnlyStarsAndEnds(body[d..]) && Decomposes(path, Split(body[..d], '*'), body[d..] + final != "")
  {
    hide Matches, Tokens, Fits, Decomposes, Split, OnlyStarsAndEnds, Find;
    var d := Find(body, '$');
    TokensAtEnd(body, final);
    TokensFit(body[..d], body[d..] + final, path);
    EndsOnly(body[d..], final);
    FitsIffDecomposes(Split(body[..d], '*'), path, body[d..] + final != "");
  }

  lemma ReadsAsTokens(path: string, pattern: string)
    requires pattern != ""
    ensures PathMatchesPattern(path, pattern)
            <==> Matches(Tokens(Body(pattern)) + Tokens(if Anchored(pattern) then "$" else ""), path)
  {
    hide Matches, Read, Tokens, ExpandStars, Escape, Body, Anchored;
    TranslationReadsBack(Body(pattern), if Anchored(pattern) then "$" else "");
  }

  /** The translation preserves meaning, for every pattern and every path. */
  lemma MatchesWhatItMeans(path: string, pattern: string)
    ensures PathMatchesPattern(path, pattern) <==> Means(pattern, path)
  {
    if pattern != "" {
      hide PathMatchesPattern, Matches, Tokens, Decomposes, Split, OnlyStarsAndEnds, Body, Anchored, Find;
      var body := Body(pattern);
      var final := if Anchored(pattern) then "$" else "";
      ReadsAsTokens(path, pattern);
      BodyFits(path, body, final);
      if Find(body, '$') == |body| {
        assert body[..|body|] == body && body[|body|..] == "" && "" + final == final;
        NothingIsOnly();
      }
    }
  }

  lemma NothingIsOnly()
    ensures OnlyStarsAndEnds("")
  {
  }

  /** A pattern whose only `$` ends it matches exactly the paths that are its literals with gaps at its stars. */
  lemma PlainPatterns(path: string, pattern: string)
    requires pattern != "" && forall k | 0 <= k < |pattern| - 1 :: pattern[k] != '$'
    ensures PathMatchesPattern(path, pattern) <==> Decomposes(path, Split(Body(pattern), '*'), Anchored(pattern))
  {
    hide PathMatchesPattern, Decomposes, Split, OnlyStarsAndEnds;
    MatchesWhatItMeans(path, pattern);
  }

  // ------------------------------------------------------------------ deciding

  datatype Decision = Decision(allowed: bool, reason: DecisionReason)
  datatype DecisionReason = Allow | Disallow | NoRules

  /** A rule at least as long as every rule of the other kind that matches. */
  predicate Outranks(path: string, pattern: string, others: seq<string>) {
    forall k | 0 <= k < |others| && PathMatchesPattern(path, others[k]) :: |others[k]| < |pattern|
  }

  predicate SomeMatch(path: string, rules: seq<string>) { exists k :: 0 <= k < |rules| && PathMatchesPattern(path, rules[k]) }

  /** Some matching allow rule is strictly longer than every matching disallow rule. */
  predicate AllowWins(path: string, allow: seq<string>, disallow: seq<string>) {
    exists k :: 0 <= k < |allow| && PathMatchesPattern(path, allow[k]) && Outranks(path, allow[k], disallow)
  }

  /** The length of the longest matching rule, or minus one. */
  predicate IsLongest(path: string, rules: seq<string>, best: int) {
    && (forall k | 0 <= k < |rules| && PathMatchesPattern(path, rules[k]) :: |rules[k]| <= best)
    && (best == -1 || exists k :: 0 <= k < |rules| && PathMatchesPattern(path, rules[k]) && |rules[k]| == best)
  }

  method Longest(path: string, rules: seq<string>) returns (best: int)
    ensures IsLongest(path, rules, best)
  {
    best := -1;
    for i := 0 to |rules|
      invariant IsLongest(path, rules[..i], best)
    {
      ghost var before := best;
      if PathMatchesPattern(path, rules[i]) {
        best := Max(best, |rules[i]|);
      }
      LongestMore(path, rules[..i], rules[i], before);
      assert rules[..i] + [rules[i]] == rules[..i + 1];
    }
    assert rules[..|rules|] == rules;
  }

  lemma LongestMore(path: string, rules: seq<string>, rule: string, best: int)
    requires IsLongest(path, rules, best)
    ensures IsLongest(path, rules + [rule], if PathMatchesPattern(path, rule) then Max(best, |rule|) else best)
  {
    hide PathMatchesPattern;
    var more := rules + [rule];
    var now := if PathMatchesPattern(path, rule) then Max(best, |rule|) else best;
    assert more[|rules|] == rule;
    if k :| 0 <= k < |rules| && PathMatchesPattern(path, rules[k]) && |rules[k]| == best {
      assert more[k] == rules[k];
    }
  }

  method DecidePath(path: string, allow: seq<string>, disallow: seq<string>) returns (d: Decision)
    ensures d.allowed <==> AllowWins(path, allow, disallow) || !SomeMatch(path, disallow)
    ensures d.reason.NoRules? <==> !SomeMatch(path, allow) && !SomeMatch(path, disallow)
    ensures d.reason.Disallow? <==> !d.allowed
  {
    hide PathMatchesPattern;
    var bestAllow := Longest(path, allow);
    var bestDisallow := Longest(path, disallow);
    if bestAllow == -1 && bestDisallow == -1 {
      return Decision(true, NoRules);
    }
    if bestAllow > bestDisallow {
      return Decision(true, Allow);
    }
    return Decision(false, Disallow);
  }

  /** The order of the rules, and how often one is repeated, make no difference. */
  lemma OrderDoesNotMatter(path: string, allow: seq<string>, disallow: seq<string>, allow': seq<string>, disallow': seq<string>)
    requires forall r: string :: (r in allow <==> r in allow') && (r in disallow <==> r in disallow')
    ensures AllowWins(path, allow, disallow) <==> AllowWins(path, allow', disallow')
    ensures SomeMatch(path, disallow) <==> SomeMatch(path, disallow')
    ensures SomeMatch(path, allow) <==> SomeMatch(path, allow')
  {
    hide PathMatchesPattern;
    SomeMatchIn(path, allow, allow');
    SomeMatchIn(path, allow', allow);
    SomeMatchIn(path, disallow, disallow');
    SomeMatchIn(path, disallow', disallow);
    AllowWinsIn(path, allow, disallow, allow', disallow');
    AllowWinsIn(path, allow', disallow', allow, disallow);
  }

  lemma SomeMatchIn(path: string, rules: seq<string>, others: seq<string>)
    requires forall r: string :: r in rules ==> r in others
    ensures SomeMatch(path, rules) ==> SomeMatch(path, others)
  {
    hide PathMatchesPattern;
    if k :| 0 <= k < |rules| && PathMatchesPattern(path, rules[k]) {
      assert rules[k] in others;
    }
  }

  lemma AllowWinsIn(path: string, allow: seq<string>, disallow: seq<string>, allow': seq<string>, disallow': seq<string>)
    requires forall r: string :: (r in allow ==> r in allow') && (r in disallow' ==> r in disallow)
    ensures AllowWins(path, allow, disallow) ==> AllowWins(path, allow', disallow')
  {
    hide PathMatchesPattern;
    if k :| 0 <= k < |allow| && PathMatchesPattern(path, allow[k]) && Outranks(path, allow[k], disallow) {
      assert allow[k] in allow';
      forall j | 0 <= j < |disallow'| && PathMatchesPattern(path, disallow'[j]) ensures |disallow'[j]| < |allow[k]| {
        assert disallow'[j] in disallow;
      }
    }
  }
}
