/**
 * How `FileParser` treats one line: the strict two-field pattern built in
 * `parse_content`, the split in `_parse_line`, the fallback heuristics of
 * `_parse_fallback`, and the resulting classification of a line as skipped,
 * a pair, or an error.
 */
module LineParser {
  import opened Options
  import opened Text

  /** Characters that mean something in or around a regular-expression character class. */
  const RegexMeta: set<char> := {'.', '^', '$', '*', '+', '?', '{', '}', '[', ']', '\\', '|', '(', ')', '-'}

  /**
   * A delimiter that, pasted raw into `^[^d]+d[^d]+$`, means what it says:
   * non-empty and free of regular-expression metacharacters (tab, `,`, `;`, `##`).
   * The single characters `-`, `]`, `{` and `}` are read literally there too;
   * they are left out only to keep one simple condition. For the other
   * metacharacters the pattern means something else or fails to compile.
   */
  predicate PlainDelimiter(d: string) {
    d != [] && forall k :: 0 <= k < |d| ==> d[k] !in RegexMeta
  }

  /** No character of `s` is a character of `d` (what `[^d]+` accepts). */
  predicate NoCharOf(s: string, d: string) {
    forall k :: 0 <= k < |s| ==> s[k] !in d
  }

  // ---------------------------------------------------------------------------
  // The strict pattern ^[^d]+d[^d]+$

  /** `line` is `a + d + b` with `a` and `b` non-empty and free of characters of `d`. */
  ghost predicate PatternSplit(line: string, d: string, a: string, b: string) {
    && line == a + d + b
    && a != [] && b != []
    && NoCharOf(a, d) && NoCharOf(b, d)
  }

  /** The meaning of `^[^d]+d[^d]+$` for a plain delimiter `d`. */
  ghost predicate MatchesPatternSpec(line: string, d: string) {
    exists a, b :: PatternSplit(line, d, a, b)
  }

  /** The index of the first character of `s` that is a character of `d`, or `|s|`. */
  function FirstCharOf(s: string, d: string): (i: nat)
    ensures i <= |s| && NoCharOf(s[..i], d)
    ensures i < |s| ==> s[i] in d
  {
    if s == [] || s[0] in d then 0
    else
      var i := 1 + FirstCharOf(s[1..], d);
      assert forall k :: 1 <= k < i ==> s[..i][k] == s[1..][..i - 1][k - 1];
      i
  }

  /** The first character of `d` in `s` is at `j` when `s[j]` is one and none comes before. */
  lemma {:induction false} FirstCharOfIs(s: string, d: string, j: nat)
    requires j < |s| && s[j] in d && NoCharOf(s[..j], d)
    ensures FirstCharOf(s, d) == j
  {
    if j > 0 {
      assert s[0] == s[..j][0];
      assert s[1..][..j - 1] == s[..j][1..];
      FirstCharOfIs(s[1..], d, j - 1);
    }
  }

  /** `re.match(pattern, line)` for the pattern of `parse_content`, computed directly. */
  function MatchesPattern(line: string, d: string): bool
    requires d != []
  {
    var i := FirstCharOf(line, d);
    && 0 < i && i + |d| < |line|
    && line[i..i + |d|] == d
    && NoCharOf(line[i + |d|..], d)
  }

  /** The computed match agrees with the meaning of the pattern, in both directions. */
  lemma MatchesPatternIff(line: string, d: string)
    requires d != []
    ensures MatchesPattern(line, d) <==> MatchesPatternSpec(line, d)
  {
    var i := FirstCharOf(line, d);
    if MatchesPattern(line, d) {
      var a, b := line[..i], line[i + |d|..];
      assert line == a + d + b;
      assert PatternSplit(line, d, a, b);
    }
    if MatchesPatternSpec(line, d) {
      var a, b :| PatternSplit(line, d, a, b);
      assert line[|a|] == d[0];
      assert line[..|a|] == a;
      FirstCharOfIs(line, d, |a|);
      assert line[i..i + |d|] == d;
      assert line[i + |d|..] == b;
    }
  }

  // ---------------------------------------------------------------------------
  // The pipe delimiter

  /** The `|` delimiter of the pipe format. */
  const Pipe: string := "|"

  /**
   * For `|` the pattern reads `^[^|]+|[^|]+$`: an alternation whose first
   * branch accepts any line that starts with at least one character other
   * than `|`. `re.match` tries it at the start of the line.
   */
  ghost predicate MatchesPipePatternSpec(line: string) {
    exists n :: 0 < n <= |line| && NoCharOf(line[..n], Pipe)
  }

  /** `re.match(pattern, line)` for the pipe pattern, computed directly. */
  function MatchesPipePattern(line: string): bool {
    line != [] && line[0] != '|'
  }

  /** The computed pipe match agrees with the meaning of the pattern, in both directions. */
  lemma MatchesPipePatternIff(line: string)
    ensures MatchesPipePattern(line) <==> MatchesPipePatternSpec(line)
  {
    if MatchesPipePattern(line) {
      assert NoCharOf(line[..1], Pipe);
    }
    if MatchesPipePatternSpec(line) {
      var n :| 0 < n <= |line| && NoCharOf(line[..n], Pipe);
      assert line[..n][0] == line[0];
    }
  }

  /** A delimiter whose pattern the model captures: a plain one, or `|`. */
  predicate SupportedDelimiter(d: string) {
    PlainDelimiter(d) || d == Pipe
  }

  /** `re.match(pattern, line)` for the pattern `parse_content` builds from `d`. */
  function PatternMatches(line: string, d: string): (r: bool)
    requires SupportedDelimiter(d)
    ensures r <==> if d == Pipe then MatchesPipePatternSpec(line) else MatchesPatternSpec(line, d)
  {
    if d == Pipe then
      MatchesPipePatternIff(line);
      MatchesPipePattern(line)
    else
      MatchesPatternIff(line, d);
      MatchesPattern(line, d)
  }

  // ---------------------------------------------------------------------------
  // _parse_line and _parse_fallback

  function StripBoth(parts: (string, string)): (string, string) {
    (Strip(parts.0), Strip(parts.1))
  }

  /**
   * `_parse_fallback`: split on the first double space, else on the first
   * colon, else at the first run of whitespace; `None` is `(None, None)`.
   */
  function ParseFallback(line: string): (r: Option<(string, string)>)
    ensures forall a, b :: SplitsAtFirst(line, "  ", a, b) ==> r == Some((Strip(a), Strip(b)))
    ensures !Contains(line, "  ") ==>
      forall a, b :: SplitsAtFirst(line, ":", a, b) ==> r == Some((Strip(a), Strip(b)))
    ensures !Contains(line, "  ") && !Contains(line, ":") ==>
      forall lead, w, gap, rest :: WhitespaceCut(line, lead, w, gap, rest) ==> r == Some((w, Strip(rest)))
  {
    SplitOnceCuts(line, "  ");
    SplitOnceCuts(line, ":");
    SplitWhitespaceOnceCuts(line);
    match SplitOnce(line, "  ")
    case Some(parts) => Some(StripBoth(parts))
    case None =>
      match SplitOnce(line, ":")
      case Some(parts) => Some(StripBoth(parts))
      case None =>
        match SplitWhitespaceOnce(line)
        case Some(parts) => Some(StripBoth(parts))
        case None => None
  }

  /** `_parse_line`: split on the first delimiter and strip both sides, else fall back. */
  function ParseLine(line: string, d: string): (r: Option<(string, string)>)
    requires d != []
    ensures forall a, b :: SplitsAtFirst(line, d, a, b) ==> r == Some((Strip(a), Strip(b)))
    ensures !Contains(line, d) ==> r == ParseFallback(line)
  {
    SplitOnceCuts(line, d);
    match SplitOnce(line, d)
    case Some(parts) => Some(StripBoth(parts))
    case None => ParseFallback(line)
  }

  /**
   * With neither a double space nor a colon, the whitespace split succeeds
   * exactly for two words; the term is then the first word and the
   * definition the stripped rest after the first run of whitespace.
   */
  lemma FallbackWhitespace(line: string)
    requires !Contains(line, "  ") && !Contains(line, ":")
    ensures ParseFallback(line).Some? <==> HasTwoWords(line)
    ensures ParseFallback(line).Some? ==> ParseFallback(line).value.0 != [] && ParseFallback(line).value.1 != []
    ensures ParseFallback(line).Some? ==>
      exists lead, gap, rest :: WhitespaceCut(line, lead, ParseFallback(line).value.0, gap, rest) && ParseFallback(line).value.1 == Strip(rest)
  {
    SplitWhitespaceOnceIff(line);
    match SplitWhitespaceOnce(line)
    case None =>
    case Some((w, rest)) =>
      var lead, gap :| WhitespaceCut(line, lead, w, gap, rest);
      assert !AllSpace(w) by { assert !IsSpace(w[0]); }
      assert !AllSpace(rest) by { assert !IsSpace(rest[0]); }
      StripUnchanged(w);
      assert WhitespaceCut(line, lead, Strip(w), gap, rest);
  }

  /** `_parse_fallback` gives `(None, None)` exactly when no rule applies. */
  lemma FallbackNone(line: string)
    ensures ParseFallback(line).None? <==> !Contains(line, "  ") && !Contains(line, ":") && !HasTwoWords(line)
  {
    if !Contains(line, "  ") && !Contains(line, ":") {
      FallbackWhitespace(line);
    }
  }

  /**
   * On a line that matches the strict pattern and has been stripped,
   * `_parse_line` cuts at the delimiter the pattern saw, never reaches the
   * fallback, and both stripped sides are non-empty.
   */
  lemma StrictMatchSplitsAtDelimiter(line: string, d: string, a: string, b: string)
    requires d != []
    requires line != [] ==> !IsSpace(line[0]) && !IsSpace(line[|line| - 1])
    requires PatternSplit(line, d, a, b)
    ensures ParseLine(line, d) == Some((Strip(a), Strip(b)))
    ensures Strip(a) != [] && Strip(b) != []
  {
    forall k | 0 <= k < |a|
      ensures !OccursAt(line, d, k)
    {
      if k + |d| <= |line| {
        assert line[k..k + |d|][0] == a[k] && a[k] !in d;
      }
    }
    assert SplitsAtFirst(line, d, a, b);
    assert !AllSpace(a) by { assert a[0] == line[0]; }
    assert !AllSpace(b) by { assert b[|b| - 1] == line[|line| - 1]; }
  }

  // ---------------------------------------------------------------------------
  // One line of parse_content

  /** What one line contributes: a skip, a pair, or an error. */
  datatype LineOutcome = Skipped | Paired(term: string, definition: string) | Malformed

  /** The stripped line is empty or a `#` comment. */
  predicate IsBlankOrComment(raw: string) {
    var line := Strip(raw);
    line == [] || line[0] == '#'
  }

  /**
   * The body of the loop in `parse_content`, for one raw line. A `(None, None)`
   * from `_parse_line` fails the `term and definition` test like empty text.
   */
  function ClassifyLine(raw: string, d: string): (r: LineOutcome)
    requires SupportedDelimiter(d)
    ensures IsBlankOrComment(raw) ==> r == Skipped
    ensures r == Malformed <==> !IsBlankOrComment(raw) && !PatternMatches(Strip(raw), d)
    ensures r.Paired? ==> r.term != [] && r.definition != [] && ParseLine(Strip(raw), d) == Some((r.term, r.definition))
  {
    var line := Strip(raw);
    if line == [] || line[0] == '#' then Skipped
    else if PatternMatches(line, d) then
      match ParseLine(line, d)
      case Some((term, definition)) =>
        if term != [] && definition != [] then Paired(term, definition) else Skipped
      case None => Skipped
    else Malformed
  }

  /** A line that fits the pattern becomes the pair of its two stripped sides. */
  lemma ClassifyPaired(raw: string, d: string, a: string, b: string)
    requires PlainDelimiter(d)
    requires !IsBlankOrComment(raw)
    requires PatternSplit(Strip(raw), d, a, b)
    ensures ClassifyLine(raw, d) == Paired(Strip(a), Strip(b))
  {
    MatchesPatternIff(Strip(raw), d);
    StrictMatchSplitsAtDelimiter(Strip(raw), d, a, b);
  }

  /**
   * A line is skipped exactly when it is blank or a comment, is an error
   * exactly when it does not fit the pattern, and otherwise is a pair whose
   * term and definition are non-empty and hold no character of the delimiter.
   */
  lemma ClassifyLineIff(raw: string, d: string)
    requires PlainDelimiter(d)
    ensures ClassifyLine(raw, d) == Skipped <==> IsBlankOrComment(raw)
    ensures ClassifyLine(raw, d) == Malformed <==> !IsBlankOrComment(raw) && !MatchesPatternSpec(Strip(raw), d)
    ensures ClassifyLine(raw, d).Paired? ==>
      && ClassifyLine(raw, d).term != [] && ClassifyLine(raw, d).definition != []
      && NoCharOf(ClassifyLine(raw, d).term, d) && NoCharOf(ClassifyLine(raw, d).definition, d)
  {
    var line := Strip(raw);
    MatchesPatternIff(line, d);
    if !IsBlankOrComment(raw) && MatchesPatternSpec(line, d) {
      var a, b :| PatternSplit(line, d, a, b);
      ClassifyPaired(raw, d, a, b);
      StripKeepsCharacters(a);
      StripKeepsCharacters(b);
    }
  }

  /**
   * A summary of `ClassifyLine` at `|`, with the match stated by the meaning
   * of the pipe pattern; `ClassifyPipePaired` and `PipeLineFallsBack` say
   * what `_parse_line` gives on such lines.
   *
   * With `|`, a line that is neither blank nor a comment is an error exactly
   * when it does not fit the pipe pattern; when it fits, it is a pair when
   * `_parse_line` gives two non-empty sides, and is skipped otherwise.
   */
  lemma ClassifyPipeLine(raw: string)
    ensures ClassifyLine(raw, Pipe) == Skipped <==>
      IsBlankOrComment(raw) || (MatchesPipePatternSpec(Strip(raw)) && !NonEmptySides(ParseLine(Strip(raw), Pipe)))
    ensures ClassifyLine(raw, Pipe) == Malformed <==> !IsBlankOrComment(raw) && !MatchesPipePatternSpec(Strip(raw))
    ensures ClassifyLine(raw, Pipe).Paired? ==>
      && ParseLine(Strip(raw), Pipe) == Some((ClassifyLine(raw, Pipe).term, ClassifyLine(raw, Pipe).definition))
      && ClassifyLine(raw, Pipe).term != [] && ClassifyLine(raw, Pipe).definition != []
  {
    MatchesPipePatternIff(Strip(raw));
  }

  /**
   * With `|`, a line cut at its first `|` into `a` and `b`: `_parse_line`
   * gives the two stripped sides; the line is an error when `a` is empty
   * (it starts with `|`), a pair when both stripped sides are non-empty,
   * and skipped otherwise.
   */
  lemma ClassifyPipePaired(raw: string, a: string, b: string)
    requires !IsBlankOrComment(raw)
    requires Strip(raw) == a + Pipe + b && NoCharOf(a, Pipe)
    ensures ParseLine(Strip(raw), Pipe) == Some((Strip(a), Strip(b)))
    ensures ClassifyLine(raw, Pipe) ==
      if a == [] then Malformed
      else if Strip(a) != [] && Strip(b) != [] then Paired(Strip(a), Strip(b))
      else Skipped
  {
    var line := Strip(raw);
    forall k | 0 <= k < |a|
      ensures !OccursAt(line, Pipe, k)
    {
      assert line[k] == a[k];
    }
    assert SplitsAtFirst(line, Pipe, a, b);
    if a != [] {
      assert line[0] == a[0];
    }
  }

  /** `_parse_line` gave a term and a definition that are both non-empty. */
  predicate NonEmptySides(parts: Option<(string, string)>) {
    parts.Some? && parts.value.0 != [] && parts.value.1 != []
  }

  /**
   * With `|`, a line holding no `|` passes the pattern and reaches
   * `_parse_fallback`: it becomes the fallback's pair when both sides are
   * non-empty, and is skipped otherwise.
   */
  lemma PipeLineFallsBack(raw: string)
    requires !IsBlankOrComment(raw) && !Contains(Strip(raw), Pipe)
    ensures ClassifyLine(raw, Pipe) ==
      if NonEmptySides(ParseFallback(Strip(raw)))
      then Paired(ParseFallback(Strip(raw)).value.0, ParseFallback(Strip(raw)).value.1)
      else Skipped
  {
    var line := Strip(raw);
    assert line[0] != '|' by { assert !OccursAt(line, Pipe, 0); }
  }
}
