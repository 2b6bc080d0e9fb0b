/**
 * `FileParser` (src/crablang/file_parser.py): parses flashcard text into an
 * insertion-ordered term -> definition dictionary, keeping four counters of
 * the last call in `parse_stats`, and validates a dictionary.
 *
 * `Fold` and `Parse` specify `parse_content` line by line; the class methods
 * are the source's loops, proved equal to them.
 */
module FileParsing {
  import opened Options
  import opened Text
  import opened Dict
  import opened LineParser
  import opened Validation

  /** `parse_stats`: the counters of the most recent `parse_content` call. */
  datatype ParseStats = ParseStats(totalLines: nat, validPairs: nat, skippedLines: nat, errors: nat)

  const ZeroStats := ParseStats(0, 0, 0, 0)

  /** The dictionary and the counters one parse produces. */
  datatype Parsed = Parsed(flashcards: Dict, stats: ParseStats)

  /** `valid_pairs + skipped_lines + errors`: the lines the loop has classified. */
  function Classified(s: ParseStats): nat {
    s.validPairs + s.skippedLines + s.errors
  }

  /** The effect of one line on the dictionary and the counters. */
  function Tally(p: Parsed, outcome: LineOutcome): Parsed {
    match outcome
    case Skipped => p.(stats := p.stats.(skippedLines := p.stats.skippedLines + 1))
    case Paired(term, definition) =>
      Parsed(Put(p.flashcards, term, definition), p.stats.(validPairs := p.stats.validPairs + 1))
    case Malformed => p.(stats := p.stats.(errors := p.stats.errors + 1))
  }

  /** The outcomes processed in order, from fresh counters and an empty dictionary. */
  function Fold(outcomes: seq<LineOutcome>): Parsed {
    if outcomes == [] then Parsed([], ZeroStats)
    else Tally(Fold(outcomes[..|outcomes| - 1]), outcomes[|outcomes| - 1])
  }

  /** What each line contributes, line by line. */
  function Outcomes(lines: seq<string>, d: string): (r: seq<LineOutcome>)
    requires SupportedDelimiter(d)
    ensures |r| == |lines|
  {
    seq(|lines|, i requires 0 <= i < |lines| => ClassifyLine(lines[i], d))
  }

  /**
   * `parse_content(content, d)` together with the `parse_stats` it leaves:
   * `total_lines` is the number of newline-separated pieces (one more than
   * the number of newlines, so 1 for empty content), and skipped, valid and
   * error lines add up to it.
   */
  function Parse(content: string, d: string): (r: Parsed)
    requires SupportedDelimiter(d)
    ensures r.stats.totalLines == CountChar(content, '\n') + 1
    ensures Classified(r.stats) == r.stats.totalLines
  {
    var lines := SplitLines(content);
    FoldCountsEveryLine(Outcomes(lines, d));
    var p := Fold(Outcomes(lines, d));
    p.(stats := p.stats.(totalLines := |lines|))
  }

  // ---------------------------------------------------------------------------
  // Counters

  /**
   * One line moves exactly one per-line counter and leaves `total_lines`
   * alone; a pair is stored under its term and every other term keeps its
   * definition; a skipped or malformed line leaves the dictionary as it was.
   */
  lemma TallyOneLine(p: Parsed, outcome: LineOutcome)
    ensures var r := Tally(p, outcome);
      && r.stats.totalLines == p.stats.totalLines
      && Classified(r.stats) == Classified(p.stats) + 1
      && (outcome.Skipped? ==> r.stats == p.stats.(skippedLines := p.stats.skippedLines + 1))
      && (outcome.Paired? ==> r.stats == p.stats.(validPairs := p.stats.validPairs + 1))
      && (outcome.Malformed? ==> r.stats == p.stats.(errors := p.stats.errors + 1))
      && (outcome.Paired? ==>
            && Get(r.flashcards, outcome.term) == Some(outcome.definition)
            && forall t :: t != outcome.term ==> Get(r.flashcards, t) == Get(p.flashcards, t))
      && (!outcome.Paired? ==> r.flashcards == p.flashcards)
  {
    if outcome.Paired? {
      PutGet(p.flashcards, outcome.term, outcome.definition);
    }
  }

  /** Every line moves exactly one of the three per-line counters. */
  lemma {:induction false} FoldCountsEveryLine(outcomes: seq<LineOutcome>)
    ensures Fold(outcomes).stats.totalLines == 0 && Classified(Fold(outcomes).stats) == |outcomes|
  {
    if outcomes != [] {
      FoldCountsEveryLine(outcomes[..|outcomes| - 1]);
    }
  }

  // ---------------------------------------------------------------------------
  // One more line

  /** Appending one line to the input appends its outcome. */
  lemma OutcomesSnoc(lines: seq<string>, raw: string, d: string)
    requires SupportedDelimiter(d)
    ensures Outcomes(lines + [raw], d) == Outcomes(lines, d) + [ClassifyLine(raw, d)]
  {
  }

  /** A blank or `#` line only counts as skipped. */
  lemma BlankOrCommentSkipped(lines: seq<string>, raw: string, d: string)
    requires SupportedDelimiter(d)
    requires IsBlankOrComment(raw)
    ensures var before, after := Fold(Outcomes(lines, d)), Fold(Outcomes(lines + [raw], d));
      && after.flashcards == before.flashcards
      && after.stats == before.stats.(skippedLines := before.stats.skippedLines + 1)
  {
    OutcomesSnoc(lines, raw, d);
    assert (Outcomes(lines, d) + [ClassifyLine(raw, d)])[..|lines|] == Outcomes(lines, d);
  }

  /** A line that does not fit the pattern only counts as an error. */
  lemma MalformedLineCounted(lines: seq<string>, raw: string, d: string)
    requires PlainDelimiter(d)
    requires !IsBlankOrComment(raw) && !MatchesPatternSpec(Strip(raw), d)
    ensures var before, after := Fold(Outcomes(lines, d)), Fold(Outcomes(lines + [raw], d));
      && after.flashcards == before.flashcards
      && after.stats == before.stats.(errors := before.stats.errors + 1)
  {
    OutcomesSnoc(lines, raw, d);
    assert (Outcomes(lines, d) + [ClassifyLine(raw, d)])[..|lines|] == Outcomes(lines, d);
    ClassifyLineIff(raw, d);
  }

  /**
   * A line `a + d + b` stores its stripped term and definition, replacing an
   * earlier definition of the same term, and counts as a valid pair.
   */
  lemma PairedLineStored(lines: seq<string>, raw: string, d: string, a: string, b: string)
    requires PlainDelimiter(d)
    requires !IsBlankOrComment(raw) && PatternSplit(Strip(raw), d, a, b)
    ensures var before, after := Fold(Outcomes(lines, d)), Fold(Outcomes(lines + [raw], d));
      && Get(after.flashcards, Strip(a)) == Some(Strip(b))
      && (forall t :: t != Strip(a) ==> Get(after.flashcards, t) == Get(before.flashcards, t))
      && after.stats == before.stats.(validPairs := before.stats.validPairs + 1)
  {
    OutcomesSnoc(lines, raw, d);
    assert (Outcomes(lines, d) + [ClassifyLine(raw, d)])[..|lines|] == Outcomes(lines, d);
    ClassifyPaired(raw, d, a, b);
    PutGet(Fold(Outcomes(lines, d)).flashcards, Strip(a), Strip(b));
  }

  // ---------------------------------------------------------------------------
  // The dictionary

  /**
   * A pair the parser can store: non-empty term and definition, and with a
   * plain delimiter no character of the delimiter in either.
   */
  predicate CleanPair(o: LineOutcome, d: string)
    requires o.Paired?
  {
    && o.term != [] && o.definition != []
    && (PlainDelimiter(d) ==> NoCharOf(o.term, d) && NoCharOf(o.definition, d))
  }

  /**
   * Folding outcomes keeps the terms distinct, stores no more entries than
   * valid pairs were counted, and stores only clean pairs.
   */
  lemma {:induction false} FoldDictionary(outcomes: seq<LineOutcome>, d: string)
    requires forall i :: 0 <= i < |outcomes| && outcomes[i].Paired? ==> CleanPair(outcomes[i], d)
    ensures var p := Fold(outcomes);
      && DistinctTerms(p.flashcards)
      && |p.flashcards| <= p.stats.validPairs
      && forall i :: 0 <= i < |p.flashcards| ==>
           CleanPair(Paired(p.flashcards[i].term, p.flashcards[i].definition), d)
  {
    if outcomes != [] {
      var n := |outcomes| - 1;
      FoldDictionary(outcomes[..n], d);
      var before := Fold(outcomes[..n]).flashcards;
      match outcomes[n]
      case Paired(term, definition) =>
        var after := Put(before, term, definition);
        PutShape(before, term, definition);
        PutDistinct(before, term, definition);
        assert CleanPair(outcomes[n], d);
        forall i | 0 <= i < |after|
          ensures CleanPair(Paired(after[i].term, after[i].definition), d)
        {
          PutEntry(before, term, definition, i);
        }
      case Skipped =>
      case Malformed =>
    }
  }

  /**
   * The parsed dictionary has distinct terms, at most `valid_pairs` entries,
   * and only non-empty terms and definitions; with a plain delimiter they
   * hold no character of the delimiter.
   */
  lemma ParseDictionary(content: string, d: string)
    requires SupportedDelimiter(d)
    ensures var p := Parse(content, d);
      && DistinctTerms(p.flashcards)
      && |p.flashcards| <= p.stats.validPairs
      && forall i :: 0 <= i < |p.flashcards| ==>
           && p.flashcards[i].term != [] && p.flashcards[i].definition != []
           && (PlainDelimiter(d) ==> NoCharOf(p.flashcards[i].term, d) && NoCharOf(p.flashcards[i].definition, d))
  {
    var lines := SplitLines(content);
    var outcomes := Outcomes(lines, d);
    forall i | 0 <= i < |outcomes| && outcomes[i].Paired?
      ensures CleanPair(outcomes[i], d)
    {
      if PlainDelimiter(d) {
        ClassifyLineIff(lines[i], d);
      } else {
        ClassifyPipeLine(lines[i]);
      }
    }
    FoldDictionary(outcomes, d);
  }

  /** The outcome is a pair for `term`. */
  predicate PairsTerm(o: LineOutcome, term: string) {
    o.Paired? && o.term == term
  }

  /** Outcome `i` is the last one that pairs `term`. */
  ghost predicate LastPairFor(outcomes: seq<LineOutcome>, term: string, i: int) {
    && 0 <= i < |outcomes| && PairsTerm(outcomes[i], term)
    && forall j :: i < j < |outcomes| ==> !PairsTerm(outcomes[j], term)
  }

  /** A term is in the dictionary exactly when some outcome pairs it. */
  lemma {:induction false} FoldHasTerm(outcomes: seq<LineOutcome>, term: string)
    ensures Get(Fold(outcomes).flashcards, term).None? <==>
      forall i :: 0 <= i < |outcomes| ==> !PairsTerm(outcomes[i], term)
  {
    if outcomes != [] {
      var n := |outcomes| - 1;
      var prefix := outcomes[..n];
      FoldHasTerm(prefix, term);
      assert Fold(outcomes) == Tally(Fold(prefix), outcomes[n]);
      assert forall i :: 0 <= i < n ==> prefix[i] == outcomes[i];
      if outcomes[n].Paired? {
        PutGet(Fold(prefix).flashcards, outcomes[n].term, outcomes[n].definition);
      }
    }
  }

  /** Last wins: the term maps to the definition of the last outcome that pairs it. */
  lemma {:induction false} FoldLastWins(outcomes: seq<LineOutcome>, term: string, i: int)
    requires LastPairFor(outcomes, term, i)
    ensures Get(Fold(outcomes).flashcards, term) == Some(outcomes[i].definition)
  {
    var n := |outcomes| - 1;
    var prefix := outcomes[..n];
    assert Fold(outcomes) == Tally(Fold(prefix), outcomes[n]);
    if outcomes[n].Paired? {
      PutGet(Fold(prefix).flashcards, outcomes[n].term, outcomes[n].definition);
    }
    if i < n {
      assert !PairsTerm(outcomes[n], term);
      assert LastPairFor(prefix, term, i) by {
        assert forall j :: i < j < n ==> prefix[j] == outcomes[j];
      }
      FoldLastWins(prefix, term, i);
    }
  }

  /**
   * Duplicate terms: the parsed dictionary holds a term exactly when some line
   * pairs it, and then maps it to the definition of the last such line.
   */
  lemma ParseLastWins(content: string, d: string, term: string, outcomes: seq<LineOutcome>)
    requires SupportedDelimiter(d) && outcomes == Outcomes(SplitLines(content), d)
    ensures Get(Parse(content, d).flashcards, term).None? <==>
      forall i :: 0 <= i < |outcomes| ==> !PairsTerm(outcomes[i], term)
    ensures forall i :: LastPairFor(outcomes, term, i) ==>
      Get(Parse(content, d).flashcards, term) == Some(outcomes[i].definition)
  {
    FoldHasTerm(outcomes, term);
    forall i | LastPairFor(outcomes, term, i)
      ensures Get(Fold(outcomes).flashcards, term) == Some(outcomes[i].definition)
    {
      FoldLastWins(outcomes, term, i);
    }
  }

  // ---------------------------------------------------------------------------
  // The class

  class FileParser {
    /** `detected_format`: set to `None` and never assigned by the parser. */
    var detectedFormat: Option<string>
    /** `parse_stats`: the counters of the last `parse_content` call. */
    var parseStats: ParseStats

    /** `__init__`: no format, all counters zero. */
    constructor ()
      ensures detectedFormat == None && parseStats == ZeroStats
    {
      detectedFormat := None;
      parseStats := ZeroStats;
    }

    /**
     * `parse_content(content, delimiter)`: resets the counters, then walks
     * the lines; the result and the new counters are those of `Parse`, and
     * nothing of the old counters survives.
     */
    method ParseContent(content: string, delimiter: string) returns (flashcards: Dict)
      requires SupportedDelimiter(delimiter)
      modifies this`parseStats
      ensures flashcards == Parse(content, delimiter).flashcards
      ensures parseStats == Parse(content, delimiter).stats
    {
      parseStats := ZeroStats;
      flashcards := [];
      var lines := SplitLines(content);
      ghost var outcomes := Outcomes(lines, delimiter);
      parseStats := parseStats.(totalLines := |lines|);
      var lineNum := 0;
      while lineNum < |lines|
        invariant 0 <= lineNum <= |lines|
        invariant parseStats.totalLines == |lines|
        invariant flashcards == Fold(outcomes[..lineNum]).flashcards
        invariant parseStats.(totalLines := 0) == Fold(outcomes[..lineNum]).stats
      {
        assert outcomes[..lineNum + 1][..lineNum] == outcomes[..lineNum];
        assert Fold(outcomes[..lineNum + 1]) == Tally(Fold(outcomes[..lineNum]), outcomes[lineNum]);
        ghost var outcome := ClassifyLine(lines[lineNum], delimiter);
        assert outcomes[lineNum] == outcome;
        var line := Strip(lines[lineNum]);
        if line == [] || line[0] == '#' {
          assert outcome == Skipped;
          parseStats := parseStats.(skippedLines := parseStats.skippedLines + 1);
        } else if PatternMatches(line, delimiter) {
          var parts := ParseLine(line, delimiter);
          if parts.Some? && parts.value.0 != [] && parts.value.1 != [] {
            var (term, definition) := parts.value;
            assert outcome == Paired(term, definition);
            flashcards := Put(flashcards, term, definition);
            parseStats := parseStats.(validPairs := parseStats.validPairs + 1);
          } else {
            assert outcome == Skipped;
            parseStats := parseStats.(skippedLines := parseStats.skippedLines + 1);
          }
        } else {
          assert outcome == Malformed;
          parseStats := parseStats.(errors := parseStats.errors + 1);
        }
        lineNum := lineNum + 1;
      }
      assert outcomes[..lineNum] == outcomes;
    }

    /** `validate_flashcards(flashcards)`: the issues of every entry, in dictionary order. */
    method ValidateFlashcards(flashcards: Dict) returns (issues: seq<Issue>)
      ensures issues == ValidationIssues(flashcards)
    {
      issues := [];
      var i := 0;
      while i < |flashcards|
        invariant 0 <= i <= |flashcards|
        invariant issues == IssuesOfFirst(flashcards, i)
      {
        var entry := flashcards[i];
        var term, definition := entry.term, entry.definition;
        // `not s.strip()` is `AllSpace(s)`, as the contract of `Strip` states.
        ghost var before := issues;
        if AllSpace(term) {
          issues := issues + [Issue(term, EmptyTerm)];
        }
        assert issues == before + IssueIf(entry, EmptyTerm);
        ghost var afterTerm := issues;
        if AllSpace(definition) {
          issues := issues + [Issue(term, EmptyDefinition)];
        }
        assert issues == afterTerm + IssueIf(entry, EmptyDefinition);
        ghost var afterDefinition := issues;
        if |term| > MaxTermLength {
          issues := issues + [Issue(term, TermTooLong)];
        }
        assert issues == afterDefinition + IssueIf(entry, TermTooLong);
        ghost var afterTermLength := issues;
        if |definition| > MaxDefinitionLength {
          issues := issues + [Issue(term, DefinitionTooLong)];
        }
        assert issues == afterTermLength + IssueIf(entry, DefinitionTooLong);
        IssuesOfFirstStep(flashcards, i);
        i := i + 1;
      }
    }

    /** `get_parse_stats()`: a copy of the counters of the last parse. */
    method GetParseStats() returns (stats: ParseStats)
      ensures stats == parseStats
    {
      stats := parseStats;
    }
  }

  /**
   * Parsing the same text twice with one parser gives the same dictionary
   * and the same counters: the counters are reset, not accumulated.
   */
  method ParseTwice(content: string, delimiter: string)
    returns (first: Dict, firstStats: ParseStats, second: Dict, secondStats: ParseStats)
    requires SupportedDelimiter(delimiter)
    ensures first == second && firstStats == secondStats
    ensures Classified(firstStats) == firstStats.totalLines
  {
    var parser := new FileParser();
    first := parser.ParseContent(content, delimiter);
    firstStats := parser.GetParseStats();
    second := parser.ParseContent(content, delimiter);
    secondStats := parser.GetParseStats();
  }
}
