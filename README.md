# FileParser: flashcard text parsing, modelled in Dafny

This project models the `FileParser` class of CrabLang's
`src/crablang/file_parser.py`. The class turns flashcard text into a
term -> definition dictionary and validates such a dictionary.

`parse_content(content, delimiter)` works as follows:
- It resets the four counters in `parse_stats` (total lines, valid pairs,
  skipped lines, errors).
- It splits the content on `"\n"` and strips each line.
- It skips blank lines and `#` comments.
- It tests every other line against the regular expression
  `^[^d]+d[^d]+$`, built by pasting the delimiter `d` into the pattern
  unescaped. A line that fails the test is an error.
- A line that passes the test goes to `_parse_line`. That function splits at
  the first delimiter, or falls back to `_parse_fallback`, which tries a
  double space, then a colon, then the first run of whitespace.
- A line whose two stripped sides are both non-empty is stored, and a later
  line with the same term wins. Any other line that passed the test is skipped.

`validate_flashcards` reports up to four issues per entry, in a fixed order:
empty term, empty definition, term over 100 characters, definition over
500 characters. `get_parse_stats` returns a copy of the counters.

Modules:
- `Text` defines the Python string operations the parser relies on, with
  their meaning proved:
  - `strip`, with the exact `str.isspace` character set;
  - `sep in s` and `split(sep, 1)`;
  - `split("\n")` and its inverse `"\n".join`;
  - `split(None, 1)`.
- `Dict` models a Python `dict[str, str]` as an insertion-ordered list of
  entries. Assigning to an existing key keeps its position.
- `LineParser` defines:
  - the meaning of the pattern, for plain delimiters and for `|`;
  - `_parse_line` and `_parse_fallback`;
  - what one line contributes to the result.
- `Validation` gives the specification of `validate_flashcards`.
- `ValidationExamples` works out the issue lists for the dictionaries of the
  `validate_flashcards` docstring and of the repository's test.
- `ParseExamples` works out `parse_content` on content of the shape of its
  docstring example: two tab-separated lines.
- `FileParsing` holds:
  - `Parse`, the line-by-line specification of `parse_content`, as a fold
    over the lines' outcomes;
  - the `FileParser` class, whose methods are the source's loops, proved
    equal to their specifications.

The regular expression is modelled by what it means, not by a regex engine:
- A plain delimiter is non-empty and holds no regex metacharacter. Tab, `,`,
  `;` and `##` are plain. For these, a line matches exactly when it is
  `a + d + b`, where `a` and `b` are non-empty and share no character with `d`.
- For `|` the pattern reads `^[^|]+|[^|]+$`, an alternation. `re.match`
  accepts every line that does not start with `|`. With this delimiter a line
  without any `|` passes the test and reaches `_parse_fallback`.
  `LineParser.PipeLineFallsBack` states this.

Properties proved include:
- The counters add up: valid + skipped + errors = total = newlines + 1.
- Blank and comment lines are exactly the skipped ones (plain delimiters).
- Pattern failures are exactly the errors.
- A line `a + d + b` stores `strip(a) -> strip(b)` and leaves every other
  term alone.
- The parsed dictionary has distinct, non-empty terms. It has at most
  `valid_pairs` entries.
- A term is present exactly when some line pairs it, and then holds the
  definition of the last such line.
- Parsing the same content twice gives the same dictionary and counters.
- An entry gets an issue for a check exactly when it fails that check.

With a plain delimiter, the `else` branch of `parse_content` that skips a
line which matched the pattern (file_parser.py:122-123) is unreachable: a
stripped line that matches always splits into two non-empty sides, as
`LineParser.StrictMatchSplitsAtDelimiter` shows. With `|` the branch is
reachable, for example with the line `a|`.

`_parse_fallback` returns the stripped sides as they are, even when one is
empty: `:x` gives `("", "x")`. With the `|` delimiter `parse_content`
counts such a line as skipped. With a plain delimiter no line reaches
`_parse_fallback` (`StrictMatchSplitsAtDelimiter`), and `:x` fails the
pattern and counts as an error.

The repository's tests expect more than `file_parser.py` provides. The model
follows the code:
- tests/test_file_parser.py:18-40 call `detect_file_format`, and
  tests/test_file_parser.py:92-96 call `get_supported_formats`. Neither
  method exists in `file_parser.py`.
- tests/test_file_parser.py:55, 65 and 112 call `parse_content` without a
  delimiter. The code requires one.
- tests/test_file_parser.py:45 passes the format name `"tsv"`. The code
  pastes it into the pattern as the three-character delimiter `tsv`, which
  is plain. The tab-separated lines of that test hold no `tsv`, so they do
  not fit the pattern and count as errors, as `LineParser.ClassifyLineIff`
  states.

## Model

| member | source | states |
|---|---|---|
| Text.Strip | src/crablang/file_parser.py:105 | `strip()` is empty exactly when the line is all whitespace; otherwise it starts and ends with a non-space character and is no longer than the line |
| Text.StripLeftIsSuffix | src/crablang/file_parser.py:105 | the left strip removes only a prefix: the result is a suffix of the input |
| Text.StripRightIsPrefix | src/crablang/file_parser.py:105 | the right strip removes only a suffix: the result is a prefix of the input |
| Text.StripKeepsCharacters | src/crablang/file_parser.py:142 | every character `strip()` keeps occurs in the input |
| Text.StripUnchanged | src/crablang/file_parser.py:142 | a string that neither starts nor ends with whitespace is its own `strip()` |
| Text.FindFirst | src/crablang/file_parser.py:140 | the index found is an occurrence with no occurrence before it; `None` exactly when the separator does not occur |
| Text.SplitOnce | src/crablang/file_parser.py:140-141 | `split(sep, 1)` has two parts exactly when `sep in s`, and then they are the text before and after the first occurrence |
| Text.SplitsAtFirstUnique | src/crablang/file_parser.py:140 | there is only one way to cut a string at the first occurrence of a separator |
| Text.SplitOnceIs | src/crablang/file_parser.py:140-142 | any cut at the first occurrence is the one `split(sep, 1)` makes |
| Text.SplitLines | src/crablang/file_parser.py:101-102 | `split("\n")` gives one piece more than there are newlines, none holding a newline |
| Text.JoinSplitLines | src/crablang/file_parser.py:101 | joining the split lines with newlines gives the content back |
| Text.SplitJoinLines | src/crablang/file_parser.py:101 | lines without newlines, joined and split again, come back unchanged |
| Text.SplitWhitespaceOnce | src/crablang/file_parser.py:162-164 | when `split(None, 1)` gives two parts, the line is leading whitespace, then the first part (a non-empty word with no whitespace), then a non-empty run of whitespace, then the second part (non-empty, starting with a non-space) |
| Text.SplitWhitespaceOnceIs | src/crablang/file_parser.py:162-164 | conversely, any such cut of the line is the one `split(None, 1)` makes |
| Text.SplitWhitespaceOnceIff | src/crablang/file_parser.py:162-163 | `split(None, 1)` has two parts exactly when the line holds two whitespace-separated words |
| Dict.Get | src/crablang/file_parser.py:115 | lookup fails exactly when the term is absent; a found definition is stored with the term, and with distinct terms it is that entry's definition |
| Dict.Put | src/crablang/file_parser.py:120 | after `flashcards[term] = definition` the pair is in the dictionary, which grew by at most one entry |
| Dict.PutShape | src/crablang/file_parser.py:120 | assigning to an existing term keeps length and term order; a new term is appended at the end |
| Dict.PutGet | src/crablang/file_parser.py:120 | after `flashcards[term] = definition` the term maps to the definition and every other term's lookup is unchanged |
| Dict.PutDistinct | src/crablang/file_parser.py:120 | assignment keeps the terms distinct |
| Dict.PutEntry | src/crablang/file_parser.py:120 | every entry after assignment is the new pair or the entry that stood at that position |
| LineParser.FirstCharOf | src/crablang/file_parser.py:91-99 | the index returned is the first position holding a character of the delimiter, or the length of the line |
| LineParser.FirstCharOfIs | src/crablang/file_parser.py:91-99 | a position holding a delimiter character with none before it is the one found |
| LineParser.MatchesPatternIff | src/crablang/file_parser.py:91-99 | for a plain delimiter the computed match holds exactly when the line is `a + d + b` with `a`, `b` non-empty and free of the delimiter's characters |
| LineParser.MatchesPipePatternIff | src/crablang/file_parser.py:91-99 | for the pipe delimiter the computed match holds exactly when some non-empty prefix of the line holds no pipe character (the first branch of the alternation) |
| LineParser.PatternMatches | src/crablang/file_parser.py:91-99 | `re.match(pattern, line)` (line 112) succeeds exactly when the line has the pattern's meaning: `a + d + b` with `a`, `b` non-empty and free of the delimiter's characters for a plain delimiter, a non-empty prefix free of pipes for the pipe delimiter |
| LineParser.ParseLine | src/crablang/file_parser.py:136-143 | a cut at the first delimiter gives the two stripped sides; a line without the delimiter gets the result of `_parse_fallback` |
| LineParser.ParseFallback | src/crablang/file_parser.py:145-166 | a cut at the first double space gives the two stripped sides, even when one is empty; without a double space, a cut at the first colon does; without either, a whitespace cut gives its word and its stripped rest |
| LineParser.FallbackWhitespace | src/crablang/file_parser.py:161-164 | with neither a double space nor a colon, the result exists exactly when the line has two words; then both sides are non-empty, the term is the first word and the definition the stripped rest after the first run of whitespace |
| LineParser.FallbackNone | src/crablang/file_parser.py:145-166 | `(None, None)` exactly when there is no double space, no colon and fewer than two words |
| LineParser.StrictMatchSplitsAtDelimiter | src/crablang/file_parser.py:136-143 | on a stripped line matching the pattern, `_parse_line` cuts at the delimiter the pattern saw, never falls back, and both sides are non-empty |
| LineParser.ClassifyLine | src/crablang/file_parser.py:104-128 | a blank or comment line is skipped; a line is an error exactly when it is neither and fails the pattern; a pair has non-empty sides and is what `_parse_line` returns |
| LineParser.ClassifyPaired | src/crablang/file_parser.py:112-121 | a line that strips to `a + d + b` becomes the pair `(strip(a), strip(b))` |
| LineParser.ClassifyLineIff | src/crablang/file_parser.py:104-128 | plain delimiter: skipped exactly when blank or a comment, an error exactly when the stripped line does not fit the pattern, otherwise a pair with non-empty sides free of the delimiter's characters |
| LineParser.ClassifyPipeLine | src/crablang/file_parser.py:104-128 | with the pipe delimiter: a line that is neither blank nor a comment is an error exactly when it does not fit the pipe pattern's meaning; a line that fits is a pair when `_parse_line` gives two non-empty sides, and skipped otherwise |
| LineParser.ClassifyPipePaired | src/crablang/file_parser.py:112-128 | with the pipe delimiter, a line that is `a`, a pipe, then `b`, with no pipe in `a`, is cut by `_parse_line` into `(strip(a), strip(b))`; it is an error when `a` is empty, a pair when both stripped sides are non-empty, and skipped otherwise |
| LineParser.PipeLineFallsBack | src/crablang/file_parser.py:112-123 | with the pipe delimiter, a line without a pipe reaches `_parse_fallback` and becomes its pair, or is skipped when a side is missing or empty |
| Validation.FailedChecks | src/crablang/file_parser.py:190-197 | at most one issue per check, each naming the entry's term |
| Validation.FailedChecksHas | src/crablang/file_parser.py:190-197 | the issue for a check is reported exactly when the check is run and fails |
| Validation.FailedChecksInOrder | src/crablang/file_parser.py:190-197 | the checks run in the order empty term, empty definition, term too long, definition too long |
| Validation.EntryIssuesExact | src/crablang/file_parser.py:189-197 | an entry gets an issue for a check exactly when it fails that check |
| Validation.IssuesOfFirst | src/crablang/file_parser.py:189-197 | the first `n` entries give at most four issues each |
| Validation.IssuesOfFirstTerms | src/crablang/file_parser.py:189-197 | every issue of the first `n` entries names the term of one of them |
| Validation.IssuesOfFirstStep | src/crablang/file_parser.py:189-197 | one more entry appends its four checks' issues, in check order |
| Validation.IssuesOfFirstExact | src/crablang/file_parser.py:189-197 | among the first `n` entries, entry `i` gets an issue for a check exactly when it fails it |
| Validation.ValidationIssues | src/crablang/file_parser.py:168-199 | at most four issues per entry, each naming a term of the dictionary |
| Validation.ValidationIssuesExact | src/crablang/file_parser.py:168-199 | an entry gets an issue for a check exactly when it fails that check, so the checks are independent and nothing else is reported |
| FileParsing.TallyOneLine | src/crablang/file_parser.py:108-128 | a skipped line adds one to `skipped_lines`, a malformed line one to `errors`, a stored pair one to `valid_pairs`, and the other counters, `total_lines` included, keep their values; a pair is stored under its term and every other term keeps its definition; any other line leaves the dictionary unchanged |
| FileParsing.FoldCountsEveryLine | src/crablang/file_parser.py:104-133 | over the lines' outcomes, valid + skipped + errors equals the number of lines, and the fold leaves `total_lines` at 0 (`Parse` sets it from the line count) |
| FileParsing.Parse | src/crablang/file_parser.py:84-134 | `total_lines` is the number of newlines plus one, and valid + skipped + errors equals it |
| FileParsing.BlankOrCommentSkipped | src/crablang/file_parser.py:107-110 | a blank or `#` line adds one skipped line and changes nothing else |
| FileParsing.MalformedLineCounted | src/crablang/file_parser.py:124-128 | a line that does not fit the pattern adds one error and changes nothing else |
| FileParsing.PairedLineStored | src/crablang/file_parser.py:112-121 | a line `a + d + b` stores `strip(a) -> strip(b)`, replacing an earlier definition, leaves every other term alone and adds one valid pair |
| FileParsing.FoldDictionary | src/crablang/file_parser.py:114-121 | storing clean pairs one by one keeps terms distinct and stores at most one entry per valid pair |
| FileParsing.ParseDictionary | src/crablang/file_parser.py:101-134 | the parsed dictionary has distinct terms, at most `valid_pairs` entries and non-empty sides, free of the delimiter's characters for a plain delimiter |
| FileParsing.FoldHasTerm | src/crablang/file_parser.py:115-120 | a term is stored exactly when some outcome pairs it |
| FileParsing.FoldLastWins | src/crablang/file_parser.py:115-120 | a term maps to the definition of the last outcome that pairs it |
| FileParsing.ParseLastWins | src/crablang/file_parser.py:104-121 | after parsing, a term is present exactly when some line pairs it, and maps to the definition of the last such line |
| FileParsing.FileParser.constructor | src/crablang/file_parser.py:25-33 | a new parser has no detected format and all four counters at zero |
| FileParsing.FileParser.ParseContent | src/crablang/file_parser.py:66-134 | the loop over the lines returns the dictionary of `Parse` and leaves exactly its counters, none of the previous counters surviving |
| FileParsing.FileParser.ValidateFlashcards | src/crablang/file_parser.py:168-199 | the loop returns exactly `ValidationIssues` of the dictionary |
| FileParsing.FileParser.GetParseStats | src/crablang/file_parser.py:201-208 | returns the counters of the last parse and changes nothing |
| Validation.MessageDeterminesReason | src/crablang/file_parser.py:191-197 | the four issue descriptions are distinct, so a reported description names the check that failed |
| ParseExamples.TabLinePaired | src/crablang/file_parser.py:108-128 | a line `a + "\t" + b` of clean fields, `a` not starting with `#`, passes the pattern and `_parse_line` gives `(a, b)`, so the line stores `a -> b` |
| ParseExamples.DocstringParse | src/crablang/file_parser.py:77-82 | two tab lines `a1\tb1\na2\tb2` of clean fields with distinct terms give exactly the dictionary `{a1: b1, a2: b2}` and the counters total 2, valid 2, skipped 0, errors 0 |
| ValidationExamples.DocstringExample | src/crablang/file_parser.py:180-185 | `{"": "empty term", "term": ""}` gives exactly two issues: the empty term, then the empty definition |
| ValidationExamples.TestExample | tests/test_file_parser.py:73-85 | the test's four-entry dictionary gives exactly three issues: empty term, empty definition, term too long |
| FileParsing.ParseTwice | src/crablang/file_parser.py:84-89 | parsing the same content twice with one parser gives the same dictionary and the same counters, which add up |

## Left out

- `read_file_with_encoding_detection` (file_parser.py:35-64) is not modelled. It does file I/O and calls the external `chardet` detector. The content it returns is a parameter of `ParseContent` instead.
- The `print` calls (file_parser.py:116-119, 126-128 and 132) are not modelled: the model assumes that printing never raises. The first two sit inside the `try` block (file_parser.py:111-133) and can raise, for example a `UnicodeEncodeError` on a console that cannot show the line, or an error on a closed standard output. A failing malformed-line message would count the line as an error twice; a failing duplicate-term warning would count an error instead of storing the pair. On a closed standard output the `print` at file_parser.py:132 in the `except` branch raises as well, so the exception escapes `parse_content`. `FileParsing.Parse`, `FileParsing.ParseLastWins` and `FileParsing.FileParser.ParseContent` hold under this assumption.
- FileParsing.FileParser.ParseContent: requires a plain delimiter or `|`. The model also excludes `-`, `]`, `{` and `}`, which `re` reads literally in this pattern, to keep one simple precondition. For the other excluded delimiters the pattern means something else or fails to compile; examples are `.`, `*`, `[`, `^` and the empty string.
- The `except` branch (file_parser.py:130-133) is not modelled. For the delimiters modelled the pattern compiles and `_parse_line` does not raise, so only a failing `print` reaches the branch, and the model assumes printing never fails.
- `detected_format` is kept as a field. The code never assigns it after `__init__`.
- Format detection and the list of supported formats are not modelled: they are not part of `file_parser.py`.
- The Python dictionary is modelled as an insertion-ordered list of entries with distinct terms. Hashing is not modelled.
- The counters are unbounded naturals, as Python integers are.
- Strings are sequences of Dafny `char`s, which are Unicode scalar values. A Python `str` holding a lone surrogate (for example from decoding with `surrogateescape`) cannot be represented. `str.isspace` is the fixed set of code points Python treats as whitespace.
- FileParsing.FileParser.ValidateFlashcards: tests `not s.strip()` as "every character is whitespace". This is equivalent by the contract of `Text.Strip`, and it avoids computing the stripped string.
