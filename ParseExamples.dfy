/**
 * `parse_content` on the shape of its docstring example: two lines
 * `term\tdefinition` with clean fields and distinct terms.
 */
module ParseExamples {
  import opened Text
  import opened Dict
  import opened LineParser
  import opened FileParsing

  /** The tab delimiter of the docstring. */
  const Tab: string := "\t"

  /** The tab is a plain delimiter. */
  lemma TabIsPlain()
    ensures PlainDelimiter(Tab)
  {
    assert Tab[0] == '\t';
  }

  /** A field `strip()` leaves alone, holding neither a tab nor a newline. */
  predicate CleanField(s: string) {
    && s != [] && !IsSpace(s[0]) && !IsSpace(s[|s| - 1])
    && NoCharOf(s, Tab) && '\n' !in s
  }

  /** A line `a\tb` of clean fields, `a` not a comment, is the pair `(a, b)` and holds no newline. */
  lemma TabLinePaired(a: string, b: string)
    requires CleanField(a) && CleanField(b) && a[0] != '#'
    ensures ClassifyLine(a + Tab + b, Tab) == Paired(a, b)
    ensures '\n' !in a + Tab + b
  {
    var raw := a + Tab + b;
    assert raw[0] == a[0] && raw[|raw| - 1] == b[|b| - 1];
    StripUnchanged(raw);
    StripUnchanged(a);
    StripUnchanged(b);
    TabIsPlain();
    ClassifyPaired(raw, Tab, a, b);
  }

  /** Two pairs with distinct terms, folded: both stored in line order, two valid pairs. */
  lemma FoldTwoPairs(a1: string, b1: string, a2: string, b2: string)
    requires a1 != a2
    ensures Fold([Paired(a1, b1), Paired(a2, b2)]) == Parsed([Entry(a1, b1), Entry(a2, b2)], ParseStats(0, 2, 0, 0))
  {
    var o := [Paired(a1, b1), Paired(a2, b2)];
    assert o[..1] == [Paired(a1, b1)];
    assert o[..1][..0] == [];
    assert Fold(o[..1]) == Parsed([Entry(a1, b1)], ParseStats(0, 1, 0, 0));
    assert Put([Entry(a1, b1)], a2, b2) == [Entry(a1, b1)] + Put([], a2, b2);
  }

  /**
   * `parse_content("a1\tb1\na2\tb2", "\t")` gives `{a1: b1, a2: b2}` in that
   * order, with two lines, two valid pairs, nothing skipped and no errors.
   */
  lemma DocstringParse(a1: string, b1: string, a2: string, b2: string)
    requires CleanField(a1) && CleanField(b1) && CleanField(a2) && CleanField(b2)
    requires a1[0] != '#' && a2[0] != '#' && a1 != a2
    ensures PlainDelimiter(Tab)
    ensures Parse((a1 + Tab + b1) + "\n" + (a2 + Tab + b2), Tab)
      == Parsed([Entry(a1, b1), Entry(a2, b2)], ParseStats(2, 2, 0, 0))
  {
    TabIsPlain();
    TabLinePaired(a1, b1);
    TabLinePaired(a2, b2);
    TwoLines(a1 + Tab + b1, a2 + Tab + b2);
    TwoOutcomes(a1, b1, a2, b2);
    FoldTwoPairs(a1, b1, a2, b2);
  }

  /** Two lines without newlines, joined by one, split back into the two. */
  lemma TwoLines(l1: string, l2: string)
    requires '\n' !in l1 && '\n' !in l2
    ensures SplitLines(l1 + "\n" + l2) == [l1, l2]
  {
    var lines := [l1, l2];
    assert lines[1..] == [l2];
    assert JoinLines(lines) == l1 + "\n" + l2;
    SplitJoinLines(lines);
  }

  /** The outcomes of two tab lines of clean fields are their two pairs. */
  lemma TwoOutcomes(a1: string, b1: string, a2: string, b2: string)
    requires CleanField(a1) && CleanField(b1) && CleanField(a2) && CleanField(b2)
    requires a1[0] != '#' && a2[0] != '#'
    ensures PlainDelimiter(Tab)
    ensures Outcomes([a1 + Tab + b1, a2 + Tab + b2], Tab) == [Paired(a1, b1), Paired(a2, b2)]
  {
    TabIsPlain();
    TabLinePaired(a1, b1);
    TabLinePaired(a2, b2);
  }
}
