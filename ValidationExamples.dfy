/**
 * `validate_flashcards` on the dictionaries of its docstring and of the
 * repository's test: the exact issue lists, in order.
 */
module ValidationExamples {
  import opened Text
  import opened Dict
  import opened Validation

  /** `{"": "empty term", "term": ""}` gives two issues: the empty term, then the empty definition. */
  lemma DocstringExample()
    ensures ValidationIssues([Entry("", "empty term"), Entry("term", "")])
      == [Issue("", EmptyTerm), Issue("term", EmptyDefinition)]
  {
    var d := [Entry("", "empty term"), Entry("term", "")];
    IssuesOfFirstStep(d, 0);
    IssuesOfFirstStep(d, 1);
    assert !IsSpace(d[0].definition[0]);
    assert !IsSpace(d[1].term[0]);
  }

  /**
   * The four-entry dictionary of the test, with `x` standing for `"x" * 101`:
   * three issues, one for each invalid entry, in dictionary order.
   */
  lemma TestExample(x: string)
    requires |x| == 101 && forall k :: 0 <= k < |x| ==> x[k] == 'x'
    ensures ValidationIssues([Entry("apple", "red fruit"), Entry("", "empty term"), Entry("term", ""), Entry(x, "too long term")])
      == [Issue("", EmptyTerm), Issue("term", EmptyDefinition), Issue(x, TermTooLong)]
  {
    var a, b, c, e := Entry("apple", "red fruit"), Entry("", "empty term"), Entry("term", ""), Entry(x, "too long term");
    assert !IsSpace(a.term[0]) && !IsSpace(a.definition[0]);
    assert !IsSpace(b.definition[0]);
    assert !IsSpace(c.term[0]);
    assert !IsSpace(e.term[0]) && !IsSpace(e.definition[0]);
    NoIssue(a);
    OnlyIssue(b, EmptyTerm);
    OnlyIssue(c, EmptyDefinition);
    OnlyIssue(e, TermTooLong);
    IssuesOfFour(a, b, c, e);
    Singles(Issue(b.term, EmptyTerm), Issue(c.term, EmptyDefinition), Issue(e.term, TermTooLong));
  }

  /** An entry that passes every check has no issues. */
  lemma NoIssue(e: Entry)
    requires forall reason :: !Fails(e, reason)
    ensures EntryIssues(e) == []
  {
    FailedChecksInOrder(e);
  }

  /** An entry that fails exactly one check has exactly that issue. */
  lemma OnlyIssue(e: Entry, reason: Reason)
    requires forall other :: Fails(e, other) <==> other == reason
    ensures EntryIssues(e) == [Issue(e.term, reason)]
  {
    FailedChecksInOrder(e);
  }

  /** Three single issues, listed after an empty list. */
  lemma Singles(i: Issue, j: Issue, k: Issue)
    ensures [] + [i] + [j] + [k] == [i, j, k]
  {
  }

  /** A four-entry dictionary's issues are its entries' issues, in order. */
  lemma IssuesOfFour(a: Entry, b: Entry, c: Entry, e: Entry)
    ensures ValidationIssues([a, b, c, e]) == EntryIssues(a) + EntryIssues(b) + EntryIssues(c) + EntryIssues(e)
  {
    var d := [a, b, c, e];
    assert IssuesOfFirst(d, 1) == EntryIssues(a);
    assert IssuesOfFirst(d, 2) == EntryIssues(a) + EntryIssues(b);
    assert IssuesOfFirst(d, 3) == EntryIssues(a) + EntryIssues(b) + EntryIssues(c);
  }
}
