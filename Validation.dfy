/**
 * `FileParser.validate_flashcards`: four independent content checks per
 * entry, reported in a fixed order as (term, message) issues.
 */
module Validation {
  import opened Text
  import opened Dict

  /** Longest accepted term and definition (`len(...) > 100`, `len(...) > 500`). */
  const MaxTermLength: nat := 100
  const MaxDefinitionLength: nat := 500

  /** The four problems the validator reports, in the order it checks them. */
  datatype Reason = EmptyTerm | EmptyDefinition | TermTooLong | DefinitionTooLong {
    /** The message text paired with the term in the returned list. */
    function Message(): string {
      match this
      case EmptyTerm => "Empty term"
      case EmptyDefinition => "Empty definition"
      case TermTooLong => "Term too long"
      case DefinitionTooLong => "Definition too long"
    }

  }

  /**
   * The four descriptions are distinct, so the reported description names
   * the check that failed.
   */
  lemma MessageDeterminesReason(a: Reason, b: Reason)
    ensures a.Message() == b.Message() <==> a == b
  {
  }

  /** One `(term, issue_description)` tuple of the result. */
  datatype Issue = Issue(term: string, reason: Reason)

  /** The entry has the problem `reason` names. */
  predicate Fails(e: Entry, reason: Reason) {
    match reason
    case EmptyTerm => AllSpace(e.term)
    case EmptyDefinition => AllSpace(e.definition)
    case TermTooLong => |e.term| > MaxTermLength
    case DefinitionTooLong => |e.definition| > MaxDefinitionLength
  }

  /** The order in which `validate_flashcards` runs its checks on an entry. */
  const CheckOrder: seq<Reason> := [EmptyTerm, EmptyDefinition, TermTooLong, DefinitionTooLong]

  /** One issue for each of `reasons` that the entry fails, in the order given. */
  function FailedChecks(e: Entry, reasons: seq<Reason>): (r: seq<Issue>)
    ensures |r| <= |reasons|
    ensures forall i :: 0 <= i < |r| ==> r[i].term == e.term
  {
    if reasons == [] then [] else IssueIf(e, reasons[0]) + FailedChecks(e, reasons[1..])
  }

  /** The issue for `reason` if the entry fails that check, else nothing. */
  function IssueIf(e: Entry, reason: Reason): seq<Issue> {
    if Fails(e, reason) then [Issue(e.term, reason)] else []
  }

  /** The issue for a check is listed exactly when the check is listed and fails. */
  lemma {:induction false} FailedChecksHas(e: Entry, reasons: seq<Reason>, reason: Reason)
    ensures Issue(e.term, reason) in FailedChecks(e, reasons) <==> reason in reasons && Fails(e, reason)
  {
    if reasons != [] {
      FailedChecksHas(e, reasons[1..], reason);
      assert reason in reasons <==> reason == reasons[0] || reason in reasons[1..];
    }
  }

  /** Running the checks in `CheckOrder` one after the other. */
  lemma FailedChecksInOrder(e: Entry)
    ensures FailedChecks(e, CheckOrder) ==
      IssueIf(e, EmptyTerm) + IssueIf(e, EmptyDefinition) + IssueIf(e, TermTooLong) + IssueIf(e, DefinitionTooLong)
  {
    var o := CheckOrder;
    assert o[1..] == [EmptyDefinition, TermTooLong, DefinitionTooLong];
    assert o[1..][1..] == [TermTooLong, DefinitionTooLong];
    assert o[1..][1..][1..] == [DefinitionTooLong];
    assert o[1..][1..][1..][1..] == [];
    var t, d, l, m := IssueIf(e, EmptyTerm), IssueIf(e, EmptyDefinition), IssueIf(e, TermTooLong), IssueIf(e, DefinitionTooLong);
    assert FailedChecks(e, o[1..][1..][1..]) == m + [] == m;
    assert FailedChecks(e, o[1..][1..]) == l + m;
    assert FailedChecks(e, o[1..]) == d + (l + m);
    assert t + (d + (l + m)) == t + d + l + m;
  }

  /**
   * The issues `validate_flashcards` reports for one entry: the checks it
   * fails, in check order, each naming the entry's term.
   */
  function EntryIssues(e: Entry): seq<Issue> {
    FailedChecks(e, CheckOrder)
  }

  /** An entry's issue for a check is reported exactly when it fails that check. */
  lemma EntryIssuesExact(e: Entry, reason: Reason)
    ensures Issue(e.term, reason) in EntryIssues(e) <==> Fails(e, reason)
  {
    FailedChecksHas(e, CheckOrder, reason);
    assert reason in CheckOrder by {
      match reason
      case EmptyTerm => assert CheckOrder[0] == reason;
      case EmptyDefinition => assert CheckOrder[1] == reason;
      case TermTooLong => assert CheckOrder[2] == reason;
      case DefinitionTooLong => assert CheckOrder[3] == reason;
    }
  }

  /** The issues of the first `n` entries, in dictionary order. */
  function IssuesOfFirst(d: Dict, n: nat): (r: seq<Issue>)
    requires n <= |d|
    ensures |r| <= 4 * n
  {
    if n == 0 then [] else IssuesOfFirst(d, n - 1) + EntryIssues(d[n - 1])
  }

  /** Every issue among the first `n` entries names the term of one of them. */
  lemma {:induction false} IssuesOfFirstTerms(d: Dict, n: nat)
    requires n <= |d|
    ensures forall k :: 0 <= k < |IssuesOfFirst(d, n)| ==>
      exists j :: 0 <= j < n && d[j].term == IssuesOfFirst(d, n)[k].term
  {
    if n > 0 {
      IssuesOfFirstTerms(d, n - 1);
      var before := IssuesOfFirst(d, n - 1);
      var r := IssuesOfFirst(d, n);
      forall k | 0 <= k < |r|
        ensures exists j :: 0 <= j < n && d[j].term == r[k].term
      {
        if k < |before| {
          var j :| 0 <= j < n - 1 && d[j].term == before[k].term;
          assert r[k] == before[k];
          assert 0 <= j < n && d[j].term == r[k].term;
        } else {
          assert 0 <= n - 1 < n && d[n - 1].term == r[k].term;
        }
      }
    } else {
      assert IssuesOfFirst(d, n) == [];
    }
  }

  /**
   * The list `validate_flashcards` returns: the entries' issues in dictionary
   * order. Every issue names a term of the dictionary, at most four per entry.
   */
  function ValidationIssues(d: Dict): (r: seq<Issue>)
    ensures |r| <= 4 * |d|
    ensures forall k :: 0 <= k < |r| ==> HasTerm(d, r[k].term)
  {
    IssuesOfFirstTerms(d, |d|);
    IssuesOfFirst(d, |d|)
  }

  /** One more entry appends its four checks' issues, in check order. */
  lemma IssuesOfFirstStep(d: Dict, n: nat)
    requires n < |d|
    ensures IssuesOfFirst(d, n + 1) == IssuesOfFirst(d, n)
      + IssueIf(d[n], EmptyTerm) + IssueIf(d[n], EmptyDefinition)
      + IssueIf(d[n], TermTooLong) + IssueIf(d[n], DefinitionTooLong)
  {
    FailedChecksInOrder(d[n]);
    var before := IssuesOfFirst(d, n);
    var t, e, l, m := IssueIf(d[n], EmptyTerm), IssueIf(d[n], EmptyDefinition),
      IssueIf(d[n], TermTooLong), IssueIf(d[n], DefinitionTooLong);
    assert before + (t + e + l + m) == before + t + e + l + m;
  }

  /** Among the first `n` entries, entry `i` gets an issue for a check exactly when it fails it. */
  lemma {:induction false} IssuesOfFirstExact(d: Dict, n: nat, i: nat, reason: Reason)
    requires DistinctTerms(d) && i < n <= |d|
    ensures Issue(d[i].term, reason) in IssuesOfFirst(d, n) <==> Fails(d[i], reason)
  {
    var last := d[n - 1];
    EntryIssuesExact(last, reason);
    if i == n - 1 {
      IssuesOfFirstTerms(d, n - 1);
      var before := IssuesOfFirst(d, n - 1);
      forall k | 0 <= k < |before| ensures before[k] != Issue(last.term, reason) {
        var j :| 0 <= j < n - 1 && d[j].term == before[k].term;
        assert d[j].term != last.term;
      }
    } else {
      IssuesOfFirstExact(d, n - 1, i, reason);
      assert d[i].term != last.term;
    }
  }

  /**
   * In a dictionary, an entry gets an issue for a check exactly when it fails
   * that check: the checks are independent and nothing else is reported.
   */
  lemma ValidationIssuesExact(d: Dict, i: nat, reason: Reason)
    requires DistinctTerms(d) && i < |d|
    ensures Issue(d[i].term, reason) in ValidationIssues(d) <==> Fails(d[i], reason)
  {
    IssuesOfFirstExact(d, |d|, i, reason);
  }
}
