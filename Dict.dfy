/**
 * A Python `dict[str, str]` as the parser uses it: an insertion-ordered list
 * of entries with distinct terms. Assigning to an existing term replaces its
 * definition where it stands; a new term goes to the end.
 */
module Dict {
  import opened Options

  /** One flashcard: a term and its definition. */
  datatype Entry = Entry(term: string, definition: string)

  type Dict = seq<Entry>

  /** No term appears in two entries (Python dictionaries keep keys unique). */
  ghost predicate DistinctTerms(d: Dict) {
    forall i, j :: 0 <= i < j < |d| ==> d[i].term != d[j].term
  }

  /** `term in d`. */
  predicate HasTerm(d: Dict, term: string) {
    exists i :: 0 <= i < |d| && d[i].term == term
  }

  /** `d.get(term)`. */
  function Get(d: Dict, term: string): (r: Option<string>)
    ensures r.None? <==> !HasTerm(d, term)
    ensures r.Some? ==> exists i :: 0 <= i < |d| && d[i] == Entry(term, r.value)
    ensures DistinctTerms(d) ==> forall i :: 0 <= i < |d| && d[i].term == term ==> r == Some(d[i].definition)
  {
    if d == [] then None
    else if d[0].term == term then Some(d[0].definition)
    else
      var r := Get(d[1..], term);
      assert forall i :: 1 <= i < |d| ==> d[i] == d[1..][i - 1];
      r
  }

  /** `d[term] = definition`, on the list of entries. */
  function Put(d: Dict, term: string, definition: string): (r: Dict)
    ensures Entry(term, definition) in r
    ensures |d| <= |r| <= |d| + 1
  {
    if d == [] then [Entry(term, definition)]
    else if d[0].term == term then [Entry(term, definition)] + d[1..]
    else [d[0]] + Put(d[1..], term, definition)
  }

  /**
   * `d[term] = definition` keeps the order of the terms: an existing term is
   * replaced where it stands, a new one goes last.
   */
  lemma {:induction false} PutShape(d: Dict, term: string, definition: string)
    ensures var r := Put(d, term, definition);
      && (HasTerm(d, term) ==> |r| == |d| && forall i :: 0 <= i < |d| ==> r[i].term == d[i].term)
      && (!HasTerm(d, term) ==> r == d + [Entry(term, definition)])
  {
    if d != [] && d[0].term != term {
      PutShape(d[1..], term, definition);
      assert HasTerm(d, term) <==> HasTerm(d[1..], term) by {
        if HasTerm(d, term) {
          var i :| 0 <= i < |d| && d[i].term == term;
          assert d[1..][i - 1].term == term;
        }
      }
      var r := Put(d, term, definition);
      if HasTerm(d, term) {
        assert forall i :: 1 <= i < |d| ==> r[i].term == d[1..][i - 1].term;
      } else {
        assert r == [d[0]] + (d[1..] + [Entry(term, definition)]);
      }
    }
  }

  /** After `d[term] = definition` the term maps to the definition and every other term is unchanged. */
  lemma {:induction false} PutGet(d: Dict, term: string, definition: string)
    ensures Get(Put(d, term, definition), term) == Some(definition)
    ensures forall t :: t != term ==> Get(Put(d, term, definition), t) == Get(d, t)
  {
    if d != [] && d[0].term != term {
      PutGet(d[1..], term, definition);
    }
  }

  /** `d[term] = definition` keeps the terms distinct. */
  lemma PutDistinct(d: Dict, term: string, definition: string)
    requires DistinctTerms(d)
    ensures DistinctTerms(Put(d, term, definition))
  {
    PutShape(d, term, definition);
  }

  /** Each entry after `d[term] = definition` is the new pair or the entry that stood there. */
  lemma {:induction false} PutEntry(d: Dict, term: string, definition: string, i: nat)
    requires i < |Put(d, term, definition)|
    ensures Put(d, term, definition)[i] == Entry(term, definition)
         || (i < |d| && Put(d, term, definition)[i] == d[i])
  {
    if d != [] && d[0].term != term && i > 0 {
      PutEntry(d[1..], term, definition, i - 1);
    }
  }
}
