/**
 * The Python string operations the flashcard parser relies on: `str.strip()`,
 * `str.split(sep, 1)`, `sep in s`, `str.split("\n")` and `str.split(None, 1)`,
 * each stated over `seq<char>` together with what it guarantees.
 */
module Text {
  import opened Options

  /** Python's `str.isspace` for one character (the set `strip()` and `split()` use). */
  predicate IsSpace(c: char) {
    || ('\U{0009}' <= c <= '\U{000D}')
    || ('\U{001C}' <= c <= '\U{0020}')
    || c == '\U{0085}' || c == '\U{00A0}' || c == '\U{1680}'
    || ('\U{2000}' <= c <= '\U{200A}')
    || c == '\U{2028}' || c == '\U{2029}' || c == '\U{202F}'
    || c == '\U{205F}' || c == '\U{3000}'
  }

  /** Every character of `s` is whitespace (so `not s.strip()` holds). */
  predicate AllSpace(s: string) {
    forall k :: 0 <= k < |s| ==> IsSpace(s[k])
  }

  // ---------------------------------------------------------------------------
  // strip()

  /** `s.lstrip()`: `s` without its leading whitespace. */
  function StripLeft(s: string): (r: string)
    ensures |r| <= |s|
    ensures forall k :: 0 <= k < |s| - |r| ==> IsSpace(s[k])
    ensures r != [] ==> !IsSpace(r[0])
    ensures r == [] <==> AllSpace(s)
  {
    if s != [] && IsSpace(s[0]) then StripLeft(s[1..]) else s
  }

  /** What `lstrip()` keeps is the tail of `s` (so it starts at the first non-space character). */
  lemma {:induction false} StripLeftIsSuffix(s: string)
    ensures StripLeft(s) == s[|s| - |StripLeft(s)|..]
  {
    if s != [] && IsSpace(s[0]) {
      StripLeftIsSuffix(s[1..]);
    }
  }

  /** `s.rstrip()`: `s` without its trailing whitespace. */
  function StripRight(s: string): (r: string)
    ensures |r| <= |s|
    ensures forall k :: |r| <= k < |s| ==> IsSpace(s[k])
    ensures r != [] ==> !IsSpace(r[|r| - 1])
    ensures r == [] <==> AllSpace(s)
  {
    if s != [] && IsSpace(s[|s| - 1]) then StripRight(s[..|s| - 1]) else s
  }

  /** What `rstrip()` keeps is the head of `s` (so it ends at the last non-space character). */
  lemma {:induction false} StripRightIsPrefix(s: string)
    ensures StripRight(s) == s[..|StripRight(s)|]
  {
    if s != [] && IsSpace(s[|s| - 1]) {
      StripRightIsPrefix(s[..|s| - 1]);
    }
  }

  /**
   * `s.strip()`: empty exactly when `s` is all whitespace, and otherwise
   * starting and ending with a non-space character.
   */
  function Strip(s: string): (r: string)
    ensures |r| <= |s|
    ensures r == [] <==> AllSpace(s)
    ensures r != [] ==> !IsSpace(r[0]) && !IsSpace(r[|r| - 1])
  {
    var l := StripLeft(s);
    StripRightIsPrefix(l);
    StripRight(l)
  }

  /** `strip()` only removes characters: everything it keeps was in `s`. */
  lemma StripKeepsCharacters(s: string)
    ensures forall k :: 0 <= k < |Strip(s)| ==> Strip(s)[k] in s
  {
    var l := StripLeft(s);
    var r := StripRight(l);
    StripLeftIsSuffix(s);
    StripRightIsPrefix(l);
    forall k | 0 <= k < |r| ensures r[k] in s {
      assert r[k] == l[k] == s[|s| - |l| + k];
    }
  }

  /** A string that neither starts nor ends with whitespace is its own `strip()`. */
  lemma StripUnchanged(s: string)
    requires s != [] ==> !IsSpace(s[0]) && !IsSpace(s[|s| - 1])
    ensures Strip(s) == s
  {
  }

  // ---------------------------------------------------------------------------
  // sep in s, s.split(sep, 1)

  /** `p` occurs in `s` starting at index `i`. */
  predicate OccursAt(s: string, p: string, i: int) {
    0 <= i && i + |p| <= |s| && s[i..i + |p|] == p
  }

  /** Python's `p in s`. */
  ghost predicate Contains(s: string, p: string) {
    exists i :: OccursAt(s, p, i)
  }

  function FindFrom(s: string, p: string, i: nat): (r: Option<nat>)
    requires p != []
    ensures r.Some? ==> i <= r.value && OccursAt(s, p, r.value)
    ensures r.Some? ==> forall k :: i <= k < r.value ==> !OccursAt(s, p, k)
    ensures r.None? ==> forall k :: i <= k ==> !OccursAt(s, p, k)
    decreases |s| - i
  {
    if i + |p| > |s| then None
    else if s[i..i + |p|] == p then Some(i)
    else FindFrom(s, p, i + 1)
  }

  /** `s.find(p)`: the index of the first occurrence of `p` in `s`, if any. */
  function FindFirst(s: string, p: string): (r: Option<nat>)
    requires p != []
    ensures r.Some? ==> OccursAt(s, p, r.value)
    ensures r.Some? ==> forall k :: 0 <= k < r.value ==> !OccursAt(s, p, k)
    ensures r.None? <==> !Contains(s, p)
  {
    FindFrom(s, p, 0)
  }

  /** `s == a + p + b` and this `p` is the first occurrence of `p` in `s`. */
  ghost predicate SplitsAtFirst(s: string, p: string, a: string, b: string) {
    && s == a + p + b
    && forall k :: 0 <= k < |a| ==> !OccursAt(s, p, k)
  }

  /**
   * `s.split(p, 1)` when it yields two parts: the text before and after the
   * first occurrence of `p`. `None` stands for the one-part result.
   */
  function SplitOnce(s: string, p: string): (r: Option<(string, string)>)
    requires p != []
    ensures r.None? <==> !Contains(s, p)
    ensures r.Some? ==> SplitsAtFirst(s, p, r.value.0, r.value.1)
  {
    match FindFirst(s, p)
    case None => None
    case Some(i) =>
      assert s == s[..i] + p + s[i + |p|..];
      Some((s[..i], s[i + |p|..]))
  }

  /** There is only one way to cut a string at the first occurrence of `p`. */
  lemma {:induction false} SplitsAtFirstUnique(s: string, p: string, a: string, b: string, a': string, b': string)
    requires p != []
    requires SplitsAtFirst(s, p, a, b) && SplitsAtFirst(s, p, a', b')
    ensures a == a' && b == b'
  {
    assert OccursAt(s, p, |a|) by { assert s[|a|..|a| + |p|] == p; }
    assert OccursAt(s, p, |a'|) by { assert s[|a'|..|a'| + |p|] == p; }
    assert |a| == |a'|;
    assert a == s[..|a|] && a' == s[..|a'|];
    assert b == s[|a| + |p|..] && b' == s[|a'| + |p|..];
  }

  /** The cut that `SplitOnce` makes is the only first-occurrence cut. */
  lemma SplitOnceIs(s: string, p: string, a: string, b: string)
    requires p != []
    requires SplitsAtFirst(s, p, a, b)
    ensures SplitOnce(s, p) == Some((a, b))
  {
    assert OccursAt(s, p, |a|) by { assert s[|a|..|a| + |p|] == p; }
    var r := SplitOnce(s, p);
    SplitsAtFirstUnique(s, p, r.value.0, r.value.1, a, b);
  }

  /** Every first-occurrence cut is the one `SplitOnce` makes. */
  lemma SplitOnceCuts(s: string, p: string)
    requires p != []
    ensures forall a, b :: SplitsAtFirst(s, p, a, b) ==> SplitOnce(s, p) == Some((a, b))
  {
    forall a, b | SplitsAtFirst(s, p, a, b)
      ensures SplitOnce(s, p) == Some((a, b))
    {
      SplitOnceIs(s, p, a, b);
    }
  }

  // ---------------------------------------------------------------------------
  // content.split("\n")

  /** The number of times `c` occurs in `s`. */
  function CountChar(s: string, c: char): nat {
    if s == [] then 0 else (if s[0] == c then 1 else 0) + CountChar(s[1..], c)
  }

  /** `s.split("\n")`: one piece per newline plus one, none of them holding a newline. */
  function SplitLines(s: string): (r: seq<string>)
    ensures |r| == CountChar(s, '\n') + 1
    ensures forall i :: 0 <= i < |r| ==> '\n' !in r[i]
  {
    if s == [] then [""]
    else
      var rest := SplitLines(s[1..]);
      if s[0] == '\n' then [""] + rest
      else [[s[0]] + rest[0]] + rest[1..]
  }

  /** `"\n".join(pieces)`, the inverse of `SplitLines`. */
  function JoinLines(pieces: seq<string>): string
    requires pieces != []
  {
    if |pieces| == 1 then pieces[0] else pieces[0] + "\n" + JoinLines(pieces[1..])
  }

  /** Splitting into lines loses nothing: joining the pieces gives the content back. */
  lemma {:induction false} JoinSplitLines(s: string)
    ensures JoinLines(SplitLines(s)) == s
  {
    if s != [] {
      JoinSplitLines(s[1..]);
      var rest := SplitLines(s[1..]);
      if s[0] == '\n' {
        assert SplitLines(s)[1..] == rest;
      } else {
        var r := SplitLines(s);
        assert r[1..] == rest[1..];
        if |rest| > 1 {
          assert JoinLines(rest) == rest[0] + "\n" + JoinLines(rest[1..]);
        }
      }
    }
  }

  lemma {:induction false} SplitLinesPrefix(p: string, t: string)
    requires '\n' !in p
    ensures SplitLines(p + t) == [p + SplitLines(t)[0]] + SplitLines(t)[1..]
  {
    if p != [] {
      assert (p + t)[1..] == p[1..] + t;
      SplitLinesPrefix(p[1..], t);
      assert [p[0]] + (p[1..] + SplitLines(t)[0]) == p + SplitLines(t)[0];
    } else {
      assert p + t == t;
      var r := SplitLines(t);
      assert p + r[0] == r[0];
      assert [r[0]] + r[1..] == r;
    }
  }

  /** Lines without newlines, joined and split again, come back unchanged. */
  lemma {:induction false} SplitJoinLines(pieces: seq<string>)
    requires pieces != []
    requires forall i :: 0 <= i < |pieces| ==> '\n' !in pieces[i]
    ensures SplitLines(JoinLines(pieces)) == pieces
  {
    if |pieces| == 1 {
      SplitLinesPrefix(pieces[0], "");
      assert pieces[0] + "" == pieces[0];
    } else {
      var tail := JoinLines(pieces[1..]);
      SplitJoinLines(pieces[1..]);
      assert pieces[0] + "\n" + tail == pieces[0] + ("\n" + tail);
      SplitLinesPrefix(pieces[0], "\n" + tail);
      assert ("\n" + tail)[1..] == tail;
      assert SplitLines("\n" + tail) == [""] + pieces[1..];
      assert pieces[0] + "" == pieces[0];
    }
  }

  // ---------------------------------------------------------------------------
  // s.split(None, 1)

  /** Length of the leading run of non-space characters of `u`. */
  function WordEnd(u: string): (j: nat)
    ensures j <= |u|
    ensures forall k :: 0 <= k < j ==> !IsSpace(u[k])
    ensures j < |u| ==> IsSpace(u[j])
  {
    if u == [] || IsSpace(u[0]) then 0 else 1 + WordEnd(u[1..])
  }

  /** `s` holds at least two whitespace-separated words. */
  ghost predicate HasTwoWords(s: string) {
    exists i, j, k :: 0 <= i < j < k < |s| && !IsSpace(s[i]) && IsSpace(s[j]) && !IsSpace(s[k])
  }

  /** No character of `w` is whitespace. */
  predicate NoSpace(w: string) {
    forall k :: 0 <= k < |w| ==> !IsSpace(w[k])
  }

  /**
   * `s` is leading whitespace, a first word, a non-empty run of whitespace,
   * and a rest that starts with a non-space character.
   */
  ghost predicate WhitespaceCut(s: string, lead: string, w: string, gap: string, rest: string) {
    && s == lead + w + gap + rest
    && AllSpace(lead) && AllSpace(gap) && gap != []
    && w != [] && NoSpace(w)
    && rest != [] && !IsSpace(rest[0])
  }

  /**
   * `s.split(None, 1)` when it yields two parts: the first word, and the rest
   * of the string from the second word on (trailing whitespace kept), cut at
   * the first run of whitespace after the first word. `None` stands for a
   * result of fewer than two parts.
   */
  function SplitWhitespaceOnce(s: string): (r: Option<(string, string)>)
    ensures r.Some? ==> exists lead, gap :: WhitespaceCut(s, lead, r.value.0, gap, r.value.1)
  {
    var u := StripLeft(s);
    var j := WordEnd(u);
    var rest := StripLeft(u[j..]);
    if u == [] || rest == [] then None
    else
      WordsOfCut(s, u, j, rest);
      Some((u[..j], rest))
  }

  /** `s` is the whitespace `lstrip()` removes followed by what it keeps. */
  lemma {:induction false} StripLeftSplit(s: string)
    ensures s == s[..|s| - |StripLeft(s)|] + StripLeft(s)
    ensures AllSpace(s[..|s| - |StripLeft(s)|])
  {
    StripLeftIsSuffix(s);
  }

  /** The pieces `SplitWhitespaceOnce` computes form a whitespace cut of `s`. */
  lemma {:induction false} WordsOfCut(s: string, u: string, j: nat, rest: string)
    requires u == StripLeft(s) && u != []
    requires j == WordEnd(u) && rest == StripLeft(u[j..]) && rest != []
    ensures WhitespaceCut(s, s[..|s| - |u|], u[..j], u[j..][..|u[j..]| - |rest|], rest)
  {
    var t := u[j..];
    var lead, w, gap := s[..|s| - |u|], u[..j], t[..|t| - |rest|];
    StripLeftSplit(s);
    WordOfCut(u, j);
    GapOfCut(t, rest);
    CutOfPieces(s, lead, u, w, t, gap, rest);
  }

  /** Leading whitespace, a word, a run of whitespace and a rest, glued together, form a cut. */
  lemma CutOfPieces(s: string, lead: string, u: string, w: string, t: string, gap: string, rest: string)
    requires s == lead + u && AllSpace(lead)
    requires u == w + t && w != [] && NoSpace(w)
    requires t == gap + rest && AllSpace(gap) && gap != []
    requires rest != [] && !IsSpace(rest[0])
    ensures WhitespaceCut(s, lead, w, gap, rest)
  {
    ConcatAssoc(lead, w, gap, rest);
  }

  /** The first word of a string that starts with a non-space character. */
  lemma WordOfCut(u: string, j: nat)
    requires u != [] && !IsSpace(u[0]) && j == WordEnd(u)
    ensures u[..j] != [] && NoSpace(u[..j]) && u == u[..j] + u[j..]
  {
    var w := u[..j];
    forall k | 0 <= k < |w| ensures !IsSpace(w[k]) { assert w[k] == u[k]; }
  }

  /** What follows the first word is a non-empty run of whitespace and the `lstrip()` of the remainder. */
  lemma GapOfCut(t: string, rest: string)
    requires rest == StripLeft(t) && rest != [] && IsSpace(t[0])
    ensures t == t[..|t| - |rest|] + rest && AllSpace(t[..|t| - |rest|]) && t[..|t| - |rest|] != []
  {
    StripLeftSplit(t);
  }

  /** Regrouping a four-part concatenation. */
  lemma ConcatAssoc(a: string, b: string, c: string, d: string)
    ensures a + b + c + d == a + (b + (c + d))
  {
  }

  /** `lstrip()` of whitespace followed by text that starts with a non-space is that text. */
  lemma {:induction false} StripLeftOf(lead: string, x: string)
    requires AllSpace(lead) && (x != [] ==> !IsSpace(x[0]))
    ensures StripLeft(lead + x) == x
  {
    if lead != [] {
      assert (lead + x)[1..] == lead[1..] + x;
      StripLeftOf(lead[1..], x);
    } else {
      assert lead + x == x;
    }
  }

  /** Any cut at leading whitespace, first word and the next whitespace run is the one `split(None, 1)` makes. */
  lemma SplitWhitespaceOnceIs(s: string, lead: string, w: string, gap: string, rest: string)
    requires WhitespaceCut(s, lead, w, gap, rest)
    ensures SplitWhitespaceOnce(s) == Some((w, rest))
  {
    assert s == lead + (w + gap + rest);
    StripLeftOf(lead, w + gap + rest);
    var u := w + gap + rest;
    assert u[|w|] == gap[0];
    var j := WordEnd(u);
    assert j == |w|;
    assert u[j..] == gap + rest;
    StripLeftOf(gap, rest);
    assert u[..j] == w;
  }

  lemma TwoPartsHaveTwoWords(s: string)
    requires SplitWhitespaceOnce(s).Some?
    ensures HasTwoWords(s)
  {
    var u := StripLeft(s);
    var start := |s| - |u|;
    var j := WordEnd(u);
    var rest := StripLeft(u[j..]);
    var k := start + j + (|u[j..]| - |rest|);
    StripLeftIsSuffix(s);
    StripLeftIsSuffix(u[j..]);
    assert s[start] == u[0];
    assert s[start + j] == u[j];
    assert s[k] == rest[0];
  }

  lemma TwoWordsHaveTwoParts(s: string, i: int, m: int, k: int)
    requires 0 <= i < m < k < |s| && !IsSpace(s[i]) && IsSpace(s[m]) && !IsSpace(s[k])
    ensures SplitWhitespaceOnce(s).Some?
  {
    var u := StripLeft(s);
    var start := |s| - |u|;
    StripLeftIsSuffix(s);
    assert u == s[start..];
    assert start <= i;
    var j := WordEnd(u);
    forall q | start <= q < start + j
      ensures !IsSpace(s[q])
    {
      assert s[q] == u[q - start];
    }
    assert start + j <= m;
    var tail := u[j..];
    assert tail[k - start - j] == s[k];
    assert StripLeft(tail) != [];
  }

  /** `s.split(None, 1)` has two parts exactly when `s` has two words. */
  lemma SplitWhitespaceOnceIff(s: string)
    ensures SplitWhitespaceOnce(s).Some? <==> HasTwoWords(s)
  {
    if SplitWhitespaceOnce(s).Some? {
      TwoPartsHaveTwoWords(s);
    } else if HasTwoWords(s) {
      var i, m, k :| 0 <= i < m < k < |s| && !IsSpace(s[i]) && IsSpace(s[m]) && !IsSpace(s[k]);
      TwoWordsHaveTwoParts(s, i, m, k);
    }
  }

  /** Every whitespace cut is the one `SplitWhitespaceOnce` makes, and its word is its own `strip()`. */
  lemma SplitWhitespaceOnceCuts(s: string)
    ensures forall lead, w, gap, rest :: WhitespaceCut(s, lead, w, gap, rest) ==>
      SplitWhitespaceOnce(s) == Some((w, rest)) && Strip(w) == w
  {
    forall lead, w, gap, rest | WhitespaceCut(s, lead, w, gap, rest)
      ensures SplitWhitespaceOnce(s) == Some((w, rest)) && Strip(w) == w
    {
      SplitWhitespaceOnceIs(s, lead, w, gap, rest);
      StripUnchanged(w);
    }
  }
}
