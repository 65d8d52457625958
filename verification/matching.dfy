/**
 * How a regular expression is applied to a string, without a regular-expression engine.
 *
 * A `Matcher` is one attempt of a pattern at a fixed start index: the end index of the
 * match the backtracking search finds there, or `None`. `String.prototype.match` without
 * the `g` flag tries the start indices from left to right and returns the first match
 * (`FirstMatch`); with the `g` flag it collects successive matches (`AllMatches`).
 *
 * An `Acceptor` is the declarative side: `acc(s, i, j)` says that `s[i..j]` is a match of
 * the pattern in the context of `s` (the context matters for `\b`). `Recognises` and
 * `Greedy` tie a matcher to its acceptor; the hand-written recognisers are proved to meet
 * them, and the patterns this model does not recognise by hand (e-mail addresses, the
 * North-American phone patterns) are matcher parameters constrained by them.
 */
module Matching {
  import opened Common
  import opened Chars
  import opened Strings

  type Matcher = (string, nat) -> Option<nat>

  type Acceptor = (string, nat, nat) -> bool

  /** A span `[start, end)` of the searched string. */
  datatype Span = Span(start: nat, end: nat)

  /** Every match a matcher reports lies inside the string, after its start index. */
  ghost predicate Bounded(m: Matcher) {
    forall s: string, i: nat :: m(s, i).Some? ==> i <= m(s, i).value <= |s|
  }

  /** `m` finds a match at `i` exactly when `acc` accepts some `s[i..j]`, and what it
      finds is accepted. */
  ghost predicate Recognises(m: Matcher, acc: Acceptor) {
    && Bounded(m)
    && (forall s: string, i: nat :: m(s, i).Some? ==> acc(s, i, m(s, i).value))
    && (forall s: string, i: nat, j: nat :: i <= j <= |s| && acc(s, i, j) ==> m(s, i).Some?)
  }

  /** ... and what it finds is the longest accepted match at that start. */
  ghost predicate Greedy(m: Matcher, acc: Acceptor) {
    && Recognises(m, acc)
    && (forall s: string, i: nat, j: nat :: i <= j <= |s| && acc(s, i, j) ==> j <= m(s, i).value)
  }

  // ---------------------------------------------------------------------------
  // leftmost match

  /** The first start index at or after `k` where `m` finds a match, with that match. */
  function FirstMatchFrom(s: string, m: Matcher, k: nat): (r: Option<Span>)
    requires Bounded(m)
    ensures r.Some? ==> k <= r.value.start <= r.value.end <= |s| && m(s, r.value.start) == Some(r.value.end)
    ensures r.Some? ==> forall i :: k <= i < r.value.start ==> m(s, i).None?
    ensures r.None? ==> forall i :: k <= i <= |s| ==> m(s, i).None?
    decreases |s| + 1 - k
  {
    if k > |s| then None
    else if m(s, k).Some? then Some(Span(k, m(s, k).value))
    else FirstMatchFrom(s, m, k + 1)
  }

  /** `s.match(re)`: the leftmost match. */
  function FirstMatch(s: string, m: Matcher): (r: Option<Span>)
    requires Bounded(m)
  {
    FirstMatchFrom(s, m, 0)
  }

  /** `s.match(re)?.[0]`: the text of the leftmost match. */
  function MatchText(s: string, m: Matcher): (r: Option<string>)
    requires Bounded(m)
  {
    match FirstMatch(s, m)
    case None => None
    case Some(sp) => Some(s[sp.start..sp.end])
  }

  /** `s.match(re)` is the leftmost accepted span: no accepted span starts earlier, and
      there is no match at all exactly when nothing is accepted. */
  lemma FirstMatchIsLeftmost(s: string, m: Matcher, acc: Acceptor)
    requires Recognises(m, acc)
    ensures FirstMatch(s, m).None? <==> forall i, j :: 0 <= i <= j <= |s| ==> !acc(s, i, j)
    ensures FirstMatch(s, m).Some? ==>
      var sp := FirstMatch(s, m).value;
      && acc(s, sp.start, sp.end)
      && forall i, j :: 0 <= i < sp.start && i <= j <= |s| ==> !acc(s, i, j)
  {
    var r := FirstMatch(s, m);
    if r.None? {
      forall i, j | 0 <= i <= j <= |s| ensures !acc(s, i, j) {
        assert m(s, i).None?;
      }
    } else {
      forall i, j | 0 <= i < r.value.start && i <= j <= |s| ensures !acc(s, i, j) {
        assert m(s, i).None?;
      }
    }
  }

  /** A match found by `MatchText` is accepted by the pattern and is the leftmost one. */
  lemma MatchTextAccepted(s: string, m: Matcher, acc: Acceptor)
    requires Recognises(m, acc)
    ensures MatchText(s, m).Some? ==>
      exists i: nat, j: nat :: i <= j <= |s| && acc(s, i, j) && MatchText(s, m).value == s[i..j]
    ensures MatchText(s, m).None? <==> forall i, j :: 0 <= i <= j <= |s| ==> !acc(s, i, j)
  {
    FirstMatchIsLeftmost(s, m, acc);
  }

  /** `s[i..j]` is accepted and no accepted span starts further left. */
  predicate LeftmostAccepted(s: string, acc: Acceptor, i: nat, j: nat) {
    && i <= j <= |s| && acc(s, i, j)
    && forall i', j' :: 0 <= i' < i && i' <= j' <= |s| ==> !acc(s, i', j')
  }

  /** The text `MatchText` returns is that of a leftmost accepted span. */
  lemma MatchTextIsLeftmost(s: string, m: Matcher, acc: Acceptor)
    requires Recognises(m, acc)
    ensures MatchText(s, m).Some? ==>
      exists i: nat, j: nat :: LeftmostAccepted(s, acc, i, j) && MatchText(s, m).value == s[i..j]
    ensures MatchText(s, m).None? <==> forall i, j :: 0 <= i <= j <= |s| ==> !acc(s, i, j)
  {
    FirstMatchIsLeftmost(s, m, acc);
    if FirstMatch(s, m).Some? {
      var sp := FirstMatch(s, m).value;
      assert LeftmostAccepted(s, acc, sp.start, sp.end);
    }
  }

  /** No accepted span at `i` ends after `j`. */
  predicate LongestAt(s: string, acc: Acceptor, i: nat, j: nat) {
    forall j' :: j < j' <= |s| ==> !acc(s, i, j')
  }

  /** `s[i..j]` is the span a greedy pattern matches: the leftmost accepted start, and at
      that start the longest accepted span. */
  predicate LeftmostLongest(s: string, acc: Acceptor, i: nat, j: nat) {
    LeftmostAccepted(s, acc, i, j) && LongestAt(s, acc, i, j)
  }

  /** A string has at most one leftmost-longest span. */
  lemma LeftmostLongestUnique(s: string, acc: Acceptor, i: nat, j: nat, i': nat, j': nat)
    requires LeftmostLongest(s, acc, i, j) && LeftmostLongest(s, acc, i', j')
    ensures i == i' && j == j'
  {
  }

  /** For a greedy matcher, the span `s.match(re)` finds is the leftmost-longest one, and
      any leftmost-longest span is the one found. */
  lemma FirstMatchIsLeftmostLongest(s: string, m: Matcher, acc: Acceptor)
    requires Greedy(m, acc)
    ensures FirstMatch(s, m).None? <==> forall i, j :: 0 <= i <= j <= |s| ==> !acc(s, i, j)
    ensures FirstMatch(s, m).Some? ==> LeftmostLongest(s, acc, FirstMatch(s, m).value.start, FirstMatch(s, m).value.end)
    ensures forall i: nat, j: nat :: LeftmostLongest(s, acc, i, j) ==> FirstMatch(s, m) == Some(Span(i, j))
  {
    FirstMatchIsLeftmost(s, m, acc);
    var fm := FirstMatch(s, m);
    if fm.Some? {
      var sp := fm.value;
      assert LeftmostLongest(s, acc, sp.start, sp.end);
      forall i: nat, j: nat | LeftmostLongest(s, acc, i, j) ensures FirstMatch(s, m) == Some(Span(i, j)) {
        LeftmostLongestUnique(s, acc, i, j, sp.start, sp.end);
      }
    }
  }

  /** For a greedy matcher, `s.match(re)` is exactly the text of the leftmost-longest
      accepted span: it exists when some span is accepted, and any span that is
      leftmost-longest is the one found. */
  lemma MatchTextIsLeftmostLongest(s: string, m: Matcher, acc: Acceptor)
    requires Greedy(m, acc)
    ensures MatchText(s, m).None? <==> forall i, j :: 0 <= i <= j <= |s| ==> !acc(s, i, j)
    ensures MatchText(s, m).Some? ==>
      exists i: nat, j: nat :: LeftmostLongest(s, acc, i, j) && MatchText(s, m).value == s[i..j]
    ensures forall i: nat, j: nat :: LeftmostLongest(s, acc, i, j) ==> MatchText(s, m) == Some(s[i..j])
  {
    FirstMatchIsLeftmost(s, m, acc);
    var fm := FirstMatch(s, m);
    if fm.Some? {
      var sp := fm.value;
      assert LeftmostLongest(s, acc, sp.start, sp.end);
      forall i: nat, j: nat | LeftmostLongest(s, acc, i, j) ensures MatchText(s, m) == Some(s[i..j]) {
        LeftmostLongestUnique(s, acc, i, j, sp.start, sp.end);
      }
    }
  }

  // ---------------------------------------------------------------------------
  // global matches

  /** The successive matches of a `g`-flagged pattern from index `k` on: after each match
      the search resumes at its end (one further when the match is empty). */
  function AllMatchesFrom(s: string, m: Matcher, k: nat): (r: seq<Span>)
    requires Bounded(m)
    ensures forall n :: 0 <= n < |r| ==>
      k <= r[n].start <= r[n].end <= |s| && m(s, r[n].start) == Some(r[n].end)
    decreases |s| + 1 - k
  {
    match FirstMatchFrom(s, m, k)
    case None => []
    case Some(sp) =>
      var next := if sp.end > sp.start then sp.end else sp.end + 1;
      [sp] + AllMatchesFrom(s, m, next)
  }

  /** `s.match(re_g) || []`: the texts of all successive matches. */
  function AllMatches(s: string, m: Matcher): (r: seq<string>)
    requires Bounded(m)
    ensures forall n :: 0 <= n < |r| ==> exists i: nat :: i <= |s| && m(s, i) == Some(i + |r[n]|) && r[n] == s[i..i + |r[n]|]
  {
    var spans := AllMatchesFrom(s, m, 0);
    var r := seq(|spans|, n requires 0 <= n < |spans| => s[spans[n].start..spans[n].end]);
    assert forall n :: 0 <= n < |r| ==> m(s, spans[n].start) == Some(spans[n].start + |r[n]|);
    r
  }

  /** `(s.match(re_g) || [null])[0]` is the leftmost match: the first of the global
      matches is the one `s.match(re)` finds without the `g` flag. */
  lemma AllMatchesStartWithFirst(s: string, m: Matcher)
    requires Bounded(m)
    ensures |AllMatches(s, m)| > 0 <==> MatchText(s, m).Some?
    ensures |AllMatches(s, m)| > 0 ==> AllMatches(s, m)[0] == MatchText(s, m).value
  {
  }

  // ---------------------------------------------------------------------------
  // a reference matcher

  /** The largest `j`, from `hi` down to `i`, that `acc` accepts. */
  function LastAccepted(acc: Acceptor, s: string, i: nat, hi: nat): (r: Option<nat>)
    requires i <= hi <= |s|
    ensures r.Some? ==> i <= r.value <= hi && acc(s, i, r.value)
    ensures r.Some? ==> forall j :: r.value < j <= hi ==> !acc(s, i, j)
    ensures r.None? ==> forall j :: i <= j <= hi ==> !acc(s, i, j)
    decreases hi
  {
    if acc(s, i, hi) then Some(hi)
    else if hi == i then None
    else LastAccepted(acc, s, i, hi - 1)
  }

  /** The matcher that returns the longest accepted match. */
  function Longest(acc: Acceptor): Matcher {
    (s: string, i: nat) => if i <= |s| then LastAccepted(acc, s, i, |s|) else None
  }

  /** Every acceptor has a greedy matcher, so `Greedy(m, acc)` can always be met. */
  lemma LongestIsGreedy(acc: Acceptor)
    ensures Greedy(Longest(acc), acc)
  {
    var m := Longest(acc);
    forall s: string, i: nat | m(s, i).Some? ensures i <= m(s, i).value <= |s| && acc(s, i, m(s, i).value) {
    }
    forall s: string, i: nat, j: nat | i <= j <= |s| && acc(s, i, j) ensures m(s, i).Some? && j <= m(s, i).value {
    }
  }

  /** Two greedy matchers for the same acceptor agree everywhere: `Greedy` determines the
      matcher. */
  lemma GreedyUnique(m: Matcher, m': Matcher, acc: Acceptor, s: string, i: nat)
    requires Greedy(m, acc) && Greedy(m', acc) && i <= |s|
    ensures m(s, i) == m'(s, i)
  {
    if m(s, i).Some? {
      assert acc(s, i, m(s, i).value);
    }
    if m'(s, i).Some? {
      assert acc(s, i, m'(s, i).value);
    }
  }

  // ---------------------------------------------------------------------------
  // building blocks of hand-written recognisers

  /** The end of the maximal run of `p`-characters starting at `i`. */
  function RunEnd(s: string, i: nat, p: char -> bool): (r: nat)
    requires i <= |s|
    ensures i <= r <= |s|
    ensures forall k :: i <= k < r ==> p(s[k])
    ensures r == |s| || !p(s[r])
    decreases |s| - i
  {
    if i < |s| && p(s[i]) then RunEnd(s, i + 1, p) else i
  }

  /** Every character of `s[i..j]` satisfies `p`. */
  predicate AllIn(s: string, i: nat, j: nat, p: char -> bool)
    requires i <= j <= |s|
  {
    forall k :: i <= k < j ==> p(s[k])
  }

  /** A maximal run is the only run of `p` that can end before a non-`p` character. */
  lemma RunEndUnique(s: string, i: nat, j: nat, p: char -> bool)
    requires i <= j <= |s| && AllIn(s, i, j, p) && (j == |s| || !p(s[j]))
    ensures RunEnd(s, i, p) == j
  {
  }

  /** A run of `p` from `i` never reaches past the maximal one. */
  lemma RunEndCovers(s: string, i: nat, j: nat, p: char -> bool)
    requires i <= j <= |s| && AllIn(s, i, j, p)
    ensures j <= RunEnd(s, i, p)
  {
  }

  /** `\w` at index `k`, false outside the string. */
  predicate IsWordAt(s: string, k: int) {
    0 <= k < |s| && IsWordChar(s[k])
  }

  /** `\b` at index `p`: a word character on exactly one side. */
  predicate IsBoundary(s: string, p: nat) {
    IsWordAt(s, p - 1) != IsWordAt(s, p)
  }

  /** The literal `lit` at index `i`. */
  predicate LiteralAt(s: string, i: nat, lit: string) {
    OccursAt(s, lit, i)
  }

  /** The literal `lit` at index `i` under the `i` flag. */
  predicate LiteralIgnoringCaseAt(s: string, i: nat, lit: string) {
    OccursIgnoringCaseAt(s, lit, i)
  }

  /** A literal that starts with an ASCII letter matches, ignoring case, only where that
      letter stands in either case. */
  lemma LiteralIgnoringCaseHead(s: string, i: nat, lit: string)
    requires LiteralIgnoringCaseAt(s, i, lit) && |lit| > 0 && IsAsciiLetter(lit[0])
    ensures i < |s| && IsAsciiLetter(s[i]) && Lower(s[i]) == Lower(lit[0])
  {
    assert EqualsIgnoringCase(s[i + 0], lit[0]);
    AsciiLetterIgnoringCase(s[i], lit[0]);
  }
}
