/**
 * Two capitalised words separated by white space: the name patterns
 * `\b([A-Z][a-z]+)\s+([A-Z][a-z-]+)\b` and `([A-Z][a-zA-Z'-]+)\s+([A-Z][a-zA-Z'-]+)`.
 * Both are instances of one recogniser, parameterised by what may follow the capital of
 * each word and by whether the pair is framed by `\b`.
 */
module Names {
  import opened Common
  import opened Chars
  import opened Strings
  import opened Matching

  /** The characters allowed after the capital of a word never include white space. */
  ghost predicate NoSpace(rest: char -> bool) {
    forall c: char :: rest(c) ==> !IsJsSpace(c)
  }

  /** The largest `j` in `[lo, hi]` at which `\b` holds. */
  function LastBoundary(s: string, lo: nat, hi: nat): (r: Option<nat>)
    ensures r.Some? ==> lo <= r.value <= hi && IsBoundary(s, r.value)
    ensures r.Some? ==> forall j :: r.value < j <= hi ==> !IsBoundary(s, j)
    ensures r.None? ==> forall j :: lo <= j <= hi ==> !IsBoundary(s, j)
    decreases hi
  {
    if hi < lo then None
    else if IsBoundary(s, hi) then Some(hi)
    else if hi == 0 then None
    else LastBoundary(s, lo, hi - 1)
  }

  /** The end of the first word, which starts with its capital at `i`. */
  function FirstWordEnd(s: string, i: nat, rest1: char -> bool): nat
    requires i < |s|
  {
    RunEnd(s, i + 1, rest1)
  }

  /** The start of the second word: the end of the white space after the first. */
  function SecondWordStart(s: string, i: nat, rest1: char -> bool): nat
    requires i < |s|
  {
    RunEnd(s, FirstWordEnd(s, i, rest1), IsJsSpace)
  }

  /** One attempt of the pair pattern at `i`. Each word is as long as it can be, since
      what follows it (white space, or a capital) cannot extend it; only the closing `\b`
      can make the second word give characters back. */
  function WordPairAt(s: string, i: nat, rest1: char -> bool, rest2: char -> bool, framed: bool): Option<nat> {
    if !(i < |s| && IsAsciiUpper(s[i]) && (!framed || IsBoundary(s, i))) then None
    else
      var a := FirstWordEnd(s, i, rest1);
      var b := SecondWordStart(s, i, rest1);
      if !(i + 2 <= a < b < |s| && IsAsciiUpper(s[b])) then None
      else
        var r := RunEnd(s, b + 1, rest2);
        if r < b + 2 then None
        else if framed then LastBoundary(s, b + 2, r)
        else Some(r)
  }

  /** The words `s[i..a]` and `s[b..j]`, with the white space `s[a..b]` between them. */
  predicate WordPairShape(s: string, i: nat, a: nat, b: nat, j: nat, rest1: char -> bool, rest2: char -> bool, framed: bool) {
    && i + 2 <= a < b && b + 2 <= j <= |s|
    && IsAsciiUpper(s[i]) && AllIn(s, i + 1, a, rest1)
    && AllIn(s, a, b, IsJsSpace)
    && IsAsciiUpper(s[b]) && AllIn(s, b + 1, j, rest2)
    && (framed ==> IsBoundary(s, i) && IsBoundary(s, j))
  }

  /** `s[i..j]` is a capital and at least one `rest1` character, white space, then a
      capital and at least one `rest2` character; with `\b` at both ends when framed. */
  predicate WordPairAccepts(s: string, i: nat, j: nat, rest1: char -> bool, rest2: char -> bool, framed: bool) {
    exists a: nat, b: nat | a < b <= j :: WordPairShape(s, i, a, b, j, rest1, rest2, framed)
  }

  /** In an accepted pair the split points are the ones the search computes, so the
      captured words are determined by the start. */
  lemma WordPairSplit(s: string, i: nat, a: nat, b: nat, j: nat, rest1: char -> bool, rest2: char -> bool, framed: bool)
    requires NoSpace(rest1) && WordPairShape(s, i, a, b, j, rest1, rest2, framed)
    ensures FirstWordEnd(s, i, rest1) == a && SecondWordStart(s, i, rest1) == b
  {
    assert IsJsSpace(s[a]);
    RunEndUnique(s, i + 1, a, rest1);
    RunEndUnique(s, a, b, IsJsSpace);
  }

  lemma WordPairSound(s: string, i: nat, rest1: char -> bool, rest2: char -> bool, framed: bool)
    requires WordPairAt(s, i, rest1, rest2, framed).Some?
    ensures var j := WordPairAt(s, i, rest1, rest2, framed).value;
      i <= j <= |s| && WordPairAccepts(s, i, j, rest1, rest2, framed)
  {
    var a := FirstWordEnd(s, i, rest1);
    var b := SecondWordStart(s, i, rest1);
    var j := WordPairAt(s, i, rest1, rest2, framed).value;
    assert WordPairShape(s, i, a, b, j, rest1, rest2, framed);
  }

  lemma WordPairComplete(s: string, i: nat, j: nat, rest1: char -> bool, rest2: char -> bool, framed: bool)
    requires NoSpace(rest1) && WordPairAccepts(s, i, j, rest1, rest2, framed)
    ensures WordPairAt(s, i, rest1, rest2, framed).Some? && j <= WordPairAt(s, i, rest1, rest2, framed).value
  {
    var a: nat, b: nat :| a < b <= j && WordPairShape(s, i, a, b, j, rest1, rest2, framed);
    WordPairSplit(s, i, a, b, j, rest1, rest2, framed);
  }

  // ---------------------------------------------------------------------------
  // the two instances

  predicate IsLowerOrHyphen(c: char) { IsAsciiLower(c) || c == '-' }

  /** `[a-zA-Z'-]` */
  predicate IsNameChar(c: char) { IsAsciiLetter(c) || c == '\'' || c == '-' }

  /** `\b([A-Z][a-z]+)\s+([A-Z][a-z-]+)\b` */
  function CapitalPairAt(s: string, i: nat): Option<nat> {
    WordPairAt(s, i, IsAsciiLower, IsLowerOrHyphen, true)
  }

  predicate CapitalPairAccepts(s: string, i: nat, j: nat) {
    WordPairAccepts(s, i, j, IsAsciiLower, IsLowerOrHyphen, true)
  }

  /** `([A-Z][a-zA-Z'-]+)\s+([A-Z][a-zA-Z'-]+)` */
  function NamePairAt(s: string, i: nat): Option<nat> {
    WordPairAt(s, i, IsNameChar, IsNameChar, false)
  }

  predicate NamePairAccepts(s: string, i: nat, j: nat) {
    WordPairAccepts(s, i, j, IsNameChar, IsNameChar, false)
  }

  lemma CapitalPairGreedy()
    ensures Greedy(CapitalPairAt, CapitalPairAccepts)
  {
    assert NoSpace(IsAsciiLower);
    forall s: string, i: nat | CapitalPairAt(s, i).Some?
      ensures i <= CapitalPairAt(s, i).value <= |s| && CapitalPairAccepts(s, i, CapitalPairAt(s, i).value)
    {
      WordPairSound(s, i, IsAsciiLower, IsLowerOrHyphen, true);
    }
    forall s: string, i: nat, j: nat | i <= j <= |s| && CapitalPairAccepts(s, i, j)
      ensures CapitalPairAt(s, i).Some? && j <= CapitalPairAt(s, i).value
    {
      WordPairComplete(s, i, j, IsAsciiLower, IsLowerOrHyphen, true);
    }
  }

  lemma NamePairGreedy()
    ensures Greedy(NamePairAt, NamePairAccepts)
  {
    assert NoSpace(IsNameChar);
    forall s: string, i: nat | NamePairAt(s, i).Some?
      ensures i <= NamePairAt(s, i).value <= |s| && NamePairAccepts(s, i, NamePairAt(s, i).value)
    {
      WordPairSound(s, i, IsNameChar, IsNameChar, false);
    }
    forall s: string, i: nat, j: nat | i <= j <= |s| && NamePairAccepts(s, i, j)
      ensures NamePairAt(s, i).Some? && j <= NamePairAt(s, i).value
    {
      WordPairComplete(s, i, j, IsNameChar, IsNameChar, false);
    }
  }

  /** The two captured words of the leftmost match of a pair pattern. */
  datatype WordPair = WordPair(first: string, second: string)

  /** `s.match(re)` for a pair pattern, as its two capture groups. */
  function FirstWordPair(s: string, m: Matcher, rest1: char -> bool): (r: Option<WordPair>)
    requires Bounded(m)
  {
    match FirstMatch(s, m)
    case None => None
    case Some(sp) =>
      if sp.start < |s| && SecondWordStart(s, sp.start, rest1) <= sp.end then
        Some(WordPair(s[sp.start..FirstWordEnd(s, sp.start, rest1)],
                      s[SecondWordStart(s, sp.start, rest1)..sp.end]))
      else None
  }

  /** The leftmost pair, as captured: the words are the two halves of the leftmost-longest
      accepted match, any such match gives the pair found, and there is none exactly when
      nothing is accepted. */
  lemma FirstWordPairIsLeftmost(s: string, m: Matcher, acc: Acceptor, rest1: char -> bool, rest2: char -> bool, framed: bool)
    requires NoSpace(rest1) && Greedy(m, acc)
    requires forall t: string, i: nat, j: nat :: acc(t, i, j) == WordPairAccepts(t, i, j, rest1, rest2, framed)
    ensures
      var r := FirstWordPair(s, m, rest1);
      && (r.None? <==> forall i, j :: 0 <= i <= j <= |s| ==> !acc(s, i, j))
      && (r.Some? ==> exists i: nat, a: nat, b: nat, j: nat ::
            && WordPairShape(s, i, a, b, j, rest1, rest2, framed)
            && r.value == WordPair(s[i..a], s[b..j])
            && LeftmostLongest(s, acc, i, j))
      && (forall i: nat, a: nat, b: nat, j: nat ::
            WordPairShape(s, i, a, b, j, rest1, rest2, framed) && LeftmostLongest(s, acc, i, j) ==>
              r == Some(WordPair(s[i..a], s[b..j])))
  {
    FirstMatchIsLeftmostLongest(s, m, acc);
    var fm := FirstMatch(s, m);
    if fm.Some? {
      var sp := fm.value;
      assert WordPairAccepts(s, sp.start, sp.end, rest1, rest2, framed);
      var a: nat, b: nat :| a < b <= sp.end && WordPairShape(s, sp.start, a, b, sp.end, rest1, rest2, framed);
      WordPairSplit(s, sp.start, a, b, sp.end, rest1, rest2, framed);
      assert FirstWordPair(s, m, rest1) == Some(WordPair(s[sp.start..a], s[b..sp.end]));
    }
    forall i: nat, a: nat, b: nat, j: nat |
      WordPairShape(s, i, a, b, j, rest1, rest2, framed) && LeftmostLongest(s, acc, i, j)
      ensures FirstWordPair(s, m, rest1) == Some(WordPair(s[i..a], s[b..j]))
    {
      WordPairSplit(s, i, a, b, j, rest1, rest2, framed);
    }
  }
}
