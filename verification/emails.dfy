/**
 * The e-mail address patterns `<local>+@[a-zA-Z0-9.-]+\.<tld>{2,}`, in the dialects the
 * extractors use. An address is given by its acceptance predicate; the matcher is the
 * longest accepted match at each start (see `EmailAt`).
 */
module Emails {
  import opened Common
  import opened Chars
  import opened Strings
  import opened Matching

  /** `[a-zA-Z0-9._%+-]` or, without `%` and `+`, `[a-zA-Z0-9._-]`. */
  datatype LocalClass = WithPercentPlus | WithoutPercentPlus

  /** `[a-zA-Z]`, `[a-z]`, or `[A-Z|a-z]` (where `|` is a member of the class). */
  datatype TopLevelClass = Letters | LowerLetters | LettersOrPipe

  /** `framed`: the pattern is enclosed in `\b ... \b`. */
  datatype EmailDialect = EmailDialect(local: LocalClass, tld: TopLevelClass, framed: bool)

  /** `[A-Z0-9._%+-]+@[A-Z0-9.-]+\.[A-Z]{2,}` with the `i` flag, and the same pattern
      spelled `[a-zA-Z0-9._%+-]+@[a-zA-Z0-9.-]+\.[a-zA-Z]{2,}`. */
  const AnyCaseEmail := EmailDialect(WithPercentPlus, Letters, false)

  /** `[a-zA-Z0-9._%+-]+@[a-zA-Z0-9.-]+\.[a-z]{2,}` */
  const LowerTldEmail := EmailDialect(WithPercentPlus, LowerLetters, false)

  /** `\b[A-Za-z0-9._%+-]+@[A-Za-z0-9.-]+\.[A-Z|a-z]{2,}\b` */
  const FramedEmail := EmailDialect(WithPercentPlus, LettersOrPipe, true)

  /** `[a-zA-Z0-9._-]+@[a-zA-Z0-9.-]+\.[a-zA-Z]{2,}` */
  const PlainLocalEmail := EmailDialect(WithoutPercentPlus, Letters, false)

  predicate IsLocalChar(cls: LocalClass, c: char) {
    || IsAsciiLetter(c) || IsDigit(c) || c == '.' || c == '_' || c == '-'
    || (cls == WithPercentPlus && (c == '%' || c == '+'))
  }

  predicate IsDomainChar(c: char) { IsAsciiLetter(c) || IsDigit(c) || c == '.' || c == '-' }

  predicate IsTopLevelChar(cls: TopLevelClass, c: char) {
    match cls
    case Letters => IsAsciiLetter(c)
    case LowerLetters => IsAsciiLower(c)
    case LettersOrPipe => IsAsciiLetter(c) || c == '|'
  }

  /** The local part `s[i..a]`, the `@` at `a`, the domain `s[a+1..k]`, the dot at `k`
      and the top-level label `s[k+1..j]` of at least two characters. */
  predicate EmailShape(d: EmailDialect, s: string, i: nat, a: nat, k: nat, j: nat) {
    && i < a && a + 1 < k && k + 3 <= j <= |s|
    && AllIn(s, i, a, c => IsLocalChar(d.local, c)) && s[a] == '@'
    && AllIn(s, a + 1, k, IsDomainChar) && s[k] == '.'
    && AllIn(s, k + 1, j, c => IsTopLevelChar(d.tld, c))
    && (d.framed ==> IsBoundary(s, i) && IsBoundary(s, j))
  }

  /** `s[i..j]` is an address of dialect `d`. */
  predicate EmailAccepts(d: EmailDialect, s: string, i: nat, j: nat) {
    exists a: nat, k: nat | i < a < k < j :: EmailShape(d, s, i, a, k, j)
  }

  function EmailAcceptor(d: EmailDialect): Acceptor {
    (s: string, i: nat, j: nat) => EmailAccepts(d, s, i, j)
  }

  /** The match the backtracking search finds at a start: the local part is fixed by the
      start (it cannot contain `@`), and a later dot always yields a later end, since the
      top-level label cannot contain a dot; so the search ends on the longest address. */
  function EmailAt(d: EmailDialect): Matcher {
    Longest(EmailAcceptor(d))
  }

  lemma EmailGreedy(d: EmailDialect)
    ensures Greedy(EmailAt(d), EmailAcceptor(d))
  {
    LongestIsGreedy(EmailAcceptor(d));
  }

  /** `s.match(re)?.[0]` for an address pattern. */
  function FirstEmail(d: EmailDialect, s: string): Option<string> {
    EmailGreedy(d);
    MatchText(s, EmailAt(d))
  }

  /** `s[i..j]` is an address, no address starts further left, and none at `i` is
      longer. */
  predicate IsFirstEmail(d: EmailDialect, s: string, i: nat, j: nat) {
    && i <= j <= |s| && EmailAccepts(d, s, i, j)
    && (forall i', j' :: 0 <= i' < i && i' <= j' <= |s| ==> !EmailAccepts(d, s, i', j'))
    && (forall j' :: j < j' <= |s| ==> !EmailAccepts(d, s, i, j'))
  }

  /** The address found is the leftmost one, as long as it goes at that start; none is
      found only when the text holds no address, and any leftmost-longest address is the
      one found. */
  lemma FirstEmailIsLeftmost(d: EmailDialect, s: string)
    ensures FirstEmail(d, s).None? <==> forall i, j :: 0 <= i <= j <= |s| ==> !EmailAccepts(d, s, i, j)
    ensures FirstEmail(d, s).Some? ==> exists i: nat, j: nat :: IsFirstEmail(d, s, i, j) && FirstEmail(d, s).value == s[i..j]
    ensures forall i: nat, j: nat :: IsFirstEmail(d, s, i, j) ==> FirstEmail(d, s) == Some(s[i..j])
  {
    EmailGreedy(d);
    var acc := EmailAcceptor(d);
    MatchTextIsLeftmostLongest(s, EmailAt(d), acc);
    forall i: nat, j: nat ensures IsFirstEmail(d, s, i, j) <==> LeftmostLongest(s, acc, i, j) {
      assert forall i', j' :: acc(s, i', j') == EmailAccepts(d, s, i', j');
    }
    if FirstEmail(d, s).None? {
      forall i, j | 0 <= i <= j <= |s| ensures !EmailAccepts(d, s, i, j) {
        assert !acc(s, i, j);
      }
    } else {
      var i: nat, j: nat :| LeftmostLongest(s, acc, i, j) && FirstEmail(d, s).value == s[i..j];
      assert IsFirstEmail(d, s, i, j);
    }
  }

  /** An address ends in a dot and a top-level label of at least two characters of the
      dialect's class: for the lower-case dialect, lower-case ASCII letters only. */
  lemma EmailTopLevelLabel(d: EmailDialect, s: string, i: nat, j: nat)
    requires EmailAccepts(d, s, i, j)
    ensures exists k: nat | i < k && k + 3 <= j <= |s| :: s[k] == '.' && AllIn(s, k + 1, j, c => IsTopLevelChar(d.tld, c))
    ensures d.tld == LowerLetters ==> IsAsciiLower(s[j - 1]) && IsAsciiLower(s[j - 2])
  {
    var a: nat, k: nat :| i < a < k < j && EmailShape(d, s, i, a, k, j);
    assert IsTopLevelChar(d.tld, s[j - 1]) && IsTopLevelChar(d.tld, s[j - 2]);
  }

  /** An address holds exactly one `@` and no white space, so trimming leaves it unchanged. */
  lemma EmailHasNoSpace(d: EmailDialect, s: string, i: nat, j: nat)
    requires EmailAccepts(d, s, i, j)
    ensures forall x :: i <= x < j ==> !IsJsSpace(s[x])
    ensures exists a :: i < a < j && s[a] == '@' && forall x :: i <= x < j && x != a ==> s[x] != '@'
  {
    var a: nat, k: nat :| i < a < k < j && EmailShape(d, s, i, a, k, j);
    forall x | i <= x < j ensures !IsJsSpace(s[x]) && (x != a ==> s[x] != '@') {
      if x < a {
        assert IsLocalChar(d.local, s[x]);
      } else if a < x < k {
        assert IsDomainChar(s[x]);
      } else if k < x {
        assert IsTopLevelChar(d.tld, s[x]);
      }
    }
  }
}
