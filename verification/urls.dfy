/**
 * Web-address patterns: `https?:\/\/[^\s]+`, the profile patterns
 * `https?:\/\/(www\.)?<host>\/<tail>+`, the fixed LinkedIn prefix
 * `https:\/\/www\.linkedin\.com\/in\/[a-zA-Z0-9-]+` and the portfolio pattern
 * `https?:\/\/[^\s]+\.(dev|me|com|io)`.
 */
module Urls {
  import opened Common
  import opened Chars
  import opened Strings
  import opened Matching

  /** `[^\s]` */
  predicate IsNonSpace(c: char) { !IsJsSpace(c) }

  /** `[^\s)]` */
  predicate IsNonSpaceOrParen(c: char) { !IsJsSpace(c) && c != ')' }

  /** `[a-zA-Z0-9-]` */
  predicate IsSlugChar(c: char) { IsAsciiLetter(c) || IsDigit(c) || c == '-' }

  // ---------------------------------------------------------------------------
  // https?://

  /** `https?:\/\/` at `i`: the optional `s` is tried first, and the two forms cannot both
      stand at one index. */
  function SchemeEnd(s: string, i: nat): Option<nat> {
    if LiteralAt(s, i, "https://") then Some(i + 8)
    else if LiteralAt(s, i, "http://") then Some(i + 7)
    else None
  }

  /** `s[i..p]` is `https://` or `http://`. */
  predicate SchemeAt(s: string, i: nat, p: nat) {
    (p == i + 8 && LiteralAt(s, i, "https://")) || (p == i + 7 && LiteralAt(s, i, "http://"))
  }

  lemma SchemeEndAgrees(s: string, i: nat, p: nat)
    ensures SchemeEnd(s, i) == Some(p) <==> SchemeAt(s, i, p)
  {
    if LiteralAt(s, i, "https://") {
      assert s[i + 4] == "https://"[4] == 's';
    }
  }

  /** The end of a non-empty run of `cls` from `p`. */
  function RunAfter(s: string, p: nat, cls: char -> bool): Option<nat>
    requires p <= |s|
  {
    var r := RunEnd(s, p, cls);
    if r > p then Some(r) else None
  }

  lemma SchemeBounded(s: string, i: nat)
    ensures SchemeEnd(s, i).Some? ==> SchemeEnd(s, i).value <= |s|
  {
  }

  // ---------------------------------------------------------------------------
  // https?://[^\s]+

  function UrlAt(s: string, i: nat): Option<nat> {
    SchemeBounded(s, i);
    match SchemeEnd(s, i)
    case None => None
    case Some(p) => RunAfter(s, p, IsNonSpace)
  }

  /** `s[i..j]` is a scheme and at least one non-space character. */
  predicate UrlAccepts(s: string, i: nat, j: nat) {
    exists p: nat | p < j :: SchemeAt(s, i, p) && j <= |s| && AllIn(s, p, j, IsNonSpace)
  }

  lemma UrlGreedy()
    ensures Greedy(UrlAt, UrlAccepts)
  {
    forall s: string, i: nat | UrlAt(s, i).Some?
      ensures i <= UrlAt(s, i).value <= |s| && UrlAccepts(s, i, UrlAt(s, i).value)
    {
      var p := SchemeEnd(s, i).value;
      SchemeEndAgrees(s, i, p);
    }
    forall s: string, i: nat, j: nat | i <= j <= |s| && UrlAccepts(s, i, j)
      ensures UrlAt(s, i).Some? && j <= UrlAt(s, i).value
    {
      var p: nat :| p < j && SchemeAt(s, i, p) && j <= |s| && AllIn(s, p, j, IsNonSpace);
      SchemeEndAgrees(s, i, p);
    }
  }

  // ---------------------------------------------------------------------------
  // https?://(www\.)?<host>[cls]+

  /** `(www\.)?<host>` at `p`; the optional `www.` is tried first. */
  function HostEnd(s: string, p: nat, host: string): Option<nat> {
    if LiteralAt(s, p, "www." + host) then Some(p + 4 + |host|)
    else if LiteralAt(s, p, host) then Some(p + |host|)
    else None
  }

  /** `s[p..q]` is `host`, with or without `www.` before it. */
  predicate HostAt(s: string, p: nat, q: nat, host: string) {
    (q == p + 4 + |host| && LiteralAt(s, p, "www." + host)) || (q == p + |host| && LiteralAt(s, p, host))
  }

  lemma HostEndAgrees(s: string, p: nat, q: nat, host: string)
    requires |host| > 0 && host[0] != 'w'
    ensures HostEnd(s, p, host) == Some(q) <==> HostAt(s, p, q, host)
  {
    if LiteralAt(s, p, "www." + host) {
      assert s[p] == ("www." + host)[0] == 'w';
    }
  }

  /** A profile address: a scheme, the host, then a non-empty run of `cls`. */
  function ProfileAt(s: string, i: nat, host: string, cls: char -> bool): Option<nat> {
    SchemeBounded(s, i);
    match SchemeEnd(s, i)
    case None => None
    case Some(p) =>
      match HostEnd(s, p, host)
      case None => None
      case Some(q) => if q <= |s| then RunAfter(s, q, cls) else None
  }

  predicate ProfileShape(s: string, i: nat, p: nat, q: nat, j: nat, host: string, cls: char -> bool) {
    SchemeAt(s, i, p) && HostAt(s, p, q, host) && q < j <= |s| && AllIn(s, q, j, cls)
  }

  /** `s[i..j]` is a scheme, `host` with an optional `www.`, and at least one `cls`
      character. */
  predicate ProfileAccepts(s: string, i: nat, j: nat, host: string, cls: char -> bool) {
    exists p: nat, q: nat | p <= q < j :: ProfileShape(s, i, p, q, j, host, cls)
  }

  lemma ProfileSound(s: string, i: nat, host: string, cls: char -> bool)
    requires ProfileAt(s, i, host, cls).Some?
    ensures var j := ProfileAt(s, i, host, cls).value; i <= j <= |s| && ProfileAccepts(s, i, j, host, cls)
  {
    var p := SchemeEnd(s, i).value;
    var q := HostEnd(s, p, host).value;
    SchemeEndAgrees(s, i, p);
    assert HostAt(s, p, q, host);
    assert ProfileShape(s, i, p, q, ProfileAt(s, i, host, cls).value, host, cls);
  }

  lemma ProfileComplete(s: string, i: nat, j: nat, host: string, cls: char -> bool)
    requires |host| > 0 && host[0] != 'w'
    requires ProfileAccepts(s, i, j, host, cls)
    ensures ProfileAt(s, i, host, cls).Some? && j <= ProfileAt(s, i, host, cls).value
  {
    var p: nat, q: nat :| p <= q < j && ProfileShape(s, i, p, q, j, host, cls);
    SchemeEndAgrees(s, i, p);
    HostEndAgrees(s, p, q, host);
  }

  /** `https?:\/\/(www\.)?linkedin\.com\/[^\s]+` */
  function LinkedInAt(s: string, i: nat): Option<nat> { ProfileAt(s, i, "linkedin.com/", IsNonSpace) }

  predicate LinkedInAccepts(s: string, i: nat, j: nat) { ProfileAccepts(s, i, j, "linkedin.com/", IsNonSpace) }

  /** `https?:\/\/(www\.)?github\.com\/[^\s]+` */
  function GitHubAt(s: string, i: nat): Option<nat> { ProfileAt(s, i, "github.com/", IsNonSpace) }

  predicate GitHubAccepts(s: string, i: nat, j: nat) { ProfileAccepts(s, i, j, "github.com/", IsNonSpace) }

  /** `https?:\/\/(www\.)?linkedin\.com\/[^\s)]+` */
  function LinkedInNoParenAt(s: string, i: nat): Option<nat> { ProfileAt(s, i, "linkedin.com/", IsNonSpaceOrParen) }

  predicate LinkedInNoParenAccepts(s: string, i: nat, j: nat) {
    ProfileAccepts(s, i, j, "linkedin.com/", IsNonSpaceOrParen)
  }

  lemma LinkedInGreedy()
    ensures Greedy(LinkedInAt, LinkedInAccepts)
  {
    forall s: string, i: nat | LinkedInAt(s, i).Some?
      ensures i <= LinkedInAt(s, i).value <= |s| && LinkedInAccepts(s, i, LinkedInAt(s, i).value)
    {
      ProfileSound(s, i, "linkedin.com/", IsNonSpace);
    }
    forall s: string, i: nat, j: nat | i <= j <= |s| && LinkedInAccepts(s, i, j)
      ensures LinkedInAt(s, i).Some? && j <= LinkedInAt(s, i).value
    {
      ProfileComplete(s, i, j, "linkedin.com/", IsNonSpace);
    }
  }

  lemma GitHubGreedy()
    ensures Greedy(GitHubAt, GitHubAccepts)
  {
    forall s: string, i: nat | GitHubAt(s, i).Some?
      ensures i <= GitHubAt(s, i).value <= |s| && GitHubAccepts(s, i, GitHubAt(s, i).value)
    {
      ProfileSound(s, i, "github.com/", IsNonSpace);
    }
    forall s: string, i: nat, j: nat | i <= j <= |s| && GitHubAccepts(s, i, j)
      ensures GitHubAt(s, i).Some? && j <= GitHubAt(s, i).value
    {
      ProfileComplete(s, i, j, "github.com/", IsNonSpace);
    }
  }

  lemma LinkedInNoParenGreedy()
    ensures Greedy(LinkedInNoParenAt, LinkedInNoParenAccepts)
  {
    forall s: string, i: nat | LinkedInNoParenAt(s, i).Some?
      ensures i <= LinkedInNoParenAt(s, i).value <= |s|
      ensures LinkedInNoParenAccepts(s, i, LinkedInNoParenAt(s, i).value)
    {
      ProfileSound(s, i, "linkedin.com/", IsNonSpaceOrParen);
    }
    forall s: string, i: nat, j: nat | i <= j <= |s| && LinkedInNoParenAccepts(s, i, j)
      ensures LinkedInNoParenAt(s, i).Some? && j <= LinkedInNoParenAt(s, i).value
    {
      ProfileComplete(s, i, j, "linkedin.com/", IsNonSpaceOrParen);
    }
  }

  // ---------------------------------------------------------------------------
  // https://www.linkedin.com/in/[a-zA-Z0-9-]+

  const LinkedInProfilePrefix := "https://www.linkedin.com/in/"

  function LinkedInProfileAt(s: string, i: nat): Option<nat> {
    if LiteralAt(s, i, LinkedInProfilePrefix) then RunAfter(s, i + |LinkedInProfilePrefix|, IsSlugChar)
    else None
  }

  /** `s[i..j]` is the profile prefix and at least one letter, digit or dash. */
  predicate LinkedInProfileAccepts(s: string, i: nat, j: nat) {
    && LiteralAt(s, i, LinkedInProfilePrefix)
    && i + |LinkedInProfilePrefix| < j <= |s| && AllIn(s, i + |LinkedInProfilePrefix|, j, IsSlugChar)
  }

  lemma LinkedInProfileGreedy()
    ensures Greedy(LinkedInProfileAt, LinkedInProfileAccepts)
  {
  }

  // ---------------------------------------------------------------------------
  // https?://[^\s]+\.(dev|me|com|io)

  const TopLevelDomains: seq<string> := ["dev", "me", "com", "io"]

  /** The first of `lits`, from index `n` on, that stands at `x`: an alternation of
      literals tried in order. */
  function FirstLiteralAt(s: string, x: nat, lits: seq<string>, n: nat): (r: Option<nat>)
    ensures r.Some? ==> n <= r.value < |lits| && LiteralAt(s, x, lits[r.value])
    ensures r.Some? ==> forall m :: n <= m < r.value ==> !LiteralAt(s, x, lits[m])
    ensures r.None? ==> forall m :: n <= m < |lits| ==> !LiteralAt(s, x, lits[m])
    decreases |lits| - n
  {
    if n >= |lits| then None
    else if LiteralAt(s, x, lits[n]) then Some(n)
    else FirstLiteralAt(s, x, lits, n + 1)
  }

  /** A dot at `k` followed by one of the domains. */
  predicate DomainDotAt(s: string, k: nat) {
    k < |s| && s[k] == '.' && FirstLiteralAt(s, k + 1, TopLevelDomains, 0).Some?
  }

  /** The greedy `[^\s]+` gives characters back until a dot and a domain follow it: the
      largest such dot in `[lo, hi)`. */
  function LastDomainDot(s: string, lo: nat, hi: nat): (r: Option<nat>)
    ensures r.Some? ==> lo <= r.value < hi && DomainDotAt(s, r.value)
    ensures r.Some? ==> forall k :: r.value < k < hi ==> !DomainDotAt(s, k)
    ensures r.None? ==> forall k :: lo <= k < hi ==> !DomainDotAt(s, k)
    decreases hi
  {
    if hi <= lo then None
    else if DomainDotAt(s, hi - 1) then Some(hi - 1)
    else LastDomainDot(s, lo, hi - 1)
  }

  /** What follows the scheme: the end of `[^\s]+\.(dev|me|com|io)` from `p`. */
  function PortfolioTailEnd(s: string, p: nat): (r: Option<nat>)
    requires p <= |s|
  {
    match LastDomainDot(s, p + 1, RunEnd(s, p, IsNonSpace))
    case None => None
    case Some(k) => Some(k + 1 + |TopLevelDomains[FirstLiteralAt(s, k + 1, TopLevelDomains, 0).value]|)
  }

  function PortfolioAt(s: string, i: nat): Option<nat> {
    SchemeBounded(s, i);
    match SchemeEnd(s, i)
    case None => None
    case Some(p) => PortfolioTailEnd(s, p)
  }

  /** `s[p..j]` is non-space characters up to the dot at `k`, then domain `n`. */
  predicate PortfolioTail(s: string, p: nat, k: nat, n: nat, j: nat) {
    && p < k < |s| && AllIn(s, p, k, IsNonSpace) && s[k] == '.'
    && n < |TopLevelDomains| && LiteralAt(s, k + 1, TopLevelDomains[n]) && j == k + 1 + |TopLevelDomains[n]|
  }

  /** `s[i..j]` is a scheme, at least one non-space character, a dot and one of `dev`,
      `me`, `com`, `io`. */
  predicate PortfolioAccepts(s: string, i: nat, j: nat) {
    exists p: nat, k: nat, n: nat | p < k < j && n < |TopLevelDomains| :: SchemeAt(s, i, p) && PortfolioTail(s, p, k, n, j)
  }

  lemma PortfolioTailSound(s: string, p: nat)
    requires p <= |s| && PortfolioTailEnd(s, p).Some?
    ensures var j := PortfolioTailEnd(s, p).value;
      j <= |s| && exists k: nat, n: nat | k < j && n < |TopLevelDomains| :: PortfolioTail(s, p, k, n, j)
  {
    var r := RunEnd(s, p, IsNonSpace);
    var k := LastDomainDot(s, p + 1, r).value;
    var n := FirstLiteralAt(s, k + 1, TopLevelDomains, 0).value;
    assert PortfolioTail(s, p, k, n, PortfolioTailEnd(s, p).value);
  }

  /** No domain name ends inside another: a letter of one cannot be the dot of the other. */
  lemma DomainDotsApart(s: string, k: nat, k': nat, n: nat)
    requires k < k' < |s| && s[k'] == '.' && n < |TopLevelDomains| && LiteralAt(s, k + 1, TopLevelDomains[n])
    ensures k + 1 + |TopLevelDomains[n]| <= k'
  {
  }

  lemma PortfolioTailComplete(s: string, p: nat, k: nat, n: nat, j: nat)
    requires p <= |s| && PortfolioTail(s, p, k, n, j)
    ensures PortfolioTailEnd(s, p).Some? && j <= PortfolioTailEnd(s, p).value
  {
    var r := RunEnd(s, p, IsNonSpace);
    assert k < r by {
      assert IsNonSpace(s[k]);
    }
    assert DomainDotAt(s, k);
    var k' := LastDomainDot(s, p + 1, r).value;
    if k' > k {
      DomainDotsApart(s, k, k', n);
    } else {
      DomainsExclusive(s, k + 1, n, FirstLiteralAt(s, k + 1, TopLevelDomains, 0).value);
    }
  }

  /** At most one of the domains stands at any index: their first letters differ. */
  lemma DomainsExclusive(s: string, x: nat, n: nat, m: nat)
    requires n < |TopLevelDomains| && m < |TopLevelDomains|
    requires LiteralAt(s, x, TopLevelDomains[n]) && LiteralAt(s, x, TopLevelDomains[m])
    ensures n == m
  {
    assert s[x] == TopLevelDomains[n][0] && s[x] == TopLevelDomains[m][0];
  }

  lemma PortfolioSound(s: string, i: nat)
    requires PortfolioAt(s, i).Some?
    ensures i <= PortfolioAt(s, i).value <= |s| && PortfolioAccepts(s, i, PortfolioAt(s, i).value)
  {
    var p := SchemeEnd(s, i).value;
    SchemeEndAgrees(s, i, p);
    PortfolioTailSound(s, p);
  }

  lemma PortfolioComplete(s: string, i: nat, j: nat)
    requires PortfolioAccepts(s, i, j)
    ensures PortfolioAt(s, i).Some? && j <= PortfolioAt(s, i).value
  {
    var p: nat, k: nat, n: nat :| p < k < j && n < |TopLevelDomains| && SchemeAt(s, i, p) && PortfolioTail(s, p, k, n, j);
    SchemeEndAgrees(s, i, p);
    PortfolioTailComplete(s, p, k, n, j);
  }

  lemma PortfolioGreedy()
    ensures Greedy(PortfolioAt, PortfolioAccepts)
  {
    forall s: string, i: nat | PortfolioAt(s, i).Some?
      ensures i <= PortfolioAt(s, i).value <= |s| && PortfolioAccepts(s, i, PortfolioAt(s, i).value)
    {
      PortfolioSound(s, i);
    }
    forall s: string, i: nat, j: nat | i <= j <= |s| && PortfolioAccepts(s, i, j)
      ensures PortfolioAt(s, i).Some? && j <= PortfolioAt(s, i).value
    {
      PortfolioComplete(s, i, j);
    }
  }
}
