/**
 * Telephone-number patterns. The French-number patterns and the loose digit-run
 * patterns are recognised by hand; the two North-American patterns, whose match depends
 * on a long backtracking order, are given only by their acceptance predicates.
 */
module Phones {
  import opened Common
  import opened Chars
  import opened Strings
  import opened Matching

  predicate IsNonZeroDigit(c: char) { '1' <= c <= '9' }

  /** Two digits at `p`. */
  predicate TwoDigitsAt(s: string, p: nat) {
    p + 2 <= |s| && IsDigit(s[p]) && IsDigit(s[p + 1])
  }

  /** `\s` in the French-number group `(\s?\d{2})`. */
  predicate IsGroupSpace(c: char) { IsJsSpace(c) }

  /** `[\s.-]` in the group `(?:[\s.-]?\d{2})`. */
  predicate IsGroupSeparator(c: char) { IsJsSpace(c) || c == '.' || c == '-' }

  ghost predicate NotDigits(sep: char -> bool) {
    forall c: char :: sep(c) ==> !IsDigit(c)
  }

  // ---------------------------------------------------------------------------
  // (sep?\d{2}){n}

  /** `s[p..j]` is `n` groups of two digits, each optionally preceded by one separator. */
  predicate GroupsAccept(s: string, p: nat, n: nat, j: nat, sep: char -> bool)
    decreases n
  {
    if n == 0 then p == j
    else
      || (TwoDigitsAt(s, p) && GroupsAccept(s, p + 2, n - 1, j, sep))
      || (p < |s| && sep(s[p]) && TwoDigitsAt(s, p + 1) && GroupsAccept(s, p + 3, n - 1, j, sep))
  }

  /** The end of the `n` groups the backtracking search reads from `p`: a separator is
      taken whenever one stands there, since a digit cannot. */
  function GroupsEnd(s: string, p: nat, n: nat, sep: char -> bool): (r: Option<nat>)
    ensures r.Some? ==> p <= r.value <= |s| || (n == 0 && r.value == p)
    decreases n
  {
    if n == 0 then Some(p)
    else if p < |s| && sep(s[p]) then
      (if TwoDigitsAt(s, p + 1) then GroupsEnd(s, p + 3, n - 1, sep) else None)
    else if TwoDigitsAt(s, p) then GroupsEnd(s, p + 2, n - 1, sep)
    else None
  }

  lemma {:induction false} GroupsEndAccepts(s: string, p: nat, n: nat, j: nat, sep: char -> bool)
    requires NotDigits(sep)
    ensures GroupsEnd(s, p, n, sep) == Some(j) <==> GroupsAccept(s, p, n, j, sep)
    decreases n
  {
    if n > 0 {
      GroupsEndAccepts(s, p + 2, n - 1, j, sep);
      GroupsEndAccepts(s, p + 3, n - 1, j, sep);
      if p < |s| && sep(s[p]) {
        assert !IsDigit(s[p]);
      }
    }
  }

  // ---------------------------------------------------------------------------
  // (\+33|0)[1-9](\s?\d{2}){4}

  function FrenchPhoneAt(s: string, i: nat): Option<nat> {
    if LiteralAt(s, i, "+33") then FrenchBodyEnd(s, i + 3, IsGroupSpace)
    else if LiteralAt(s, i, "0") then FrenchBodyEnd(s, i + 1, IsGroupSpace)
    else None
  }

  /** `[1-9]` then four groups. */
  function FrenchBodyEnd(s: string, p: nat, sep: char -> bool): Option<nat> {
    if p < |s| && IsNonZeroDigit(s[p]) then GroupsEnd(s, p + 1, 4, sep) else None
  }

  predicate FrenchBodyAccepts(s: string, p: nat, j: nat, sep: char -> bool) {
    p < |s| && IsNonZeroDigit(s[p]) && GroupsAccept(s, p + 1, 4, j, sep)
  }

  /** `s[i..j]` is `+33` or `0`, then a digit from 1 to 9, then four groups of two digits,
      each optionally preceded by one white-space character. */
  predicate FrenchPhoneAccepts(s: string, i: nat, j: nat) {
    || (LiteralAt(s, i, "+33") && FrenchBodyAccepts(s, i + 3, j, IsGroupSpace))
    || (LiteralAt(s, i, "0") && FrenchBodyAccepts(s, i + 1, j, IsGroupSpace))
  }

  lemma FrenchPhoneAgrees(s: string, i: nat, j: nat)
    ensures FrenchPhoneAt(s, i) == Some(j) <==> FrenchPhoneAccepts(s, i, j)
  {
    assert NotDigits(IsGroupSpace);
    GroupsEndAccepts(s, i + 4, 4, j, IsGroupSpace);
    GroupsEndAccepts(s, i + 2, 4, j, IsGroupSpace);
    if LiteralAt(s, i, "+33") {
      assert s[i] == "+33"[0];
      assert !LiteralAt(s, i, "0");
    }
  }

  lemma FrenchPhoneGreedy()
    ensures Greedy(FrenchPhoneAt, FrenchPhoneAccepts)
  {
    forall s: string, i: nat | FrenchPhoneAt(s, i).Some?
      ensures i <= FrenchPhoneAt(s, i).value <= |s| && FrenchPhoneAccepts(s, i, FrenchPhoneAt(s, i).value)
    {
      FrenchPhoneAgrees(s, i, FrenchPhoneAt(s, i).value);
    }
    forall s: string, i: nat, j: nat | i <= j <= |s| && FrenchPhoneAccepts(s, i, j)
      ensures FrenchPhoneAt(s, i) == Some(j)
    {
      FrenchPhoneAgrees(s, i, j);
    }
  }

  // ---------------------------------------------------------------------------
  // (?:\+?33|0)[1-9](?:[\s.-]?\d{2}){4}

  function FrenchPhoneLooseAt(s: string, i: nat): Option<nat> {
    if LiteralAt(s, i, "+33") then FrenchBodyEnd(s, i + 3, IsGroupSeparator)
    else if LiteralAt(s, i, "33") then FrenchBodyEnd(s, i + 2, IsGroupSeparator)
    else if LiteralAt(s, i, "0") then FrenchBodyEnd(s, i + 1, IsGroupSeparator)
    else None
  }

  /** `s[i..j]` is `+33`, `33` or `0`, then a digit from 1 to 9, then four groups of two
      digits, each optionally preceded by a white-space character, a dot or a dash. */
  predicate FrenchPhoneLooseAccepts(s: string, i: nat, j: nat) {
    || (LiteralAt(s, i, "+33") && FrenchBodyAccepts(s, i + 3, j, IsGroupSeparator))
    || (LiteralAt(s, i, "33") && FrenchBodyAccepts(s, i + 2, j, IsGroupSeparator))
    || (LiteralAt(s, i, "0") && FrenchBodyAccepts(s, i + 1, j, IsGroupSeparator))
  }

  lemma FrenchPhoneLooseAgrees(s: string, i: nat, j: nat)
    ensures FrenchPhoneLooseAt(s, i) == Some(j) <==> FrenchPhoneLooseAccepts(s, i, j)
  {
    assert NotDigits(IsGroupSeparator);
    GroupsEndAccepts(s, i + 4, 4, j, IsGroupSeparator);
    GroupsEndAccepts(s, i + 3, 4, j, IsGroupSeparator);
    GroupsEndAccepts(s, i + 2, 4, j, IsGroupSeparator);
    if LiteralAt(s, i, "+33") {
      assert s[i] == "+33"[0];
      assert !LiteralAt(s, i, "33") && !LiteralAt(s, i, "0");
    } else if LiteralAt(s, i, "33") {
      assert s[i] == "33"[0];
      assert !LiteralAt(s, i, "0");
    }
  }

  lemma FrenchPhoneLooseGreedy()
    ensures Greedy(FrenchPhoneLooseAt, FrenchPhoneLooseAccepts)
  {
    forall s: string, i: nat | FrenchPhoneLooseAt(s, i).Some?
      ensures i <= FrenchPhoneLooseAt(s, i).value <= |s|
      ensures FrenchPhoneLooseAccepts(s, i, FrenchPhoneLooseAt(s, i).value)
    {
      FrenchPhoneLooseAgrees(s, i, FrenchPhoneLooseAt(s, i).value);
    }
    forall s: string, i: nat, j: nat | i <= j <= |s| && FrenchPhoneLooseAccepts(s, i, j)
      ensures FrenchPhoneLooseAt(s, i) == Some(j)
    {
      FrenchPhoneLooseAgrees(s, i, j);
    }
  }

  // ---------------------------------------------------------------------------
  // \+?1?\d{10}

  function TenDigitsAt(s: string, i: nat): Option<nat> {
    var p := if i < |s| && s[i] == '+' then i + 1 else i;
    if p < |s| && s[p] == '1' && p + 11 <= |s| && AllIn(s, p + 1, p + 11, IsDigit) then Some(p + 11)
    else if p + 10 <= |s| && AllIn(s, p, p + 10, IsDigit) then Some(p + 10)
    else None
  }

  /** `s[i..j]` is an optional `+`, an optional `1`, then ten digits. */
  predicate TenDigitsAccepts(s: string, i: nat, j: nat) {
    exists p: nat | i <= p <= i + 2 && p + 10 == j && j <= |s| ::
      AllIn(s, p, j, IsDigit) && (s[i..p] == [] || s[i..p] == "+" || s[i..p] == "1" || s[i..p] == "+1")
  }

  /** Ten digits in a row somewhere in `s`. */
  predicate HasTenDigitRun(s: string) {
    exists k: nat, j: nat | k + 10 == j <= |s| :: AllIn(s, k, j, IsDigit)
  }

  lemma TenDigitsRecognises()
    ensures Recognises(TenDigitsAt, TenDigitsAccepts)
  {
    forall s: string, i: nat | TenDigitsAt(s, i).Some?
      ensures i <= TenDigitsAt(s, i).value <= |s| && TenDigitsAccepts(s, i, TenDigitsAt(s, i).value)
    {
      var p := if i < |s| && s[i] == '+' then i + 1 else i;
      if p < |s| && s[p] == '1' && p + 11 <= |s| && AllIn(s, p + 1, p + 11, IsDigit) {
        assert s[i..p + 1] == (if p == i then "1" else "+1");
      } else {
        assert s[i..p] == (if p == i then [] else "+");
      }
    }
    forall s: string, i: nat, j: nat | i <= j <= |s| && TenDigitsAccepts(s, i, j)
      ensures TenDigitsAt(s, i).Some?
    {
      var p: nat :| i <= p <= i + 2 && p + 10 == j && j <= |s| && AllIn(s, p, j, IsDigit)
        && (s[i..p] == [] || s[i..p] == "+" || s[i..p] == "1" || s[i..p] == "+1");
      if p == i + 1 {
        assert s[i..p][0] == s[i];
      } else if p == i + 2 {
        assert s[i..p][0] == s[i] && s[i..p][1] == s[i + 1];
      }
    }
  }

  /** The optional `+` and `1` change nothing about whether `\+?1?\d{10}` matches
      somewhere: it does exactly when ten digits stand in a row. */
  lemma TenDigitsExistence(s: string)
    ensures (exists i: nat, j: nat :: i <= j <= |s| && TenDigitsAccepts(s, i, j)) <==> HasTenDigitRun(s)
  {
    if HasTenDigitRun(s) {
      var k: nat, j: nat :| k + 10 == j <= |s| && AllIn(s, k, j, IsDigit);
      assert s[k..k] == [];
      assert TenDigitsAccepts(s, k, k + 10);
    }
    if exists i: nat, j: nat :: i <= j <= |s| && TenDigitsAccepts(s, i, j) {
      var i: nat, j: nat :| i <= j <= |s| && TenDigitsAccepts(s, i, j);
      var p: nat :| i <= p <= i + 2 && p + 10 == j && j <= |s| && AllIn(s, p, j, IsDigit)
        && (s[i..p] == [] || s[i..p] == "+" || s[i..p] == "1" || s[i..p] == "+1");
      assert AllIn(s, p, j, IsDigit);
    }
  }

  // ---------------------------------------------------------------------------
  // \+?\d[\d .-]{7,}\d   and   \+?\d[\d\s().-]{7,}

  /** Where the first digit must stand: after the optional `+`. */
  function DigitStart(s: string, i: nat): nat {
    if i < |s| && s[i] == '+' then i + 1 else i
  }

  predicate IsDottedDigit(c: char) { IsDigit(c) || c == ' ' || c == '.' || c == '-' }

  predicate IsPhoneRunChar(c: char) {
    IsDigit(c) || IsJsSpace(c) || c == '(' || c == ')' || c == '.' || c == '-'
  }

  /** The largest `j` in `[lo, hi]` with a digit just before it. */
  function LastDigitEnd(s: string, lo: nat, hi: nat): (r: Option<nat>)
    requires 1 <= lo && hi <= |s|
    ensures r.Some? ==> lo <= r.value <= hi && IsDigit(s[r.value - 1])
    ensures r.Some? ==> forall k :: r.value <= k < hi ==> !IsDigit(s[k])
    ensures r.None? ==> forall k :: lo - 1 <= k < hi ==> !IsDigit(s[k])
    decreases hi
  {
    if hi < lo then None
    else if IsDigit(s[hi - 1]) then Some(hi)
    else LastDigitEnd(s, lo, hi - 1)
  }

  /** `\+?\d[\d .-]{7,}\d`: the greedy middle part gives back characters until a digit ends
      the match. */
  function DottedPhoneAt(s: string, i: nat): Option<nat> {
    var p := DigitStart(s, i);
    if !(p < |s| && IsDigit(s[p])) then None
    else LastDigitEnd(s, p + 9, RunEnd(s, p + 1, IsDottedDigit))
  }

  /** `s[i..j]` is an optional `+`, a digit, at least seven digits, spaces, dots or dashes,
      and a final digit. */
  predicate DottedPhoneAccepts(s: string, i: nat, j: nat) {
    var p := DigitStart(s, i);
    && p < |s| && IsDigit(s[p])
    && p + 9 <= j <= |s| && AllIn(s, p + 1, j, IsDottedDigit) && IsDigit(s[j - 1])
  }

  lemma DottedPhoneGreedy()
    ensures Greedy(DottedPhoneAt, DottedPhoneAccepts)
  {
  }

  /** `\+?\d[\d\s().-]{7,}`: the greedy tail runs to the last phone character. */
  function PhoneRunAt(s: string, i: nat): Option<nat> {
    var p := DigitStart(s, i);
    if !(p < |s| && IsDigit(s[p])) then None
    else
      var r := RunEnd(s, p + 1, IsPhoneRunChar);
      if r >= p + 8 then Some(r) else None
  }

  /** `s[i..j]` is an optional `+`, a digit, then at least seven digits, white space,
      parentheses, dots or dashes. */
  predicate PhoneRunAccepts(s: string, i: nat, j: nat) {
    var p := DigitStart(s, i);
    p < |s| && IsDigit(s[p]) && p + 8 <= j <= |s| && AllIn(s, p + 1, j, IsPhoneRunChar)
  }

  lemma PhoneRunGreedy()
    ensures Greedy(PhoneRunAt, PhoneRunAccepts)
  {
  }

  // ---------------------------------------------------------------------------
  // (\+\d{1,2}\s?)?(\(?\d{3}\)?[\s.-]?)?\d{3}[\s.-]?\d{4}

  /** `\+\d{1,2}\s?` spans `s[i..a]`. */
  predicate CountryPrefix(s: string, i: nat, a: nat) {
    exists d: nat | 1 <= d <= 2 :: CountryPrefixWith(s, i, d, a)
  }

  /** ... with `d` digits. */
  predicate CountryPrefixWith(s: string, i: nat, d: nat, a: nat) {
    && i + 1 + d <= a <= |s| && s[i] == '+' && AllIn(s, i + 1, i + 1 + d, IsDigit)
    && (a == i + 1 + d || (a == i + 2 + d && IsJsSpace(s[i + 1 + d])))
  }

  /** `\(?\d{3}\)?[\s.-]?` spans `s[a..b]`. */
  predicate AreaCode(s: string, a: nat, b: nat) {
    exists o: nat, c: nat, e: nat | o <= 1 && c <= 1 && e <= 1 :: AreaCodeWith(s, a, o, c, e, b)
  }

  /** ... with `o` opening and `c` closing parentheses and `e` separators. */
  predicate AreaCodeWith(s: string, a: nat, o: nat, c: nat, e: nat, b: nat) {
    && a + o + 3 + c + e == b && b <= |s|
    && (o == 0 || s[a] == '(') && AllIn(s, a + o, a + o + 3, IsDigit)
    && (c == 0 || s[a + o + 3] == ')') && (e == 0 || IsGroupSeparator(s[a + o + 3 + c]))
  }

  /** `\d{3}[\s.-]?\d{4}` spans `s[b..j]`. */
  predicate SubscriberNumber(s: string, b: nat, j: nat) {
    && b + 7 <= j <= b + 8 && j <= |s| && AllIn(s, b, b + 3, IsDigit) && AllIn(s, j - 4, j, IsDigit)
    && (j == b + 8 ==> IsGroupSeparator(s[b + 3]))
  }

  /** `s[i..j]` matches the phone pattern of the résumé parser class. */
  predicate ResumePhoneAccepts(s: string, i: nat, j: nat) {
    exists a: nat, b: nat | i <= a <= b <= j ::
      (a == i || CountryPrefix(s, i, a)) && (b == a || AreaCode(s, a, b)) && SubscriberNumber(s, b, j)
  }

  /** Whatever the backtracking search picks, a match of this pattern ends in four digits. */
  lemma ResumePhoneEndsInFourDigits(s: string, i: nat, j: nat)
    requires ResumePhoneAccepts(s, i, j)
    ensures i + 7 <= j <= |s| && AllIn(s, j - 4, j, IsDigit)
  {
    var a: nat, b: nat :| i <= a <= b <= j
      && (a == i || CountryPrefix(s, i, a)) && (b == a || AreaCode(s, a, b)) && SubscriberNumber(s, b, j);
  }

  // ---------------------------------------------------------------------------
  // (?:\+?\d{1,3}[ .-]?)?(?:\(?\d{2,4}\)?[ .-]?)?\d{3}[ .-]?\d{3,4}

  predicate IsSpaceDotDash(c: char) { c == ' ' || c == '.' || c == '-' }

  /** `\+?\d{1,3}[ .-]?` spans `s[i..a]`. */
  predicate DialPrefix(s: string, i: nat, a: nat) {
    exists o: nat, d: nat, e: nat | o <= 1 && 1 <= d <= 3 && e <= 1 :: DialPrefixWith(s, i, o, d, e, a)
  }

  /** ... with `o` plus signs, `d` digits and `e` separators. */
  predicate DialPrefixWith(s: string, i: nat, o: nat, d: nat, e: nat, a: nat) {
    && i + o + d + e == a && a <= |s|
    && (o == 0 || s[i] == '+') && AllIn(s, i + o, i + o + d, IsDigit)
    && (e == 0 || IsSpaceDotDash(s[i + o + d]))
  }

  /** `\(?\d{2,4}\)?[ .-]?` spans `s[a..b]`. */
  predicate TrunkCode(s: string, a: nat, b: nat) {
    exists o: nat, d: nat, c: nat, e: nat | o <= 1 && 2 <= d <= 4 && c <= 1 && e <= 1 ::
      TrunkCodeWith(s, a, o, d, c, e, b)
  }

  /** ... with `o` opening and `c` closing parentheses, `d` digits and `e` separators. */
  predicate TrunkCodeWith(s: string, a: nat, o: nat, d: nat, c: nat, e: nat, b: nat) {
    && a + o + d + c + e == b && b <= |s|
    && (o == 0 || s[a] == '(') && AllIn(s, a + o, a + o + d, IsDigit)
    && (c == 0 || s[a + o + d] == ')') && (e == 0 || IsSpaceDotDash(s[a + o + d + c]))
  }

  /** `\d{3}[ .-]?\d{3,4}` spans `s[b..j]`. */
  predicate LineNumber(s: string, b: nat, j: nat) {
    exists e: nat, d: nat | e <= 1 && 3 <= d <= 4 :: LineNumberWith(s, b, e, d, j)
  }

  /** ... with `e` separators and `d` final digits. */
  predicate LineNumberWith(s: string, b: nat, e: nat, d: nat, j: nat) {
    && b + 3 + e + d == j && j <= |s| && AllIn(s, b, b + 3, IsDigit)
    && (e == 0 || IsSpaceDotDash(s[b + 3])) && AllIn(s, b + 3 + e, j, IsDigit)
  }

  /** `s[i..j]` matches the phone pattern of `extractPhone`. */
  predicate DialPhoneAccepts(s: string, i: nat, j: nat) {
    exists a: nat, b: nat | i <= a <= b <= j ::
      (a == i || DialPrefix(s, i, a)) && (b == a || TrunkCode(s, a, b)) && LineNumber(s, b, j)
  }

  /** A match of this pattern ends in at least three digits. */
  lemma DialPhoneEndsInThreeDigits(s: string, i: nat, j: nat)
    requires DialPhoneAccepts(s, i, j)
    ensures i + 6 <= j <= |s| && AllIn(s, j - 3, j, IsDigit)
  {
    var a: nat, b: nat :| i <= a <= b <= j
      && (a == i || DialPrefix(s, i, a)) && (b == a || TrunkCode(s, a, b)) && LineNumber(s, b, j);
    assert LineNumber(s, b, j);
    var e: nat, d: nat :| e <= 1 && 3 <= d <= 4 && LineNumberWith(s, b, e, d, j);
  }
}
