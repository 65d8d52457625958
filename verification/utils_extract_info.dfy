/**
 * `utils/extractInfo.js`: the name as the first non-blank line, the first address and
 * phone number, and skills found by plain substring search. Of the three definitions of
 * `extractInfo` in the file only the last assignment to `module.exports.extractInfo` is
 * reachable; it reports no phone number.
 */
module UtilsExtractInfo {
  import opened Common
  import opened Chars
  import opened Strings
  import opened Matching
  import opened Phones
  import opened Emails

  // ---------------------------------------------------------------------------
  // name

  predicate IsNotBlank(line: string) { Trim(line) != [] }

  /** `text.split('\n').map(l => l.trim()).filter(Boolean)[0]`. */
  function ExtractName(text: string): (r: Option<string>)
    ensures r.Some? ==> r.value != [] && Trim(r.value) == r.value
  {
    var lines := Lines(text);
    var kept := Filter(Map(lines, Trim), IsNonEmpty);
    if kept == [] then None
    else
      FilterMapMembers(lines, Trim, IsNonEmpty);
      assert kept[0] in kept;
      var line :| line in lines && Trim(line) == kept[0];
      TrimIdempotent(line);
      Some(kept[0])
  }

  /** The name is the first line that is not blank, trimmed; there is none exactly when
      every line is blank. */
  lemma ExtractNameIsFirstNonBlank(text: string)
    ensures ExtractName(text) == match Find(Lines(text), IsNotBlank) case None => None case Some(line) => Some(Trim(line))
  {
    FirstOfFilterMap(Lines(text), Trim, IsNonEmpty, IsNotBlank);
  }

  /** Filtering the images and taking the first is finding the first element whose image
      passes, and taking its image. */
  lemma {:induction false} FirstOfFilterMap<T, U(!new)>(xs: seq<T>, f: T -> U, p: U -> bool, q: T -> bool)
    requires forall x :: q(x) == p(f(x))
    ensures var kept := Filter(Map(xs, f), p);
      (if kept == [] then None else Some(kept[0])) == match Find(xs, q) case None => None case Some(x) => Some(f(x))
    decreases |xs|
  {
    if xs != [] {
      assert Map(xs, f)[1..] == Map(xs[1..], f);
      assert Map(xs, f)[0] == f(xs[0]);
      FirstOfFilterMap(xs[1..], f, p, q);
      FindStep(xs, q);
    }
  }

  lemma FindStep<T>(xs: seq<T>, q: T -> bool)
    requires xs != []
    ensures Find(xs, q) == if q(xs[0]) then Some(xs[0]) else Find(xs[1..], q)
  {
    if !q(xs[0]) {
      if Find(xs[1..], q).Some? {
        var k :| 0 <= k < |xs[1..]| && xs[1..][k] == Find(xs[1..], q).value && forall j :: 0 <= j < k ==> !q(xs[1..][j]);
        assert xs[k + 1] == xs[1..][k];
      }
    }
  }

  // ---------------------------------------------------------------------------
  // skills

  const SkillsDb: seq<string> := ["javascript", "react", "node", "python", "excel", "sql", "css", "html"]

  /** `skillsDB.filter(skill => text.toLowerCase().includes(skill))`. */
  function ExtractSkills(text: string): (r: seq<string>)
    ensures forall skill :: skill in r <==> skill in SkillsDb && Contains(LowerString(text), skill)
    ensures IsSubsequence(r, SkillsDb)
    ensures NoDuplicates(r)
  {
    assert NoDuplicates(SkillsDb);
    var lower := LowerString(text);
    Filter(SkillsDb, (skill: string) => Contains(lower, skill))
  }

  /** Substring search finds skills inside longer words: `NodeJS` yields `node`. */
  lemma NodeJsYieldsNode()
    ensures "node" in ExtractSkills("NodeJS")
  {
    assert LowerString("NodeJS") == "nodejs";
    assert OccursAt("nodejs", "node", 0);
    assert "node" in SkillsDb;
  }

  // ---------------------------------------------------------------------------
  // address and phone

  /** `text.match(/[a-zA-Z0-9._-]+@[a-zA-Z0-9.-]+\.[a-zA-Z]{2,}/)`, first match or null. */
  function ExtractEmail(text: string): Option<string> {
    FirstEmail(PlainLocalEmail, text)
  }

  /** An address found has no `%` and no `+` before the `@`. */
  lemma ExtractEmailLocalPart(text: string)
    ensures var e := ExtractEmail(text);
      e.Some? ==> exists a :: 0 < a < |e.value| && e.value[a] == '@' && PlainBefore(e.value, a)
  {
    FirstEmailIsLeftmost(PlainLocalEmail, text);
    var e := ExtractEmail(text);
    if e.Some? {
      var i: nat, j: nat :| i <= j <= |text| && EmailAccepts(PlainLocalEmail, text, i, j) && e.value == text[i..j];
      PlainLocalPart(text, i, j);
    }
  }

  /** No `%` and no `+` stands before index `a`. */
  predicate PlainBefore(s: string, a: nat)
    requires a <= |s|
  {
    forall x :: 0 <= x < a ==> s[x] != '%' && s[x] != '+'
  }

  lemma PlainLocalPart(text: string, i: nat, j: nat)
    requires i <= j <= |text| && EmailAccepts(PlainLocalEmail, text, i, j)
    ensures var e := text[i..j]; exists a :: 0 < a < |e| && e[a] == '@' && PlainBefore(e, a)
  {
    var e := text[i..j];
    var a: nat, k: nat :| i < a < k < j && EmailShape(PlainLocalEmail, text, i, a, k, j);
    assert e[a - i] == text[a];
    forall x | 0 <= x < a - i ensures e[x] != '%' && e[x] != '+' {
      assert e[x] == text[i + x];
      assert IsLocalChar(WithoutPercentPlus, text[i + x]);
    }
  }

  /** `extractPhone`: the leftmost match of the pattern
      `(?:\+?\d{1,3}[ .-]?)?(?:\(?\d{2,4}\)?[ .-]?)?\d{3}[ .-]?\d{3,4}`, whose backtracking
      order is left to the matcher `phoneAt`. */
  function ExtractPhone(text: string, phoneAt: Matcher): (r: Option<string>)
    requires Recognises(phoneAt, DialPhoneAccepts)
    ensures r.Some? ==> |r.value| >= 6 && AllIn(r.value, |r.value| - 3, |r.value|, IsDigit)
    ensures r.None? <==> forall i, j :: 0 <= i <= j <= |text| ==> !DialPhoneAccepts(text, i, j)
    ensures r.Some? ==> exists i: nat, j: nat :: LeftmostAccepted(text, DialPhoneAccepts, i, j) && r.value == text[i..j]
  {
    DialMatchEndsInDigits(text, phoneAt);
    MatchText(text, phoneAt)
  }

  /** What any matcher that recognises the pattern finds: a number of at least six
      characters ending in three digits, starting where the leftmost number starts. */
  lemma DialMatchEndsInDigits(text: string, phoneAt: Matcher)
    requires Recognises(phoneAt, DialPhoneAccepts)
    ensures var r := MatchText(text, phoneAt);
      && (r.Some? ==> |r.value| >= 6 && AllIn(r.value, |r.value| - 3, |r.value|, IsDigit))
      && (r.None? <==> forall i, j :: 0 <= i <= j <= |text| ==> !DialPhoneAccepts(text, i, j))
      && (r.Some? ==> exists i: nat, j: nat :: LeftmostAccepted(text, DialPhoneAccepts, i, j) && r.value == text[i..j])
  {
    MatchTextAccepted(text, phoneAt, DialPhoneAccepts);
    MatchTextIsLeftmost(text, phoneAt, DialPhoneAccepts);
    var r := MatchText(text, phoneAt);
    if r.Some? {
      var i: nat, j: nat :| i <= j <= |text| && DialPhoneAccepts(text, i, j) && r.value == text[i..j];
      DialPhoneEndsInThreeDigits(text, i, j);
      assert forall x :: |r.value| - 3 <= x < |r.value| ==> r.value[x] == text[i + x];
    }
  }

  // ---------------------------------------------------------------------------
  // the exported function

  /** The record of the reachable `extractInfo`; the timestamp is not modelled. */
  datatype Info = Info(name: Option<string>, email: Option<string>, skills: seq<string>, rawText: string)

  function ExtractInfo(text: string): (r: Info)
    ensures r.rawText == text
    ensures r.name.Some? ==> r.name.value != [] && Trim(r.name.value) == r.name.value
    ensures forall skill :: skill in r.skills ==> skill in SkillsDb
  {
    Info(ExtractName(text), ExtractEmail(text), ExtractSkills(text), text)
  }
}
