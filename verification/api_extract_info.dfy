/**
 * `api/lib/extractInfo.ts`: a profile read off plain text — the first address, French
 * phone number, LinkedIn and GitHub addresses (empty strings when missing), the other
 * web addresses without repeats, the first two words of the first line as names, and
 * the first 400 characters as a summary.
 */
module ApiExtractInfo {
  import opened Common
  import opened Strings
  import opened Matching
  import opened Phones
  import opened Urls
  import opened Emails

  datatype Profile = Profile(
    nom: string, prenom: string, email: string, telephone: string, adresse: string,
    linkedin: string, github: string, autresLiens: seq<string>,
    experiences: seq<string>, formations: seq<string>, langues: seq<string>, certifications: seq<string>,
    resume: string, objectif: string)

  // ---------------------------------------------------------------------------
  // links

  /** The address does not point at LinkedIn or GitHub. */
  predicate IsOtherLink(link: string) {
    !Contains(link, "linkedin.com") && !Contains(link, "github.com")
  }

  /** Every `https?:\/\/[^\s]+` match, in text order. */
  function AllLinks(text: string): seq<string> {
    UrlGreedy();
    AllMatches(text, UrlAt)
  }

  /** `Array.from(new Set(text.match(/https?:\/\/[^\s]+/g) || [])).filter(...)`. */
  function OtherLinks(text: string): (r: seq<string>)
    ensures NoDuplicates(r)
    ensures forall link :: link in r <==> link in AllLinks(text) && IsOtherLink(link)
    ensures IsSubsequence(r, Dedup(AllLinks(text)))
  {
    Filter(Dedup(AllLinks(text)), IsOtherLink)
  }

  /** The other links keep the order of their first occurrence in the text. */
  lemma OtherLinksInFirstOccurrenceOrder(text: string)
    ensures var r := OtherLinks(text);
      forall a, b :: 0 <= a < b < |r| ==> IndexOf(AllLinks(text), r[a]) < IndexOf(AllLinks(text), r[b])
  {
    var all := AllLinks(text);
    var d := Dedup(all);
    var r := OtherLinks(text);
    forall a, b | 0 <= a < b < |r| ensures IndexOf(all, r[a]) < IndexOf(all, r[b]) {
      SubsequenceIndices(r, d, a, b);
      var a', b' :| 0 <= a' < b' < |d| && d[a'] == r[a] && d[b'] == r[b];
    }
  }

  /** Two elements of a subsequence stand in the same order in the longer list. */
  lemma {:induction false} SubsequenceIndices<T>(xs: seq<T>, ys: seq<T>, a: nat, b: nat)
    requires IsSubsequence(xs, ys) && a < b < |xs|
    ensures exists a', b' :: 0 <= a' < b' < |ys| && ys[a'] == xs[a] && ys[b'] == xs[b]
    decreases |ys|
  {
    if xs[0] == ys[0] && IsSubsequence(xs[1..], ys[1..]) {
      if a == 0 {
        SubsequenceMember(xs[1..], ys[1..], b - 1);
        var b' :| 0 <= b' < |ys[1..]| && ys[1..][b'] == xs[1..][b - 1];
        assert ys[b' + 1] == xs[b];
      } else {
        SubsequenceIndices(xs[1..], ys[1..], a - 1, b - 1);
        var a', b' :| 0 <= a' < b' < |ys[1..]| && ys[1..][a'] == xs[1..][a - 1] && ys[1..][b'] == xs[1..][b - 1];
        assert ys[a' + 1] == xs[a] && ys[b' + 1] == xs[b];
      }
    } else {
      SubsequenceIndices(xs, ys[1..], a, b);
      var a', b' :| 0 <= a' < b' < |ys[1..]| && ys[1..][a'] == xs[a] && ys[1..][b'] == xs[b];
      assert ys[a' + 1] == xs[a] && ys[b' + 1] == xs[b];
    }
  }

  lemma {:induction false} SubsequenceMember<T>(xs: seq<T>, ys: seq<T>, a: nat)
    requires IsSubsequence(xs, ys) && a < |xs|
    ensures exists a' :: 0 <= a' < |ys| && ys[a'] == xs[a]
    decreases |ys|
  {
    if xs[0] == ys[0] && IsSubsequence(xs[1..], ys[1..]) {
      if a > 0 {
        SubsequenceMember(xs[1..], ys[1..], a - 1);
        var a' :| 0 <= a' < |ys[1..]| && ys[1..][a'] == xs[1..][a - 1];
        assert ys[a' + 1] == xs[a];
      }
    } else {
      SubsequenceMember(xs, ys[1..], a);
      var a' :| 0 <= a' < |ys[1..]| && ys[1..][a'] == xs[a];
      assert ys[a' + 1] == xs[a];
    }
  }

  /** `text.match(re)?.[0] || ''`. */
  function FirstOrEmpty(text: string, m: Matcher): (r: string)
    requires Bounded(m)
    ensures r == "" <==> MatchText(text, m).None? || MatchText(text, m).value == ""
  {
    MatchText(text, m).GetOr("")
  }

  // ---------------------------------------------------------------------------
  // names

  /** `text.split('\n')[0].split(' ')`. */
  function FirstLineWords(text: string): seq<string> {
    Split(Lines(text)[0], ' ')
  }

  /** `nom`: the first word, `|| ''` turning nothing into nothing. */
  function NomOf(text: string): string {
    FirstLineWords(text)[0]
  }

  /** `prenom`: the second word, or the empty string when the line has one word. */
  function PrenomOf(text: string): string {
    var words := FirstLineWords(text);
    if |words| > 1 then words[1] else ""
  }

  /** `nom` is the first line up to its first space; `prenom` is what follows that space up
      to the next one, or empty when the first line has no space. */
  lemma {:induction false} NamesAreFirstTwoWords(text: string)
    ensures var line := BeforeFirst(text, '\n');
      && NomOf(text) == BeforeFirst(line, ' ')
      && (' ' !in line ==> NomOf(text) == line && PrenomOf(text) == "")
      && (' ' in line ==> |NomOf(text)| < |line| && PrenomOf(text) == BeforeFirst(line[|NomOf(text)| + 1..], ' '))
  {
    var line := Lines(text)[0];
    var words := Split(line, ' ');
    SplitWithoutSeparator(line, ' ');
    if |words| > 1 {
      var rest := Join(words[1..], ' ');
      assert words == [words[0]] + words[1..];
      assert line == words[0] + [' '] + rest;
      assert line[|words[0]| + 1..] == rest;
      SplitJoin(words[1..], ' ');
    }
  }

  // ---------------------------------------------------------------------------
  // the record

  /** `extractInfoFromText`. The skill list the source computes with a pattern whose only
      group is optional is not part of this model. */
  function ExtractInfoFromText(text: string): (r: Profile)
    ensures r.adresse == "" && r.objectif == ""
    ensures r.experiences == [] && r.formations == [] && r.langues == [] && r.certifications == []
    ensures |r.resume| == Min(400, |text|) && r.resume == text[..|r.resume|]
    ensures NoDuplicates(r.autresLiens)
    ensures forall link :: link in r.autresLiens ==> !Contains(link, "linkedin.com") && !Contains(link, "github.com")
  {
    Profile(NomOf(text), PrenomOf(text), EmailField(text), PhoneField(text), "",
      LinkedInField(text), GitHubField(text), OtherLinks(text),
      [], [], [], [], Prefix(text, 400), "")
  }

  function EmailField(text: string): string {
    EmailGreedy(AnyCaseEmail);
    FirstOrEmpty(text, EmailAt(AnyCaseEmail))
  }

  function PhoneField(text: string): string {
    FrenchPhoneGreedy();
    FirstOrEmpty(text, FrenchPhoneAt)
  }

  function LinkedInField(text: string): string {
    LinkedInGreedy();
    FirstOrEmpty(text, LinkedInAt)
  }

  function GitHubField(text: string): string {
    GitHubGreedy();
    FirstOrEmpty(text, GitHubAt)
  }

  /** The LinkedIn field is empty exactly when the text holds no LinkedIn address, and is
      otherwise the leftmost one, as long as it goes. */
  lemma LinkedInIsLeftmost(text: string)
    ensures var l := LinkedInField(text);
      && (l == "" <==> forall i, j :: 0 <= i <= j <= |text| ==> !LinkedInAccepts(text, i, j))
      && (l != "" ==> exists i: nat, j: nat :: IsLeftmostMatch(text, LinkedInAccepts, i, j) && l == text[i..j])
      && (forall i: nat, j: nat :: IsLeftmostMatch(text, LinkedInAccepts, i, j) ==> l == text[i..j])
  {
    LinkedInGreedy();
    FieldIsLeftmost(text, LinkedInAt, LinkedInAccepts);
  }

  /** The same for GitHub. */
  lemma GitHubIsLeftmost(text: string)
    ensures var g := GitHubField(text);
      && (g == "" <==> forall i, j :: 0 <= i <= j <= |text| ==> !GitHubAccepts(text, i, j))
      && (g != "" ==> exists i: nat, j: nat :: IsLeftmostMatch(text, GitHubAccepts, i, j) && g == text[i..j])
      && (forall i: nat, j: nat :: IsLeftmostMatch(text, GitHubAccepts, i, j) ==> g == text[i..j])
  {
    GitHubGreedy();
    FieldIsLeftmost(text, GitHubAt, GitHubAccepts);
  }

  /** The phone field is empty exactly when the text holds no French number: `+33` or `0`,
      a digit from 1 to 9, then four pairs of digits, each optionally after one white-space
      character. Otherwise it is the leftmost such number. */
  lemma TelephoneIsLeftmost(text: string)
    ensures var t := PhoneField(text);
      && (t == "" <==> forall i, j :: 0 <= i <= j <= |text| ==> !FrenchPhoneAccepts(text, i, j))
      && (t != "" ==> exists i: nat, j: nat :: IsLeftmostMatch(text, FrenchPhoneAccepts, i, j) && t == text[i..j])
      && (forall i: nat, j: nat :: IsLeftmostMatch(text, FrenchPhoneAccepts, i, j) ==> t == text[i..j])
  {
    FrenchPhoneGreedy();
    FieldIsLeftmost(text, FrenchPhoneAt, FrenchPhoneAccepts);
  }

  /** The address field is empty exactly when the text holds no address, and is otherwise
      the leftmost address, as long as it goes. */
  lemma EmailIsLeftmost(text: string)
    ensures var e := EmailField(text);
      && (e == "" <==> forall i, j :: 0 <= i <= j <= |text| ==> !EmailAccepts(AnyCaseEmail, text, i, j))
      && (e != "" ==> exists i: nat, j: nat :: IsLeftmostMatch(text, EmailAcceptor(AnyCaseEmail), i, j) && e == text[i..j])
      && (forall i: nat, j: nat :: IsLeftmostMatch(text, EmailAcceptor(AnyCaseEmail), i, j) ==> e == text[i..j])
  {
    EmailGreedy(AnyCaseEmail);
    var acc := EmailAcceptor(AnyCaseEmail);
    forall i: nat, j: nat | acc(text, i, j) ensures i < j {
      assert EmailAccepts(AnyCaseEmail, text, i, j);
    }
    FieldIsLeftmost(text, EmailAt(AnyCaseEmail), acc);
    assert forall i: nat, j: nat :: acc(text, i, j) == EmailAccepts(AnyCaseEmail, text, i, j);
  }

  /** `text[i..j]` is a non-empty match, none starts further left, and none at `i` is
      longer: the span a greedy pattern matches. */
  predicate IsLeftmostMatch(text: string, acc: Acceptor, i: nat, j: nat) {
    i < j && LeftmostLongest(text, acc, i, j)
  }

  /** A `?.[0] || ''` field of a greedy pattern that never matches the empty string: empty
      exactly when nothing is accepted, and otherwise the text of the one leftmost-longest
      span. */
  lemma FieldIsLeftmost(text: string, m: Matcher, acc: Acceptor)
    requires Greedy(m, acc)
    requires forall i: nat, j: nat :: acc(text, i, j) ==> i < j
    ensures var f := FirstOrEmpty(text, m);
      && (f == "" <==> forall i, j :: 0 <= i <= j <= |text| ==> !acc(text, i, j))
      && (f != "" ==> exists i: nat, j: nat :: IsLeftmostMatch(text, acc, i, j) && f == text[i..j])
      && (forall i: nat, j: nat :: IsLeftmostMatch(text, acc, i, j) ==> f == text[i..j])
  {
    MatchTextIsLeftmostLongest(text, m, acc);
    var mt := MatchText(text, m);
    if mt.Some? {
      var i: nat, j: nat :| LeftmostLongest(text, acc, i, j) && mt.value == text[i..j];
      assert IsLeftmostMatch(text, acc, i, j);
    }
  }
}
