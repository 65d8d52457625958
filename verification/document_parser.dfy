/**
 * `services/documentParser.ts`: a candidate record assembled from the decoded text of an
 * uploaded file — a name split from the first pair of capitalised words, skills from a
 * keyword list, role lines as experiences, the first address and phone number.
 */
module DocumentParser {
  import opened Common
  import opened Chars
  import opened Strings
  import opened Matching
  import opened Phones
  import opened Names
  import opened Emails
  import opened Formats

  // ---------------------------------------------------------------------------
  // name

  /** `m[k] || null`. */
  function NonEmptyOrNull(s: string): (r: Option<string>)
    ensures r.None? <==> s == []
    ensures r.Some? ==> r.value == s
  {
    if s == [] then None else Some(s)
  }

  /** `splitName`: the leftmost `\b([A-Z][a-z]+)\s+([A-Z][a-z-]+)\b`, first word as
      `prenom`, second as `nom`. */
  function SplitName(fulltext: string): NomPrenom {
    CapitalPairGreedy();
    match FirstWordPair(fulltext, CapitalPairAt, IsAsciiLower)
    case None => NomPrenom(None, None)
    case Some(m) => NomPrenom(NonEmptyOrNull(m.second), NonEmptyOrNull(m.first))
  }

  /** No capitalised pair starts before `i`. */
  predicate NoPairBefore(s: string, i: nat) {
    forall i', j' :: 0 <= i' < i && i' <= j' <= |s| ==> !CapitalPairAccepts(s, i', j')
  }

  /** `prenom` and `nom` are the words of a capitalised pair at `i`, the leftmost one, and
      no longer pair starts at `i`. */
  predicate IsLeftmostPair(s: string, r: NomPrenom, i: nat, a: nat, b: nat, j: nat) {
    && WordPairShape(s, i, a, b, j, IsAsciiLower, IsLowerOrHyphen, true)
    && r.prenom == Some(s[i..a]) && r.nom == Some(s[b..j])
    && NoPairBefore(s, i)
    && LongestAt(s, CapitalPairAccepts, i, j)
  }

  /** Both names are missing exactly when the text holds no capitalised pair; otherwise
      `prenom` and `nom` are the two words of the leftmost-longest pair, in that order, and
      the words of any such pair are the names found. */
  lemma SplitNameIsLeftmostPair(fulltext: string)
    ensures var r := SplitName(fulltext);
      && (r.nom.None? <==> r.prenom.None?)
      && (r.nom.None? <==> NoPairBefore(fulltext, |fulltext| + 1))
      && (r.nom.Some? ==> exists i: nat, a: nat, b: nat, j: nat :: IsLeftmostPair(fulltext, r, i, a, b, j))
      && (forall i: nat, a: nat, b: nat, j: nat ::
            WordPairShape(fulltext, i, a, b, j, IsAsciiLower, IsLowerOrHyphen, true) && LeftmostLongest(fulltext, CapitalPairAccepts, i, j) ==>
              r == NomPrenom(Some(fulltext[b..j]), Some(fulltext[i..a])))
  {
    CapitalPairGreedy();
    assert NoSpace(IsAsciiLower);
    FirstWordPairIsLeftmost(fulltext, CapitalPairAt, CapitalPairAccepts, IsAsciiLower, IsLowerOrHyphen, true);
    var fm := FirstWordPair(fulltext, CapitalPairAt, IsAsciiLower);
    var r := SplitName(fulltext);
    if fm.Some? {
      var i: nat, a: nat, b: nat, j: nat :|
        && WordPairShape(fulltext, i, a, b, j, IsAsciiLower, IsLowerOrHyphen, true)
        && fm.value == WordPair(fulltext[i..a], fulltext[b..j])
        && LeftmostLongest(fulltext, CapitalPairAccepts, i, j);
      assert |fm.value.first| >= 2 && |fm.value.second| >= 2;
      assert r == NomPrenom(Some(fulltext[b..j]), Some(fulltext[i..a]));
      assert IsLeftmostPair(fulltext, r, i, a, b, j);
    }
  }

  // ---------------------------------------------------------------------------
  // skills

  const SkillKeywords: seq<string> := [
    "JavaScript", "TypeScript", "React", "Node.js", "Python", "SQL",
    "Machine Learning", "AWS", "Docker", "Git", "Linux", "Tensorflow",
    "Agile", "Scrum", "UI/UX", "Marketing", "Sales"
  ]

  /** `extractCompetences`: the keywords whose lower-cased form occurs in the lower-cased
      text, in keyword order, each once. */
  function ExtractCompetences(text: string): (r: seq<string>)
    ensures forall skill :: skill in r <==> skill in SkillKeywords && Contains(LowerString(text), LowerString(skill))
    ensures IsSubsequence(r, SkillKeywords)
    ensures NoDuplicates(r)
  {
    SkillKeywordsDistinct();
    var lower := LowerString(text);
    Filter(SkillKeywords, (skill: string) => Contains(lower, LowerString(skill)))
  }

  /** No keyword is listed twice. */
  lemma SkillKeywordsDistinct()
    ensures NoDuplicates(SkillKeywords)
  {
  }

  // ---------------------------------------------------------------------------
  // experiences

  datatype Experience = Experience(poste: string, entreprise: string, debut: string, fin: string)

  /** The alternatives of `/stage|développeur|engineer|ingénieur|chef de projet|lead|manager/i`. */
  const RoleWords: seq<string> :=
    ["stage", "développeur", "engineer", "ingénieur", "chef de projet", "lead", "manager"]

  /** The role pattern finds a match in the line: one of the words occurs, ignoring case. */
  predicate MentionsRole(line: string) {
    MentionsRoleFrom(line, 0)
  }

  predicate MentionsRoleFrom(line: string, n: nat)
    decreases |RoleWords| - n
  {
    n < |RoleWords| && (ContainsIgnoringCase(line, RoleWords[n]) || MentionsRoleFrom(line, n + 1))
  }

  lemma {:induction false} MentionsRoleFromMeans(line: string, n: nat)
    ensures MentionsRoleFrom(line, n) <==> exists m :: n <= m < |RoleWords| && ContainsIgnoringCase(line, RoleWords[m])
    decreases |RoleWords| - n
  {
    if n < |RoleWords| {
      MentionsRoleFromMeans(line, n + 1);
    }
  }

  /** A line matches the role pattern exactly when one of the role words occurs in it,
      ignoring case. */
  lemma MentionsRoleMeans(line: string)
    ensures MentionsRole(line) <==> exists w :: w in RoleWords && ContainsIgnoringCase(line, w)
  {
    MentionsRoleFromMeans(line, 0);
  }

  function ExperienceOfLine(line: string): Experience {
    Experience(Trim(line), "", "", "")
  }

  /** The first 400 lines, split on `\r?\n`. */
  function ScannedLines(text: string): seq<string> {
    Prefix(LinesCrLf(text), 400)
  }

  /** `extractExperiences`: the role lines among the first 400, trimmed, at most eight. */
  function ExtractExperiences(text: string): (r: seq<Experience>)
    ensures |r| <= 8
    ensures forall e :: e in r ==> e.entreprise == "" && e.debut == "" && e.fin == ""
    ensures forall e :: e in r ==> exists line :: line in ScannedLines(text) && MentionsRole(line) && e.poste == Trim(line)
  {
    var kept := Filter(ScannedLines(text), MentionsRole);
    var r := Prefix(Map(kept, ExperienceOfLine), 8);
    FirstExperiencesOf(ScannedLines(text), kept, r);
    r
  }

  /** Every entry among the first eight of the kept lines comes from a scanned role
      line. */
  lemma FirstExperiencesOf(lines: seq<string>, kept: seq<string>, r: seq<Experience>)
    requires forall line :: line in kept ==> line in lines && MentionsRole(line)
    requires |r| <= |kept| && forall k :: 0 <= k < |r| ==> r[k] == ExperienceOfLine(kept[k])
    ensures forall e :: e in r ==> e.entreprise == "" && e.debut == "" && e.fin == ""
    ensures forall e :: e in r ==> exists line :: line in lines && MentionsRole(line) && e.poste == Trim(line)
  {
    forall e | e in r ensures exists line :: line in lines && MentionsRole(line) && e.poste == Trim(line) {
      var k :| 0 <= k < |r| && r[k] == e;
      assert kept[k] in kept;
    }
  }

  /** The entries follow line order. */
  lemma ExtractExperiencesInOrder(text: string)
    ensures IsSubsequence(ExtractExperiences(text), Map(ScannedLines(text), ExperienceOfLine))
  {
    var kept := Filter(ScannedLines(text), MentionsRole);
    var found := Map(kept, ExperienceOfLine);
    var r := ExtractExperiences(text);
    assert r == Prefix(found, 8);
    PrefixIsSubsequence(found, 8);
    SubsequenceMap(kept, ScannedLines(text), ExperienceOfLine);
    SubsequenceTransitive(r, found, Map(ScannedLines(text), ExperienceOfLine));
  }

  /** The entries are the first eight role lines, trimmed, in order (all of them when
      there are at most eight), so every role line is reported when no more than eight
      match. */
  lemma ExtractExperiencesComplete(text: string)
    ensures var kept := Filter(ScannedLines(text), MentionsRole); var r := ExtractExperiences(text);
      && |r| == Min(8, |kept|)
      && (forall k :: 0 <= k < |r| ==> r[k] == ExperienceOfLine(kept[k]))
    ensures |Filter(ScannedLines(text), MentionsRole)| <= 8 ==>
      forall line :: line in ScannedLines(text) && MentionsRole(line) ==> ExperienceOfLine(line) in ExtractExperiences(text)
  {
    var kept := Filter(ScannedLines(text), MentionsRole);
    var found := Map(kept, ExperienceOfLine);
    var r := ExtractExperiences(text);
    assert r == Prefix(found, 8);
    if |kept| <= 8 {
      assert r == found;
      MapMembers(kept, ExperienceOfLine);
    }
  }

  // ---------------------------------------------------------------------------
  // decoding

  /** `extractTextFromBuffer`, up to the decoder: by the last dot-separated piece of the
      lower-cased file name, with UTF-8 text as the fallback. */
  function ExtractTextFromBuffer(filename: string): Decoder {
    var ext := AfterLast(LowerString(filename), '.');
    if ext == "docx" then Mammoth
    else if ext == "pdf" then PdfParse
    else Utf8Text
  }

  /** A name ending in `.docx` (or equal to `docx`), in any case, goes to mammoth; one
      ending in `.pdf` (or equal to `pdf`) to pdf-parse; every other name, with or without
      a dot, to UTF-8 decoding. No name is refused. */
  lemma ExtractTextFromBufferCases(filename: string)
    ensures var lower := LowerString(filename);
      ExtractTextFromBuffer(filename) ==
        if EndsWithPiece(lower, '.', "docx") then Mammoth
        else if EndsWithPiece(lower, '.', "pdf") then PdfParse
        else Utf8Text
  {
    AfterLastIs(LowerString(filename), '.', "docx");
    AfterLastIs(LowerString(filename), '.', "pdf");
  }

  // ---------------------------------------------------------------------------
  // the record

  datatype Candidate = Candidate(
    nom: Option<string>, prenom: Option<string>, email: Option<string>, telephone: Option<string>,
    adresse: Option<string>, competences: seq<string>, experiences: seq<Experience>)

  /** `(text.match(re_g) || [null])[0]` for the address pattern. */
  function FirstEmailOf(text: string): Option<string> {
    EmailGreedy(AnyCaseEmail);
    First(AllMatches(text, EmailAt(AnyCaseEmail)))
  }

  /** The leftmost phone run, `\+?\d[\d\s().-]{7,}`. */
  function FirstPhoneRun(text: string): Option<string> {
    PhoneRunGreedy();
    MatchText(text, PhoneRunAt)
  }

  /** `.replace(/\s+/g, " ").trim()`. */
  function Tidy(m: string): string {
    Trim(CollapseSpaces(m))
  }

  /** `?.[0]?.replace(/\s+/g, " ").trim() ?? null` on the first phone run. */
  function PhoneOf(text: string): Option<string> {
    PhoneRunGreedy();
    match First(AllMatches(text, PhoneRunAt))
    case None => None
    case Some(m) => Some(Tidy(m))
  }

  /** `parseCandidateFromBuffer` on the decoded text. The list of links it computes is not
      part of the record and is not modelled. */
  function ParseCandidate(text: string): (r: Candidate)
    ensures r.adresse.None?
    ensures r.nom.None? <==> r.prenom.None?
  {
    SplitNameIsLeftmostPair(text);
    var names := SplitName(text);
    Candidate(names.nom, names.prenom, FirstEmailOf(text), PhoneOf(text), None,
      ExtractCompetences(text), ExtractExperiences(text))
  }

  /** `parseCandidateFromBuffer`: the decoder picked from the file name, applied. */
  function ParseCandidateFromBuffer(filename: string, decode: Decoder -> string): Candidate {
    ParseCandidate(decode(ExtractTextFromBuffer(filename)))
  }

  /** The address is the leftmost one in the text, or missing when there is none. */
  lemma EmailIsLeftmost(text: string)
    ensures FirstEmailOf(text) == FirstEmail(AnyCaseEmail, text)
  {
    EmailGreedy(AnyCaseEmail);
    AllMatchesStartWithFirst(text, EmailAt(AnyCaseEmail));
  }

  /** A tidied phone number: not empty, no white space at either end, and its only white
      space single spaces. */
  predicate IsTidy(t: string) {
    && t != []
    && !IsJsSpace(t[0]) && !IsJsSpace(t[|t| - 1])
    && NoAdjacentSpaces(t)
    && (forall k :: 0 <= k < |t| && IsJsSpace(t[k]) ==> t[k] == ' ')
  }

  /** Tidying a string that does not start with white space gives a tidy string which
      keeps every other character, in order. */
  lemma TidyShape(m: string)
    requires m != [] && !IsJsSpace(m[0])
    ensures IsTidy(Tidy(m)) && NonSpace(Tidy(m)) == NonSpace(m)
  {
    var c := CollapseSpaces(m);
    TrimNonEmpty(c);
    TrimNoAdjacentSpaces(c);
    TrimKeepsBlanks(c);
    NonSpaceOfTrim(c);
  }

  /** The text holds no phone run. */
  predicate NoPhoneRun(text: string) {
    forall i, j :: 0 <= i <= j <= |text| ==> !PhoneRunAccepts(text, i, j)
  }

  /** The phone number is the leftmost phone run, as long as it goes at that start,
      tidied: tidy, and with the run's other characters in order. It is missing exactly
      when the text holds no run. */
  lemma TelephoneIsTidied(text: string)
    ensures var t := PhoneOf(text);
      && (t.None? <==> NoPhoneRun(text))
      && (t.Some? ==> IsTidy(t.value))
      && (t.Some? ==> exists i: nat, j: nat ::
            LeftmostLongest(text, PhoneRunAccepts, i, j) && NonSpace(t.value) == NonSpace(text[i..j]))
      && (forall i: nat, j: nat :: LeftmostLongest(text, PhoneRunAccepts, i, j) ==> t == Some(Tidy(text[i..j])))
  {
    PhoneOfFirstRun(text);
    FirstPhoneRunIsAccepted(text);
    var t := PhoneOf(text);
    if t.Some? {
      var m := FirstPhoneRun(text).value;
      var i: nat, j: nat :| LeftmostLongest(text, PhoneRunAccepts, i, j) && m == text[i..j];
      TidyRun(text, i, j);
    }
  }

  /** A tidied phone run is tidy and keeps the run's other characters. */
  lemma TidyRun(text: string, i: nat, j: nat)
    requires i <= j <= |text| && PhoneRunAccepts(text, i, j)
    ensures IsTidy(Tidy(text[i..j])) && NonSpace(Tidy(text[i..j])) == NonSpace(text[i..j])
  {
    RunStartsWithoutSpace(text, i, j);
    TidyShape(text[i..j]);
  }

  /** The first phone run is the leftmost accepted span, the longest at its start; there
      is none only when the text holds no run. */
  lemma FirstPhoneRunIsAccepted(text: string)
    ensures FirstPhoneRun(text).None? <==> NoPhoneRun(text)
    ensures FirstPhoneRun(text).Some? ==>
      exists i: nat, j: nat :: LeftmostLongest(text, PhoneRunAccepts, i, j) && FirstPhoneRun(text).value == text[i..j]
    ensures forall i: nat, j: nat :: LeftmostLongest(text, PhoneRunAccepts, i, j) ==> FirstPhoneRun(text) == Some(text[i..j])
  {
    PhoneRunGreedy();
    MatchTextIsLeftmostLongest(text, PhoneRunAt, PhoneRunAccepts);
  }

  lemma RunStartsWithoutSpace(text: string, i: nat, j: nat)
    requires PhoneRunAccepts(text, i, j)
    ensures i < j && !IsJsSpace(text[i])
  {
  }

  lemma PhoneOfFirstRun(text: string)
    ensures PhoneOf(text) == if FirstPhoneRun(text).None? then None else Some(Tidy(FirstPhoneRun(text).value))
  {
    PhoneRunGreedy();
    AllMatchesStartWithFirst(text, PhoneRunAt);
  }
}
