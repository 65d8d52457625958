/**
 * `utils/extractCVData.ts`: the format of an uploaded buffer told from its first bytes,
 * then a record read off the decoded text — the first address and phone number, a name
 * split from the first non-empty line, skills from a keyword list matched as whole words,
 * and the lines that mention a year of the 2000s.
 */
module UtilsExtractCvData {
  import opened Common
  import opened Chars
  import opened Strings
  import opened Matching
  import opened Years
  import opened Phones
  import opened Emails
  import opened Formats

  // ---------------------------------------------------------------------------
  // format

  /** The PDF test first, then the ZIP test; anything else is refused. */
  function DetectFormat(buffer: seq<byte>): (r: Result<Decoder>)
    ensures r.Failure? ==> r.message == "Format de fichier non supporté"
  {
    if IsPdfHeader(buffer) then Success(PdfParse)
    else if IsZipHeader(buffer) then Success(Mammoth)
    else Failure("Format de fichier non supporté")
  }

  /** pdf-parse exactly for a buffer opening with `%PDF`, mammoth exactly for one opening
      with `PK`, and a refusal exactly for every other buffer, the empty one included.
      The order of the two tests does not matter, since no buffer passes both. */
  lemma DetectFormatCases(buffer: seq<byte>)
    ensures DetectFormat(buffer) == Success(PdfParse) <==> |buffer| >= 4 && buffer[..4] == PdfMagic
    ensures DetectFormat(buffer) == Success(Mammoth) <==> |buffer| >= 2 && buffer[..2] == ZipMagic
    ensures DetectFormat(buffer).Failure? <==>
      !(|buffer| >= 4 && buffer[..4] == PdfMagic) && !(|buffer| >= 2 && buffer[..2] == ZipMagic)
  {
    ZipHeaderMeans(buffer);
    HeadersExclusive(buffer);
  }

  // ---------------------------------------------------------------------------
  // lines

  /** `text.split(/\r?\n/).map(l => l.trim()).filter(Boolean)`. */
  function NormalisedLines(text: string): (r: seq<string>)
    ensures forall l :: l in r ==> l != [] && Trim(l) == l
    ensures IsSubsequence(r, Map(LinesCrLf(text), Trim))
  {
    var trimmed := Map(LinesCrLf(text), Trim);
    TrimmedAreTrim(LinesCrLf(text));
    Filter(trimmed, IsNonEmpty)
  }

  lemma TrimmedAreTrim(lines: seq<string>)
    ensures forall l :: l in Map(lines, Trim) ==> Trim(l) == l
  {
    forall l | l in Map(lines, Trim) ensures Trim(l) == l {
      var k :| 0 <= k < |lines| && Map(lines, Trim)[k] == l;
      TrimIdempotent(lines[k]);
    }
  }

  /** Every non-empty trimmed line is kept, and nothing else. */
  lemma NormalisedLinesMembers(text: string)
    ensures forall l :: l in NormalisedLines(text) <==> l != [] && exists raw :: raw in LinesCrLf(text) && Trim(raw) == l
  {
    var lines := LinesCrLf(text);
    TrimmedNonEmptyMembers(lines);
    assert NormalisedLines(text) == Filter(Map(lines, Trim), IsNonEmpty);
  }

  lemma TrimmedNonEmptyMembers(lines: seq<string>)
    ensures forall l :: l in Filter(Map(lines, Trim), IsNonEmpty) <==> l != [] && exists raw :: raw in lines && Trim(raw) == l
  {
    FilterMapMembers(lines, Trim, IsNonEmpty);
  }

  // ---------------------------------------------------------------------------
  // name

  /** `lignes[0] || ''`. */
  function NameLine(text: string): (r: string)
    ensures r == [] <==> NormalisedLines(text) == []
    ensures r != [] ==> r == NormalisedLines(text)[0]
  {
    First(NormalisedLines(text)).GetOr("")
  }

  datatype NameSplit = NameSplit(prenom: string, nom: string)

  /** `const [prenom, ...nomParts] = nomComplet.split(' '); const nom = nomParts.join(' ')`. */
  function SplitNameLine(line: string): (r: NameSplit)
    ensures ' ' !in r.prenom
  {
    var parts := Split(line, ' ');
    NameSplit(parts[0], Join(parts[1..], ' '))
  }

  /** The split loses nothing: `prenom`, a space and `nom` give the line back when it holds
      a space, and `prenom` alone is the line (with an empty `nom`) when it does not. */
  lemma {:induction false} SplitNameLineRoundTrip(line: string)
    ensures var r := SplitNameLine(line);
      && r.prenom == BeforeFirst(line, ' ')
      && (' ' in line ==> line == r.prenom + " " + r.nom)
      && (' ' !in line ==> r.prenom == line && r.nom == "")
  {
    var parts := Split(line, ' ');
    SplitWithoutSeparator(line, ' ');
    if |parts| > 1 {
      assert parts == [parts[0]] + parts[1..];
      assert Join(parts, ' ') == parts[0] + [' '] + Join(parts[1..], ' ');
    } else {
      assert parts == [parts[0]];
      assert ' ' !in line;
    }
  }

  /** Without any non-empty line both names are empty. */
  lemma NamesOfBlankText(text: string)
    ensures NormalisedLines(text) == [] ==> SplitNameLine(NameLine(text)) == NameSplit("", "")
  {
    assert Split("", ' ') == [[]];
  }

  // ---------------------------------------------------------------------------
  // skills

  const SkillsKeywords: seq<string> :=
    ["JavaScript", "Node.js", "React", "PHP", "Python", "SQL", "WordPress", "AWS"]

  /** One character of a keyword pattern against one of the text: the `.` of `Node.js` is
      the wildcard that matches any character but a line terminator; every other
      character compares ignoring case. */
  predicate PatternCharMatches(p: char, c: char) {
    if p == '.' then !IsLineTerminator(c) else EqualsIgnoringCase(c, p)
  }

  /** `\b<skill>\b` with the `i` flag matches at `k`. */
  predicate SkillAt(text: string, skill: string, k: nat) {
    && k + |skill| <= |text|
    && IsBoundary(text, k) && IsBoundary(text, k + |skill|)
    && forall n :: 0 <= n < |skill| ==> PatternCharMatches(skill[n], text[k + n])
  }

  /** `new RegExp('\\b' + skill + '\\b', 'i').test(text)`. */
  predicate MentionsSkill(text: string, skill: string) {
    exists k: nat | k <= |text| :: SkillAt(text, skill, k)
  }

  /** The keywords that occur as whole words, ignoring case, in keyword order, each once. */
  function ExtractCompetences(text: string): (r: seq<string>)
    ensures forall skill :: skill in r <==> skill in SkillsKeywords && MentionsSkill(text, skill)
    ensures IsSubsequence(r, SkillsKeywords)
    ensures NoDuplicates(r)
  {
    assert NoDuplicates(SkillsKeywords);
    Filter(SkillsKeywords, (skill: string) => MentionsSkill(text, skill))
  }

  /** The dot of `Node.js` is a wildcard: `NodeXjs` counts as Node.js. */
  lemma NodeJsDotIsWildcard()
    ensures "Node.js" in ExtractCompetences("NodeXjs")
  {
    var text := "NodeXjs";
    assert SkillAt(text, "Node.js", 0);
    assert "Node.js" in SkillsKeywords;
  }

  /** Matching ignores case: `react` counts as React. */
  lemma ReactInLowerCase()
    ensures "React" in ExtractCompetences("react")
  {
    assert SkillAt("react", "React", 0);
    assert "React" in SkillsKeywords;
  }

  /** The word boundaries exclude longer words: `JavaScripting` is not JavaScript. */
  lemma JavaScriptNeedsWholeWord()
    ensures "JavaScript" !in ExtractCompetences("JavaScripting")
  {
    var text := "JavaScripting";
    forall k: nat | k <= |text| ensures !SkillAt(text, "JavaScript", k) {
      if k == 0 {
        assert !IsBoundary(text, 10);
      } else if k + 10 <= |text| {
        assert !PatternCharMatches("JavaScript"[0], text[k]);
      }
    }
  }

  // ---------------------------------------------------------------------------
  // experiences

  /** `lignes.filter(l => /20\d{2}/.test(l)).slice(0, 5)`. */
  function ExtractExperiences(text: string): (r: seq<string>)
    ensures |r| <= 5
    ensures forall l :: l in r ==> l in NormalisedLines(text) && HasTwentyYear(l)
    ensures IsSubsequence(r, NormalisedLines(text))
  {
    TakeFiltered(NormalisedLines(text), HasTwentyYear, 5);
    Prefix(Filter(NormalisedLines(text), HasTwentyYear), 5)
  }

  /** When at most five lines mention a year of the 2000s, all of them are kept; otherwise
      the first five are. */
  lemma ExtractExperiencesComplete(text: string)
    ensures var found := Filter(NormalisedLines(text), HasTwentyYear);
      ExtractExperiences(text) == if |found| <= 5 then found else found[..5]
  {
  }

  // ---------------------------------------------------------------------------
  // the record

  datatype CvData = CvData(
    nom: string, prenom: string, email: Option<string>, telephone: Option<string>,
    competences: seq<string>, experiences: seq<string>, texteBrut: string)

  /** `text.match(/(\+?\d[\d .-]{7,}\d)/)?.[0]`. */
  function PhoneOf(text: string): Option<string> {
    DottedPhoneGreedy();
    MatchText(text, DottedPhoneAt)
  }

  /** The fields read off the decoded text. */
  function ParseText(text: string): (r: CvData)
    ensures r.texteBrut == text
    ensures |r.experiences| <= 5
    ensures r.email == FirstEmail(LowerTldEmail, text)
  {
    var names := SplitNameLine(NameLine(text));
    CvData(names.nom, names.prenom, FirstEmail(LowerTldEmail, text), PhoneOf(text),
      ExtractCompetences(text), ExtractExperiences(text), text)
  }

  /** `extractCVData`: refused unless the buffer is a PDF or a ZIP archive; otherwise the
      fields of the text the chosen decoder produces. */
  function ExtractCvData(buffer: seq<byte>, decode: Decoder -> string): (r: Result<CvData>)
    ensures r.Failure? <==> DetectFormat(buffer).Failure?
    ensures r.Failure? ==> r.message == "Format de fichier non supporté"
    ensures r.Success? ==> r.value.texteBrut == decode(DetectFormat(buffer).value)
  {
    match DetectFormat(buffer)
    case Failure(msg) => Failure(msg)
    case Success(decoder) => Success(ParseText(decode(decoder)))
  }

  /** The phone number is the leftmost run of an optional `+`, a digit, at least seven
      digits, spaces, dots or dashes, and a closing digit, as long as it goes at that
      start; missing only when there is none. */
  lemma TelephoneIsLeftmost(text: string)
    ensures var t := PhoneOf(text);
      && (t.None? <==> forall i, j :: 0 <= i <= j <= |text| ==> !DottedPhoneAccepts(text, i, j))
      && (t.Some? ==> exists i: nat, j: nat :: LeftmostLongest(text, DottedPhoneAccepts, i, j) && t.value == text[i..j])
      && (forall i: nat, j: nat :: LeftmostLongest(text, DottedPhoneAccepts, i, j) ==> t == Some(text[i..j]))
  {
    DottedPhoneGreedy();
    MatchTextIsLeftmostLongest(text, DottedPhoneAt, DottedPhoneAccepts);
  }

  /** An address found ends in a top-level label of lower-case ASCII letters. */
  lemma EmailEndsLowerCase(text: string)
    ensures var e := FirstEmail(LowerTldEmail, text);
      e.Some? ==> |e.value| >= 2 && IsAsciiLower(e.value[|e.value| - 1]) && IsAsciiLower(e.value[|e.value| - 2])
  {
    FirstEmailIsLeftmost(LowerTldEmail, text);
    var e := FirstEmail(LowerTldEmail, text);
    if e.Some? {
      var i: nat, j: nat :| i <= j <= |text| && EmailAccepts(LowerTldEmail, text, i, j) && e.value == text[i..j];
      SpanEndsLowerCase(text, i, j);
    }
  }

  /** An accepted span ends in two lower-case ASCII letters. */
  lemma SpanEndsLowerCase(text: string, i: nat, j: nat)
    requires i <= j <= |text| && EmailAccepts(LowerTldEmail, text, i, j)
    ensures var v := text[i..j]; |v| >= 2 && IsAsciiLower(v[|v| - 1]) && IsAsciiLower(v[|v| - 2])
  {
    EmailTopLevelLabel(LowerTldEmail, text, i, j);
    var v := text[i..j];
    assert v[|v| - 1] == text[j - 1] && v[|v| - 2] == text[j - 2];
  }
}
