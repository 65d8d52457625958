/**
 * The `ResumeParser` class of `utils/resumeParser.ts`: contact details, education and work
 * experience read line by line from the text of a résumé, the confidence score of the
 * result, and the choice of a text decoder from the file extension.
 */
module ResumeParser {
  import opened Common
  import opened Chars
  import opened Strings
  import opened Matching
  import opened Years
  import opened Phones
  import opened Urls
  import opened Emails
  import opened Formats

  // ---------------------------------------------------------------------------
  // decoding

  /** `bufferToArrayBuffer`: the bytes copied one by one into a fresh array. */
  method BufferToArrayBuffer(buffer: seq<byte>) returns (r: seq<byte>)
    ensures |r| == |buffer|
    ensures forall k :: 0 <= k < |buffer| ==> r[k] == buffer[k]
  {
    var view := new byte[|buffer|];
    var i := 0;
    while i < |buffer|
      invariant 0 <= i <= |buffer|
      invariant forall k :: 0 <= k < i ==> view[k] == buffer[k]
    {
      view[i] := buffer[i];
      i := i + 1;
    }
    r := view[..];
  }

  /** An item of a page's text content: only text items carry a `str`. */
  datatype TextItem = TextItem(str: Option<string>)

  /** The items of one page joined by spaces, an item without `str` counting as `''`. */
  function PageText(items: seq<TextItem>): string {
    Join(Map(items, (it: TextItem) => it.str.GetOr("")), ' ')
  }

  /** The text the PDF parser assembles: each page's text followed by a line feed. */
  function PdfText(pages: seq<seq<TextItem>>): string {
    if pages == [] then [] else PageText(pages[0]) + "\n" + PdfText(pages[1..])
  }

  /** No item text holds a line feed. */
  predicate SingleLineItems(pages: seq<seq<TextItem>>) {
    forall p, n :: 0 <= p < |pages| && 0 <= n < |pages[p]| && pages[p][n].str.Some? ==> '\n' !in pages[p][n].str.value
  }

  lemma {:induction false} JoinKeepsNoNewline(parts: seq<string>)
    requires forall k :: 0 <= k < |parts| ==> '\n' !in parts[k]
    ensures '\n' !in Join(parts, ' ')
    decreases |parts|
  {
    if |parts| > 1 {
      JoinKeepsNoNewline(parts[1..]);
    }
  }

  /** When no item holds a line feed, the lines of the assembled text are the pages' texts,
      in page order, followed by the empty line after the last line feed. */
  lemma {:induction false} PdfTextLines(pages: seq<seq<TextItem>>)
    requires SingleLineItems(pages)
    ensures Lines(PdfText(pages)) == Map(pages, PageText) + [""]
    decreases |pages|
  {
    if pages == [] {
      SplitWithoutSeparator("", '\n');
    } else {
      var texts := Map(pages[0], (it: TextItem) => it.str.GetOr(""));
      forall k | 0 <= k < |texts| ensures '\n' !in texts[k] {
        assert pages[0][k].str.Some? ==> '\n' !in pages[0][k].str.value;
      }
      JoinKeepsNoNewline(texts);
      assert SingleLineItems(pages[1..]) by {
        forall p, n | 0 <= p < |pages[1..]| && 0 <= n < |pages[1..][p]| && pages[1..][p][n].str.Some?
          ensures '\n' !in pages[1..][p][n].str.value
        {
          assert pages[1..][p] == pages[p + 1];
        }
      }
      PdfTextLines(pages[1..]);
      SplitAfterPiece(PageText(pages[0]), '\n', PdfText(pages[1..]));
      assert PageText(pages[0]) + "\n" + PdfText(pages[1..]) == PageText(pages[0]) + ['\n'] + PdfText(pages[1..]);
      assert Map(pages, PageText) == [PageText(pages[0])] + Map(pages[1..], PageText);
    }
  }

  /** A parser: the extensions it accepts, dot included, and its decoder. */
  datatype FileParser = FileParser(supportedExtensions: seq<string>, decoder: Decoder)

  /** `fileParsers`, in the order they are tried. */
  const FileParsers: seq<FileParser> := [
    FileParser([".pdf"], PdfJs),
    FileParser([".docx", ".doc"], Mammoth),
    FileParser([".txt"], Utf8Text)
  ]

  /** `extractTextFromFile`, up to the decoder it hands the buffer to: the first parser
      listing the lower-cased extension, or an error naming the extension as given. */
  function ExtractTextFromFile(fileExtension: string): (r: Result<Decoder>)
    ensures r.Failure? ==> r.message == "Unsupported file type: ." + fileExtension
    ensures r.Success? ==> exists p :: p in FileParsers && p.decoder == r.value && "." + LowerString(fileExtension) in p.supportedExtensions
  {
    var key := "." + LowerString(fileExtension);
    match Find(FileParsers, (p: FileParser) => key in p.supportedExtensions)
    case None => Failure("Unsupported file type: ." + fileExtension)
    case Some(p) => Success(p.decoder)
  }

  lemma DottedKey(ext: string, name: string)
    ensures "." + ext == "." + name <==> ext == name
  {
    if "." + ext == "." + name {
      assert ext == ("." + ext)[1..] == ("." + name)[1..] == name;
    }
  }

  /** The extension table, case by case: `pdf` goes to pdfjs, `docx` and `doc` to mammoth,
      `txt` to UTF-8 decoding, in any letter case; every other extension is refused. */
  lemma ExtractTextFromFileCases(fileExtension: string)
    ensures var ext := LowerString(fileExtension);
      ExtractTextFromFile(fileExtension) ==
        if ext == "pdf" then Success(PdfJs)
        else if ext == "docx" || ext == "doc" then Success(Mammoth)
        else if ext == "txt" then Success(Utf8Text)
        else Failure("Unsupported file type: ." + fileExtension)
  {
    var ext := LowerString(fileExtension);
    DottedKey(ext, "pdf");
    DottedKey(ext, "docx");
    DottedKey(ext, "doc");
    DottedKey(ext, "txt");
    assert "." + "pdf" == ".pdf" && "." + "docx" == ".docx" && "." + "doc" == ".doc" && "." + "txt" == ".txt";
  }

  // ---------------------------------------------------------------------------
  // contact details

  datatype ContactInfo = ContactInfo(email: Option<string>, phone: Option<string>, linkedin: Option<string>)

  /** A phone number found ends in four digits, whichever match the search settled on. */
  lemma PhoneEndsInFourDigits(text: string, phoneAt: Matcher)
    requires Recognises(phoneAt, ResumePhoneAccepts)
    ensures var m := MatchText(text, phoneAt);
      m.Some? ==> |m.value| >= 7 && AllIn(m.value, |m.value| - 4, |m.value|, IsDigit)
  {
    MatchTextAccepted(text, phoneAt, ResumePhoneAccepts);
    var m := MatchText(text, phoneAt);
    if m.Some? {
      var i: nat, j: nat :| i <= j <= |text| && ResumePhoneAccepts(text, i, j) && m.value == text[i..j];
      ResumePhoneEndsInFourDigits(text, i, j);
      assert forall k :: |m.value| - 4 <= k < |m.value| ==> m.value[k] == text[i + k];
    }
  }

  /** `extractContactInfo`. The phone pattern is passed as a matcher recognising exactly
      the numbers `ResumePhoneAccepts` describes. */
  function ExtractContactInfo(text: string, phoneAt: Matcher): (r: ContactInfo)
    requires Recognises(phoneAt, ResumePhoneAccepts)
    ensures r.phone.Some? ==> |r.phone.value| >= 7 && AllIn(r.phone.value, |r.phone.value| - 4, |r.phone.value|, IsDigit)
    ensures r.linkedin.Some? ==>
      && |LinkedInProfilePrefix| < |r.linkedin.value|
      && r.linkedin.value[..|LinkedInProfilePrefix|] == LinkedInProfilePrefix
      && AllIn(r.linkedin.value, |LinkedInProfilePrefix|, |r.linkedin.value|, IsSlugChar)
  {
    LinkedInProfileGreedy();
    PhoneEndsInFourDigits(text, phoneAt);
    LinkedInProfileText(text, LinkedInProfileAt);
    ContactInfo(FirstEmail(FramedEmail, text), MatchText(text, phoneAt), MatchText(text, LinkedInProfileAt))
  }

  lemma LinkedInProfileText(text: string, linkAt: Matcher)
    requires Recognises(linkAt, LinkedInProfileAccepts)
    ensures var m := MatchText(text, linkAt);
      m.Some? ==>
        && |LinkedInProfilePrefix| < |m.value|
        && m.value[..|LinkedInProfilePrefix|] == LinkedInProfilePrefix
        && AllIn(m.value, |LinkedInProfilePrefix|, |m.value|, IsSlugChar)
  {
    MatchTextAccepted(text, linkAt, LinkedInProfileAccepts);
    var m := MatchText(text, linkAt);
    if m.Some? {
      var i: nat, j: nat :| i <= j <= |text| && LinkedInProfileAccepts(text, i, j) && m.value == text[i..j];
      var n := |LinkedInProfilePrefix|;
      assert m.value[..n] == text[i..i + n];
      assert forall k :: n <= k < |m.value| ==> m.value[k] == text[i + k];
    }
  }

  /** Each contact field is absent exactly when the text holds nothing its pattern accepts.
      The address and the LinkedIn address found are the leftmost match, as long as it goes
      at that start, and any such match is the one found; the phone number found starts
      at the leftmost place where a number does. */
  lemma ContactInfoFields(text: string, phoneAt: Matcher)
    requires Recognises(phoneAt, ResumePhoneAccepts)
    ensures var r := ExtractContactInfo(text, phoneAt);
      && (r.email.None? <==> forall i, j :: 0 <= i <= j <= |text| ==> !EmailAccepts(FramedEmail, text, i, j))
      && (r.phone.None? <==> forall i, j :: 0 <= i <= j <= |text| ==> !ResumePhoneAccepts(text, i, j))
      && (r.linkedin.None? <==> forall i, j :: 0 <= i <= j <= |text| ==> !LinkedInProfileAccepts(text, i, j))
      && (forall i: nat, j: nat :: IsFirstEmail(FramedEmail, text, i, j) ==> r.email == Some(text[i..j]))
      && (r.phone.Some? ==> exists i: nat, j: nat :: LeftmostAccepted(text, ResumePhoneAccepts, i, j) && r.phone.value == text[i..j])
      && (forall i: nat, j: nat :: LeftmostLongest(text, LinkedInProfileAccepts, i, j) ==> r.linkedin == Some(text[i..j]))
  {
    LinkedInProfileGreedy();
    FirstEmailIsLeftmost(FramedEmail, text);
    MatchTextIsLeftmost(text, phoneAt, ResumePhoneAccepts);
    MatchTextIsLeftmostLongest(text, LinkedInProfileAt, LinkedInProfileAccepts);
  }

  /** The class `[A-Z|a-z]` of the address pattern takes `|` as a member, so `a@b.|x`
      passes as an address whose top-level label is `|x`. */
  lemma PipeTopLevelAccepted()
    ensures EmailAccepts(FramedEmail, "a@b.|x", 0, 6)
    ensures !EmailAccepts(FramedLetterEmail, "a@b.|x", 0, 6)
  {
    var s := "a@b.|x";
    assert EmailShape(FramedEmail, s, 0, 1, 3, 6);
    assert !IsTopLevelChar(Letters, s[4]);
    assert !AllIn(s, 3, 6, c => IsTopLevelChar(Letters, c)) && !AllIn(s, 4, 6, c => IsTopLevelChar(Letters, c));
  }

  /** The address pattern with the evident `[A-Za-z]` for the top-level label. */
  const FramedLetterEmail := EmailDialect(WithPercentPlus, Letters, true)

  /** No character of an address of the corrected pattern is a `|`. */
  lemma LetterEmailHasNoPipe(s: string, i: nat, j: nat)
    requires EmailAccepts(FramedLetterEmail, s, i, j)
    ensures forall x :: i <= x < j ==> s[x] != '|'
  {
    var a: nat, k: nat :| i < a < k < j && EmailShape(FramedLetterEmail, s, i, a, k, j);
    forall x | i <= x < j ensures s[x] != '|' {
      if x < a {
        assert IsLocalChar(WithPercentPlus, s[x]);
      } else if a < x < k {
        assert IsDomainChar(s[x]);
      } else if k < x {
        assert IsTopLevelChar(Letters, s[x]);
      }
    }
  }

  /** `extractContactInfo` with the corrected address pattern: an address found never
      holds a `|`, and is missing only when the text holds no address. */
  function ExtractContactInfoIntended(text: string, phoneAt: Matcher): (r: ContactInfo)
    requires Recognises(phoneAt, ResumePhoneAccepts)
    ensures r.email.Some? ==> '|' !in r.email.value
    ensures r.email.None? <==> forall i, j :: 0 <= i <= j <= |text| ==> !EmailAccepts(FramedLetterEmail, text, i, j)
    ensures r.phone == ExtractContactInfo(text, phoneAt).phone && r.linkedin == ExtractContactInfo(text, phoneAt).linkedin
  {
    IntendedEmailHasNoPipe(text);
    var info := ExtractContactInfo(text, phoneAt);
    info.(email := FirstEmail(FramedLetterEmail, text))
  }

  lemma IntendedEmailHasNoPipe(text: string)
    ensures var e := FirstEmail(FramedLetterEmail, text);
      && (e.Some? ==> '|' !in e.value)
      && (e.None? <==> forall i, j :: 0 <= i <= j <= |text| ==> !EmailAccepts(FramedLetterEmail, text, i, j))
  {
    FirstEmailIsLeftmost(FramedLetterEmail, text);
    var e := FirstEmail(FramedLetterEmail, text);
    if e.Some? {
      var i: nat, j: nat :| i <= j <= |text| && EmailAccepts(FramedLetterEmail, text, i, j) && e.value == text[i..j];
      LetterEmailHasNoPipe(text, i, j);
      assert forall x :: 0 <= x < |e.value| ==> e.value[x] == text[i + x];
    }
  }

  // ---------------------------------------------------------------------------
  // education and work experience

  /** `keywords.some(k => line.toLowerCase().includes(k))`. */
  predicate MentionsAny(line: string, keywords: seq<string>) {
    |keywords| > 0 && (Contains(LowerString(line), keywords[0]) || MentionsAny(line, keywords[1..]))
  }

  /** The line mentions a keyword exactly when its lower-cased form contains one. */
  lemma {:induction false} MentionsAnyMeans(line: string, keywords: seq<string>)
    ensures MentionsAny(line, keywords) <==> exists kw :: kw in keywords && Contains(LowerString(line), kw)
    decreases |keywords|
  {
    if |keywords| > 0 {
      MentionsAnyMeans(line, keywords[1..]);
      assert forall kw :: kw in keywords <==> kw == keywords[0] || kw in keywords[1..];
    }
  }

  /** The text before the first `sep`, trimmed: the whole line trimmed when it holds no
      `sep`. */
  function FieldBefore(line: string, sep: char): (r: string)
    ensures IsTrimOf(BeforeFirst(line, sep), r)
    ensures sep !in line ==> IsTrimOf(line, r)
    ensures sep !in r
    ensures exists p: nat :: SliceBefore(line, r, sep, p)
    ensures r == [] || (!IsJsSpace(r[0]) && !IsJsSpace(r[|r| - 1]))
  {
    FieldBeforeInLine(line, sep);
    Trim(BeforeFirst(line, sep))
  }

  lemma FieldBeforeInLine(line: string, sep: char)
    ensures exists p: nat :: SliceBefore(line, Trim(BeforeFirst(line, sep)), sep, p)
  {
    var head := BeforeFirst(line, sep);
    var r := Trim(head);
    var p: nat :| IsTrimAt(head, p, r);
    SliceOfHead(line, head, r, sep, p);
  }

  /** A slice of a prefix of `line` without `sep` is a slice of `line` with no `sep`
      before its end. */
  lemma SliceOfHead(line: string, head: string, r: string, sep: char, p: nat)
    requires |head| <= |line| && head == line[..|head|] && sep !in head
    requires p + |r| <= |head| && r == head[p..p + |r|]
    ensures SliceBefore(line, r, sep, p)
  {
    assert line[p..p + |r|] == head[p..p + |r|];
    assert line[..p + |r|] == head[..p + |r|];
    assert forall x :: x in line[..p + |r|] ==> x in head;
  }

  /** `r` is the slice of `line` at `p`, and no `sep` comes before its end. */
  predicate SliceBefore(line: string, r: string, sep: char, p: nat) {
    p + |r| <= |line| && line[p..p + |r|] == r && sep !in line[..p + |r|]
  }

  const EducationKeywords: seq<string> :=
    ["bachelor", "master", "phd", "degree", "university", "college", "graduate", "education"]

  datatype Education = Education(institution: string, degree: Option<string>, year: Option<string>)

  /** One education entry: the trimmed text before the first comma, the first keyword the
      line mentions, and the first run of four digits. */
  function EducationOf(section: string): (r: Education)
    ensures ',' !in r.institution && IsTrimOf(BeforeFirst(section, ','), r.institution)
    ensures r.degree.Some? <==> MentionsAny(section, EducationKeywords)
    ensures r.year.None? <==> forall i, j :: 0 <= i <= j <= |section| ==> !FourDigitsAccepts(section, i, j)
    ensures forall i: nat, j: nat :: LeftmostLongest(section, FourDigitsAccepts, i, j) ==> r.year == Some(section[i..j])
  {
    FourDigitsGreedy();
    FourDigitYear(section, FourDigitsAt);
    MentionsAnyMeans(section, EducationKeywords);
    Education(
      FieldBefore(section, ','),
      Find(EducationKeywords, (kw: string) => Contains(LowerString(section), kw)),
      MatchText(section, FourDigitsAt))
  }

  /** The year search finds four digits, at the leftmost place four digits stand, and
      nothing only when no four digits stand together. */
  lemma FourDigitYear(s: string, yearAt: Matcher)
    requires Greedy(yearAt, FourDigitsAccepts)
    ensures var m := MatchText(s, yearAt);
      && (m.Some? ==> |m.value| == 4 && AllIn(m.value, 0, 4, IsDigit))
      && (m.None? <==> forall i, j :: 0 <= i <= j <= |s| ==> !FourDigitsAccepts(s, i, j))
      && (forall i: nat, j: nat :: LeftmostLongest(s, FourDigitsAccepts, i, j) ==> m == Some(s[i..j]))
  {
    MatchTextIsLeftmostLongest(s, yearAt, FourDigitsAccepts);
    var m := MatchText(s, yearAt);
    if m.Some? {
      var i: nat, j: nat :| LeftmostLongest(s, FourDigitsAccepts, i, j) && m.value == s[i..j];
      assert forall k :: 0 <= k < |m.value| ==> m.value[k] == s[i + k];
    }
  }

  /** The degree is the first keyword, in list order, that the lower-cased line contains. */
  lemma EducationDegreeIsFirstKeyword(section: string)
    ensures var d := EducationOf(section).degree;
      d.Some? ==>
        exists n :: 0 <= n < |EducationKeywords| && d.value == EducationKeywords[n]
          && Contains(LowerString(section), EducationKeywords[n])
          && (forall m :: 0 <= m < n ==> !Contains(LowerString(section), EducationKeywords[m]))
  {
  }

  predicate IsEducationLine(line: string) { MentionsAny(line, EducationKeywords) }

  predicate HasInstitution(e: Education) { e.institution != [] }

  /** `extractEducation`. */
  function ExtractEducation(text: string): (r: seq<Education>)
    ensures |r| <= |Lines(text)|
    ensures forall e :: e in r ==> e.institution != []
  {
    Filter(Map(Filter(Lines(text), IsEducationLine), EducationOf), HasInstitution)
  }

  /** The entries are exactly those of the lines that mention a keyword and have text
      before their first comma, in line order. */
  lemma ExtractEducationEntries(text: string)
    ensures forall e :: e in ExtractEducation(text) ==>
      HasInstitution(e) && exists line :: line in Lines(text) && IsEducationLine(line) && e == EducationOf(line)
    ensures forall line :: line in Lines(text) && IsEducationLine(line) && HasInstitution(EducationOf(line)) ==>
      EducationOf(line) in ExtractEducation(text)
    ensures IsSubsequence(ExtractEducation(text), Map(Lines(text), EducationOf))
  {
    var lines := Lines(text);
    var sections := Filter(lines, IsEducationLine);
    var entries := Map(sections, EducationOf);
    var r := Filter(entries, HasInstitution);
    forall e | e in r ensures HasInstitution(e) && exists line :: line in lines && IsEducationLine(line) && e == EducationOf(line) {
      var k :| 0 <= k < |sections| && entries[k] == e;
      assert sections[k] in sections;
    }
    forall line | line in lines && IsEducationLine(line) && HasInstitution(EducationOf(line)) ensures EducationOf(line) in r {
      assert line in sections;
      var k :| 0 <= k < |sections| && sections[k] == line;
      assert entries[k] == EducationOf(line);
    }
    SubsequenceMap(sections, lines, EducationOf);
    SubsequenceTransitive(r, entries, Map(lines, EducationOf));
  }

  /** Every entry names the degree keyword its line mentions. */
  lemma ExtractEducationDegrees(text: string)
    ensures forall e :: e in ExtractEducation(text) ==> e.degree.Some?
  {
    ExtractEducationEntries(text);
    forall e | e in ExtractEducation(text) ensures e.degree.Some? {
      var line :| line in Lines(text) && IsEducationLine(line) && e == EducationOf(line);
    }
  }

  const ExperienceKeywords: seq<string> :=
    ["work experience", "professional experience", "employment", "job", "position", "company"]

  datatype WorkExperience = WorkExperience(company: string, position: string, duration: Option<string>)

  /** One experience entry: the trimmed text before the first comma, the trimmed text
      before the first dash, and the first span of two years, or a year and `present`,
      joined by a dash. */
  function WorkExperienceOf(role: string): (r: WorkExperience)
    ensures ',' !in r.company && '-' !in r.position
    ensures IsTrimOf(BeforeFirst(role, ','), r.company) && IsTrimOf(BeforeFirst(role, '-'), r.position)
    ensures r.duration.None? <==> forall i, j :: 0 <= i <= j <= |role| ==> !DurationAccepts(role, i, j)
    ensures r.duration.Some? ==> exists i: nat, j: nat :: LeftmostLongest(role, DurationAccepts, i, j) && r.duration.value == role[i..j]
    ensures forall i: nat, j: nat :: LeftmostLongest(role, DurationAccepts, i, j) ==> r.duration == Some(role[i..j])
  {
    DurationGreedy();
    MatchTextIsLeftmostLongest(role, DurationAt, DurationAccepts);
    WorkExperience(FieldBefore(role, ','), FieldBefore(role, '-'), MatchText(role, DurationAt))
  }

  predicate IsExperienceLine(line: string) { MentionsAny(line, ExperienceKeywords) }

  predicate HasCompany(e: WorkExperience) { e.company != [] }

  /** `extractWorkExperience`. */
  function ExtractWorkExperience(text: string): (r: seq<WorkExperience>)
    ensures |r| <= |Lines(text)|
    ensures forall e :: e in r ==> e.company != []
  {
    Filter(Map(Filter(Lines(text), IsExperienceLine), WorkExperienceOf), HasCompany)
  }

  /** The entries are exactly those of the lines that mention a keyword and have text
      before their first comma, in line order. */
  lemma ExtractWorkExperienceEntries(text: string)
    ensures forall e :: e in ExtractWorkExperience(text) ==>
      HasCompany(e) && exists line :: line in Lines(text) && IsExperienceLine(line) && e == WorkExperienceOf(line)
    ensures forall line :: line in Lines(text) && IsExperienceLine(line) && HasCompany(WorkExperienceOf(line)) ==>
      WorkExperienceOf(line) in ExtractWorkExperience(text)
    ensures IsSubsequence(ExtractWorkExperience(text), Map(Lines(text), WorkExperienceOf))
  {
    var lines := Lines(text);
    var roles := Filter(lines, IsExperienceLine);
    var entries := Map(roles, WorkExperienceOf);
    var r := Filter(entries, HasCompany);
    forall e | e in r ensures HasCompany(e) && exists line :: line in lines && IsExperienceLine(line) && e == WorkExperienceOf(line) {
      var k :| 0 <= k < |roles| && entries[k] == e;
      assert roles[k] in roles;
    }
    forall line | line in lines && IsExperienceLine(line) && HasCompany(WorkExperienceOf(line)) ensures WorkExperienceOf(line) in r {
      assert line in roles;
      var k :| 0 <= k < |roles| && roles[k] == line;
      assert entries[k] == WorkExperienceOf(line);
    }
    SubsequenceMap(roles, lines, WorkExperienceOf);
    SubsequenceTransitive(r, entries, Map(lines, WorkExperienceOf));
  }

  // ---------------------------------------------------------------------------
  // confidence score

  /** The parsed data the score reads; every part may be missing. */
  datatype ParsedResume = ParsedResume(
    contactInfo: Option<ContactInfo>,
    skills: Option<seq<string>>,
    education: Option<seq<Education>>,
    workExperience: Option<seq<WorkExperience>>)

  /** The parts of the data the score rewards. */
  datatype Part = EmailPart | PhonePart | SkillsPart | EducationPart | WorkPart

  /** A string field is truthy when present and not empty. */
  predicate Truthy(s: Option<string>) { s.Some? && s.value != [] }

  /** The parts present: a non-empty e-mail or phone, a non-empty list. */
  function Present(d: ParsedResume): set<Part> {
    (if d.contactInfo.Some? && Truthy(d.contactInfo.value.email) then {EmailPart} else {})
    + (if d.contactInfo.Some? && Truthy(d.contactInfo.value.phone) then {PhonePart} else {})
    + (if d.skills.Some? && |d.skills.value| > 0 then {SkillsPart} else {})
    + (if d.education.Some? && |d.education.value| > 0 then {EducationPart} else {})
    + (if d.workExperience.Some? && |d.workExperience.value| > 0 then {WorkPart} else {})
  }

  /** What each part is worth; the weights add up to 100. */
  function Weight(p: Part): nat {
    match p
    case EmailPart => 20
    case PhonePart => 15
    case SkillsPart => 25
    case EducationPart => 20
    case WorkPart => 20
  }

  /** `calculateConfidenceScore`: the running total, clamped to `[0, 100]`. */
  function CalculateConfidenceScore(d: ParsedResume): (r: int)
    ensures 0 <= r <= 100
  {
    var score := 0;
    var score := if d.contactInfo.Some? && Truthy(d.contactInfo.value.email) then score + 20 else score;
    var score := if d.contactInfo.Some? && Truthy(d.contactInfo.value.phone) then score + 15 else score;
    var score := if d.skills.Some? && |d.skills.value| > 0 then score + 25 else score;
    var score := if d.education.Some? && |d.education.value| > 0 then score + 20 else score;
    var score := if d.workExperience.Some? && |d.workExperience.value| > 0 then score + 20 else score;
    Min(if score > 0 then score else 0, 100)
  }

  /** The sum of the weights of a set of parts. */
  function WeightOf(parts: set<Part>): nat {
    (if EmailPart in parts then Weight(EmailPart) else 0)
    + (if PhonePart in parts then Weight(PhonePart) else 0)
    + (if SkillsPart in parts then Weight(SkillsPart) else 0)
    + (if EducationPart in parts then Weight(EducationPart) else 0)
    + (if WorkPart in parts then Weight(WorkPart) else 0)
  }

  /** The score is the weight of the parts present: the clamp never bites. */
  lemma ScoreIsWeightOfPresent(d: ParsedResume)
    ensures CalculateConfidenceScore(d) == WeightOf(Present(d))
  {
  }

  /** Nothing present scores 0, everything present scores 100. */
  lemma ScoreExtremes(d: ParsedResume)
    ensures Present(d) == {} ==> CalculateConfidenceScore(d) == 0
    ensures Present(d) == {EmailPart, PhonePart, SkillsPart, EducationPart, WorkPart} ==> CalculateConfidenceScore(d) == 100
  {
    ScoreIsWeightOfPresent(d);
  }

  /** More parts present never lowers the score, and each added part raises it. */
  lemma ScoreMonotone(d: ParsedResume, d': ParsedResume)
    requires Present(d) <= Present(d')
    ensures CalculateConfidenceScore(d) <= CalculateConfidenceScore(d')
    ensures Present(d) < Present(d') ==> CalculateConfidenceScore(d) < CalculateConfidenceScore(d')
  {
    ScoreIsWeightOfPresent(d);
    ScoreIsWeightOfPresent(d');
    if Present(d) < Present(d') {
      var p :| p in Present(d') && p !in Present(d);
    }
  }
}
