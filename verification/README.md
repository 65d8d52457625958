# Résumé field extraction, modelled in Dafny

This project models the rule-based résumé extraction of a recruiting back end written in
TypeScript and JavaScript. Text is decoded from an uploaded PDF, DOCX, DOC or TXT file.
Then the candidate's name, e-mail address, phone number, links, skills, education and
experience lines are read off the text with regular expressions, keyword lists and line
filters. The same job is done by about a dozen near-duplicate files that disagree with
each other. Each one is modelled here as its own module and the variants are not
reconciled. Around the extractors the project models:

- the confidence score of a parsed résumé;
- the choice of a decoder by magic bytes, by extension and by mimetype;
- the storage webhook's request gate;
- the byte-copy loop that turns a Node.js buffer into an array buffer;
- the filename derived from a download address.

Shared layers:

- `Common`: optional values, results that carry an error message, bytes.
- `Chars`: the JavaScript white-space set, ASCII classes, and lower/upper case mapping
  on ASCII and Latin-1.
- `Strings`: `split`/`join` on one character, `trim`, line splitting on `\n` and
  `\r?\n`, `slice(0, n)`, `includes`, `filter`, `find`, `Array.from(new Set(...))`,
  white-space collapsing, and the last dot-segment of a path.
- `Matching`: `String.prototype.match` as the leftmost match of a matcher. A matcher
  returns the end of the match the backtracking search settles on at a start, and is
  tied to an acceptance predicate that says which spans the pattern accepts.
- `Phones`, `Names`, `Urls`, `Emails`, `Years`: hand-written recognisers for the
  patterns the extractors use.
- `Formats`: the decoder tags and the magic-byte tests. The `%PDF` header is section
  7.5.2 of ISO 32000-1. The `PK` signature of a ZIP archive is section 4.3.7 of the
  PKWARE APPNOTE.

A JavaScript string is a `seq<char>`. Dafny's `char` is a Unicode scalar value, so
the model counts one `char` where JavaScript counts one UTF-16 code unit only for text
inside the Basic Multilingual Plane (see "## Left out"). Decoders,
storage, HTTP and the database are outside the model: decoders are tags, and their
output is a function parameter.

## Model

| member | source | states |
|---|---|---|
| ResumeParser.BufferToArrayBuffer | utils/resumeParser.ts:10-17 | the copy has the buffer's length and every byte equals the buffer's byte at that index |
| ResumeParser.PdfTextLines | utils/resumeParser.ts:36-51 | when no text item holds a line feed, the lines of the assembled PDF text are the pages' space-joined item texts, then one empty line |
| ResumeParser.ExtractTextFromFile | utils/resumeParser.ts:178-185 | a decoder is chosen only from a parser listing `.` + the lower-cased extension; a refusal carries `Unsupported file type: .` + the extension as given |
| ResumeParser.ExtractTextFromFileCases | utils/resumeParser.ts:26-77 | pdf goes to pdfjs, docx and doc to mammoth, txt to UTF-8 decoding, in any letter case; every other extension is refused |
| ResumeParser.ExtractContactInfo | utils/resumeParser.ts:108-117 | a phone number found ends in four digits; a LinkedIn address found is `https://www.linkedin.com/in/` followed by at least one slug character |
| ResumeParser.ContactInfoFields | utils/resumeParser.ts:108-117 | each contact field is missing exactly when the text holds nothing its pattern accepts; the address and the LinkedIn address found are the leftmost accepted span, longest at its start, and any such span is the one found; the phone number found starts at the leftmost place where a number starts |
| ResumeParser.PhoneEndsInFourDigits | utils/resumeParser.ts:110-115 | a phone match has at least seven characters and ends in four digits |
| ResumeParser.LinkedInProfileText | utils/resumeParser.ts:111-116 | a LinkedIn match starts with the profile prefix and continues with slug characters only |
| ResumeParser.PipeTopLevelAccepted | utils/resumeParser.ts:109 | the address pattern as written accepts `a@b.\|x`; the corrected pattern does not |
| ResumeParser.ExtractContactInfoIntended | utils/resumeParser.ts:109-114 | with `[A-Za-z]` for the top-level label, an address found holds no `\|`; it is missing only when the text holds no address; the phone and LinkedIn fields are unchanged |
| ResumeParser.MentionsAnyMeans | utils/resumeParser.ts:128-154 | a line passes the keyword filter exactly when its lower-cased form contains one of the keywords |
| ResumeParser.FieldBefore | utils/resumeParser.ts:135-159 | the field is the trimmed text before the first separator, or the whole line trimmed when it holds none; so it holds no separator, has no white space at either end, and is a slice of the line that ends before its first separator |
| ResumeParser.FourDigitYear | utils/resumeParser.ts:139 | a year found is four digits; none is found exactly when no four digits stand together; any leftmost run of four digits is the year found |
| ResumeParser.EducationOf | utils/resumeParser.ts:134-139 | the institution is the trimmed text before the first comma and holds no comma; the degree is present exactly when the line mentions a keyword; the year is missing exactly when no four digits stand together, and otherwise is the leftmost such run |
| ResumeParser.EducationDegreeIsFirstKeyword | utils/resumeParser.ts:136-138 | the degree is the first keyword, in list order, that the lower-cased line contains |
| ResumeParser.ExtractEducation | utils/resumeParser.ts:121-141 | there are no more entries than lines, and no entry has an empty institution |
| ResumeParser.ExtractEducationEntries | utils/resumeParser.ts:127-140 | the entries are exactly those of the keyword lines with a non-empty institution, in line order |
| ResumeParser.ExtractEducationDegrees | utils/resumeParser.ts:127-138 | every entry kept has a degree |
| ResumeParser.WorkExperienceOf | utils/resumeParser.ts:157-160 | the company is the trimmed text before the first comma, the position the trimmed text before the first dash; the duration is missing exactly when no year range occurs, and otherwise is the leftmost range, longest at its start, and any such range is the duration |
| ResumeParser.ExtractWorkExperience | utils/resumeParser.ts:144-162 | there are no more entries than lines, and no entry has an empty company |
| ResumeParser.ExtractWorkExperienceEntries | utils/resumeParser.ts:150-161 | the entries are exactly those of the keyword lines with a non-empty company, in line order |
| ResumeParser.CalculateConfidenceScore | utils/resumeParser.ts:165-175 | the score lies in [0, 100] |
| ResumeParser.ScoreIsWeightOfPresent | utils/resumeParser.ts:166-174 | the score is the sum of the weights 20, 15, 25, 20, 20 of the parts present, so the clamp never changes it |
| ResumeParser.ScoreExtremes | utils/resumeParser.ts:166-174 | nothing present scores 0 and everything present scores 100 |
| ResumeParser.ScoreMonotone | utils/resumeParser.ts:168-172 | more parts present never lowers the score, and strictly more parts raise it |
| DocumentParser.NonEmptyOrNull | services/documentParser.ts:16 | `m[k] \|\| null` is null exactly for the empty string |
| DocumentParser.SplitNameIsLeftmostPair | services/documentParser.ts:10-17 | both names are null exactly when no capitalised pair occurs; otherwise `prenom` is the first word and `nom` the second word of the leftmost pair, longest at its start, and the words of any such pair are the names found |
| DocumentParser.ExtractCompetences | services/documentParser.ts:19-36 | a keyword is listed exactly when its lower-cased form occurs in the lower-cased text; the list follows keyword order and has no duplicates |
| DocumentParser.MentionsRoleMeans | services/documentParser.ts:44 | a line matches the role pattern exactly when one of the seven role words occurs in it, ignoring case |
| DocumentParser.ExtractExperiences | services/documentParser.ts:39-54 | at most eight entries; each has an empty company and empty dates, and its title is a trimmed role line among the first 400 lines |
| DocumentParser.ExtractExperiencesInOrder | services/documentParser.ts:41-53 | the entries follow line order |
| DocumentParser.ExtractExperiencesComplete | services/documentParser.ts:41-53 | for the n scanned lines that match, in line order, there are min(8, n) entries and entry k is the entry of the k-th of them; when at most eight match, every one is reported |
| DocumentParser.ExtractTextFromBufferCases | services/documentParser.ts:66-72 | a lower-cased name ending in `.docx` goes to mammoth, one ending in `.pdf` to pdf-parse, any other name to UTF-8 text; nothing is refused |
| DocumentParser.ParseCandidate | services/documentParser.ts:74-94 | the address is always null, and the two names are null together |
| DocumentParser.EmailIsLeftmost | services/documentParser.ts:77 | the e-mail is the first match of the case-insensitive address pattern |
| DocumentParser.TidyShape | services/documentParser.ts:78 | collapsing white space and trimming gives a string with no white space at either end and no two adjacent spaces, keeping every other character |
| DocumentParser.TelephoneIsTidied | services/documentParser.ts:78 | the phone is missing exactly when no phone run occurs; otherwise it is the tidied text of the leftmost run, longest at its start, and any such run tidied is the phone |
| DocumentParser.FirstPhoneRunIsAccepted | services/documentParser.ts:8 | the first phone run is the leftmost accepted span, longest at its start, any such span is the run found, and there is none only when no run occurs |
| DocumentParser.PhoneOfFirstRun | services/documentParser.ts:78 | the phone is the first run, tidied, or null |
| UtilsExtractCvData.DetectFormat | utils/extractCVData.ts:19-30 | a refusal carries `Format de fichier non supporté` |
| UtilsExtractCvData.DetectFormatCases | utils/extractCVData.ts:19-30 | pdf-parse exactly for a `%PDF` head, mammoth exactly for a `PK` head, a refusal otherwise; no buffer has both heads |
| UtilsExtractCvData.NormalisedLines | utils/extractCVData.ts:36 | every line kept is non-empty and trimmed, and the lines keep their order |
| UtilsExtractCvData.NormalisedLinesMembers | utils/extractCVData.ts:36 | a string is kept exactly when it is non-empty and is the trim of a `\r?\n` line |
| UtilsExtractCvData.NameLine | utils/extractCVData.ts:38 | the name line is empty exactly when no line is kept, and is otherwise the first line kept |
| UtilsExtractCvData.SplitNameLine | utils/extractCVData.ts:39-40 | `prenom` holds no space |
| UtilsExtractCvData.SplitNameLineRoundTrip | utils/extractCVData.ts:38-40 | `prenom`, a space and `nom` give the line back when it holds a space; a line without a space is `prenom`, with `nom` empty |
| UtilsExtractCvData.NamesOfBlankText | utils/extractCVData.ts:38-40 | with no non-empty line both names are empty |
| UtilsExtractCvData.ExtractCompetences | utils/extractCVData.ts:43-46 | a keyword is listed exactly when it occurs as a whole word, ignoring case; keyword order, no duplicates |
| UtilsExtractCvData.NodeJsDotIsWildcard | utils/extractCVData.ts:43-45 | the unescaped dot of `Node.js` makes `NodeXjs` count as Node.js |
| UtilsExtractCvData.ReactInLowerCase | utils/extractCVData.ts:45 | `react` counts as React |
| UtilsExtractCvData.JavaScriptNeedsWholeWord | utils/extractCVData.ts:45 | `JavaScripting` does not count as JavaScript |
| UtilsExtractCvData.ExtractExperiences | utils/extractCVData.ts:49-57 | at most five lines, each a kept line that mentions `20` and two digits, in line order |
| UtilsExtractCvData.ExtractExperiencesComplete | utils/extractCVData.ts:49-57 | when at most five lines mention such a year all are kept, otherwise the first five |
| UtilsExtractCvData.ParseText | utils/extractCVData.ts:33-58 | the raw text is the input unchanged, at most five experiences, and the e-mail is the first address with a lower-case top-level label |
| UtilsExtractCvData.ExtractCvData | utils/extractCVData.ts:15-59 | refused exactly when the format is neither PDF nor ZIP; otherwise the raw text is what the chosen decoder returns |
| UtilsExtractCvData.TelephoneIsLeftmost | utils/extractCVData.ts:34 | the phone is missing exactly when no number occurs; otherwise it is the leftmost number, longest at its start, and any such number is the phone |
| UtilsExtractCvData.EmailEndsLowerCase | utils/extractCVData.ts:33 | an address found ends in two lower-case ASCII letters |
| ApiExtractInfo.OtherLinks | api/lib/extractInfo.ts:6-7 | the other links have no duplicates and are exactly the links found that mention neither `linkedin.com` nor `github.com`, in the order of the deduplicated list |
| ApiExtractInfo.OtherLinksInFirstOccurrenceOrder | api/lib/extractInfo.ts:6-7 | two other links appear in the order of their first occurrences in the text |
| ApiExtractInfo.FirstOrEmpty | api/lib/extractInfo.ts:2-5 | the field is empty exactly when nothing matches or the match is empty |
| ApiExtractInfo.NamesAreFirstTwoWords | api/lib/extractInfo.ts:10-11 | `nom` is the first line up to its first space, `prenom` the text between the first and second spaces |
| ApiExtractInfo.ExtractInfoFromText | api/lib/extractInfo.ts:1-33 | the address and objective are empty, the four lists are empty, the summary is the text's prefix of length min(400, length), and the other links have no duplicates and no LinkedIn or GitHub address |
| ApiExtractInfo.LinkedInIsLeftmost | api/lib/extractInfo.ts:4 | the LinkedIn field is empty exactly when no LinkedIn address occurs; otherwise it is the leftmost address, longest at its start, and any such address is the field |
| ApiExtractInfo.GitHubIsLeftmost | api/lib/extractInfo.ts:5 | the same for GitHub |
| ApiExtractInfo.TelephoneIsLeftmost | api/lib/extractInfo.ts:3 | the phone field is empty exactly when no French number occurs; otherwise it is the leftmost number, longest at its start, and any such number is the field |
| ApiExtractInfo.EmailIsLeftmost | api/lib/extractInfo.ts:2 | the e-mail field is empty exactly when no address occurs; otherwise it is the leftmost address, longest at its start, and any such address is the field |
| ApiExtractInfo.FieldIsLeftmost | api/lib/extractInfo.ts:2-5 | a `?.[0] \|\| ''` field of a greedy pattern that never matches the empty string is empty exactly when nothing matches; otherwise it is the leftmost match, longest at its start, and any such match is the field |
| UtilsExtractInfo.ExtractName | utils/extractInfo.js:28-31 | a name found is non-empty and trimmed |
| UtilsExtractInfo.ExtractNameIsFirstNonBlank | utils/extractInfo.js:28-31 | the name is the first line that is not blank, trimmed, and is missing exactly when every line is blank |
| UtilsExtractInfo.ExtractSkills | utils/extractInfo.js:33-37 | a skill is listed exactly when it is in the list and occurs in the lower-cased text; list order, no duplicates |
| UtilsExtractInfo.NodeJsYieldsNode | utils/extractInfo.js:33-37 | substring search finds `node` in `NodeJS` |
| UtilsExtractInfo.ExtractEmailLocalPart | utils/extractInfo.js:18-21 | an address found has no `%` and no `+` before its `@` |
| UtilsExtractInfo.ExtractPhone | utils/extractInfo.js:23-26 | a number found has at least six characters and ends in three digits; it is missing exactly when no number occurs, and otherwise starts where the leftmost number starts |
| UtilsExtractInfo.DialMatchEndsInDigits | utils/extractInfo.js:23-26 | for any matcher that recognises the pattern, a number found has at least six characters and ends in three digits; it is missing exactly when no number occurs, and otherwise starts where the leftmost number starts |
| UtilsExtractInfo.ExtractInfo | utils/extractInfo.js:55-66 | the reachable `extractInfo` returns the input as raw text, a trimmed non-empty name when there is one, and only skills from the list; it has no phone field |
| CvExtractor.NameInitialIgnoringCase | supabase/functions/extract-cv-data/index.ts:7 | `[A-ZÀ-Ÿ]` under the `i` flag takes a character exactly when some member of the class has the same upper case |
| CvExtractor.NameRestIgnoringCase | supabase/functions/extract-cv-data/index.ts:7 | the same for `[a-zà-ÿ-]` |
| CvExtractor.ValueEndIsLongest | supabase/functions/extract-cv-data/index.ts:7-26 | the greedy value at a start is the longest the capture group accepts there (a name initial and name letters, 20 to 100 characters without a line terminator, or the rest of the line), and there is none exactly when the group accepts nothing there |
| CvExtractor.AddressValueShape | supabase/functions/extract-cv-data/index.ts:22-23 | an address value has from 20 to 100 characters and no line terminator |
| CvExtractor.LabelEndExact | supabase/functions/extract-cv-data/index.ts:7-8 | when every word of a label starts with a letter, the label read at a start is exactly the one the words, joined by white space and compared ignoring case, describe |
| CvExtractor.StartsAreSeparators | supabase/functions/extract-cv-data/index.ts:7-28 | the value starts tried after a label are exactly the ends of the separators `\s*[:\-]?\s*` (or `[:\-]?\s*` for the skills entry) that follow it |
| CvExtractor.AfterColonMembers | supabase/functions/extract-cv-data/index.ts:28 | the starts offered by `[:\-]?\s*` are exactly the ends of its matches |
| CvExtractor.AfterColonFromMembers | supabase/functions/extract-cv-data/index.ts:7 | the starts offered for every length of the leading `\s*` are the ends of a colon-and-space part after some such length |
| CvExtractor.StartsLargerFirst | supabase/functions/extract-cv-data/index.ts:7-29 | the separator `\s*[:\-]?\s*` (or `[:\-]?\s*`) tries its ends so that every longer separator is tried before a shorter one |
| CvExtractor.AfterColonFromLargerFirst | supabase/functions/extract-cv-data/index.ts:7 | with the first `\s*` giving back white space one character at a time, every longer separator is still tried before a shorter one |
| CvExtractor.FirstValueIsLargest | supabase/functions/extract-cv-data/index.ts:7-29 | when longer separators are tried first, the value found starts at the largest separator end that admits a value |
| CvExtractor.AlternativeOutcome | supabase/functions/extract-cv-data/index.ts:26 | one alternative of a label fails exactly when it matches in no way; otherwise its value starts at the largest separator end that admits one and is the longest there |
| CvExtractor.LabelledAtIsFirstAlternative | supabase/functions/extract-cv-data/index.ts:26 | an attempt at a start fails exactly when no alternative matches there; otherwise it yields the value of the first alternative that matches, at its largest separator end and longest there |
| CvExtractor.LabelledMatchIsLeftmost | supabase/functions/extract-cv-data/index.ts:7-29 | a labelled pattern matches nothing exactly when no alternative matches anywhere; otherwise the capture is the value of the first matching alternative at the leftmost start where one matches, starting at the largest separator end that admits a value and longest there |
| CvExtractor.AttemptFailsExactly | supabase/functions/extract-cv-data/index.ts:7-28 | an attempt at a start within the text fails exactly when no alternative of the label matches there |
| CvExtractor.NoMatchAnywhere | supabase/functions/extract-cv-data/index.ts:88 | when the scan over the starts finds nothing, no alternative matches at any start |
| CvExtractor.LeftmostMatchFound | supabase/functions/extract-cv-data/index.ts:88 | when the scan finds a value, it is the first matching alternative's at a start before which nothing matches, with the value's start and end pinned as in LabelledAtIsFirstAlternative |
| CvExtractor.TableLabelsStartWithLetter | supabase/functions/extract-cv-data/index.ts:5-30 | every word of every label in the table starts with a letter |
| CvExtractor.FirstValue | supabase/functions/extract-cv-data/index.ts:7 | the value start chosen is the first of the starts, in their order, at which a value follows, and there is none only when no start yields one |
| CvExtractor.FirstLabelledIsFirstSuccess | supabase/functions/extract-cv-data/index.ts:88 | a labelled match is the attempt at the leftmost start where one succeeds, and there is none only when every start fails |
| CvExtractor.FirstLabelledIsLeftmost | supabase/functions/extract-cv-data/index.ts:88 | when every earlier start fails, the match is the attempt at the first start that succeeds |
| CvExtractor.WholeMatcher | supabase/functions/extract-cv-data/index.ts:14-20 | the e-mail and telephone matchers stay inside the text |
| CvExtractor.FirstCapture | supabase/functions/extract-cv-data/index.ts:87-93 | no capture exactly when no pattern of the list matches; otherwise the capture of the first pattern that matches |
| CvExtractor.GroupedNeverThrow | supabase/functions/extract-cv-data/index.ts:89-90 | a list of patterns that all have a group never reads a missing group |
| CvExtractor.UngroupedAlwaysThrow | supabase/functions/extract-cv-data/index.ts:86-90 | a list of patterns without groups reads a missing group whenever it matches |
| CvExtractor.TableShape | supabase/functions/extract-cv-data/index.ts:5-31 | seven entries with distinct keys, none of them `raw_text`; every list has groups except the telephone list, which has none |
| CvExtractor.Record | supabase/functions/extract-cv-data/index.ts:86-95 | the loop throws exactly when some entry's first match has no group |
| CvExtractor.RecordReports | supabase/functions/extract-cv-data/index.ts:86-95 | a run that does not throw keeps the fields it started with, stores each matched key's trimmed capture, and adds no other key |
| CvExtractor.ParseExtractedText | supabase/functions/extract-cv-data/index.ts:81-97 | the parse throws exactly when some entry's first matching pattern has no group |
| CvExtractor.ParseExtractedTextReports | supabase/functions/extract-cv-data/index.ts:82-95 | a parse that returns keeps the text under `raw_text` and reports each key as its first capture, trimmed, or leaves it out when nothing matched |
| CvExtractor.ParsedNeverEmpty | supabase/functions/extract-cv-data/index.ts:82-84 | a parse that returns has at least one key, so the "nothing extracted" branch is never taken |
| CvExtractor.PhoneListMatches | supabase/functions/extract-cv-data/index.ts:18-19 | the two telephone patterns match exactly when the text holds a French number or a ten-digit run |
| CvExtractor.ParseFailsOnPhone | supabase/functions/extract-cv-data/index.ts:86-90 | the parse throws exactly when the text holds a phone number |
| CvExtractor.IntendedTableShape | supabase/functions/extract-cv-data/index.ts:5-31 | the table with grouped telephone patterns has the same keys and groups in every list |
| CvExtractor.ParseExtractedTextIntended | supabase/functions/extract-cv-data/index.ts:81-97 | with grouped telephone patterns the parse never throws |
| CvExtractor.IntendedReportsPhone | supabase/functions/extract-cv-data/index.ts:17-20 | with grouped telephone patterns the raw text is kept and the telephone key is present exactly when the text holds a phone number |
| CvExtractor.DecoderFor | supabase/functions/extract-cv-data/index.ts:37-47 | pdf-lib exactly for the PDF type, mammoth exactly for the DOCX type, UTF-8 decoding otherwise |
| CvExtractor.ExtractData | supabase/functions/extract-cv-data/index.ts:33-50 | extraction throws exactly when the decoded text holds a phone number |
| CvExtractorExamples.NomOfNameCard | supabase/functions/extract-cv-data/index.ts:7 | on `Prénom: Jean` / `Nom: Dupont` the `nom` entry captures `Jean` |
| CvExtractorExamples.NomFoundInsidePrenom | supabase/functions/extract-cv-data/index.ts:7 | the `nom` label matches inside `Prénom` first, so its value is the first name |
| CvExtractorExamples.PosteCapturesNextLine | supabase/functions/extract-cv-data/index.ts:26 | on `poste:` followed by a line break and `Dev`, the job-title entry captures `Dev` from the next line |
| CvExtractorExamples.ColonIsNotTheValue | supabase/functions/extract-cv-data/index.ts:26 | the pattern also accepts the colon as the value, but no first-alternative match has it, because a longer separator admits a value |
| CvExtractorExamples.NomAtThree | supabase/functions/extract-cv-data/index.ts:7 | the attempt at index 3, inside `Prénom`, captures indices 8 to 12 |
| CvExtractorExamples.NoNomBefore | supabase/functions/extract-cv-data/index.ts:7 | no attempt before index 3 succeeds |
| ApiExtractCvData.DecoderFor | api/lib/extractCVData.ts:12-32 | a refusal carries `Format non supporté`; otherwise the decoder is pdf-parse, mammoth or textract |
| ApiExtractCvData.DecoderForCases | api/lib/extractCVData.ts:12-32 | a lower-cased path ending in `.pdf`, `.docx` or `.doc` gets its decoder; so does a path that is exactly one of those words, since `split('.').pop()` of a path without a dot is the whole path; every other path is refused |
| ApiExtractCvData.ParseText | api/lib/extractCVData.ts:39-84 | name, first name and address are null, the lists are empty, and the full text is the prefix of length min(5000, length) |
| ApiExtractCvData.ExtractCvData | api/lib/extractCVData.ts:11-35 | refused exactly when the extension is unknown; otherwise the full text comes from the chosen decoder's output |
| ApiExtractCvData.TelephoneIsLeftmost | api/lib/extractCVData.ts:64-67 | the phone is missing exactly when no French number occurs; otherwise it is the leftmost number, longest at its start, and any such number is the phone |
| ApiExtractCvData.LinkedInIsLeftmost | api/lib/extractCVData.ts:69-72 | the LinkedIn address is missing exactly when none occurs; otherwise it is the leftmost one, its path running as far as it can before white space or `)`, and any such address is the one found |
| ApiExtractCvData.PortfolioIsLeftmost | api/lib/extractCVData.ts:74-77 | the portfolio is missing exactly when no address reaching `.dev`, `.me`, `.com` or `.io` occurs; otherwise it is the leftmost one, longest at its start, and any such address is the one found |
| Strings.ExtensionOfLowered | api/lib/extractCVData.ts:12 | taking the last dot-segment and lower-casing commute |
| NameExtractor.SplitName | utils/nameExtractor.ts:2-22 | the two names are null together |
| NameExtractor.SplitNameIsLeftmostPair | utils/nameExtractor.ts:7-19 | both names are null exactly when no pair of capitalised words occurs; otherwise `nom` is the first word and `prenom` the second word of the leftmost pair, longest at its start, and the words of any such pair are the names found |
| NameExtractor.NamesAreCapitalised | utils/nameExtractor.ts:7 | each name found starts with an ASCII capital and has at least two characters |
| ResumeText.NamesOf | supabase/functions/extract-resume-text/index.ts:31-35 | `nom` is never null |
| ResumeText.NamesOfWords | supabase/functions/extract-resume-text/index.ts:30-35 | a line without a space is `nom`; otherwise `prenom` is the first word and `nom` the text up to the next space, unless that is empty, in which case the first word is `nom` and `prenom` is null |
| ResumeText.DoubleSpaceDropsSecondWord | supabase/functions/extract-resume-text/index.ts:31-35 | `Jean  Dupont` gives `nom` `Jean` and no `prenom` |
| ResumeText.EmptyTextNames | supabase/functions/extract-resume-text/index.ts:30-35 | an empty text gives the empty `nom` and a null `prenom` |
| ResumeText.Extract | supabase/functions/extract-resume-text/index.ts:27-35 | `nom` is never null |
| ResumeText.TelephoneIsLeftmost | supabase/functions/extract-resume-text/index.ts:28 | the phone is missing exactly when no number occurs; otherwise it is the leftmost number, longest at its start, and any such number is the phone |
| ResumeText.EmailIsLeftmost | supabase/functions/extract-resume-text/index.ts:27 | the e-mail is missing exactly when no address occurs; otherwise it is the leftmost address, longest at its start, and any such address is the e-mail |
| UploadGate.Gate | supabase/functions/handle-resume-upload.ts:5-33 | the answer is 403 exactly when the trigger header is not `true`; a forwarded request has the right bucket and an allowed extension |
| UploadGate.GateDecisions | supabase/functions/handle-resume-upload.ts:5-33 | `Wrong bucket` exactly when the trigger passes and the bucket is wrong; `Unsupported file type` exactly when both pass and the key's extension is not allowed; forwarded, with the key as address, exactly when all three pass |
| UploadGate.TriggerCheckedFirst | supabase/functions/handle-resume-upload.ts:5-15 | without the trigger header the answer is 403 whatever the body |
| UploadGate.AllowedExtensionCases | supabase/functions/handle-resume-upload.ts:27-30 | a key passes exactly when, lower-cased, it ends in `.pdf`, `.docx`, `.doc` or `.txt` or is one of those words |
| DocumentParserJs.ParseDocument | services/documentParser.js:6-22 | a refusal names the mimetype; a decoder is given only for the PDF, DOCX and msword types |
| DocumentParserJs.ParseDocumentCases | services/documentParser.js:6-22 | pdf-parse exactly for PDF, mammoth exactly for DOCX, officeparser exactly for `application/msword` |
| DocumentParserJs.ParseBuffer | services/documentParser.js:24-40 | as written, the only decoder ever reached is mammoth |
| DocumentParserJs.ParseBufferRejectsEveryPdf | services/documentParser.js:26-39 | every `%PDF` buffer fails with the reference error, and exactly the `PK` buffers are decoded |
| DocumentParserJs.PdfHeaderFails | services/documentParser.js:26-30 | a buffer starting `%PDF-1.4` fails |
| DocumentParserJs.ParseBufferIntended | services/documentParser.js:24-40 | with the PDF branch calling the imported `pdf`, a refusal carries the unsupported-format message |
| DocumentParserJs.ParseBufferIntendedCases | services/documentParser.js:26-39 | pdf-parse exactly for a `%PDF` head, mammoth exactly for a `PK` head, a refusal otherwise |
| DocumentParserJs.OnlyParseDocumentExported | services/documentParser.js:57-63 | only `parseDocument` is exported |
| FetchToBuffer.Filename | utils/fetchToBuffer.ts:6 | the name is never empty and holds neither `/` nor `?` |
| FetchToBuffer.FilenameCases | utils/fetchToBuffer.ts:6 | `cv.bin` when the part before the first `?` is empty or ends in `/`; otherwise that part is a directory prefix followed by the name |
| FetchToBuffer.FilenameOfPath | utils/fetchToBuffer.ts:6 | a name after any directory and before any query is the name derived |
| FetchToBuffer.PlainNameUnchanged | utils/fetchToBuffer.ts:6 | a non-empty address with neither `/` nor `?` is its own name |

## Left out

- Decoders (pdfjs, pdf-parse, pdf-lib, mammoth, textract, officeparser, TextDecoder) are foreign libraries. They appear only as tags, and their output is a parameter.
- Storage, database, HTTP and file-system calls are I/O: the routers, the upserts, the download in `fetchToBuffer`, and the forward call and its reply in the upload webhook. `api/lib/extractCVData.ts` reads the file again from its path; the model takes the decoded text as a parameter.
- The `parsed_at` timestamp of `utils/extractInfo.js` depends on the clock.
- `ResumeParser.extractSkills` calls a tokenizer and a stemmer that the class never defines.
- The `competences` pattern of `api/lib/extractInfo.ts` (line 15) has an optional group around a `...` wildcard and matches empty strings. No intent can be stated for it.
- `parseFromUrl` of `services/documentParser.js` is not exported and does I/O. `services/documentParser.ts` computes a deduplicated link list that it never returns.
- The two shadowed definitions of `extractInfo` in `utils/extractInfo.js` (lines 1-16 and 39-48) are unreachable from callers.
- Case mapping is modelled on ASCII and Latin-1, plus `ÿ`↔`Ÿ` for the `i` flag. Letters outside that range keep their own form, whereas JavaScript would map them.
- UploadGate.Gate: a JSON body whose `bucket` or `object.key` is not a string is modelled as a missing field.
- ResumeParser.ExtractContactInfo: the phone matcher is a parameter that recognises exactly the pattern's language. The phone number found is stated to start at the leftmost place a number starts. Where it ends depends on which overlapping alternative the backtracking search prefers, and that preference is not modelled.
- UtilsExtractInfo.ExtractPhone: the same, for the phone pattern of `utils/extractInfo.js`: the match found starts leftmost, and its end is not modelled.
- ResumeParser.ContactInfoFields: the phone clause states only the leftmost start of the number found, for the reason given for `ResumeParser.ExtractContactInfo`; the e-mail and LinkedIn fields are pinned.
- UtilsExtractInfo.DialMatchEndsInDigits: states the leftmost start of the number found and not its end, for the reason given for `UtilsExtractInfo.ExtractPhone`.
- Characters outside the Basic Multilingual Plane (an emoji, say) are one `char` in the model and two UTF-16 code units in JavaScript. On text that holds them, `slice(0, 400)`, `slice(0, 5000)` and the code-unit counting of `.{20,100}` and `.` differ from JavaScript. A lone surrogate cannot be represented at all.

## Findings

| source | as written | input that shows it | evidently intended | confidence | as-written member | corrected member |
|---|---|---|---|---|---|---|
| supabase/functions/extract-cv-data/index.ts:17-20 | the telephone patterns have no capture group, yet every match is read as `match[1].trim()`, which throws a TypeError | any text holding `0612345678` | the telephone patterns wrapped in a group, so the number is stored | high; not executed | CvExtractor.ParseFailsOnPhone | CvExtractor.IntendedReportsPhone |
| services/documentParser.js:30 | the PDF branch calls `pdfParse`, which the file never binds (pdf-parse is imported as `pdf`) | a buffer starting `%PDF-1.4` | call the imported `pdf` | high; not executed | DocumentParserJs.ParseBufferRejectsEveryPdf | DocumentParserJs.ParseBufferIntendedCases |
| utils/resumeParser.ts:109 | the top-level label class `[A-Z\|a-z]` also contains `\|` | `a@b.\|x` passes as an address | `[A-Za-z]` | medium; not executed | ResumeParser.PipeTopLevelAccepted | ResumeParser.ExtractContactInfoIntended |
