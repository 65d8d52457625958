/**
 * `api/lib/extractCVData.ts`: the decoder chosen by the file's extension, then a
 * candidate read off the text. The e-mail address, phone number, LinkedIn address and
 * portfolio address are the first matches of their patterns; the name, postal address
 * and list fields are placeholders that are always empty; the text is kept up to 5000
 * characters.
 */
module ApiExtractCvData {
  import opened Common
  import opened Chars
  import opened Strings
  import opened Matching
  import opened Phones
  import opened Urls
  import opened Emails
  import opened Formats

  // ---------------------------------------------------------------------------
  // extension

  /** The decoder for an extension: pdf-parse, mammoth or textract; anything else is
      refused. */
  function DecoderFor(filePath: string): (r: Result<Decoder>)
    ensures r.Failure? ==> r.message == "Format non supporté"
    ensures r.Success? ==> r.value in {PdfParse, Mammoth, Textract}
  {
    var ext := Extension(filePath);
    if ext == "pdf" then Success(PdfParse)
    else if ext == "docx" then Success(Mammoth)
    else if ext == "doc" then Success(Textract)
    else Failure("Format non supporté")
  }

  /** A path ending in `.pdf`, `.docx` or `.doc`, in any case, or that is exactly one of
      those words, has a decoder; every other path is refused. */
  lemma DecoderForCases(filePath: string)
    ensures var lower := LowerString(filePath);
      DecoderFor(filePath) ==
        if EndsWithPiece(lower, '.', "pdf") then Success(PdfParse)
        else if EndsWithPiece(lower, '.', "docx") then Success(Mammoth)
        else if EndsWithPiece(lower, '.', "doc") then Success(Textract)
        else Failure("Format non supporté")
  {
    var lower := LowerString(filePath);
    ExtensionOfLowered(filePath);
    AfterLastIs(lower, '.', "pdf");
    AfterLastIs(lower, '.', "docx");
    AfterLastIs(lower, '.', "doc");
  }

  // ---------------------------------------------------------------------------
  // the candidate

  datatype Candidate = Candidate(
    nom: Option<string>, prenom: Option<string>, email: Option<string>, telephone: Option<string>,
    adresse: Option<string>, linkedin: Option<string>, portfolio: Option<string>,
    competences: seq<string>, experiences: seq<string>, texteComplet: string)

  /** `text.match(/(\+33|0)[1-9](\s?\d{2}){4}/)`, first match or null. */
  function TelephoneOf(text: string): Option<string> {
    FrenchPhoneGreedy();
    MatchText(text, FrenchPhoneAt)
  }

  /** `text.match(/https?:\/\/(www\.)?linkedin\.com\/[^\s)]+/)`, first match or null. */
  function LinkedInOf(text: string): Option<string> {
    LinkedInNoParenGreedy();
    MatchText(text, LinkedInNoParenAt)
  }

  /** `text.match(/https?:\/\/[^\s]+\.(dev|me|com|io)/)`, first match or null. */
  function PortfolioOf(text: string): Option<string> {
    PortfolioGreedy();
    MatchText(text, PortfolioAt)
  }

  /** `parseText`. */
  function ParseText(text: string): (r: Candidate)
    ensures r.nom.None? && r.prenom.None? && r.adresse.None?
    ensures r.competences == [] && r.experiences == []
    ensures |r.texteComplet| == Min(5000, |text|) && r.texteComplet == text[..|r.texteComplet|]
  {
    Candidate(None, None, FirstEmail(LowerTldEmail, text), TelephoneOf(text), None,
      LinkedInOf(text), PortfolioOf(text), [], [], Prefix(text, 5000))
  }

  /** `extractCVData`: refused for an unknown extension, otherwise the candidate read off
      what the chosen decoder makes of the file. */
  function ExtractCvData(filePath: string, decode: Decoder -> string): (r: Result<Candidate>)
    ensures r.Failure? <==> DecoderFor(filePath).Failure?
    ensures r.Failure? ==> r.message == "Format non supporté"
    ensures r.Success? ==> r.value.texteComplet == Prefix(decode(DecoderFor(filePath).value), 5000)
  {
    match DecoderFor(filePath)
    case Failure(msg) => Failure(msg)
    case Success(decoder) => Success(ParseText(decode(decoder)))
  }

  // ---------------------------------------------------------------------------
  // the found fields

  /** The phone number is the leftmost French number, `+33` or `0`, a digit from 1 to 9
      and four pairs of digits, each optionally after one white-space character, taken
      as long as it goes; missing only when there is none. */
  lemma TelephoneIsLeftmost(text: string)
    ensures var t := TelephoneOf(text);
      && (t.None? <==> forall i, j :: 0 <= i <= j <= |text| ==> !FrenchPhoneAccepts(text, i, j))
      && (t.Some? ==> exists i: nat, j: nat :: LeftmostLongest(text, FrenchPhoneAccepts, i, j) && t.value == text[i..j])
      && (forall i: nat, j: nat :: LeftmostLongest(text, FrenchPhoneAccepts, i, j) ==> t == Some(text[i..j]))
  {
    FrenchPhoneGreedy();
    MatchTextIsLeftmostLongest(text, FrenchPhoneAt, FrenchPhoneAccepts);
  }

  /** The LinkedIn address is the leftmost one, its path running on to the first white
      space or closing parenthesis: of the addresses at the leftmost start, the longest. */
  lemma LinkedInIsLeftmost(text: string)
    ensures var l := LinkedInOf(text);
      && (l.None? <==> forall i, j :: 0 <= i <= j <= |text| ==> !LinkedInNoParenAccepts(text, i, j))
      && (l.Some? ==> exists i: nat, j: nat :: LeftmostLongest(text, LinkedInNoParenAccepts, i, j) && l.value == text[i..j])
      && (forall i: nat, j: nat :: LeftmostLongest(text, LinkedInNoParenAccepts, i, j) ==> l == Some(text[i..j]))
  {
    LinkedInNoParenGreedy();
    MatchTextIsLeftmostLongest(text, LinkedInNoParenAt, LinkedInNoParenAccepts);
  }

  /** The portfolio is the leftmost web address that reaches a `.dev`, `.me`, `.com` or
      `.io`; of those at that start, the one reaching furthest (`a.com.io` gives the whole
      of it). */
  lemma PortfolioIsLeftmost(text: string)
    ensures var p := PortfolioOf(text);
      && (p.None? <==> forall i, j :: 0 <= i <= j <= |text| ==> !PortfolioAccepts(text, i, j))
      && (p.Some? ==> exists i: nat, j: nat :: LeftmostLongest(text, PortfolioAccepts, i, j) && p.value == text[i..j])
      && (forall i: nat, j: nat :: LeftmostLongest(text, PortfolioAccepts, i, j) ==> p == Some(text[i..j]))
  {
    PortfolioGreedy();
    MatchTextIsLeftmostLongest(text, PortfolioAt, PortfolioAccepts);
  }
}
