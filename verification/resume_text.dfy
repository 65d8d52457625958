/**
 * `supabase/functions/extract-resume-text/index.ts`: the fields read off a résumé's text
 * before they are inserted: the first address and phone number, and the names from the
 * first two space-separated words of the trimmed first line.
 */
module ResumeText {
  import opened Common
  import opened Strings
  import opened Matching
  import opened Phones
  import opened Emails

  datatype Extracted = Extracted(nom: Option<string>, prenom: Option<string>, email: Option<string>, telephone: Option<string>)

  /** `text.split("\n")[0].trim()`. */
  function FirstLine(text: string): string {
    Trim(Lines(text)[0])
  }

  /** `let [prenom, nom] = firstLine.split(" ")`, then, when `nom` is missing or empty,
      `nom = prenom ?? null; prenom = null`. The split always has a first piece, so `nom`
      is never null. */
  function NamesOf(line: string): (r: NomPrenom)
    ensures r.nom.Some?
  {
    var parts := Split(line, ' ');
    if |parts| > 1 && parts[1] != "" then NomPrenom(Some(parts[1]), Some(parts[0]))
    else NomPrenom(Some(parts[0]), None)
  }

  /** Without a space the whole line is `nom`. With one, `prenom` is the text before the
      first space and `nom` the text between it and the next space; when that is empty
      (two spaces in a row, or a trailing space) the first word becomes `nom` and `prenom`
      is null. */
  lemma {:induction false} NamesOfWords(line: string)
    ensures var r := NamesOf(line);
      ' ' !in line ==> r == NomPrenom(Some(line), None)
    ensures var r := NamesOf(line);
      var w := BeforeFirst(line, ' ');
      ' ' in line ==> (
        && |w| < |line|
        && var second := BeforeFirst(line[|w| + 1..], ' ');
          r == if second == "" then NomPrenom(Some(w), None) else NomPrenom(Some(second), Some(w)))
  {
    var parts := Split(line, ' ');
    SplitWithoutSeparator(line, ' ');
    if |parts| > 1 {
      var rest := Join(parts[1..], ' ');
      assert parts == [parts[0]] + parts[1..];
      assert line == parts[0] + [' '] + rest;
      assert line[|parts[0]| + 1..] == rest;
      SplitJoin(parts[1..], ' ');
    }
  }

  /** A double space after the first word loses the second: `Jean  Dupont` gives `nom`
      `Jean` and no `prenom`. */
  lemma DoubleSpaceDropsSecondWord()
    ensures NamesOf("Jean  Dupont") == NomPrenom(Some("Jean"), None)
  {
    assert "Jean  Dupont" == "Jean" + [' '] + " Dupont";
    SplitAfterPiece("Jean", ' ', " Dupont");
    assert " Dupont" == "" + [' '] + "Dupont";
    SplitAfterPiece("", ' ', "Dupont");
  }

  /** `text.match(/[A-Z0-9._%+-]+@[A-Z0-9.-]+\.[A-Z]{2,}/i)?.[0] ?? null`. Under the `i`
      flag `[A-Z]` also takes the lower-case ASCII letters and nothing else, since a
      non-ASCII letter whose upper case is ASCII keeps its own canonical form. */
  function EmailOf(text: string): Option<string> {
    FirstEmail(AnyCaseEmail, text)
  }

  /** `text.match(/(\+?\d[\d .-]{7,}\d)/)?.[0] ?? null`. */
  function TelephoneOf(text: string): Option<string> {
    DottedPhoneGreedy();
    MatchText(text, DottedPhoneAt)
  }

  /** The four fields the function inserts, besides the file path. */
  function Extract(text: string): (r: Extracted)
    ensures r.nom.Some?
  {
    var names := NamesOf(FirstLine(text));
    Extracted(names.nom, names.prenom, EmailOf(text), TelephoneOf(text))
  }

  /** An empty text has the empty first line, so `nom` is the empty string and `prenom`
      is null. */
  lemma EmptyTextNames()
    ensures Extract("").nom == Some("") && Extract("").prenom == None
  {
    NamesOfWords("");
  }

  /** The phone number is the leftmost run of an optional `+`, a digit, at least seven
      digits, spaces, dots or dashes, and a closing digit, as long as it goes at that
      start; null only when there is none. */
  lemma TelephoneIsLeftmost(text: string)
    ensures var t := TelephoneOf(text);
      && (t.None? <==> forall i, j :: 0 <= i <= j <= |text| ==> !DottedPhoneAccepts(text, i, j))
      && (t.Some? ==> exists i: nat, j: nat :: LeftmostLongest(text, DottedPhoneAccepts, i, j) && t.value == text[i..j])
      && (forall i: nat, j: nat :: LeftmostLongest(text, DottedPhoneAccepts, i, j) ==> t == Some(text[i..j]))
  {
    DottedPhoneGreedy();
    MatchTextIsLeftmostLongest(text, DottedPhoneAt, DottedPhoneAccepts);
  }

  /** The address is the leftmost one, as long as it goes at that start; null only when
      there is none. */
  lemma EmailIsLeftmost(text: string)
    ensures var e := EmailOf(text);
      && (e.None? <==> forall i, j :: 0 <= i <= j <= |text| ==> !EmailAccepts(AnyCaseEmail, text, i, j))
      && (e.Some? ==> exists i: nat, j: nat :: IsFirstEmail(AnyCaseEmail, text, i, j) && e.value == text[i..j])
      && (forall i: nat, j: nat :: IsFirstEmail(AnyCaseEmail, text, i, j) ==> e == Some(text[i..j]))
  {
    FirstEmailIsLeftmost(AnyCaseEmail, text);
  }
}
