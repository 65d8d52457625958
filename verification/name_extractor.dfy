/**
 * `utils/nameExtractor.ts`: `splitName` takes the first pair of capitalised words
 * separated by white space, the first as `nom` and the second as `prenom`.
 */
module NameExtractor {
  import opened Common
  import opened Chars
  import opened Strings
  import opened Matching
  import opened Names

  /** `splitName`. The loop over `text.matchAll(nameRegex)` stops at the first match, whose
      groups are never empty, so it reads the leftmost match of
      `([A-Z][a-zA-Z'-]+)\s+([A-Z][a-zA-Z'-]+)`. */
  function SplitName(text: string): (r: NomPrenom)
    ensures r.nom.None? <==> r.prenom.None?
  {
    NamePairGreedy();
    match FirstWordPair(text, NamePairAt, IsNameChar)
    case None => NomPrenom(None, None)
    case Some(m) => NomPrenom(Some(m.first), Some(m.second))
  }

  /** `nom` and `prenom` are the two words of a name pair at `i`, no pair starts further
      left, and no longer pair starts at `i`. */
  predicate IsLeftmostNamePair(s: string, r: NomPrenom, i: nat, a: nat, b: nat, j: nat) {
    && WordPairShape(s, i, a, b, j, IsNameChar, IsNameChar, false)
    && r.nom == Some(s[i..a]) && r.prenom == Some(s[b..j])
    && LeftmostLongest(s, NamePairAccepts, i, j)
  }

  /** Both names are missing exactly when the text holds no pair of capitalised words;
      otherwise they are the two words of the leftmost-longest pair, `nom` first, and the
      words of any such pair are the names found. */
  lemma SplitNameIsLeftmostPair(text: string)
    ensures var r := SplitName(text);
      && (r.nom.None? <==> forall i, j :: 0 <= i <= j <= |text| ==> !NamePairAccepts(text, i, j))
      && (r.nom.Some? ==> exists i: nat, a: nat, b: nat, j: nat :: IsLeftmostNamePair(text, r, i, a, b, j))
      && (forall i: nat, a: nat, b: nat, j: nat ::
            WordPairShape(text, i, a, b, j, IsNameChar, IsNameChar, false) && LeftmostLongest(text, NamePairAccepts, i, j) ==>
              r == NomPrenom(Some(text[i..a]), Some(text[b..j])))
  {
    NamePairGreedy();
    assert NoSpace(IsNameChar);
    FirstWordPairIsLeftmost(text, NamePairAt, NamePairAccepts, IsNameChar, IsNameChar, false);
    var fm := FirstWordPair(text, NamePairAt, IsNameChar);
    var r := SplitName(text);
    if fm.Some? {
      var i: nat, a: nat, b: nat, j: nat :|
        && WordPairShape(text, i, a, b, j, IsNameChar, IsNameChar, false)
        && fm.value == WordPair(text[i..a], text[b..j])
        && LeftmostLongest(text, NamePairAccepts, i, j);
      assert IsLeftmostNamePair(text, r, i, a, b, j);
    }
  }

  /** Each name found is a capital followed by at least one letter, apostrophe or
      hyphen. */
  lemma NamesAreCapitalised(text: string)
    ensures var r := SplitName(text);
      r.nom.Some? ==> |r.nom.value| >= 2 && IsAsciiUpper(r.nom.value[0]) && |r.prenom.value| >= 2 && IsAsciiUpper(r.prenom.value[0])
  {
    SplitNameIsLeftmostPair(text);
    var r := SplitName(text);
    if r.nom.Some? {
      var i: nat, a: nat, b: nat, j: nat :| IsLeftmostNamePair(text, r, i, a, b, j);
      assert r.nom.value[0] == text[i];
      assert r.prenom.value[0] == text[b];
    }
  }
}
