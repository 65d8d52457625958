/**
 * Worked cases of `parseExtractedText`'s label patterns: the label `nom` has no word
 * boundary, so it matches inside `Prénom`; and the value of `poste:` on its own line is
 * read from the next line, since the separator takes the colon and the line break.
 */
module CvExtractorExamples {
  import opened Common
  import opened Chars
  import opened Matching
  import opened CvExtractor

  const NameCard: string := "Prénom: Jean\nNom: Dupont"

  const NomLabel: LabelPattern := LabelPattern([["nom"]], true, NameWord)

  /** On this card the `nom` entry reports the first name, `Jean`. */
  lemma NomOfNameCard()
    ensures FirstCapture(HitsOf(NameCard), NomPatterns) == Some(Group("Jean"))
  {
    NomFoundInsidePrenom();
    assert HasGroup(NomPatterns[0]);
  }

  /** The `nom` label also matches inside `Prénom`, so the surname is read off the first
      name line of this card. */
  lemma NomFoundInsidePrenom()
    ensures MatchOf(NameCard, NomPatterns[0]) == Some("Jean")
  {
    assert NomPatterns[0] == Labelled(NomLabel);
    forall j | 0 <= j < 3 ensures LabelledAt(NameCard, j, NomLabel, 0).None? {
      NoNomBefore(j);
    }
    NomAtThree();
    FirstLabelledIsLeftmost(NameCard, NomLabel, 0, 3);
    JeanAtEight();
  }

  lemma JeanAtEight()
    ensures NameCard[8..12] == "Jean"
  {
    var v := NameCard[8..12];
    assert v[0] == 'J' && v[1] == 'e' && v[2] == 'a' && v[3] == 'n';
  }

  lemma NoNomBefore(i: nat)
    requires i < 3
    ensures LabelledAt(NameCard, i, NomLabel, 0).None?
  {
    if LiteralIgnoringCaseAt(NameCard, i, "nom") {
      LiteralIgnoringCaseHead(NameCard, i, "nom");
    }
    assert LabelEnd(NameCard, i, ["nom"]).None?;
  }

  lemma NomAtThree()
    ensures LabelledAt(NameCard, 3, NomLabel, 0) == Some((8, 12))
  {
    NomLabelEnd();
    SeparatorStarts();
    FirstNameValue();
  }

  lemma NomLabelEnd()
    ensures LabelEnd(NameCard, 3, ["nom"]) == Some(6)
  {
  }

  /** After `nom`: no space, the colon, then one space. */
  lemma SeparatorStarts()
    ensures AfterSpaceAndColon(NameCard, 6) == [8, 7, 6]
  {
    assert RunEnd(NameCard, 6, IsJsSpace) == 6;
    assert RunEnd(NameCard, 8, IsJsSpace) == 8;
    assert RunEnd(NameCard, 7, IsJsSpace) == 8;
  }

  lemma FirstNameValue()
    ensures ValueEnd(NameWord, NameCard, 8) == Some(12)
  {
  }

  const PosteCard: string := "poste:\nDev"

  const PosteLabel: LabelPattern := LabelPattern([["poste"], ["métier"], ["profession"]], true, RestOfLine)

  /** After `poste`: no space, the colon, then the line break. */
  lemma PosteSeparatorStarts()
    ensures AfterSpaceAndColon(PosteCard, 5) == [7, 6, 5]
  {
    assert RunEnd(PosteCard, 5, IsJsSpace) == 5;
    assert RunEnd(PosteCard, 6, IsJsSpace) == 7;
  }

  /** The `métiers` entry captures `Dev`, on the line after the label. */
  lemma PosteCapturesNextLine()
    ensures MetiersPatterns[0] == Labelled(PosteLabel)
    ensures LabelledAt(PosteCard, 0, PosteLabel, 0) == Some((7, 10))
  {
    assert LabelEnd(PosteCard, 0, ["poste"]) == Some(5);
    PosteSeparatorStarts();
    assert ValueEnd(RestOfLine, PosteCard, 7) == Some(10);
  }

  /** The pattern also accepts the colon as a one-character value, but that is not the
      match reported: a longer separator admits a value. */
  lemma ColonIsNotTheValue()
    ensures AlternativeAccepts(PosteCard, 0, PosteLabel, 0, 5, 6)
    ensures !FirstAlternative(PosteCard, 0, PosteLabel, 0, 0, 5, 6)
  {
    assert LabelAccepts(PosteCard, 0, PosteLabel.labels[0], 5);
    assert SeparatorAccepts(PosteCard, 5, 5, true) by {
      assert AllIn(PosteCard, 5, 5, IsJsSpace) && ColonThenSpace(PosteCard, 5, 5);
    }
    assert ValueAccepts(RestOfLine, PosteCard, 5, 6);
    assert SeparatorAccepts(PosteCard, 5, 7, true) by {
      assert AllIn(PosteCard, 5, 5, IsJsSpace) && ColonThenSpace(PosteCard, 5, 7);
    }
    assert ValueAccepts(RestOfLine, PosteCard, 7, 10);
    assert AlternativeAccepts(PosteCard, 0, PosteLabel, 0, 7, 10);
  }
}
