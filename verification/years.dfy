/**
 * Hand-written recognisers for the year patterns: `\d{4}`, `20\d{2}` and the
 * case-insensitive range `(\d{4}\s*-\s*\d{4}|\d{4}\s*-\s*present)`.
 */
module Years {
  import opened Common
  import opened Chars
  import opened Strings
  import opened Matching

  // ---------------------------------------------------------------------------
  // \d{4}

  function FourDigitsAt(s: string, i: nat): Option<nat> {
    if i + 4 <= |s| && AllIn(s, i, i + 4, IsDigit) then Some(i + 4) else None
  }

  /** `s[i..j]` is four digits. */
  predicate FourDigitsAccepts(s: string, i: nat, j: nat) {
    j == i + 4 && j <= |s| && AllIn(s, i, j, IsDigit)
  }

  lemma FourDigitsGreedy()
    ensures Greedy(FourDigitsAt, FourDigitsAccepts)
  {
  }

  // ---------------------------------------------------------------------------
  // 20\d{2}

  function TwentyYearAt(s: string, i: nat): Option<nat> {
    if i + 4 <= |s| && s[i] == '2' && s[i + 1] == '0' && IsDigit(s[i + 2]) && IsDigit(s[i + 3])
    then Some(i + 4) else None
  }

  /** `s[i..j]` is `20` followed by two digits: a year of the 2000s. */
  predicate TwentyYearAccepts(s: string, i: nat, j: nat) {
    j == i + 4 && j <= |s| && s[i..i + 2] == "20" && AllIn(s, i + 2, j, IsDigit)
  }

  lemma TwentyYearGreedy()
    ensures Greedy(TwentyYearAt, TwentyYearAccepts)
  {
    forall s: string, i: nat, j: nat | i <= j <= |s| && TwentyYearAccepts(s, i, j)
      ensures TwentyYearAt(s, i) == Some(j)
    {
      assert s[i..i + 2][0] == s[i] && s[i..i + 2][1] == s[i + 1];
    }
    forall s: string, i: nat | TwentyYearAt(s, i).Some?
      ensures TwentyYearAccepts(s, i, i + 4)
    {
      assert s[i..i + 2] == [s[i], s[i + 1]];
    }
  }

  /** `/20\d{2}/.test(s)`. */
  predicate HasTwentyYear(s: string) {
    TwentyYearBounded();
    FirstMatch(s, TwentyYearAt).Some?
  }

  lemma TwentyYearBounded()
    ensures Bounded(TwentyYearAt)
  {
    TwentyYearGreedy();
  }

  /** `/20\d{2}/.test(s)` holds exactly when `s` contains `20` followed by two digits. */
  lemma HasTwentyYearMeans(s: string)
    ensures HasTwentyYear(s) <==> exists i: nat, j: nat :: TwentyYearAccepts(s, i, j)
  {
    TwentyYearGreedy();
    FirstMatchIsLeftmost(s, TwentyYearAt, TwentyYearAccepts);
  }

  // ---------------------------------------------------------------------------
  // (\d{4}\s*-\s*\d{4}|\d{4}\s*-\s*present) with the i flag

  function DurationAt(s: string, i: nat): Option<nat> {
    if !(i + 4 <= |s| && AllIn(s, i, i + 4, IsDigit)) then None
    else
      var p := RunEnd(s, i + 4, IsJsSpace);
      if !(p < |s| && s[p] == '-') then None
      else
        var q := RunEnd(s, p + 1, IsJsSpace);
        if q + 4 <= |s| && AllIn(s, q, q + 4, IsDigit) then Some(q + 4)
        else if LiteralIgnoringCaseAt(s, q, "present") then Some(q + 7)
        else None
  }

  /** The year range that ends at `j`, given the dash at `p` and the start `q` of the
      second part. */
  predicate DurationShape(s: string, i: nat, p: nat, q: nat, j: nat) {
    && i + 4 <= p < q <= j <= |s|
    && AllIn(s, i, i + 4, IsDigit)
    && AllIn(s, i + 4, p, IsJsSpace) && s[p] == '-' && AllIn(s, p + 1, q, IsJsSpace)
    && ((j == q + 4 && AllIn(s, q, j, IsDigit)) || (j == q + 7 && LiteralIgnoringCaseAt(s, q, "present")))
  }

  /** `s[i..j]` is four digits, a dash with optional white space around it, and then
      four digits or `present` in any case. */
  predicate DurationAccepts(s: string, i: nat, j: nat) {
    exists p: nat, q: nat | p < q <= j :: DurationShape(s, i, p, q, j)
  }

  lemma DurationSound(s: string, i: nat)
    requires DurationAt(s, i).Some?
    ensures i <= DurationAt(s, i).value <= |s| && DurationAccepts(s, i, DurationAt(s, i).value)
  {
    var p := RunEnd(s, i + 4, IsJsSpace);
    var q := RunEnd(s, p + 1, IsJsSpace);
    assert DurationShape(s, i, p, q, DurationAt(s, i).value);
  }

  lemma DurationComplete(s: string, i: nat, j: nat)
    requires i <= j <= |s| && DurationAccepts(s, i, j)
    ensures DurationAt(s, i) == Some(j)
  {
    var p: nat, q: nat :| p < q <= j && DurationShape(s, i, p, q, j);
    RunEndUnique(s, i + 4, p, IsJsSpace);
    if j == q + 7 {
      LiteralIgnoringCaseHead(s, q, "present");
    }
    RunEndUnique(s, p + 1, q, IsJsSpace);
  }

  lemma DurationGreedy()
    ensures Greedy(DurationAt, DurationAccepts)
  {
    forall s: string, i: nat | DurationAt(s, i).Some?
      ensures i <= DurationAt(s, i).value <= |s| && DurationAccepts(s, i, DurationAt(s, i).value)
    {
      DurationSound(s, i);
    }
    forall s: string, i: nat, j: nat | i <= j <= |s| && DurationAccepts(s, i, j)
      ensures DurationAt(s, i) == Some(j)
    {
      DurationComplete(s, i, j);
    }
  }
}
